/** Counting facts used by the ranking proofs: how many elements of a
    sequence satisfy a predicate, and how that number relates to the size
    of the set of distinct elements. */
module Counting {

  predicate Distinct<T(==)>(s: seq<T>) {
    forall i, j :: 0 <= i < j < |s| ==> s[i] != s[j]
  }

  /** Number of elements of `s` satisfying `p`. */
  function CountIf<T>(s: seq<T>, p: T -> bool): (n: nat)
    ensures n <= |s|
  {
    if |s| == 0 then 0 else (if p(s[0]) then 1 else 0) + CountIf(s[1..], p)
  }

  function Sum(s: seq<nat>): nat {
    if |s| == 0 then 0 else s[0] + Sum(s[1..])
  }

  /** When `p` holds exactly at the positions lo..hi-1, it is counted hi - lo times. */
  lemma {:induction false} CountRange<T>(s: seq<T>, p: T -> bool, lo: nat, hi: nat)
    requires lo <= hi <= |s|
    requires forall q :: 0 <= q < |s| ==> (p(s[q]) <==> lo <= q < hi)
    ensures CountIf(s, p) == hi - lo
  {
    if |s| > 0 {
      var t := s[1..];
      assert forall q :: 0 <= q < |t| ==> t[q] == s[q + 1];
      if lo == 0 {
        if hi > 0 {
          CountRange(t, p, 0, hi - 1);
        } else {
          CountRange(t, p, 0, 0);
        }
      } else {
        CountRange(t, p, lo - 1, hi - 1);
      }
    }
  }

  /** Two predicates that agree on the elements of `s` count the same. */
  lemma {:induction false} CountIfCongruent<T>(s: seq<T>, p: T -> bool, q: T -> bool)
    requires forall x :: x in s ==> (p(x) <==> q(x))
    ensures CountIf(s, p) == CountIf(s, q)
  {
    if |s| > 0 {
      assert forall x :: x in s[1..] ==> x in s;
      CountIfCongruent(s[1..], p, q);
    }
  }

  /** Counting over the image of a sequence is counting the composed predicate. */
  lemma {:induction false} CountIfMap<T, U>(s: seq<T>, f: T -> U, p: U -> bool)
    ensures CountIf(seq(|s|, i requires 0 <= i < |s| => f(s[i])), p) == CountIf(s, x => p(f(x)))
  {
    var m := seq(|s|, i requires 0 <= i < |s| => f(s[i]));
    if |s| > 0 {
      var m' := seq(|s[1..]|, i requires 0 <= i < |s[1..]| => f(s[1..][i]));
      assert m[1..] == m';
      CountIfMap(s[1..], f, p);
    }
  }

  /** The tail of a sequence without repetitions has none either, and
      lacks the head. */
  lemma DistinctTail<T>(s: seq<T>)
    requires Distinct(s) && |s| > 0
    ensures Distinct(s[1..]) && s[0] !in s[1..]
    ensures forall y :: y in s <==> y == s[0] || y in s[1..]
  {
    var t := s[1..];
    forall i, j | 0 <= i < j < |t| ensures t[i] != t[j] {
      assert t[i] == s[i + 1] && t[j] == s[j + 1];
    }
    forall k | 0 <= k < |t| ensures t[k] != s[0] {
      assert t[k] == s[k + 1];
    }
    assert s == [s[0]] + t;
  }

  /** Over a sequence without repetitions, the count of `p` is the size of
      the set of distinct elements satisfying `p`. */
  lemma {:induction false} DistinctCount<T>(s: seq<T>, p: T -> bool, chosen: set<T>)
    requires Distinct(s)
    requires forall y :: y in chosen <==> y in s && p(y)
    ensures |chosen| == CountIf(s, p)
  {
    if |s| > 0 {
      var t := s[1..];
      DistinctTail(s);
      var rest := chosen - {s[0]};
      DistinctCount(t, p, rest);
      if p(s[0]) {
        assert chosen == rest + {s[0]};
      } else {
        assert chosen == rest;
      }
    } else {
      assert chosen == {};
    }
  }

  /** A sequence without repetitions has as many distinct elements as entries. */
  lemma {:induction false} DistinctSetSize<T>(s: seq<T>)
    requires Distinct(s)
    ensures |set y | y in s| == |s|
  {
    if |s| > 0 {
      var t := s[1..];
      assert Distinct(t) by {
        forall i, j | 0 <= i < j < |t| ensures t[i] != t[j] {
          assert t[i] == s[i + 1] && t[j] == s[j + 1];
        }
      }
      DistinctSetSize(t);
      assert s[0] !in t by {
        forall k | 0 <= k < |t| ensures t[k] != s[0] {
          assert t[k] == s[k + 1];
        }
      }
      assert (set y | y in s) == (set y | y in t) + {s[0]} by {
        assert s == [s[0]] + t;
      }
    }
  }

  /** A subset is no larger than its superset. */
  lemma {:induction false} SubsetSize<T>(a: set<T>, b: set<T>)
    requires a <= b
    ensures |a| <= |b|
    decreases |b|
  {
    if a != {} {
      var x :| x in a;
      SubsetSize(a - {x}, b - {x});
    }
  }

  /** Counting over a concatenation adds the counts of the parts. */
  lemma {:induction false} CountIfConcat<T>(a: seq<T>, b: seq<T>, p: T -> bool)
    ensures CountIf(a + b, p) == CountIf(a, p) + CountIf(b, p)
  {
    if |a| > 0 {
      CountIfConcat(a[1..], b, p);
      assert (a + b)[0] == a[0] && (a + b)[1..] == a[1..] + b;
    } else {
      assert a + b == b;
    }
  }

  /** Counting over a sequence adds the counts of its two parts around `n`. */
  lemma CountIfSplit<T>(s: seq<T>, p: T -> bool, n: nat)
    requires n <= |s|
    ensures CountIf(s, p) == CountIf(s[..n], p) + CountIf(s[n..], p)
  {
    assert s == s[..n] + s[n..];
    CountIfConcat(s[..n], s[n..], p);
  }

  /** A map that is one-to-one on `a` has an image as large as `a`. */
  lemma {:induction false} InjectiveImage<T, U>(a: set<T>, f: T -> U, b: set<U>)
    requires forall x, y :: x in a && y in a && f(x) == f(y) ==> x == y
    requires forall x :: x in a ==> f(x) in b
    requires forall z :: z in b ==> exists x :: x in a && f(x) == z
    ensures |b| == |a|
    decreases |a|
  {
    if a != {} {
      var x :| x in a;
      var a', b' := a - {x}, b - {f(x)};
      forall z | z in b' ensures exists w :: w in a' && f(w) == z {
        var w :| w in a && f(w) == z;
        assert w in a';
      }
      InjectiveImage(a', f, b');
      assert |b| == |b'| + 1 && |a| == |a'| + 1;
    }
  }

  /** Counting a non-empty prefix: its first element, then the rest of it. */
  lemma CountIfPrefix<T>(s: seq<T>, p: T -> bool, n: nat)
    requires 0 < n <= |s|
    ensures CountIf(s[..n], p) == (if p(s[0]) then 1 else 0) + CountIf(s[1..][..n - 1], p)
  {
    assert s[..n][1..] == s[1..][..n - 1];
  }
}
