/** `AA_MAP` of the QIIME 2 plugin: the 24 protein alignment symbols, the gap
    first, each coded by its position in "-ABCDEFGHIKLMNPQRSTVWXYZ". */
module AaMap {
  import opened Results

  const Alphabet: string := "-ABCDEFGHIKLMNPQRSTVWXYZ"
  const Gap: char := '-'
  const GapCode: nat := 0
  /** Largest code `AA_MAP` hands out. */
  const MaxCode: nat := 23

  /** First position of `c` in `s`, if any. */
  function IndexOf(s: string, c: char): (r: Option<nat>)
    ensures r.Some? <==> c in s
    ensures r.Some? ==> r.value < |s| && s[r.value] == c
    ensures r.Some? ==> forall k :: 0 <= k < r.value ==> s[k] != c
  {
    if |s| == 0 then None
    else if s[0] == c then Some(0)
    else match IndexOf(s[1..], c)
      case None => None
      case Some(k) => Some(k + 1)
  }

  /** `AA_MAP[c]`, or `None` for a character the map does not hold. */
  function Code(c: char): (r: Option<nat>)
    ensures r.Some? <==> c in Alphabet
    ensures r.Some? ==> r.value <= MaxCode && Alphabet[r.value] == c
  {
    IndexOf(Alphabet, c)
  }

  /** Neighbouring symbols of the alphabet are in increasing order. */
  lemma AdjacentAscending(i: nat)
    requires 0 < i < |Alphabet|
    ensures Alphabet[i - 1] < Alphabet[i]
  {
  }

  /** The symbols are listed in strictly increasing character order: the gap,
      then the letters alphabetically. */
  lemma AlphabetAscending()
    ensures |Alphabet| == MaxCode + 1
    ensures forall i, j :: 0 <= i < j < |Alphabet| ==> Alphabet[i] < Alphabet[j]
  {
    forall i, j | 0 <= i < j < |Alphabet| ensures Alphabet[i] < Alphabet[j] {
      AscendingFrom(i, j);
    }
  }

  lemma {:induction false} AscendingFrom(i: nat, j: nat)
    requires i < j < |Alphabet|
    ensures Alphabet[i] < Alphabet[j]
    decreases j - i
  {
    AdjacentAscending(j);
    if i < j - 1 {
      AscendingFrom(i, j - 1);
    }
  }

  /** `AA_MAP` is a bijection between the 24 symbols and the codes 0..23, and
      the gap is coded 0. */
  lemma CodeBijection()
    ensures Code(Gap) == Some(GapCode)
    ensures forall k :: 0 <= k <= MaxCode ==> Code(Alphabet[k]) == Some(k)
    ensures forall c :: Code(c).Some? ==> Alphabet[Code(c).value] == c
  {
    AlphabetAscending();
    forall k | 0 <= k <= MaxCode ensures Code(Alphabet[k]) == Some(k) {
      var r := Code(Alphabet[k]).value;
      assert !(r < k) && !(k < r);
    }
  }

  /** Codes follow character order: of two mapped symbols, the one earlier in
      the alphabet has the smaller code. */
  lemma CodeMonotone(c: char, d: char)
    requires c in Alphabet && d in Alphabet
    ensures c < d <==> Code(c).value < Code(d).value
    ensures c == d <==> Code(c).value == Code(d).value
  {
    AlphabetAscending();
    var i, j := Code(c).value, Code(d).value;
    if i < j {
      assert Alphabet[i] < Alphabet[j];
    } else if j < i {
      assert Alphabet[j] < Alphabet[i];
    }
  }

  /** Exactly the gap symbol is coded 0. */
  lemma GapOnlyZero(c: char)
    ensures Code(c) == Some(GapCode) <==> c == Gap
  {
    assert Alphabet[0] == Gap;
    if c == Gap {
      assert Code(c) == Some(GapCode);
    }
  }

  /** The code of the k-th symbol of the alphabet is k. */
  lemma CodeAt(c: char, k: nat)
    requires k <= MaxCode && Alphabet[k] == c
    ensures Code(c) == Some(k)
  {
    CodeBijection();
  }

  /** Distinct symbols have distinct codes. */
  lemma CodeInjective(a: char, b: char)
    requires Code(a).Some? && Code(a) == Code(b)
    ensures a == b
  {
  }
}
