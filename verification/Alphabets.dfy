/** Letters and digits, listed. */
module Alphabets {
  const LOWER := "abcdefghijklmnopqrstuvwxyz"
  const UPPER := "ABCDEFGHIJKLMNOPQRSTUVWXYZ"
  const DIGITS := "0123456789"

  lemma LettersAreRanges(c: char)
    ensures c in LOWER <==> 'a' <= c <= 'z'
    ensures c in UPPER <==> 'A' <= c <= 'Z'
    ensures c in DIGITS <==> '0' <= c <= '9'
  {
    LowerIsRange(c);
    UpperIsRange(c);
    DigitsAreRange(c);
  }

  lemma LowerIsRange(c: char)
    ensures c in LOWER <==> 'a' <= c <= 'z'
  {
    Consecutive(LOWER, 'a', c);
  }

  lemma UpperIsRange(c: char)
    ensures c in UPPER <==> 'A' <= c <= 'Z'
  {
    Consecutive(UPPER, 'A', c);
  }

  lemma DigitsAreRange(c: char)
    ensures c in DIGITS <==> '0' <= c <= '9'
  {
    Consecutive(DIGITS, '0', c);
  }

  lemma Consecutive(s: string, first: char, c: char)
    requires forall i :: 0 <= i < |s| ==> s[i] as int == first as int + i
    ensures c in s <==> first as int <= c as int < first as int + |s|
  {
    if first as int <= c as int < first as int + |s| {
      assert s[c as int - first as int] == c;
    }
  }
}
