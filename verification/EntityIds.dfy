/** The shape of entity identifiers. */
module EntityIds {
  import opened Alphabets

  predicate NameCharacter(c: char) {
    'a' <= c <= 'z' || '0' <= c <= '9' || c == '_'
  }

  predicate ValidName(s: string) {
    0 < |s| <= 255 && forall i :: 0 <= i < |s| ==> NameCharacter(s[i])
  }

  /** The length of what comes before the first dot. */
  function BeforeDot(s: string): (n: nat)
    ensures n <= |s| && (n < |s| ==> s[n] == '.') && '.' !in s[..n]
  {
    if s == [] || s[0] == '.' then 0
    else
      var n := 1 + BeforeDot(s[1..]);
      assert s[..n] == [s[0]] + s[1..][..n - 1];
      n
  }

  /** A domain and an object name around the first dot. */
  predicate ValidEntityId(s: string) {
    var n := BeforeDot(s);
    n < |s| && ValidName(s[..n]) && ValidName(s[n + 1..])
  }

  const NAME_CHARACTERS := LOWER + DIGITS + "_"

  /** A short word over the characters of names. */
  ghost predicate Word(s: string) {
    1 <= |s| <= 255 && forall c :: c in s ==> c in NAME_CHARACTERS
  }

  /** Entity identifiers are two words around a dot. */
  lemma TwoWords(s: string)
    ensures ValidEntityId(s) <==> exists domain, name :: Word(domain) && Word(name) && s == domain + "." + name
  {
    var n := BeforeDot(s);
    if ValidEntityId(s) {
      NamesAreWords(s[..n]);
      NamesAreWords(s[n + 1..]);
      assert s == s[..n] + "." + s[n + 1..];
    }
    if domain, name :| Word(domain) && Word(name) && s == domain + "." + name {
      NamesAreWords(domain);
      NamesAreWords(name);
      FirstDot(s, domain, name);
      assert s[..n] == domain && s[n + 1..] == name;
    }
  }

  lemma NamesAreWords(s: string)
    ensures ValidName(s) <==> Word(s)
  {
    forall c: char
      ensures NameCharacter(c) <==> c in NAME_CHARACTERS
    {
      LettersAreRanges(c);
    }
    if ValidName(s) {
      assert forall c :: c in s ==> NameCharacter(c);
    }
    if Word(s) {
      forall i | 0 <= i < |s|
        ensures NameCharacter(s[i])
      {
        assert s[i] in s;
      }
    }
  }

  lemma FirstDot(s: string, domain: string, name: string)
    requires Word(domain) && s == domain + "." + name
    ensures BeforeDot(s) == |domain|
  {
    var n := BeforeDot(s);
    forall i | 0 <= i < |domain|
      ensures s[i] != '.'
    {
      assert domain[i] in domain;
    }
    assert s[|domain|] == '.' && forall i :: 0 <= i < n ==> s[i] in s[..n];
  }
}
