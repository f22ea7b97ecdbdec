/** Well-formed UTF-8 (RFC 3629), the invariant of every string of the program. */
module Utf8 {
  import opened Basics

  /** A byte that continues a character. */
  predicate Tail(b: Byte) {
    0x80 <= b <= 0xBF
  }

  /** The width of the character the bytes start with, or 0 if they start with
      none: the grammar of section 4 of RFC 3629. */
  function Width(s: Bytes): (n: nat)
    ensures n <= 4 && n <= |s|
  {
    if s == [] then 0
    else if s[0] <= 0x7F then 1
    else if 0xC2 <= s[0] <= 0xDF && |s| >= 2 && Tail(s[1]) then 2
    else if 0xE0 <= s[0] <= 0xEF && |s| >= 3 && Tail(s[1]) && Tail(s[2])
      && (s[0] == 0xE0 ==> s[1] >= 0xA0) && (s[0] == 0xED ==> s[1] <= 0x9F) then 3
    else if 0xF0 <= s[0] <= 0xF4 && |s| >= 4 && Tail(s[1]) && Tail(s[2]) && Tail(s[3])
      && (s[0] == 0xF0 ==> s[1] >= 0x90) && (s[0] == 0xF4 ==> s[1] <= 0x8F) then 4
    else 0
  }

  predicate WellFormed(s: Bytes) {
    s == [] || (Width(s) > 0 && WellFormed(s[Width(s)..]))
  }

  type Text = s: Bytes | WellFormed(s)

  /** Where a character starts or the text ends. */
  predicate Boundary(s: Bytes, i: nat)
    requires i <= |s|
  {
    i == |s| || !Tail(s[i])
  }

  lemma WidthOfLonger(s: Bytes, rest: Bytes)
    requires Width(s) > 0
    ensures Width(s + rest) == Width(s)
  {
  }

  lemma {:induction false} Joined(a: Text, b: Text)
    ensures WellFormed(a + b)
  {
    hide Width;
    if a == [] {
      assert a + b == b;
    } else {
      var w := Width(a);
      Joined(a[w..], b);
      WidthOfLonger(a, b);
      assert (a + b)[w..] == a[w..] + b;
    }
  }

  /** Every byte of a character but the first continues it. */
  lemma TailsOf(s: Bytes)
    ensures forall k :: 0 < k < Width(s) ==> Tail(s[k])
  {
  }

  lemma WidthOfPrefix(s: Bytes, i: nat)
    requires Width(s) <= i <= |s|
    ensures Width(s[..i]) == Width(s)
  {
  }

  /** A text can be cut at any boundary. */
  lemma {:induction false} Cut(s: Text, i: nat)
    requires i <= |s| && Boundary(s, i)
    ensures WellFormed(s[..i]) && WellFormed(s[i..])
    decreases |s|
  {
    hide Width;
    if i == 0 {
      assert s[0..] == s;
    } else {
      var w := Width(s);
      TailsOf(s);
      assert i >= w;
      Cut(s[w..], i - w);
      WidthOfPrefix(s, i);
      assert s[w..][i - w..] == s[i..];
      assert s[..i][w..] == s[w..][..i - w];
    }
  }

  /** What follows a text inside a text is a text. */
  lemma {:induction false} Rest(a: Text, b: Bytes)
    requires WellFormed(a + b)
    ensures WellFormed(b)
  {
    hide Width;
    if a == [] {
      assert a + b == b;
    } else {
      var w := Width(a);
      WidthOfLonger(a, b);
      assert (a + b)[w..] == a[w..] + b;
      Rest(a[w..], b);
    }
  }

  /** The occurrences of one text in another lie on character boundaries. */
  lemma OccursOnBoundaries(s: Text, needle: Text, i: nat)
    requires needle != [] && i + |needle| <= |s| && s[i..i + |needle|] == needle
    ensures Boundary(s, i) && Boundary(s, i + |needle|)
  {
    assert s[i] == needle[0];
    Cut(s, i);
    assert s[i..] == needle + s[i + |needle|..];
    Rest(needle, s[i + |needle|..]);
  }

  // ----- The encoding itself

  /** The bytes of one character, as section 3 of RFC 3629 lays them out. */
  function Bits(c: char): (b: Bytes)
    ensures 1 <= |b| <= 4
  {
    var n := c as int;
    if n < 0x80 then [n]
    else if n < 0x800 then [0xC0 + n / 0x40, 0x80 + n % 0x40]
    else if n < 0x1_0000 then [0xE0 + n / 0x1000, 0x80 + n / 0x40 % 0x40, 0x80 + n % 0x40]
    else [0xF0 + n / 0x4_0000, 0x80 + n / 0x1000 % 0x40, 0x80 + n / 0x40 % 0x40, 0x80 + n % 0x40]
  }

  function Encoding(s: string): Bytes {
    if s == [] then [] else Bits(s[0]) + Encoding(s[1..])
  }

  /** A text is well-formed exactly if it encodes some characters. */
  lemma WellFormedIsEncoding(b: Bytes)
    ensures WellFormed(b) <==> exists s :: Encoding(s) == b
  {
    if WellFormed(b) {
      var s := Characters(b);
    }
    if s :| Encoding(s) == b {
      EncodingIsWellFormed(s);
    }
  }

  lemma {:induction false} Characters(b: Bytes) returns (s: string)
    requires WellFormed(b)
    ensures Encoding(s) == b
  {
    hide Width, Bits;
    s := [];
    if b != [] {
      var c := FirstCharacter(b);
      var rest := Characters(b[Width(b)..]);
      s := [c] + rest;
      assert s[1..] == rest && b == b[..Width(b)] + b[Width(b)..];
    }
  }

  lemma FirstCharacter(b: Bytes) returns (c: char)
    requires Width(b) > 0
    ensures Bits(c) == b[..Width(b)]
  {
    if Width(b) == 1 {
      c := b[0] as char;
    } else if Width(b) == 2 {
      c := Two(b[0] - 0xC0, b[1] - 0x80);
    } else if Width(b) == 3 {
      c := Three(b[0] - 0xE0, b[1] - 0x80, b[2] - 0x80);
    } else {
      c := Four(b[0] - 0xF0, b[1] - 0x80, b[2] - 0x80, b[3] - 0x80);
    }
  }

  lemma Two(x: nat, y: nat) returns (c: char)
    requires 2 <= x < 0x20 && y < 0x40
    ensures Bits(c) == [0xC0 + x, 0x80 + y]
  {
    var n := 0x40 * x + y;
    assert n / 0x40 == x && n % 0x40 == y;
    c := n as char;
  }

  lemma Three(x: nat, y: nat, z: nat) returns (c: char)
    requires x < 0x10 && y < 0x40 && z < 0x40
    requires (x == 0 ==> y >= 0x20) && (x == 0xD ==> y < 0x20)
    ensures Bits(c) == [0xE0 + x, 0x80 + y, 0x80 + z]
  {
    var n := 0x1000 * x + 0x40 * y + z;
    assert n / 0x40 == 0x40 * x + y && n % 0x40 == z;
    assert n / 0x1000 == x && n / 0x40 % 0x40 == y;
    c := n as char;
  }

  lemma Four(w: nat, x: nat, y: nat, z: nat) returns (c: char)
    requires w <= 4 && x < 0x40 && y < 0x40 && z < 0x40
    requires (w == 0 ==> x >= 0x10) && (w == 4 ==> x < 0x10)
    ensures Bits(c) == [0xF0 + w, 0x80 + x, 0x80 + y, 0x80 + z]
  {
    var n := 0x4_0000 * w + 0x1000 * x + 0x40 * y + z;
    assert n / 0x40 == 0x1000 * w + 0x40 * x + y && n % 0x40 == z;
    assert n / 0x1000 == 0x40 * w + x && n / 0x40 % 0x40 == y;
    assert n / 0x4_0000 == w && n / 0x1000 % 0x40 == x;
    c := n as char;
  }

  lemma {:induction false} EncodingIsWellFormed(s: string)
    ensures WellFormed(Encoding(s))
  {
    hide Width, Bits;
    if s != [] {
      OneCharacter(s[0]);
      EncodingIsWellFormed(s[1..]);
      WidthOfLonger(Bits(s[0]), Encoding(s[1..]));
      assert Encoding(s)[|Bits(s[0])|..] == Encoding(s[1..]);
    }
  }

  lemma OneCharacter(c: char)
    ensures Width(Bits(c)) == |Bits(c)|
  {
  }
}
