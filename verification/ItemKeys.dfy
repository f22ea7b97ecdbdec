/** The small alphabets and shapes behind `ItemUri`, by listing them. */
module ItemKeys {
  import opened Basics
  import opened Alphabets
  import opened Utf8
  import opened ItemUri

  predicate Listed(s: string, b: Byte) {
    b as char in s
  }

  /** The bytes that identifiers are spelled with unescaped. */
  lemma UnreservedAreListed(b: Byte)
    ensures Unreserved(b) <==> Listed(LOWER + UPPER + DIGITS + "-_.~", b)
  {
    LettersAreRanges(b as char);
  }

  /** Hexadecimal digits of either case. */
  lemma DigitsAreListed(b: Byte, n: nat)
    ensures Digit(b) == Some(n) <==>
      n < 16 && ("0123456789ABCDEF"[n] as int == b || "0123456789abcdef"[n] as int == b)
  {
  }

  /** The keys of scenes and automations. */
  lemma ConfigKeysAreListed(key: Bytes)
    ensures ConfigKey(key) <==> 1 <= |key| <= 64 && forall b :: b in key ==> Listed(LOWER + DIGITS + "_", b)
  {
    forall b: Byte
      ensures LowerOrDigit(b) || b == '_' as int <==> Listed(LOWER + DIGITS + "_", b)
    {
      LettersAreRanges(b as char);
    }
    assert forall i :: 0 <= i < |key| ==> key[i] in key;
  }

  /** Which items have which keys. */
  lemma KeysOfTargets(key: Text)
    ensures ValidKey(Ascii("blueprints"), key) <==> BlueprintPath(key)
    ensures ValidKey(Ascii("scenes"), key) <==> ConfigKey(key)
    ensures ValidKey(Ascii("automations"), key) <==> ConfigKey(key)
  {
    assert Ascii("blueprints")[0] != Ascii("scenes")[0] && Ascii("blueprints")[0] != Ascii("automations")[0];
    hide BlueprintPath, ConfigKey, Ascii;
  }

  // ----- Control characters

  /** The control characters of Unicode. */
  predicate IsControl(c: char) {
    c as int < 0x20 || 0x7F <= c as int < 0xA0
  }

  /** A text has one exactly if a character of it is one. */
  lemma {:induction false} ControlsAreCharacters(s: string)
    ensures WellFormed(Encoding(s))
    ensures HasControl(Encoding(s)) <==> exists i :: 0 <= i < |s| && IsControl(s[i])
  {
    hide Width, Bits, IsControl, Control;
    EncodingIsWellFormed(s);
    if s != [] {
      OneCharacter(s[0]);
      WidthOfLonger(Bits(s[0]), Encoding(s[1..]));
      ControlBits(s[0]);
      ControlsAreCharacters(s[1..]);
      assert Encoding(s)[..|Bits(s[0])|] == Bits(s[0]);
      assert Encoding(s)[|Bits(s[0])|..] == Encoding(s[1..]);
      assert forall i :: 0 < i < |s| ==> s[i] == s[1..][i - 1];
      assert forall i :: 0 <= i < |s| - 1 ==> s[1..][i] == s[i + 1];
    }
  }

  lemma ControlBits(c: char)
    ensures Control(Bits(c)) <==> IsControl(c)
  {
  }

  // ----- Blueprint paths

  /** A component of a path. */
  ghost predicate Component(s: Bytes) {
    && 1 <= |s| <= 128 && s != Ascii(".") && s != Ascii("..")
    && forall b :: b in s ==> Listed(LOWER + UPPER + DIGITS + "-_.", b)
  }

  function Slashed(parts: seq<Bytes>): Bytes
    requires parts != []
  {
    if |parts| == 1 then parts[0] else parts[0] + [SLASH] + Slashed(parts[1..])
  }

  lemma SegmentIsComponent(s: Bytes)
    ensures PathSegment(s) <==> Component(s)
  {
    hide Ascii;
    forall b: Byte
      ensures Unreserved(b) && b != '~' as int <==> Listed(LOWER + UPPER + DIGITS + "-_.", b)
    {
      LettersAreRanges(b as char);
    }
    assert forall i :: 0 <= i < |s| ==> s[i] in s;
  }

  lemma {:induction false} SegmentsJoin(s: Bytes)
    ensures Slashed(Segments(s)) == s
    decreases |s|
  {
    match SplitOnce(s) {
      case None =>
      case Some((first, rest)) =>
        assert |rest| < |first + [SLASH] + rest|;
        SegmentsJoin(rest);
        assert Segments(s)[1..] == Segments(rest);
    }
  }

  lemma {:induction false} JoinSegments(parts: seq<Bytes>)
    requires parts != [] && forall i :: 0 <= i < |parts| ==> SLASH !in parts[i]
    ensures Segments(Slashed(parts)) == parts
  {
    if |parts| > 1 {
      JoinSegments(parts[1..]);
      SplitAtFirst(parts[0], Slashed(parts[1..]));
    }
  }

  /** Text of plain visible bytes has no control characters and no backslash. */
  lemma {:induction false} PlainText(s: Bytes)
    requires forall i :: 0 <= i < |s| ==> Unreserved(s[i]) || s[i] == SLASH
    ensures WellFormed(s) && !HasControl(s) && '\\' as int !in s
  {
    if s != [] {
      PlainText(s[1..]);
      assert Width(s) == 1;
    }
  }

  lemma {:induction false} PlainParts(parts: seq<Bytes>)
    requires parts != [] && forall i :: 0 <= i < |parts| ==> PathSegment(parts[i])
    ensures forall i :: 0 <= i < |Slashed(parts)| ==> Unreserved(Slashed(parts)[i]) || Slashed(parts)[i] == SLASH
    ensures parts[0] != [] && Slashed(parts) != [] && Slashed(parts)[0] == parts[0][0] != SLASH
    ensures forall i :: 0 <= i < |parts| ==> SLASH !in parts[i]
  {
    hide Ascii;
    if |parts| > 1 {
      PlainParts(parts[1..]);
    }
  }

  ghost predicate Components(parts: seq<Bytes>) {
    1 <= |parts| <= 8 && forall i :: 0 <= i < |parts| ==> Component(parts[i])
  }

  /** Blueprint paths are up to eight components around slashes that end in
      ".yaml"; that settles slashes in front, backslashes and control characters. */
  lemma BlueprintPathsAreComponents(path: Text)
    ensures BlueprintPath(path) <==>
      && |path| <= 255
      && (exists stem: Bytes :: path == stem + Ascii(".yaml"))
      && exists parts :: Components(parts) && path == Slashed(parts)
  {
    hide Ascii, Component, PathSegment, Unreserved;
    var suffix := Ascii(".yaml");
    assert StripSuffix(path, suffix).Some? <==> exists stem: Bytes :: path == stem + suffix by {
      if stem: Bytes :| path == stem + suffix {
        assert path[|stem|..] == suffix;
      }
      if StripSuffix(path, suffix).Some? {
        assert path == StripSuffix(path, suffix).value + suffix;
      }
    }
    if BlueprintPath(path) {
      SegmentsJoin(path);
      forall i | 0 <= i < |Segments(path)|
        ensures Component(Segments(path)[i])
      {
        SegmentIsComponent(Segments(path)[i]);
      }
      assert Components(Segments(path));
    }
    if |path| <= 255 && StripSuffix(path, suffix).Some? {
      if parts :| Components(parts) && path == Slashed(parts) {
        forall i | 0 <= i < |parts|
          ensures PathSegment(parts[i])
        {
          SegmentIsComponent(parts[i]);
        }
        PlainParts(parts);
        JoinSegments(parts);
        PlainText(path);
      }
    }
  }
}
