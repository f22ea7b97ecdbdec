/** Resource identifiers in URIs: percent-encoding and its one canonical form. */
module ItemUri {
  import opened Basics
  import opened Utf8

  const MAX_ENCODED_ID := 768

  /** The bytes of an ASCII literal. */
  function Ascii(s: string): (b: Bytes)
    requires forall i :: 0 <= i < |s| ==> s[i] < 128 as char
    ensures |b| == |s|
    ensures forall i :: 0 <= i < |s| ==> b[i] == s[i] as int
  {
    seq(|s|, i requires 0 <= i < |s| => s[i] as int)
  }

  const PERCENT: Byte := '%' as int
  const PLUS: Byte := '+' as int
  const SLASH: Byte := '/' as int

  // ----- Encoding

  /** The unreserved characters of section 2.3 of RFC 3986. */
  predicate Unreserved(b: Byte) {
    || 'a' as int <= b <= 'z' as int || 'A' as int <= b <= 'Z' as int || '0' as int <= b <= '9' as int
    || b == '-' as int || b == '_' as int || b == '.' as int || b == '~' as int
  }

  function UpperHex(n: nat): (b: Byte)
    requires n < 16
    ensures Digit(b) == Some(n) && b != PLUS && b != PERCENT && b != SLASH
  {
    if n < 10 then '0' as int + n else 'A' as int + n - 10
  }

  /** One byte: itself, or the percent sign and two upper-case digits. */
  function Unit(b: Byte): (u: Bytes) {
    if Unreserved(b) then [b] else [PERCENT, UpperHex(b / 16), UpperHex(b % 16)]
  }

  function Encoded(id: Bytes): Bytes {
    if id == [] then [] else Unit(id[0]) + Encoded(id[1..])
  }

  lemma {:induction false} EncodedConcat(a: Bytes, b: Bytes)
    ensures Encoded(a + b) == Encoded(a) + Encoded(b)
  {
    hide Unit;
    if a == [] {
      assert a + b == b;
    } else {
      EncodedConcat(a[1..], b);
      assert (a + b)[0] == a[0] && (a + b)[1..] == a[1..] + b;
      assert Unit(a[0]) + (Encoded(a[1..]) + Encoded(b)) == Unit(a[0]) + Encoded(a[1..]) + Encoded(b);
    }
  }

  lemma {:induction false} EncodedLength(id: Bytes)
    ensures |id| <= |Encoded(id)| <= 3 * |id|
  {
    if id != [] {
      EncodedLength(id[1..]);
    }
  }

  predicate UpperDigit(b: Byte) {
    '0' as int <= b <= '9' as int || 'A' as int <= b <= 'F' as int
  }

  /** An encoding consists of unreserved characters and of percent signs, each with
      two upper-case digits that stand for a byte that is not unreserved. */
  lemma {:induction false} EncodedIsNormal(id: Bytes, i: nat)
    requires i < |Encoded(id)| && !Unreserved(Encoded(id)[i])
    ensures
      var e := Encoded(id);
      && e[i] == PERCENT && i + 2 < |e| && UpperDigit(e[i + 1]) && UpperDigit(e[i + 2])
      && exists b: Byte :: b in id && !Unreserved(b) && b == 16 * Digit(e[i + 1]).value + Digit(e[i + 2]).value
  {
    var unit, rest := Unit(id[0]), Encoded(id[1..]);
    if i < |unit| {
      assert i == 0 && id[0] == 16 * (id[0] / 16) + id[0] % 16;
    } else {
      EncodedIsNormal(id[1..], i - |unit|);
      assert forall k :: i <= k < |Encoded(id)| ==> Encoded(id)[k] == rest[k - |unit|];
      assert forall b :: b in id[1..] ==> b in id;
    }
  }

  lemma {:induction false} EncodedHasNoSlash(id: Bytes)
    ensures SLASH !in Encoded(id)
  {
    if id != [] {
      EncodedHasNoSlash(id[1..]);
    }
  }

  function Spelling(catalog: Bytes, id: Bytes): Bytes {
    Ascii("smarthome://") + catalog + [SLASH] + Encoded(id)
  }

  /** Pushes the identifier byte by byte. */
  method WriteItemUri(catalog: Bytes, id: Bytes) returns (uri: Bytes)
    ensures uri == Spelling(catalog, id)
  {
    var encoded := [];
    for i := 0 to |id|
      invariant encoded == Encoded(id[..i])
    {
      EncodedConcat(id[..i], [id[i]]);
      assert id[..i + 1] == id[..i] + [id[i]];
      if Unreserved(id[i]) {
        encoded := encoded + [id[i]];
      } else {
        encoded := encoded + [PERCENT, UpperHex(id[i] / 16), UpperHex(id[i] % 16)];
      }
      assert Encoded([id[i]]) == Unit(id[i]);
    }
    assert id[..|id|] == id;
    return Ascii("smarthome://") + catalog + [SLASH] + encoded;
  }

  // ----- Decoding

  function Digit(b: Byte): (r: Option<nat>)
    ensures r.Some? ==> r.value < 16
  {
    if '0' as int <= b <= '9' as int then Some(b - '0' as int)
    else if 'A' as int <= b <= 'F' as int then Some(b - 'A' as int + 10)
    else if 'a' as int <= b <= 'f' as int then Some(b - 'a' as int + 10)
    else None
  }

  /** The hexadecimal parser of the standard library on two bytes: it takes
      either case, and a plus sign in front of a single digit. */
  function FromHex(high: Byte, low: Byte): Option<Byte> {
    if high == PLUS then Digit(low)
    else if Digit(high).Some? && Digit(low).Some? then Some(16 * Digit(high).value + Digit(low).value)
    else None
  }

  /** The bytes that a percent-encoded identifier stands for. */
  function Decoded(encoded: Bytes): Option<Bytes> {
    if encoded == [] then Some([])
    else if encoded[0] == PERCENT then
      if |encoded| < 3 || FromHex(encoded[1], encoded[2]).None? || Decoded(encoded[3..]).None? then None
      else Some([FromHex(encoded[1], encoded[2]).value] + Decoded(encoded[3..]).value)
    else if Decoded(encoded[1..]).None? then None
    else Some([encoded[0]] + Decoded(encoded[1..]).value)
  }

  /** The control characters: U+0000 to U+001F and U+007F to U+009F. */
  predicate Control(c: Bytes) {
    || (|c| == 1 && (c[0] < 0x20 || c[0] == 0x7F))
    || (|c| == 2 && c[0] == 0xC2 && 0x80 <= c[1] <= 0x9F)
  }

  predicate HasControl(s: Text) {
    s != [] && (Control(s[..Width(s)]) || HasControl(s[Width(s)..]))
  }

  /** What an identifier has to be. */
  predicate Identifier(id: Bytes) {
    id != [] && WellFormed(id) && !HasControl(id) && |Encoded(id)| <= MAX_ENCODED_ID
  }

  function DecodedId(encoded: Bytes): Option<Text> {
    if encoded == [] || |encoded| > MAX_ENCODED_ID then None
    else
      match Decoded(encoded)
      case None => None
      case Some(bytes) => if WellFormed(bytes) && !HasControl(bytes) then Some(bytes) else None
  }

  /** One round of the decoding loop, seen from the end: what is left to decode
      loses its first unit. */
  lemma DecodedStep(rest: Bytes)
    requires rest != []
    ensures rest[0] != PERCENT ==>
      && (Decoded(rest).None? <==> Decoded(rest[1..]).None?)
      && (Decoded(rest).Some? ==> Decoded(rest).value == [rest[0]] + Decoded(rest[1..]).value)
    ensures rest[0] == PERCENT ==>
      && (Decoded(rest).None? <==> |rest| < 3 || FromHex(rest[1], rest[2]).None? || Decoded(rest[3..]).None?)
      && (Decoded(rest).Some? ==> Decoded(rest).value == [FromHex(rest[1], rest[2]).value] + Decoded(rest[3..]).value)
  {
  }

  method DecodeBytes(encoded: Bytes) returns (r: Option<Bytes>)
    ensures r == Decoded(encoded)
  {
    hide Decoded, FromHex;
    var decoded: Bytes := [];
    var i := 0;
    while i < |encoded|
      invariant 0 <= i <= |encoded|
      invariant Decoded(encoded).None? <==> Decoded(encoded[i..]).None?
      invariant Decoded(encoded).Some? ==> Decoded(encoded).value == decoded + Decoded(encoded[i..]).value
    {
      ghost var rest := encoded[i..];
      DecodedStep(rest);
      if encoded[i] == PERCENT {
        if i + 3 > |encoded| {
          return None;
        }
        var hex := FromHex(encoded[i + 1], encoded[i + 2]);
        assert rest[3..] == encoded[i + 3..];
        if hex == None {
          return None;
        }
        decoded := decoded + [hex.value];
        i := i + 3;
      } else {
        assert rest[1..] == encoded[i + 1..];
        decoded := decoded + [encoded[i]];
        i := i + 1;
      }
    }
    NothingLeft();
    assert encoded[i..] == [] && decoded + [] == decoded;
    return Some(decoded);
  }

  lemma NothingLeft()
    ensures Decoded([]) == Some([])
  {
  }

  method DecodeItemId(encoded: Bytes) returns (r: Option<Text>)
    ensures r == DecodedId(encoded)
  {
    if encoded == [] || |encoded| > MAX_ENCODED_ID {
      return None;
    }
    var decoded := DecodeBytes(encoded);
    if decoded == None || !WellFormed(decoded.value) || HasControl(decoded.value) {
      return None;
    }
    return Some(decoded.value);
  }

  // ----- Round trips

  /** Decoding inverts encoding on all bytes whatever. */
  lemma {:induction false} DecodedEncoded(id: Bytes)
    ensures Decoded(Encoded(id)) == Some(id)
  {
    if id != [] {
      DecodedEncoded(id[1..]);
      UnitDecodes(id[0], Encoded(id[1..]));
      assert [id[0]] + id[1..] == id;
    }
  }

  lemma UnitDecodes(b: Byte, rest: Bytes)
    requires Decoded(rest).Some?
    ensures Decoded(Unit(b) + rest) == Some([b] + Decoded(rest).value)
  {
    var e := Unit(b) + rest;
    assert e[|Unit(b)|..] == rest;
    if !Unreserved(b) {
      assert e[1] == UpperHex(b / 16) && e[2] == UpperHex(b % 16);
      assert FromHex(e[1], e[2]) == Some(b);
    }
  }

  /** Exactly the identifiers survive the round trip. */
  lemma RoundTrip(id: Bytes)
    ensures DecodedId(Encoded(id)) == Some(id) <==> Identifier(id)
    ensures id != [] && |id| <= 256 && WellFormed(id) && !HasControl(id) ==> Identifier(id)
  {
    DecodedEncoded(id);
    EncodedLength(id);
  }

  lemma EncodedIsInjective(a: Bytes, b: Bytes)
    requires Encoded(a) == Encoded(b)
    ensures a == b
  {
    DecodedEncoded(a);
    DecodedEncoded(b);
  }

  /** The parser of digit pairs takes a sign. */
  lemma SignedHexIsTaken(encoded: Bytes, n: nat)
    requires n < 16 && encoded == [PERCENT, PLUS, UpperHex(n)]
    ensures Decoded(encoded).Some? && Decoded(encoded).value == [n]
  {
    NothingLeft();
    DecodedStep(encoded);
    assert encoded[3..] == [] && FromHex(encoded[1], encoded[2]) == Some(n);
  }

  /** A signed digit pair decodes to a byte below 16. */
  lemma {:induction false} SignedHexIsLow(encoded: Bytes, i: nat)
    requires i + 1 < |encoded| && encoded[i] == PERCENT && encoded[i + 1] == PLUS && Decoded(encoded).Some?
    ensures exists k :: 0 <= k < |Decoded(encoded).value| && Decoded(encoded).value[k] < 0x20
    decreases |encoded|
  {
    var d := Decoded(encoded).value;
    if i == 0 {
      assert d[0] < 0x20;
    } else {
      var step := if encoded[0] == PERCENT then 3 else 1;
      var rest := encoded[step..];
      assert encoded[0] == PERCENT ==> i >= 3;
      assert rest[i - step] == PERCENT && rest[i - step + 1] == PLUS;
      SignedHexIsLow(rest, i - step);
      var k :| 0 <= k < |Decoded(rest).value| && Decoded(rest).value[k] < 0x20;
      assert d[k + 1] < 0x20;
    }
  }

  lemma {:induction false} LowByteIsControl(s: Text, k: nat)
    requires k < |s| && s[k] < 0x20
    ensures HasControl(s)
    decreases |s|
  {
    var w := Width(s);
    if k >= w {
      assert s[w..][k - w] == s[k];
      LowByteIsControl(s[w..], k - w);
    }
  }

  /** The sign that the hexadecimal parser would take never gets through: every
      byte it could spell is a control character. */
  lemma SignedHexNeverSurvives(encoded: Bytes, i: nat)
    requires i + 1 < |encoded| && encoded[i] == PERCENT && encoded[i + 1] == PLUS
    ensures DecodedId(encoded) == None
  {
    if Decoded(encoded).Some? {
      SignedHexIsLow(encoded, i);
      var d := Decoded(encoded).value;
      var k :| 0 <= k < |d| && d[k] < 0x20;
      if WellFormed(d) {
        LowByteIsControl(d, k);
      }
    }
  }

  // ----- Resource URIs

  const AUTOMATIONS := Ascii("automations")
  const NETWORKS := Ascii("thread/networks")
  const MATTER := Ascii("matter/devices")
  const TRACES := Ascii("/traces")

  const CATALOGS := [Ascii("entities"), Ascii("devices"), Ascii("scenes"), AUTOMATIONS, Ascii("blueprints"),
    NETWORKS, MATTER]

  /** The path of a whole catalog. */
  predicate Listing(path: Bytes) {
    path in CATALOGS
  }

  datatype Resource = Catalog(path: Bytes) | Item(catalog: Bytes, id: Bytes, traces: bool)

  function StripPrefix(s: Bytes, prefix: Bytes): Option<Bytes> {
    if prefix <= s then Some(s[|prefix|..]) else None
  }

  function StripSuffix(s: Bytes, suffix: Bytes): Option<Bytes> {
    if |suffix| <= |s| && s[|s| - |suffix|..] == suffix then Some(s[..|s| - |suffix|]) else None
  }

  /** The parts before and after the first slash. */
  function SplitOnce(s: Bytes): (r: Option<(Bytes, Bytes)>)
    ensures r.Some? ==> s == r.value.0 + [SLASH] + r.value.1 && SLASH !in r.value.0
    ensures r.None? ==> SLASH !in s
  {
    if s == [] then None
    else if s[0] == SLASH then Some(([], s[1..]))
    else
      match SplitOnce(s[1..])
      case None => None
      case Some(parts) => Some(([s[0]] + parts.0, parts.1))
  }

  lemma {:induction false} SplitAtFirst(a: Bytes, b: Bytes)
    requires SLASH !in a
    ensures SplitOnce(a + [SLASH] + b) == Some((a, b))
  {
    var s := a + [SLASH] + b;
    if a == [] {
      assert s[1..] == b;
    } else {
      assert s[1..] == a[1..] + [SLASH] + b;
      SplitAtFirst(a[1..], b);
      assert s[0] == a[0] && [a[0]] + a[1..] == a;
    }
  }

  /** Catalog, encoded identifier and whether the traces are asked for. */
  function SplitPath(path: Bytes): Option<(Bytes, Bytes, bool)> {
    var automation := StripPrefix(path, AUTOMATIONS + [SLASH]);
    if automation.Some? && StripSuffix(automation.value, TRACES).Some? then
      Some((AUTOMATIONS, StripSuffix(automation.value, TRACES).value, true))
    else if StripPrefix(path, NETWORKS + [SLASH]).Some? then
      Some((NETWORKS, StripPrefix(path, NETWORKS + [SLASH]).value, false))
    else if StripPrefix(path, MATTER + [SLASH]).Some? then
      Some((MATTER, StripPrefix(path, MATTER + [SLASH]).value, false))
    else
      match SplitOnce(path)
      case None => None
      case Some(parts) => Some((parts.0, parts.1, false))
  }

  /** The resource that a URI names, if the URI is its canonical spelling. */
  function Parsed(uri: Bytes): Option<Resource> {
    match StripPrefix(uri, Ascii("smarthome://"))
    case None => None
    case Some(path) =>
      if Listing(path) then Some(Catalog(path))
      else
        match SplitPath(path)
        case None => None
        case Some((catalog, encoded, traces)) =>
          match DecodedId(encoded)
          case None => None
          case Some(id) =>
            var bare := if traces then StripSuffix(uri, TRACES) else Some(uri);
            if bare == Some(Spelling(catalog, id)) then Some(Item(catalog, id, traces)) else None
  }

  function Suffix(traces: bool): Bytes {
    if traces then TRACES else []
  }

  /** The one spelling of a resource. */
  function Canonical(resource: Resource): Bytes {
    match resource
    case Catalog(path) => Ascii("smarthome://") + path
    case Item(catalog, id, traces) => Spelling(catalog, id) + Suffix(traces)
  }

  /** The resources that have a spelling. */
  predicate Nameable(resource: Resource) {
    match resource
    case Catalog(path) => Listing(path)
    case Item(catalog, id, traces) =>
      && Identifier(id)
      && (traces ==> catalog == AUTOMATIONS)
      && (SLASH !in catalog || catalog == NETWORKS || catalog == MATTER)
      && (!traces ==> !Listing(catalog + [SLASH] + Encoded(id)))
  }

  /** A URI is accepted exactly if it is the canonical spelling of what it
      names. */
  lemma ParsedIsCanonical(uri: Bytes, resource: Resource)
    ensures Parsed(uri) == Some(resource) <==> Nameable(resource) && uri == Canonical(resource)
  {
    if Parsed(uri) == Some(resource) {
      AcceptedIsCanonical(uri, resource);
    }
    if Nameable(resource) && uri == Canonical(resource) {
      CanonicalIsAccepted(resource);
    }
  }

  /** The parts of a split path make up the path. */
  lemma SplitPathParts(path: Bytes)
    requires SplitPath(path).Some?
    ensures var (catalog, encoded, traces) := SplitPath(path).value;
      && path == catalog + [SLASH] + encoded + Suffix(traces)
      && (traces ==> catalog == AUTOMATIONS)
      && (SLASH !in catalog || catalog == NETWORKS || catalog == MATTER)
  {
    hide Ascii, StripPrefix, StripSuffix, SplitOnce;
    if automation :| StripPrefix(path, AUTOMATIONS + [SLASH]) == Some(automation) {
      Unstripped(path, AUTOMATIONS + [SLASH], automation);
      if encoded :| StripSuffix(automation, TRACES) == Some(encoded) {
        UnstrippedSuffix(automation, TRACES, encoded);
        assert path == AUTOMATIONS + [SLASH] + encoded + TRACES;
      }
    }
    if encoded :| StripPrefix(path, NETWORKS + [SLASH]) == Some(encoded) {
      Unstripped(path, NETWORKS + [SLASH], encoded);
    }
    if encoded :| StripPrefix(path, MATTER + [SLASH]) == Some(encoded) {
      Unstripped(path, MATTER + [SLASH], encoded);
    }
    assert path + [] == path;
    var (catalog, encoded, traces) := SplitPath(path).value;
    assert !traces ==> catalog + [SLASH] + encoded + [] == catalog + [SLASH] + encoded;
  }

  lemma Unstripped(s: Bytes, prefix: Bytes, rest: Bytes)
    requires StripPrefix(s, prefix) == Some(rest)
    ensures s == prefix + rest
  {
  }

  lemma UnstrippedSuffix(s: Bytes, suffix: Bytes, rest: Bytes)
    requires StripSuffix(s, suffix) == Some(rest)
    ensures s == rest + suffix
  {
  }

  lemma AcceptedIsCanonical(uri: Bytes, resource: Resource)
    requires Parsed(uri) == Some(resource)
    ensures Nameable(resource) && uri == Canonical(resource)
  {
    hide Ascii, SplitPath, DecodedId, Encoded, Identifier, WellFormed, HasControl, Listing, StripSuffix;
    var path := StripPrefix(uri, Ascii("smarthome://")).value;
    if Listing(path) {
      assert uri == Ascii("smarthome://") + path;
    } else {
      var (catalog, encoded, traces) := SplitPath(path).value;
      SplitPathParts(path);
      AcceptedItem(uri, path, catalog, encoded, resource.id, traces);
    }
  }

  lemma AcceptedItem(uri: Bytes, path: Bytes, catalog: Bytes, encoded: Bytes, id: Bytes, traces: bool)
    requires StripPrefix(uri, Ascii("smarthome://")) == Some(path) && !Listing(path)
    requires path == catalog + [SLASH] + encoded + Suffix(traces)
    requires DecodedId(encoded) == Some(id)
    requires (if traces then StripSuffix(uri, TRACES) else Some(uri)) == Some(Spelling(catalog, id))
    ensures Identifier(id) && uri == Canonical(Item(catalog, id, traces))
    ensures !traces ==> !Listing(catalog + [SLASH] + Encoded(id))
  {
    hide Ascii, DecodedId, Encoded, Identifier, WellFormed, HasControl, Listing;
    DecodedIsIdentifier(encoded, id);
    var tail := Suffix(traces);
    assert uri == Spelling(catalog, id) + tail;
    SameMiddle(Ascii("smarthome://"), catalog + [SLASH], encoded, Encoded(id), tail);
    assert !traces ==> path == catalog + [SLASH] + Encoded(id);
  }

  lemma SameMiddle(scheme: Bytes, head: Bytes, a: Bytes, b: Bytes, tail: Bytes)
    requires scheme + (head + a + tail) == scheme + head + b + tail
    ensures a == b
  {
    var whole := scheme + (head + a + tail);
    forall k | 0 <= k < |a|
      ensures a[k] == b[k]
    {
      assert whole[|scheme| + |head| + k] == a[k];
    }
  }

  lemma DecodedIsIdentifier(encoded: Bytes, id: Bytes)
    requires DecodedId(encoded) == Some(id)
    ensures Encoded(id) == encoded ==> Identifier(id)
  {
  }

  lemma CanonicalIsAccepted(resource: Resource)
    requires Nameable(resource)
    ensures Parsed(Canonical(resource)) == Some(resource)
  {
    hide Ascii, DecodedId, Encoded, Identifier, WellFormed, HasControl, SplitPath, Listing, Parsed, Canonical;
    match resource {
      case Catalog(path) =>
        CanonicalCatalog(path);
      case Item(catalog, id, traces) =>
        RoundTrip(id);
        ItemPathSplits(catalog, id, traces);
        var path := catalog + [SLASH] + Encoded(id) + Suffix(traces);
        if traces {
          NoListingUnderAutomations(Encoded(id) + TRACES);
          assert path == AUTOMATIONS + [SLASH] + (Encoded(id) + TRACES);
        } else {
          assert path == catalog + [SLASH] + Encoded(id);
        }
        CanonicalItem(catalog, id, traces);
    }
  }

  lemma CanonicalCatalog(path: Bytes)
    requires Listing(path)
    ensures Parsed(Canonical(Catalog(path))) == Some(Catalog(path))
  {
    hide Ascii, Listing;
    Stripped(Ascii("smarthome://"), path);
  }

  lemma CanonicalItem(catalog: Bytes, id: Bytes, traces: bool)
    requires DecodedId(Encoded(id)) == Some(id)
      && SplitPath(catalog + [SLASH] + Encoded(id) + Suffix(traces)) == Some((catalog, Encoded(id), traces))
    requires !Listing(catalog + [SLASH] + Encoded(id) + Suffix(traces))
    ensures Parsed(Canonical(Item(catalog, id, traces))) == Some(Item(catalog, id, traces))
  {
    hide Ascii, DecodedId, Encoded, SplitPath, Listing;
    var scheme := Ascii("smarthome://");
    var path := catalog + [SLASH] + Encoded(id) + Suffix(traces);
    var uri := Spelling(catalog, id) + Suffix(traces);
    assert uri == scheme + path;
    Stripped(scheme, path);
    assert traces ==> StripSuffix(uri, TRACES) == Some(Spelling(catalog, id));
    assert !traces ==> uri == Spelling(catalog, id);
  }

  lemma NoListingUnderAutomations(rest: Bytes)
    ensures !Listing(AUTOMATIONS + [SLASH] + rest)
  {
    var path := AUTOMATIONS + [SLASH] + rest;
    assert path[0] == 'a' as int && |path| > |AUTOMATIONS|;
    assert forall c :: c in CATALOGS ==> c[0] != 'a' as int || c == AUTOMATIONS;
  }

  lemma ItemPathSplits(catalog: Bytes, id: Bytes, traces: bool)
    requires traces ==> catalog == AUTOMATIONS
    requires SLASH !in catalog || catalog == NETWORKS || catalog == MATTER
    ensures SplitPath(catalog + [SLASH] + Encoded(id) + Suffix(traces)) == Some((catalog, Encoded(id), traces))
  {
    hide Encoded, SplitPath;
    EncodedHasNoSlash(id);
    if traces {
      TracesPathSplits(Encoded(id));
    } else {
      assert catalog + [SLASH] + Encoded(id) + [] == catalog + [SLASH] + Encoded(id);
      if SLASH in catalog {
        NestedPathSplits(catalog, Encoded(id));
      } else {
        PlainPathSplits(catalog, Encoded(id));
      }
    }
  }

  lemma TracesPathSplits(encoded: Bytes)
    ensures SplitPath(AUTOMATIONS + [SLASH] + encoded + TRACES) == Some((AUTOMATIONS, encoded, true))
  {
    var path := AUTOMATIONS + [SLASH] + encoded + TRACES;
    assert path == (AUTOMATIONS + [SLASH]) + (encoded + TRACES);
    Stripped(AUTOMATIONS + [SLASH], encoded + TRACES);
    assert StripSuffix(encoded + TRACES, TRACES) == Some(encoded);
  }

  lemma NestedPathSplits(catalog: Bytes, encoded: Bytes)
    requires catalog == NETWORKS || catalog == MATTER
    ensures SplitPath(catalog + [SLASH] + encoded) == Some((catalog, encoded, false))
  {
    var path := catalog + [SLASH] + encoded;
    Stripped(catalog + [SLASH], encoded);
    assert path[0] == catalog[0] && (AUTOMATIONS + [SLASH])[0] == 'a' as int;
    assert (NETWORKS + [SLASH])[0] == 't' as int;
  }

  lemma PlainPathSplits(catalog: Bytes, encoded: Bytes)
    requires SLASH !in catalog && SLASH !in encoded
    ensures SplitPath(catalog + [SLASH] + encoded) == Some((catalog, encoded, false))
  {
    hide Ascii, StripSuffix, SplitOnce;
    var path := catalog + [SLASH] + encoded;
    Stripped(catalog + [SLASH], encoded);
    NoTraces(encoded);
    SplitAtFirst(catalog, encoded);
    NestedHaveTwoSlashes();
    OneSlash(catalog, encoded, NETWORKS + [SLASH], 6, 15);
    OneSlash(catalog, encoded, MATTER + [SLASH], 6, 14);
    if AUTOMATIONS + [SLASH] <= path {
      assert path[|AUTOMATIONS|] == (AUTOMATIONS + [SLASH])[|AUTOMATIONS|] == SLASH;
      assert catalog == path[..|catalog|] == AUTOMATIONS;
    }
  }

  lemma NoTraces(encoded: Bytes)
    requires SLASH !in encoded
    ensures StripSuffix(encoded, TRACES) == None
  {
    assert TRACES[0] == SLASH;
  }

  lemma NestedHaveTwoSlashes()
    ensures |NETWORKS| == 15 && NETWORKS[6] == SLASH
    ensures |MATTER| == 14 && MATTER[6] == SLASH
  {
  }

  lemma Stripped(prefix: Bytes, rest: Bytes)
    ensures StripPrefix(prefix + rest, prefix) == Some(rest)
  {
    assert (prefix + rest)[|prefix|..] == rest;
  }

  /** A path with one slash has no prefix with two. */
  lemma OneSlash(catalog: Bytes, encoded: Bytes, prefix: Bytes, i: nat, j: nat)
    requires SLASH !in catalog && SLASH !in encoded
    requires i < j < |prefix| && prefix[i] == SLASH && prefix[j] == SLASH
    ensures !(prefix <= catalog + [SLASH] + encoded)
  {
    var path := catalog + [SLASH] + encoded;
    assert forall k :: 0 <= k < |path| && k != |catalog| ==> path[k] != SLASH;
    assert |prefix| <= |path| ==> path[i] != prefix[i] || path[j] != prefix[j];
  }

  /** So no resource has two URIs. */
  lemma SpellingsAreUnique(a: Bytes, b: Bytes)
    requires Parsed(a).Some? && Parsed(a) == Parsed(b)
    ensures a == b
  {
    ParsedIsCanonical(a, Parsed(a).value);
    ParsedIsCanonical(b, Parsed(b).value);
  }

  // ----- The target of an edit

  const EDITABLE := [Ascii("scenes"), AUTOMATIONS, Ascii("blueprints")]

  predicate LowerOrDigit(b: Byte) {
    'a' as int <= b <= 'z' as int || '0' as int <= b <= '9' as int
  }

  predicate ConfigKey(key: Bytes) {
    0 < |key| <= 64 && forall i :: 0 <= i < |key| ==> LowerOrDigit(key[i]) || key[i] == '_' as int
  }

  /** The parts of a text around its slashes. */
  function Segments(s: Bytes): (parts: seq<Bytes>)
    ensures parts != []
    decreases |s|
  {
    match SplitOnce(s)
    case None => [s]
    case Some((first, rest)) =>
      assert |rest| < |first + [SLASH] + rest|;
      [first] + Segments(rest)
  }

  predicate PathSegment(s: Bytes) {
    && 0 < |s| <= 128 && s != Ascii(".") && s != Ascii("..")
    && forall i :: 0 <= i < |s| ==> Unreserved(s[i]) && s[i] != '~' as int
  }

  predicate BlueprintPath(path: Text) {
    && 0 < |path| <= 255
    && StripSuffix(path, Ascii(".yaml")).Some?
    && path[0] != SLASH && '\\' as int !in path && !HasControl(path)
    && |Segments(path)| <= 8
    && forall i :: 0 <= i < |Segments(path)| ==> PathSegment(Segments(path)[i])
  }

  predicate ValidKey(catalog: Bytes, key: Text) {
    if catalog == Ascii("blueprints") then BlueprintPath(key) else ConfigKey(key)
  }

  /** The item that an edit names; it has its own, shorter parser. */
  function Target(uri: Bytes): Option<(Bytes, Text)> {
    match StripPrefix(uri, Ascii("smarthome://"))
    case None => None
    case Some(path) =>
      match SplitOnce(path)
      case None => None
      case Some((catalog, encoded)) =>
        if catalog !in EDITABLE then None
        else
          match DecodedId(encoded)
          case None => None
          case Some(id) => if Spelling(catalog, id) == uri && ValidKey(catalog, id) then Some((catalog, id)) else None
  }

  /** Both parsers agree: an edit names exactly the editable items that a
      resource URI names, traces aside, as long as their key is valid. */
  lemma TargetAgrees(uri: Bytes, catalog: Bytes, id: Bytes)
    ensures Target(uri) == Some((catalog, id)) <==>
      Parsed(uri) == Some(Item(catalog, id, false)) && catalog in EDITABLE && WellFormed(id) && ValidKey(catalog, id)
  {
    hide Ascii, DecodedId, Encoded, Identifier, WellFormed, HasControl, SplitPath, Parsed, ValidKey;
    var item := Item(catalog, id, false);
    ParsedIsCanonical(uri, item);
    var scheme := Ascii("smarthome://");
    var path := catalog + [SLASH] + Encoded(id);
    assert Spelling(catalog, id) == scheme + path;
    Stripped(scheme, path);
    assert Canonical(item) == Spelling(catalog, id) by {
      assert Spelling(catalog, id) + [] == Spelling(catalog, id);
    }
    if catalog in EDITABLE {
      assert SLASH !in catalog;
      SplitAtFirst(catalog, Encoded(id));
      assert !Listing(path) by {
        assert path[|catalog|] == SLASH && path[0] == catalog[0];
      }
      if Identifier(id) {
        RoundTrip(id);
      }
      if Target(uri) == Some((catalog, id)) {
        DecodedIsIdentifier(Encoded(id), id);
      }
    }
  }
}
