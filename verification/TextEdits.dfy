/** The edit engine of native authoring: unique matches and their splices. */
module TextEdits {
  import opened Basics
  import opened Utf8

  const ITEM_LIMIT := 256 * 1024

  // ----- Unique matches

  predicate At(text: Bytes, needle: Bytes, i: int) {
    0 <= i && i + |needle| <= |text| && text[i..i + |needle|] == needle
  }

  ghost predicate OnlyAt(text: Bytes, needle: Bytes, i: nat) {
    && needle != []
    && At(text, needle, i)
    && forall j :: At(text, needle, j) ==> j == i
  }

  ghost predicate Once(text: Bytes, needle: Bytes) {
    exists i: nat :: OnlyAt(text, needle, i)
  }

  /** The first match at or after a position. */
  method Find(text: Bytes, needle: Bytes, from: nat) returns (r: Option<nat>)
    requires from <= |text|
    ensures r.Some? ==> from <= r.value && At(text, needle, r.value)
    ensures forall j :: from <= j < (if r.Some? then r.value else |text| + 1) ==> !At(text, needle, j)
  {
    var i := from;
    while i + |needle| <= |text|
      invariant from <= i
      invariant forall j :: from <= j < i ==> !At(text, needle, j)
    {
      if text[i..i + |needle|] == needle {
        return Some(i);
      }
      i := i + 1;
    }
    return None;
  }

  /** No match begins inside a character. */
  lemma NoneWithin(text: Bytes, needle: Text, i: nat)
    requires i < |text|
    ensures needle != [] ==> forall j :: i < j < i + Width(text[i..]) ==> !At(text, needle, j)
  {
    TailsOf(text[i..]);
    hide Width;
    forall j | i < j < i + Width(text[i..])
      ensures needle != [] ==> !At(text, needle, j)
    {
      assert Tail(text[i..][j - i]);
      assert needle != [] ==> !Tail(needle[0]);
    }
  }

  /** Finds a match and searches again from the next character, so that
      overlapping matches are seen too. Skipping a whole character misses
      none, because matches of a text lie on boundaries. */
  method Unique(text: Text, needle: Text) returns (r: Option<nat>)
    ensures r.Some? <==> Once(text, needle)
    ensures r.Some? ==> OnlyAt(text, needle, r.value)
  {
    var index := Find(text, needle, 0);
    if index == None {
      return None;
    }
    var i := index.value;
    if needle == [] {
      assert At(text, needle, 0);
      assert i == 0;
    } else {
      OccursOnBoundaries(text, needle, i);
      Cut(text, i);
    }
    if i == |text| {
      return None;
    }
    var next := i + Width(text[i..]);
    assert next <= |text|;
    NoneWithin(text, needle, i);
    hide Width, WellFormed;
    var again := Find(text, needle, next);
    if again.Some? {
      assert At(text, needle, again.value) && again.value != i;
      return None;
    }
    assert At(text, [], next);
    assert OnlyAt(text, needle, i);
    return Some(i);
  }

  // ----- Edits

  datatype Placement = AtStart | AtEnd | Before(anchor: Text) | After(anchor: Text)

  datatype Edit =
    | Replace(old_text: Text, new_text: Text)
    | Insert(placement: Placement, text: Text)

  /** The bytes that the edit puts in. */
  function Inserted(edit: Edit): Text {
    match edit
    case Replace(_, new_text) => new_text
    case Insert(_, text) => text
  }

  predicate Field(s: Bytes, nonempty: bool) {
    (nonempty ==> s != []) && |s| <= ITEM_LIMIT && 0 !in s
  }

  /** What the edit may carry. */
  predicate Allowed(edit: Edit) {
    && Field(Inserted(edit), false)
    && (edit.Replace? ==> Field(edit.old_text, true))
    && (edit.Insert? && (edit.placement.Before? || edit.placement.After?) ==> Field(edit.placement.anchor, true))
  }

  /** The bytes of the text that the edit takes out: `text[lo..hi]`. */
  ghost predicate Span(text: Bytes, edit: Edit, lo: nat, hi: nat) {
    match edit
    case Replace(old_text, _) => OnlyAt(text, old_text, lo) && hi == lo + |old_text|
    case Insert(AtStart, _) => lo == hi == 0
    case Insert(AtEnd, _) => lo == hi == |text|
    case Insert(Before(anchor), _) => OnlyAt(text, anchor, lo) && hi == lo
    case Insert(After(anchor), _) => lo >= |anchor| && OnlyAt(text, anchor, lo - |anchor|) && hi == lo
  }

  function Spliced(text: Bytes, lo: nat, hi: nat, insert: Bytes): Bytes
    requires lo <= hi <= |text|
  {
    text[..lo] + insert + text[hi..]
  }

  /** The edit changes the text into `result`: it is admissible, finds its one
      place, puts something else there and stays within the limit. */
  ghost predicate Edits(text: Bytes, edit: Edit, result: Bytes) {
    && Allowed(edit)
    && |result| <= ITEM_LIMIT
    && exists lo: nat, hi: nat ::
         && Span(text, edit, lo, hi)
         && lo <= hi <= |text|
         && text[lo..hi] != Inserted(edit)
         && result == Spliced(text, lo, hi, Inserted(edit))
  }

  /** The edits, in order, change the text into `result`. */
  ghost predicate AllEdit(text: Bytes, edits: seq<Edit>, result: Bytes) {
    if edits == [] then
      result == text
    else
      var earlier, last := edits[..|edits| - 1], edits[|edits| - 1];
      exists before: Bytes :: AllEdit(text, earlier, before) && Edits(before, last, result)
  }

  lemma SpanIsUnique(text: Bytes, edit: Edit, lo: nat, hi: nat, lo': nat, hi': nat)
    requires Span(text, edit, lo, hi) && Span(text, edit, lo', hi')
    ensures lo == lo' && hi == hi'
  {
    if edit.Replace? {
      assert At(text, edit.old_text, lo');
    } else if edit.placement.Before? {
      assert At(text, edit.placement.anchor, lo');
    } else if edit.placement.After? {
      assert At(text, edit.placement.anchor, lo' - |edit.placement.anchor|);
    }
  }

  lemma {:induction false} AllEditIsUnique(text: Bytes, edits: seq<Edit>, a: Bytes, b: Bytes)
    requires AllEdit(text, edits, a) && AllEdit(text, edits, b)
    ensures a == b
    decreases |edits|
  {
    if edits != [] {
      var front, edit := edits[..|edits| - 1], edits[|edits| - 1];
      var m: Bytes :| AllEdit(text, front, m) && Edits(m, edit, a);
      var m': Bytes :| AllEdit(text, front, m') && Edits(m', edit, b);
      AllEditIsUnique(text, front, m, m');
      var lo: nat, hi: nat :| Span(m, edit, lo, hi) && lo <= hi <= |m| && a == Spliced(m, lo, hi, Inserted(edit));
      var lo': nat, hi': nat :| Span(m', edit, lo', hi') && lo' <= hi' <= |m'|
        && b == Spliced(m', lo', hi', Inserted(edit));
      SpanIsUnique(m, edit, lo, hi, lo', hi');
    }
  }

  /** One edit: the cut lies on character boundaries, the text stays
      well-formed and within the limit, everything outside one span stays, and
      the text does change. */
  lemma EditIsSound(text: Text, edit: Edit, result: Bytes)
    requires Edits(text, edit, result)
    ensures WellFormed(result) && |result| <= ITEM_LIMIT && result != text
    ensures exists lo: nat, hi: nat ::
      && Span(text, edit, lo, hi) && lo <= hi <= |text|
      && Boundary(text, lo) && Boundary(text, hi)
      && result == Spliced(text, lo, hi, Inserted(edit))
  {
    hide Width, WellFormed, OnlyAt, Span, Spliced;
    var lo: nat, hi: nat :|
      && Span(text, edit, lo, hi)
      && lo <= hi <= |text|
      && text[lo..hi] != Inserted(edit)
      && result == Spliced(text, lo, hi, Inserted(edit));
    SpanOnBoundaries(text, edit, lo, hi);
    SpliceIsText(text, lo, hi, Inserted(edit));
    SpliceDiffers(text, lo, hi, Inserted(edit));
  }

  lemma SpliceIsText(text: Text, lo: nat, hi: nat, insert: Text)
    requires lo <= hi <= |text| && Boundary(text, lo) && Boundary(text, hi)
    ensures WellFormed(Spliced(text, lo, hi, insert))
  {
    hide Width, WellFormed;
    Cut(text, lo);
    Cut(text, hi);
    Joined(text[..lo], insert);
    Joined(text[..lo] + insert, text[hi..]);
  }

  lemma SpliceDiffers(text: Bytes, lo: nat, hi: nat, insert: Bytes)
    requires lo <= hi <= |text| && text[lo..hi] != insert
    ensures Spliced(text, lo, hi, insert) != text
  {
    var result := Spliced(text, lo, hi, insert);
    assert |result| == |text| ==> result[lo..hi] == insert;
  }

  lemma SpanOnBoundaries(text: Text, edit: Edit, lo: nat, hi: nat)
    requires Span(text, edit, lo, hi) && lo <= hi <= |text|
    ensures Boundary(text, lo) && Boundary(text, hi)
  {
    match edit {
      case Replace(old_text, _) => OccursOnBoundaries(text, old_text, lo);
      case Insert(AtStart, _) =>
      case Insert(AtEnd, _) =>
      case Insert(Before(anchor), _) => OccursOnBoundaries(text, anchor, lo);
      case Insert(After(anchor), _) => OccursOnBoundaries(text, anchor, lo - |anchor|);
    }
  }

  /** A text small enough for an edit, without a zero byte. */
  ghost predicate Carriable(s: Bytes) {
    |s| <= ITEM_LIMIT && forall i :: 0 <= i < |s| ==> s[i] != 0
  }

  /** What a text may be looked for. */
  ghost predicate Searchable(s: Bytes) {
    s != [] && Carriable(s)
  }

  /** The edits in terms of joining texts alone. */
  ghost predicate Joins(text: Bytes, edit: Edit, result: Bytes) {
    match edit
    case Replace(old_text, new_text) =>
      && Searchable(old_text) && Carriable(new_text)
      && old_text != new_text && Once(text, old_text)
      && exists a: Bytes, b: Bytes {:trigger a + new_text + b} ::
           text == a + old_text + b && result == a + new_text + b
    case Insert(AtStart, insert) => insert != [] && Carriable(insert) && result == insert + text
    case Insert(AtEnd, insert) => insert != [] && Carriable(insert) && result == text + insert
    case Insert(Before(anchor), insert) =>
      && insert != [] && Carriable(insert) && Searchable(anchor) && Once(text, anchor)
      && exists a: Bytes, b: Bytes {:trigger a + insert + anchor + b} ::
           text == a + anchor + b && result == a + insert + anchor + b
    case Insert(After(anchor), insert) =>
      && insert != [] && Carriable(insert) && Searchable(anchor) && Once(text, anchor)
      && exists a: Bytes, b: Bytes {:trigger a + anchor + insert + b} ::
           text == a + anchor + b && result == a + anchor + insert + b
  }

  /** Each edit puts its text exactly where it says. */
  lemma EditJoins(text: Bytes, edit: Edit, result: Bytes)
    ensures Edits(text, edit, result) <==> |result| <= ITEM_LIMIT && Joins(text, edit, result)
  {
    if Edits(text, edit, result) {
      var lo: nat, hi: nat :|
        && Span(text, edit, lo, hi) && lo <= hi <= |text|
        && text[lo..hi] != Inserted(edit) && result == Spliced(text, lo, hi, Inserted(edit));
      SpanJoins(text, edit, result, lo, hi);
    }
    if |result| <= ITEM_LIMIT && Joins(text, edit, result) {
      JoinsAllowed(text, edit, result);
      JoinsSpan(text, edit, result);
    }
  }

  lemma JoinsAllowed(text: Bytes, edit: Edit, result: Bytes)
    requires Joins(text, edit, result)
    ensures Allowed(edit)
  {
    hide Once;
  }

  lemma SpanJoins(text: Bytes, edit: Edit, result: Bytes, lo: nat, hi: nat)
    requires Allowed(edit) && Span(text, edit, lo, hi) && lo <= hi <= |text|
    requires text[lo..hi] != Inserted(edit) && result == Spliced(text, lo, hi, Inserted(edit))
    ensures Joins(text, edit, result)
  {
    hide OnlyAt, Once, At;
    match edit {
      case Replace(old_text, new_text) =>
        OnlyThere(text, old_text, lo);
        JoinedReplace(text[..lo], old_text, text[hi..], new_text);
      case Insert(AtStart, _) =>
        assert text[..0] == [] && text[0..] == text;
      case Insert(AtEnd, _) =>
        assert text[..|text|] == text && text[|text|..] == [];
      case Insert(Before(anchor), insert) =>
        OnlyThere(text, anchor, lo);
        JoinsBefore(text, lo, anchor, insert);
        JoinedInsert(text[..lo], anchor, text[lo + |anchor|..], insert);
      case Insert(After(anchor), insert) =>
        OnlyThere(text, anchor, lo - |anchor|);
        JoinsAfter(text, lo - |anchor|, anchor, insert);
        JoinedInsert(text[..lo - |anchor|], anchor, text[lo..], insert);
    }
  }

  lemma JoinedReplace(a: Bytes, old_text: Text, b: Bytes, new_text: Text)
    requires Once(a + old_text + b, old_text) && old_text != new_text && Allowed(Replace(old_text, new_text))
    ensures Joins(a + old_text + b, Replace(old_text, new_text), a + new_text + b)
  {
    hide Once;
  }

  lemma JoinedInsert(a: Bytes, anchor: Text, b: Bytes, insert: Text)
    requires Once(a + anchor + b, anchor) && insert != [] && Allowed(Insert(Before(anchor), insert))
    ensures Joins(a + anchor + b, Insert(Before(anchor), insert), a + insert + anchor + b)
    ensures Joins(a + anchor + b, Insert(After(anchor), insert), a + anchor + insert + b)
  {
    hide Once;
  }

  lemma OnlyThere(text: Bytes, needle: Bytes, i: nat)
    requires OnlyAt(text, needle, i)
    ensures Once(text, needle) && i + |needle| <= |text| && text[i..i + |needle|] == needle
    ensures text == text[..i] + needle + text[i + |needle|..]
  {
  }

  lemma JoinsBefore(text: Bytes, i: nat, anchor: Bytes, insert: Bytes)
    requires i + |anchor| <= |text| && text[i..i + |anchor|] == anchor
    ensures Spliced(text, i, i, insert) == text[..i] + insert + anchor + text[i + |anchor|..]
  {
    assert text[i..] == anchor + text[i + |anchor|..];
    assert (text[..i] + insert) + (anchor + text[i + |anchor|..]) == text[..i] + insert + anchor + text[i + |anchor|..];
  }

  lemma JoinsAfter(text: Bytes, i: nat, anchor: Bytes, insert: Bytes)
    requires i + |anchor| <= |text| && text[i..i + |anchor|] == anchor
    ensures Spliced(text, i + |anchor|, i + |anchor|, insert) == text[..i] + anchor + insert + text[i + |anchor|..]
  {
    assert text[..i + |anchor|] == text[..i] + anchor;
  }

  lemma JoinsSpan(text: Bytes, edit: Edit, result: Bytes)
    requires Allowed(edit) && |result| <= ITEM_LIMIT && Joins(text, edit, result)
    ensures Edits(text, edit, result)
  {
    hide OnlyAt, Spliced, Edits, Allowed;
    match edit {
      case Replace(old_text, new_text) =>
        var a: Bytes, b: Bytes :| text == a + old_text + b && result == a + new_text + b;
        OnceThere(text, a, old_text, b);
        SplicedAt(a, old_text, b, edit);
      case Insert(AtStart, insert) =>
        assert text == [] + [] + text && result == [] + insert + text;
        SplicedAt([], [], text, edit);
      case Insert(AtEnd, insert) =>
        assert text == text + [] + [] && result == text + insert + [];
        SplicedAt(text, [], [], edit);
      case Insert(Before(anchor), insert) =>
        var a: Bytes, b: Bytes :| text == a + anchor + b && result == a + insert + anchor + b;
        OnceThere(text, a, anchor, b);
        assert text == a + [] + (anchor + b) && result == a + insert + (anchor + b);
        SplicedAt(a, [], anchor + b, edit);
      case Insert(After(anchor), insert) =>
        var a: Bytes, b: Bytes :| text == a + anchor + b && result == a + anchor + insert + b;
        OnceThere(text, a, anchor, b);
        assert text == a + anchor + [] + b;
        SplicedAt(a + anchor, [], b, edit);
    }
  }

  lemma OnceThere(text: Bytes, a: Bytes, needle: Bytes, b: Bytes)
    requires text == a + needle + b && Once(text, needle)
    ensures OnlyAt(text, needle, |a|)
  {
    assert At(text, needle, |a|);
  }

  lemma SplicedAt(a: Bytes, taken: Bytes, b: Bytes, edit: Edit)
    requires Allowed(edit) && |a + Inserted(edit) + b| <= ITEM_LIMIT && taken != Inserted(edit)
    requires Span(a + taken + b, edit, |a|, |a| + |taken|)
    ensures Edits(a + taken + b, edit, a + Inserted(edit) + b)
  {
    hide OnlyAt, Allowed, Span;
    var text, lo, hi := a + taken + b, |a|, |a| + |taken|;
    assert text[lo..hi] == taken && text[..lo] == a && text[hi..] == b;
    assert a + Inserted(edit) + b == Spliced(text, lo, hi, Inserted(edit));
  }

  /** Every text on the way of a list of edits is sound. */
  lemma {:induction false} EditsAreSound(text: Text, edits: seq<Edit>, result: Bytes)
    requires AllEdit(text, edits, result) && |text| <= ITEM_LIMIT
    ensures WellFormed(result) && |result| <= ITEM_LIMIT
    decreases |edits|
  {
    if edits != [] {
      var before: Bytes :| AllEdit(text, edits[..|edits| - 1], before) && Edits(before, edits[|edits| - 1], result);
      EditsAreSound(text, edits[..|edits| - 1], before);
      EditIsSound(before, edits[|edits| - 1], result);
    }
  }

  /** No list of edits that fails part of the way succeeds as a whole. */
  lemma {:induction false} PartsEdit(text: Bytes, edits: seq<Edit>, k: nat, result: Bytes)
    requires k <= |edits| && AllEdit(text, edits, result)
    ensures exists part: Bytes :: AllEdit(text, edits[..k], part)
    decreases |edits|
  {
    if k == |edits| {
      assert edits[..k] == edits;
    } else {
      var before: Bytes :| AllEdit(text, edits[..|edits| - 1], before);
      PartsEdit(text, edits[..|edits| - 1], k, before);
      assert edits[..|edits| - 1][..k] == edits[..k];
    }
  }

  /** A replacement is undone by the opposite one exactly when the new text is
      where it was put and nowhere else. */
  lemma ReplacementUndone(text: Text, old_text: Text, new_text: Text, result: Bytes)
    requires Edits(text, Replace(old_text, new_text), result) && |text| <= ITEM_LIMIT
    ensures Edits(result, Replace(new_text, old_text), text) <==> Once(result, new_text)
  {
    hide Width, WellFormed;
    var lo: nat, hi: nat :|
      && Span(text, Replace(old_text, new_text), lo, hi)
      && lo <= hi <= |text|
      && text[lo..hi] != new_text
      && result == Spliced(text, lo, hi, new_text);
    var end := lo + |new_text|;
    assert At(result, new_text, lo);
    if Once(result, new_text) {
      assert OnlyAt(result, new_text, lo);
      SpliceBack(text, lo, hi, new_text);
      assert Span(result, Replace(new_text, old_text), lo, end);
    }
  }

  lemma SpliceBack(text: Bytes, lo: nat, hi: nat, insert: Bytes)
    requires lo <= hi <= |text|
    ensures Spliced(Spliced(text, lo, hi, insert), lo, lo + |insert|, text[lo..hi]) == text
  {
  }

  /** Where one edit goes: its span, or nothing when the match is not unique. */
  method Locate(text: Text, edit: Edit) returns (r: Option<(nat, nat)>)
    requires Allowed(edit)
    ensures r.Some? ==> Span(text, edit, r.value.0, r.value.1) && r.value.0 <= r.value.1 <= |text|
    ensures r.None? ==> forall lo: nat, hi: nat :: !Span(text, edit, lo, hi)
  {
    match edit {
      case Replace(old_text, _) =>
        var index := Unique(text, old_text);
        if index == None {
          return None;
        }
        return Some((index.value, index.value + |old_text|));
      case Insert(AtStart, _) =>
        return Some((0, 0));
      case Insert(AtEnd, _) =>
        assert Span(text, edit, |text|, |text|);
        return Some((|text|, |text|));
      case Insert(Before(anchor), _) =>
        var index := Unique(text, anchor);
        if index == None {
          return None;
        }
        return Some((index.value, index.value));
      case Insert(After(anchor), _) =>
        var index := Unique(text, anchor);
        if index == None {
          return None;
        }
        return Some((index.value + |anchor|, index.value + |anchor|));
    }
  }

  /** One round of the loop of `ApplyEdits`. */
  method ApplyEdit(text: Text, edit: Edit) returns (r: Option<Text>)
    ensures r.Some? ==> Edits(text, edit, r.value)
    ensures r.None? ==> forall result: Bytes :: !Edits(text, edit, result)
  {
    if !Allowed(edit) {
      return None;
    }
    var place := Locate(text, edit);
    if place == None {
      return None;
    }
    var (lo, hi) := place.value;
    var inserted := Inserted(edit);
    if |text| - (hi - lo) + |inserted| > ITEM_LIMIT || text[lo..hi] == inserted {
      forall result: Bytes
        ensures !Edits(text, edit, result)
      {
        if Edits(text, edit, result) {
          var lo': nat, hi': nat :|
            && Span(text, edit, lo', hi') && lo' <= hi' <= |text|
            && text[lo'..hi'] != inserted && result == Spliced(text, lo', hi', inserted);
          SpanIsUnique(text, edit, lo, hi, lo', hi');
        }
      }
      return None;
    }
    ghost var result := Spliced(text, lo, hi, inserted);
    assert Edits(text, edit, result);
    EditIsSound(text, edit, result);
    return Some(text[..lo] + inserted + text[hi..]);
  }

  /** Applies the edits one after the other, each to the result of the one
      before: all of them or none. */
  method ApplyEdits(initial: Text, edits: seq<Edit>) returns (r: Option<Text>)
    ensures r.Some? ==> AllEdit(initial, edits, r.value) && r.value != initial && |r.value| <= ITEM_LIMIT
    ensures r.None? ==>
      |initial| > ITEM_LIMIT || forall result: Bytes :: AllEdit(initial, edits, result) ==> result == initial
  {
    if |initial| > ITEM_LIMIT {
      return None;
    }
    var result := initial;
    for i := 0 to |edits|
      invariant AllEdit(initial, edits[..i], result)
      invariant |result| <= ITEM_LIMIT
    {
      var edited := ApplyEdit(result, edits[i]);
      assert edits[..i + 1][..i] == edits[..i];
      if edited == None {
        NothingBeyond(initial, edits, i, result);
        return None;
      }
      result := edited.value;
    }
    assert edits[..|edits|] == edits;
    if result == initial {
      forall other: Bytes | AllEdit(initial, edits, other)
        ensures other == initial
      {
        AllEditIsUnique(initial, edits, result, other);
      }
      return None;
    }
    return Some(result);
  }

  lemma NothingBeyond(text: Bytes, edits: seq<Edit>, k: nat, part: Bytes)
    requires k < |edits| && AllEdit(text, edits[..k], part)
    requires forall result: Bytes :: !Edits(part, edits[k], result)
    ensures forall result: Bytes :: !AllEdit(text, edits, result)
  {
    forall result: Bytes
      ensures !AllEdit(text, edits, result)
    {
      if AllEdit(text, edits, result) {
        PartsEdit(text, edits, k + 1, result);
        var next: Bytes :| AllEdit(text, edits[..k + 1], next);
        assert edits[..k + 1][..k] == edits[..k];
        var m: Bytes :| AllEdit(text, edits[..k], m) && Edits(m, edits[k], next);
        AllEditIsUnique(text, edits[..k], part, m);
      }
    }
  }
}
