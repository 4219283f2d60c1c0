// A whole XML part: fillPart and the key report of Placeholders in
// internal/docxt/docxt.go, and the keys internal/store/document.go supplies.
module Template {
  import opened Prelude
  import opened XmlText
  import opened Placeholder
  import opened Paragraph
  import opened Rendering
  import opened Fill

  // ------------------------------------------------------------ paragraphs of a part

  /**
   * The paragraph expression, read as a condition on the two ends of a match: a start
   * tag with or without attributes and everything to the first closing tag after it,
   * or an empty paragraph.
   */
  ghost predicate IsParagraph(part: string, i: nat, j: nat) {
    || (i + 6 == j <= |part| && part[i..j] == "<w:p/>")
    || (i + 11 <= j <= |part| && (part[i..i + 5] == "<w:p " || part[i..i + 5] == "<w:p>")
        && part[j - 6..j] == "</w:p>" && forall a, b :: i + 5 <= a && b == a + 6 < j ==> part[a..b] != "</w:p>")
  }

  /** paragraphRE at index `i`: the end of the paragraph that starts there. */
  function ParagraphAt(part: string, i: nat): (r: Option<nat>)
    ensures r.Some? ==> i + 5 <= r.value <= |part|
  {
    var close := FirstAt(part, i + 5, "</w:p>");
    if (HasAt(part, i, "<w:p ") || HasAt(part, i, "<w:p>")) && close.Some? then Some(close.value + 6)
    else if HasAt(part, i, "<w:p/>") then Some(i + 6)
    else None
  }

  /** The first closing tag is where the expression ends. */
  lemma {:induction false} FirstCloseIs(part: string, i: nat, k: nat)
    ensures FirstAt(part, i, "</w:p>") == Some(k) <==>
      && i <= k && k + 6 <= |part| && part[k..k + 6] == "</w:p>"
      && forall a, b :: i <= a < k && b == a + 6 ==> part[a..b] != "</w:p>"
    decreases |part| - i
  {
    if i + 6 <= |part| && !HasAt(part, i, "</w:p>") {
      FirstCloseIs(part, i + 1, k);
    }
  }

  /** The matcher accepts exactly the paragraphs of the expression. */
  lemma ParagraphAtIsTheExpression(part: string, i: nat, j: nat)
    ensures ParagraphAt(part, i) == Some(j) <==> IsParagraph(part, i, j)
  {
    if j >= 6 { FirstCloseIs(part, i + 5, j - 6); }
    var close := FirstAt(part, i + 5, "</w:p>");
    if close.Some? { FirstCloseIs(part, i + 5, close.value); }
    if i + 6 <= |part| {
      assert part[i..i + 6][4] == part[i + 4] == part[i..i + 5][4];
    }
  }

  /** paragraphRE.FindAllIndex from `i` on. */
  function ParagraphsFrom(part: string, i: nat): (r: seq<(nat, nat)>)
    ensures forall k :: 0 <= k < |r| ==> i <= r[k].0 < r[k].1 <= |part|
    decreases |part| - i
  {
    if i >= |part| then [] else
    var end := ParagraphAt(part, i);
    if end.Some? then [(i, end.value)] + ParagraphsFrom(part, end.value) else ParagraphsFrom(part, i + 1)
  }

  /** Every paragraph is filled; every byte outside the paragraphs stands as it was. */
  function FilledPartFrom(part: string, values: Values, i: nat): string
    decreases |part| - i
  {
    if i >= |part| then "" else
    var end := ParagraphAt(part, i);
    if end.Some? then Filled(part[i..end.value], values) + FilledPartFrom(part, values, end.value)
    else [part[i]] + FilledPartFrom(part, values, i + 1)
  }

  /** Up to the next paragraph the filled part is the part. */
  ghost predicate CopiesToNext(part: string, values: Values, i: nat)
    requires i <= |part|
  {
    var locs := ParagraphsFrom(part, i);
    && (locs == [] ==> FilledPartFrom(part, values, i) == part[i..])
    && (locs != [] ==>
          var filled := Filled(part[locs[0].0..locs[0].1], values);
          FilledPartFrom(part, values, i) == part[i..locs[0].0] + filled + FilledPartFrom(part, values, locs[0].1))
  }

  lemma CopyOneMore(part: string, values: Values, i: nat)
    requires i < |part| && ParagraphsFrom(part, i) == ParagraphsFrom(part, i + 1)
    requires FilledPartFrom(part, values, i) == [part[i]] + FilledPartFrom(part, values, i + 1)
    requires CopiesToNext(part, values, i + 1)
    ensures CopiesToNext(part, values, i)
  {
    hide ParagraphsFrom, FilledPartFrom, Filled;
    var locs := ParagraphsFrom(part, i);
    if locs == [] {
      SliceCons(part, i, |part|);
      assert part[i..|part|] == part[i..] && part[i + 1..|part|] == part[i + 1..];
    } else {
      var filled := Filled(part[locs[0].0..locs[0].1], values);
      SliceCons(part, i, locs[0].0);
      JoinAssociates([part[i]], part[i + 1..locs[0].0], filled);
      JoinAssociates([part[i]], part[i + 1..locs[0].0] + filled, FilledPartFrom(part, values, locs[0].1));
    }
  }

  /** Up to the next paragraph the part is copied. */
  lemma {:induction false} CopyToNext(part: string, values: Values, i: nat)
    requires i <= |part|
    ensures CopiesToNext(part, values, i)
    ensures var locs := ParagraphsFrom(part, i); locs != [] ==> ParagraphsFrom(part, locs[0].1) == locs[1..]
    decreases |part| - i
  {
    hide ParagraphAt, Filled;
    if i < |part| && ParagraphAt(part, i).None? {
      CopyToNext(part, values, i + 1);
      assert ParagraphsFrom(part, i) == ParagraphsFrom(part, i + 1);
      assert FilledPartFrom(part, values, i) == [part[i]] + FilledPartFrom(part, values, i + 1);
      CopyOneMore(part, values, i);
    }
  }

  function FilledPart(part: string, values: Values): string {
    FilledPartFrom(part, values, 0)
  }

  /** What is reported is a paragraph, and each starts after the one before it has ended. */
  lemma {:induction false} ReportedParagraphs(part: string, i: nat)
    ensures var locs := ParagraphsFrom(part, i);
      && (forall k :: 0 <= k < |locs| ==> i <= locs[k].0 && IsParagraph(part, locs[k].0, locs[k].1))
      && (forall j, k :: 0 <= j < k < |locs| ==> locs[j].1 <= locs[k].0)
    decreases |part| - i
  {
    hide ParagraphAt, IsParagraph;
    if i < |part| {
      var end := ParagraphAt(part, i);
      var all := ParagraphsFrom(part, i);
      if end.Some? {
        ParagraphAtIsTheExpression(part, i, end.value);
        ReportedParagraphs(part, end.value);
        assert all[0] == (i, end.value) && all[1..] == ParagraphsFrom(part, end.value);
        forall k | 1 <= k < |all| ensures end.value <= all[k].0 && IsParagraph(part, all[k].0, all[k].1) {
          assert all[k] == all[1..][k - 1];
        }
        forall j, k | 1 <= j < k < |all| ensures all[j].1 <= all[k].0 {
          assert all[j] == all[1..][j - 1] && all[k] == all[1..][k - 1];
        }
      } else {
        ReportedParagraphs(part, i + 1);
        assert all == ParagraphsFrom(part, i + 1);
      }
    }
  }

  /** A paragraph that is not reported starts inside an earlier one that is. */
  lemma {:induction false} NoParagraphIsMissed(part: string, i: nat, start: nat, end: nat)
    requires IsParagraph(part, start, end) && i <= start
    ensures (start, end) in ParagraphsFrom(part, i) ||
      exists o :: o in ParagraphsFrom(part, i) && o.0 < start < o.1
    decreases |part| - i
  {
    ParagraphAtIsTheExpression(part, start, end);
    hide ParagraphAt, IsParagraph;
    var here := ParagraphAt(part, i);
    var all := ParagraphsFrom(part, i);
    if i == start {
      assert all[0] == (start, end);
    } else if here.Some? {
      assert all[0] == (i, here.value) && all[1..] == ParagraphsFrom(part, here.value);
      assert all[0] in all && forall o :: o in all[1..] ==> o in all;
      if here.value <= start {
        NoParagraphIsMissed(part, here.value, start, end);
      }
    } else {
      NoParagraphIsMissed(part, i + 1, start, end);
    }
  }

  /** No paragraph reaches across index `at`. */
  ghost predicate CutsNone(part: string, at: nat) {
    forall i: nat, j: nat :: i < at < j ==> !IsParagraph(part, i, j)
  }

  /** The bytes a paragraph starts with. */
  lemma ParagraphStarts(part: string, i: nat, j: nat)
    requires IsParagraph(part, i, j)
    ensures i + 6 <= j <= |part|
    ensures part[i] == '<' && part[i + 1] == 'w' && part[i + 2] == ':' && part[i + 3] == 'p'
    ensures part[i + 4] in {' ', '>', '/'}
    ensures part[i + 4] == '/' ==> j == i + 6 && part[i + 5] == '>'
  {
    assert part[i..i + 5][0] == part[i] && part[i..i + 5][1] == part[i + 1] && part[i..i + 5][2] == part[i + 2];
    assert part[i..i + 5][3] == part[i + 3] && part[i..i + 5][4] == part[i + 4];
    if j == i + 6 {
      assert forall k :: 0 <= k < 6 ==> part[i..j][k] == part[i + k];
    }
  }

  lemma ParagraphEnds(part: string, i: nat, j: nat)
    requires IsParagraph(part, i, j) && j > i + 6
    ensures i + 11 <= j && part[j - 6..j] == "</w:p>" && part[j - 6] == '<' && part[j - 5] == '/'
    ensures forall k :: j - 5 <= k < j ==> part[k] != '<'
    ensures forall a, b :: i + 5 <= a && b == a + 6 < j ==> part[a..b] != "</w:p>"
  {
    assert forall k :: j - 6 <= k < j ==> part[k] == part[j - 6..j][k - (j - 6)] == "</w:p>"[k - (j - 6)];
  }

  /** A paragraph that starts inside another one ends inside it. */
  lemma ParagraphsNest(part: string, i: nat, j: nat, start: nat, end: nat)
    requires IsParagraph(part, i, j) && IsParagraph(part, start, end) && i < start < j
    ensures end <= j
  {
    hide IsParagraph;
    ParagraphStarts(part, i, j);
    ParagraphStarts(part, start, end);
    if j > i + 6 { ParagraphEnds(part, i, j); }
    if j == i + 6 {
      EmptyParagraph(part, i, j);
    } else if end > start + 6 {
      ParagraphEnds(part, start, end);
    }
  }

  lemma EmptyParagraph(part: string, i: nat, j: nat)
    requires IsParagraph(part, i, j) && j == i + 6
    ensures forall k :: i < k < j ==> part[k] != '<'
  {
    assert forall k :: i <= k < j ==> part[k] == part[i..j][k - i] == "<w:p/>"[k - i];
  }

  /** One that starts before a reported one has ended there. */
  lemma EndsBeforeReported(part: string, i: nat, j: nat, start: nat, end: nat)
    requires (i, j) in ParagraphsFrom(part, 0) && IsParagraph(part, start, end) && start < i
    ensures end <= i
  {
    hide IsParagraph, ParagraphsFrom;
    var locs := ParagraphsFrom(part, 0);
    ReportedParagraphs(part, 0);
    NoParagraphIsMissed(part, 0, start, end);
    var o :| o in locs && o.0 <= start < o.1 && (o == (start, end) || o.0 < start);
    if o.0 < start { ParagraphsNest(part, o.0, o.1, start, end); }
    var k :| 0 <= k < |locs| && locs[k] == (i, j);
    var m :| 0 <= m < |locs| && locs[m] == o;
    assert m < k ==> locs[m].1 <= locs[k].0;
    assert k < m ==> locs[k].1 <= locs[m].0;
  }

  /** A paragraph is reported exactly when no other one reaches across its start. */
  lemma ReportedIffNotCut(part: string, i: nat, j: nat)
    ensures (i, j) in ParagraphsFrom(part, 0) <==> IsParagraph(part, i, j) && CutsNone(part, i)
  {
    hide IsParagraph, ParagraphsFrom;
    var locs := ParagraphsFrom(part, 0);
    ReportedParagraphs(part, 0);
    if (i, j) in locs {
      forall a: nat, b: nat | a < i < b ensures !IsParagraph(part, a, b) {
        if IsParagraph(part, a, b) { EndsBeforeReported(part, i, j, a, b); }
      }
    } else if IsParagraph(part, i, j) && CutsNone(part, i) {
      NoParagraphIsMissed(part, 0, i, j);
    }
  }

  lemma PartStep(part: string, values: Values, i: nat)
    ensures i >= |part| ==> FilledPartFrom(part, values, i) == ""
    ensures i < |part| && ParagraphAt(part, i).None? ==>
      FilledPartFrom(part, values, i) == [part[i]] + FilledPartFrom(part, values, i + 1)
    ensures i < |part| && ParagraphAt(part, i).Some? ==>
      var j := ParagraphAt(part, i).value;
      FilledPartFrom(part, values, i) == Filled(part[i..j], values) + FilledPartFrom(part, values, j)
  {
  }

  /** A paragraph is decided by its own bytes. */
  lemma ParagraphMoves(part: string, i: nat, j: nat, other: string, d: int)
    requires IsParagraph(part, i, j) && 0 <= i + d && j + d <= |other| && part[i..j] == other[i + d..j + d]
    ensures IsParagraph(other, i + d, j + d)
  {
    assert forall a, b {:trigger part[a..b]} :: i <= a <= b <= j ==> other[a + d..b + d] == part[a..b] by {
      forall a, b | i <= a <= b <= j ensures other[a + d..b + d] == part[a..b] {
        SliceOfSlice(part, i, j, a - i, b - i);
        SliceOfSlice(other, i + d, j + d, a - i, b - i);
      }
    }
    if j > i + 6 || part[i..j] != "<w:p/>" {
      forall a, b | i + d + 5 <= a && b == a + 6 < j + d ensures other[a..b] != "</w:p>" {
        assert part[a - d..b - d] != "</w:p>";
      }
    }
  }

  /** Before an index that cuts no paragraph the part is searched as if it ended there. */
  lemma SameBeforeCut(part: string, at: nat, i: nat)
    requires i < at <= |part| && CutsNone(part, at)
    ensures ParagraphAt(part, i) == ParagraphAt(part[..at], i)
  {
    hide ParagraphAt, IsParagraph;
    var front := part[..at];
    var here, there := ParagraphAt(part, i), ParagraphAt(front, i);
    if here.Some? {
      ParagraphAtIsTheExpression(part, i, here.value);
      assert IsParagraph(part, i, here.value) && here.value <= at;
      assert part[i..here.value] == front[i..here.value];
      ParagraphMoves(part, i, here.value, front, 0);
      ParagraphAtIsTheExpression(front, i, here.value);
    } else if there.Some? {
      ParagraphAtIsTheExpression(front, i, there.value);
      ParagraphStarts(front, i, there.value);
      SliceOfSlice(part, 0, at, i, there.value);
      assert part[0..at] == front;
      ParagraphMoves(front, i, there.value, part, 0);
      ParagraphAtIsTheExpression(part, i, there.value);
    }
  }

  /** After any index it is searched as if it began there. */
  lemma SameAfterCut(part: string, at: nat, i: nat)
    requires at <= |part|
    ensures var here := ParagraphAt(part[at..], i);
      ParagraphAt(part, at + i) == if here.Some? then Some(at + here.value) else None
  {
    hide ParagraphAt, IsParagraph;
    var rest := part[at..];
    var here, there := ParagraphAt(rest, i), ParagraphAt(part, at + i);
    if here.Some? {
      ParagraphAtIsTheExpression(rest, i, here.value);
      assert rest[i..here.value] == part[at + i..at + here.value];
      ParagraphMoves(rest, i, here.value, part, at);
      ParagraphAtIsTheExpression(part, at + i, at + here.value);
    } else if there.Some? {
      var j: nat := there.value - at;
      ParagraphAtIsTheExpression(part, at + i, at + j);
      assert j <= |rest|;
      assert rest[i..j] == part[at + i..at + j];
      ParagraphMoves(part, at + i, at + j, rest, 0 - at);
      ParagraphAtIsTheExpression(rest, i, j);
    }
  }

  lemma {:induction false} FilledBeforeCut(part: string, values: Values, at: nat, i: nat)
    requires i <= at <= |part| && CutsNone(part, at)
    ensures FilledPartFrom(part, values, i) ==
      FilledPartFrom(part[..at], values, i) + FilledPartFrom(part, values, at)
    decreases at - i
  {
    hide ParagraphAt, FilledPartFrom, Filled, CutsNone;
    PartStep(part, values, i);
    PartStep(part[..at], values, i);
    if i < at {
      SameBeforeCut(part, at, i);
      var end := ParagraphAt(part, i);
      var rest := FilledPartFrom(part, values, at);
      if end.Some? {
        FilledBeforeCut(part, values, at, end.value);
        assert part[..at][i..end.value] == part[i..end.value];
        JoinAssociates(Filled(part[i..end.value], values), FilledPartFrom(part[..at], values, end.value), rest);
      } else {
        FilledBeforeCut(part, values, at, i + 1);
        JoinAssociates([part[i]], FilledPartFrom(part[..at], values, i + 1), rest);
      }
    }
  }

  lemma {:induction false} FilledAfterCut(part: string, values: Values, at: nat, i: nat)
    requires at <= |part|
    ensures FilledPartFrom(part, values, at + i) == FilledPartFrom(part[at..], values, i)
    decreases |part| - i
  {
    hide ParagraphAt, FilledPartFrom, Filled;
    PartStep(part, values, at + i);
    PartStep(part[at..], values, i);
    SameAfterCut(part, at, i);
    if at + i < |part| {
      var end := ParagraphAt(part[at..], i);
      if end.Some? {
        SliceOfSlice(part, at, |part|, i, end.value);
        assert part[at..|part|] == part[at..];
        FilledAfterCut(part, values, at, end.value);
      } else {
        FilledAfterCut(part, values, at, i + 1);
        assert part[at..][i] == part[at + i];
      }
    }
  }

  /** Wherever a paragraph starts that no earlier one reaches into, it is filled in its place. */
  ghost predicate ParagraphsInPlace(part: string, values: Values, out: string) {
    forall i: nat, j: nat :: IsParagraph(part, i, j) && CutsNone(part, i) ==>
      i <= j <= |part| &&
      out == FilledPart(part[..i], values) + Filled(part[i..j], values) + FilledPart(part[j..], values)
  }

  lemma PlaceParagraph(part: string, values: Values, i: nat, j: nat)
    requires IsParagraph(part, i, j) && CutsNone(part, i)
    ensures i < j <= |part|
    ensures FilledPart(part, values) ==
      FilledPart(part[..i], values) + (Filled(part[i..j], values) + FilledPart(part[j..], values))
  {
    hide ParagraphAt, IsParagraph, Filled, CutsNone, FilledPartFrom;
    ParagraphAtIsTheExpression(part, i, j);
    FilledBeforeCut(part, values, i, 0);
    PartStep(part, values, i);
    FilledAfterCut(part, values, j, 0);
  }

  lemma FilledInPlace(part: string, values: Values)
    ensures ParagraphsInPlace(part, values, FilledPart(part, values))
  {
    hide IsParagraph, CutsNone, FilledPart;
    forall i: nat, j: nat | IsParagraph(part, i, j) && CutsNone(part, i)
      ensures i <= j <= |part| && FilledPart(part, values) ==
        FilledPart(part[..i], values) + Filled(part[i..j], values) + FilledPart(part[j..], values)
    {
      PlaceParagraph(part, values, i, j);
      hide Filled, FilledPartFrom;
      JoinAssociates(FilledPart(part[..i], values), Filled(part[i..j], values), FilledPart(part[j..], values));
    }
  }

  /** A part without a paragraph stays as it is. */
  lemma {:induction false} NothingToFillFrom(part: string, values: Values, i: nat)
    requires i <= |part| && forall a: nat, b: nat :: !IsParagraph(part, a, b)
    ensures FilledPartFrom(part, values, i) == part[i..]
    decreases |part| - i
  {
    hide IsParagraph;
    PartStep(part, values, i);
    var end := ParagraphAt(part, i);
    hide ParagraphAt, FilledPartFrom;
    if end.Some? {
      ParagraphAtIsTheExpression(part, i, end.value);
    } else if i < |part| {
      NothingToFillFrom(part, values, i + 1);
      SliceCons(part, i, |part|);
      assert part[i..|part|] == part[i..] && part[i + 1..|part|] == part[i + 1..];
    }
  }

  method FillPart(part: string, values: Values) returns (out: string)
    ensures out == FilledPart(part, values)
    ensures (forall i: nat, j: nat :: !IsParagraph(part, i, j)) ==> out == part
    ensures ParagraphsInPlace(part, values, out)
  {
    hide FilledPartFrom, ParagraphsFrom, Filled;
    var locs := ParagraphsFrom(part, 0);
    out := "";
    var prev: nat := 0;
    for n := 0 to |locs|
      invariant prev <= |part| && locs[n..] == ParagraphsFrom(part, prev)
      invariant out + FilledPartFrom(part, values, prev) == FilledPartFrom(part, values, 0)
    {
      CopyToNext(part, values, prev);
      var (start, end) := (locs[n].0, locs[n].1);
      assert locs[n..][0] == locs[n] && locs[n..][1..] == locs[n + 1..];
      out := out + part[prev..start];
      var filled := FillParagraph(part[start..end], values);
      out := out + filled;
      prev := end;
    }
    CopyToNext(part, values, prev);
    out := out + part[prev..];
    FilledInPlace(part, values);
    if forall i: nat, j: nat :: !IsParagraph(part, i, j) { NothingToFillFrom(part, values, 0); }
    hide *;
  }

  // ------------------------------------------------------------ keys

  /** The distinct keys of the placeholders in a text. */
  function KeysOf(s: string): set<string> {
    MatchesAreOrdered(s, 0);
    set k | 0 <= k < |Matches(s)| :: Key(s, Matches(s)[k])
  }

  /** Placeholders searches the escaped text, fillParagraph the unescaped one; both see the same keys. */
  lemma ReportedKeysAreMatchedKeys(text: string)
    ensures KeysOf(text) == KeysOf(Unescape(text))
  {
    MatchesCorrespond(text);
    MatchesAreOrdered(text, 0);
    MatchesAreOrdered(Unescape(text), 0);
    var ts, ms := Matches(text), Matches(Unescape(text));
    forall k | 0 <= k < |ts| ensures Key(text, ts[k]) == Key(Unescape(text), ms[k]) {
      assert Corresponds(text, Unescape(text), OffsetsFrom(text, 0), ms[k], ts[k]);
    }
  }

  /** The edit a match of the text should make. */
  function EditFor(text: string, m: Match, values: Values): Edit
    requires m.keyStart <= m.keyEnd <= |text| && Key(text, m) in values
  {
    Edit(m.start, m.end, Escape(values[Key(text, m)]))
  }

  lemma {:induction false} KnownDirectEdits(text: string, ms: seq<Match>, values: Values)
    requires InBounds(text, ms) && forall k :: 0 <= k < |ms| ==> Key(text, ms[k]) in values
    ensures |DirectEditsFrom(text, ms, values)| == |ms|
    ensures forall k :: 0 <= k < |ms| ==> DirectEditsFrom(text, ms, values)[k] == EditFor(text, ms[k], values)
  {
    if ms != [] {
      KnownDirectEdits(text, ms[1..], values);
    }
  }

  lemma {:induction false} KnownEdits(s: string, ms: seq<Match>, values: Values, at: seq<nat>, length: nat)
    requires InBounds(s, ms) && forall k :: 0 <= k < |ms| ==> Key(s, ms[k]) in values
    ensures |EditsOf(s, ms, values, at, length)| == |ms|
    ensures forall k :: 0 <= k < |ms| ==>
      EditsOf(s, ms, values, at, length)[k].value == Escape(values[Key(s, ms[k])])
  {
    if ms != [] {
      KnownEdits(s, ms[1..], values, at, length);
    }
  }

  /** Every key of the text has a value. */
  ghost predicate AllKnown(text: string, values: Values) {
    forall key :: key in KeysOf(text) ==> key in values
  }

  lemma KnownAt(text: string, values: Values, k: nat)
    requires AllKnown(text, values) && k < |Matches(text)|
    ensures InBounds(text, Matches(text)) && Key(text, Matches(text)[k]) in values
  {
    MatchesAreOrdered(text, 0);
    assert Key(text, Matches(text)[k]) in KeysOf(text);
  }

  /** The reference edits of a text whose keys are all known: one per placeholder. */
  lemma KnownReference(text: string, values: Values)
    requires AllKnown(text, values)
    ensures InBounds(text, Matches(text)) && |DirectEdits(text, values)| == |Matches(text)|
    ensures forall k :: 0 <= k < |Matches(text)| ==>
      && Key(text, Matches(text)[k]) in values
      && DirectEdits(text, values)[k] == EditFor(text, Matches(text)[k], values)
  {
    MatchesAreOrdered(text, 0);
    forall k | 0 <= k < |Matches(text)| ensures Key(text, Matches(text)[k]) in values { KnownAt(text, values, k); }
    KnownDirectEdits(text, Matches(text), values);
  }

  /** The edits fillParagraph makes of such a text: one per placeholder, with its value, whatever the text. */
  lemma KnownMapped(text: string, values: Values)
    requires AllKnown(text, values)
    ensures InBounds(text, Matches(text)) && |MappedEdits(text, values)| == |Matches(text)|
    ensures forall k :: 0 <= k < |Matches(text)| ==>
      && Key(text, Matches(text)[k]) in values
      && MappedEdits(text, values)[k].value == Escape(values[Key(text, Matches(text)[k])])
  {
    var plain := Unescape(text);
    var ts, ms := Matches(text), Matches(plain);
    MatchesAreOrdered(text, 0);
    MatchesAreOrdered(plain, 0);
    MatchesCorrespond(text);
    forall k | 0 <= k < |ts| ensures Key(text, ts[k]) in values && Key(plain, ms[k]) == Key(text, ts[k]) {
      KnownAt(text, values, k);
      assert Corresponds(text, plain, OffsetsFrom(text, 0), ms[k], ts[k]);
    }
    hide Matches, Unescape, Corresponds, Key, Ordered, AllKnown, Escape;
    KnownEdits(plain, ms, values, ScanFrom(text, 0), |text|);
  }

  /**
   * When every key of the text is known, fillParagraph makes one edit for every
   * placeholder, with its value, for every text whatsoever. The edits stand on the
   * placeholders exactly when no unknown short reference comes before the last one.
   */
  lemma KnownKeysAreAllReplaced(text: string, values: Values)
    requires AllKnown(text, values)
    ensures InBounds(text, Matches(text)) && |MappedEdits(text, values)| == |Matches(text)|
    ensures forall k :: 0 <= k < |Matches(text)| ==>
      && Key(text, Matches(text)[k]) in values
      && MappedEdits(text, values)[k].value == Escape(values[Key(text, Matches(text)[k])])
    ensures var ts := Matches(text);
      (ts == [] || CleanBetween(text, 0, ts[|ts| - 1].end)) <==>
      forall k :: 0 <= k < |ts| ==> MappedEdits(text, values)[k] == EditFor(text, ts[k], values)
  {
    KnownMapped(text, values);
    KnownReference(text, values);
    MappedEditsExactIff(text, values);
    hide Matches, MappedEdits, DirectEdits, Key, AllKnown, Escape, InBounds;
    var ts, mapped, direct := Matches(text), MappedEdits(text, values), DirectEdits(text, values);
    if forall k :: 0 <= k < |ts| ==> mapped[k] == EditFor(text, ts[k], values) {
      assert mapped == direct;
    }
    if ts == [] {
      assert mapped == direct;
    } else {
      assert direct[|ts| - 1] == EditFor(text, ts[|ts| - 1], values);
    }
  }

  // ------------------------------------------------------------ what the system supplies

  /** The keys DocumentValues always sets, in the order it sets them. */
  const SET_KEYS: seq<string> := [
    "name", "cpr", "dob", "phone", "email", "house", "road", "block", "address",
    "volunteer", "volunteer_field", "affiliated", "affiliation",
    "volunteer_yes", "volunteer_no", "affiliated_yes", "affiliated_no",
    "status", "status_accepted", "status_rejected", "status_pending",
    "meeting_no", "secretary", "chairman", "org_name", "form_title", "today", "today_num", "no",
    "membership_no", "decision_date", "decision_date_num"]

  /** The keys DocumentKeys lists before the custom ones. */
  const LISTED_KEYS: seq<string> := [
    "name", "cpr", "dob", "phone", "email", "house", "road", "block", "address",
    "volunteer", "volunteer_yes", "volunteer_no", "volunteer_field",
    "affiliated", "affiliated_yes", "affiliated_no", "affiliation",
    "status", "status_accepted", "status_rejected", "status_pending",
    "decision_date", "decision_date_num", "meeting_no", "membership_no",
    "secretary", "chairman", "org_name", "form_title", "today", "today_num", "no"]

  /** Where DocumentValues sets each listed key. */
  const WHERE_SET: seq<nat> := [
    0, 1, 2, 3, 4, 5, 6, 7, 8,
    9, 13, 14, 10,
    11, 15, 16, 12,
    17, 18, 19, 20,
    30, 31, 21, 29,
    22, 23, 24, 25, 26, 27, 28]

  lemma FirstListedAreSet(k: nat)
    requires k < 16
    ensures WHERE_SET[k] < |SET_KEYS| && LISTED_KEYS[k] == SET_KEYS[WHERE_SET[k]]
  {
  }

  lemma LaterListedAreSet(k: nat)
    requires 16 <= k < |LISTED_KEYS|
    ensures k < |WHERE_SET| && WHERE_SET[k] < |SET_KEYS| && LISTED_KEYS[k] == SET_KEYS[WHERE_SET[k]]
  {
  }

  lemma ListedKeysAreSet(k: nat)
    requires k < |LISTED_KEYS|
    ensures LISTED_KEYS[k] in SET_KEYS
  {
    if k < 16 { FirstListedAreSet(k); } else { LaterListedAreSet(k); }
    hide *;
  }

  lemma FirstListedAreKeyChars(k: nat)
    requires k < 16
    ensures LISTED_KEYS[k] != "" && forall n :: 0 <= n < |LISTED_KEYS[k]| ==> IsKeyChar(LISTED_KEYS[k][n])
  {
  }

  lemma LaterListedAreKeyChars(k: nat)
    requires 16 <= k < |LISTED_KEYS|
    ensures LISTED_KEYS[k] != "" && forall n :: 0 <= n < |LISTED_KEYS[k]| ==> IsKeyChar(LISTED_KEYS[k][n])
  {
  }

  /** Every listed key, written in braces anywhere in a text, is matched as that key. */
  lemma ListedKeyIsMatched(k: nat, s: string, at: nat, left: string, right: string)
    requires k < |LISTED_KEYS| && IsBlank(left) && IsBlank(right) && HasAt(s, at, Braced(left, LISTED_KEYS[k], right))
    ensures var m := MatchAt(s, at);
      m.Some? && m.value.end == at + |Braced(left, LISTED_KEYS[k], right)| && Key(s, m.value) == LISTED_KEYS[k]
  {
    if k < 16 { FirstListedAreKeyChars(k); } else { LaterListedAreKeyChars(k); }
    hide *;
    KeyIsKeyChars(LISTED_KEYS[k]);
    WrittenKeyIsMatched(s, at, left, LISTED_KEYS[k], right);
  }

  function DocumentKeys(custom: seq<string>): seq<string> {
    LISTED_KEYS + custom
  }

  /** Built-in values first, then the extra answers, then blanks, and a value for every listed key. */
  ghost predicate AreDocumentValues(builtIn: Values, extra: Values, custom: seq<string>, v: Values) {
    && (forall k :: 0 <= k < |DocumentKeys(custom)| ==> DocumentKeys(custom)[k] in v)
    && (forall k :: k in SET_KEYS ==> k in v && k in builtIn && v[k] == builtIn[k])
    && (forall k :: k in v && k !in SET_KEYS ==> if k in extra then v[k] == extra[k] else k in custom && v[k] == "")
  }

  lemma AllKeysPresent(v: Values, custom: seq<string>)
    requires (forall k :: k in SET_KEYS ==> k in v) && forall j :: 0 <= j < |custom| ==> custom[j] in v
    ensures forall k :: 0 <= k < |DocumentKeys(custom)| ==> DocumentKeys(custom)[k] in v
  {
    hide SET_KEYS;
    forall k | 0 <= k < |DocumentKeys(custom)| ensures DocumentKeys(custom)[k] in v {
      if k < |LISTED_KEYS| { ListedKeysAreSet(k); }
    }
  }

  lemma ValuesAreThose(builtIn: Values, extra: Values, custom: seq<string>, v: Values)
    requires forall k :: k in builtIn <==> k in SET_KEYS
    requires builtIn.Keys <= v.Keys && forall k :: k in builtIn ==> v[k] == builtIn[k]
    requires forall j :: 0 <= j < |custom| ==> custom[j] in v
    requires forall k :: k in v && k !in builtIn ==> if k in extra then v[k] == extra[k] else k in custom && v[k] == ""
    ensures AreDocumentValues(builtIn, extra, custom, v)
  {
    hide SET_KEYS, LISTED_KEYS, DocumentKeys;
    forall k | k in SET_KEYS ensures k in v && k in builtIn && v[k] == builtIn[k] { assert k in builtIn.Keys; }
    AllKeysPresent(v, custom);
  }

  /** The extra answers, where no built-in value has their key. */
  method AddExtras(base: Values, extra: Values) returns (v: Values)
    ensures v.Keys == base.Keys + extra.Keys
    ensures forall k :: k in v ==> v[k] == if k in base then base[k] else extra[k]
  {
    v := base;
    var rest := extra.Keys;
    while rest != {}
      invariant rest <= extra.Keys && v.Keys == base.Keys + (extra.Keys - rest)
      invariant forall k :: k in v ==> v[k] == if k in base then base[k] else extra[k]
      decreases rest
    {
      var k :| k in rest;
      if k !in v {
        v := v[k := extra[k]];
      }
      rest := rest - {k};
    }
  }

  /** DocumentValues: the built-in values, then the extra answers, then blanks for unanswered custom fields. */
  method DocumentValues(builtIn: Values, extra: Values, custom: seq<string>) returns (v: Values)
    requires forall k :: k in builtIn <==> k in SET_KEYS
    ensures AreDocumentValues(builtIn, extra, custom, v)
  {
    hide SET_KEYS, LISTED_KEYS, DocumentKeys, AreDocumentValues;
    v := AddExtras(builtIn, extra);
    ghost var answered := v;
    for i := 0 to |custom|
      invariant answered.Keys <= v.Keys
      invariant forall j :: 0 <= j < i ==> custom[j] in v
      invariant forall k :: k in v ==> if k in answered then v[k] == answered[k] else k in custom && v[k] == ""
    {
      if custom[i] !in v {
        v := v[custom[i] := ""];
      }
    }
    assert forall k :: k in answered <==> k in answered.Keys;
    ValuesAreThose(builtIn, extra, custom, v);
  }

  lemma KnownIsSubstitution(p: string, v: Values)
    requires AllKnown(Text(p), v)
    ensures var ts := Matches(Text(p)); ts == [] || CleanBetween(Text(p), 0, ts[|ts| - 1].end) ==>
      Concat(NewInnerOf(p, v)) == Substitute(Text(p), v)
  {
    var text, ts := Text(p), Matches(Text(p));
    KnownReference(text, v);
    var due := DirectEdits(text, v);
    hide AllKnown, Text, TextFrom, Matches, DirectEdits, NewInnerOf, Substitute;
    if ts == [] {
      assert LastEnd(due) == 0;
      NothingBefore(text);
      FilledTextIsSubstitution(p, v);
    } else if CleanBetween(text, 0, ts[|ts| - 1].end) {
      assert due[|ts| - 1] == EditFor(text, ts[|ts| - 1], v);
      FilledTextIsSubstitution(p, v);
    }
  }

  lemma NothingBefore(text: string)
    ensures CleanBetween(text, 0, 0)
  {
  }

  /**
   * A paragraph that uses only listed keys, filled with the values of a document:
   * every placeholder of its text gets an edit with its own value, for every
   * paragraph; and when no unknown short reference comes before the last
   * placeholder, the new inner texts are the text with exactly those replaced.
   */
  lemma RecognisedTemplateIsFilled(p: string, builtIn: Values, extra: Values, custom: seq<string>, v: Values)
    requires AreDocumentValues(builtIn, extra, custom, v)
    requires forall key :: key in KeysOf(Text(p)) ==> key in DocumentKeys(custom)
    ensures InBounds(Text(p), Matches(Text(p))) && |MappedEdits(Text(p), v)| == |Matches(Text(p))|
    ensures forall k :: 0 <= k < |Matches(Text(p))| ==>
      && Key(Text(p), Matches(Text(p))[k]) in v
      && MappedEdits(Text(p), v)[k].value == Escape(v[Key(Text(p), Matches(Text(p))[k])])
    ensures var ts := Matches(Text(p)); ts == [] || CleanBetween(Text(p), 0, ts[|ts| - 1].end) ==>
      && (forall k :: 0 <= k < |ts| ==> MappedEdits(Text(p), v)[k] == EditFor(Text(p), ts[k], v))
      && Concat(NewInnerOf(p, v)) == Substitute(Text(p), v)
  {
    var text := Text(p);
    assert AllKnown(text, v) by {
      forall key | key in KeysOf(text) ensures key in v {
        var k :| 0 <= k < |DocumentKeys(custom)| && DocumentKeys(custom)[k] == key;
      }
    }
    hide *;
    KnownKeysAreAllReplaced(text, v);
    KnownReference(text, v);
    KnownIsSubstitution(p, v);
  }
}
