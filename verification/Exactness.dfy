// When the edits fillParagraph of internal/docxt/docxt.go makes are one substitution
// over the text of the paragraph, and what is read when they are not.
module Exactness {
  import opened Prelude
  import opened XmlText
  import opened Placeholder
  import opened Paragraph
  import opened Rendering
  import opened Fill

  // ------------------------------------------------------------ the first misplaced edit

  /** The edit made for a placeholder is the one due, or it starts too late. */
  ghost predicate Tracks(text: string, made: Edit, due: Edit) {
    && due.start < due.end <= |text| && text[due.start] == '{' && made.value == due.value
    && if CleanBetween(text, 0, due.end) then made == due else due.start < made.start
  }

  ghost predicate AllTrack(text: string, made: seq<Edit>, due: seq<Edit>) {
    |made| == |due| && forall k :: 0 <= k < |due| ==> Tracks(text, made[k], due[k])
  }

  lemma AllTrackCons(text: string, m: Edit, made: seq<Edit>, d: Edit, due: seq<Edit>)
    requires Tracks(text, m, d) && AllTrack(text, made, due)
    ensures AllTrack(text, [m] + made, [d] + due)
  {
    hide Tracks;
  }

  lemma EditsStep(s: string, ms: seq<Match>, values: Values, at: seq<nat>, length: nat)
    requires InBounds(s, ms) && ms != []
    ensures InBounds(s, ms[1..]) && ms[0].keyStart <= ms[0].keyEnd <= |s|
    ensures Key(s, ms[0]) !in values ==>
      && EditsOf(s, ms, values, at, length) == EditsOf(s, ms[1..], values, at, length)
      && DirectEditsFrom(s, ms, values) == DirectEditsFrom(s, ms[1..], values)
    ensures Key(s, ms[0]) in values ==>
      var value := values[Key(s, ms[0])];
      var a, b := MapPosition(at, length, ms[0].start), MapPosition(at, length, ms[0].end);
      && EditsOf(s, ms, values, at, length) == [Edit(a, b, Escape(value))] + EditsOf(s, ms[1..], values, at, length)
      && DirectEditsFrom(s, ms, values) ==
           [Edit(ms[0].start, ms[0].end, Escape(value))] + DirectEditsFrom(s, ms[1..], values)
  {
    hide Key, MapPosition, Escape;
  }

  lemma TracksWhen(text: string, made: Edit, due: Edit)
    requires due.start < due.end <= |text| && text[due.start] == '{' && made.value == due.value
    requires made.start == due.start && made.end == due.end <==> CleanBetween(text, 0, due.end)
    requires !CleanBetween(text, 0, due.end) ==> due.start < made.start
    ensures Tracks(text, made, due)
  {
    hide CleanBetween;
  }

  lemma EditTracks(text: string, plain: string, offsets: seq<nat>, m: Match, t: Match, value: string)
    requires plain == Unescape(text) && offsets == OffsetsFrom(text, 0) && Corresponds(text, plain, offsets, m, t)
    ensures var at := ScanFrom(text, 0);
      var made := Edit(MapPosition(at, |text|, m.start), MapPosition(at, |text|, m.end), value);
      Tracks(text, made, Edit(t.start, t.end, value))
  {
    BraceAtStart(text, t);
    hide *;
    CorrespondingOffsets(text, m, t);
    EntriesAreExact(text, m.start, m.end, t.start, t.end);
    var at := ScanFrom(text, 0);
    var made := Edit(MapPosition(at, |text|, m.start), MapPosition(at, |text|, m.end), value);
    TracksWhen(text, made, Edit(t.start, t.end, value));
  }

  lemma BraceAtStart(text: string, t: Match)
    requires IsPlaceholder(text, t)
    ensures t.start < t.end <= |text| && text[t.start] == '{'
  {
    assert text[t.start..t.start + 2][0] == text[t.start];
  }

  lemma {:induction false} EditsTrack(text: string, plain: string, offsets: seq<nat>, ms: seq<Match>, ts: seq<Match>,
                                      values: Values)
    requires plain == Unescape(text) && offsets == OffsetsFrom(text, 0)
    requires |ms| == |ts| && InBounds(plain, ms) && InBounds(text, ts)
    requires forall k :: 0 <= k < |ms| ==> Corresponds(text, plain, offsets, ms[k], ts[k])
    ensures AllTrack(text, EditsOf(plain, ms, values, ScanFrom(text, 0), |text|), DirectEditsFrom(text, ts, values))
  {
    if ms != [] {
      var at := ScanFrom(text, 0);
      CorrespondingKeys(text, ms[0], ts[0]);
      EditsStep(plain, ms, values, at, |text|);
      EditsStep(text, ts, values, at, |text|);
      hide *;
      EditsTrack(text, plain, offsets, ms[1..], ts[1..], values);
      if Key(text, ts[0]) in values {
        var value := Escape(values[Key(text, ts[0])]);
        var made, due := EditsOf(plain, ms[1..], values, at, |text|), DirectEditsFrom(text, ts[1..], values);
        var a, b := MapPosition(at, |text|, ms[0].start), MapPosition(at, |text|, ms[0].end);
        EditTracks(text, plain, offsets, ms[0], ts[0], value);
        AllTrackCons(text, Edit(a, b, value), made, Edit(ts[0].start, ts[0].end, value), due);
      }
    }
  }

  lemma MappedEditsTrack(text: string, values: Values)
    ensures AllTrack(text, MappedEdits(text, values), DirectEdits(text, values))
  {
    MatchesAreOrdered(text, 0);
    MatchesAreOrdered(Unescape(text), 0);
    MatchesCorrespond(text);
    hide AllTrack, Corresponds, OffsetsFrom, ScanFrom, UnescapeFrom, Matches, EditsOf, DirectEditsFrom;
    EditsTrack(text, Unescape(text), OffsetsFrom(text, 0), Matches(Unescape(text)), Matches(text), values);
  }

  /** On a text that is not clean there is a first misplaced edit. */
  lemma FirstMisplaced(text: string, made: seq<Edit>, due: seq<Edit>) returns (n: nat)
    requires AllTrack(text, made, due) && !CleanBetween(text, 0, LastEnd(due))
    ensures n < |due| == |made| && made[..n] == due[..n]
    ensures due[n].start < |text| && text[due[n].start] == '{' && due[n].start < made[n].start
  {
    assert due != [];
    hide CleanBetween;
    n := 0;
    while CleanBetween(text, 0, due[n].end)
      invariant n < |due| && made[..n] == due[..n]
      decreases |due| - n
    {
      assert Tracks(text, made[n], due[n]);
      assert made[..n + 1] == made[..n] + [made[n]] && due[..n + 1] == due[..n] + [due[n]];
      n := n + 1;
    }
    assert Tracks(text, made[n], due[n]);
  }

  lemma {:induction false} OutAtTake(text: string, edits: seq<Edit>, n: nat, j: nat)
    requires n < |edits| && j < |text| && j < edits[n].start
    ensures OutAt(text, edits, j) == OutAt(text, edits[..n], j)
    decreases n
  {
    if n > 0 {
      assert edits[..n][1..] == edits[1..][..n - 1];
      OutAtTake(text, edits[1..], n - 1, j);
    }
  }

  /** Up to the start of an edit only the edits before it count. */
  lemma {:induction false} RenderTake(text: string, edits: seq<Edit>, n: nat, lo: nat, hi: nat)
    requires n < |edits| && lo <= hi <= |text| && hi <= edits[n].start
    ensures Render(text, edits, lo, hi) == Render(text, edits[..n], lo, hi)
    decreases hi - lo
  {
    if lo < hi {
      OutAtTake(text, edits, n, lo);
      RenderTake(text, edits, n, lo + 1, hi);
    }
  }

  lemma {:induction false} BytePastEdits(text: string, edits: seq<Edit>, j: nat)
    requires j < |text| && forall k :: 0 <= k < |edits| ==> edits[k].start < edits[k].end <= j
    ensures OutAt(text, edits, j) == [text[j]]
  {
    if edits != [] { BytePastEdits(text, edits[1..], j); }
  }

  /**
   * What the first misplaced edit shows: the same as the edits due up to its placeholder,
   * and there a brace where they have the value.
   */
  lemma MisplacedShows(text: string, made: seq<Edit>, due: seq<Edit>, n: nat) returns (shown: string, meant: string)
    requires InOrder(made, 0, |text|) && InOrder(due, 0, |text|) && n < |due| == |made| && made[..n] == due[..n]
    requires due[n].start < |text| && text[due[n].start] == '{' && due[n].start < made[n].start
    ensures Render(text, made, 0, |text|) == Render(text, due, 0, due[n].start) + ("{" + shown)
    ensures Render(text, due, 0, |text|) == Render(text, due, 0, due[n].start) + (due[n].value + meant)
  {
    hide Render, InOrder;
    var t := due[n].start;
    BraceLeftBehind(text, made, due, n);
    shown := Render(text, made, t + 1, |text|);
    RenderSplit(text, made, 0, t, |text|);
    RenderSplit(text, made, t, t + 1, |text|);
    RenderThrough(text, due, n, 0, |text|);
    var after := if due[n].end < |text| then due[n].end else |text|;
    meant := Render(text, due, after, |text|);
    JoinAssociates(Render(text, due, 0, t), due[n].value, meant);
  }

  /** A text that is not clean is filled with a brace where the substitution has a value. */
  lemma BraceForValue(text: string, values: Values) returns (n: nat, before: string, shown: string, meant: string)
    requires !CleanBetween(text, 0, LastEnd(DirectEdits(text, values)))
    ensures n < |DirectEdits(text, values)|
    ensures Render(text, MappedEdits(text, values), 0, |text|) == before + ("{" + shown)
    ensures Substitute(text, values) == before + (DirectEdits(text, values)[n].value + meant)
  {
    var made, due := MappedEdits(text, values), DirectEdits(text, values);
    MatchesAreOrdered(text, 0);
    DirectEditsInOrder(text, Matches(text), values, 0);
    RenderIsSubstitution(text, values, 0);
    hide MappedEdits, DirectEditsFrom, CleanBetween, Render, SubstituteFrom, InOrder, MatchesFrom, AllTrack;
    MappedEditsInOrder(text, values);
    MappedEditsTrack(text, values);
    n := FirstMisplaced(text, made, due);
    shown, meant := MisplacedShows(text, made, due, n);
    before := Render(text, due, 0, due[n].start);
  }

  lemma BraceLeftBehind(text: string, made: seq<Edit>, due: seq<Edit>, n: nat)
    requires InOrder(made, 0, |text|) && InOrder(due, 0, |text|) && n < |due| == |made| && made[..n] == due[..n]
    requires due[n].start < |text| && due[n].start < made[n].start
    ensures var t := due[n].start;
      Render(text, made, 0, t) == Render(text, due, 0, t) && Render(text, made, t, t + 1) == [text[t]]
  {
    var t := due[n].start;
    RenderTake(text, made, n, 0, t);
    RenderTake(text, due, n, 0, t);
    OutAtTake(text, made, n, t);
    forall k | 0 <= k < |due[..n]| ensures due[..n][k].start < due[..n][k].end <= t {
      assert due[..n][k] == due[k] && due[k].end <= due[n].start;
    }
    BytePastEdits(text, due[..n], t);
    assert Render(text, made, t, t + 1) == OutAt(text, made, t) + Render(text, made, t + 1, t + 1);
  }

  // ------------------------------------------------------------ exactly when

  /** Every value that is put in shows itself: it is not empty and does not begin like a placeholder. */
  ghost predicate ValuesShow(text: string, values: Values) {
    forall k :: 0 <= k < |DirectEdits(text, values)| ==>
      var value := DirectEdits(text, values)[k].value;
      value != "" && value[0] != '{'
  }

  lemma FilledIsRendered(p: string, values: Values)
    ensures Concat(NewInnerOf(p, values)) == Render(Text(p), MappedEdits(Text(p), values), 0, |Text(p)|)
  {
    SpansTile(p, 0, Text(p), 0);
    RunsConcatenate(p, Text(p), MappedEdits(Text(p), values), Spans(p), 0, 0);
  }

  lemma DifferAt(before: string, a: string, b: string)
    requires a != "" && b != "" && a[0] != b[0]
    ensures before + a != before + b
  {
    assert (before + a)[|before|] == a[0] && (before + b)[|before|] == b[0];
  }

  /**
   * Filling is the substitution exactly when every short reference before the end of
   * the last known placeholder is a predefined one, whatever runs the text is split
   * into, when no value is empty or begins with a brace.
   */
  lemma FilledIsSubstitutionIff(p: string, values: Values)
    requires ValuesShow(Text(p), values)
    ensures Concat(NewInnerOf(p, values)) == Substitute(Text(p), values)
       <==> CleanBetween(Text(p), 0, LastEnd(DirectEdits(Text(p), values)))
  {
    var text := Text(p);
    if CleanBetween(text, 0, LastEnd(DirectEdits(text, values))) {
      FilledTextIsSubstitution(p, values);
    } else {
      var n, before, shown, meant := BraceForValue(text, values);
      FilledIsRendered(p, values);
      var value := DirectEdits(text, values)[n].value;
      assert value != "" && value[0] != '{';
      hide *;
      DifferAt(before, "{" + shown, value + meant);
    }
  }

  /** Where the edits stand depends on the keys alone. */
  lemma {:induction false} SamePlaces(text: string, ms: seq<Match>, values: Values, other: Values)
    requires InBounds(text, ms) && values.Keys == other.Keys
    ensures var due, others := DirectEditsFrom(text, ms, values), DirectEditsFrom(text, ms, other);
      |due| == |others| &&
      forall k :: 0 <= k < |due| ==> due[k].start == others[k].start && due[k].end == others[k].end
  {
    if ms != [] {
      assert Key(text, ms[0]) in values <==> Key(text, ms[0]) in values.Keys;
      assert Key(text, ms[0]) in other <==> Key(text, ms[0]) in other.Keys;
      SamePlaces(text, ms[1..], values, other);
    }
  }

  lemma SameEnds(text: string, values: Values, other: Values)
    requires values.Keys == other.Keys
    ensures LastEnd(DirectEdits(text, values)) == LastEnd(DirectEdits(text, other))
  {
    MatchesAreOrdered(text, 0);
    SamePlaces(text, Matches(text), values, other);
  }

  /** The same keys, each with the value `value`. */
  function AllSet(values: Values, value: string): (r: Values)
    ensures r.Keys == values.Keys && forall key :: key in r ==> r[key] == value
  {
    map key | key in values.Keys :: value
  }

  lemma {:induction false} EditsOfAllSet(text: string, ms: seq<Match>, values: Values, value: string)
    requires InBounds(text, ms)
    ensures var due := DirectEditsFrom(text, ms, AllSet(values, value));
      forall k :: 0 <= k < |due| ==> due[k].value == Escape(value)
  {
    if ms != [] {
      EditsStep(text, ms, AllSet(values, value), [], 0);
      EditsOfAllSet(text, ms[1..], values, value);
      hide DirectEditsFrom, Key, Escape;
    }
  }

  lemma OneLetter(s: string)
    requires s == "x"
    ensures Escape(s) == s
  {
    assert s[1..] == "" && Escape(s) == EscapeChar(s[0]) + Escape("");
  }

  /** Edits that all put the same letter in. */
  lemma LettersPutIn(text: string, values: Values, letter: string)
    requires letter == "x"
    ensures var due := DirectEdits(text, AllSet(values, letter));
      forall k :: 0 <= k < |due| ==> due[k].value == letter
  {
    MatchesAreOrdered(text, 0);
    OneLetter(letter);
    assert DirectEdits(text, AllSet(values, letter)) == DirectEditsFrom(text, Matches(text), AllSet(values, letter));
    EditsOfAllSet(text, Matches(text), values, letter);
    hide Escape, Matches, AllSet, MatchesFrom, Ordered;
  }

  lemma LetterShows(text: string, values: Values, letter: string)
    requires letter == "x"
    ensures ValuesShow(text, AllSet(values, letter))
  {
    hide DirectEdits;
    LettersPutIn(text, values, letter);
  }

  /**
   * The text alone decides whether a paragraph can be filled with every choice of
   * values for the known keys.
   */
  lemma EveryFillingIsSubstitutionIff(p: string, values: Values)
    ensures (forall other: Values :: other.Keys == values.Keys ==>
               Concat(NewInnerOf(p, other)) == Substitute(Text(p), other))
       <==> CleanBetween(Text(p), 0, LastEnd(DirectEdits(Text(p), values)))
  {
    hide TextFrom, SpansFrom, NewInnerOf, DirectEdits, SubstituteFrom, CleanBetween, ValuesShow;
    if CleanBetween(Text(p), 0, LastEnd(DirectEdits(Text(p), values))) {
      forall other: Values | other.Keys == values.Keys
        ensures Concat(NewInnerOf(p, other)) == Substitute(Text(p), other)
      {
        SameEnds(Text(p), values, other);
        FilledTextIsSubstitution(p, other);
      }
    } else {
      var other := AllSet(values, "x");
      LetterShows(Text(p), values, "x");
      SameEnds(Text(p), values, other);
      FilledIsSubstitutionIff(p, other);
    }
  }

  // ------------------------------------------------------------ the condition at work

  /** The text begins with one short reference other than the five, and a placeholder follows. */
  ghost predicate AfterReference(text: string, r: nat) {
    && 3 <= r <= 7 && r + 5 <= |text| && text[r..r + 5] == "{{k}}" && MatchesFrom(text, r + 5) == []
    && text[0] == '&' && text[1] in {'#', 'x'} && text[r - 1] == ';'
    && (forall k :: 0 < k < |text| ==> text[k] != '&')
    && (forall k :: 0 < k < r - 1 ==> text[k] != ';') && (forall k :: 0 <= k < r ==> text[k] != '{')
  }

  lemma ReferenceUnescaped(text: string, r: nat)
    requires AfterReference(text, r)
    ensures Unescape(text) == text
  {
    forall k: nat | k < |text| ensures EntityAt(text, k).None? {
      if EntityAt(text, k).Some? {
        EntityShape(text, k);
        EntityName(text, k, text[k..k + EntityAt(text, k).value.width]);
      }
    }
    NothingToUnescape(text, 0);
    assert text[0..] == text;
  }

  lemma PlaceholderHere(text: string, r: nat)
    requires r + 5 <= |text| && text[r..r + 5] == "{{k}}"
    ensures IsPlaceholder(text, Match(r, r + 2, r + 3, r + 5)) && Key(text, Match(r, r + 2, r + 3, r + 5)) == "k"
  {
    var five := text[r..r + 5];
    assert text[r + 2] == five[2] == 'k';
    assert text[r..r + 2] == five[..2] == "{{" && text[r + 3..r + 5] == five[3..] == "}}";
  }

  lemma ReferenceMatches(text: string, r: nat)
    requires AfterReference(text, r)
    ensures Matches(text) == [Match(r, r + 2, r + 3, r + 5)] && Key(text, Match(r, r + 2, r + 3, r + 5)) == "k"
  {
    hide IsPlaceholder, MatchAt, Key;
    var m := Match(r, r + 2, r + 3, r + 5);
    PlaceholderHere(text, r);
    MatchAtIsTheExpression(text, m);
    NoBraceNoMatch(text, 0, r);
  }

  lemma {:induction false} NoBraceNoMatch(s: string, i: nat, j: nat)
    requires i <= j <= |s| && forall k :: i <= k < j ==> s[k] != '{'
    ensures MatchesFrom(s, i) == MatchesFrom(s, j)
    decreases j - i
  {
    hide MatchAt;
    if i < j {
      NoMatchWithoutBrace(s, i);
      NoBraceNoMatch(s, i + 1, j);
    }
  }

  /** Past the reference every position is mapped too far to the right. */
  function Late(text: string, r: nat, x: nat): nat
    requires r > 0
  {
    if r + x <= |text| then r + x - 1 else |text|
  }

  lemma LateOffsets(text: string, r: nat, x: nat)
    requires 0 < r <= |text| && r <= x && ScanNext(text, 0) == r && forall k :: r <= k < |text| ==> text[k] != '&'
    ensures MapPosition(ScanFrom(text, 0), |text|, x) == Late(text, r, x)
  {
    PlainScan(text, r);
    hide ShortReferenceEnd, ScanNext;
    var at := ScanFrom(text, 0);
    assert at == [0] + ScanFrom(text, r);
    assert r + x <= |text| ==> at[x] == ScanFrom(text, r)[x - 1];
  }

  lemma ReferenceOffsets(text: string, r: nat)
    requires AfterReference(text, r)
    ensures var at := ScanFrom(text, 0);
      && MapPosition(at, |text|, r) == Late(text, r, r) && MapPosition(at, |text|, r + 5) == Late(text, r, r + 5)
  {
    IndexByteIs(text, 0, ';', r - 1);
    LateOffsets(text, r, r);
    LateOffsets(text, r, r + 5);
    hide *;
  }

  lemma OneMatch(s: string, m: Match)
    requires m.keyStart <= m.keyEnd <= |s|
    ensures InBounds(s, [m])
  {
  }

  lemma EditsOfOne(s: string, m: Match, values: Values, at: seq<nat>, length: nat)
    requires m.keyStart <= m.keyEnd <= |s| && Key(s, m) in values
    ensures EditsOf(s, [m], values, at, length) ==
      [Edit(MapPosition(at, length, m.start), MapPosition(at, length, m.end), Escape(values[Key(s, m)]))]
    ensures DirectEditsFrom(s, [m], values) == [Edit(m.start, m.end, Escape(values[Key(s, m)]))]
  {
    assert [m][1..] == [];
    hide Escape, Key, MapPosition;
  }

  lemma EditsOfMatches(text: string, values: Values, ms: seq<Match>)
    requires Unescape(text) == text && ms == Matches(text) && InBounds(text, ms)
    ensures MappedEdits(text, values) == EditsOf(text, ms, values, ScanFrom(text, 0), |text|)
    ensures DirectEdits(text, values) == DirectEditsFrom(text, ms, values)
  {
    hide EditsOf, DirectEditsFrom, Matches, ScanFrom, Unescape, InBounds;
  }

  lemma OneMatchEdits(text: string, m: Match, a: nat, b: nat, values: Values)
    requires Unescape(text) == text && Matches(text) == [m]
    requires m.keyStart <= m.keyEnd <= |text| && Key(text, m) in values
    requires MapPosition(ScanFrom(text, 0), |text|, m.start) == a && MapPosition(ScanFrom(text, 0), |text|, m.end) == b
    ensures MappedEdits(text, values) == [Edit(a, b, Escape(values[Key(text, m)]))]
    ensures DirectEdits(text, values) == [Edit(m.start, m.end, Escape(values[Key(text, m)]))]
  {
    hide *;
    OneMatch(text, m);
    EditsOfOne(text, m, values, ScanFrom(text, 0), |text|);
    EditsOfMatches(text, values, [m]);
  }

  lemma ReferenceEdits(text: string, r: nat, values: Values)
    requires AfterReference(text, r) && "k" in values
    ensures r > 0
    ensures MappedEdits(text, values) == [Edit(Late(text, r, r), Late(text, r, r + 5), Escape(values["k"]))]
    ensures DirectEdits(text, values) == [Edit(r, r + 5, Escape(values["k"]))]
  {
    ReferenceMatches(text, r);
    ReferenceUnescaped(text, r);
    ReferenceOffsets(text, r);
    OneMatchEdits(text, Match(r, r + 2, r + 3, r + 5), Late(text, r, r), Late(text, r, r + 5), values);
  }

  lemma OneEditRendered(text: string, a: nat, b: nat, value: string)
    requires a < b <= |text|
    ensures Render(text, [Edit(a, b, value)], 0, |text|) == text[..a] + value + text[b..]
  {
    var edits := [Edit(a, b, value)];
    assert edits[1..] == [];
    assert text[0..a] == text[..a] && text[b..|text|] == text[b..];
    hide Render, OutAt;
    RenderUntouched(text, edits, 0, a);
    RenderWithin(text, edits, b);
    RenderPast(text, edits, b, |text|);
    RenderUntouched(text, [], b, |text|);
    RenderSplit(text, edits, 0, a, |text|);
    RenderSplit(text, edits, a, b, |text|);
    JoinAssociates(text[..a], value, text[b..]);
  }

  lemma ReferenceBounds(text: string, r: nat)
    requires AfterReference(text, r) && 2 * r <= |text|
    ensures 0 < r && r + 5 <= |text| && r != Late(text, r, r) < Late(text, r, r + 5) <= |text|
  {
  }

  /** What such a text becomes, and what it should become, in every split into runs. */
  lemma ReferenceFilled(p: string, text: string, r: nat, values: Values)
    requires Text(p) == text && AfterReference(text, r) && 2 * r <= |text| && "k" in values
    ensures 0 < r && Late(text, r, r) < Late(text, r, r + 5) <= |text| && r + 5 <= |text|
    ensures Concat(NewInnerOf(p, values)) ==
      text[..Late(text, r, r)] + Escape(values["k"]) + text[Late(text, r, r + 5)..]
    ensures Substitute(text, values) == text[..r] + Escape(values["k"]) + text[r + 5..]
    ensures !CleanBetween(text, 0, LastEnd(DirectEdits(text, values)))
  {
    hide *;
    ReferenceBounds(text, r);
    ReferenceEdits(text, r, values);
    FilledByOneEdit(p, text, values, Late(text, r, r), Late(text, r, r + 5), r, r + 5, Escape(values["k"]));
  }

  lemma FilledByOneEdit(p: string, text: string, values: Values, a: nat, b: nat, c: nat, d: nat, value: string)
    requires Text(p) == text && a < b <= |text| && c < d <= |text| && a != c
    requires MappedEdits(text, values) == [Edit(a, b, value)] && DirectEdits(text, values) == [Edit(c, d, value)]
    ensures Concat(NewInnerOf(p, values)) == text[..a] + value + text[b..]
    ensures Substitute(text, values) == text[..c] + value + text[d..]
    ensures !CleanBetween(text, 0, LastEnd(DirectEdits(text, values)))
  {
    hide *;
    OneEditRendered(text, a, b, value);
    OneEditRendered(text, c, d, value);
    SubstituteIsRendered(text, values);
    FilledIsRendered(p, values);
    MappedEditsExactIff(text, values);
    EditsDiffer(a, b, c, d, value);
  }

  lemma DirectEditsAreOf(text: string, values: Values, ms: seq<Match>)
    requires ms == Matches(text) && InBounds(text, ms)
    ensures DirectEdits(text, values) == DirectEditsFrom(text, ms, values)
  {
    hide DirectEditsFrom, Matches, InBounds;
  }

  lemma SubstituteIsRendered(text: string, values: Values)
    ensures Substitute(text, values) == Render(text, DirectEdits(text, values), 0, |text|)
  {
    hide DirectEdits, DirectEditsFrom, Render, SubstituteFrom, MatchesFrom, Ordered;
    var ms := Matches(text);
    MatchesAreOrdered(text, 0);
    OrderedTail(text, ms, 0);
    DirectEditsAreOf(text, values, ms);
    RenderIsSubstitution(text, values, 0);
  }

  lemma EditsDiffer(a: nat, b: nat, c: nat, d: nat, value: string)
    requires a != c
    ensures [Edit(a, b, value)] != [Edit(c, d, value)]
  {
    assert [Edit(a, b, value)][0] != [Edit(c, d, value)][0];
  }

  const NUMERIC := "&#65;{{k}}"

  /**
   * A numeric reference before a placeholder misplaces its value, in every split of
   * the text into runs and for every value: escapedOffsets takes the reference for
   * one symbol, unescapeXML copies it byte by byte, and four bytes of the
   * placeholder stay in front of the value.
   */
  lemma NumericReferenceMisplacesValue(p: string, values: Values)
    requires Text(p) == NUMERIC && "k" in values
    ensures Concat(NewInnerOf(p, values)) == "&#65;{{k}" + Escape(values["k"])
    ensures Substitute(Text(p), values) == "&#65;" + Escape(values["k"])
    ensures Concat(NewInnerOf(p, values)) != Substitute(Text(p), values)
  {
    var text, value := Text(p), Escape(values["k"]);
    assert text[5..10] == "{{k}}" && MatchesFrom(text, 10) == [];
    assert AfterReference(text, 5) && Late(text, 5, 5) == 9 && Late(text, 5, 10) == 10;
    assert text[..9] == "&#65;{{k}" && text[..5] == "&#65;" && text[10..] == "";
    hide *;
    ReferenceFilled(p, text, 5, values);
  }

  const TOLERANT := "&x;{{k}}{{"

  /**
   * Without the condition on the values the text does not decide: here the edit is
   * misplaced, but a value of braces only, or none, hides it.
   */
  lemma BracesHideIt(p: string, values: Values)
    requires Text(p) == TOLERANT && "k" in values && forall c :: c in values["k"] ==> c == '{'
    ensures !CleanBetween(Text(p), 0, LastEnd(DirectEdits(Text(p), values)))
    ensures Concat(NewInnerOf(p, values)) == Substitute(Text(p), values)
  {
    var text, value := Text(p), values["k"];
    BraceTailHasNoMatch(text);
    assert text[3..8] == "{{k}}";
    assert AfterReference(text, 3) && Late(text, 3, 3) == 5 && Late(text, 3, 8) == 10;
    assert text[..5] == text[..3] + "{{" && text[10..] == "" && text[8..] == "{{";
    BracesEscape(value);
    hide *;
    ReferenceFilled(p, text, 3, values);
    BracesCommute(text[..3], value);
  }

  lemma BraceTailHasNoMatch(text: string)
    requires text == TOLERANT
    ensures MatchesFrom(text, 8) == []
  {
    assert SkipKey(text, SkipSpaces(text, 10)) == 10;
    assert MatchAt(text, 8).None? && MatchAt(text, 9).None?;
  }

  lemma {:induction false} BracesEscape(v: string)
    requires forall c :: c in v ==> c == '{'
    ensures Escape(v) == v
  {
    if v != "" {
      assert v[0] in v && forall c :: c in v[1..] ==> c in v;
      BracesEscape(v[1..]);
      BraceEscapes();
      hide EscapeChar;
    }
  }

  lemma BraceEscapes()
    ensures EscapeChar('{') == "{"
  {
  }

  lemma BracesCommute(before: string, v: string)
    requires forall c :: c in v ==> c == '{'
    ensures before + "{{" + v + "" == before + v + "{{"
  {
    forall k | 0 <= k < |v| ensures v[k] == '{' { assert v[k] in v; }
    var a, b := "{{" + v, v + "{{";
    assert |a| == |b| && forall k :: 0 <= k < |a| ==> a[k] == '{' == b[k];
    assert a == b;
    assert before + "{{" + v + "" == before + a && before + v + "{{" == before + b;
  }
}
