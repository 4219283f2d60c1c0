// fillParagraph and fillPart of internal/docxt/docxt.go: find the placeholders of
// a paragraph, cut their replacements over the runs they straddle, and put the
// paragraph together again.
module Fill {
  import opened Prelude
  import opened XmlText
  import opened Placeholder
  import opened Paragraph
  import opened Rendering

  type Values = map<string, string>

  // ------------------------------------------------------------ the reference

  /** One substitution over the whole text: every known placeholder replaced once, left to right. */
  function SubstituteFrom(text: string, values: Values, i: nat): string
    requires i <= |text|
    decreases |text| - i
  {
    if i == |text| then "" else
    var m := MatchAt(text, i);
    if m.None? then [text[i]] + SubstituteFrom(text, values, i + 1)
    else
      var key := Key(text, m.value);
      (if key in values then Escape(values[key]) else text[i..m.value.end])
        + SubstituteFrom(text, values, m.value.end)
  }

  function Substitute(text: string, values: Values): string {
    SubstituteFrom(text, values, 0)
  }

  ghost predicate InBounds(s: string, ms: seq<Match>) {
    forall k :: 0 <= k < |ms| ==> ms[k].keyStart <= ms[k].keyEnd <= |s|
  }

  /** The edits of the known placeholders, at the given offsets of a match. */
  function EditsOf(s: string, ms: seq<Match>, values: Values, at: seq<nat>, length: nat): seq<Edit>
    requires InBounds(s, ms)
  {
    if ms == [] then [] else
    var key := Key(s, ms[0]);
    var rest := EditsOf(s, ms[1..], values, at, length);
    if key in values then
      [Edit(MapPosition(at, length, ms[0].start), MapPosition(at, length, ms[0].end), Escape(values[key]))] + rest
    else rest
  }

  /** The edits fillParagraph makes: found in the unescaped text, mapped to the escaped one. */
  function MappedEdits(text: string, values: Values): seq<Edit> {
    MatchesAreOrdered(Unescape(text), 0);
    EditsOf(Unescape(text), Matches(Unescape(text)), values, ScanFrom(text, 0), |text|)
  }

  /** The edits as the reader of the escaped text would make them. */
  function DirectEditsFrom(text: string, ms: seq<Match>, values: Values): seq<Edit>
    requires InBounds(text, ms)
  {
    if ms == [] then [] else
    var key := Key(text, ms[0]);
    var rest := DirectEditsFrom(text, ms[1..], values);
    if key in values then [Edit(ms[0].start, ms[0].end, Escape(values[key]))] + rest else rest
  }

  lemma OrderedTail(s: string, ms: seq<Match>, from: nat)
    requires Ordered(s, ms, from)
    ensures InBounds(s, ms)
    ensures ms != [] ==> from <= ms[0].start && ms[0].start + 2 <= ms[0].end <= |s| && Ordered(s, ms[1..], ms[0].end)
  {
  }

  lemma InOrderCons(e: Edit, edits: seq<Edit>, from: nat, length: nat)
    requires from <= e.start <= e.end <= length && InOrder(edits, e.end, length)
    requires e.start < e.end || e.start == length
    ensures InOrder([e] + edits, from, length)
  {
  }

  lemma InOrderEarlier(edits: seq<Edit>, from: nat, later: nat, length: nat)
    requires from <= later && InOrder(edits, later, length)
    ensures InOrder(edits, from, length)
  {
  }

  lemma {:induction false} DirectEditsInOrder(text: string, ms: seq<Match>, values: Values, from: nat)
    requires Ordered(text, ms, from)
    ensures InBounds(text, ms) && InOrder(DirectEditsFrom(text, ms, values), from, |text|)
  {
    OrderedTail(text, ms, from);
    if ms != [] {
      hide InOrder, Ordered;
      var rest := DirectEditsFrom(text, ms[1..], values);
      DirectEditsInOrder(text, ms[1..], values, ms[0].end);
      if Key(text, ms[0]) in values {
        InOrderCons(Edit(ms[0].start, ms[0].end, Escape(values[Key(text, ms[0])])), rest, from, |text|);
      } else {
        InOrderEarlier(rest, from, ms[0].end, |text|);
      }
    }
  }

  /** Rendering through one edit: its value, then the rest. */
  lemma RenderEdit(text: string, edits: seq<Edit>)
    requires edits != [] && edits[0].start < edits[0].end <= |text|
    ensures Render(text, edits, edits[0].start, |text|)
         == edits[0].value + Render(text, edits[1..], edits[0].end, |text|)
  {
    hide Render, OutAt;
    RenderWithin(text, edits, edits[0].end);
    RenderSplit(text, edits, edits[0].start, edits[0].end, |text|);
    RenderPast(text, edits, edits[0].end, |text|);
  }

  /** Rendering the direct edits is the substitution. */
  lemma {:induction false} RenderIsSubstitution(text: string, values: Values, i: nat)
    requires i <= |text|
    ensures InBounds(text, MatchesFrom(text, i))
    ensures Render(text, DirectEditsFrom(text, MatchesFrom(text, i), values), i, |text|)
         == SubstituteFrom(text, values, i)
    decreases |text| - i
  {
    var ms := MatchesFrom(text, i);
    MatchesAreOrdered(text, i);
    OrderedTail(text, ms, i);
    if i == |text| { return; }
    var edits := DirectEditsFrom(text, ms, values);
    var found := MatchAt(text, i);
    var next := if found.None? then i + 1 else found.value.end;
    MatchesAreOrdered(text, next);
    DirectEditsInOrder(text, MatchesFrom(text, next), values, next);
    RenderIsSubstitution(text, values, next);
    if found.None? {
      assert OutAt(text, edits, i) == [text[i]];
    } else {
      var rest := DirectEditsFrom(text, MatchesFrom(text, next), values);
      var key := Key(text, found.value);
      assert ms[0] == found.value && ms[1..] == MatchesFrom(text, next);
      if key in values {
        assert edits[0] == Edit(i, next, Escape(values[key])) && edits[1..] == rest;
        RenderEdit(text, edits);
      } else {
        RenderSplit(text, rest, i, next, |text|);
        RenderUntouched(text, rest, i, next);
      }
    }
  }

  function DirectEdits(text: string, values: Values): seq<Edit> {
    MatchesAreOrdered(text, 0);
    DirectEditsFrom(text, Matches(text), values)
  }

  function LastEnd(edits: seq<Edit>): nat {
    if edits == [] then 0 else edits[|edits| - 1].end
  }

  lemma CorrespondingOffsets(text: string, m: Match, t: Match)
    requires Corresponds(text, Unescape(text), OffsetsFrom(text, 0), m, t)
    ensures m.start < |OffsetsFrom(text, 0)| && OffsetsFrom(text, 0)[m.start] == t.start < |text|
    ensures m.end < |OffsetsFrom(text, 0)| && OffsetsFrom(text, 0)[m.end] == t.end
    ensures CleanBetween(text, 0, t.start) <==> CleanBetween(text, 0, t.end)
  {
    PlaceholderBounds(Unescape(text), m);
    NoReferenceInside(text, t);
  }

  /** One mapped edit is exact when the text before its end has only predefined references; else it starts late. */
  lemma EntriesAreExact(text: string, a: nat, b: nat, start: nat, end: nat)
    requires a < |OffsetsFrom(text, 0)| && OffsetsFrom(text, 0)[a] == start < |text|
    requires b < |OffsetsFrom(text, 0)| && OffsetsFrom(text, 0)[b] == end
    requires CleanBetween(text, 0, start) <==> CleanBetween(text, 0, end)
    ensures
      MapPosition(ScanFrom(text, 0), |text|, a) == start && MapPosition(ScanFrom(text, 0), |text|, b) == end
      <==> CleanBetween(text, 0, end)
    ensures !CleanBetween(text, 0, end) ==> start < MapPosition(ScanFrom(text, 0), |text|, a)
  {
    EntryIsExactIffClean(text, 0, a);
    EntryIsExactIffClean(text, 0, b);
  }

  lemma NoReferenceInside(text: string, t: Match)
    requires IsPlaceholder(text, t)
    ensures t.start < t.end <= |text| && (CleanBetween(text, 0, t.start) <==> CleanBetween(text, 0, t.end))
  {
    PlaceholderIsSyntax(text, t);
    assert forall k: nat :: t.start <= k < t.end ==> ShortReferenceEnd(text, k).None?;
  }

  lemma {:induction false} MappedEditsAreExact(text: string, ms: seq<Match>, ts: seq<Match>, values: Values, from: nat)
    requires |ms| == |ts| && Ordered(text, ts, from)
    requires forall k :: 0 <= k < |ms| ==>
      Corresponds(text, Unescape(text), OffsetsFrom(text, 0), ms[k], ts[k])
    ensures InBounds(Unescape(text), ms) && InBounds(text, ts)
    ensures EditsOf(Unescape(text), ms, values, ScanFrom(text, 0), |text|) == DirectEditsFrom(text, ts, values)
       <==> CleanBetween(text, 0, LastEnd(DirectEditsFrom(text, ts, values)))
  {
    if ms == [] { return; }
    assert Corresponds(text, Unescape(text), OffsetsFrom(text, 0), ms[0], ts[0]);
    CorrespondingKeys(text, ms[0], ts[0]);
    CorrespondingOffsets(text, ms[0], ts[0]);
    OrderedTail(text, ts, from);
    hide Corresponds, Ordered, CleanBetween, OffsetsFrom, ScanFrom, UnescapeFrom, MapPosition, Key, InOrder;
    MappedEditsAreExact(text, ms[1..], ts[1..], values, ts[0].end);
    EntriesAreExact(text, ms[0].start, ms[0].end, ts[0].start, ts[0].end);
    DirectEditsInOrder(text, ts[1..], values, ts[0].end);
    var mapped := EditsOf(Unescape(text), ms[1..], values, ScanFrom(text, 0), |text|);
    var direct := DirectEditsFrom(text, ts[1..], values);
    LastEndIsLast(text, direct, ts[0].end);
    if Key(text, ts[0]) in values {
      var value := Escape(values[Key(text, ts[0])]);
      var at := ScanFrom(text, 0);
      var e := Edit(MapPosition(at, |text|, ms[0].start), MapPosition(at, |text|, ms[0].end), value);
      ConsEquality(e, mapped, Edit(ts[0].start, ts[0].end, value), direct);
    }
  }

  lemma CorrespondingKeys(text: string, m: Match, t: Match)
    requires Corresponds(text, Unescape(text), OffsetsFrom(text, 0), m, t)
    ensures m.keyStart <= m.keyEnd <= |Unescape(text)| && t.keyStart <= t.keyEnd <= |text|
    ensures Key(text, t) == Key(Unescape(text), m)
  {
  }

  lemma ConsEquality(a: Edit, s: seq<Edit>, b: Edit, t: seq<Edit>)
    ensures [a] + s == [b] + t <==> a == b && s == t
  {
    assert ([a] + s)[0] == a && ([a] + s)[1..] == s;
    assert ([b] + t)[0] == b && ([b] + t)[1..] == t;
  }

  /** A text clean up to the last edit is clean up to any earlier place. */
  lemma LastEndIsLast(text: string, edits: seq<Edit>, from: nat)
    requires InOrder(edits, from, |text|)
    ensures edits != [] ==> from <= LastEnd(edits)
    ensures CleanBetween(text, 0, LastEnd(edits)) && edits != [] ==> CleanBetween(text, 0, from)
    ensures forall e: Edit :: LastEnd([e] + edits) == if edits == [] then e.end else LastEnd(edits)
  {
    assert edits != [] ==> from <= edits[|edits| - 1].start;
  }

  /**
   * The edits fillParagraph makes are those of one substitution over the whole text
   * exactly when every short reference before the end of the last known placeholder
   * is one of the five predefined entities.
   */
  lemma MappedEditsExactIff(text: string, values: Values)
    ensures MappedEdits(text, values) == DirectEdits(text, values)
       <==> CleanBetween(text, 0, LastEnd(DirectEdits(text, values)))
  {
    MatchesAreOrdered(text, 0);
    MatchesAreOrdered(Unescape(text), 0);
    MatchesCorrespond(text);
    MappedEditsAreExact(text, Matches(Unescape(text)), Matches(text), values, 0);
  }

  /** The mapped position grows with the position until it sticks to the end of the text. */
  ghost predicate IsOffsetTable(at: seq<nat>, length: nat) {
    && |at| > 0 && at[|at| - 1] == length
    && (forall k :: 0 <= k < |at| ==> at[k] <= length)
    && (forall j, k :: 0 <= j < k < |at| ==> at[j] < at[k])
  }

  lemma MapPositionGrows(at: seq<nat>, length: nat, a: nat, b: nat)
    requires IsOffsetTable(at, length) && a < b
    ensures MapPosition(at, length, a) <= MapPosition(at, length, b) <= length
    ensures MapPosition(at, length, a) < MapPosition(at, length, b) || MapPosition(at, length, a) == length
  {
    if a < |at| {
      assert at[a] < at[|at| - 1] || a == |at| - 1;
    }
  }

  lemma {:induction false} EditsInOrder(s: string, ms: seq<Match>, values: Values, at: seq<nat>, length: nat, from: nat)
    requires Ordered(s, ms, from) && IsOffsetTable(at, length)
    ensures InBounds(s, ms) && InOrder(EditsOf(s, ms, values, at, length), MapPosition(at, length, from), length)
  {
    OrderedTail(s, ms, from);
    if ms != [] {
      hide InOrder, Ordered;
      var rest := EditsOf(s, ms[1..], values, at, length);
      EditsInOrder(s, ms[1..], values, at, length, ms[0].end);
      MapPositionGrows(at, length, ms[0].start, ms[0].end);
      if from < ms[0].start { MapPositionGrows(at, length, from, ms[0].start); }
      var a, b := MapPosition(at, length, ms[0].start), MapPosition(at, length, ms[0].end);
      InOrderEarlier(rest, MapPosition(at, length, from), b, length);
      if Key(s, ms[0]) in values {
        InOrderCons(Edit(a, b, Escape(values[Key(s, ms[0])])), rest, MapPosition(at, length, from), length);
      }
    }
  }

  /** The edits are in order and inside the text for every text, clean or not. */
  lemma MappedEditsInOrder(text: string, values: Values)
    ensures InOrder(MappedEdits(text, values), 0, |text|)
  {
    MatchesAreOrdered(Unescape(text), 0);
    ScanIncreases(text, 0);
    EditsInOrder(Unescape(text), Matches(Unescape(text)), values, ScanFrom(text, 0), |text|, 0);
    assert MapPosition(ScanFrom(text, 0), |text|, 0) == 0;
  }

  // ------------------------------------------------------------ the pieces

  /** The new inner text of every run, as the reference renders it. */
  function NewInner(text: string, edits: seq<Edit>, spans: seq<Span>): (r: seq<string>)
    requires forall k :: 0 <= k < |spans| ==> spans[k].txtStart <= spans[k].txtEnd <= |text|
    ensures |r| == |spans|
    ensures forall k :: 0 <= k < |r| ==> r[k] == Render(text, edits, spans[k].txtStart, spans[k].txtEnd)
  {
    if spans == [] then []
    else [Render(text, edits, spans[0].txtStart, spans[0].txtEnd)] + NewInner(text, edits, spans[1..])
  }

  ghost predicate InXmlOrder(p: string, spans: seq<Span>, prev: nat) {
    forall k :: 0 <= k < |spans| ==> XmlBefore(spans, k, prev) <= spans[k].xmlStart <= spans[k].xmlEnd <= |p|
  }

  lemma InXmlOrderTail(p: string, spans: seq<Span>, prev: nat)
    requires InXmlOrder(p, spans, prev) && spans != []
    ensures prev <= spans[0].xmlStart <= spans[0].xmlEnd <= |p| && InXmlOrder(p, spans[1..], spans[0].xmlEnd)
  {
    assert XmlBefore(spans, 0, prev) <= spans[0].xmlStart;
    forall k | 0 <= k < |spans[1..]| ensures
      XmlBefore(spans[1..], k, spans[0].xmlEnd) <= spans[1..][k].xmlStart <= spans[1..][k].xmlEnd <= |p|
    {
      assert XmlBefore(spans, k + 1, prev) <= spans[k + 1].xmlStart;
    }
  }

  lemma TilesInXmlOrder(p: string, text: string, spans: seq<Span>, xml: nat, txt: nat)
    requires Tiles(p, text, spans, xml, txt)
    ensures InXmlOrder(p, spans, xml)
    ensures forall k :: 0 <= k < |spans| ==> spans[k].txtStart <= spans[k].txtEnd <= |text|
    ensures forall k :: 0 <= k < |spans| ==> spans[k].txtStart == TxtBefore(spans, k, txt)
  {
    forall k | 0 <= k < |spans| ensures
      XmlBefore(spans, k, xml) <= spans[k].xmlStart <= spans[k].xmlEnd <= |p| &&
      spans[k].txtStart <= spans[k].txtEnd <= |text|
    {
      assert SpanHolds(p, text, spans[k]);
    }
  }

  /** The paragraph from `prev` on with the inner texts of its runs replaced. */
  function Weave(p: string, spans: seq<Span>, inner: seq<string>, prev: nat): string
    requires |spans| == |inner| && prev <= |p| && InXmlOrder(p, spans, prev)
  {
    if spans == [] then p[prev..] else
    InXmlOrderTail(p, spans, prev);
    p[prev..spans[0].xmlStart] + inner[0] + Weave(p, spans[1..], inner[1..], spans[0].xmlEnd)
  }

  /** The new inner texts of the paragraph's runs. */
  function NewInnerOf(p: string, values: Values): (r: seq<string>)
    ensures |r| == |Spans(p)|
  {
    SpansTile(p, 0, Text(p), 0);
    TilesInXmlOrder(p, Text(p), Spans(p), 0, 0);
    NewInner(Text(p), MappedEdits(Text(p), values), Spans(p))
  }

  /** What fillParagraph makes of a paragraph. */
  function Filled(p: string, values: Values): string {
    SpansTile(p, 0, Text(p), 0);
    TilesInXmlOrder(p, Text(p), Spans(p), 0, 0);
    Weave(p, Spans(p), NewInnerOf(p, values), 0)
  }

  /** With its own inner texts a paragraph is woven back byte for byte. */
  lemma {:induction false} WeaveOriginal(p: string, spans: seq<Span>, inner: seq<string>, prev: nat)
    requires |spans| == |inner| && prev <= |p| && InXmlOrder(p, spans, prev)
    requires forall k :: 0 <= k < |spans| ==>
      spans[k].xmlStart <= spans[k].xmlEnd <= |p| && inner[k] == p[spans[k].xmlStart..spans[k].xmlEnd]
    ensures Weave(p, spans, inner, prev) == p[prev..]
  {
    if spans != [] {
      InXmlOrderTail(p, spans, prev);
      WeaveOriginal(p, spans[1..], inner[1..], spans[0].xmlEnd);
      Rejoin(p, prev, spans[0].xmlStart, spans[0].xmlEnd);
    }
  }

  lemma Rejoin(p: string, a: nat, b: nat, c: nat)
    requires a <= b <= c <= |p|
    ensures p[a..b] + p[b..c] + p[c..] == p[a..]
  {
  }

  lemma NothingToFill(p: string, values: Values)
    requires MappedEdits(Text(p), values) == []
    ensures Filled(p, values) == p
  {
    var text, spans := Text(p), Spans(p);
    SpansTile(p, 0, text, 0);
    TilesInXmlOrder(p, text, spans, 0, 0);
    var inner := NewInner(text, [], spans);
    forall k | 0 <= k < |spans| ensures
      spans[k].xmlStart <= spans[k].xmlEnd <= |p| && inner[k] == p[spans[k].xmlStart..spans[k].xmlEnd]
    {
      assert SpanHolds(p, text, spans[k]);
      RenderUntouched(text, [], spans[k].txtStart, spans[k].txtEnd);
    }
    WeaveOriginal(p, spans, inner, 0);
  }

  // ------------------------------------------------------------ the loops

  /** The loop over the matches. */
  method FindEdits(text: string, plain: string, matches: seq<Match>, values: Values) returns (edits: seq<Edit>)
    requires plain == Unescape(text) && matches == Matches(plain)
    ensures edits == MappedEdits(text, values)
  {
    MatchesAreOrdered(plain, 0);
    var idx := EscapedOffsets(text);
    edits := [];
    for n := 0 to |matches|
      invariant InBounds(plain, matches)
      invariant edits + EditsOf(plain, matches[n..], values, idx, |text|) == MappedEdits(text, values)
    {
      var m := matches[n];
      assert matches[n..][0] == m && matches[n..][1..] == matches[n + 1..];
      var key := plain[m.keyStart..m.keyEnd];
      if key !in values {
        continue; // unknown placeholders stay visible
      }
      var value := EscapeXML(values[key]);
      edits := edits + [Edit(MapPosition(idx, |text|, m.start), MapPosition(idx, |text|, m.end), value)];
    }
  }

  /** The sub-edits of a run after one more edit. */
  function WithEdit(subs: seq<SubEdit>, e: Edit, s: Span): seq<SubEdit>
    requires s.txtStart <= s.txtEnd && e.start <= e.end
  {
    if Touches(e, s) then subs + [SubEditOf(e, s)] else subs
  }

  /** The part of an edit that falls into a run it touches; the value goes to the first such run. */
  method CutEdit(e: Edit, s: Span, placed: bool) returns (sub: SubEdit)
    requires s.txtStart <= s.txtEnd && e.start <= e.end && Touches(e, s)
    requires placed <==> s.txtStart > e.start
    ensures sub == SubEditOf(e, s)
  {
    var lo := (if e.start > s.txtStart then e.start else s.txtStart) - s.txtStart;
    var hi := (if e.end < s.txtEnd then e.end else s.txtEnd) - s.txtStart;
    assert lo <= hi; // so the guard against an inverted range never fires
    sub := SubEdit(lo, hi, if placed then "" else e.value);
  }

  /** One edit is cut over the runs it straddles. */
  method SplitEdit(e: Edit, spans: seq<Span>, perSpan: seq<seq<SubEdit>>) returns (r: seq<seq<SubEdit>>)
    requires |perSpan| == |spans| && e.start <= e.end
    requires e.start < e.end || forall k :: 0 <= k < |spans| ==> spans[k].txtEnd <= e.start
    requires forall k :: 0 <= k < |spans| ==> spans[k].txtStart <= spans[k].txtEnd
    requires forall k :: 0 <= k < |spans| ==> spans[k].txtStart == TxtBefore(spans, k, 0)
    ensures |r| == |spans|
    ensures forall k :: 0 <= k < |spans| ==> r[k] == WithEdit(perSpan[k], e, spans[k])
  {
    r := [];
    var placed := false;
    for i := 0 to |spans|
      invariant |r| == i
      invariant placed <==> TxtBefore(spans, i, 0) > e.start
      invariant forall k :: 0 <= k < i ==> r[k] == WithEdit(perSpan[k], e, spans[k])
    {
      hide SubEditOf;
      var s := spans[i];
      var subs := perSpan[i];
      assert s.txtStart == TxtBefore(spans, i, 0);
      if !(s.txtEnd <= e.start || s.txtStart >= e.end) {
        var sub := CutEdit(e, s, placed);
        subs := subs + [sub];
        placed := true;
      }
      assert subs == WithEdit(perSpan[i], e, s);
      r := r + [subs];
    }
  }

  ghost predicate SortedDescending(subs: seq<SubEdit>) {
    forall j, k :: 0 <= j < k < |subs| ==> subs[j].lo >= subs[k].lo
  }

  lemma SameElements(sorted: seq<SubEdit>, at: nat, sub: SubEdit)
    requires at <= |sorted|
    ensures multiset(sorted[..at] + [sub] + sorted[at..]) == multiset(sorted) + multiset{sub}
  {
    var a, b := sorted[..at], sorted[at..];
    assert multiset(a + [sub] + b) == multiset(a) + multiset{sub} + multiset(b);
    assert sorted == a + b && multiset(a + b) == multiset(a) + multiset(b);
  }

  method InsertDescending(sub: SubEdit, sorted: seq<SubEdit>) returns (r: seq<SubEdit>)
    requires SortedDescending(sorted)
    ensures SortedDescending(r) && multiset(r) == multiset(sorted) + multiset{sub}
  {
    var at := 0;
    while at < |sorted| && sorted[at].lo >= sub.lo
      invariant 0 <= at <= |sorted|
      invariant forall k :: 0 <= k < at ==> sorted[k].lo >= sub.lo
    {
      at := at + 1;
    }
    r := sorted[..at] + [sub] + sorted[at..];
    SameElements(sorted, at, sub);
  }

  /** sort.Slice with the comparison on `lo`; the sort promises no order between equal keys. */
  method SortDescending(subs: seq<SubEdit>) returns (r: seq<SubEdit>)
    ensures multiset(r) == multiset(subs) && SortedDescending(r)
  {
    r := [];
    for n := 0 to |subs|
      invariant multiset(r) == multiset(subs[..n]) && SortedDescending(r)
    {
      r := InsertDescending(subs[n], r);
      assert subs[..n + 1] == subs[..n] + [subs[n]];
    }
    assert subs[..|subs|] == subs;
  }

  /** The sub-edit with the largest start comes first in any descending order. */
  lemma LargestFirst(subs: seq<SubEdit>, r: seq<SubEdit>, from: nat, width: nat)
    requires Ascending(subs, from, width) && SortedDescending(r) && multiset(r) == multiset(subs) && subs != []
    ensures r != [] && r[0] == subs[|subs| - 1]
  {
    assert |r| == |multiset(r)| == |subs|;
    var last := subs[|subs| - 1];
    assert last in multiset(subs) && r[0] in multiset(r);
    var k :| 0 <= k < |r| && r[k] == last;
    var j :| 0 <= j < |subs| && subs[j] == r[0];
  }

  lemma FirstApart(s: seq<SubEdit>)
    requires s != []
    ensures multiset(s) == multiset{s[0]} + multiset(s[1..])
  {
    assert s == [s[0]] + s[1..];
  }

  lemma LastApart(s: seq<SubEdit>)
    requires s != []
    ensures multiset(s) == multiset(s[..|s| - 1]) + multiset{s[|s| - 1]}
  {
    assert s == s[..|s| - 1] + [s[|s| - 1]];
  }

  lemma RemoveEnds(subs: seq<SubEdit>, r: seq<SubEdit>)
    requires subs != [] && r != [] && r[0] == subs[|subs| - 1] && multiset(r) == multiset(subs)
    ensures multiset(r[1..]) == multiset(subs[..|subs| - 1])
  {
    FirstApart(r);
    LastApart(subs);
    var x := multiset{r[0]};
    assert multiset(r[1..]) == multiset(r) - x && multiset(subs[..|subs| - 1]) == multiset(subs) - x;
  }

  /** Sub-edits of one run have distinct starts, so the sort can only reverse them. */
  lemma {:induction false} SortReverses(subs: seq<SubEdit>, r: seq<SubEdit>, from: nat, width: nat)
    requires Ascending(subs, from, width) && SortedDescending(r) && multiset(r) == multiset(subs)
    ensures |r| == |subs| && forall k :: 0 <= k < |r| ==> r[k] == subs[|subs| - 1 - k]
  {
    if subs == [] {
      assert |r| == |multiset(r)| == 0;
    } else {
      LargestFirst(subs, r, from, width);
      RemoveEnds(subs, r);
      SortReverses(subs[..|subs| - 1], r[1..], from, width);
      forall k | 0 < k < |r| ensures r[k] == subs[|subs| - 1 - k] {
        assert r[k] == r[1..][k - 1] == subs[..|subs| - 1][|subs| - 1 - k];
      }
    }
  }

  /** Where the sub-edits before number `k` end in the run. */
  function Done(subs: seq<SubEdit>, k: nat): nat
    requires k <= |subs|
  {
    if k == 0 then 0 else subs[k - 1].hi
  }

  lemma AscendingFrom(subs: seq<SubEdit>, k: nat, width: nat)
    requires Ascending(subs, 0, width) && k <= |subs|
    ensures Done(subs, k) <= width && Ascending(subs[k..], Done(subs, k), width)
  {
  }

  /** The run once the sub-edits from number `k` on are applied. */
  ghost function Applied(run: string, subs: seq<SubEdit>, k: nat): string
    requires Ascending(subs, 0, |run|) && k <= |subs|
  {
    AscendingFrom(subs, k, |run|);
    run[..Done(subs, k)] + Spliced(run, subs[k..], Done(subs, k))
  }

  lemma AppliedEnds(run: string, subs: seq<SubEdit>)
    requires Ascending(subs, 0, |run|)
    ensures Applied(run, subs, |subs|) == run && Applied(run, subs, 0) == Spliced(run, subs, 0)
  {
    assert subs[|subs|..] == [] && subs[0..] == subs;
  }

  /** Applying number `k` after all later ones. */
  lemma AppliedStep(run: string, subs: seq<SubEdit>, k: nat)
    requires Ascending(subs, 0, |run|) && k < |subs|
    ensures var sub, cur := subs[k], Applied(run, subs, k + 1);
      sub.lo <= sub.hi <= |cur| && Applied(run, subs, k) == cur[..sub.lo] + sub.value + cur[sub.hi..]
  {
    AscendingFrom(subs, k, |run|);
    AscendingFrom(subs, k + 1, |run|);
    var sub, x := subs[k], Done(subs, k);
    assert x <= sub.lo <= sub.hi <= |run| && Done(subs, k + 1) == sub.hi;
    assert subs[k..] == [sub] + subs[k + 1..];
    SplicedCons(run, sub, subs[k + 1..], x);
    hide Ascending, Spliced;
    CutAndPaste(run, x, sub.lo, sub.hi, sub.value, Spliced(run, subs[k + 1..], sub.hi));
  }

  lemma CutAndPaste(run: string, x: nat, lo: nat, hi: nat, value: string, tail: string)
    requires x <= lo <= hi <= |run|
    ensures var cur := run[..hi] + tail;
      run[..x] + (run[x..lo] + value + tail) == cur[..lo] + value + cur[hi..]
  {
    var cur := run[..hi] + tail;
    assert cur[..lo] == run[..x] + run[x..lo] && cur[hi..] == tail;
  }

  /** The sub-edits of one run, applied from right to left. */
  method ApplySubEdits(run: string, subs: seq<SubEdit>) returns (cur: string)
    requires Ascending(subs, 0, |run|)
    ensures cur == Spliced(run, subs, 0)
  {
    hide Applied, Spliced, Ascending;
    var sorted := SortDescending(subs);
    SortReverses(subs, sorted, 0, |run|);
    AppliedEnds(run, subs);
    cur := run;
    for i := 0 to |sorted|
      invariant cur == Applied(run, subs, |subs| - i)
    {
      var sub := sorted[i];
      AppliedStep(run, subs, |subs| - 1 - i);
      assert sub.hi <= |cur|; // so the guard for an offset out of range never fires
      if sub.lo > |cur| || sub.hi > |cur| {
        continue;
      }
      cur := cur[..sub.lo] + sub.value + cur[sub.hi..];
    }
  }

  /** What the reassembly has still to write: the bytes since the last written node, then the rest. */
  ghost function Rest(p: string, spans: seq<Span>, inner: seq<string>, prev: nat, at: nat): string
    requires |spans| == |inner| && prev <= at <= |p| && InXmlOrder(p, spans, at)
  {
    p[prev..at] + Weave(p, spans, inner, at)
  }

  lemma RestStep(p: string, spans: seq<Span>, inner: seq<string>, prev: nat, at: nat)
    requires |spans| == |inner| && spans != [] && prev <= at <= |p| && InXmlOrder(p, spans, at)
    ensures at <= spans[0].xmlStart <= spans[0].xmlEnd <= |p| && InXmlOrder(p, spans[1..], spans[0].xmlEnd)
    ensures Rest(p, spans, inner, prev, at)
         == p[prev..spans[0].xmlStart] + inner[0] + Rest(p, spans[1..], inner[1..], spans[0].xmlEnd, spans[0].xmlEnd)
    ensures spans[0].xmlStart == spans[0].xmlEnd && inner[0] == "" ==>
      Rest(p, spans, inner, prev, at) == Rest(p, spans[1..], inner[1..], prev, spans[0].xmlEnd)
  {
    InXmlOrderTail(p, spans, at);
    hide InXmlOrder;
    var x, e := spans[0].xmlStart, spans[0].xmlEnd;
    var w := Weave(p, spans[1..], inner[1..], e);
    assert Weave(p, spans, inner, at) == p[at..x] + inner[0] + w;
    hide Weave;
    SliceJoin(p, prev, at, x);
    JoinAssociates(p[prev..at], p[at..x], inner[0]);
    JoinAssociates(p[prev..at], p[at..x] + inner[0], w);
    assert p[e..e] + w == w;
    if x == e && inner[0] == "" {
      SliceJoin(p, prev, x, e);
      assert p[prev..x] + "" == p[prev..x];
    }
  }

  /** The reassembly loop; a self-closing node is passed over, whatever its new inner text. */
  method Reassemble(p: string, spans: seq<Span>, inner: seq<string>) returns (out: string)
    requires |inner| == |spans| && InXmlOrder(p, spans, 0)
    requires forall k :: 0 <= k < |spans| && spans[k].selfClosing ==>
      inner[k] == "" && spans[k].xmlStart == spans[k].xmlEnd
    ensures out == Weave(p, spans, inner, 0)
  {
    out := "";
    var prev: nat := 0;
    ghost var at: nat := 0;
    RestStart(p, spans, inner);
    for i := 0 to |spans|
      invariant prev <= at <= |p| && InXmlOrder(p, spans[i..], at)
      invariant out + Rest(p, spans[i..], inner[i..], prev, at) == Weave(p, spans, inner, 0)
    {
      hide Weave, InXmlOrder, Rest;
      var s := spans[i];
      RestStep(p, spans[i..], inner[i..], prev, at);
      assert spans[i..][1..] == spans[i + 1..] && inner[i..][1..] == inner[i + 1..];
      at := s.xmlEnd;
      if s.selfClosing {
        continue;
      }
      JoinAssociates(out, p[prev..s.xmlStart] + inner[i], Rest(p, spans[i + 1..], inner[i + 1..], at, at));
      JoinAssociates(out, p[prev..s.xmlStart], inner[i]);
      out := out + p[prev..s.xmlStart];
      out := out + inner[i];
      prev := s.xmlEnd;
    }
    RestEnd(p, prev, at);
    out := out + p[prev..];
  }

  lemma RestStart(p: string, spans: seq<Span>, inner: seq<string>)
    requires |inner| == |spans| && InXmlOrder(p, spans, 0)
    ensures spans[0..] == spans && inner[0..] == inner
    ensures Rest(p, spans, inner, 0, 0) == Weave(p, spans, inner, 0)
  {
  }

  lemma RestEnd(p: string, prev: nat, at: nat)
    requires prev <= at <= |p|
    ensures InXmlOrder(p, [], at) && Rest(p, [], [], prev, at) == p[prev..]
  {
    SliceJoin(p, prev, at, |p|);
  }

  ghost predicate RunsTile(text: string, spans: seq<Span>) {
    && (forall k :: 0 <= k < |spans| ==> spans[k].txtStart <= spans[k].txtEnd <= |text|)
    && (forall k :: 0 <= k < |spans| ==> spans[k].txtStart == TxtBefore(spans, k, 0))
  }

  lemma EditFits(text: string, edits: seq<Edit>, n: nat)
    requires InOrder(edits, 0, |text|) && n < |edits|
    ensures edits[n].start <= edits[n].end
    ensures edits[n].start < edits[n].end || edits[n].start == |text|
    ensures forall k :: 0 <= k < n ==> edits[k].start <= edits[k].end
  {
  }

  /** The loop that cuts the edits over the runs. */
  method CutEdits(text: string, spans: seq<Span>, edits: seq<Edit>) returns (perSpan: seq<seq<SubEdit>>)
    requires InOrder(edits, 0, |text|) && RunsTile(text, spans)
    ensures |perSpan| == |spans|
    ensures forall k :: 0 <= k < |spans| ==> perSpan[k] == SubEditsOf(edits, spans[k])
  {
    perSpan := seq(|spans|, _ => []);
    for n := 0 to |edits|
      invariant |perSpan| == |spans|
      invariant forall k :: 0 <= k < |spans| ==> perSpan[k] == SubEditsOf(edits[..n], spans[k])
    {
      EditFits(text, edits, n);
      hide InOrder;
      ghost var before := perSpan;
      perSpan := SplitEdit(edits[n], spans, perSpan);
      assert edits[..n + 1] == edits[..n] + [edits[n]];
      forall k | 0 <= k < |spans| ensures perSpan[k] == SubEditsOf(edits[..n + 1], spans[k]) {
        assert perSpan[k] == WithEdit(before[k], edits[n], spans[k]);
        SubEditsSnoc(edits[..n], edits[n], spans[k]);
      }
    }
    assert edits[..|edits|] == edits;
  }

  method RebuildRun(text: string, s: Span, edits: seq<Edit>, subs: seq<SubEdit>) returns (cur: string)
    requires InOrder(edits, 0, |text|) && s.txtStart <= s.txtEnd <= |text| && subs == SubEditsOf(edits, s)
    ensures cur == Render(text, edits, s.txtStart, s.txtEnd)
  {
    SplicedRenders(text, edits, s, 0);
    hide Render, Ascending, Spliced, InOrder;
    cur := ApplySubEdits(text[s.txtStart..s.txtEnd], subs);
  }

  /** The loop that rebuilds every run. */
  method RebuildRuns(text: string, spans: seq<Span>, edits: seq<Edit>, perSpan: seq<seq<SubEdit>>)
    returns (inner: seq<string>)
    requires InOrder(edits, 0, |text|) && RunsTile(text, spans) && |perSpan| == |spans|
    requires forall k :: 0 <= k < |spans| ==> perSpan[k] == SubEditsOf(edits, spans[k])
    ensures inner == NewInner(text, edits, spans)
  {
    hide Render, InOrder, SubEditsOf;
    inner := [];
    for i := 0 to |spans|
      invariant |inner| == i
      invariant forall k :: 0 <= k < i ==> inner[k] == Render(text, edits, spans[k].txtStart, spans[k].txtEnd)
    {
      var cur := RebuildRun(text, spans[i], edits, perSpan[i]);
      inner := inner + [cur];
    }
  }

  method FillParagraph(p: string, values: Values) returns (r: string)
    ensures r == Filled(p, values)
  {
    hide Tiles, Weave, SpanHolds;
    var text, spans := ParagraphText(p);
    TilesInXmlOrder(p, text, spans, 0, 0);
    var plain := Unescape(text);
    MappedEditsInOrder(text, values);
    if text == "" || |spans| == 0 {
      NothingToFindInEmpty(p, values);
      return p;
    }
    if FirstAt(plain, 0, "{{").None? {
      NoBracesNoMatch(plain, 0);
      NothingToFill(p, values);
      return p;
    }
    var matches := Matches(plain);
    if matches == [] {
      NothingToFill(p, values);
      return p;
    }
    var edits := FindEdits(text, plain, matches, values);
    if |edits| == 0 {
      NothingToFill(p, values);
      return p;
    }
    var perSpan := CutEdits(text, spans, edits);
    var inner := RebuildRuns(text, spans, edits, perSpan);
    SelfClosingStaysEmpty(p, values);
    r := Reassemble(p, spans, inner);
  }

  lemma {:induction false} NoBracesNoMatch(s: string, i: nat)
    requires FirstAt(s, i, "{{").None?
    ensures MatchesFrom(s, i) == []
    decreases |s| - i
  {
    if i < |s| {
      if HasAt(s, i, "{{") { FirstAtFinds(s, i, "{{", i); }
      hide MatchAt;
      assert MatchAt(s, i).None?;
      NoBracesNoMatch(s, i + 1);
    }
  }

  lemma NothingToFindInEmpty(p: string, values: Values)
    requires Text(p) == "" || Spans(p) == []
    ensures Filled(p, values) == p
  {
    SpansTile(p, 0, Text(p), 0);
    assert Text(p) == "";
    NothingToFill(p, values);
  }

  // ------------------------------------------------------------ what it means

  /** No value is ever written into a self-closing node, which has no bytes to replace. */
  lemma SelfClosingStaysEmpty(p: string, values: Values)
    ensures var spans, inner := Spans(p), NewInnerOf(p, values);
      forall k :: 0 <= k < |spans| && spans[k].selfClosing ==>
        inner[k] == "" && spans[k].xmlStart == spans[k].xmlEnd && spans[k].txtStart == spans[k].txtEnd
  {
    var text, spans := Text(p), Spans(p);
    SpansTile(p, 0, text, 0);
    forall k | 0 <= k < |spans| && spans[k].selfClosing ensures
      NewInnerOf(p, values)[k] == "" && spans[k].xmlStart == spans[k].xmlEnd && spans[k].txtStart == spans[k].txtEnd
    {
      assert SpanHolds(p, text, spans[k]);
    }
  }

  /** The inner texts of tiling runs, one after the other, are the whole rendered text. */
  lemma {:induction false} RunsConcatenate(p: string, text: string, edits: seq<Edit>, spans: seq<Span>,
                                           xml: nat, txt: nat)
    requires Tiles(p, text, spans, xml, txt) && txt <= |text|
    ensures forall k :: 0 <= k < |spans| ==> spans[k].txtStart <= spans[k].txtEnd <= |text|
    ensures Concat(NewInner(text, edits, spans)) == Render(text, edits, txt, |text|)
    decreases |spans|
  {
    TilesInXmlOrder(p, text, spans, xml, txt);
    if spans == [] {
      assert txt == |text|;
    } else {
      TilesTail(p, text, spans, xml, txt);
      var s := spans[0];
      assert SpanHolds(p, text, s);
      hide Render, SpanHolds;
      RunsConcatenate(p, text, edits, spans[1..], s.xmlEnd, s.txtEnd);
      hide Tiles;
      RenderSplit(text, edits, txt, s.txtEnd, |text|);
      assert NewInner(text, edits, spans)[1..] == NewInner(text, edits, spans[1..]);
    }
  }

  /**
   * However the text is split into runs, the new inner texts one after the other
   * are the whole text with every known placeholder replaced once.
   */
  lemma FilledTextIsSubstitution(p: string, values: Values)
    requires CleanBetween(Text(p), 0, LastEnd(DirectEdits(Text(p), values)))
    ensures Concat(NewInnerOf(p, values)) == Substitute(Text(p), values)
  {
    var text := Text(p);
    SpansTile(p, 0, text, 0);
    RunsConcatenate(p, text, MappedEdits(text, values), Spans(p), 0, 0);
    MappedEditsExactIff(text, values);
    RenderIsSubstitution(text, values, 0);
  }

  /** What the lemmas about one edit and one run need of the edits and runs of a paragraph. */
  lemma EditsAndRuns(p: string, values: Values)
    requires CleanBetween(Text(p), 0, LastEnd(DirectEdits(Text(p), values)))
    ensures MappedEdits(Text(p), values) == DirectEdits(Text(p), values)
    ensures InOrder(DirectEdits(Text(p), values), 0, |Text(p)|)
    ensures RunsTile(Text(p), Spans(p))
    ensures var edits, spans := DirectEdits(Text(p), values), Spans(p);
      forall k :: 0 <= k < |spans| ==>
        NewInnerOf(p, values)[k] == Render(Text(p), edits, spans[k].txtStart, spans[k].txtEnd)
  {
    var text := Text(p);
    SpansTile(p, 0, text, 0);
    TilesInXmlOrder(p, text, Spans(p), 0, 0);
    MappedEditsExactIff(text, values);
    MatchesAreOrdered(text, 0);
    DirectEditsInOrder(text, Matches(text), values, 0);
  }

  /**
   * A value lands whole in the run where its placeholder starts. Of every later run
   * the placeholder reaches into, its bytes vanish: the run goes on after its end.
   */
  lemma ValueLandsWhereItStarts(p: string, values: Values, n: nat, k: nat)
    requires CleanBetween(Text(p), 0, LastEnd(DirectEdits(Text(p), values)))
    requires n < |DirectEdits(Text(p), values)| && k < |Spans(p)|
    ensures var e, s, edits := DirectEdits(Text(p), values)[n], Spans(p)[k], DirectEdits(Text(p), values);
      var after := if e.end < s.txtEnd then e.end else s.txtEnd;
      && s.txtEnd <= |Text(p)|
      && (s.txtStart <= e.start < s.txtEnd ==> e.start < after)
      && (s.txtStart <= e.start < s.txtEnd ==>
            var before := Render(Text(p), edits, s.txtStart, e.start);
            NewInnerOf(p, values)[k] == before + e.value + Render(Text(p), edits, after, s.txtEnd))
      && (e.start < s.txtStart < e.end ==> NewInnerOf(p, values)[k] == Render(Text(p), edits, after, s.txtEnd))
  {
    var text, edits := Text(p), DirectEdits(Text(p), values);
    var e, s := edits[n], Spans(p)[k];
    EditsAndRuns(p, values);
    hide DirectEdits, TextFrom, SpansFrom, MappedEdits, CleanBetween, NewInnerOf;
    if s.txtStart <= e.start < s.txtEnd {
      RenderThrough(text, edits, n, s.txtStart, s.txtEnd);
    } else if e.start < s.txtStart < e.end {
      var after := if e.end < s.txtEnd then e.end else s.txtEnd;
      RenderPastStart(text, edits, n, s.txtStart, after, 0);
      RenderSplit(text, edits, s.txtStart, after, s.txtEnd);
    }
  }

  /** In no other run does the value show: with any other value the run would be the same. */
  lemma OtherRunsIgnoreTheValue(p: string, values: Values, n: nat, k: nat, other: string)
    requires CleanBetween(Text(p), 0, LastEnd(DirectEdits(Text(p), values)))
    requires n < |DirectEdits(Text(p), values)| && k < |Spans(p)|
    requires !(Spans(p)[k].txtStart <= DirectEdits(Text(p), values)[n].start < Spans(p)[k].txtEnd)
    ensures Spans(p)[k].txtStart <= Spans(p)[k].txtEnd <= |Text(p)|
    ensures NewInnerOf(p, values)[k] == Render(
      Text(p), WithValue(DirectEdits(Text(p), values), n, other), Spans(p)[k].txtStart, Spans(p)[k].txtEnd)
  {
    EditsAndRuns(p, values);
    hide DirectEdits, TextFrom, SpansFrom, MappedEdits, CleanBetween, NewInnerOf, WithValue;
    RenderIgnoresValue(
      Text(p), DirectEdits(Text(p), values), n, other, Spans(p)[k].txtStart, Spans(p)[k].txtEnd);
  }

  lemma RenderThrough(text: string, edits: seq<Edit>, n: nat, lo: nat, hi: nat)
    requires InOrder(edits, 0, |text|) && n < |edits| && lo <= edits[n].start < hi <= |text|
    ensures var e := edits[n]; var after := if e.end < hi then e.end else hi;
      && e.start < after
      && Render(text, edits, lo, hi) == Render(text, edits, lo, e.start) + e.value + Render(text, edits, after, hi)
  {
    var e := edits[n];
    var after := if e.end < hi then e.end else hi;
    assert e.start < e.end;
    RenderNth(text, edits, n, after, 0);
    hide Render, InOrder;
    RenderSplit(text, edits, lo, e.start, hi);
    RenderSplit(text, edits, e.start, after, hi);
    JoinAssociates(Render(text, edits, lo, e.start), e.value, Render(text, edits, after, hi));
  }

  lemma {:induction false} RenderNth(text: string, edits: seq<Edit>, n: nat, hi: nat, from: nat)
    requires InOrder(edits, from, |text|) && n < |edits| && edits[n].start < hi <= edits[n].end
    ensures Render(text, edits, edits[n].start, hi) == edits[n].value
    decreases n
  {
    TailInOrder(edits, from, |text|);
    if n > 0 {
      RenderNth(text, edits[1..], n - 1, hi, edits[0].end);
      if edits[0].start < edits[0].end {
        RenderAfter(text, edits, edits[n].start, hi);
      }
    } else {
      RenderInside(text, edits, edits[0].start + 1, hi);
    }
  }

  /** Text without predefined references is its own unescaped form. */
  lemma {:induction false} NothingToUnescape(s: string, i: nat)
    requires i <= |s| && forall k: nat :: i <= k < |s| ==> EntityAt(s, k).None?
    ensures UnescapeFrom(s, i) == s[i..]
    decreases |s| - i
  {
    if i < |s| {
      NothingToUnescape(s, i + 1);
    }
  }

  lemma {:induction false} PlainScan(s: string, i: nat)
    requires i <= |s| && forall k :: i <= k < |s| ==> s[k] != '&'
    ensures |ScanFrom(s, i)| == |s| - i + 1
    ensures forall k :: 0 <= k <= |s| - i ==> ScanFrom(s, i)[k] == i + k
    decreases |s| - i
  {
    if i < |s| {
      PlainScan(s, i + 1);
    }
  }
}
