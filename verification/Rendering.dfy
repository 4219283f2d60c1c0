// What a set of edits over one text means, position by position, and the
// per-run sub-edits fillParagraph of internal/docxt/docxt.go cuts them into.
module Rendering {
  import opened Prelude
  import opened Paragraph

  /** Replace the text from `start` to `end` by `value`. */
  datatype Edit = Edit(start: nat, end: nat, value: string)

  /** The part of an edit that falls into one run, in offsets of that run. */
  datatype SubEdit = SubEdit(lo: nat, hi: nat, value: string)

  /** In order and disjoint. Only an edit at the very end of the text may be empty. */
  ghost predicate InOrder(edits: seq<Edit>, from: nat, length: nat) {
    && (forall k :: 0 <= k < |edits| ==> from <= edits[k].start <= edits[k].end <= length)
    && (forall k :: 0 <= k < |edits| ==> edits[k].start < edits[k].end || edits[k].start == length)
    && (forall j, k :: 0 <= j < k < |edits| ==> edits[j].end <= edits[k].start)
  }

  /** What stands at position `j` afterwards: the value where an edit starts, nothing further inside it. */
  function OutAt(text: string, edits: seq<Edit>, j: nat): string
    requires j < |text|
  {
    if edits == [] || j < edits[0].start then [text[j]]
    else if j == edits[0].start then edits[0].value
    else if j < edits[0].end then ""
    else OutAt(text, edits[1..], j)
  }

  function Render(text: string, edits: seq<Edit>, lo: nat, hi: nat): string
    requires lo <= hi <= |text|
    decreases hi - lo
  {
    if lo == hi then "" else OutAt(text, edits, lo) + Render(text, edits, lo + 1, hi)
  }

  lemma {:induction false} RenderSplit(text: string, edits: seq<Edit>, lo: nat, mid: nat, hi: nat)
    requires lo <= mid <= hi <= |text|
    ensures Render(text, edits, lo, hi) == Render(text, edits, lo, mid) + Render(text, edits, mid, hi)
    decreases mid - lo
  {
    if lo < mid {
      RenderSplit(text, edits, lo + 1, mid, hi);
    }
  }

  lemma {:induction false} RenderUntouched(text: string, edits: seq<Edit>, lo: nat, hi: nat)
    requires lo <= hi <= |text| && (edits == [] || hi <= edits[0].start)
    ensures Render(text, edits, lo, hi) == text[lo..hi]
    decreases hi - lo
  {
    if lo < hi {
      RenderUntouched(text, edits, lo + 1, hi);
    }
  }

  lemma {:induction false} RenderInside(text: string, edits: seq<Edit>, lo: nat, hi: nat)
    requires lo <= hi <= |text| && edits != [] && edits[0].start < lo && hi <= edits[0].end
    ensures Render(text, edits, lo, hi) == ""
    decreases hi - lo
  {
    if lo < hi {
      RenderInside(text, edits, lo + 1, hi);
    }
  }

  lemma {:induction false} RenderAfter(text: string, edits: seq<Edit>, lo: nat, hi: nat)
    requires lo <= hi <= |text| && edits != [] && edits[0].start <= edits[0].end <= lo
    requires edits[0].start < lo
    ensures Render(text, edits, lo, hi) == Render(text, edits[1..], lo, hi)
    decreases hi - lo
  {
    if lo < hi {
      RenderAfter(text, edits, lo + 1, hi);
    }
  }

  // ------------------------------------------------------------ sub-edits

  /** The test of the splitting loop: the run and the edit share a byte, or an empty run lies inside the edit. */
  predicate Touches(e: Edit, s: Span) {
    s.txtEnd > e.start && s.txtStart < e.end
  }

  /** The value goes to the run that contains the start of the edit. */
  function SubEditOf(e: Edit, s: Span): (r: SubEdit)
    requires Touches(e, s) && s.txtStart <= s.txtEnd && e.start <= e.end
  {
    SubEdit(if e.start > s.txtStart then e.start - s.txtStart else 0,
            (if e.end < s.txtEnd then e.end else s.txtEnd) - s.txtStart,
            if e.start >= s.txtStart then e.value else "")
  }

  function SubEditsOf(edits: seq<Edit>, s: Span): seq<SubEdit>
    requires s.txtStart <= s.txtEnd
    requires forall k :: 0 <= k < |edits| ==> edits[k].start <= edits[k].end
  {
    if edits == [] then []
    else (if Touches(edits[0], s) then [SubEditOf(edits[0], s)] else []) + SubEditsOf(edits[1..], s)
  }

  lemma {:induction false} SubEditsSnoc(edits: seq<Edit>, e: Edit, s: Span)
    requires s.txtStart <= s.txtEnd && e.start <= e.end
    requires forall k :: 0 <= k < |edits| ==> edits[k].start <= edits[k].end
    ensures SubEditsOf(edits + [e], s) ==
      SubEditsOf(edits, s) + if Touches(e, s) then [SubEditOf(e, s)] else []
  {
    if edits == [] {
      assert [] + [e] == [e];
      assert SubEditsOf([e][1..], s) == [];
    } else {
      assert (edits + [e])[1..] == edits[1..] + [e];
      SubEditsSnoc(edits[1..], e, s);
    }
  }

  /** Ascending, disjoint and inside a run of the given width, from offset `from` on. */
  ghost predicate Ascending(subs: seq<SubEdit>, from: nat, width: nat) {
    && (forall k :: 0 <= k < |subs| ==> from <= subs[k].lo <= subs[k].hi <= width)
    && (forall j, k :: 0 <= j < k < |subs| ==> subs[j].hi <= subs[k].lo && subs[j].lo < subs[k].lo)
  }

  /** The offset inside the run where position `x` of the text falls, or the nearest one. */
  function Clamp(x: nat, s: Span): (c: nat)
    requires s.txtStart <= s.txtEnd
    ensures c <= s.txtEnd - s.txtStart
  {
    if x <= s.txtStart then 0 else if x <= s.txtEnd then x - s.txtStart else s.txtEnd - s.txtStart
  }

  lemma {:induction false} NoneTouch(edits: seq<Edit>, s: Span)
    requires s.txtStart <= s.txtEnd
    requires forall k :: 0 <= k < |edits| ==> s.txtEnd <= edits[k].start <= edits[k].end
    ensures SubEditsOf(edits, s) == []
  {
    if edits != [] {
      NoneTouch(edits[1..], s);
    }
  }

  lemma AscendingCons(sub: SubEdit, subs: seq<SubEdit>, from: nat, width: nat)
    requires from <= sub.lo <= sub.hi <= width && Ascending(subs, sub.hi, width)
    requires sub.lo < sub.hi || subs == []
    ensures Ascending([sub] + subs, from, width)
  {
  }

  lemma TailInOrder(edits: seq<Edit>, from: nat, length: nat)
    requires InOrder(edits, from, length) && edits != []
    ensures InOrder(edits[1..], edits[0].end, length)
    ensures from <= edits[0].start <= edits[0].end <= length
    ensures edits[0].start < edits[0].end || edits[0].start == length
  {
  }

  /** The sub-edits of one run never leave the run, never overlap, and have distinct starts. */
  lemma {:induction false} SubEditsAscend(edits: seq<Edit>, s: Span, from: nat, length: nat)
    requires InOrder(edits, from, length) && s.txtStart <= s.txtEnd <= length
    ensures Ascending(SubEditsOf(edits, s), Clamp(from, s), s.txtEnd - s.txtStart)
  {
    if edits != [] {
      var e, rest := edits[0], edits[1..];
      TailInOrder(edits, from, length);
      SubEditsAscend(rest, s, e.end, length);
      if Touches(e, s) {
        if s.txtStart == s.txtEnd { NoneTouch(rest, s); }
        AscendingCons(SubEditOf(e, s), SubEditsOf(rest, s), Clamp(from, s), s.txtEnd - s.txtStart);
      }
    }
  }

  /** A run with its sub-edits applied, read from offset `x` on. */
  function Spliced(run: string, subs: seq<SubEdit>, x: nat): string
    requires x <= |run|
    requires Ascending(subs, x, |run|)
  {
    if subs == [] then run[x..]
    else run[x..subs[0].lo] + subs[0].value + Spliced(run, subs[1..], subs[0].hi)
  }

  lemma SplicedCons(run: string, sub: SubEdit, subs: seq<SubEdit>, x: nat)
    requires x <= |run| && Ascending([sub] + subs, x, |run|) && Ascending(subs, sub.hi, |run|)
    requires x <= sub.lo <= sub.hi <= |run|
    ensures Spliced(run, [sub] + subs, x) == run[x..sub.lo] + sub.value + Spliced(run, subs, sub.hi)
  {
    assert ([sub] + subs)[1..] == subs;
  }

  /** What one touching edit leaves of the run from `x` to its own end. */
  lemma RenderTouched(text: string, edits: seq<Edit>, s: Span, x: nat)
    requires edits != [] && s.txtStart <= x <= s.txtEnd <= |text| && Touches(edits[0], s)
    requires edits[0].start < edits[0].end
    requires x <= s.txtStart || x <= edits[0].start
    ensures var sub := SubEditOf(edits[0], s);
      x <= s.txtStart + sub.lo <= s.txtStart + sub.hi <= s.txtEnd &&
      Render(text, edits, x, s.txtStart + sub.hi) == text[x..s.txtStart + sub.lo] + sub.value
  {
    var e, sub := edits[0], SubEditOf(edits[0], s);
    var a, b := s.txtStart + sub.lo, s.txtStart + sub.hi;
    if e.start >= s.txtStart {
      RenderUntouched(text, edits, x, a);
      RenderWithin(text, edits, b);
    } else {
      RenderInside(text, edits, a, b);
      assert x == a && Render(text, edits, x, a) == "" == text[x..a];
    }
    hide Render;
    RenderSplit(text, edits, x, a, b);
  }

  /** From its start to any point inside it an edit renders as its value. */
  lemma RenderWithin(text: string, edits: seq<Edit>, b: nat)
    requires edits != [] && edits[0].start < b <= edits[0].end && b <= |text|
    ensures Render(text, edits, edits[0].start, b) == edits[0].value
  {
    RenderInside(text, edits, edits[0].start + 1, b);
  }

  /** From any point past its start to any point inside it an edit renders as nothing. */
  lemma {:induction false} RenderPastStart(text: string, edits: seq<Edit>, n: nat, lo: nat, hi: nat, from: nat)
    requires InOrder(edits, from, |text|) && n < |edits| && edits[n].start < lo <= hi <= edits[n].end
    ensures Render(text, edits, lo, hi) == ""
    decreases n
  {
    TailInOrder(edits, from, |text|);
    if n > 0 {
      assert edits[0].end <= edits[n].start;
      RenderPastStart(text, edits[1..], n - 1, lo, hi, edits[0].end);
      RenderAfter(text, edits, lo, hi);
    } else {
      RenderInside(text, edits, lo, hi);
    }
  }

  /** The same edits, number `n` with another value. */
  function WithValue(edits: seq<Edit>, n: nat, other: string): seq<Edit>
    requires n < |edits|
  {
    edits[n := edits[n].(value := other)]
  }

  lemma {:induction false} OutAtIgnoresValue(text: string, edits: seq<Edit>, n: nat, other: string, j: nat)
    requires n < |edits| && j < |text| && j != edits[n].start
    ensures OutAt(text, edits, j) == OutAt(text, WithValue(edits, n, other), j)
    decreases n
  {
    var changed := WithValue(edits, n, other);
    if n == 0 {
      assert changed[1..] == edits[1..];
    } else {
      assert changed[1..] == WithValue(edits[1..], n - 1, other);
      OutAtIgnoresValue(text, edits[1..], n - 1, other, j);
    }
  }

  /** A value shows only where its edit starts. */
  lemma {:induction false} RenderIgnoresValue(text: string, edits: seq<Edit>, n: nat, other: string, lo: nat, hi: nat)
    requires n < |edits| && lo <= hi <= |text| && (hi <= edits[n].start || edits[n].start < lo)
    ensures Render(text, edits, lo, hi) == Render(text, WithValue(edits, n, other), lo, hi)
    decreases hi - lo
  {
    if lo < hi {
      OutAtIgnoresValue(text, edits, n, other, lo);
      RenderIgnoresValue(text, edits, n, other, lo + 1, hi);
    }
  }

  lemma RenderPast(text: string, edits: seq<Edit>, lo: nat, hi: nat)
    requires lo <= hi <= |text| && edits != []
    requires lo == hi || edits[0].start < edits[0].end <= lo
    ensures Render(text, edits, lo, hi) == Render(text, edits[1..], lo, hi)
  {
    if lo < hi { RenderAfter(text, edits, lo, hi); }
  }

  /** One touching edit in front of sub-edits that already render their part. */
  lemma SplicedTouched(text: string, edits: seq<Edit>, s: Span, x: nat, run: string, subs: seq<SubEdit>)
    requires edits != [] && s.txtStart <= x <= s.txtEnd <= |text| && Touches(edits[0], s)
    requires edits[0].start < edits[0].end && (x <= s.txtStart || x <= edits[0].start)
    requires run == text[s.txtStart..s.txtEnd]
    requires var sub := SubEditOf(edits[0], s);
      && Ascending(subs, sub.hi, |run|) && Ascending([sub] + subs, x - s.txtStart, |run|)
      && Spliced(run, subs, sub.hi) == Render(text, edits, s.txtStart + sub.hi, s.txtEnd)
    ensures Spliced(run, [SubEditOf(edits[0], s)] + subs, x - s.txtStart) == Render(text, edits, x, s.txtEnd)
  {
    hide Render, Ascending, Spliced;
    var sub := SubEditOf(edits[0], s);
    RenderTouched(text, edits, s, x);
    RenderSplit(text, edits, x, s.txtStart + sub.hi, s.txtEnd);
    SplicedCons(run, sub, subs, x - s.txtStart);
    SliceOfSlice(text, s.txtStart, s.txtEnd, x - s.txtStart, sub.lo);
  }

  /** Cutting the edits over the runs loses nothing: each run renders its own range of the text. */
  lemma {:induction false} SplicedRenders(text: string, edits: seq<Edit>, s: Span, from: nat)
    requires InOrder(edits, from, |text|) && s.txtStart <= s.txtEnd <= |text|
    ensures Ascending(SubEditsOf(edits, s), Clamp(from, s), s.txtEnd - s.txtStart)
    ensures Spliced(text[s.txtStart..s.txtEnd], SubEditsOf(edits, s), Clamp(from, s))
         == Render(text, edits, s.txtStart + Clamp(from, s), s.txtEnd)
  {
    hide Spliced, Ascending, Render;
    SubEditsAscend(edits, s, from, |text|);
    if edits == [] || edits[0].start >= s.txtEnd {
      SplicedUntouched(text, edits, s, from);
    } else {
      var e, rest := edits[0], edits[1..];
      TailInOrder(edits, from, |text|);
      hide InOrder;
      SplicedRenders(text, rest, s, e.end);
      RenderPast(text, edits, s.txtStart + Clamp(e.end, s), s.txtEnd);
      if Touches(e, s) {
        var run, x := text[s.txtStart..s.txtEnd], s.txtStart + Clamp(from, s);
        SplicedTouched(text, edits, s, x, run, SubEditsOf(rest, s));
      } else {
        assert SubEditsOf(edits, s) == SubEditsOf(rest, s);
      }
    }
  }

  /** A run that no edit from `from` on reaches stays as it is. */
  lemma SplicedUntouched(text: string, edits: seq<Edit>, s: Span, from: nat)
    requires InOrder(edits, from, |text|) && s.txtStart <= s.txtEnd <= |text|
    requires edits == [] || edits[0].start >= s.txtEnd
    ensures SubEditsOf(edits, s) == [] && Ascending([], Clamp(from, s), s.txtEnd - s.txtStart)
    ensures Spliced(text[s.txtStart..s.txtEnd], [], Clamp(from, s))
         == Render(text, edits, s.txtStart + Clamp(from, s), s.txtEnd)
  {
    hide Spliced, Ascending, Render;
    var run, x := text[s.txtStart..s.txtEnd], s.txtStart + Clamp(from, s);
    NoneTouch(edits, s);
    SplicedNone(run, Clamp(from, s));
    SliceOfSlice(text, s.txtStart, s.txtEnd, Clamp(from, s), |run|);
    RenderUntouched(text, edits, x, s.txtEnd);
  }

  lemma SplicedNone(run: string, x: nat)
    requires x <= |run|
    ensures Ascending([], x, |run|) && Spliced(run, [], x) == run[x..]
  {
  }
}
