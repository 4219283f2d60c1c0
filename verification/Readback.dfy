// Reading a filled paragraph again with the same reader: its text is the text
// of the paragraph with every known placeholder replaced once.
module Readback {
  import opened Prelude
  import opened XmlText
  import opened Placeholder
  import opened Paragraph
  import opened Rendering
  import opened Fill

  // ------------------------------------------------------------ reading suffixes

  function Later(k: Option<nat>, d: nat): Option<nat> {
    match k case None => None case Some(n) => Some(d + n)
  }

  lemma {:induction false} FirstAtDrop(s: string, d: nat, i: nat, pat: string)
    requires d <= |s|
    ensures FirstAt(s, d + i, pat) == Later(FirstAt(s[d..], i, pat), d)
    decreases |s| - i
  {
    HasAtDrop(s, d, i, pat);
    if i + |pat| <= |s[d..]| && !HasAt(s[d..], i, pat) {
      FirstAtDrop(s, d, i + 1, pat);
    }
  }

  lemma {:induction false} IndexByteDrop(s: string, d: nat, i: nat, c: char)
    requires d <= |s|
    ensures IndexByte(s, d + i, c) == Later(IndexByte(s[d..], i, c), d)
    decreases |s| - i
  {
    if d + i < |s| && s[d + i] != c {
      IndexByteDrop(s, d, i + 1, c);
    }
  }

  function ShiftNode(n: Option<Node>, d: nat): Option<Node> {
    match n
    case None => None
    case Some(m) => Some(Node(m.innerStart + d, m.innerEnd + d, m.end + d, m.selfClosing))
  }

  lemma ClassifyShifts(i: nat, gt: nat, first: char, last: char, close: Option<nat>, d: nat)
    ensures Classify(d + i, d + gt, first, last, Later(close, d)) == ShiftNode(Classify(i, gt, first, last, close), d)
  {
  }

  /** The expression only looks at what follows. */
  lemma NodeAtDrop(s: string, d: nat, i: nat)
    requires d <= |s|
    ensures NodeAt(s, d + i) == ShiftNode(NodeAt(s[d..], i), d)
  {
    hide NodeAt, FirstAt, HasAt, Classify, IndexByte;
    var t := s[d..];
    NodeParts(s, d + i);
    NodeParts(t, i);
    HasAtDrop(s, d, i, OPEN);
    IndexByteDrop(s, d, i + 4, '>');
    var tag := IndexByte(t, i + 4, '>');
    if HasAt(t, i, OPEN) && tag.Some? {
      FirstAtDrop(s, d, tag.value + 1, CLOSE);
      assert s[d + (i + 4)] == t[i + 4] && s[d + (tag.value - 1)] == t[tag.value - 1];
      ClassifyShifts(i, tag.value, t[i + 4], t[tag.value - 1], FirstAt(t, tag.value + 1, CLOSE), d);
    }
  }

  lemma TextStep(s: string, i: nat)
    ensures i >= |s| ==> TextFrom(s, i) == ""
    ensures i < |s| && NodeAt(s, i).None? ==> TextFrom(s, i) == TextFrom(s, i + 1)
    ensures i < |s| && NodeAt(s, i).Some? ==>
      var n := NodeAt(s, i).value;
      TextFrom(s, i) == s[n.innerStart..n.innerEnd] + TextFrom(s, n.end)
  {
  }

  lemma {:induction false} TextDrop(s: string, d: nat, i: nat)
    requires d <= |s|
    ensures TextFrom(s, d + i) == TextFrom(s[d..], i)
    decreases |s| - i
  {
    hide TextFrom, NodeAt;
    TextStep(s, d + i);
    TextStep(s[d..], i);
    NodeAtDrop(s, d, i);
    if d + i < |s| {
      var n := NodeAt(s[d..], i);
      if n.Some? {
        TextDrop(s, d, n.value.end);
        SliceOfSlice(s, d, |s|, n.value.innerStart, n.value.innerEnd);
      } else {
        TextDrop(s, d, i + 1);
      }
    }
  }

  lemma ReadFirst(c: char, s: string)
    requires NodeAt([c] + s, 0).None?
    ensures Text([c] + s) == Text(s)
  {
    TextDrop([c] + s, 1, 0);
    assert ([c] + s)[1..] == s;
  }

  // ------------------------------------------------------------ reading one run

  /** A start tag of a text node: `<w:t` with or without attributes, up to its `>`. */
  ghost predicate IsStartTag(tag: string) {
    |tag| >= 5 && HasAt(tag, 0, OPEN) && (tag[4] == '>' || IsSpace(tag[4])) && IndexByte(tag, 4, '>') == Some(|tag| - 1)
  }

  /** The first closing tag after text without `<` is the one that ends it. */
  lemma {:induction false} CloseAfter(s: string, i: nat, j: nat)
    requires i <= j && HasAt(s, j, CLOSE) && forall k :: i <= k < j ==> s[k] != '<'
    ensures FirstAt(s, i, CLOSE) == Some(j)
    decreases j - i
  {
    if i < j {
      assert s[i..i + 6][0] == s[i];
      CloseAfter(s, i + 1, j);
    }
  }

  lemma NodeFrom(s: string, i: nat, gt: nat, close: nat)
    requires HasAt(s, i, OPEN) && IndexByte(s, i + 4, '>') == Some(gt) && FirstAt(s, gt + 1, CLOSE) == Some(close)
    requires gt == i + 4 || IsSpace(s[i + 4])
    ensures NodeAt(s, i) == Some(Node(gt + 1, close, close + 6, false))
  {
  }

  /** A start tag, text without `<` and a closing tag are one text node. */
  lemma NodeOfRun(s: string, tag: string, q: nat)
    requires IsStartTag(tag) && tag <= s && |tag| <= q && HasAt(s, q, CLOSE)
    requires forall k :: |tag| <= k < q ==> s[k] != '<'
    ensures NodeAt(s, 0) == Some(Node(|tag|, q, q + 6, false))
  {
    TagStart(s, tag);
    CloseAfter(s, |tag|, q);
    hide *;
    NodeFrom(s, 0, |tag| - 1, q);
  }

  lemma TagStart(s: string, tag: string)
    requires IsStartTag(tag) && tag <= s
    ensures |tag| >= 5 && HasAt(s, 0, OPEN) && (|tag| - 1 == 4 || IsSpace(s[4]))
    ensures IndexByte(s, 4, '>') == Some(|tag| - 1)
  {
    assert s[0..4] == tag[0..4] && s[4] == tag[4];
    IndexByteIsFirst(tag, 4, '>');
    IndexByteIs(s, 4, '>', |tag| - 1);
  }

  lemma RunParts(tag: string, q: string, rest: string)
    ensures var s := tag + (q + CLOSE + rest);
      && tag <= s && s[|tag|..|tag| + |q|] == q && HasAt(s, |tag| + |q|, CLOSE) && s[|tag| + |q| + 6..] == rest
      && forall k :: |tag| <= k < |tag| + |q| ==> s[k] == q[k - |tag|]
  {
    var s := tag + (q + CLOSE + rest);
    assert s[|tag| + |q|..|tag| + |q| + 6] == CLOSE;
  }

  lemma TextOfNode(s: string, n: Node)
    requires NodeAt(s, 0) == Some(n)
    ensures n.innerStart <= n.innerEnd <= n.end <= |s| && Text(s) == s[n.innerStart..n.innerEnd] + Text(s[n.end..])
  {
    assert 0 < |s|;
    hide NodeAt, TextFrom;
    TextStep(s, 0);
    TextDrop(s, n.end, 0);
  }

  lemma ReadRunAt(s: string, tag: string, q: nat)
    requires IsStartTag(tag) && tag <= s && |tag| <= q && HasAt(s, q, CLOSE)
    requires forall k :: |tag| <= k < q ==> s[k] != '<'
    ensures |tag| <= q <= q + 6 <= |s| && Text(s) == s[|tag|..q] + Text(s[q + 6..])
  {
    NodeOfRun(s, tag, q);
    hide *;
    TextOfNode(s, Node(|tag|, q, q + 6, false));
  }

  lemma ReadRun(tag: string, q: string, rest: string)
    requires IsStartTag(tag) && '<' !in q
    ensures Text(tag + (q + CLOSE + rest)) == q + Text(rest)
  {
    hide IsStartTag, TextFrom;
    RunParts(tag, q, rest);
    ReadRunAt(tag + (q + CLOSE + rest), tag, |tag| + |q|);
  }

  // ------------------------------------------------------------ line breaks

  /** Text whose only markup is the line break escapeXML writes. */
  ghost predicate OnlyBreaks(s: string) {
    s == "" || (if HasAt(s, 0, LINE_BREAK) then OnlyBreaks(s[|LINE_BREAK|..]) else s[0] != '<' && OnlyBreaks(s[1..]))
  }

  /** The text as its reader sees it, without the markup of line breaks. */
  function StripBreaks(s: string): string {
    if s == "" then ""
    else if HasAt(s, 0, LINE_BREAK) then StripBreaks(s[|LINE_BREAK|..])
    else [s[0]] + StripBreaks(s[1..])
  }

  const CONTINUE_TAG := "<w:t xml:space=\"preserve\">"

  lemma BreakTag(t: string)
    requires t == CONTINUE_TAG
    ensures IsStartTag(t)
  {
    assert t[0..4] == OPEN;
    IndexByteIs(t, 4, '>', 25);
  }

  lemma LineBreakParts()
    ensures LINE_BREAK == CLOSE + "<w:br/>" + CONTINUE_TAG
  {
  }

  /** Bytes before which no tag of a text node starts add nothing to the text. */
  lemma {:induction false} SkipBytes(s: string, n: nat)
    requires n <= |s| && forall k: nat :: k < n ==> !HasAt(s, k, OPEN)
    ensures Text(s) == TextFrom(s, n)
  {
    if n > 0 {
      SkipBytes(s, n - 1);
      assert NodeAt(s, n - 1).None?;
      TextStep(s, n - 1);
    }
  }

  lemma SkipBreak(rest: string)
    ensures Text("<w:br/>" + (CONTINUE_TAG + rest)) == Text(CONTINUE_TAG + rest)
  {
    var s := "<w:br/>" + (CONTINUE_TAG + rest);
    forall k: nat | k < 7 ensures !HasAt(s, k, OPEN) {
      assert s[3] == 'b' && forall j :: 1 <= j < 7 ==> s[j] != '<';
      if k + 4 <= |s| { assert s[k..k + 4][0] == s[k] && s[k..k + 4][3] == s[k + 3]; }
    }
    SkipBytes(s, 7);
    TextDrop(s, 7, 0);
    assert s[7..] == CONTINUE_TAG + rest;
  }

  /** Up to its first line break a run reads as its text; the rest reads as a run of its own. */
  lemma ReadToBreak(tag: string, a: string, q: string, rest: string)
    requires IsStartTag(tag) && '<' !in a
    ensures Text(tag + ((a + (LINE_BREAK + q)) + CLOSE + rest)) == a + Text(CONTINUE_TAG + (q + CLOSE + rest))
  {
    hide IsStartTag, TextFrom;
    var next := CONTINUE_TAG + (q + CLOSE + rest);
    LineBreakParts();
    SameBytes(a, q, rest);
    ReadRun(tag, a, "<w:br/>" + next);
    SkipBreak(q + CLOSE + rest);
  }

  lemma SameBytes(a: string, q: string, rest: string)
    ensures (a + ((CLOSE + "<w:br/>" + CONTINUE_TAG) + q)) + CLOSE + rest
         == a + CLOSE + ("<w:br/>" + (CONTINUE_TAG + (q + CLOSE + rest)))
  {
    var x, y, z := CLOSE, "<w:br/>", CONTINUE_TAG;
    Associate(a, x, y, z, q, rest);
  }

  lemma Associate(a: string, x: string, y: string, z: string, q: string, rest: string)
    ensures (a + ((x + y + z) + q)) + x + rest == a + x + (y + (z + (q + x + rest)))
  {
  }

  /** A run whose text has line breaks in it reads as its lines one after the other. */
  lemma {:induction false} ReadLines(tag: string, a: string, q: string, rest: string)
    requires IsStartTag(tag) && '<' !in a && OnlyBreaks(q)
    ensures Text(tag + ((a + q) + CLOSE + rest)) == a + StripBreaks(q) + Text(rest)
    decreases |q|
  {
    hide IsStartTag, TextFrom, OnlyBreaks, StripBreaks;
    BreaksStep(q);
    if q == "" {
      assert a + q == a;
      ReadRun(tag, a, rest);
    } else if HasAt(q, 0, LINE_BREAK) {
      var q' := q[|LINE_BREAK|..];
      ReadToBreak(tag, a, q', rest);
      BreakTag(CONTINUE_TAG);
      ReadLines(CONTINUE_TAG, "", q', rest);
      assert "" + q' == q' && "" + StripBreaks(q') == StripBreaks(q');
      JoinAssociates(a, StripBreaks(q'), Text(rest));
    } else {
      ReadLines(tag, a + [q[0]], q[1..], rest);
      JoinAssociates(a, [q[0]], q[1..]);
      JoinAssociates(a, [q[0]], StripBreaks(q[1..]));
    }
  }

  lemma BreaksStep(q: string)
    requires OnlyBreaks(q)
    ensures q == "" ==> StripBreaks(q) == ""
    ensures q != "" && HasAt(q, 0, LINE_BREAK) ==>
      var rest := q[|LINE_BREAK|..];
      |rest| < |q| && q == LINE_BREAK + rest && OnlyBreaks(rest) && StripBreaks(q) == StripBreaks(rest)
    ensures q != "" && !HasAt(q, 0, LINE_BREAK) ==>
      q[0] != '<' && q == [q[0]] + q[1..] && OnlyBreaks(q[1..]) && StripBreaks(q) == [q[0]] + StripBreaks(q[1..])
  {
  }

  // ------------------------------------------------------------ reading a woven paragraph

  function StripAll(inner: seq<string>): string {
    if inner == [] then "" else StripBreaks(inner[0]) + StripAll(inner[1..])
  }

  lemma InXmlOrderEarlier(p: string, spans: seq<Span>, prev: nat, at: nat)
    requires prev <= at && InXmlOrder(p, spans, at)
    ensures InXmlOrder(p, spans, prev)
  {
    forall k | 0 <= k < |spans| ensures XmlBefore(spans, k, prev) <= spans[k].xmlStart {
      assert XmlBefore(spans, k, at) <= spans[k].xmlStart;
    }
  }

  lemma WeaveAdvance(p: string, spans: seq<Span>, inner: seq<string>, prev: nat, at: nat)
    requires |spans| == |inner| && prev <= at <= |p| && InXmlOrder(p, spans, at)
    ensures InXmlOrder(p, spans, prev)
    ensures Weave(p, spans, inner, prev) == p[prev..at] + Weave(p, spans, inner, at)
  {
    InXmlOrderEarlier(p, spans, prev, at);
    if spans != [] {
      InXmlOrderTail(p, spans, at);
      hide InXmlOrder;
      var x, w := spans[0].xmlStart, Weave(p, spans[1..], inner[1..], spans[0].xmlEnd);
      SliceJoin(p, prev, at, x);
      JoinAssociates(p[prev..at], p[at..x], inner[0]);
      JoinAssociates(p[prev..at], p[at..x] + inner[0], w);
    } else {
      SliceJoin(p, prev, at, |p|);
    }
  }

  ghost predicate AllSelfClosing(spans: seq<Span>) {
    forall k :: 0 <= k < |spans| ==> spans[k].selfClosing
  }

  lemma AllSelfClosingTail(spans: seq<Span>)
    requires spans != []
    ensures AllSelfClosing(spans) <==> spans[0].selfClosing && AllSelfClosing(spans[1..])
  {
    assert spans == [spans[0]] + spans[1..];
  }

  lemma SpansStep(p: string, i: nat, txt: nat)
    ensures i >= |p| ==> SpansFrom(p, i, txt) == []
    ensures i < |p| && NodeAt(p, i).None? ==> SpansFrom(p, i, txt) == SpansFrom(p, i + 1, txt)
    ensures i < |p| && NodeAt(p, i).Some? ==>
      var n, spans := NodeAt(p, i).value, SpansFrom(p, i, txt);
      var width := n.innerEnd - n.innerStart;
      spans != [] && spans[0] == Span(n.innerStart, n.innerEnd, txt, txt + width, n.selfClosing) &&
      spans[1..] == SpansFrom(p, n.end, txt + width)
  {
    hide NodeAt;
  }

  lemma NoneIsAllSelfClosing()
    ensures AllSelfClosing([])
  {
  }

  /** Self-closing nodes alone have no text. */
  lemma {:induction false} OnlySelfClosing(p: string, i: nat, txt: nat)
    requires AllSelfClosing(SpansFrom(p, i, txt))
    ensures TextFrom(p, i) == ""
    decreases |p| - i
  {
    hide TextFrom, SpansFrom, NodeAt, AllSelfClosing;
    TextStep(p, i);
    SpansStep(p, i, txt);
    if i < |p| {
      var n := NodeAt(p, i);
      if n.None? {
        OnlySelfClosing(p, i + 1, txt);
      } else {
        AllSelfClosingTail(SpansFrom(p, i, txt));
        OnlySelfClosing(p, n.value.end, txt + n.value.innerEnd - n.value.innerStart);
      }
    }
  }

  ghost predicate ClosesAfter(p: string, x: nat) {
    exists c: nat :: x <= c && HasAt(p, c, CLOSE)
  }

  /** Where the first text node's inner text starts, and that a closing tag follows if any node has one. */
  lemma {:induction false} FirstSpan(p: string, i: nat, txt: nat)
    requires SpansFrom(p, i, txt) != []
    ensures var x := SpansFrom(p, i, txt)[0].xmlStart;
      && i < |p| && i + 5 <= x <= |p| && p[x - 1] == '>' && (NodeAt(p, i).None? ==> i + 6 <= x)
      && (!AllSelfClosing(SpansFrom(p, i, txt)) ==> ClosesAfter(p, x))
    decreases |p| - i
  {
    hide SpansFrom, NodeAt, AllSelfClosing;
    SpansStep(p, i, txt);
    var n := NodeAt(p, i);
    if n.None? {
      FirstSpan(p, i + 1, txt);
    } else {
      NodeEnds(p, i);
      var spans := SpansFrom(p, i, txt);
      AllSelfClosingTail(spans);
      if !n.value.selfClosing {
        assert ClosesAfter(p, n.value.innerStart);
      } else if !AllSelfClosing(spans) {
        NoneIsAllSelfClosing();
        FirstSpan(p, n.value.end, txt + n.value.innerEnd - n.value.innerStart);
        var c: nat :| spans[1..][0].xmlStart <= c && HasAt(p, c, CLOSE);
        assert ClosesAfter(p, spans[0].xmlStart);
      }
    }
  }

  lemma NodeEnds(p: string, i: nat)
    requires NodeAt(p, i).Some?
    ensures var n := NodeAt(p, i).value;
      p[n.innerStart - 1] == '>' && (!n.selfClosing ==> HasAt(p, n.innerEnd, CLOSE) && n.end == n.innerEnd + 6)
  {
    hide FirstAt, HasAt;
  }

  /** The first `>` of a tag is found in any text that agrees up to it. */
  lemma {:induction false} FirstAgrees(p: string, w: string, i: nat, j: nat, x: nat)
    requires i + j < x <= |p| && x - i <= |w| && p[x - 1] == '>'
    requires forall k :: j <= k < x - i ==> w[k] == p[i + k]
    ensures IndexByte(p, i + j, '>').Some? && IndexByte(p, i + j, '>').value < x
    ensures IndexByte(w, j, '>') == Some(IndexByte(p, i + j, '>').value - i)
    decreases x - j
  {
    assert w[j] == p[i + j];
    if p[i + j] != '>' {
      FirstAgrees(p, w, i, j + 1, x);
    }
  }

  /** `w` agrees with the paragraph from `i` to the end `x` of the next start tag. */
  ghost predicate Agrees(p: string, w: string, i: nat, x: nat) {
    && i + 6 <= x <= |p| && x - i <= |w| && p[x - 1] == '>' && ClosesAfter(p, x)
    && (forall k :: 0 <= k < x - i ==> w[k] == p[i + k])
  }

  lemma OpenAgrees(p: string, w: string, i: nat, x: nat)
    requires Agrees(p, w, i, x)
    ensures HasAt(w, 0, OPEN) == HasAt(p, i, OPEN)
  {
    assert forall k :: 0 <= k < 4 ==> w[0..4][k] == w[k] == p[i + k] == p[i..i + 4][k];
    assert w[0..4] == p[i..i + 4];
  }

  /** Where no self-closed or opened node starts, none starts in the agreeing text either. */
  /** A start tag that is neither that of a run nor closed in itself. */
  predicate IsOddTag(i: nat, gt: nat, first: char, last: char) {
    && gt != i + 4 && !IsSpace(first)
    && (gt == i + 5 ==> last != '/')
  }

  lemma NoNodeTag(p: string, i: nat, x: nat)
    requires NodeAt(p, i).None? && HasAt(p, i, OPEN) && ClosesAfter(p, x)
    requires IndexByte(p, i + 4, '>').Some? && IndexByte(p, i + 4, '>').value < x
    ensures var gt := IndexByte(p, i + 4, '>').value; IsOddTag(i, gt, p[i + 4], p[gt - 1])
  {
    NodeParts(p, i);
    var gt := IndexByte(p, i + 4, '>').value;
    var c: nat :| x <= c && HasAt(p, c, CLOSE);
    FirstAtFinds(p, gt + 1, CLOSE, c);
    hide NodeAt, FirstAt, HasAt, IndexByte;
  }

  lemma OddTagIsNoNode(w: string, i: nat)
    requires IndexByte(w, 4, '>').Some?
    requires var gt := IndexByte(w, 4, '>').value; IsOddTag(i, i + gt, w[4], w[gt - 1])
    ensures NodeAt(w, 0).None?
  {
    hide NodeAt, FirstAt, HasAt, IndexByte;
    NodeParts(w, 0);
  }

  lemma NoNodeAgrees(p: string, w: string, i: nat, x: nat)
    requires Agrees(p, w, i, x) && NodeAt(p, i).None?
    ensures NodeAt(w, 0).None?
  {
    OpenAgrees(p, w, i, x);
    if HasAt(p, i, OPEN) {
      FirstAgrees(p, w, i, 4, x);
      var gt := IndexByte(p, i + 4, '>').value;
      assert ClosesAfter(p, x) && w[4] == p[i + 4] && w[gt - i - 1] == p[gt - 1];
      hide NodeAt, Agrees, IndexByte, ClosesAfter, HasAt;
      NoNodeTag(p, i, x);
      OddTagIsNoNode(w, i);
    } else {
      hide Agrees, IndexByte;
    }
  }

  /** A node that is self-closing although a closing tag follows has no attributes. */
  /** When a closing tag follows later on, a node that closes itself is just its six bytes. */
  lemma SelfClosingTag(p: string, i: nat, x: nat)
    requires NodeAt(p, i).Some? && NodeAt(p, i).value.selfClosing && ClosesAfter(p, x)
    requires IndexByte(p, i + 4, '>').Some? && IndexByte(p, i + 4, '>').value < x
    ensures IndexByte(p, i + 4, '>') == Some(i + 5) && p[i + 4] == '/' && HasAt(p, i, OPEN)
    ensures NodeAt(p, i).value.end == i + 6
  {
    NodeParts(p, i);
    var gt := IndexByte(p, i + 4, '>').value;
    var c: nat :| x <= c && HasAt(p, c, CLOSE);
    FirstAtFinds(p, gt + 1, CLOSE, c);
    hide NodeAt, FirstAt, HasAt, IndexByte;
  }

  lemma SlashCloses(w: string)
    requires HasAt(w, 0, OPEN) && IndexByte(w, 4, '>') == Some(5) && w[4] == '/'
    ensures NodeAt(w, 0) == Some(Node(6, 6, 6, true))
  {
    NodeParts(w, 0);
    hide NodeAt, FirstAt, HasAt, IndexByte;
  }

  lemma SelfClosingAgrees(p: string, w: string, i: nat, x: nat)
    requires Agrees(p, w, i, x) && NodeAt(p, i).Some? && NodeAt(p, i).value.selfClosing
    ensures NodeAt(p, i).value.end == i + 6
    ensures NodeAt(w, 0) == Some(Node(6, 6, 6, true))
  {
    OpenAgrees(p, w, i, x);
    FirstAgrees(p, w, i, 4, x);
    assert ClosesAfter(p, x) && w[4] == p[i + 4];
    hide NodeAt, Agrees, IndexByte, ClosesAfter, HasAt;
    SelfClosingTag(p, i, x);
    SlashCloses(w);
  }

  lemma StartTagOf(p: string, i: nat)
    requires NodeAt(p, i).Some? && !NodeAt(p, i).value.selfClosing
    ensures IsStartTag(p[i..NodeAt(p, i).value.innerStart])
  {
    var gt := IndexByte(p, i + 4, '>').value;
    var tag := p[i..gt + 1];
    assert tag[0..4] == p[i..i + 4];
    IndexByteIsFirst(p, i + 4, '>');
    hide FirstAt;
    IndexByteIs(tag, 4, '>', gt - i);
  }

  ghost predicate ReadableRuns(spans: seq<Span>, inner: seq<string>) {
    && |spans| == |inner|
    && (forall k :: 0 <= k < |spans| ==> OnlyBreaks(inner[k]))
    && (forall k :: 0 <= k < |spans| && spans[k].selfClosing ==> inner[k] == "" && spans[k].xmlStart == spans[k].xmlEnd)
  }

  lemma ReadableTail(spans: seq<Span>, inner: seq<string>)
    requires ReadableRuns(spans, inner) && spans != []
    ensures OnlyBreaks(inner[0]) && (spans[0].selfClosing ==> inner[0] == "")
    ensures ReadableRuns(spans[1..], inner[1..])
  {
    hide OnlyBreaks;
  }

  lemma {:induction false} SelfClosingWeave(p: string, spans: seq<Span>, inner: seq<string>, prev: nat)
    requires prev <= |p| && InXmlOrder(p, spans, prev) && ReadableRuns(spans, inner) && AllSelfClosing(spans)
    ensures Weave(p, spans, inner, prev) == p[prev..] && StripAll(inner) == ""
  {
    hide OnlyBreaks;
    if spans != [] {
      InXmlOrderTail(p, spans, prev);
      ReadableTail(spans, inner);
      AllSelfClosingTail(spans);
      SelfClosingWeave(p, spans[1..], inner[1..], spans[0].xmlEnd);
      Rejoin(p, prev, spans[0].xmlStart, spans[0].xmlEnd);
    }
  }

  lemma SpansInXmlOrder(p: string, i: nat, txt: nat)
    requires i <= |p|
    ensures InXmlOrder(p, SpansFrom(p, i, txt), i)
  {
    var text := seq(txt, _ => ' ') + TextFrom(p, i);
    assert text[txt..] == TextFrom(p, i);
    SpansTile(p, i, text, txt);
    TilesInXmlOrder(p, text, SpansFrom(p, i, txt), i, txt);
  }

  lemma WeaveStart(p: string, spans: seq<Span>, inner: seq<string>, i: nat)
    requires |spans| == |inner| && spans != [] && i <= |p| && InXmlOrder(p, spans, i)
    requires i + 6 <= spans[0].xmlStart && p[spans[0].xmlStart - 1] == '>' && ClosesAfter(p, spans[0].xmlStart)
    ensures Agrees(p, Weave(p, spans, inner, i), i, spans[0].xmlStart)
  {
    InXmlOrderTail(p, spans, i);
    var x := spans[0].xmlStart;
    var rest := inner[0] + Weave(p, spans[1..], inner[1..], spans[0].xmlEnd);
    assert Weave(p, spans, inner, i) == p[i..x] + rest;
  }

  /** Bytes between the nodes read as nothing. */
  lemma WeaveReadsByte(p: string, spans: seq<Span>, inner: seq<string>, i: nat)
    requires |spans| == |inner| && spans != [] && i < |p| && InXmlOrder(p, spans, i) && InXmlOrder(p, spans, i + 1)
    requires i + 6 <= spans[0].xmlStart && p[spans[0].xmlStart - 1] == '>' && ClosesAfter(p, spans[0].xmlStart)
    requires NodeAt(p, i).None?
    ensures Text(Weave(p, spans, inner, i)) == Text(Weave(p, spans, inner, i + 1))
  {
    WeaveStart(p, spans, inner, i);
    hide InXmlOrder, Agrees, NodeAt, Weave;
    NoNodeAgrees(p, Weave(p, spans, inner, i), i, spans[0].xmlStart);
    WeaveAdvance(p, spans, inner, i, i + 1);
    assert p[i..i + 1] == [p[i]];
    ReadFirst(p[i], Weave(p, spans, inner, i + 1));
  }

  /** A self-closing node reads as nothing. */
  lemma WeaveReadsSelfClosing(p: string, spans: seq<Span>, inner: seq<string>, i: nat)
    requires |spans| == |inner| && spans != [] && i < |p| && InXmlOrder(p, spans, i)
    requires NodeAt(p, i).Some? && NodeAt(p, i).value.selfClosing && inner[0] == ""
    requires spans[0].xmlStart == spans[0].xmlEnd == NodeAt(p, i).value.end
    requires p[spans[0].xmlStart - 1] == '>' && ClosesAfter(p, spans[0].xmlStart)
    ensures InXmlOrder(p, spans[1..], spans[0].xmlEnd)
    ensures Text(Weave(p, spans, inner, i)) == Text(Weave(p, spans[1..], inner[1..], spans[0].xmlEnd))
  {
    var w, x := Weave(p, spans, inner, i), spans[0].xmlStart;
    WeaveStart(p, spans, inner, i);
    InXmlOrderTail(p, spans, i);
    SelfClosingAgrees(p, w, i, x);
    hide InXmlOrder, Agrees, NodeAt;
    assert w[6..] == Weave(p, spans[1..], inner[1..], x);
    TextStep(w, 0);
    TextDrop(w, 6, 0);
  }

  lemma ReadWholeRun(tag: string, q: string, rest: string)
    requires IsStartTag(tag) && OnlyBreaks(q)
    ensures Text(tag + q + (CLOSE + rest)) == StripBreaks(q) + Text(rest)
  {
    hide IsStartTag, OnlyBreaks, TextFrom, StripBreaks;
    assert tag + q + (CLOSE + rest) == tag + (("" + q) + CLOSE + rest);
    ReadLines(tag, "", q, rest);
    assert "" + StripBreaks(q) == StripBreaks(q);
  }

  /** A text node reads as its new inner text. */
  lemma WeaveReadsRun(p: string, spans: seq<Span>, inner: seq<string>, i: nat)
    requires |spans| == |inner| && spans != [] && i < |p| && InXmlOrder(p, spans, i) && OnlyBreaks(inner[0])
    requires NodeAt(p, i).Some? && !NodeAt(p, i).value.selfClosing
    requires spans[0].xmlStart == NodeAt(p, i).value.innerStart && spans[0].xmlEnd == NodeAt(p, i).value.innerEnd
    requires InXmlOrder(p, spans[1..], NodeAt(p, i).value.end)
    ensures Text(Weave(p, spans, inner, i)) ==
      StripBreaks(inner[0]) + Text(Weave(p, spans[1..], inner[1..], NodeAt(p, i).value.end))
  {
    var n := NodeAt(p, i).value;
    NodeEnds(p, i);
    StartTagOf(p, i);
    InXmlOrderTail(p, spans, i);
    hide NodeAt, OnlyBreaks, IsStartTag, InXmlOrder, TextFrom;
    WeaveAdvance(p, spans[1..], inner[1..], n.innerEnd, n.end);
    var tag, rest := p[i..n.innerStart], Weave(p, spans[1..], inner[1..], n.end);
    assert p[n.innerEnd..n.end] == CLOSE;
    assert Weave(p, spans, inner, i) == tag + inner[0] + Weave(p, spans[1..], inner[1..], n.innerEnd);
    hide Weave;
    ReadWholeRun(tag, inner[0], rest);
  }

  lemma SelfClosingReads(p: string, i: nat, txt: nat, inner: seq<string>)
    requires i <= |p| && ReadableRuns(SpansFrom(p, i, txt), inner) && AllSelfClosing(SpansFrom(p, i, txt))
    requires InXmlOrder(p, SpansFrom(p, i, txt), i)
    ensures |SpansFrom(p, i, txt)| == |inner|
    ensures Text(Weave(p, SpansFrom(p, i, txt), inner, i)) == StripAll(inner)
  {
    hide SpansFrom, NodeAt, Weave, TextFrom;
    SelfClosingWeave(p, SpansFrom(p, i, txt), inner, i);
    OnlySelfClosing(p, i, txt);
    TextDrop(p, i, 0);
  }

  /** What the first text node of a stretch with a closing tag looks like. */
  lemma FirstRun(p: string, i: nat, txt: nat, spans: seq<Span>, inner: seq<string>)
    requires i <= |p| && spans == SpansFrom(p, i, txt) && ReadableRuns(spans, inner) && !AllSelfClosing(spans)
    ensures |spans| == |inner| && spans != [] && i < |p| && OnlyBreaks(inner[0])
    ensures i + 5 <= spans[0].xmlStart <= |p| && p[spans[0].xmlStart - 1] == '>' && ClosesAfter(p, spans[0].xmlStart)
    ensures NodeAt(p, i).None? ==> i + 6 <= spans[0].xmlStart && spans == SpansFrom(p, i + 1, txt)
    ensures NodeAt(p, i).Some? ==>
      var n := NodeAt(p, i).value;
      && i < n.innerStart <= n.innerEnd <= n.end <= |p|
      && spans[0].xmlStart == n.innerStart && spans[0].xmlEnd == n.innerEnd
      && (n.selfClosing ==> n.innerStart == n.innerEnd == n.end && inner[0] == "")
      && spans[1..] == SpansFrom(p, n.end, txt + n.innerEnd - n.innerStart) && ReadableRuns(spans[1..], inner[1..])
  {
    NoneIsAllSelfClosing();
    FirstSpan(p, i, txt);
    SpansStep(p, i, txt);
    ReadableTail(spans, inner);
    if NodeAt(p, i).Some? { NodeBounds(p, i); }
    hide SpansFrom, NodeAt, OnlyBreaks, ClosesAfter, AllSelfClosing;
  }

  lemma WeaveReadsNode(p: string, i: nat, txt: nat, spans: seq<Span>, inner: seq<string>)
    requires i <= |p| && spans == SpansFrom(p, i, txt) && ReadableRuns(spans, inner) && !AllSelfClosing(spans)
    requires NodeAt(p, i).Some? && |spans| == |inner| && spans != [] && InXmlOrder(p, spans, i)
    requires NodeAt(p, i).value.end <= |p| && InXmlOrder(p, spans[1..], NodeAt(p, i).value.end)
    requires Text(Weave(p, spans[1..], inner[1..], NodeAt(p, i).value.end)) == StripAll(inner[1..])
    ensures Text(Weave(p, spans, inner, i)) == StripAll(inner)
  {
    hide *;
    FirstRun(p, i, txt, spans, inner);
    StripAllStep(inner);
    if NodeAt(p, i).value.selfClosing {
      WeaveReadsSelfClosing(p, spans, inner, i);
    } else {
      WeaveReadsRun(p, spans, inner, i);
    }
  }

  /** A paragraph with new inner texts reads as those texts one after the other. */
  lemma {:induction false} WeaveReads(p: string, i: nat, txt: nat, spans: seq<Span>, inner: seq<string>)
    requires i <= |p| && spans == SpansFrom(p, i, txt) && ReadableRuns(spans, inner)
    ensures |spans| == |inner| && InXmlOrder(p, spans, i)
    ensures Text(Weave(p, spans, inner, i)) == StripAll(inner)
    decreases |p| - i
  {
    hide *;
    SpansInXmlOrder(p, i, txt);
    if AllSelfClosing(spans) {
      SelfClosingReads(p, i, txt, inner);
    } else {
      FirstRun(p, i, txt, spans, inner);
      if NodeAt(p, i).None? {
        SpansInXmlOrder(p, i + 1, txt);
        WeaveReads(p, i + 1, txt, spans, inner);
        WeaveReadsByte(p, spans, inner, i);
      } else {
        var n := NodeAt(p, i).value;
        WeaveReads(p, n.end, txt + n.innerEnd - n.innerStart, spans[1..], inner[1..]);
        WeaveReadsNode(p, i, txt, spans, inner);
      }
    }
  }

  lemma NodeBounds(p: string, i: nat)
    requires NodeAt(p, i).Some?
    ensures var n := NodeAt(p, i).value;
      i < n.innerStart <= n.innerEnd <= n.end <= |p| && (n.selfClosing ==> n.innerStart == n.innerEnd == n.end)
  {
  }

  lemma StripAllStep(inner: seq<string>)
    requires inner != []
    ensures StripAll(inner) == StripBreaks(inner[0]) + StripAll(inner[1..])
    ensures inner[0] == "" ==> StripAll(inner) == StripAll(inner[1..])
  {
  }

  // ------------------------------------------------------------ the new inner texts

  lemma {:induction false} BreaksConcat(a: string, b: string)
    requires OnlyBreaks(a) && OnlyBreaks(b)
    ensures OnlyBreaks(a + b) && StripBreaks(a + b) == StripBreaks(a) + StripBreaks(b)
    decreases |a|
  {
    if a == "" {
      assert a + b == b;
    } else {
      BreakInPrefix(a, b);
      var n := if HasAt(a, 0, LINE_BREAK) then |LINE_BREAK| else 1;
      assert (a + b)[n..] == a[n..] + b;
      BreaksConcat(a[n..], b);
    }
  }

  lemma BreakInPrefix(a: string, b: string)
    requires a != "" && OnlyBreaks(a)
    ensures HasAt(a + b, 0, LINE_BREAK) == HasAt(a, 0, LINE_BREAK)
  {
    if HasAt(a, 0, LINE_BREAK) {
      assert (a + b)[0..|LINE_BREAK|] == a[0..|LINE_BREAK|];
    } else if |LINE_BREAK| <= |a + b| {
      assert LINE_BREAK[0] == '<' && (a + b)[0..|LINE_BREAK|][0] == a[0] != '<';
    }
  }

  lemma NoMarkup(c: char)
    requires c != '<'
    ensures OnlyBreaks([c]) && StripBreaks([c]) == [c]
  {
    assert [c][1..] == "";
  }

  lemma MarkupStarts(s: string)
    requires HasAt(s, 0, LINE_BREAK)
    ensures s[0] == '<'
  {
    assert s[0..|LINE_BREAK|][0] == s[0];
  }

  lemma {:induction false} PlainHasNoBreaks(s: string)
    requires '<' !in s
    ensures OnlyBreaks(s) && StripBreaks(s) == s
  {
    if s != "" {
      PlainHasNoBreaks(s[1..]);
      if HasAt(s, 0, LINE_BREAK) { MarkupStarts(s); }
    }
  }

  lemma EscapedCharBreaks(c: char)
    ensures OnlyBreaks(EscapeChar(c)) && StripBreaks(EscapeChar(c)) == if c == '\n' then "" else EscapeChar(c)
  {
    if c == '\n' {
      assert LINE_BREAK[0..|LINE_BREAK|] == LINE_BREAK && LINE_BREAK[|LINE_BREAK|..] == "";
    } else {
      PlainHasNoBreaks(EscapeChar(c));
    }
  }

  lemma {:induction false} EscapedBreaks(v: string)
    ensures OnlyBreaks(Escape(v))
  {
    hide OnlyBreaks, EscapeChar;
    if v == "" {
      PlainHasNoBreaks("");
    } else {
      EscapedCharBreaks(v[0]);
      EscapedBreaks(v[1..]);
      BreaksConcat(EscapeChar(v[0]), Escape(v[1..]));
    }
  }

  function WithoutNewlines(v: string): string {
    if v == "" then "" else (if v[0] == '\n' then "" else [v[0]]) + WithoutNewlines(v[1..])
  }

  lemma StripEscapeStep(c: char, rest: string)
    requires OnlyBreaks(rest)
    ensures StripBreaks(EscapeChar(c) + rest) == (if c == '\n' then "" else EscapeChar(c)) + StripBreaks(rest)
  {
    EscapedCharBreaks(c);
    hide *;
    BreaksConcat(EscapeChar(c), rest);
  }

  lemma {:induction false} StrippedEscape(v: string)
    ensures StripBreaks(Escape(v)) == Escape(WithoutNewlines(v))
    ensures '\n' !in WithoutNewlines(v) && DropControls(WithoutNewlines(v)) == DropControls(v)
  {
    if v != "" {
      StrippedEscape(v[1..]);
      EscapedBreaks(v[1..]);
      StripEscapeStep(v[0], Escape(v[1..]));
      hide EscapeChar, OnlyBreaks, StripBreaks;
      if v[0] != '\n' {
        assert WithoutNewlines(v)[1..] == WithoutNewlines(v[1..]);
      } else {
        assert WithoutNewlines(v) == WithoutNewlines(v[1..]);
      }
    }
  }

  /** Every value, newlines and all, reads back as itself up to dropped control characters. */
  lemma ValueReadsBack(v: string)
    ensures Unescape(StripBreaks(Escape(v))) == DropControls(v)
  {
    StrippedEscape(v);
    UnescapeUndoesEscape(WithoutNewlines(v));
  }

  lemma {:induction false} RenderedBreaks(text: string, edits: seq<Edit>, lo: nat, hi: nat)
    requires lo <= hi <= |text| && '<' !in text
    requires forall k :: 0 <= k < |edits| ==> OnlyBreaks(edits[k].value)
    ensures OnlyBreaks(Render(text, edits, lo, hi))
    decreases hi - lo
  {
    hide OnlyBreaks;
    if lo == hi {
      PlainHasNoBreaks("");
    } else {
      OutBreaks(text, edits, lo);
      RenderedBreaks(text, edits, lo + 1, hi);
      BreaksConcat(OutAt(text, edits, lo), Render(text, edits, lo + 1, hi));
    }
  }

  lemma {:induction false} OutBreaks(text: string, edits: seq<Edit>, j: nat)
    requires j < |text| && '<' !in text
    requires forall k :: 0 <= k < |edits| ==> OnlyBreaks(edits[k].value)
    ensures OnlyBreaks(OutAt(text, edits, j))
  {
    hide OnlyBreaks;
    NoMarkup(text[j]);
    PlainHasNoBreaks("");
    if edits != [] {
      OutBreaks(text, edits[1..], j);
    }
  }

  lemma {:induction false} EditValuesBreak(s: string, ms: seq<Match>, values: Values, at: seq<nat>, length: nat)
    requires InBounds(s, ms)
    ensures forall k :: 0 <= k < |EditsOf(s, ms, values, at, length)| ==>
      OnlyBreaks(EditsOf(s, ms, values, at, length)[k].value)
  {
    hide OnlyBreaks;
    if ms != [] {
      EditValuesBreak(s, ms[1..], values, at, length);
      if Key(s, ms[0]) in values {
        EscapedBreaks(values[Key(s, ms[0])]);
      }
    }
  }

  lemma RunsAreReadable(p: string, values: Values)
    requires '<' !in Text(p)
    ensures ReadableRuns(Spans(p), NewInnerOf(p, values))
  {
    var text, edits, spans := Text(p), MappedEdits(Text(p), values), Spans(p);
    SpansTile(p, 0, text, 0);
    TilesInXmlOrder(p, text, spans, 0, 0);
    MatchesAreOrdered(Unescape(text), 0);
    EditValuesBreak(Unescape(text), Matches(Unescape(text)), values, ScanFrom(text, 0), |text|);
    SelfClosingStaysEmpty(p, values);
    hide OnlyBreaks, Tiles;
    forall k | 0 <= k < |spans| ensures OnlyBreaks(NewInnerOf(p, values)[k]) {
      RenderedBreaks(text, edits, spans[k].txtStart, spans[k].txtEnd);
    }
  }

  lemma {:induction false} StripDistributes(inner: seq<string>)
    requires forall k :: 0 <= k < |inner| ==> OnlyBreaks(inner[k])
    ensures OnlyBreaks(Concat(inner)) && StripAll(inner) == StripBreaks(Concat(inner))
  {
    hide OnlyBreaks;
    if inner == [] {
      PlainHasNoBreaks("");
    } else {
      StripDistributes(inner[1..]);
      BreaksConcat(inner[0], Concat(inner[1..]));
    }
  }

  /** A filled paragraph reads as its new inner texts, clean or not. */
  lemma FilledReadsAsRuns(p: string, values: Values)
    requires '<' !in Text(p)
    ensures Text(Filled(p, values)) == StripBreaks(Concat(NewInnerOf(p, values)))
  {
    RunsAreReadable(p, values);
    hide OnlyBreaks, TextFrom, Weave, NewInnerOf;
    WeaveReads(p, 0, 0, Spans(p), NewInnerOf(p, values));
    StripDistributes(NewInnerOf(p, values));
  }

  /**
   * Round trip: reading the filled paragraph gives the text of the paragraph with
   * every known placeholder replaced once, whatever runs the text was split into.
   */
  lemma FilledReadsAsSubstitution(p: string, values: Values)
    requires '<' !in Text(p)
    requires CleanBetween(Text(p), 0, LastEnd(DirectEdits(Text(p), values)))
    ensures Text(Filled(p, values)) == StripBreaks(Substitute(Text(p), values))
  {
    hide *;
    FilledReadsAsRuns(p, values);
    FilledTextIsSubstitution(p, values);
  }

  /** Every text without markup is the text of some paragraph. */
  lemma AnyTextHasAParagraph(text: string)
    requires '<' !in text
    ensures Text("<w:t>" + text + "</w:t>") == text
  {
    var tag := "<w:t>";
    assert IsStartTag(tag);
    PlainHasNoBreaks(text);
    assert TextFrom("", 0) == "";
    assert tag + text + (CLOSE + "") == "<w:t>" + text + "</w:t>";
    hide *;
    ReadWholeRun(tag, text, "");
  }
}
