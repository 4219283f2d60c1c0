// paragraphText of internal/docxt/docxt.go: the <w:t> nodes of a paragraph and
// the concatenation of their text.
module Paragraph {
  import opened Prelude
  import opened Placeholder

  /** textSpan: where a node's text stands in the XML and in the concatenated text. */
  datatype Span = Span(xmlStart: nat, xmlEnd: nat, txtStart: nat, txtEnd: nat, selfClosing: bool)

  /** One match of the <w:t> expression: the range of its inner text, and its end. */
  datatype Node = Node(innerStart: nat, innerEnd: nat, end: nat, selfClosing: bool)

  const OPEN := "<w:t"
  const CLOSE := "</w:t>"

  /**
   * The regular expression at index `i`. Its first alternative is a start tag up
   * to the first `>`, then everything to the first `</w:t>`; its second one is a
   * self-closing tag. A self-closing tag with attributes satisfies the first
   * alternative whenever some `</w:t>` follows it.
   */
  function NodeAt(p: string, i: nat): (r: Option<Node>)
    ensures r.Some? ==> i + 5 <= r.value.innerStart <= r.value.innerEnd <= r.value.end <= |p|
    ensures r.Some? && r.value.selfClosing ==> i + 6 <= r.value.innerStart == r.value.innerEnd == r.value.end
    ensures r.Some? ==> HasAt(p, i, OPEN)
  {
    if !HasAt(p, i, OPEN) then None else
    var tag := IndexByte(p, i + 4, '>');
    if tag.None? then None else
    Classify(i, tag.value, p[i + 4], p[tag.value - 1], FirstAt(p, tag.value + 1, CLOSE))
  }

  /** Which alternative matches a tag that ends at `gt`, given the byte after its name and the byte before `gt`. */
  function Classify(i: nat, gt: nat, first: char, last: char, close: Option<nat>): Option<Node> {
    if (gt == i + 4 || IsSpace(first)) && close.Some? then
      Some(Node(gt + 1, close.value, close.value + 6, false))
    else if (gt == i + 5 || (gt > i + 5 && IsSpace(first))) && last == '/' then
      Some(Node(gt + 1, gt + 1, gt + 1, true))
    else None
  }

  /** `p[i..end]` is a start tag: `<w:t`, then nothing or white space and attributes, then its first `>`. */
  ghost predicate IsTag(p: string, i: nat, end: nat) {
    && i + 5 <= end <= |p| && p[i..i + 4] == "<w:t" && p[end - 1] == '>'
    && (forall k :: i + 4 <= k < end - 1 ==> p[k] != '>')
    && (end == i + 5 || p[i + 4] in {' ', '\t', '\n', '\r', '\U{000C}'})
  }

  /** The first alternative of the expression: a start tag and everything to the first closing tag after it. */
  ghost predicate IsRun(p: string, i: nat, n: Node) {
    && IsTag(p, i, n.innerStart) && !n.selfClosing
    && n.innerStart <= n.innerEnd && n.end == n.innerEnd + 6 <= |p| && p[n.innerEnd..n.end] == "</w:t>"
    && forall a, b :: n.innerStart <= a && b == a + 6 < n.end ==> p[a..b] != "</w:t>"
  }

  /** The second alternative: `<w:t`, nothing or white space and attributes, then `/>`. */
  ghost predicate IsEmptyRun(p: string, i: nat, n: Node) {
    && i + 6 <= n.end <= |p| && p[i..i + 4] == "<w:t" && p[n.end - 2] == '/' && p[n.end - 1] == '>'
    && (forall k :: i + 4 <= k < n.end - 1 ==> p[k] != '>')
    && (n.end == i + 6 || p[i + 4] in {' ', '\t', '\n', '\r', '\U{000C}'})
    && n.innerStart == n.innerEnd == n.end && n.selfClosing
  }

  lemma {:induction false} FirstCloseIs(p: string, i: nat, k: nat)
    ensures FirstAt(p, i, CLOSE) == Some(k) <==>
      && i <= k && k + 6 <= |p| && p[k..k + 6] == "</w:t>"
      && forall a, b :: i <= a < k && b == a + 6 ==> p[a..b] != "</w:t>"
    decreases |p| - i
  {
    if i + 6 <= |p| && !HasAt(p, i, CLOSE) {
      FirstCloseIs(p, i + 1, k);
    }
  }

  lemma TagEnds(p: string, i: nat, gt: nat)
    ensures IndexByte(p, i, '>') == Some(gt) <==>
      i <= gt < |p| && p[gt] == '>' && forall k :: i <= k < gt ==> p[k] != '>'
  {
    IndexByteIsFirst(p, i, '>');
    if i <= gt < |p| && p[gt] == '>' && forall k :: i <= k < gt ==> p[k] != '>' { IndexByteIs(p, i, '>', gt); }
  }

  lemma NodeParts(s: string, i: nat)
    ensures var tag := IndexByte(s, i + 4, '>');
      NodeAt(s, i) ==
        if !HasAt(s, i, OPEN) || tag.None? then None
        else Classify(i, tag.value, s[i + 4], s[tag.value - 1], FirstAt(s, tag.value + 1, CLOSE))
  {
  }

  lemma RunIsFound(p: string, i: nat, n: Node)
    requires IsRun(p, i, n)
    ensures NodeAt(p, i) == Some(n)
  {
    hide NodeAt, FirstAt, IndexByte;
    NodeParts(p, i);
    TagEnds(p, i + 4, n.innerStart - 1);
    FirstCloseIs(p, n.innerStart, n.innerEnd);
  }

  lemma EmptyRunIsFound(p: string, i: nat, n: Node)
    requires IsEmptyRun(p, i, n) && NodeAt(p, i) != Some(n)
    ensures exists m :: IsRun(p, i, m)
  {
    hide NodeAt, FirstAt, IndexByte;
    NodeParts(p, i);
    TagEnds(p, i + 4, n.end - 1);
    var close := FirstAt(p, n.end, CLOSE);
    if close.Some? {
      FirstCloseIs(p, n.end, close.value);
      assert IsRun(p, i, Node(n.end, close.value, close.value + 6, false));
    }
  }

  lemma FoundIsRun(p: string, i: nat)
    requires NodeAt(p, i).Some?
    ensures IsRun(p, i, NodeAt(p, i).value) || IsEmptyRun(p, i, NodeAt(p, i).value)
  {
    hide NodeAt, Classify, FirstAt, IndexByte, IsRun, IsEmptyRun;
    NodeParts(p, i);
    var gt := IndexByte(p, i + 4, '>').value;
    TagEnds(p, i + 4, gt);
    var close := FirstAt(p, gt + 1, CLOSE);
    var n := NodeAt(p, i).value;
    assert p[i..i + 4] == "<w:t";
    hide *;
    if close.Some? { FirstCloseIs(p, gt + 1, close.value); }
    if n.selfClosing { EmptyFromTag(p, i, gt, close, n); } else { RunFromTag(p, i, gt, close, n); }
  }

  lemma RunFromTag(p: string, i: nat, gt: nat, close: Option<nat>, n: Node)
    requires i + 4 <= gt < |p| && p[i..i + 4] == "<w:t" && p[gt] == '>' && forall k :: i + 4 <= k < gt ==> p[k] != '>'
    requires Classify(i, gt, p[i + 4], p[gt - 1], close) == Some(n) && !n.selfClosing
    requires close.Some? ==>
      && gt + 1 <= close.value && close.value + 6 <= |p| && p[close.value..close.value + 6] == "</w:t>"
      && forall a, b :: gt + 1 <= a < close.value && b == a + 6 ==> p[a..b] != "</w:t>"
    ensures IsRun(p, i, n)
  {
  }

  lemma EmptyFromTag(p: string, i: nat, gt: nat, close: Option<nat>, n: Node)
    requires i + 4 <= gt < |p| && p[i..i + 4] == "<w:t" && p[gt] == '>' && forall k :: i + 4 <= k < gt ==> p[k] != '>'
    requires Classify(i, gt, p[i + 4], p[gt - 1], close) == Some(n) && n.selfClosing
    ensures IsEmptyRun(p, i, n)
  {
  }

  /** The matcher finds exactly what the expression matches: its second alternative only where the first does not. */
  lemma NodeAtIsTheExpression(p: string, i: nat, n: Node)
    ensures NodeAt(p, i) == Some(n) <==> IsRun(p, i, n) || (IsEmptyRun(p, i, n) && forall m :: !IsRun(p, i, m))
  {
    hide *;
    if NodeAt(p, i) == Some(n) {
      FoundIsRun(p, i);
      if !IsRun(p, i, n) {
        forall m ensures !IsRun(p, i, m) {
          if IsRun(p, i, m) { RunIsFound(p, i, m); }
        }
      }
    } else if IsRun(p, i, n) {
      RunIsFound(p, i, n);
    } else if IsEmptyRun(p, i, n) {
      EmptyRunIsFound(p, i, n);
    }
  }

  /** textNodeRE.FindAllIndex from `i` on. */
  function LocationsFrom(p: string, i: nat): (r: seq<(nat, nat)>)
    ensures forall k :: 0 <= k < |r| ==>
      i <= r[k].0 && NodeAt(p, r[k].0).Some? && r[k].1 == NodeAt(p, r[k].0).value.end
    decreases |p| - i
  {
    if i >= |p| then [] else
    var n := NodeAt(p, i);
    if n.Some? then [(i, n.value.end)] + LocationsFrom(p, n.value.end) else LocationsFrom(p, i + 1)
  }

  /** A match that is not reported starts inside an earlier one that is. */
  lemma {:induction false} NoNodeIsMissed(p: string, i: nat, start: nat)
    requires i <= start && NodeAt(p, start).Some?
    ensures (start, NodeAt(p, start).value.end) in LocationsFrom(p, i) ||
      exists o :: o in LocationsFrom(p, i) && o.0 < start < o.1
    decreases |p| - i
  {
    hide NodeAt;
    var here, all := NodeAt(p, i), LocationsFrom(p, i);
    if here.Some? {
      assert all[0] == (i, here.value.end) && all[1..] == LocationsFrom(p, here.value.end);
      assert all[0] in all && forall o :: o in all[1..] ==> o in all;
      if here.value.end <= start {
        NoNodeIsMissed(p, here.value.end, start);
      }
    } else {
      NoNodeIsMissed(p, i + 1, start);
    }
  }

  /** The text a reader sees from index `i` of the XML on. */
  function TextFrom(p: string, i: nat): string
    decreases |p| - i
  {
    if i >= |p| then "" else
    var n := NodeAt(p, i);
    if n.Some? then p[n.value.innerStart..n.value.innerEnd] + TextFrom(p, n.value.end)
    else TextFrom(p, i + 1)
  }

  function SpansFrom(p: string, i: nat, txt: nat): seq<Span>
    decreases |p| - i
  {
    if i >= |p| then [] else
    var n := NodeAt(p, i);
    if n.None? then SpansFrom(p, i + 1, txt) else
    var width := n.value.innerEnd - n.value.innerStart;
    [Span(n.value.innerStart, n.value.innerEnd, txt, txt + width, n.value.selfClosing)]
      + SpansFrom(p, n.value.end, txt + width)
  }

  function Text(p: string): string {
    TextFrom(p, 0)
  }

  function Spans(p: string): seq<Span> {
    SpansFrom(p, 0, 0)
  }

  /** Where the text before span `k` ends. */
  function TxtBefore(spans: seq<Span>, k: nat, txt: nat): nat
    requires k <= |spans|
  {
    if k == 0 then txt else spans[k - 1].txtEnd
  }

  function XmlBefore(spans: seq<Span>, k: nat, xml: nat): nat
    requires k <= |spans|
  {
    if k == 0 then xml else spans[k - 1].xmlEnd
  }

  ghost predicate SpanHolds(p: string, text: string, s: Span) {
    && s.xmlStart <= s.xmlEnd <= |p| && s.txtStart <= s.txtEnd <= |text|
    && text[s.txtStart..s.txtEnd] == p[s.xmlStart..s.xmlEnd]
    && (s.selfClosing ==> s.txtStart == s.txtEnd && s.xmlStart == s.xmlEnd)
  }

  /** The spans tile the text from `txt` on, and their inner texts stand in order in the XML from `xml` on. */
  ghost predicate Tiles(p: string, text: string, spans: seq<Span>, xml: nat, txt: nat) {
    && (forall k :: 0 <= k < |spans| ==> SpanHolds(p, text, spans[k]))
    && (forall k :: 0 <= k < |spans| ==> spans[k].txtStart == TxtBefore(spans, k, txt))
    && (forall k :: 0 <= k < |spans| ==> XmlBefore(spans, k, xml) <= spans[k].xmlStart)
    && TxtBefore(spans, |spans|, txt) == |text|
  }

  lemma {:induction false} SpansTile(p: string, i: nat, text: string, txt: nat)
    requires i <= |p| && txt <= |text| && text[txt..] == TextFrom(p, i)
    ensures Tiles(p, text, SpansFrom(p, i, txt), i, txt)
    decreases |p| - i
  {
    hide NodeAt, SpanHolds;
    if i < |p| {
      hide Tiles;
      var node := NodeAt(p, i);
      if node.None? {
        SpansTile(p, i + 1, text, txt);
        TilesFromEarlier(p, text, SpansFrom(p, i + 1, txt), i, i + 1, txt);
      } else {
        var n := node.value;
        var width := n.innerEnd - n.innerStart;
        var head := Span(n.innerStart, n.innerEnd, txt, txt + width, n.selfClosing);
        PrefixAt(text, txt, p[n.innerStart..n.innerEnd], TextFrom(p, n.end));
        NodeHolds(p, text, i, head);
        SpansTile(p, n.end, text, txt + width);
        TilesCons(p, text, head, SpansFrom(p, n.end, txt + width), i, n.end);
      }
    }
  }

  lemma NodeHolds(p: string, text: string, i: nat, head: Span)
    requires NodeAt(p, i).Some? && head.txtStart <= head.txtEnd <= |text|
    requires head.xmlStart == NodeAt(p, i).value.innerStart && head.xmlEnd == NodeAt(p, i).value.innerEnd
    requires head.selfClosing == NodeAt(p, i).value.selfClosing
    requires text[head.txtStart..head.txtEnd] == p[head.xmlStart..head.xmlEnd]
    ensures SpanHolds(p, text, head)
  {
    hide NodeAt;
  }

  lemma PrefixAt(text: string, txt: nat, inner: string, rest: string)
    requires txt <= |text| && text[txt..] == inner + rest
    ensures txt + |inner| <= |text| && text[txt..txt + |inner|] == inner && text[txt + |inner|..] == rest
  {
    assert text[txt..txt + |inner|] == text[txt..][..|inner|];
    assert text[txt + |inner|..] == text[txt..][|inner|..];
  }

  lemma TilesFromEarlier(p: string, text: string, spans: seq<Span>, xml: nat, later: nat, txt: nat)
    requires xml <= later && Tiles(p, text, spans, later, txt)
    ensures Tiles(p, text, spans, xml, txt)
  {
    forall k | 0 <= k < |spans| ensures XmlBefore(spans, k, xml) <= spans[k].xmlStart {
      assert XmlBefore(spans, k, later) <= spans[k].xmlStart;
    }
  }

  lemma BeforeFirst(spans: seq<Span>, txt: nat, xml: nat)
    ensures TxtBefore(spans, 0, txt) == txt && XmlBefore(spans, 0, xml) == xml
  {
  }

  lemma BeforeEnd(head: Span, spans: seq<Span>)
    ensures TxtBefore([head] + spans, |spans| + 1, head.txtStart) == TxtBefore(spans, |spans|, head.txtEnd)
  {
  }

  lemma TilesCons(p: string, text: string, head: Span, spans: seq<Span>, xml: nat, later: nat)
    requires SpanHolds(p, text, head) && xml <= head.xmlStart <= head.xmlEnd <= later
    requires Tiles(p, text, spans, later, head.txtEnd)
    ensures Tiles(p, text, [head] + spans, xml, head.txtStart)
  {
    hide SpanHolds, XmlBefore, TxtBefore;
    var all := [head] + spans;
    forall k | 0 <= k < |all| ensures
      SpanHolds(p, text, all[k]) && all[k].txtStart == TxtBefore(all, k, head.txtStart) &&
      XmlBefore(all, k, xml) <= all[k].xmlStart
    {
      if k == 0 {
        BeforeFirst(all, head.txtStart, xml);
      } else {
        BeforeCons(head, spans, k - 1, xml, later);
        assert SpanHolds(p, text, spans[k - 1]);
      }
    }
    BeforeEnd(head, spans);
  }

  lemma BeforeCons(head: Span, spans: seq<Span>, k: nat, xml: nat, later: nat)
    requires k < |spans| && head.xmlEnd <= later
    ensures ([head] + spans)[k + 1] == spans[k]
    ensures TxtBefore([head] + spans, k + 1, head.txtStart) == TxtBefore(spans, k, head.txtEnd)
    ensures XmlBefore([head] + spans, k + 1, xml) <= XmlBefore(spans, k, later)
  {
  }

  lemma TilesTail(p: string, text: string, spans: seq<Span>, xml: nat, txt: nat)
    requires Tiles(p, text, spans, xml, txt) && spans != []
    ensures SpanHolds(p, text, spans[0]) && spans[0].txtStart == txt && xml <= spans[0].xmlStart
    ensures Tiles(p, text, spans[1..], spans[0].xmlEnd, spans[0].txtEnd)
  {
    hide SpanHolds;
    var rest := spans[1..];
    assert spans[0].txtStart == TxtBefore(spans, 0, txt) && XmlBefore(spans, 0, xml) <= spans[0].xmlStart;
    forall k | 0 <= k < |rest| ensures
      SpanHolds(p, text, rest[k]) && rest[k].txtStart == TxtBefore(rest, k, spans[0].txtEnd) &&
      XmlBefore(rest, k, spans[0].xmlEnd) <= rest[k].xmlStart
    {
      assert SpanHolds(p, text, spans[k + 1]) && spans[k + 1].txtStart == TxtBefore(spans, k + 1, txt) &&
        XmlBefore(spans, k + 1, xml) <= spans[k + 1].xmlStart;
    }
    assert TxtBefore(rest, |rest|, spans[0].txtEnd) == TxtBefore(spans, |spans|, txt);
  }

  /**
   * What bytes.HasSuffix, IndexByte and LastIndex find in the bytes of one match,
   * so the malformed-node guard of paragraphText never fires.
   */
  lemma NodeBytes(p: string, i: nat)
    requires NodeAt(p, i).Some?
    ensures var n := NodeAt(p, i).value;
      && HasAt(p, n.end - 2, "/>") == n.selfClosing
      && (!n.selfClosing ==>
            IndexByte(p, i, '>') == Some(n.innerStart - 1) && n.innerEnd + 6 == n.end && HasAt(p, n.innerEnd, CLOSE))
  {
    var n := NodeAt(p, i).value;
    var gt := IndexByte(p, i + 4, '>').value;
    if n.selfClosing {
      assert p[gt - 1..gt + 1] == "/>";
    } else {
      assert p[n.innerEnd..n.end][4] == p[n.innerEnd + 4] == 't';
      assert p[n.end - 2..n.end][0] == p[n.end - 2];
      assert p[i..i + 4] == OPEN;
      assert forall k :: i <= k < i + 4 ==> p[k] == p[i..i + 4][k - i] == OPEN[k - i] != '>';
      IndexByteIsFirst(p, i + 4, '>');
      IndexByteIs(p, i, '>', gt);
    }
  }

  /** The text and the spans go on with the first location. */
  lemma {:induction false} FirstLocation(p: string, i: nat, txt: nat)
    requires LocationsFrom(p, i) != []
    ensures var l := LocationsFrom(p, i)[0]; var n := NodeAt(p, l.0).value;
      && i <= l.0 < l.1 == n.end <= |p| && LocationsFrom(p, i)[1..] == LocationsFrom(p, n.end)
      && TextFrom(p, i) == p[n.innerStart..n.innerEnd] + TextFrom(p, n.end)
      && SpansFrom(p, i, txt) ==
           [Span(n.innerStart, n.innerEnd, txt, txt + n.innerEnd - n.innerStart, n.selfClosing)]
             + SpansFrom(p, n.end, txt + n.innerEnd - n.innerStart)
    decreases |p| - i
  {
    hide NodeAt;
    if NodeAt(p, i).None? {
      FirstLocation(p, i + 1, txt);
    }
  }

  lemma {:induction false} NoMoreNodes(p: string, i: nat, txt: nat)
    requires LocationsFrom(p, i) == []
    ensures TextFrom(p, i) == "" && SpansFrom(p, i, txt) == []
    decreases |p| - i
  {
    if i < |p| {
      NoMoreNodes(p, i + 1, txt);
    }
  }

  /** There is a span for every match, over its inner text, in the order of the matches. */
  lemma {:induction false} SpansAreTheNodes(p: string, i: nat, txt: nat, k: nat)
    ensures |SpansFrom(p, i, txt)| == |LocationsFrom(p, i)|
    ensures k < |LocationsFrom(p, i)| ==>
      var n := NodeAt(p, LocationsFrom(p, i)[k].0).value; var span := SpansFrom(p, i, txt)[k];
      span.xmlStart == n.innerStart && span.xmlEnd == n.innerEnd && span.selfClosing == n.selfClosing
    decreases |p| - i
  {
    hide NodeAt;
    if i < |p| {
      var n := NodeAt(p, i);
      if n.None? {
        SpansAreTheNodes(p, i + 1, txt, k);
      } else {
        SpansAreTheNodes(p, n.value.end, txt + n.value.innerEnd - n.value.innerStart, if k == 0 then 0 else k - 1);
      }
    }
  }

  /** The text and the span one match of the expression contributes. */
  method NodeText(p: string, start: nat, end: nat, txt: nat) returns (inner: string, span: Span)
    requires NodeAt(p, start).Some? && end == NodeAt(p, start).value.end
    ensures var n := NodeAt(p, start).value;
      && inner == p[n.innerStart..n.innerEnd]
      && span == Span(n.innerStart, n.innerEnd, txt, txt + |inner|, n.selfClosing)
  {
    NodeBytes(p, start);
    if HasAt(p, end - 2, "/>") {
      return "", Span(end, end, txt, txt, true);
    }
    var open := IndexByte(p, start, '>');
    var close := end - 6; // bytes.LastIndex: the match ends with </w:t>
    if open.None? || open.value + 1 > close { // the guard for a node without its two tags
      assert false;
    }
    inner := p[open.value + 1..close];
    span := Span(open.value + 1, close, txt, txt + |inner|, false);
  }

  method ParagraphText(p: string) returns (text: string, spans: seq<Span>)
    ensures text == Text(p) && spans == Spans(p)
    ensures Tiles(p, text, spans, 0, 0)
  {
    hide NodeAt, Tiles, TextFrom, SpansFrom, LocationsFrom;
    SpansTile(p, 0, Text(p), 0);
    var locs := LocationsFrom(p, 0);
    text, spans := "", [];
    ghost var at: nat := 0;
    for n := 0 to |locs|
      invariant at <= |p| && locs[n..] == LocationsFrom(p, at)
      invariant text + TextFrom(p, at) == Text(p)
      invariant spans + SpansFrom(p, at, |text|) == Spans(p)
    {
      var loc := locs[n];
      assert loc == locs[n..][0] && locs[n + 1..] == locs[n..][1..];
      FirstLocation(p, at, |text|);
      var inner, span := NodeText(p, loc.0, loc.1, |text|);
      text, spans := text + inner, spans + [span];
      at := loc.1;
    }
    NoMoreNodes(p, at, |text|);
  }
}
