// The XML escaping layer of internal/docxt/docxt.go: the unescaper, the escaper
// and the table that maps offsets in the unescaped text to the escaped one.
module XmlText {
  import opened Prelude

  datatype Reference = Reference(symbol: char, width: nat)

  /** The predefined entity (section 4.6 of XML 1.0) that starts at `i`, if any. */
  function EntityAt(s: string, i: nat): Option<Reference> {
    if HasAt(s, i, "&lt;") then Some(Reference('<', 4))
    else if HasAt(s, i, "&gt;") then Some(Reference('>', 4))
    else if HasAt(s, i, "&quot;") then Some(Reference('\"', 6))
    else if HasAt(s, i, "&apos;") then Some(Reference('\'', 6))
    else if HasAt(s, i, "&amp;") then Some(Reference('&', 5))
    else None
  }

  /** Where the unescaper reads its next symbol after the one at `i`. */
  function Next(s: string, i: nat): (j: nat)
    requires i < |s|
    ensures i < j <= |s|
  {
    var e := EntityAt(s, i);
    if e.Some? then i + e.value.width else i + 1
  }

  function SymbolAt(s: string, i: nat): char
    requires i < |s|
  {
    var e := EntityAt(s, i);
    if e.Some? then e.value.symbol else s[i]
  }

  /** strings.Replacer applied to the text from `i` on. */
  function UnescapeFrom(s: string, i: nat): string
    requires i <= |s|
    decreases |s| - i
  {
    if i == |s| then "" else [SymbolAt(s, i)] + UnescapeFrom(s, Next(s, i))
  }

  function Unescape(s: string): string {
    UnescapeFrom(s, 0)
  }

  /** The index in the escaped text of every symbol of the unescaped text, and its end. */
  function OffsetsFrom(s: string, i: nat): (r: seq<nat>)
    requires i <= |s|
    ensures |r| == |UnescapeFrom(s, i)| + 1 && r[0] == i
    decreases |s| - i
  {
    if i == |s| then [i] else [i] + OffsetsFrom(s, Next(s, i))
  }

  // ------------------------------------------------------------ escapedOffsets

  /** escapedOffsets takes any `&` closed by a `;` at most six bytes later for one symbol. */
  function ShortReferenceEnd(s: string, i: nat): Option<nat>
    requires i < |s|
  {
    if s[i] != '&' then None else
    var semi := IndexByte(s, i, ';');
    if semi.Some? && 0 < semi.value - i <= 6 then Some(semi.value + 1) else None
  }

  function ScanNext(s: string, i: nat): (j: nat)
    requires i < |s|
    ensures i < j <= |s|
  {
    var e := ShortReferenceEnd(s, i);
    if e.Some? then e.value else i + 1
  }

  function ScanFrom(s: string, i: nat): (r: seq<nat>)
    requires i <= |s|
    ensures |r| > 0 && r[0] == i
    decreases |s| - i
  {
    if i == |s| then [i] else [i] + ScanFrom(s, ScanNext(s, i))
  }

  /** No short reference from `i` on other than the five predefined entities. */
  predicate CleanFrom(s: string, i: nat) {
    forall k: nat {:trigger ShortReferenceEnd(s, k)} ::
      i <= k < |s| && ShortReferenceEnd(s, k).Some? ==> EntityAt(s, k).Some?
  }

  predicate Clean(s: string) {
    CleanFrom(s, 0)
  }

  lemma EntityShape(s: string, i: nat)
    requires EntityAt(s, i).Some?
    ensures i + 4 <= i + EntityAt(s, i).value.width <= |s| && s[i] == '&'
    ensures ShortReferenceEnd(s, i) == Some(i + EntityAt(s, i).value.width)
    ensures forall k :: i < k < i + EntityAt(s, i).value.width ==> s[k] != '&'
    ensures forall k :: i < k < i + EntityAt(s, i).value.width ==> s[k] !in {'{', '}', '<'}
  {
    var w := EntityAt(s, i).value.width;
    EntityName(s, i, s[i..i + w]);
    hide EntityAt;
    assert s[i] == s[i..i + w][0] && s[i + w - 1] == s[i..i + w][w - 1];
    forall k | i < k < i + w ensures s[k] == s[i..i + w][k - i] { }
    IndexByteIs(s, i, ';', i + w - 1);
  }

  /** One of the five references, written out. */
  predicate IsName(name: string) {
    name == "&lt;" || name == "&gt;" || name == "&quot;" || name == "&apos;" || name == "&amp;"
  }

  lemma EntityName(s: string, i: nat, name: string)
    requires EntityAt(s, i).Some? && i + EntityAt(s, i).value.width <= |s|
    requires name == s[i..i + EntityAt(s, i).value.width]
    ensures IsName(name)
    ensures name[0] == '&' && name[|name| - 1] == ';' && 4 <= |name| <= 6
    ensures forall k :: 0 < k < |name| - 1 ==> name[k] !in {'&', ';', '{', '}', '<'}
  {
    assert IsName(name);
  }

  /**
   * The table escapedOffsets builds is the true one exactly when every short
   * reference of the text is a predefined entity.
   */
  lemma {:induction false} ScanIsExactIffCleanFrom(s: string, i: nat)
    requires i <= |s|
    ensures ScanFrom(s, i) == OffsetsFrom(s, i) <==> CleanFrom(s, i)
    decreases |s| - i
  {
    if i == |s| { return; }
    var a, b := ScanNext(s, i), Next(s, i);
    StepsAgreeIffKnown(s, i);
    hide EntityAt, ShortReferenceEnd, ScanNext, Next;
    if a != b {
      assert ScanFrom(s, i)[1] == a && OffsetsFrom(s, i)[1] == b;
    } else {
      ScanIsExactIffCleanFrom(s, a);
      assert ScanFrom(s, i)[1..] == ScanFrom(s, a) && OffsetsFrom(s, i)[1..] == OffsetsFrom(s, a);
    }
  }

  /** The two walks take the same step except at an unknown short reference. */
  lemma StepsAgreeIffKnown(s: string, i: nat)
    requires i < |s|
    ensures ScanNext(s, i) == Next(s, i) <==> (ShortReferenceEnd(s, i).Some? ==> EntityAt(s, i).Some?)
    ensures ScanNext(s, i) == Next(s, i) ==> forall k: nat :: i < k < Next(s, i) ==> ShortReferenceEnd(s, k).None?
  {
    if EntityAt(s, i).Some? { EntityShape(s, i); }
    hide EntityAt;
  }

  method EscapedOffsets(escaped: string) returns (idx: seq<nat>)
    ensures idx == ScanFrom(escaped, 0)
    ensures idx == OffsetsFrom(escaped, 0) <==> Clean(escaped)
  {
    idx := [];
    var i := 0;
    while i < |escaped|
      invariant 0 <= i <= |escaped|
      invariant idx + ScanFrom(escaped, i) == ScanFrom(escaped, 0)
    {
      ghost var before := idx;
      ghost var at := i;
      idx := idx + [i];
      var skip := false;
      if escaped[i] == '&' {
        var j := IndexByte(escaped, i, ';');
        if j.Some? && 0 < j.value - i <= 6 {
          i := j.value + 1;
          skip := true;
        }
      }
      if !skip {
        i := i + 1;
      }
      assert ScanFrom(escaped, at) == [at] + ScanFrom(escaped, i);
      assert before + ([at] + ScanFrom(escaped, i)) == idx + ScanFrom(escaped, i);
    }
    idx := idx + [|escaped|];
    ScanIsExactIffCleanFrom(escaped, 0);
  }

  /** The closure escapedOffsets returns. */
  function MapPosition(idx: seq<nat>, length: nat, plain: int): nat {
    if plain < 0 then 0
    else if plain >= |idx| then length
    else idx[plain]
  }

  /** The table is strictly increasing and ends at the length of the text. */
  lemma {:induction false} ScanIncreases(s: string, i: nat)
    requires i <= |s|
    ensures var r := ScanFrom(s, i);
      (forall k :: 0 <= k < |r| ==> i <= r[k] <= |s|) &&
      (forall j, k :: 0 <= j < k < |r| ==> r[j] < r[k]) && r[|r| - 1] == |s|
    decreases |s| - i
  {
    if i < |s| {
      ScanIncreases(s, ScanNext(s, i));
    }
  }

  /** No short reference that starts before `end` other than the predefined entities. */
  predicate CleanBetween(s: string, i: nat, end: nat) {
    forall k: nat {:trigger ShortReferenceEnd(s, k)} ::
      i <= k < end && k < |s| && ShortReferenceEnd(s, k).Some? ==> EntityAt(s, k).Some?
  }

  /** `a` does not lie strictly inside a predefined reference. */
  ghost predicate OnBoundary(s: string, a: nat) {
    forall e: nat {:trigger EntityAt(s, e)} ::
      e < a && EntityAt(s, e).Some? ==> e + EntityAt(s, e).value.width <= a
  }

  lemma ScanKeepsBoundary(s: string, a: nat)
    requires a < |s| && OnBoundary(s, a)
    ensures OnBoundary(s, ScanNext(s, a))
  {
    var next := ScanNext(s, a);
    forall e: nat | e < next && EntityAt(s, e).Some? ensures e + EntityAt(s, e).value.width <= next {
      EntityShape(s, e);
      var end := e + EntityAt(s, e).value.width;
      if a <= e && ShortReferenceEnd(s, a).Some? {
        assert s[next - 1] == ';';
        IndexByteIsFirst(s, e, ';');
      }
    }
  }

  /** A scan that has run ahead stays ahead. */
  lemma {:induction false} AheadStaysAhead(s: string, a: nat, b: nat, k: nat)
    requires b < a <= |s| && OnBoundary(s, a)
    requires k < |OffsetsFrom(s, b)| && OffsetsFrom(s, b)[k] < |s|
    ensures MapPosition(ScanFrom(s, a), |s|, k) > OffsetsFrom(s, b)[k]
    decreases k
  {
    if k > 0 {
      if EntityAt(s, b).Some? { EntityShape(s, b); }
      if a < |s| {
        ScanKeepsBoundary(s, a);
        AheadStaysAhead(s, ScanNext(s, a), Next(s, b), k - 1);
      }
    }
  }

  /** One entry of the table is the true offset exactly when the text before that offset is clean. */
  lemma {:induction false} EntryIsExactIffClean(s: string, i: nat, k: nat)
    requires i <= |s| && OnBoundary(s, i) && k < |OffsetsFrom(s, i)|
    ensures CleanBetween(s, i, OffsetsFrom(s, i)[k]) ==>
      MapPosition(ScanFrom(s, i), |s|, k) == OffsetsFrom(s, i)[k]
    ensures OffsetsFrom(s, i)[k] < |s| && !CleanBetween(s, i, OffsetsFrom(s, i)[k]) ==>
      MapPosition(ScanFrom(s, i), |s|, k) > OffsetsFrom(s, i)[k]
    decreases k
  {
    if k > 0 {
      var a, b := ScanNext(s, i), Next(s, i);
      StepsAgreeIffKnown(s, i);
      ScanKeepsBoundary(s, i);
      OffsetsIncrease(s, b, k - 1);
      hide EntityAt, ShortReferenceEnd, ScanNext, Next;
      if a == b {
        EntryIsExactIffClean(s, a, k - 1);
      } else {
        if OffsetsFrom(s, i)[k] < |s| {
          AheadStaysAhead(s, a, b, k - 1);
        }
      }
    }
  }

  lemma {:induction false} OffsetsIncrease(s: string, i: nat, k: nat)
    requires i <= |s| && k < |OffsetsFrom(s, i)|
    ensures i <= OffsetsFrom(s, i)[k] <= |s|
    decreases k
  {
    if k > 0 {
      OffsetsIncrease(s, Next(s, i), k - 1);
    }
  }

  // ------------------------------------------------------------ escapeXML

  const LINE_BREAK := "</w:t><w:br/><w:t xml:space=\"preserve\">"

  function EscapeChar(c: char): string {
    if c == '&' then "&amp;"
    else if c == '<' then "&lt;"
    else if c == '>' then "&gt;"
    else if c == '\"' then "&quot;"
    else if c == '\'' then "&apos;"
    else if c == '\n' then LINE_BREAK
    else if c < ' ' && c != '\t' then ""
    else [c]
  }

  function Escape(s: string): string {
    if s == "" then "" else EscapeChar(s[0]) + Escape(s[1..])
  }

  /** The switch inside escapeXML: what one character writes. */
  method WriteEscaped(c: char) returns (w: string)
    ensures w == EscapeChar(c)
  {
    w := "";
    match c {
      case '&' => w := "&amp;";
      case '<' => w := "&lt;";
      case '>' => w := "&gt;";
      case '\"' => w := "&quot;";
      case '\'' => w := "&apos;";
      case '\n' => w := LINE_BREAK;
      case _ =>
        if c < ' ' && c != '\t' {
          return;
        }
        w := [c];
    }
  }

  method EscapeXML(s: string) returns (r: string)
    ensures r == Escape(s)
  {
    r := "";
    for i := 0 to |s|
      invariant r + Escape(s[i..]) == Escape(s)
    {
      assert s[i..][0] == s[i] && s[i..][1..] == s[i + 1..];
      var written := WriteEscaped(s[i]);
      r := r + written;
    }
  }

  /** A value as a reader of the document sees it: control characters are dropped. */
  function DropControls(s: string): string {
    if s == "" then ""
    else if s[0] < ' ' && s[0] != '\t' then DropControls(s[1..])
    else [s[0]] + DropControls(s[1..])
  }

  lemma HasAtDrop(s: string, d: nat, i: nat, pat: string)
    requires d <= |s|
    ensures HasAt(s, d + i, pat) == HasAt(s[d..], i, pat)
  {
    if i + |pat| <= |s[d..]| {
      SliceOfSlice(s, d, |s|, i, i + |pat|);
    }
  }

  lemma EntityDrop(s: string, d: nat, i: nat)
    requires d <= |s|
    ensures EntityAt(s, d + i) == EntityAt(s[d..], i)
  {
    HasAtDrop(s, d, i, "&lt;");
    HasAtDrop(s, d, i, "&gt;");
    HasAtDrop(s, d, i, "&quot;");
    HasAtDrop(s, d, i, "&apos;");
    HasAtDrop(s, d, i, "&amp;");
    hide HasAt;
  }

  lemma SymbolDrop(s: string, d: nat, i: nat)
    requires d + i < |s|
    ensures Next(s, d + i) == d + Next(s[d..], i) && SymbolAt(s, d + i) == SymbolAt(s[d..], i)
  {
    EntityDrop(s, d, i);
    hide EntityAt;
    assert s[d + i] == s[d..][i];
  }

  /** Unescaping past a prefix only looks at what follows it. */
  lemma {:induction false} UnescapeDrop(s: string, d: nat, i: nat)
    requires d + i <= |s|
    ensures UnescapeFrom(s, d + i) == UnescapeFrom(s[d..], i)
    decreases |s| - i
  {
    hide EntityAt, Next, SymbolAt;
    if d + i < |s| {
      SymbolDrop(s, d, i);
      UnescapeDrop(s, d, Next(s[d..], i));
    }
  }

  /** unescapeXML undoes escapeXML on every newline-free value, up to dropped control characters. */
  lemma {:induction false} UnescapeUndoesEscape(s: string)
    requires '\n' !in s
    ensures Unescape(Escape(s)) == DropControls(s)
  {
    if s != "" {
      var head, rest := EscapeChar(s[0]), Escape(s[1..]);
      UnescapeUndoesEscape(s[1..]);
      if head != "" {
        UnescapeDrop(head + rest, |head|, 0);
        assert (head + rest)[|head|..] == rest;
        EscapedCharReadsBack(s[0], head + rest);
        hide EntityAt, EscapeChar;
        assert UnescapeFrom(head + rest, 0) == [s[0]] + UnescapeFrom(head + rest, |head|);
      } else {
        assert head + rest == rest;
      }
    }
  }

  /** `e` stands at the start of `s`, and no other pattern with another second or third byte does. */
  lemma OnlyThisReference(s: string, e: string, pat: string)
    requires |e| > 2 && e <= s && |pat| > 2 && (pat[1] != e[1] || pat[2] != e[2])
    ensures !HasAt(s, 0, pat)
  {
    if 0 + |pat| <= |s| {
      assert s[0..|pat|][1] == s[1] && s[0..|pat|][2] == s[2];
    }
  }

  lemma NotAReference(s: string)
    requires s != "" && s[0] != '&'
    ensures EntityAt(s, 0).None?
  {
    if EntityAt(s, 0).Some? { EntityShape(s, 0); }
  }

  lemma EscapedCharReadsBack(c: char, s: string)
    requires c != '\n' && EscapeChar(c) != "" && EscapeChar(c) <= s
    ensures SymbolAt(s, 0) == c && Next(s, 0) == |EscapeChar(c)|
  {
    var e := EscapeChar(c);
    if e == [c] {
      assert s[0] == c;
      NotAReference(s);
    } else {
      assert s[0..|e|] == e;
      OnlyThisReference(s, e, if c == '<' then "&gt;" else "&lt;");
      OnlyThisReference(s, e, if c == '>' then "&lt;" else "&gt;");
      OnlyThisReference(s, e, if c == '\"' then "&lt;" else "&quot;");
      OnlyThisReference(s, e, if c == '\'' then "&quot;" else "&apos;");
      OnlyThisReference(s, e, if c == '&' then "&quot;" else "&amp;");
    }
  }

  /** Text a parser takes for text: no markup, no quote, and no `&` but that of one of the five references. */
  ghost predicate IsPlainXml(s: string) {
    && (forall k :: 0 <= k < |s| ==> s[k] !in {'<', '>', '\"', '\''})
    && (forall k :: 0 <= k < |s| && s[k] == '&' ==> EntityAt(s, k).Some?)
  }

  lemma PlainXmlJoins(head: string, rest: string)
    requires IsPlainXml(rest) && forall k :: 0 <= k < |head| ==> head[k] !in {'<', '>', '\"', '\''}
    requires forall k :: 0 <= k < |head| && head[k] == '&' ==> k == 0 && IsName(head)
    ensures IsPlainXml(head + rest)
  {
    var s := head + rest;
    if IsName(head) {
      assert HasAt(s, 0, head);
      OnlyOneEntity(s, 0, head);
    }
    hide EntityAt, IsName, HasAt;
    assert s[|head|..] == rest;
    forall k | 0 <= k < |s| && s[k] == '&' ensures EntityAt(s, k).Some? {
      if k >= |head| {
        assert rest[k - |head|] == s[k];
        EntityDrop(s, |head|, k - |head|);
      } else {
        assert head[k] == s[k];
      }
    }
    forall k | 0 <= k < |s| ensures s[k] !in {'<', '>', '\"', '\''} {
      if k >= |head| { assert rest[k - |head|] == s[k]; } else { assert head[k] == s[k]; }
    }
  }

  lemma EscapedCharIsPlain(c: char)
    requires c != '\n'
    ensures var e := EscapeChar(c);
      && (forall k :: 0 <= k < |e| ==> e[k] !in {'<', '>', '\"', '\''})
      && (forall k :: 0 <= k < |e| && e[k] == '&' ==> k == 0 && IsName(e))
  {
  }

  /** An escaped newline-free value is text: every special character is written as its reference. */
  lemma {:induction false} EscapedIsPlainXml(s: string)
    requires '\n' !in s
    ensures IsPlainXml(Escape(s))
  {
    if s != "" {
      EscapedCharIsPlain(s[0]);
      EscapedIsPlainXml(s[1..]);
      hide IsPlainXml, EscapeChar, IsName;
      PlainXmlJoins(EscapeChar(s[0]), Escape(s[1..]));
    }
  }

  lemma {:induction false} EscapeJoins(a: string, b: string)
    ensures Escape(a + b) == Escape(a) + Escape(b)
  {
    hide EscapeChar;
    if a == "" {
      assert a + b == b;
    } else {
      assert (a + b)[1..] == a[1..] + b;
      EscapeJoins(a[1..], b);
      JoinAssociates(EscapeChar(a[0]), Escape(a[1..]), Escape(b));
    }
  }

  /** A newline in a value becomes a break between two runs. */
  lemma NewlineIsBreak(a: string, b: string)
    ensures Escape(a + "\n" + b) == Escape(a) + "</w:t><w:br/><w:t xml:space=\"preserve\">" + Escape(b)
  {
    EscapeJoins(a + "\n", b);
    EscapeJoins(a, "\n");
    assert Escape("\n") == LINE_BREAK + "" == LINE_BREAK;
    hide Escape;
  }

  /** Exactly the control characters other than the tab are dropped. */
  lemma {:induction false} ControlsAreDropped(a: string, c: char, b: string)
    ensures DropControls(a + [c] + b) ==
      DropControls(a) + (if c as int < 32 && c as int != 9 then "" else [c]) + DropControls(b)
  {
    var s := a + [c] + b;
    if a == "" {
      assert s[1..] == b;
    } else {
      assert s[1..] == a[1..] + [c] + b;
      ControlsAreDropped(a[1..], c, b);
    }
  }

  // ------------------------------------------------------------ what the table is for

  lemma OtherEntity(c: string, j: nat, pat: string)
    requires |pat| >= 3
    ensures HasAt(c, j, pat) ==> c[j + 1] == pat[1] && c[j + 2] == pat[2]
  {
    if HasAt(c, j, pat) {
      assert c[j..j + |pat|][1] == c[j + 1] && c[j..j + |pat|][2] == c[j + 2];
    }
  }

  /** The five references are told apart by their second and third byte. */
  lemma OnlyOneEntity(c: string, j: nat, name: string)
    requires HasAt(c, j, name)
    ensures name == "&lt;" ==> EntityAt(c, j) == Some(Reference('<', 4))
    ensures name == "&gt;" ==> EntityAt(c, j) == Some(Reference('>', 4))
    ensures name == "&quot;" ==> EntityAt(c, j) == Some(Reference('\"', 6))
    ensures name == "&apos;" ==> EntityAt(c, j) == Some(Reference('\'', 6))
    ensures name == "&amp;" ==> EntityAt(c, j) == Some(Reference('&', 5))
  {
    if |name| >= 3 {
      assert c[j + 1] == c[j..j + |name|][1] == name[1] && c[j + 2] == c[j..j + |name|][2] == name[2];
      OtherEntity(c, j, "&lt;");
      OtherEntity(c, j, "&gt;");
      OtherEntity(c, j, "&quot;");
      OtherEntity(c, j, "&apos;");
      OtherEntity(c, j, "&amp;");
    }
  }

  lemma SameEntity(a: string, c: string, i: nat, j: nat, w: nat)
    requires EntityAt(a, i).Some? && w == EntityAt(a, i).value.width && i + w <= |a| && j + w <= |c|
    requires a[i..i + w] == c[j..j + w]
    ensures EntityAt(c, j) == EntityAt(a, i)
  {
    var name := a[i..i + w];
    assert HasAt(c, j, name) && HasAt(a, i, name);
    assert forall k :: 0 <= k < w ==> c[j + k] == name[k];
    OnlyOneEntity(c, j, name);
  }

  /** A reference inside the first text is the same reference in both together. */
  lemma EntityExtends(a: string, b: string, i: nat)
    requires EntityAt(a, i).Some?
    ensures EntityAt(a + b, i) == EntityAt(a, i)
  {
    EntityShape(a, i);
    var w := EntityAt(a, i).value.width;
    assert (a + b)[i..i + w] == a[i..i + w];
    SameEntity(a, a + b, i, i, w);
  }

  lemma UnescapeFirst(s: string)
    requires s != ""
    ensures Unescape(s) == [SymbolAt(s, 0)] + Unescape(s[Next(s, 0)..])
  {
    UnescapeDrop(s, Next(s, 0), 0);
    hide EntityAt;
  }

  /** The first symbol of a slice that holds it whole. */
  lemma FirstOfSlice(s: string, i: nat, end: nat)
    requires i < |s| && Next(s, i) <= end <= |s|
    ensures Next(s[i..end], 0) == Next(s, i) - i && SymbolAt(s[i..end], 0) == SymbolAt(s, i)
  {
    var piece := s[i..end];
    if EntityAt(s, i).Some? {
      var w := EntityAt(s, i).value.width;
      SliceOfSlice(s, i, end, 0, w);
      SameEntity(s, piece, i, 0, w);
    } else if EntityAt(piece, 0).Some? {
      EntityShape(piece, 0);
      var w := EntityAt(piece, 0).value.width;
      SliceOfSlice(s, i, end, 0, w);
      SameEntity(piece, s, 0, i, w);
    }
    hide EntityAt;
  }

  /** Between two entries of the true table stand exactly the symbols between their indices. */
  lemma {:induction false} SliceReads(s: string, i: nat, a: nat, b: nat)
    requires i <= |s| && a <= b <= |UnescapeFrom(s, i)|
    ensures var at := OffsetsFrom(s, i);
      at[a] <= at[b] <= |s| && Unescape(s[at[a]..at[b]]) == UnescapeFrom(s, i)[a..b]
    decreases b
  {
    hide EntityAt, SymbolAt, Next;
    if b == 0 {
      assert s[i..i] == "";
    } else {
      var next := Next(s, i);
      var at, rest := OffsetsFrom(s, i), OffsetsFrom(s, next);
      assert at[b] == rest[b - 1];
      if a > 0 {
        SliceReads(s, next, a - 1, b - 1);
        assert at[a] == rest[a - 1];
      } else {
        SliceReads(s, next, 0, b - 1);
        var piece := s[i..at[b]];
        FirstOfSlice(s, i, at[b]);
        UnescapeFirst(piece);
        assert piece[next - i..] == s[next..at[b]];
        assert UnescapeFrom(s, i)[0..b] == [SymbolAt(s, i)] + UnescapeFrom(s, next)[0..b - 1];
      }
    }
  }

  /** Any stretch of the unescaped text is what its mapped stretch of the text reads as. */
  ghost predicate SlicesRead(s: string, at: seq<nat>) {
    forall a: nat, b: nat :: a <= b <= |Unescape(s)| ==>
      var from, to := MapPosition(at, |s|, a), MapPosition(at, |s|, b);
      from <= to <= |s| && Unescape(s[from..to]) == Unescape(s)[a..b]
  }

  lemma UnknownMisreads(s: string, i: nat)
    requires i < |s| && ScanNext(s, i) != Next(s, i)
    ensures |Unescape(s[i..ScanNext(s, i)])| > 1
  {
    StepsAgreeIffKnown(s, i);
    var piece := s[i..ScanNext(s, i)];
    FirstOfSlice(s, i, ScanNext(s, i));
    assert EntityAt(s, i).None? && |piece| > 1 && piece[1..] != "";
    hide EntityAt, ShortReferenceEnd;
    UnescapeFirst(piece);
    UnescapeFirst(piece[1..]);
  }

  /** An unknown short reference is mapped to one symbol, and reads as more. */
  lemma {:induction false} UnknownReferenceMisreads(s: string, i: nat) returns (k: nat)
    requires i <= |s| && !CleanFrom(s, i)
    ensures k < |UnescapeFrom(s, i)| && k + 1 < |ScanFrom(s, i)|
    ensures var at := ScanFrom(s, i);
      at[k] <= at[k + 1] <= |s| && Unescape(s[at[k]..at[k + 1]]) != UnescapeFrom(s, i)[k..k + 1]
    decreases |s| - i
  {
    StepsAgreeIffKnown(s, i);
    var a, b := ScanNext(s, i), Next(s, i);
    if a == b {
      hide EntityAt, ShortReferenceEnd, ScanNext, Next, Unescape, CleanFrom;
      k := UnknownReferenceMisreads(s, a);
      assert ScanFrom(s, i)[1..] == ScanFrom(s, a) && UnescapeFrom(s, i)[1..] == UnescapeFrom(s, a);
      SliceOfSlice(UnescapeFrom(s, i), 1, |UnescapeFrom(s, i)|, k, k + 1);
      k := k + 1;
    } else {
      k := 0;
      UnknownMisreads(s, i);
      hide EntityAt, ShortReferenceEnd, ScanNext, Next;
      assert ScanFrom(s, i)[1] == a && |UnescapeFrom(s, i)[0..1]| == 1;
    }
  }

  /**
   * The table escapedOffsets builds cuts the text where the unescaped text is cut,
   * for every stretch, exactly when every short reference is a predefined one.
   */
  lemma SlicesReadIff(s: string)
    ensures SlicesRead(s, ScanFrom(s, 0)) <==> Clean(s)
  {
    var at := ScanFrom(s, 0);
    ScanIsExactIffCleanFrom(s, 0);
    hide EntityAt, ShortReferenceEnd, ScanNext, Next, CleanFrom;
    if Clean(s) {
      forall a: nat, b: nat | a <= b <= |Unescape(s)| ensures
        var from, to := MapPosition(at, |s|, a), MapPosition(at, |s|, b);
        from <= to <= |s| && Unescape(s[from..to]) == Unescape(s)[a..b]
      {
        SliceReads(s, 0, a, b);
      }
    } else {
      var k := UnknownReferenceMisreads(s, 0);
      assert Unescape(s)[k..k + 1] == UnescapeFrom(s, 0)[k..k + 1];
      assert MapPosition(at, |s|, k) == at[k] && MapPosition(at, |s|, k + 1) == at[k + 1];
    }
  }
}
