// The substitution in the text a reader sees: references resolved before and
// after, values as they were typed.
module PlainText {
  import opened Prelude
  import opened XmlText
  import opened Placeholder
  import opened Rendering
  import opened Fill
  import opened Readback
  import opened Exactness

  /** One substitution over plain text: every known placeholder gives way to its value, control characters aside. */
  function ReplacedFrom(plain: string, values: Values, k: nat): string
    requires k <= |plain|
    decreases |plain| - k
  {
    if k == |plain| then "" else
    var m := MatchAt(plain, k);
    if m.None? then [plain[k]] + ReplacedFrom(plain, values, k + 1)
    else
      var key := Key(plain, m.value);
      (if key in values then DropControls(values[key]) else plain[k..m.value.end])
        + ReplacedFrom(plain, values, m.value.end)
  }

  function Replaced(plain: string, values: Values): string {
    ReplacedFrom(plain, values, 0)
  }

  /** Every `&` begins one of the five predefined references. */
  ghost predicate WellReferenced(s: string) {
    forall k: nat :: k < |s| && s[k] == '&' ==> EntityAt(s, k).Some?
  }

  // ------------------------------------------------------------ texts one after the other

  lemma WellReferencedTail(a: string, n: nat)
    requires WellReferenced(a) && n <= |a|
    ensures WellReferenced(a[n..])
  {
    forall k: nat | k < |a[n..]| && a[n..][k] == '&' ensures EntityAt(a[n..], k).Some? {
      assert a[n + k] == '&';
      EntityDrop(a, n, k);
    }
  }

  lemma WellReferencedJoin(a: string, b: string)
    requires WellReferenced(a) && WellReferenced(b)
    ensures WellReferenced(a + b)
  {
    hide EntityAt;
    forall k: nat | k < |a + b| && (a + b)[k] == '&' ensures EntityAt(a + b, k).Some? {
      if k < |a| {
        EntityExtends(a, b, k);
      } else {
        assert (a + b)[|a|..] == b;
        EntityDrop(a + b, |a|, k - |a|);
      }
    }
  }

  /** No reference has this character past its `&`. */
  predicate StartsApart(s: string) {
    s != "" && s[0] !in "ltgquoamps;"
  }

  lemma ReferenceLetters(s: string, i: nat)
    requires EntityAt(s, i).Some? && i + EntityAt(s, i).value.width <= |s|
    ensures forall k :: i < k < i + EntityAt(s, i).value.width ==> s[k] in "ltgquoamps;"
  {
    var w := EntityAt(s, i).value.width;
    var name := s[i..i + w];
    EntityName(s, i, name);
    hide EntityAt;
    forall k | i < k < i + w ensures s[k] in "ltgquoamps;" { assert s[k] == name[k - i]; }
  }

  /** The first symbol of a text that leaves no reference open, or that nothing can continue. */
  lemma FirstSymbol(a: string, b: string)
    requires a != "" && (WellReferenced(a) || StartsApart(b))
    ensures Next(a + b, 0) == Next(a, 0) && SymbolAt(a + b, 0) == SymbolAt(a, 0)
  {
    var both := a + b;
    assert both[0] == a[0];
    if EntityAt(a, 0).Some? {
      EntityExtends(a, b, 0);
    } else if a[0] != '&' {
      NotAReference(both);
    } else {
      NoneAcross(a, b);
    }
    hide EntityAt;
  }

  lemma NoneAcross(a: string, b: string)
    requires a != "" && EntityAt(a, 0).None? && StartsApart(b)
    ensures EntityAt(a + b, 0).None?
  {
    var both := a + b;
    assert both[|a|] == b[0];
    if EntityAt(both, 0).Some? {
      EntityShape(both, 0);
      var w := EntityAt(both, 0).value.width;
      if w <= |a| {
        assert a[0..w] == both[0..w];
        SameEntity(both, a, 0, 0, w);
      } else {
        ReferenceLetters(both, 0);
      }
    }
  }

  /**
   * Unescaping goes piece by piece when no reference is left open at the end of the
   * first piece, or the second begins with nothing that could close one.
   */
  lemma {:induction false} UnescapeJoin(a: string, b: string)
    requires WellReferenced(a) || StartsApart(b)
    ensures Unescape(a + b) == Unescape(a) + Unescape(b)
    decreases |a|
  {
    if a == "" {
      assert a + b == b;
    } else {
      var n := Next(a, 0);
      hide WellReferenced, UnescapeFrom, EntityAt, SymbolAt, Next;
      FirstSymbol(a, b);
      if WellReferenced(a) { WellReferencedTail(a, n); }
      UnescapeFirst(a);
      UnescapeFirst(a + b);
      assert (a + b)[n..] == a[n..] + b;
      UnescapeJoin(a[n..], b);
    }
  }

  lemma NoReferences(s: string)
    requires '&' !in s
    ensures WellReferenced(s) && Unescape(s) == s
  {
    forall k: nat | k < |s| ensures EntityAt(s, k).None? {
      assert s[k] in s;
      if EntityAt(s, k).Some? { EntityShape(s, k); }
    }
    NothingToUnescape(s, 0);
  }

  lemma EscapedCharIsClosed(c: char)
    ensures WellReferenced(EscapeChar(c))
  {
    var e := EscapeChar(c);
    if c == '&' || c == '<' || c == '>' || c == '\"' || c == '\'' {
      assert e[0..|e|] == e;
      OnlyOneEntity(e, 0, e);
      assert forall k: nat :: 0 < k < |e| ==> e[k] != '&';
    } else {
      assert '&' !in e;
      NoReferences(e);
    }
  }

  /** What escapeXML writes leaves no reference open. */
  lemma {:induction false} EscapeIsClosed(v: string)
    ensures WellReferenced(Escape(v))
  {
    hide WellReferenced, EscapeChar;
    if v == "" {
      NoReferences("");
    } else {
      EscapedCharIsClosed(v[0]);
      EscapeIsClosed(v[1..]);
      WellReferencedJoin(EscapeChar(v[0]), Escape(v[1..]));
    }
  }

  // ------------------------------------------------------------ values on one line

  ghost predicate OneLine(values: Values) {
    forall key :: key in values ==> '\n' !in values[key]
  }

  /** The values without their line breaks, which a reader does not see as text. */
  function OnOneLine(values: Values): (r: Values)
    ensures r.Keys == values.Keys && forall key :: key in r ==> r[key] == WithoutNewlines(values[key])
  {
    map key | key in values.Keys :: WithoutNewlines(values[key])
  }

  lemma OnOneLineIs(values: Values)
    ensures OneLine(OnOneLine(values))
    ensures OneLine(values) ==> OnOneLine(values) == values
  {
    forall key | key in values ensures
      '\n' !in OnOneLine(values)[key] && ('\n' !in values[key] ==> OnOneLine(values)[key] == values[key])
    {
      assert key in values.Keys && key in OnOneLine(values);
      StrippedEscape(values[key]);
      NoNewlineToDrop(values[key]);
    }
    if OneLine(values) {
      assert OnOneLine(values).Keys == values.Keys;
      assert forall key :: key in values <==> key in values.Keys;
    }
  }

  lemma {:induction false} NoNewlineToDrop(v: string)
    ensures '\n' !in v ==> WithoutNewlines(v) == v
  {
    if v != "" && '\n' !in v {
      assert v[0] in v && forall c :: c in v[1..] ==> c in v;
      NoNewlineToDrop(v[1..]);
    }
  }

  /** What one placeholder of the text becomes. */
  function Piece(text: string, m: Match, values: Values): string
    requires m.start <= m.end <= |text| && m.keyStart <= m.keyEnd <= |text|
  {
    if Key(text, m) in values then Escape(values[Key(text, m)]) else text[m.start..m.end]
  }

  lemma StrippedPiece(text: string, m: Match, values: Values)
    requires m.start <= m.end <= |text| && m.keyStart <= m.keyEnd <= |text| && '<' !in text
    ensures OnlyBreaks(Piece(text, m, values))
    ensures StripBreaks(Piece(text, m, values)) == Piece(text, m, OnOneLine(values))
  {
    var key := Key(text, m);
    assert key in values.Keys <==> key in values;
    assert key in OnOneLine(values).Keys <==> key in OnOneLine(values);
    hide OnlyBreaks, StripBreaks, Escape, Key;
    if key in values {
      EscapedBreaks(values[key]);
      StrippedEscape(values[key]);
    } else {
      assert forall c :: c in text[m.start..m.end] ==> c in text;
      PlainHasNoBreaks(text[m.start..m.end]);
    }
  }

  /** Without the markup of line breaks the substituted text is that of the values on one line. */
  lemma {:induction false} StrippedSubstitution(text: string, values: Values, i: nat)
    requires i <= |text| && '<' !in text
    ensures OnlyBreaks(SubstituteFrom(text, values, i))
    ensures StripBreaks(SubstituteFrom(text, values, i)) == SubstituteFrom(text, OnOneLine(values), i)
    decreases |text| - i
  {
    if i == |text| { return; }
    var m := MatchAt(text, i);
    if m.Some? { PlaceholderBounds(text, m.value); }
    var j := if m.Some? then m.value.end else i + 1;
    var piece := if m.Some? then Piece(text, m.value, values) else [text[i]];
    assert SubstituteFrom(text, values, i) == piece + SubstituteFrom(text, values, j);
    hide MatchAt, OnlyBreaks, StripBreaks, OnOneLine, Escape, Key;
    if m.Some? { StrippedPiece(text, m.value, values); } else { NoMarkup(text[i]); }
    StrippedSubstitution(text, values, j);
    BreaksConcat(piece, SubstituteFrom(text, values, j));
  }

  lemma {:induction false} ReplacedOnOneLine(plain: string, values: Values, k: nat)
    requires k <= |plain|
    ensures ReplacedFrom(plain, OnOneLine(values), k) == ReplacedFrom(plain, values, k)
    decreases |plain| - k
  {
    if k == |plain| { return; }
    var m := MatchAt(plain, k);
    ReplacedOnOneLine(plain, values, if m.Some? then m.value.end else k + 1);
    if m.Some? {
      var key := Key(plain, m.value);
      assert key in values.Keys <==> key in values;
      assert key in OnOneLine(values).Keys <==> key in OnOneLine(values);
      hide MatchAt, OnOneLine, DropControls, Key;
      if key in values { StrippedEscape(values[key]); }
    }
  }

  // ------------------------------------------------------------ one step of the substitution

  /** Where no placeholder starts the text is copied. */
  lemma {:induction false} CopiedTo(text: string, values: Values, i: nat, j: nat)
    requires i <= j <= |text| && forall k: nat :: i <= k < j ==> MatchAt(text, k).None?
    ensures SubstituteFrom(text, values, i) == text[i..j] + SubstituteFrom(text, values, j)
    decreases j - i
  {
    hide MatchAt;
    if i < j {
      CopiedTo(text, values, i + 1, j);
      SliceCons(text, i, j);
      JoinAssociates([text[i]], text[i + 1..j], SubstituteFrom(text, values, j));
    }
  }

  lemma NoMatchInReference(text: string, i: nat)
    requires i < |text| && MatchAt(text, i).None?
    ensures forall k: nat :: i <= k < Next(text, i) ==> MatchAt(text, k).None?
  {
    hide MatchAt;
    if EntityAt(text, i).Some? {
      EntityShape(text, i);
      hide EntityAt;
      forall k: nat | i < k < Next(text, i) ensures MatchAt(text, k).None? { NoMatchWithoutBrace(text, k); }
    }
  }

  /** A bare `&` of the text is still one in the substituted text. */
  ghost predicate StaysBare(text: string, values: Values, i: nat) {
    i < |text| && text[i] == '&' && EntityAt(text, i).None? ==> EntityAt(SubstituteFrom(text, values, i), 0).None?
  }

  /** A copied symbol in front of the rest is read first. */
  lemma SymbolInFront(text: string, i: nat, whole: string, rest: string)
    requires i < |text| && whole == text[i..Next(text, i)] + rest
    requires text[i] == '&' && EntityAt(text, i).None? ==> EntityAt(whole, 0).None?
    ensures Unescape(whole) == [SymbolAt(text, i)] + Unescape(rest)
  {
    hide HasAt, UnescapeFrom;
    var j := Next(text, i);
    assert whole[0] == text[i] && whole[j - i..] == rest;
    if EntityAt(text, i).Some? {
      assert whole[0..j - i] == text[i..j];
      SameEntity(text, whole, i, 0, j - i);
    } else if text[i] != '&' {
      NotAReference(whole);
    }
    hide EntityAt;
    UnescapeFirst(whole);
  }

  /** The first symbol of the substituted text where no placeholder starts. */
  lemma CopiedSymbol(text: string, values: Values, i: nat)
    requires i < |text| && MatchAt(text, i).None? && StaysBare(text, values, i)
    ensures Unescape(SubstituteFrom(text, values, i)) ==
      [SymbolAt(text, i)] + Unescape(SubstituteFrom(text, values, Next(text, i)))
  {
    hide MatchAt, SubstituteFrom, EntityAt, UnescapeFrom, Next, SymbolAt;
    NoMatchInReference(text, i);
    CopiedTo(text, values, i, Next(text, i));
    SymbolInFront(text, i, SubstituteFrom(text, values, i), SubstituteFrom(text, values, Next(text, i)));
  }

  lemma SymbolStep(text: string, plain: string, offsets: seq<nat>, values: Values, i: nat, k: nat)
    requires Aligned(text, plain, offsets, i, k) && i < |text| && MatchAt(text, i).None?
    requires StaysBare(text, values, i)
    ensures k < |plain| && plain[k] == SymbolAt(text, i)
    ensures Unescape(SubstituteFrom(text, values, i)) ==
      [plain[k]] + Unescape(SubstituteFrom(text, values, Next(text, i)))
    ensures ReplacedFrom(plain, values, k) == [plain[k]] + ReplacedFrom(plain, values, k + 1)
  {
    AlignedNext(text, plain, offsets, i, k);
    hide Aligned, StaysBare, UnescapeFrom, EntityAt, SubstituteFrom;
    CopiedSymbol(text, values, i);
    var m := MatchAt(plain, k);
    if m.Some? {
      PlaceholderBounds(plain, m.value);
      MatchAlignedUp(text, plain, offsets, i, k, m.value, m.value.end - k);
    }
  }

  /** What one placeholder of the text reads as. */
  lemma PieceReads(text: string, t: Match, values: Values)
    requires IsPlaceholder(text, t) && OneLine(values)
    ensures t.start < t.end <= |text| && t.keyStart <= t.keyEnd
    ensures var piece := Piece(text, t, values);
      && WellReferenced(piece)
      && Unescape(piece) == if Key(text, t) in values then DropControls(values[Key(text, t)]) else piece
  {
    PlaceholderBounds(text, t);
    PlaceholderIsSyntax(text, t);
    hide WellReferenced, IsPlaceholder, Escape, DropControls, UnescapeFrom, Key;
    if Key(text, t) in values {
      var v := values[Key(text, t)];
      EscapeIsClosed(v);
      UnescapeUndoesEscape(v);
    } else {
      var piece := text[t.start..t.end];
      forall k | 0 <= k < |piece| ensures piece[k] != '&' { assert IsSyntax(text[t.start + k]); }
      NoReferences(piece);
    }
  }

  lemma PlaceholderStep(text: string, plain: string, offsets: seq<nat>, values: Values, i: nat, k: nat)
    returns (read: string)
    requires Aligned(text, plain, offsets, i, k) && MatchAt(text, i).Some? && OneLine(values)
    ensures i < |text| && k < |plain| && MatchAt(plain, k).Some?
    ensures var t, m := MatchAt(text, i).value, MatchAt(plain, k).value;
      && i < t.end <= |text| && k < m.end <= |plain|
      && Aligned(text, plain, offsets, t.end, m.end)
      && Unescape(SubstituteFrom(text, values, i)) == read + Unescape(SubstituteFrom(text, values, t.end))
      && ReplacedFrom(plain, values, k) == read + ReplacedFrom(plain, values, m.end)
  {
    MatchStep(text, plain, offsets, i, k);
    var t, m := MatchAt(text, i).value, MatchAt(plain, k).value;
    PieceReads(text, t, values);
    var piece := Piece(text, t, values);
    assert text[i..t.end] == plain[k..m.end] && Key(text, t) == Key(plain, m);
    hide MatchAt, WellReferenced, Aligned, UnescapeFrom, Corresponds, Key, Escape;
    read := if Key(text, t) in values then DropControls(values[Key(text, t)]) else piece;
    UnescapeJoin(piece, SubstituteFrom(text, values, t.end));
  }

  // ------------------------------------------------------------ open references

  /** An unfinished reference: a part of one of the five, from its `&` on. */
  predicate IsOpen(s: string) {
    s != "" && (s < "&lt;" || s < "&gt;" || s < "&quot;" || s < "&apos;" || s < "&amp;")
  }

  lemma OpenShape(s: string)
    requires IsOpen(s)
    ensures s[0] == '&' && forall k :: 0 < k < |s| ==> s[k] in "ltgquoamps" && s[k] !in {'&', ';', '{', '}', '<'}
  {
  }

  /** The text ends, up to position `t`, with an unfinished reference. */
  ghost predicate LeftOpen(text: string, t: nat) {
    exists s: nat :: s < t <= |text| && IsOpen(text[s..t])
  }

  /** No known placeholder stands right after an unfinished reference. */
  ghost predicate NoneLeftOpen(text: string, edits: seq<Edit>) {
    forall n :: 0 <= n < |edits| ==> !LeftOpen(text, edits[n].start)
  }

  /** From `i` on: or its value begins with nothing that could go on with one. */
  ghost predicate NothingOpened(text: string, edits: seq<Edit>, i: nat) {
    forall n, s: nat :: 0 <= n < |edits| && i <= s < edits[n].start <= |text| ==>
      !IsOpen(text[s..edits[n].start]) || StartsApart(edits[n].value)
  }

  /** The edits of the known placeholders from `i` on. */
  function EditsFrom(text: string, values: Values, i: nat): seq<Edit> {
    MatchesAreOrdered(text, i);
    DirectEditsFrom(text, MatchesFrom(text, i), values)
  }

  /** The first edit from `i` on is at `i`, or `i` can be passed by. */
  lemma EditsStepOn(text: string, values: Values, i: nat)
    requires i < |text|
    ensures MatchAt(text, i).None? ==> EditsFrom(text, values, i) == EditsFrom(text, values, i + 1)
    ensures var m := MatchAt(text, i); m.Some? ==>
      && m.value.keyStart <= m.value.keyEnd <= |text|
      && EditsFrom(text, values, i) ==
           (if Key(text, m.value) in values then [Edit(i, m.value.end, Escape(values[Key(text, m.value)]))] else [])
           + EditsFrom(text, values, m.value.end)
  {
    MatchesAreOrdered(text, i);
    var m := MatchAt(text, i);
    if m.Some? {
      PlaceholderBounds(text, m.value);
      MatchesAreOrdered(text, m.value.end);
      hide MatchAt, Key, Escape;
      assert MatchesFrom(text, i)[0] == m.value && MatchesFrom(text, i)[1..] == MatchesFrom(text, m.value.end);
    }
  }

  lemma {:induction false} EditsSkip(text: string, values: Values, i: nat, j: nat)
    requires i <= j <= |text| && forall k: nat :: i <= k < j ==> MatchAt(text, k).None?
    ensures EditsFrom(text, values, i) == EditsFrom(text, values, j)
    decreases j - i
  {
    hide MatchAt, EditsFrom;
    if i < j {
      EditsStepOn(text, values, i);
      EditsSkip(text, values, i + 1, j);
    }
  }

  lemma EditsFromInOrder(text: string, values: Values, i: nat)
    ensures InOrder(EditsFrom(text, values, i), i, |text|)
  {
    MatchesAreOrdered(text, i);
    DirectEditsInOrder(text, MatchesFrom(text, i), values, i);
  }

  lemma EditStartsHere(text: string, values: Values, t: nat, n: nat)
    requires n < |EditsFrom(text, values, t)| && EditsFrom(text, values, t)[n].start == t < |text|
    ensures MatchAt(text, t).Some?
    ensures var m := MatchAt(text, t).value; m.keyStart <= m.keyEnd <= |text| && Key(text, m) in values
  {
    EditsStepOn(text, values, t);
    var m := MatchAt(text, t);
    if m.Some? { PlaceholderBounds(text, m.value); }
    hide MatchAt, EditsFrom;
    EditsFromInOrder(text, values, if m.Some? then m.value.end else t + 1);
  }

  lemma {:induction false} EditsAreWide(text: string, ms: seq<Match>, values: Values, from: nat)
    requires Ordered(text, ms, from)
    ensures InBounds(text, ms)
    ensures var edits := DirectEditsFrom(text, ms, values);
      forall k :: 0 <= k < |edits| ==> from <= edits[k].start < edits[k].end <= |text|
  {
    OrderedTail(text, ms, from);
    if ms != [] {
      EditsStep(text, ms, values, [], 0);
      EditsAreWide(text, ms[1..], values, ms[0].end);
      hide Ordered, Key, Escape, DirectEditsFrom;
      var rest := DirectEditsFrom(text, ms[1..], values);
      forall k | 0 <= k < |rest| ensures from <= rest[k].start < rest[k].end <= |text| { }
    }
  }

  /** The substituted text up to the value of the next known placeholder. */
  lemma SubstitutedToNext(text: string, values: Values, i: nat) returns (rest: string)
    requires i <= |text|
    ensures var edits := EditsFrom(text, values, i);
      && (edits == [] ==> SubstituteFrom(text, values, i) == text[i..])
      && (edits != [] ==> i <= edits[0].start < |text|)
      && (edits != [] ==>
            SubstituteFrom(text, values, i) == text[i..edits[0].start] + (edits[0].value + rest))
  {
    var edits := EditsFrom(text, values, i);
    RenderIsSubstitution(text, values, i);
    MatchesAreOrdered(text, i);
    EditsAreWide(text, MatchesFrom(text, i), values, i);
    rest := "";
    assert Render(text, edits, i, |text|) == SubstituteFrom(text, values, i);
    hide SubstituteFrom, MatchesFrom, EditsFrom, DirectEditsFrom, Render, Ordered;
    if edits == [] {
      assert text[i..|text|] == text[i..];
      RenderUntouched(text, edits, i, |text|);
    } else {
      var t := edits[0].start;
      rest := Render(text, edits[1..], edits[0].end, |text|);
      RenderEdit(text, edits);
      RenderUntouched(text, edits, i, t);
      RenderSplit(text, edits, i, t, |text|);
    }
  }

  lemma PartOfName(whole: string, head: string)
    requires EntityAt(whole, 0).Some? && 0 < |head| < EntityAt(whole, 0).value.width <= |whole| && head <= whole
    ensures IsOpen(head)
  {
    var name := whole[0..EntityAt(whole, 0).value.width];
    EntityName(whole, 0, name);
    assert head == name[..|head|];
  }

  lemma NoneAcrossValue(head: string, value: string, rest: string)
    requires head != "" && EntityAt(head + (value + rest), 0).Some?
    requires !IsOpen(head) || StartsApart(value)
    ensures EntityAt(head, 0).Some?
  {
    var whole := head + (value + rest);
    EntityShape(whole, 0);
    var w := EntityAt(whole, 0).value.width;
    if w <= |head| {
      assert head[0..w] == whole[0..w];
      SameEntity(whole, head, 0, 0, w);
    } else if IsOpen(head) {
      assert (value + rest)[0] == value[0];
      if EntityAt(head, 0).None? { NoneAcross(head, value + rest); }
    } else {
      PartOfName(whole, head);
    }
  }

  /** A bare `&` stays one unless a value can finish what it begins. */
  lemma BareStays(text: string, values: Values, i: nat)
    requires i < |text| && text[i] == '&' && EntityAt(text, i).None? && MatchAt(text, i).None?
    requires var edits := EditsFrom(text, values, i);
      forall t: nat :: edits != [] && edits[0].start == t && i < t <= |text| ==>
        !IsOpen(text[i..t]) || StartsApart(edits[0].value)
    ensures StaysBare(text, values, i)
  {
    hide MatchAt, EditsFrom, SubstituteFrom, EntityAt, IsOpen, StartsApart;
    var edits := EditsFrom(text, values, i);
    var rest := SubstitutedToNext(text, values, i);
    if edits == [] {
      EntityDrop(text, i, 0);
    } else {
      if edits[0].start == i { EditStartsHere(text, values, i, 0); }
      NoneInHead(text, i, edits[0].start);
      if EntityAt(SubstituteFrom(text, values, i), 0).Some? {
        NoneAcrossValue(text[i..edits[0].start], edits[0].value, rest);
      }
    }
  }

  lemma NoneInHead(text: string, i: nat, t: nat)
    requires i <= t <= |text| && EntityAt(text, i).None?
    ensures EntityAt(text[i..t], 0).None?
  {
    var head := text[i..t];
    if EntityAt(head, 0).Some? {
      EntityShape(head, 0);
      hide EntityAt;
      var w := EntityAt(head, 0).value.width;
      assert head[0..w] == text[i..i + w];
      SameEntity(head, text, 0, i, w);
    }
  }

  // ------------------------------------------------------------ reading it all

  /** Where the substitution goes on after position `i`. */
  function After(text: string, i: nat): nat
    requires i < |text|
  {
    var m := MatchAt(text, i);
    if m.Some? then m.value.end else Next(text, i)
  }

  lemma EditsAfter(text: string, values: Values, i: nat)
    requires i < |text|
    ensures i < After(text, i) <= |text|
    ensures forall s :: i < s < After(text, i) ==> text[s] != '&'
    ensures var edits, later := EditsFrom(text, values, i), EditsFrom(text, values, After(text, i));
      edits == later || (edits != [] && edits[0].start == i && edits[1..] == later)
  {
    EditsStepOn(text, values, i);
    var m := MatchAt(text, i);
    hide EditsFrom;
    if m.Some? {
      PlaceholderBounds(text, m.value);
      PlaceholderIsSyntax(text, m.value);
      assert forall s :: i <= s < m.value.end ==> IsSyntax(text[s]);
    } else {
      NoMatchInReference(text, i);
      EditsSkip(text, values, i, Next(text, i));
      if EntityAt(text, i).Some? { EntityShape(text, i); }
    }
  }

  /** One step of reading the substituted text, at a placeholder or a symbol. */
  lemma ReadStep(text: string, plain: string, offsets: seq<nat>, values: Values, i: nat, k: nat)
    returns (read: string, l: nat)
    requires Aligned(text, plain, offsets, i, k) && i < |text| && OneLine(values)
    requires MatchAt(text, i).None? ==> StaysBare(text, values, i)
    ensures i < After(text, i) <= |text| && k <= |plain| && l <= |plain|
    ensures Aligned(text, plain, offsets, After(text, i), l)
    ensures var j := After(text, i);
      Unescape(SubstituteFrom(text, values, i)) == read + Unescape(SubstituteFrom(text, values, j))
    ensures ReplacedFrom(plain, values, k) == read + ReplacedFrom(plain, values, l)
  {
    assert k <= |plain| && After(text, i) == var m := MatchAt(text, i); if m.Some? then m.value.end else Next(text, i);
    hide *;
    if MatchAt(text, i).Some? {
      read := PlaceholderStep(text, plain, offsets, values, i, k);
      l := MatchAt(plain, k).value.end;
    } else {
      AlignedNext(text, plain, offsets, i, k);
      SymbolStep(text, plain, offsets, values, i, k);
      read, l := [plain[k]], k + 1;
    }
  }

  /** From every aligned place on, when nothing is left open for a value to finish. */
  lemma {:induction false} SubstitutionReads(text: string, plain: string, offsets: seq<nat>, values: Values,
                                             i: nat, k: nat)
    requires Aligned(text, plain, offsets, i, k) && OneLine(values)
    requires NothingOpened(text, EditsFrom(text, values, i), i)
    ensures i <= |text| && k <= |plain|
    ensures Unescape(SubstituteFrom(text, values, i)) == ReplacedFrom(plain, values, k)
    decreases |text| - i
  {
    assert i <= |text| && k <= |plain|;
    AlignedNext(text, plain, offsets, i, k);
    if i < |text| {
      hide Aligned, OneLine, EditsFrom, UnescapeFrom, SubstituteFrom, ReplacedFrom, MatchAt, After;
      if text[i] == '&' && EntityAt(text, i).None? && MatchAt(text, i).None? { BareStays(text, values, i); }
      var read, l := ReadStep(text, plain, offsets, values, i, k);
      EditsAfter(text, values, i);
      SubstitutionReads(text, plain, offsets, values, After(text, i), l);
    }
  }
}
