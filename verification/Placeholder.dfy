// The placeholder syntax {{ key }} of internal/docxt/docxt.go and the search for it.
module Placeholder {
  import opened Prelude
  import opened XmlText

  /** `\s` of Go's regexp syntax. */
  predicate IsSpace(c: char) {
    c in {'\t', '\n', '\U{000C}', '\r', ' '}
  }

  predicate IsKeyChar(c: char) {
    'A' <= c <= 'Z' || 'a' <= c <= 'z' || '0' <= c <= '9' || c == '_' || c == '-'
  }

  datatype Match = Match(start: nat, keyStart: nat, keyEnd: nat, end: nat)

  /** The regular expression, read as a condition on the four offsets of a match. */
  ghost predicate IsPlaceholder(s: string, m: Match) {
    && m.start + 2 <= m.keyStart < m.keyEnd && m.keyEnd + 2 <= m.end <= |s|
    && HasAt(s, m.start, "{{")
    && (forall k :: m.start + 2 <= k < m.keyStart ==> IsSpace(s[k]))
    && (forall k :: m.keyStart <= k < m.keyEnd ==> IsKeyChar(s[k]))
    && (forall k :: m.keyEnd <= k < m.end - 2 ==> IsSpace(s[k]))
    && HasAt(s, m.end - 2, "}}")
  }

  function SkipSpaces(s: string, i: nat): (j: nat)
    ensures i <= j && (i <= |s| ==> j <= |s|)
    ensures forall k :: i <= k < j ==> k < |s| && IsSpace(s[k])
    ensures j < |s| ==> !IsSpace(s[j])
    decreases |s| - i
  {
    if i < |s| && IsSpace(s[i]) then SkipSpaces(s, i + 1) else i
  }

  function SkipKey(s: string, i: nat): (j: nat)
    ensures i <= j && (i <= |s| ==> j <= |s|)
    ensures forall k :: i <= k < j ==> k < |s| && IsKeyChar(s[k])
    ensures j < |s| ==> !IsKeyChar(s[j])
    decreases |s| - i
  {
    if i < |s| && IsKeyChar(s[i]) then SkipKey(s, i + 1) else i
  }

  /** The match that starts at `i`, if there is one. */
  function MatchAt(s: string, i: nat): (r: Option<Match>)
    ensures r.Some? ==> r.value.start == i && IsPlaceholder(s, r.value)
  {
    if !HasAt(s, i, "{{") then None else
    var a := SkipSpaces(s, i + 2);
    var b := SkipKey(s, a);
    var c := SkipSpaces(s, b);
    if a == b || !HasAt(s, c, "}}") then None else Some(Match(i, a, b, c + 2))
  }

  lemma SkipSpacesIs(s: string, i: nat, j: nat)
    requires i <= j < |s| && !IsSpace(s[j]) && forall k :: i <= k < j ==> IsSpace(s[k])
    ensures SkipSpaces(s, i) == j
  {
    hide SkipSpaces, IsSpace;
  }

  lemma SkipKeyIs(s: string, i: nat, j: nat)
    requires i <= j < |s| && !IsKeyChar(s[j]) && forall k :: i <= k < j ==> IsKeyChar(s[k])
    ensures SkipKey(s, i) == j
  {
    hide SkipKey, IsKeyChar;
  }

  /** Spaces and key both end where the expression says. */
  lemma ExpressionStops(s: string, m: Match)
    requires IsPlaceholder(s, m)
    ensures !IsSpace(s[m.keyStart]) && !IsKeyChar(s[m.keyEnd]) && !IsSpace(s[m.end - 2])
  {
    assert s[m.end - 2..m.end][0] == s[m.end - 2] == '}';
    assert IsKeyChar(s[m.keyStart]);
    assert m.keyEnd < m.end - 2 ==> IsSpace(s[m.keyEnd]);
  }

  /** The matcher finds exactly the matches of the regular expression. */
  lemma MatchAtIsTheExpression(s: string, m: Match)
    ensures MatchAt(s, m.start) == Some(m) <==> IsPlaceholder(s, m)
  {
    if IsPlaceholder(s, m) {
      ExpressionStops(s, m);
      SkipSpacesIs(s, m.start + 2, m.keyStart);
      SkipKeyIs(s, m.keyStart, m.keyEnd);
      SkipSpacesIs(s, m.keyEnd, m.end - 2);
      hide SkipSpaces, SkipKey, IsSpace, IsKeyChar, HasAt;
    }
  }

  function Key(s: string, m: Match): string
    requires m.keyStart <= m.keyEnd <= |s|
  {
    s[m.keyStart..m.keyEnd]
  }

  const UPPER := "ABCDEFGHIJKLMNOPQRSTUVWXYZ"
  const LOWER := "abcdefghijklmnopqrstuvwxyz"
  const DIGITS := "0123456789"

  lemma UpperCase(c: char)
    ensures 'A' <= c <= 'Z' <==> c in UPPER
  {
    assert |UPPER| == 26 && forall k :: 0 <= k < 26 ==> UPPER[k] as int == 'A' as int + k;
    if 'A' <= c <= 'Z' { assert UPPER[c as int - 'A' as int] == c; }
  }

  lemma LowerCase(c: char)
    ensures 'a' <= c <= 'z' <==> c in LOWER
  {
    assert |LOWER| == 26 && forall k :: 0 <= k < 26 ==> LOWER[k] as int == 'a' as int + k;
    if 'a' <= c <= 'z' { assert LOWER[c as int - 'a' as int] == c; }
  }

  lemma DigitCase(c: char)
    ensures '0' <= c <= '9' <==> c in DIGITS
  {
    assert |DIGITS| == 10 && forall k :: 0 <= k < 10 ==> DIGITS[k] as int == '0' as int + k;
    if '0' <= c <= '9' { assert DIGITS[c as int - '0' as int] == c; }
  }

  /** Letters, digits, `_` and `-`. */
  ghost predicate IsKey(key: string) {
    key != "" && forall k :: 0 <= k < |key| ==> key[k] in UPPER || key[k] in LOWER || key[k] in DIGITS || key[k] in "_-"
  }

  /** White space the expression allows around a key. */
  ghost predicate IsBlank(s: string) {
    forall k :: 0 <= k < |s| ==> s[k] in {' ', '\t', '\n', '\r', '\U{000C}'}
  }

  lemma KeyIsKeyChars(key: string)
    ensures IsKey(key) <==> key != "" && forall k :: 0 <= k < |key| ==> IsKeyChar(key[k])
  {
    forall k | 0 <= k < |key|
      ensures IsKeyChar(key[k]) <==> key[k] in UPPER || key[k] in LOWER || key[k] in DIGITS || key[k] in "_-"
    {
      UpperCase(key[k]);
      LowerCase(key[k]);
      DigitCase(key[k]);
      hide UPPER, LOWER, DIGITS;
    }
  }

  /** A key between braces, with spaces around it or without. */
  function Braced(left: string, key: string, right: string): string {
    "{{" + left + key + right + "}}"
  }

  lemma BracedParts(s: string, at: nat, left: string, key: string, right: string)
    requires HasAt(s, at, Braced(left, key, right))
    ensures var a := at + 2 + |left|; var b := a + |key|; var c := b + |right|;
      && c + 2 == at + |Braced(left, key, right)| <= |s|
      && s[at..at + 2] == "{{" && s[at + 2..a] == left && s[a..b] == key && s[b..c] == right && s[c..c + 2] == "}}"
  {
    var w := Braced(left, key, right);
    var a := 2 + |left|;
    var b := a + |key|;
    var c := b + |right|;
    assert w[..2] == "{{" && w[2..a] == left && w[a..b] == key && w[b..c] == right && w[c..] == "}}";
    hide Braced;
    SliceOfSlice(s, at, at + |w|, 0, 2);
    SliceOfSlice(s, at, at + |w|, 2, a);
    SliceOfSlice(s, at, at + |w|, a, b);
    SliceOfSlice(s, at, at + |w|, b, c);
    SliceOfSlice(s, at, at + |w|, c, c + 2);
  }

  lemma KeyWithin(s: string, m: Match)
    requires m.start + 2 <= m.keyStart < m.keyEnd && m.keyEnd + 2 <= m.end <= |s|
    requires HasAt(s, m.start, "{{") && HasAt(s, m.end - 2, "}}")
    requires IsBlank(s[m.start + 2..m.keyStart]) && IsKey(s[m.keyStart..m.keyEnd]) && IsBlank(s[m.keyEnd..m.end - 2])
    ensures IsPlaceholder(s, m)
  {
    hide IsKey, IsKeyChar, IsSpace, IsBlank, HasAt;
    BlankWithin(s, m.start + 2, m.keyStart);
    KeyCharsWithin(s, m.keyStart, m.keyEnd);
    BlankWithin(s, m.keyEnd, m.end - 2);
  }

  lemma KeyCharsWithin(s: string, a: nat, b: nat)
    requires a <= b <= |s| && IsKey(s[a..b])
    ensures forall k :: a <= k < b ==> IsKeyChar(s[k])
  {
    KeyIsKeyChars(s[a..b]);
    hide IsKey, IsKeyChar;
    assert forall k :: a <= k < b ==> s[k] == s[a..b][k - a];
  }

  lemma BlankWithin(s: string, a: nat, b: nat)
    requires a <= b <= |s| && IsBlank(s[a..b])
    ensures forall k :: a <= k < b ==> IsSpace(s[k])
  {
    assert forall k :: a <= k < b ==> s[k] == s[a..b][k - a];
  }

  /** A key of letters, digits, `_` and `-` written in braces, with spaces or without, is matched as that key. */
  lemma WrittenKeyIsMatched(s: string, at: nat, left: string, key: string, right: string)
    requires IsBlank(left) && IsKey(key) && IsBlank(right) && HasAt(s, at, Braced(left, key, right))
    ensures var m := MatchAt(s, at);
      m.Some? && m.value.end == at + |Braced(left, key, right)| && Key(s, m.value) == key
  {
    BracedParts(s, at, left, key, right);
    var a := at + 2 + |left|;
    var b := a + |key|;
    var m := Match(at, a, b, b + |right| + 2);
    assert key != "" && Key(s, m) == key && HasAt(s, m.start, "{{") && HasAt(s, m.end - 2, "}}");
    hide *;
    KeyWithin(s, m);
    MatchAtIsTheExpression(s, m);
  }

  /** regexp.FindAll from `i` on: leftmost matches, each search resuming at the end of the last match. */
  function MatchesFrom(s: string, i: nat): (r: seq<Match>)
    decreases |s| - i
  {
    if i >= |s| then [] else
    var m := MatchAt(s, i);
    if m.Some? then [m.value] + MatchesFrom(s, m.value.end) else MatchesFrom(s, i + 1)
  }

  function Matches(s: string): seq<Match> {
    MatchesFrom(s, 0)
  }

  ghost predicate Ordered(s: string, ms: seq<Match>, from: nat) {
    && (forall k :: 0 <= k < |ms| ==> from <= ms[k].start && IsPlaceholder(s, ms[k]))
    && (forall j, k :: 0 <= j < k < |ms| ==> ms[j].end <= ms[k].start)
  }

  lemma MatchBounds(s: string, i: nat)
    requires MatchAt(s, i).Some?
    ensures var m := MatchAt(s, i).value; m.start == i < m.end && IsPlaceholder(s, m)
  {
  }

  lemma OrderedCons(s: string, m: Match, rest: seq<Match>, from: nat)
    requires from <= m.start < m.end && IsPlaceholder(s, m) && Ordered(s, rest, m.end)
    ensures Ordered(s, [m] + rest, from)
  {
    hide IsPlaceholder;
  }

  lemma {:induction false} MatchesAreOrdered(s: string, i: nat)
    ensures Ordered(s, MatchesFrom(s, i), i)
    decreases |s| - i
  {
    if i < |s| {
      var m := MatchAt(s, i);
      hide MatchAt, IsPlaceholder;
      if m.Some? {
        var rest := MatchesFrom(s, m.value.end);
        MatchBounds(s, i);
        MatchesAreOrdered(s, m.value.end);
        hide MatchesFrom;
        OrderedCons(s, m.value, rest, i);
      } else {
        MatchesAreOrdered(s, i + 1);
      }
    }
  }

  /** Nothing is missed: a placeholder that is not reported overlaps an earlier reported one. */
  lemma {:induction false} NoPlaceholderIsMissed(s: string, i: nat, m: Match)
    requires IsPlaceholder(s, m) && i <= m.start
    ensures m in MatchesFrom(s, i) ||
      exists o :: o in MatchesFrom(s, i) && o.start < m.start < o.end
    decreases |s| - i
  {
    MatchAtIsTheExpression(s, m);
    var here := MatchAt(s, i);
    if i == m.start {
      assert MatchesFrom(s, i)[0] == m;
    } else if here.Some? {
      assert here.value == MatchesFrom(s, i)[0];
      assert MatchesFrom(s, i)[1..] == MatchesFrom(s, here.value.end);
      if here.value.end <= m.start {
        NoPlaceholderIsMissed(s, here.value.end, m);
      }
    } else {
      NoPlaceholderIsMissed(s, i + 1, m);
    }
  }

  // ------------------------------------------------- escaped and unescaped text

  /**
   * Offset `k` of `plain` is read at offset `i` of the text, where `offsets` is the
   * index in the text of every symbol of `plain`.
   */
  ghost predicate Aligned(text: string, plain: string, offsets: seq<nat>, i: nat, k: nat) {
    && i <= |text| && k <= |plain| && |offsets| == |plain| + 1
    && UnescapeFrom(text, i) == plain[k..]
    && OffsetsFrom(text, i) == offsets[k..]
  }

  lemma AlignedNext(text: string, plain: string, offsets: seq<nat>, i: nat, k: nat)
    requires Aligned(text, plain, offsets, i, k)
    ensures i == |text| <==> k == |plain|
    ensures offsets[k] == i
    ensures i < |text| ==>
      plain[k] == SymbolAt(text, i) && Aligned(text, plain, offsets, Next(text, i), k + 1)
  {
    assert offsets[k..][0] == offsets[k];
    if i < |text| {
      assert plain[k..][0] == plain[k];
      assert plain[k + 1..] == plain[k..][1..];
      assert offsets[k + 1..] == offsets[k..][1..];
    }
  }

  /** The characters placeholders are made of are never the result of a reference. */
  predicate IsSyntax(c: char) {
    IsSpace(c) || IsKeyChar(c) || c == '{' || c == '}'
  }

  lemma SyntaxReadsItself(text: string, plain: string, offsets: seq<nat>, i: nat, k: nat)
    requires Aligned(text, plain, offsets, i, k) && i < |text|
    ensures k < |plain|
    ensures IsSyntax(text[i]) || IsSyntax(plain[k]) ==>
      text[i] == plain[k] && Aligned(text, plain, offsets, i + 1, k + 1)
  {
    AlignedNext(text, plain, offsets, i, k);
    if EntityAt(text, i).Some? {
      EntityShape(text, i);
    }
  }

  ghost predicate SyntaxRun(s: string, i: nat, d: nat) {
    i + d <= |s| && forall j :: i <= j < i + d ==> IsSyntax(s[j])
  }

  lemma SyntaxRunTail(s: string, i: nat, d: nat)
    requires SyntaxRun(s, i, d) && d > 0
    ensures i < |s| && IsSyntax(s[i]) && SyntaxRun(s, i + 1, d - 1)
  {
    hide IsSyntax;
  }

  lemma AlignedBounds(text: string, plain: string, offsets: seq<nat>, i: nat, k: nat)
    requires Aligned(text, plain, offsets, i, k)
    ensures i <= |text| && k <= |plain|
  {
  }

  /** A run of `d` syntax characters is the same run in the unescaped text. */
  lemma {:induction false} RunAligned(text: string, plain: string, offsets: seq<nat>, i: nat, k: nat, d: nat)
    requires Aligned(text, plain, offsets, i, k)
    requires SyntaxRun(text, i, d) || SyntaxRun(plain, k, d)
    ensures Aligned(text, plain, offsets, i + d, k + d)
    ensures i + d <= |text| && k + d <= |plain| && text[i..i + d] == plain[k..k + d]
    decreases d
  {
    hide Aligned, IsSyntax, SyntaxRun, UnescapeFrom, OffsetsFrom;
    AlignedBounds(text, plain, offsets, i, k);
    if d > 0 {
      if SyntaxRun(text, i, d) { SyntaxRunTail(text, i, d); } else { SyntaxRunTail(plain, k, d); }
      AlignedNext(text, plain, offsets, i, k);
      SyntaxReadsItself(text, plain, offsets, i, k);
      RunAligned(text, plain, offsets, i + 1, k + 1, d - 1);
      SliceCons(text, i, i + d);
      SliceCons(plain, k, k + d);
    }
  }

  function Shift(m: Match, d: int): Match
    requires 0 <= m.start + d && m.start <= m.keyStart <= m.keyEnd <= m.end
  {
    Match(m.start + d, m.keyStart + d, m.keyEnd + d, m.end + d)
  }

  lemma PlaceholderBounds(s: string, m: Match)
    requires IsPlaceholder(s, m)
    ensures m.start + 2 <= m.keyStart < m.keyEnd < m.keyEnd + 2 <= m.end <= |s|
  {
  }

  lemma PlaceholderIsSyntax(s: string, m: Match)
    requires IsPlaceholder(s, m)
    ensures m.start < m.end && SyntaxRun(s, m.start, m.end - m.start)
  {
    assert s[m.start] == s[m.start..m.start + 2][0] && s[m.start + 1] == s[m.start..m.start + 2][1];
    assert s[m.end - 2] == s[m.end - 2..m.end][0] && s[m.end - 1] == s[m.end - 2..m.end][1];
  }

  /** The same bytes elsewhere are the same placeholder. */
  lemma PlaceholderMoves(s: string, m: Match, t: string, d: int)
    requires IsPlaceholder(s, m) && 0 <= m.start + d && m.end + d <= |t|
    requires s[m.start..m.end] == t[m.start + d..m.end + d]
    ensures IsPlaceholder(t, Shift(m, d))
  {
    var x, y := s[m.start..m.end], t[m.start + d..m.end + d];
    forall j | m.start <= j < m.end ensures t[j + d] == s[j] {
      assert x[j - m.start] == s[j] && y[j - m.start] == t[j + d];
    }
    forall j | m.start + d <= j < m.end + d ensures t[j] == s[j - d] {
      assert t[(j - d) + d] == s[j - d];
    }
    assert t[m.start + d..m.start + d + 2] == s[m.start..m.start + 2];
    assert t[m.end + d - 2..m.end + d] == s[m.end - 2..m.end];
  }

  /** A match found again over the same `n` bytes at `k`. */
  lemma MovedMatch(s: string, m: Match, t: string, k: nat, n: nat)
    requires IsPlaceholder(s, m) && m.end == m.start + n && k + n <= |t| && m.end <= |s|
    requires s[m.start..m.start + n] == t[k..k + n]
    ensures m.start <= m.keyStart <= m.keyEnd <= m.end && MatchAt(t, k) == Some(Shift(m, k - m.start))
  {
    PlaceholderBounds(s, m);
    hide IsPlaceholder, MatchAt;
    var d := k - m.start;
    assert m.start + d == k && m.end + d == k + n;
    PlaceholderMoves(s, m, t, d);
    MatchAtIsTheExpression(t, Shift(m, d));
  }

  /** A match in the text is the same bytes at the aligned place of the unescaped text. */
  lemma MatchAlignedDown(text: string, plain: string, offsets: seq<nat>, i: nat, k: nat, t: Match, n: nat)
    requires Aligned(text, plain, offsets, i, k)
    requires IsPlaceholder(text, t) && t.start == i && t.end == i + n
    ensures t.start <= t.keyStart <= t.keyEnd <= t.end && MatchAt(plain, k) == Some(Shift(t, k - i))
    ensures i + n <= |text| && k + n <= |plain| && text[i..i + n] == plain[k..k + n]
    ensures Aligned(text, plain, offsets, i + n, k + n)
  {
    hide *;
    PlaceholderIsSyntax(text, t);
    RunAligned(text, plain, offsets, i, k, n);
    MovedMatch(text, t, plain, k, n);
  }

  /** And the other way round. */
  lemma MatchAlignedUp(text: string, plain: string, offsets: seq<nat>, i: nat, k: nat, m: Match, n: nat)
    requires Aligned(text, plain, offsets, i, k)
    requires IsPlaceholder(plain, m) && m.start == k && m.end == k + n
    ensures MatchAt(text, i).Some?
  {
    hide *;
    PlaceholderIsSyntax(plain, m);
    RunAligned(text, plain, offsets, i, k, n);
    MovedMatch(plain, m, text, i, n);
  }

  /** Inside a reference no match can start, so the search skips it whole. */
  lemma {:induction false} MatchesSkipReference(text: string, i: nat, j: nat)
    requires EntityAt(text, i).Some? && i <= j <= i + EntityAt(text, i).value.width
    ensures MatchesFrom(text, j) == MatchesFrom(text, i + EntityAt(text, i).value.width)
    decreases |text| - j
  {
    hide MatchAt;
    EntityShape(text, i);
    hide EntityAt;
    if j < i + EntityAt(text, i).value.width {
      NoMatchWithoutBrace(text, j);
      MatchesSkipReference(text, i, j + 1);
    }
  }

  lemma NoMatchWithoutBrace(s: string, i: nat)
    requires i < |s| && s[i] != '{'
    ensures MatchAt(s, i).None?
  {
    if i + 2 <= |s| { assert s[i..i + 2][0] == s[i]; }
  }

  /** `t` is the match `m` of the unescaped text, found at the mapped offsets of the text. */
  ghost predicate Corresponds(text: string, plain: string, offsets: seq<nat>, m: Match, t: Match) {
    && IsPlaceholder(plain, m) && IsPlaceholder(text, t) && |offsets| == |plain| + 1
    && t.start == offsets[m.start] && t.end == offsets[m.end]
    && text[t.start..t.end] == plain[m.start..m.end]
    && Key(text, t) == Key(plain, m)
  }

  lemma CorrespondsAt(text: string, plain: string, offsets: seq<nat>, t: Match, m: Match)
    requires Aligned(text, plain, offsets, t.start, m.start) && Aligned(text, plain, offsets, t.end, m.end)
    requires IsPlaceholder(text, t) && IsPlaceholder(plain, m) && m == Shift(t, m.start - t.start)
    requires text[t.start..t.end] == plain[m.start..m.end]
    ensures Corresponds(text, plain, offsets, m, t)
  {
    hide Aligned;
    hide Key;
    AlignedNext(text, plain, offsets, t.start, m.start);
    AlignedNext(text, plain, offsets, t.end, m.end);
    KeyInside(text, t);
    KeyInside(plain, m);
  }

  lemma KeyInside(s: string, m: Match)
    requires m.start <= m.keyStart <= m.keyEnd <= m.end <= |s|
    ensures Key(s, m) == s[m.start..m.end][m.keyStart - m.start..m.keyEnd - m.start]
  {
  }

  /** Where no match starts, the search goes on at the next symbol. */
  lemma NoMatchHere(text: string, plain: string, offsets: seq<nat>, i: nat, k: nat)
    requires Aligned(text, plain, offsets, i, k) && i < |text| && MatchAt(text, i).None?
    ensures k < |plain| && Aligned(text, plain, offsets, Next(text, i), k + 1)
    ensures MatchesFrom(text, i) == MatchesFrom(text, Next(text, i))
    ensures MatchesFrom(plain, k) == MatchesFrom(plain, k + 1)
  {
    AlignedNext(text, plain, offsets, i, k);
    var p := MatchAt(plain, k);
    if p.Some? {
      PlaceholderBounds(plain, p.value);
      MatchAlignedUp(text, plain, offsets, i, k, p.value, p.value.end - k);
    }
    if EntityAt(text, i).Some? {
      EntityShape(text, i);
      MatchesSkipReference(text, i, i);
    }
  }

  lemma {:induction false} MatchesCorrespondFrom(text: string, plain: string, offsets: seq<nat>, i: nat, k: nat)
    requires Aligned(text, plain, offsets, i, k)
    ensures |MatchesFrom(text, i)| == |MatchesFrom(plain, k)|
    ensures forall n :: 0 <= n < |MatchesFrom(text, i)| ==>
      Corresponds(text, plain, offsets, MatchesFrom(plain, k)[n], MatchesFrom(text, i)[n])
    decreases |text| - i
  {
    assert i <= |text|;
    hide Aligned, Corresponds, MatchAt, IsPlaceholder, Key;
    if i == |text| {
      AlignedNext(text, plain, offsets, i, k);
    } else if MatchAt(text, i).Some? {
      MatchStep(text, plain, offsets, i, k);
      var t, m := MatchAt(text, i).value, MatchAt(plain, k).value;
      MatchesCorrespondFrom(text, plain, offsets, t.end, m.end);
      assert MatchesFrom(text, i) == [t] + MatchesFrom(text, t.end);
      assert MatchesFrom(plain, k) == [m] + MatchesFrom(plain, m.end);
    } else {
      NoMatchHere(text, plain, offsets, i, k);
      MatchesCorrespondFrom(text, plain, offsets, Next(text, i), k + 1);
    }
  }

  lemma MatchStep(text: string, plain: string, offsets: seq<nat>, i: nat, k: nat)
    requires Aligned(text, plain, offsets, i, k) && MatchAt(text, i).Some?
    ensures i < |text| && k < |plain| && MatchAt(plain, k).Some?
    ensures var t, m := MatchAt(text, i).value, MatchAt(plain, k).value;
      && i < t.end <= |text| && k < m.end <= |plain|
      && Aligned(text, plain, offsets, t.end, m.end) && Corresponds(text, plain, offsets, m, t)
  {
    hide Aligned, Corresponds;
    var t := MatchAt(text, i).value;
    PlaceholderBounds(text, t);
    MatchAlignedDown(text, plain, offsets, i, k, t, t.end - i);
    hide MatchAt;
    CorrespondsAt(text, plain, offsets, t, Shift(t, k - i));
  }

  /**
   * Searching the escaped and the unescaped text finds the same placeholders,
   * one by one, each over the same bytes, for every text whatsoever.
   */
  lemma MatchesCorrespond(text: string)
    ensures |Matches(text)| == |Matches(Unescape(text))|
    ensures forall n :: 0 <= n < |Matches(text)| ==>
      Corresponds(text, Unescape(text), OffsetsFrom(text, 0), Matches(Unescape(text))[n], Matches(text)[n])
  {
    assert Aligned(text, Unescape(text), OffsetsFrom(text, 0), 0, 0);
    MatchesCorrespondFrom(text, Unescape(text), OffsetsFrom(text, 0), 0, 0);
  }
}
