// The placeholder engine end to end: when a reader of the filled paragraph sees the
// plain text of the paragraph with its placeholders replaced, for every choice of values.
module EndToEnd {
  import opened Prelude
  import opened XmlText
  import opened Placeholder
  import opened Paragraph
  import opened Rendering
  import opened Fill
  import opened Readback
  import opened Exactness
  import opened PlainText

  // ------------------------------------------------------------ a value that finishes a reference

  lemma NameShape(name: string)
    requires IsName(name)
    ensures |name| >= 4 && name[0] == '&' && IsKeyChar(name[1]) && name[1] != 'x'
    ensures EntityAt(name, 0).Some? && EntityAt(name, 0).value.width == |name|
  {
    assert name[0..|name|] == name;
    OnlyOneEntity(name, 0, name);
  }

  /** The rest of a name from number `d` on, and a letter that is in none. */
  function Finish(name: string, d: nat): string
    requires d < |name|
  {
    name[d..] + "x"
  }

  lemma FinishIsPlain(name: string, d: nat)
    requires IsName(name) && 0 < d < |name|
    ensures var v := Finish(name, d); Escape(v) == v && DropControls(v) == v && '\n' !in v && v[0] == name[d]
  {
    var v := Finish(name, d);
    forall c | c in v ensures c in "ltgquoampsx;" {
      var k :| 0 <= k < |v| && v[k] == c;
      assert k < |name| - d ==> c == name[d + k];
    }
    LettersArePlain(v);
  }

  lemma {:induction false} LettersArePlain(v: string)
    requires forall c :: c in v ==> c in "ltgquoampsx;"
    ensures Escape(v) == v && DropControls(v) == v && '\n' !in v
  {
    if v != "" {
      assert v[0] in v && forall c :: c in v[1..] ==> c in v;
      LettersArePlain(v[1..]);
      LetterIsPlain(v[0]);
      hide EscapeChar;
    }
  }

  lemma LetterIsPlain(c: char)
    requires c in "ltgquoampsx;"
    ensures EscapeChar(c) == [c] && c > ' '
  {
  }

  lemma NameReadsAsOne(name: string, rest: string)
    requires IsName(name)
    ensures |Unescape(name + ("x" + rest))| > 1 && Unescape(name + ("x" + rest))[1] == 'x'
  {
    NameShape(name);
    assert ("x" + rest)[0] == 'x';
    NotAReference("x" + rest);
    UnescapeFirst(name);
    UnescapeFirst("x" + rest);
    hide EntityAt;
    UnescapeJoin(name, "x" + rest);
    assert name[|name|..] == "";
  }

  /** A placeholder that stands right after an unfinished reference, with the value that finishes it. */
  ghost predicate Finishes(text: string, values: Values, s: nat, t: nat, name: string) {
    && IsName(name) && s < t < |text| && 0 < t - s < |name| && text[s..t] == name[..t - s] && text[t] == '{'
    && forall key :: key in values ==> values[key] == Finish(name, t - s)
  }

  lemma NoBraceBefore(text: string, values: Values, s: nat, t: nat, name: string)
    requires Finishes(text, values, s, t, name)
    ensures text[s] == '&' && (s + 1 < t ==> text[s + 1] == name[1])
    ensures forall k: nat :: s <= k < t ==> MatchAt(text, k).None?
    ensures EntityAt(text, s).None?
  {
    hide MatchAt, EntityAt;
    assert forall k :: s <= k < t ==> text[k] == text[s..t][k - s] == name[k - s];
    forall k: nat | s <= k < t ensures MatchAt(text, k).None? { NoMatchWithoutBrace(text, k); }
    if EntityAt(text, s).Some? {
      EntityShape(text, s);
    }
  }

  /** In the filled text the reference is finished, and a letter follows its symbol. */
  lemma FinishedReads(text: string, values: Values, s: nat, t: nat, n: nat, name: string)
    requires Finishes(text, values, s, t, name)
    requires n < |EditsFrom(text, values, s)| && EditsFrom(text, values, s)[n].start == t
    ensures MatchAt(text, t).Some?
    ensures var m := MatchAt(text, t).value; m.keyStart <= m.keyEnd <= |text| && Key(text, m) in values
    ensures |Unescape(SubstituteFrom(text, values, s))| > 1 && Unescape(SubstituteFrom(text, values, s))[1] == 'x'
  {
    var v := Finish(name, t - s);
    NoBraceBefore(text, values, s, t, name);
    EditStartsHere(text, values, t, n) by { EditsSkip(text, values, s, t); }
    var m := MatchAt(text, t).value;
    assert values[Key(text, m)] == v && Escape(v) == v by { FinishIsPlain(name, t - s); }
    assert m.end <= |text| && SubstituteFrom(text, values, t) == v + SubstituteFrom(text, values, m.end);
    FinishJoins(text[s..t], name, SubstituteFrom(text, values, m.end));
    hide *;
    CopiedTo(text, values, s, t);
    NameReadsAsOne(name, SubstituteFrom(text, values, m.end));
  }

  lemma FinishJoins(head: string, name: string, rest: string)
    requires |head| < |name| && head == name[..|head|]
    ensures IsName(name) ==> head + (Finish(name, |head|) + rest) == name + ("x" + rest)
  {
    assert head + name[|head|..] == name;
  }

  /** In the plain text the second letter of the reference stands second. */
  lemma SameKeys(text: string, plain: string, offsets: seq<nat>, m: Match, t: Match)
    requires Corresponds(text, plain, offsets, m, t)
    ensures t.keyStart <= t.keyEnd <= |text| && m.keyStart <= m.keyEnd <= |plain| && Key(text, t) == Key(plain, m)
  {
    hide IsPlaceholder, Key;
    PlaceholderBounds(text, t);
    PlaceholderBounds(plain, m);
  }

  lemma FinishedMeant(text: string, plain: string, offsets: seq<nat>, values: Values,
                      s: nat, k: nat, t: nat, name: string)
    requires Aligned(text, plain, offsets, s, k) && Finishes(text, values, s, t, name) && MatchAt(text, t).Some?
    requires var m := MatchAt(text, t).value; m.keyStart <= m.keyEnd <= |text| && Key(text, m) in values
    ensures k <= |plain| && |ReplacedFrom(plain, values, k)| > 1 && ReplacedFrom(plain, values, k)[1] == name[1]
  {
    hide MatchAt, Aligned, EntityAt, Finishes, Key, IsName, DropControls;
    NoBraceBefore(text, values, s, t, name);
    FinishesValue(text, values, s, t, name);
    AlignedNext(text, plain, offsets, s, k);
    NoMatchWithoutBrace(plain, k);
    assert ReplacedFrom(plain, values, k) == [plain[k]] + ReplacedFrom(plain, values, k + 1);
    SecondMeant(text, plain, offsets, values, s + 1, k + 1, t, name[1]);
  }

  lemma FinishesValue(text: string, values: Values, s: nat, t: nat, name: string)
    requires Finishes(text, values, s, t, name)
    ensures s < t < |text| && |name| > 1 && IsKeyChar(name[1])
    ensures forall key :: key in values ==>
      var v := DropControls(values[key]); v != "" && (s + 1 == t ==> v[0] == name[1])
  {
    NameShape(name);
    FinishIsPlain(name, t - s);
    hide IsName, EntityAt, DropControls;
  }

  /** What stands at a place where the text has the letter `c`, or a value that begins with it. */
  lemma SecondMeant(text: string, plain: string, offsets: seq<nat>, values: Values,
                    i: nat, k: nat, t: nat, c: char)
    requires Aligned(text, plain, offsets, i, k) && i <= t < |text| && IsKeyChar(c) && (i < t ==> text[i] == c)
    requires MatchAt(text, t).Some?
    requires var m := MatchAt(text, t).value; m.keyStart <= m.keyEnd <= |text| && Key(text, m) in values
    requires forall key :: key in values ==>
      var v := DropControls(values[key]); v != "" && (i == t ==> v[0] == c)
    ensures k < |plain| && ReplacedFrom(plain, values, k) != "" && ReplacedFrom(plain, values, k)[0] == c
  {
    hide MatchAt, Aligned, Key, DropControls;
    AlignedNext(text, plain, offsets, i, k);
    if i < t {
      SyntaxReadsItself(text, plain, offsets, i, k);
      NoMatchWithoutBrace(plain, k);
    } else {
      MatchStep(text, plain, offsets, i, k);
      SameKeys(text, plain, offsets, MatchAt(plain, k).value, MatchAt(text, t).value);
    }
  }

  /** Up to the first open reference both read the same, and there they part. */
  lemma {:induction false} FinishedMisreads(text: string, plain: string, offsets: seq<nat>, values: Values,
                                            i: nat, k: nat, n: nat, s: nat, name: string)
    requires Aligned(text, plain, offsets, i, k) && OneLine(values) && i <= s
    requires var edits := EditsFrom(text, values, i);
      && n < |edits| && Finishes(text, values, s, edits[n].start, name)
      && NothingOpened(text, edits[..n], i)
    ensures i <= |text| && k <= |plain|
    ensures Unescape(SubstituteFrom(text, values, i)) != ReplacedFrom(plain, values, k)
    decreases s - i
  {
    assert i <= |text| && k <= |plain|;
    hide *;
    var edits := EditsFrom(text, values, i);
    FinishesShape(text, values, s, edits[n].start, name);
    if i == s {
      PartsHere(text, plain, offsets, values, s, k, n, name);
    } else {
      if text[i] == '&' && EntityAt(text, i).None? && MatchAt(text, i).None? {
        StaysBareBefore(text, values, i, n, s);
      } else if MatchAt(text, i).None? {
        NotBare(text, values, i);
      }
      var read, l := ReadStep(text, plain, offsets, values, i, k);
      var j := After(text, i);
      EditsAfter(text, values, i);
      assert j <= s;
      var m := LaterEdit(text, edits, EditsFrom(text, values, j), n, i, j);
      FinishedMisreads(text, plain, offsets, values, j, l, m, s, name);
      StillDiffer(read, Unescape(SubstituteFrom(text, values, j)), ReplacedFrom(plain, values, l));
    }
  }

  lemma StillDiffer(before: string, a: string, b: string)
    requires a != b
    ensures before + a != before + b
  {
    assert (before + a)[|before|..] == a && (before + b)[|before|..] == b;
  }

  lemma PartsHere(text: string, plain: string, offsets: seq<nat>, values: Values,
                  s: nat, k: nat, n: nat, name: string)
    requires Aligned(text, plain, offsets, s, k)
    requires n < |EditsFrom(text, values, s)| && Finishes(text, values, s, EditsFrom(text, values, s)[n].start, name)
    ensures s <= |text| && k <= |plain|
    ensures Unescape(SubstituteFrom(text, values, s)) != ReplacedFrom(plain, values, k)
  {
    hide *;
    var t := EditsFrom(text, values, s)[n].start;
    FinishesShape(text, values, s, t, name);
    FinishedReads(text, values, s, t, n, name);
    FinishedMeant(text, plain, offsets, values, s, k, t, name);
  }

  lemma NotBare(text: string, values: Values, i: nat)
    requires i < |text| && (text[i] != '&' || EntityAt(text, i).Some?)
    ensures StaysBare(text, values, i)
  {
  }

  lemma StaysBareBefore(text: string, values: Values, i: nat, n: nat, s: nat)
    requires i < s && i < |text| && text[i] == '&' && EntityAt(text, i).None? && MatchAt(text, i).None?
    requires var edits := EditsFrom(text, values, i);
      && n < |edits| && s < edits[n].start <= |text| && text[s] == '&' && NothingOpened(text, edits[..n], i)
    ensures StaysBare(text, values, i)
  {
    var edits := EditsFrom(text, values, i);
    var t := edits[0].start;
    if n > 0 {
      assert edits[..n][0] == edits[0];
    } else if IsOpen(text[i..t]) {
      assert text[i..t][s - i] == text[s];
      OpenShape(text[i..t]);
    }
    hide IsOpen, EditsFrom, MatchAt, EntityAt;
    BareStays(text, values, i);
  }

  lemma LaterEdit(text: string, edits: seq<Edit>, later: seq<Edit>, n: nat, i: nat, j: nat) returns (m: nat)
    requires n < |edits| && i <= j && NothingOpened(text, edits[..n], i)
    requires later == edits || (n > 0 && later == edits[1..])
    ensures m < |later| && later[m] == edits[n] && NothingOpened(text, later[..m], j)
  {
    hide IsOpen, StartsApart;
    m := if later == edits then n else n - 1;
    forall k, s: nat | 0 <= k < |later[..m]| && j <= s < later[..m][k].start <= |text|
      ensures !IsOpen(text[s..later[..m][k].start]) || StartsApart(later[..m][k].value)
    {
      assert later[..m][k] == edits[..n][if later == edits then k else k + 1];
    }
  }

  lemma FinishesShape(text: string, values: Values, s: nat, t: nat, name: string)
    requires Finishes(text, values, s, t, name)
    ensures s < t < |text| && text[s] == '&' && |name| > 1 && name[1] != 'x' && IsOpen(text[s..t])
  {
    NameShape(name);
    assert text[s..t][0] == text[s];
  }

  // ------------------------------------------------------------ every value at once

  lemma AlignedAtStart(text: string)
    ensures Aligned(text, Unescape(text), OffsetsFrom(text, 0), 0, 0)
  {
  }

  lemma DirectEditsAre(text: string, values: Values)
    ensures EditsFrom(text, values, 0) == DirectEdits(text, values)
  {
  }

  /** The places of the edits of values with the same keys. */
  lemma PlacesOfKeys(text: string, values: Values, other: Values)
    requires values.Keys == other.Keys
    ensures var edits, others := DirectEdits(text, values), DirectEdits(text, other);
      |edits| == |others|
      && forall k :: 0 <= k < |edits| ==> edits[k].start == others[k].start && edits[k].end == others[k].end
  {
    MatchesAreOrdered(text, 0);
    SamePlaces(text, Matches(text), values, other);
  }

  /** The substituted text as a reader sees it. */
  lemma SubstituteReadsReplaced(text: string, values: Values)
    requires OneLine(values) && NothingOpened(text, DirectEdits(text, values), 0)
    ensures Unescape(Substitute(text, values)) == Replaced(Unescape(text), values)
  {
    AlignedAtStart(text);
    DirectEditsAre(text, values);
    hide Aligned, OneLine, NothingOpened, EditsFrom, DirectEdits, SubstituteFrom, ReplacedFrom, UnescapeFrom;
    SubstitutionReads(text, Unescape(text), OffsetsFrom(text, 0), values, 0, 0);
  }

  /** On a text clean up to its last known placeholder the filled paragraph reads as the substitution on one line. */
  lemma CleanReads(p: string, values: Values)
    requires '<' !in Text(p) && CleanBetween(Text(p), 0, LastEnd(DirectEdits(Text(p), values)))
    ensures Text(Filled(p, values)) == Substitute(Text(p), OnOneLine(values))
  {
    hide TextFrom, Filled, DirectEdits, CleanBetween, OnlyBreaks, StripBreaks, SubstituteFrom, OnOneLine;
    FilledReadsAsSubstitution(p, values);
    StrippedSubstitution(Text(p), values, 0);
  }

  /**
   * End to end: what a reader sees of the filled paragraph is what a reader saw of
   * the paragraph with every known placeholder replaced by its value, control
   * characters aside, whatever runs the text was split into. The text is clean up to
   * its last known placeholder, and no value can finish a reference the text left open.
   */
  lemma FilledParagraphReadsReplaced(p: string, values: Values)
    requires '<' !in Text(p) && CleanBetween(Text(p), 0, LastEnd(DirectEdits(Text(p), values)))
    requires NothingOpened(Text(p), DirectEdits(Text(p), OnOneLine(values)), 0)
    ensures Unescape(Text(Filled(p, values))) == Replaced(Unescape(Text(p)), values)
  {
    hide TextFrom, Filled, DirectEdits, CleanBetween, UnescapeFrom, SubstituteFrom, ReplacedFrom, OnOneLine;
    hide NothingOpened, OneLine;
    CleanReads(p, values);
    OnOneLineIs(values);
    SubstituteReadsReplaced(Text(p), OnOneLine(values));
    ReplacedOnOneLine(Unescape(Text(p)), values, 0);
  }

  lemma NoneOpenNothingOpened(text: string, edits: seq<Edit>, others: seq<Edit>)
    requires NoneLeftOpen(text, edits) && |edits| == |others|
    requires forall k :: 0 <= k < |edits| ==> edits[k].start == others[k].start
    ensures NothingOpened(text, others, 0)
  {
    hide IsOpen, StartsApart;
    forall n, s: nat | 0 <= n < |others| && s < others[n].start <= |text|
      ensures !IsOpen(text[s..others[n].start])
    {
      assert !LeftOpen(text, edits[n].start);
    }
  }

  // ------------------------------------------------------------ values that fail

  lemma {:induction false} NoMarkupOut(text: string, edits: seq<Edit>, j: nat)
    requires j < |text| && '<' !in text && forall k :: 0 <= k < |edits| ==> '<' !in edits[k].value
    ensures '<' !in OutAt(text, edits, j)
  {
    if edits != [] { NoMarkupOut(text, edits[1..], j); }
  }

  lemma {:induction false} NoMarkupRendered(text: string, edits: seq<Edit>, lo: nat, hi: nat)
    requires lo <= hi <= |text| && '<' !in text && forall k :: 0 <= k < |edits| ==> '<' !in edits[k].value
    ensures '<' !in Render(text, edits, lo, hi)
    decreases hi - lo
  {
    if lo < hi {
      NoMarkupOut(text, edits, lo);
      NoMarkupRendered(text, edits, lo + 1, hi);
    }
  }

  /** With one letter for every value the filled paragraph reads as its rendered text. */
  lemma LetterReads(p: string, values: Values, letter: string)
    requires '<' !in Text(p) && letter == "x"
    ensures var text, other := Text(p), AllSet(values, letter);
      Text(Filled(p, other)) == Render(text, MappedEdits(text, other), 0, |text|)
  {
    var text, other := Text(p), AllSet(values, letter);
    var made, due := MappedEdits(text, other), DirectEdits(text, other);
    LettersPutIn(text, values, letter);
    MappedEditsTrack(text, other);
    forall k | 0 <= k < |made| ensures '<' !in made[k].value {
      assert Tracks(text, made[k], due[k]);
    }
    hide *;
    NoMarkupRendered(text, made, 0, |text|);
    FilledReadsAsRuns(p, other);
    FilledIsRendered(p, other);
    PlainHasNoBreaks(Render(text, made, 0, |text|));
  }

  lemma LettersOpenNothing(text: string, values: Values, letter: string)
    requires letter == "x"
    ensures OneLine(AllSet(values, letter)) && NothingOpened(text, DirectEdits(text, AllSet(values, letter)), 0)
  {
    hide DirectEdits, IsOpen;
    LettersPutIn(text, values, letter);
    assert StartsApart(letter);
  }

  lemma ApartReads(before: string, s: string)
    requires StartsApart(s) && s[0] != '&'
    ensures Unescape(before + s) == Unescape(before) + Unescape(s) && Unescape(s) != "" && Unescape(s)[0] == s[0]
  {
    UnescapeJoin(before, s);
    NotAReference(s);
    UnescapeFirst(s);
  }

  /** On a text that is not clean the letter shows the misplaced edit to the reader. */
  lemma MisplacedMisreads(p: string, values: Values, letter: string)
    requires '<' !in Text(p) && letter == "x"
    requires !CleanBetween(Text(p), 0, LastEnd(DirectEdits(Text(p), AllSet(values, letter))))
    ensures Unescape(Text(Filled(p, AllSet(values, letter)))) != Replaced(Unescape(Text(p)), AllSet(values, letter))
  {
    var text, other := Text(p), AllSet(values, letter);
    assert StartsApart(letter) && letter[0] == 'x';
    LetterReads(p, values, letter);
    LettersOpenNothing(text, values, letter);
    LettersPutIn(text, values, letter);
    var n, before, shown, meant := BraceForValue(text, other);
    hide *;
    SubstituteReadsReplaced(text, other);
    var a, b := "{" + shown, letter + meant;
    TwoStarts(a, b);
    ApartReads(before, a);
    ApartReads(before, b);
    DifferAt(Unescape(before), Unescape(a), Unescape(b));
  }

  lemma TwoStarts(a: string, b: string)
    requires a != "" && b != "" && a[0] == '{' && b[0] == 'x'
    ensures StartsApart(a) && StartsApart(b)
  {
  }

  /** The first known placeholder that stands right after an unfinished reference. */
  lemma FirstOpen(text: string, edits: seq<Edit>) returns (n: nat, s: nat)
    requires !NoneLeftOpen(text, edits)
    ensures n < |edits| && s < edits[n].start <= |text| && IsOpen(text[s..edits[n].start])
    ensures NoneLeftOpen(text, edits[..n])
  {
    hide LeftOpen;
    n := 0;
    while n < |edits| && !LeftOpen(text, edits[n].start)
      invariant n <= |edits| && NoneLeftOpen(text, edits[..n])
    {
      assert edits[..n + 1] == edits[..n] + [edits[n]];
      n := n + 1;
    }
    assert edits[..|edits|] == edits;
    s := WhereOpen(text, edits[n].start);
  }

  lemma WhereOpen(text: string, t: nat) returns (s: nat)
    requires LeftOpen(text, t)
    ensures s < t <= |text| && IsOpen(text[s..t])
  {
    hide IsOpen;
    s :| s < t <= |text| && IsOpen(text[s..t]);
  }

  lemma NameOf(head: string) returns (name: string)
    requires IsOpen(head)
    ensures IsName(name) && 0 < |head| < |name| && head == name[..|head|]
  {
    name := if head < "&lt;" then "&lt;" else if head < "&gt;" then "&gt;" else if head < "&quot;" then "&quot;"
            else if head < "&apos;" then "&apos;" else "&amp;";
  }

  /** The values that finish the first open reference are read otherwise. */
  lemma OpenMisreads(p: string, values: Values) returns (other: Values)
    requires '<' !in Text(p) && CleanBetween(Text(p), 0, LastEnd(DirectEdits(Text(p), values)))
    requires !NoneLeftOpen(Text(p), DirectEdits(Text(p), values))
    ensures other.Keys == values.Keys
    ensures Unescape(Text(Filled(p, other))) != Replaced(Unescape(Text(p)), other)
  {
    var text := Text(p);
    var edits := DirectEdits(text, values);
    var n, s := FirstOpen(text, edits);
    var name := NameOf(text[s..edits[n].start]);
    other := AllSet(values, Finish(name, edits[n].start - s));
    FinishIsPlain(name, edits[n].start - s);
    OnOneLineIs(other);
    hide *;
    SameEnds(text, values, other);
    CleanReads(p, other);
    SubstituteMisreads(text, values, other, n, s, name);
  }

  lemma TracksBrace(text: string, made: Edit, due: Edit)
    requires Tracks(text, made, due)
    ensures due.start < |text| && text[due.start] == '{'
  {
  }

  lemma OpenEdit(text: string, values: Values, n: nat)
    requires n < |DirectEdits(text, values)|
    ensures DirectEdits(text, values)[n].start < |text| && text[DirectEdits(text, values)[n].start] == '{'
  {
    hide Tracks, DirectEdits;
    MappedEditsTrack(text, values);
    assert Tracks(text, MappedEdits(text, values)[n], DirectEdits(text, values)[n]);
    TracksBrace(text, MappedEdits(text, values)[n], DirectEdits(text, values)[n]);
  }

  lemma SubstituteMisreads(text: string, values: Values, other: Values, n: nat, s: nat, name: string)
    requires values.Keys == other.Keys && OneLine(other) && IsName(name)
    requires var edits := DirectEdits(text, values);
      && n < |edits| && NoneLeftOpen(text, edits[..n]) && s < edits[n].start <= |text|
      && 0 < edits[n].start - s < |name| && text[s..edits[n].start] == name[..edits[n].start - s]
      && forall key :: key in other ==> other[key] == Finish(name, edits[n].start - s)
    ensures Unescape(Substitute(text, other)) != Replaced(Unescape(text), other)
  {
    var edits, others := DirectEdits(text, values), DirectEdits(text, other);
    PlacesOfKeys(text, values, other);
    OpenEdit(text, other, n);
    DirectEditsAre(text, other);
    AlignedAtStart(text);
    NoneOpenNothingOpened(text, edits[..n], others[..n]);
    var t := others[n].start;
    assert Finishes(text, other, s, t, name);
    hide DirectEdits, EditsFrom, Finishes, Aligned, NothingOpened, SubstituteFrom, ReplacedFrom, UnescapeFrom;
    FinishedMisreads(text, Unescape(text), OffsetsFrom(text, 0), other, 0, 0, n, s, name);
  }

  // ------------------------------------------------------------ exactly when

  /**
   * A paragraph can be filled with every choice of values for the known keys, and the
   * reader sees each in its place, exactly when the text is clean up to its last known
   * placeholder and none of them stands right after an unfinished reference.
   */
  lemma EveryFillingReadsIff(p: string, values: Values)
    requires '<' !in Text(p)
    ensures (forall other: Values :: other.Keys == values.Keys ==>
               Unescape(Text(Filled(p, other))) == Replaced(Unescape(Text(p)), other))
       <==> CleanBetween(Text(p), 0, LastEnd(DirectEdits(Text(p), values)))
            && NoneLeftOpen(Text(p), DirectEdits(Text(p), values))
  {
    hide *;
    var text := Text(p);
    if !CleanBetween(text, 0, LastEnd(DirectEdits(text, values))) {
      var letter := "x";
      SameEnds(text, values, AllSet(values, letter));
      MisplacedMisreads(p, values, letter);
    } else if !NoneLeftOpen(text, DirectEdits(text, values)) {
      var other := OpenMisreads(p, values);
    } else {
      forall other: Values | other.Keys == values.Keys
        ensures Unescape(Text(Filled(p, other))) == Replaced(Unescape(text), other)
      {
        SameEnds(text, values, other);
        PlacesOfKeys(text, values, OnOneLine(other));
        NoneOpenNothingOpened(text, DirectEdits(text, values), DirectEdits(text, OnOneLine(other)));
        FilledParagraphReadsReplaced(p, other);
      }
    }
  }

  const OPEN_REFERENCE := "&lt{{k}}"

  lemma OpenReferenceMatches()
    ensures MatchAt(OPEN_REFERENCE, 3) == Some(Match(3, 5, 6, 8)) && Key(OPEN_REFERENCE, Match(3, 5, 6, 8)) == "k"
    ensures forall k: nat :: k < 3 ==> MatchAt(OPEN_REFERENCE, k).None?
  {
    var text := OPEN_REFERENCE;
    assert text[3..5] == "{{" && text[6..8] == "}}" && text[5] == 'k' && text[5..6] == "k";
    assert IsPlaceholder(text, Match(3, 5, 6, 8));
    MatchAtIsTheExpression(text, Match(3, 5, 6, 8));
    forall k: nat | k < 3 ensures MatchAt(text, k).None? { NoMatchWithoutBrace(text, k); }
  }

  lemma OpenReferenceIsPlain()
    ensures Unescape(OPEN_REFERENCE) == OPEN_REFERENCE
    ensures forall n :: CleanBetween(OPEN_REFERENCE, 0, n)
  {
    var text := OPEN_REFERENCE;
    forall k: nat | k < |text| ensures ShortReferenceEnd(text, k).None? && EntityAt(text, k).None? {
      IndexByteIsFirst(text, k, ';');
      if EntityAt(text, k).Some? { EntityShape(text, k); }
    }
    NothingToUnescape(text, 0);
    assert text[0..] == text;
  }

  lemma OpenReferenceReplaced(text: string, values: Values)
    requires text == OPEN_REFERENCE && "k" in values && values["k"] == ";"
    ensures Substitute(text, values) == "&lt;" == Replaced(text, values)
  {
    OpenReferenceMatches();
    assert Escape(";") == ";" && DropControls(";") == ";";
    assert |text| == 8 && text[0..3] == "&lt";
    hide MatchAt, Key, Escape, DropControls, OPEN_REFERENCE;
    assert SubstituteFrom(text, values, 3) == ";" + SubstituteFrom(text, values, 8) == ";";
    CopiedTo(text, values, 0, 3);
    assert ReplacedFrom(text, values, 3) == ";" + ReplacedFrom(text, values, 8) == ";";
    assert ReplacedFrom(text, values, 2) == [text[2]] + ReplacedFrom(text, values, 3);
    assert ReplacedFrom(text, values, 1) == [text[1]] + ReplacedFrom(text, values, 2);
    assert ReplacedFrom(text, values, 0) == [text[0]] + ReplacedFrom(text, values, 1);
  }

  /** A filled paragraph without markup in its text reads as its substituted text. */
  lemma ReadsThrough(p: string, values: Values, s: string)
    requires '<' !in Text(p) && CleanBetween(Text(p), 0, LastEnd(DirectEdits(Text(p), values)))
    requires Substitute(Text(p), values) == s && '<' !in s
    ensures Text(Filled(p, values)) == s
  {
    hide *;
    FilledReadsAsSubstitution(p, values);
    PlainHasNoBreaks(s);
  }

  /**
   * The condition is needed: a bare `&` before a placeholder can take the first
   * semicolon of a value for its own, and the reader sees a character nobody typed.
   */
  lemma BareAmpersandSwallows(p: string, values: Values, swallowed: string)
    requires Text(p) == OPEN_REFERENCE && "k" in values && values["k"] == ";" && swallowed == "&lt;"
    ensures Unescape(Text(Filled(p, values))) == "<"
    ensures Replaced(Unescape(Text(p)), values) == swallowed
  {
    var text := Text(p);
    SemicolonFinishes(text, values);
    hide *;
    OpenReferenceReplaced(text, values);
    OneReference(swallowed);
    ReadsThrough(p, values, swallowed);
  }

  lemma SemicolonFinishes(text: string, values: Values)
    requires text == OPEN_REFERENCE
    ensures Unescape(text) == text && '<' !in text && CleanBetween(text, 0, LastEnd(DirectEdits(text, values)))
  {
    OpenReferenceIsPlain();
  }

  lemma OneReference(s: string)
    requires s == "&lt;"
    ensures Unescape(s) == "<"
  {
    assert s[0..4] == s;
    OnlyOneEntity(s, 0, "&lt;");
    assert UnescapeFrom(s, 0) == ['<'] + UnescapeFrom(s, 4);
  }
}
