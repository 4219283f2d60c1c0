// The cells of internal/xlsxw/xlsxw.go: column names, references, and what a
// reader of the sheet gets back from each cell.
module Spreadsheet {
  import opened Prelude
  import Numbers
  import XmlText

  function Letter(n: nat): char
    requires n < 26
  {
    'A' + n as char
  }

  predicate IsLetter(c: char) {
    'A' <= c <= 'Z'
  }

  /** The column name of an index; an index below zero has none. */
  function ColName(i: int): (s: string)
    ensures forall k :: 0 <= k < |s| ==> IsLetter(s[k])
    ensures i >= 0 ==> s != ""
    decreases i
  {
    if i < 0 then "" else ColName(i / 26 - 1) + [Letter(i % 26)]
  }

  /** The loop that puts letters in front. */
  method WriteColName(index: int) returns (name: string)
    ensures name == ColName(index)
  {
    name := "";
    var i := index;
    while i >= 0
      invariant ColName(index) == ColName(i) + name
      decreases i
    {
      JoinAssociates(ColName(i / 26 - 1), [Letter(i % 26)], name);
      name := [Letter(i % 26)] + name;
      i := i / 26 - 1;
    }
  }

  /** The index a column name stands for. */
  function ColIndex(s: string): int
    requires forall k :: 0 <= k < |s| ==> IsLetter(s[k])
  {
    if s == "" then -1 else (ColIndex(s[..|s| - 1]) + 1) * 26 + (s[|s| - 1] as int - 'A' as int)
  }

  lemma {:induction false} IndexOfName(i: int)
    requires i >= -1
    ensures ColIndex(ColName(i)) == i
  {
    if i >= 0 {
      var name := ColName(i);
      IndexOfName(i / 26 - 1);
      assert name[..|name| - 1] == ColName(i / 26 - 1);
    }
  }

  lemma Division(q: nat, r: nat)
    requires r < 26
    ensures (q * 26 + r) / 26 == q && (q * 26 + r) % 26 == r
  {
  }

  lemma {:induction false} NameOfIndex(s: string)
    requires forall k :: 0 <= k < |s| ==> IsLetter(s[k])
    ensures ColIndex(s) >= -1 && (s != "" ==> ColIndex(s) >= 0) && ColName(ColIndex(s)) == s
  {
    if s != "" {
      var init, last := s[..|s| - 1], s[|s| - 1];
      NameOfIndex(init);
      assert IsLetter(last) && s == init + [last];
      Division(ColIndex(init) + 1, last as int - 'A' as int);
    }
  }

  /** Column names and their indices are the same thing, over every natural and every word of letters. */
  lemma ColumnsAreABijection(i: nat, s: string)
    requires forall k :: 0 <= k < |s| ==> IsLetter(s[k])
    ensures s != "" ==> (ColName(i) == s <==> ColIndex(s) == i)
  {
    IndexOfName(i);
    if s != "" { NameOfIndex(s); }
  }

  /** Shorter first, and words of one length by their first difference. */
  predicate Sooner(a: string, b: string) {
    |a| < |b| || (|a| == |b| && exists k :: 0 <= k < |a| && FirstDifference(a, b, k) && a[k] < b[k])
  }

  predicate FirstDifference(a: string, b: string, k: nat)
    requires |a| == |b| && k < |a|
  {
    a[k] != b[k] && forall j :: 0 <= j < k ==> a[j] == b[j]
  }

  lemma SoonerByInit(a: string, b: string)
    requires |a| == |b| > 0 && Sooner(a[..|a| - 1], b[..|b| - 1])
    ensures Sooner(a, b)
  {
    var x, y := a[..|a| - 1], b[..|b| - 1];
    var k :| 0 <= k < |x| && FirstDifference(x, y, k) && x[k] < y[k];
    assert FirstDifference(a, b, k) by {
      forall j | 0 <= j < k ensures a[j] == b[j] { assert x[j] == y[j]; }
    }
  }

  /** A larger index has the later name. */
  lemma {:induction false} NamesAscend(i: int, j: int)
    requires -1 <= i < j
    ensures Sooner(ColName(i), ColName(j))
    decreases j
  {
    var a, b := ColName(i), ColName(j);
    if i >= 0 {
      assert a[..|a| - 1] == ColName(i / 26 - 1) && b[..|b| - 1] == ColName(j / 26 - 1);
      if i / 26 < j / 26 {
        NamesAscend(i / 26 - 1, j / 26 - 1);
        if |a| == |b| { SoonerByInit(a, b); }
      } else {
        assert |a| == |b|;
        assert FirstDifference(a, b, |a| - 1) by {
          forall k | 0 <= k < |a| - 1 ensures a[k] == b[k] { assert a[k] == a[..|a| - 1][k]; }
        }
      }
    }
  }

  lemma SoonerIsStrict(a: string, b: string)
    requires Sooner(a, b)
    ensures !Sooner(b, a) && a != b
  {
    if |a| == |b| {
      var k :| 0 <= k < |a| && FirstDifference(a, b, k) && a[k] < b[k];
      forall j | 0 <= j < |b| && FirstDifference(b, a, j) ensures j == k { }
    }
  }

  /** The order of the columns is the order of their names. */
  lemma NamesAscendIff(i: nat, j: nat)
    ensures i < j <==> Sooner(ColName(i), ColName(j))
  {
    if i < j {
      NamesAscend(i, j);
    } else if j < i {
      NamesAscend(j, i);
      SoonerIsStrict(ColName(j), ColName(i));
    }
  }

  // ------------------------------------------------------------ references

  function CellRef(column: nat, row: nat): string {
    ColName(column) + Numbers.Decimal(row)
  }

  /** Column letters, then the row in decimal. */
  lemma SomeRefs()
    ensures CellRef(0, 1) == "A1" && CellRef(25, 10) == "Z10" && CellRef(26, 7) == "AA7"
  {
    assert ColName(0) == "A" && ColName(25) == "Z" && ColName(26) == "AA";
    assert Numbers.Decimal(1) == "1" && Numbers.Decimal(10) == "10" && Numbers.Decimal(7) == "7";
  }

  /** The letters end where the digits begin, so a reference names one cell. */
  lemma RefsAreDistinct(c: nat, r: nat, d: nat, q: nat)
    requires CellRef(c, r) == CellRef(d, q)
    ensures c == d && r == q
  {
    LettersEnd(ColName(c), Numbers.Decimal(r), ColName(d), Numbers.Decimal(q));
    IndexOfName(c);
    IndexOfName(d);
    Numbers.DecimalIsPlain(r);
    Numbers.DecimalIsPlain(q);
  }

  /** How many letters a reference begins with. */
  function LetterCount(s: string): nat {
    if s != "" && IsLetter(s[0]) then 1 + LetterCount(s[1..]) else 0
  }

  lemma {:induction false} LettersStop(a: string, m: string)
    requires m != "" && IsDigit(m[0]) && forall k :: 0 <= k < |a| ==> IsLetter(a[k])
    ensures LetterCount(a + m) == |a|
  {
    if a == "" {
      assert a + m == m;
    } else {
      LettersStop(a[1..], m);
      assert (a + m)[1..] == a[1..] + m;
    }
  }

  lemma LettersEnd(a: string, m: string, b: string, n: string)
    requires a + m == b + n && m != "" && n != ""
    requires (forall k :: 0 <= k < |a| ==> IsLetter(a[k])) && forall k :: 0 <= k < |b| ==> IsLetter(b[k])
    requires IsDigit(m[0]) && IsDigit(n[0])
    ensures a == b && m == n
  {
    LettersStop(a, m);
    LettersStop(b, n);
    assert a == (a + m)[..|a|] && b == (b + n)[..|b|];
    assert m == (a + m)[|a|..] && n == (b + n)[|b|..];
  }

  // ------------------------------------------------------------ escaping

  /** Control characters that would make the workbook unreadable. */
  predicate Kept(c: char) {
    c == '\n' || c == '\t' || !(c < ' ' || c == '\U{007F}')
  }

  function Cleaned(s: string): (r: string)
    ensures forall k :: 0 <= k < |r| ==> Kept(r[k])
  {
    if s == "" then "" else if Kept(s[0]) then [s[0]] + Cleaned(s[1..]) else Cleaned(s[1..])
  }

  function EscapeSymbol(c: char): string {
    match c
    case '&' => "&amp;"
    case '<' => "&lt;"
    case '>' => "&gt;"
    case '\"' => "&quot;"
    case '\'' => "&apos;"
    case _ => [c]
  }

  /** strings.Replacer over the cleaned text. */
  function Replaced(s: string): string {
    if s == "" then "" else EscapeSymbol(s[0]) + Replaced(s[1..])
  }

  function Escape(s: string): string {
    Replaced(Cleaned(s))
  }

  method CleanThenReplace(s: string) returns (r: string)
    ensures r == Escape(s)
  {
    var clean := "";
    for i := 0 to |s|
      invariant clean + Cleaned(s[i..]) == Cleaned(s)
    {
      assert s[i..][1..] == s[i + 1..];
      if s[i] == '\n' || s[i] == '\t' {
        clean := clean + [s[i]];
        continue;
      }
      if s[i] < ' ' || s[i] == '\U{007F}' { continue; }
      clean := clean + [s[i]];
    }
    assert clean + Cleaned(s[|s|..]) == clean;
    return Replaced(clean);
  }

  lemma SymbolReadsBack(c: char, s: string)
    requires Kept(c) && EscapeSymbol(c) <= s
    ensures XmlText.SymbolAt(s, 0) == c && XmlText.Next(s, 0) == |EscapeSymbol(c)|
  {
    if c == '\n' {
      assert s[0] == c;
      XmlText.NotAReference(s);
    } else {
      XmlText.EscapedCharReadsBack(c, s);
    }
  }

  lemma {:induction false} ReplacedReadsBack(s: string)
    requires forall k :: 0 <= k < |s| ==> Kept(s[k])
    ensures XmlText.Unescape(Replaced(s)) == s
  {
    if s != "" {
      var head, rest := EscapeSymbol(s[0]), Replaced(s[1..]);
      ReplacedReadsBack(s[1..]);
      XmlText.UnescapeDrop(head + rest, |head|, 0);
      assert (head + rest)[|head|..] == rest;
      SymbolReadsBack(s[0], head + rest);
      hide XmlText.EntityAt, EscapeSymbol;
      assert XmlText.UnescapeFrom(head + rest, 0) == [s[0]] + XmlText.UnescapeFrom(head + rest, |head|);
    }
  }

  lemma EscapedSymbolIsPlain(c: char)
    ensures var e := EscapeSymbol(c);
      && (forall k :: 0 <= k < |e| ==> e[k] !in {'<', '>', '\"', '\''})
      && (forall k :: 0 <= k < |e| && e[k] == '&' ==> k == 0 && XmlText.IsName(e))
  {
  }

  /** A cell is text whatever was typed: no `<`, `>` or quote, and no `&` but that of a reference. */
  lemma {:induction false} ReplacedIsPlainXml(s: string)
    ensures XmlText.IsPlainXml(Replaced(s))
  {
    if s != "" {
      EscapedSymbolIsPlain(s[0]);
      ReplacedIsPlainXml(s[1..]);
      hide XmlText.IsPlainXml, EscapeSymbol, XmlText.IsName;
      XmlText.PlainXmlJoins(EscapeSymbol(s[0]), Replaced(s[1..]));
    }
  }

  /** Exactly the control characters other than tab and newline are dropped. */
  lemma {:induction false} ControlsAreDropped(a: string, c: char, b: string)
    ensures var drops := (c as int < 32 && c as int != 9 && c as int != 10) || c as int == 127;
      Cleaned(a + [c] + b) == Cleaned(a) + (if drops then "" else [c]) + Cleaned(b)
  {
    var s := a + [c] + b;
    if a == "" {
      assert s[1..] == b;
    } else {
      assert s[1..] == a[1..] + [c] + b;
      ControlsAreDropped(a[1..], c, b);
    }
  }

  // ------------------------------------------------------------ cells

  datatype Content = Blank | Number(v: string) | Inline(xml: string)
  datatype Cell = Cell(ref: string, content: Content)
  datatype Column = Column(numeric: bool)

  /** What a reader of the sheet gets from a cell. */
  function Reads(content: Content): string {
    match content
    case Blank => ""
    case Number(v) => v
    case Inline(xml) => XmlText.Unescape(xml)
  }

  /** A row may have fewer values than the sheet has columns. */
  function ValueAt(row: seq<string>, ci: nat): string {
    if ci < |row| then row[ci] else ""
  }

  /** The cell shows its value, less dropped control characters, as text, or as a number exactly where it may be one. */
  ghost predicate Shows(cell: Cell, columns: seq<Column>, row: seq<string>, ci: nat, rn: nat)
    requires ci < |columns|
  {
    && cell.ref == CellRef(ci, rn)
    && Reads(cell.content) == Cleaned(ValueAt(row, ci))
    && (cell.content.Inline? ==> XmlText.IsPlainXml(cell.content.xml))
    && (cell.content.Number? <==> columns[ci].numeric && Numbers.IsPlainNumber(ValueAt(row, ci)))
  }

  lemma {:induction false} DigitsStay(v: string)
    requires AllDigits(v)
    ensures Cleaned(v) == v
  {
    if v != "" {
      assert IsDigit(v[0]);
      DigitsStay(v[1..]);
    }
  }

  /** One row of the cell loop of sheetXML. */
  method WriteRow(columns: seq<Column>, row: seq<string>, rn: nat) returns (cells: seq<Cell>)
    ensures |cells| == |columns|
    ensures forall ci :: 0 <= ci < |columns| ==> Shows(cells[ci], columns, row, ci, rn)
  {
    hide XmlText.Unescape, XmlText.IsPlainXml, Cleaned, Replaced;
    cells := [];
    for ci := 0 to |columns|
      invariant |cells| == ci && forall k :: 0 <= k < ci ==> Shows(cells[k], columns, row, k, rn)
    {
      var val := "";
      if ci < |row| { val := row[ci]; }
      var name := WriteColName(ci);
      var ref := name + Numbers.Decimal(rn);
      var plain := Numbers.CheckPlainNumber(val);
      if columns[ci].numeric && plain {
        DigitsStay(val);
        cells := cells + [Cell(ref, Number(val))];
        continue;
      }
      if val == "" {
        DigitsStay(val);
        cells := cells + [Cell(ref, Blank)];
      } else {
        var xml := CleanThenReplace(val);
        ReplacedReadsBack(Cleaned(val));
        ReplacedIsPlainXml(Cleaned(val));
        cells := cells + [Cell(ref, Inline(xml))];
      }
    }
  }
}
