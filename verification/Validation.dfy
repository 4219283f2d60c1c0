// The input rules of internal/store/validate.go. Here a string is a sequence of
// runes: the code works rune by rune.
module Validation {
  import opened Prelude
  import Calendar

  /** unicode.IsSpace. */
  predicate IsSpace(c: char) {
    || '\t' <= c <= '\r' || c == ' ' || c == '\U{0085}' || c == '\U{00A0}' || c == '\U{1680}'
    || '\U{2000}' <= c <= '\U{200A}' || c == '\U{2028}' || c == '\U{2029}' || c == '\U{202F}'
    || c == '\U{205F}' || c == '\U{3000}'
  }

  function TrimLeft(s: string): string {
    if s != "" && IsSpace(s[0]) then TrimLeft(s[1..]) else s
  }

  function TrimRight(s: string): string {
    if s != "" && IsSpace(s[|s| - 1]) then TrimRight(s[..|s| - 1]) else s
  }

  /** strings.TrimSpace. */
  function TrimSpace(s: string): string {
    TrimRight(TrimLeft(s))
  }

  lemma {:induction false} TrimRightKeepsFirst(s: string)
    requires s != "" && !IsSpace(s[0])
    ensures TrimRight(s) != "" && TrimRight(s)[0] == s[0]
    decreases |s|
  {
    if IsSpace(s[|s| - 1]) { TrimRightKeepsFirst(s[..|s| - 1]); }
  }

  lemma {:induction false} TrimLeftStopsAtText(s: string)
    ensures var t := TrimLeft(s); t != "" ==> !IsSpace(t[0])
  {
    if s != "" && IsSpace(s[0]) { TrimLeftStopsAtText(s[1..]); }
  }

  /** Trimmed text that is not empty begins with text. */
  lemma TrimmedStartsWithText(s: string)
    ensures var t := TrimSpace(s); t != "" ==> !IsSpace(t[0])
  {
    TrimLeftStopsAtText(s);
    if TrimLeft(s) != "" { TrimRightKeepsFirst(TrimLeft(s)); }
  }

  function WordEnd(s: string, i: nat): (j: nat)
    requires i <= |s|
    ensures i <= j <= |s| && (i < |s| && !IsSpace(s[i]) ==> i < j)
    decreases |s| - i
  {
    if i < |s| && !IsSpace(s[i]) then WordEnd(s, i + 1) else i
  }

  /** strings.Fields from a position on. */
  function Words(s: string, i: nat): seq<string>
    requires i <= |s|
    decreases |s| - i
  {
    if i == |s| then []
    else if IsSpace(s[i]) then Words(s, i + 1)
    else [s[i..WordEnd(s, i)]] + Words(s, WordEnd(s, i))
  }

  /** strings.Join with a single space. */
  function Joined(words: seq<string>): string {
    if words == [] then "" else if |words| == 1 then words[0] else words[0] + " " + Joined(words[1..])
  }

  lemma {:induction false} WordEndSplit(a: string, c: char, b: string, i: nat)
    requires i <= |a| && IsSpace(c)
    ensures WordEnd(a + [c] + b, i) == WordEnd(a, i)
    decreases |a| - i
  {
    hide IsSpace;
    var s := a + [c] + b;
    if i < |a| {
      assert s[i] == a[i];
      WordEndSplit(a, c, b, i + 1);
    } else {
      assert s[i] == c;
    }
  }

  lemma {:induction false} WordEndDrop(s: string, d: nat, i: nat)
    requires d + i <= |s|
    ensures WordEnd(s, d + i) == d + WordEnd(s[d..], i)
    decreases |s| - i
  {
    hide IsSpace;
    if d + i < |s| {
      assert s[d + i] == s[d..][i];
      WordEndDrop(s, d, i + 1);
    }
  }

  lemma {:induction false} WordsDrop(s: string, d: nat, i: nat)
    requires d + i <= |s|
    ensures Words(s, d + i) == Words(s[d..], i)
    decreases |s| - i
  {
    hide IsSpace, WordEnd;
    if d + i < |s| {
      assert s[d + i] == s[d..][i];
      if IsSpace(s[d + i]) {
        WordsDrop(s, d, i + 1);
      } else {
        WordEndDrop(s, d, i);
        var j := WordEnd(s[d..], i);
        SliceOfSlice(s, d, |s|, i, j);
        assert s[d..|s|] == s[d..];
        WordsDrop(s, d, j);
      }
    }
  }

  lemma {:induction false} WordsSplitFrom(a: string, c: char, b: string, i: nat)
    requires i <= |a| && IsSpace(c)
    ensures Words(a + [c] + b, i) == Words(a, i) + Words(b, 0)
    decreases |a| - i
  {
    hide IsSpace;
    var s := a + [c] + b;
    if i == |a| {
      assert s[i] == c && s[i + 1..] == b;
      WordsDrop(s, i + 1, 0);
    } else if IsSpace(a[i]) {
      assert s[i] == a[i];
      WordsSplitFrom(a, c, b, i + 1);
    } else {
      WordEndSplit(a, c, b, i);
      var j := WordEnd(a, i);
      assert s[i] == a[i] && s[i..j] == a[i..j];
      WordsSplitFrom(a, c, b, j);
      JoinAssociates([a[i..j]], Words(a, j), Words(b, 0));
    }
  }

  /** White space separates words. */
  lemma WordsSplit(a: string, c: char, b: string)
    requires IsSpace(c)
    ensures Words(a + [c] + b, 0) == Words(a, 0) + Words(b, 0)
  {
    WordsSplitFrom(a, c, b, 0);
  }

  ghost predicate IsWord(w: string) {
    w != "" && forall k :: 0 <= k < |w| ==> !IsSpace(w[k])
  }

  lemma {:induction false} WordReaches(w: string, i: nat)
    requires IsWord(w) && i <= |w|
    ensures WordEnd(w, i) == |w|
    decreases |w| - i
  {
    if i < |w| { WordReaches(w, i + 1); }
  }

  /** Text without white space is one word. */
  lemma OneWord(w: string)
    requires IsWord(w)
    ensures Words(w, 0) == [w]
  {
    WordReaches(w, 0);
    assert !IsSpace(w[0]) && w[0..|w|] == w && Words(w, |w|) == [];
  }

  lemma {:induction false} WordsAreWords(s: string, i: nat)
    requires i <= |s|
    ensures forall k :: 0 <= k < |Words(s, i)| ==> IsWord(Words(s, i)[k])
    decreases |s| - i
  {
    if i < |s| {
      if IsSpace(s[i]) {
        WordsAreWords(s, i + 1);
      } else {
        var j := WordEnd(s, i);
        WordHasNoSpace(s, i);
        assert IsWord(s[i..j]);
        WordsAreWords(s, j);
      }
    }
  }

  lemma {:induction false} WordHasNoSpace(s: string, i: nat)
    requires i <= |s|
    ensures forall k :: i <= k < WordEnd(s, i) ==> !IsSpace(s[k])
    decreases |s| - i
  {
    if i < |s| && !IsSpace(s[i]) { WordHasNoSpace(s, i + 1); }
  }

  /** Words joined by single spaces are the same words again. */
  lemma {:induction false} JoinedWords(words: seq<string>)
    requires forall k :: 0 <= k < |words| ==> IsWord(words[k])
    ensures Words(Joined(words), 0) == words
  {
    hide IsWord, Words;
    if words == [] {
      NoWords();
    } else if |words| == 1 {
      OneWord(words[0]);
    } else {
      OneWord(words[0]);
      JoinedWords(words[1..]);
      WordsSplit(words[0], ' ', Joined(words[1..]));
      assert words == [words[0]] + words[1..];
    }
  }

  lemma NoWords()
    ensures Words("", 0) == []
  {
  }

  lemma {:induction false} TrimmedWords(s: string)
    ensures Words(TrimSpace(s), 0) == Words(s, 0)
  {
    TrimLeftWords(s);
    TrimRightWords(TrimLeft(s));
  }

  lemma {:induction false} TrimLeftWords(s: string)
    ensures Words(TrimLeft(s), 0) == Words(s, 0)
  {
    if s != "" && IsSpace(s[0]) {
      TrimLeftWords(s[1..]);
      WordsDrop(s, 1, 0);
    }
  }

  lemma {:induction false} TrimRightWords(s: string)
    ensures Words(TrimRight(s), 0) == Words(s, 0)
    decreases |s|
  {
    if s != "" && IsSpace(s[|s| - 1]) {
      var t, c := s[..|s| - 1], s[|s| - 1];
      TrimRightWords(t);
      WordsSplit(t, c, "");
      assert t + [c] + "" == s;
    }
  }

  /** CleanText: whitespace collapsed, at most `max` runes. */
  function CleanText(s: string, max: nat): string {
    var v := Joined(Words(TrimSpace(s), 0));
    if max > 0 && |v| > max then v[..max] else v
  }

  /** The words of a text with single spaces, cut to a length; 0 is no limit. */
  lemma CleanTextIsWords(s: string, max: nat)
    ensures var full := Joined(Words(s, 0));
      CleanText(s, max) <= full && |CleanText(s, max)| == if max > 0 && |full| > max then max else |full|
  {
    TrimmedWords(s);
    hide TrimSpace, Words, Joined;
  }

  lemma CleanTextKeepsText(s: string, max: nat)
    requires s != "" && !IsSpace(s[0])
    ensures CleanText(s, max) != ""
  {
    TrimRightKeepsFirst(s);
    assert TrimLeft(s) == s;
    var t := TrimSpace(s);
    assert Words(t, 0)[0] == t[0..WordEnd(t, 0)];
  }

  /** `s[i..j]` is the text without the white space around it. */
  ghost predicate IsTrimmed(s: string, i: nat, j: nat) {
    && i <= j <= |s| && (forall k :: 0 <= k < i || j <= k < |s| ==> IsSpace(s[k]))
    && (i < j ==> !IsSpace(s[i]) && !IsSpace(s[j - 1]))
  }

  lemma {:induction false} TrimLeftIs(s: string, i: nat)
    requires i <= |s| && (forall k :: 0 <= k < i ==> IsSpace(s[k])) && (i < |s| ==> !IsSpace(s[i]))
    ensures TrimLeft(s) == s[i..]
  {
    hide IsSpace;
    if i > 0 {
      assert forall k :: 0 <= k < i - 1 ==> s[1..][k] == s[k + 1];
      TrimLeftIs(s[1..], i - 1);
    }
  }

  lemma {:induction false} TrimRightIs(s: string, j: nat)
    requires j <= |s| && (forall k :: j <= k < |s| ==> IsSpace(s[k])) && (j > 0 ==> !IsSpace(s[j - 1]))
    ensures TrimRight(s) == s[..j]
    decreases |s|
  {
    hide IsSpace;
    if j < |s| {
      TrimRightIs(s[..|s| - 1], j);
      assert s[..|s| - 1][..j] == s[..j];
    }
  }

  /** Only white space goes, from both ends, and all of it. */
  lemma TrimSpaceIs(s: string, i: nat, j: nat)
    requires IsTrimmed(s, i, j)
    ensures TrimSpace(s) == s[i..j]
  {
    hide IsSpace;
    if i < j {
      TrimLeftIs(s, i);
      assert forall k :: j - i <= k < |s| - i ==> s[i..][k] == s[i + k];
      TrimRightIs(s[i..], j - i);
      assert s[i..][..j - i] == s[i..j];
    } else {
      TrimLeftIs(s, |s|);
    }
  }

  // ------------------------------------------------------------ numbers typed by hand

  function NormalizeDigit(c: char): char {
    if '\U{0660}' <= c <= '\U{0669}' then '0' + (c - '\U{0660}')
    else if '\U{06F0}' <= c <= '\U{06F9}' then '0' + (c - '\U{06F0}')
    else c
  }

  const ASCII_DIGITS := "0123456789"
  const ARABIC_DIGITS := "\U{0660}\U{0661}\U{0662}\U{0663}\U{0664}\U{0665}\U{0666}\U{0667}\U{0668}\U{0669}"
  const PERSIAN_DIGITS := "\U{06F0}\U{06F1}\U{06F2}\U{06F3}\U{06F4}\U{06F5}\U{06F6}\U{06F7}\U{06F8}\U{06F9}"

  /** A digit of any of the three scripts keeps its value, and nothing else is touched. */
  lemma DigitKeepsItsValue(c: char)
    ensures forall v :: 0 <= v < 10 ==>
      && (c == ARABIC_DIGITS[v] ==> NormalizeDigit(c) == ASCII_DIGITS[v])
      && (c == PERSIAN_DIGITS[v] ==> NormalizeDigit(c) == ASCII_DIGITS[v])
    ensures c !in ARABIC_DIGITS && c !in PERSIAN_DIGITS ==> NormalizeDigit(c) == c
  {
    assert |ARABIC_DIGITS| == 10 && |PERSIAN_DIGITS| == 10 && |ASCII_DIGITS| == 10;
    if '\U{0660}' <= c <= '\U{0669}' {
      assert ARABIC_DIGITS[c as int - 0x0660] == c;
    } else if '\U{06F0}' <= c <= '\U{06F9}' {
      assert PERSIAN_DIGITS[c as int - 0x06F0] == c;
    }
  }

  function NormalizeDigits(s: string): (r: string)
    ensures |r| == |s|
    ensures forall k :: 0 <= k < |s| ==> r[k] == NormalizeDigit(s[k])
  {
    if s == "" then "" else [NormalizeDigit(s[0])] + NormalizeDigits(s[1..])
  }

  /** The loop of NormalizeDigits, which writes into a builder. */
  method BuildNormalized(s: string) returns (b: string)
    ensures b == NormalizeDigits(s)
  {
    b := "";
    for i := 0 to |s|
      invariant |b| == i && forall k :: 0 <= k < i ==> b[k] == NormalizeDigit(s[k])
    {
      if '\U{0660}' <= s[i] <= '\U{0669}' {
        b := b + ['0' + (s[i] - '\U{0660}')];
      } else if '\U{06F0}' <= s[i] <= '\U{06F9}' {
        b := b + ['0' + (s[i] - '\U{06F0}')];
      } else {
        b := b + [s[i]];
      }
    }
  }

  /** The ASCII digits of a text, in their order. */
  function KeepDigits(s: string): (r: string)
    ensures AllDigits(r)
  {
    if s == "" then "" else if IsDigit(s[0]) then [s[0]] + KeepDigits(s[1..]) else KeepDigits(s[1..])
  }

  function DigitsOnly(s: string): (r: string)
    ensures AllDigits(r)
  {
    KeepDigits(NormalizeDigits(s))
  }

  /** What one symbol adds to the digits of a text. */
  lemma DigitOfOne(c: char)
    ensures forall v :: 0 <= v < 10 && (c == ASCII_DIGITS[v] || c == ARABIC_DIGITS[v] || c == PERSIAN_DIGITS[v]) ==>
      DigitsOnly([c]) == [ASCII_DIGITS[v]]
    ensures c !in ASCII_DIGITS && c !in ARABIC_DIGITS && c !in PERSIAN_DIGITS ==> DigitsOnly([c]) == ""
  {
    DigitKeepsItsValue(c);
    assert NormalizeDigits([c]) == [NormalizeDigit(c)];
    var n := NormalizeDigit(c);
    assert KeepDigits([n]) == if IsDigit(n) then [n] else "";
    if IsDigit(n) { assert ASCII_DIGITS[n as int - '0' as int] == n; }
    hide NormalizeDigit, NormalizeDigits, KeepDigits;
  }

  /** The digits of a text are those of its symbols, in their order. */
  lemma {:induction false} DigitsJoin(a: string, b: string)
    ensures DigitsOnly(a + b) == DigitsOnly(a) + DigitsOnly(b)
  {
    NormalizedJoin(a, b);
    hide NormalizeDigits, KeepDigits;
    KeepDigitsJoin(NormalizeDigits(a), NormalizeDigits(b));
  }

  lemma NormalizedJoin(a: string, b: string)
    ensures NormalizeDigits(a + b) == NormalizeDigits(a) + NormalizeDigits(b)
  {
    hide NormalizeDigit;
    var r, x, y := NormalizeDigits(a + b), NormalizeDigits(a), NormalizeDigits(b);
    hide NormalizeDigits;
    forall k | 0 <= k < |r| ensures r[k] == (x + y)[k] {
      if k < |a| { assert (a + b)[k] == a[k]; } else { assert (a + b)[k] == b[k - |a|]; }
    }
  }

  lemma {:induction false} KeepDigitsJoin(a: string, b: string)
    ensures KeepDigits(a + b) == KeepDigits(a) + KeepDigits(b)
  {
    if a == "" {
      assert a + b == b;
    } else {
      assert (a + b)[1..] == a[1..] + b;
      KeepDigitsJoin(a[1..], b);
    }
  }

  /** The number a string of digits writes. */
  function Number(s: string): int {
    if s == "" then 0 else 10 * Number(s[..|s| - 1]) + (s[|s| - 1] as int - '0' as int)
  }

  lemma {:induction false} LeadingZeros(n: nat, d: string)
    ensures Number(Zeros(n) + d) == Number(d)
    decreases |d|, n
  {
    var s := Zeros(n) + d;
    if d != "" {
      assert s[..|s| - 1] == Zeros(n) + d[..|d| - 1];
      LeadingZeros(n, d[..|d| - 1]);
    } else if n > 0 {
      assert s[..|s| - 1] == Zeros(n - 1) + "";
      LeadingZeros(n - 1, "");
    }
  }

  lemma {:induction false} DigitsStay(s: string)
    requires AllDigits(s)
    ensures DigitsOnly(s) == s
  {
    var r := NormalizeDigits(s);
    assert r == s;
    KeepDigitsStay(s);
  }

  lemma {:induction false} KeepDigitsStay(s: string)
    requires AllDigits(s)
    ensures KeepDigits(s) == s
  {
    if s != "" { KeepDigitsStay(s[1..]); }
  }

  function Zeros(n: nat): (r: string)
    ensures |r| == n && forall k :: 0 <= k < n ==> r[k] == '0'
  {
    if n == 0 then "" else "0" + Zeros(n - 1)
  }

  /** NormalizeCPR: nine digits again. */
  function NormalizeCpr(s: string): string {
    var d := DigitsOnly(s);
    if d == "" then "" else if |d| < 9 then Zeros(9 - |d|) + d else d
  }

  function ValidateCpr(s: string): Option<string> {
    var d := DigitsOnly(s);
    if d == "" || |d| > 9 then None else Some(NormalizeCpr(d))
  }

  /** A personal number is accepted when it has one to nine digits, and reads back as the same nine. */
  lemma CprIsCanonical(s: string)
    ensures ValidateCpr(s).Some? <==> 1 <= |DigitsOnly(s)| <= 9
    ensures var r := ValidateCpr(s);
      r.Some? ==> |r.value| == 9 && AllDigits(r.value) && ValidateCpr(r.value) == r && NormalizeCpr(r.value) == r.value
  {
    var d := DigitsOnly(s);
    DigitsStay(d);
    if 1 <= |d| <= 9 {
      var r := NormalizeCpr(d);
      assert AllDigits(r);
      DigitsStay(r);
    }
  }

  /** The stored number is the number typed. */
  lemma CprKeepsItsNumber(s: string)
    ensures DigitsOnly(s) != "" ==> Number(NormalizeCpr(s)) == Number(DigitsOnly(s))
    ensures ValidateCpr(s).Some? ==> Number(ValidateCpr(s).value) == Number(DigitsOnly(s))
  {
    var d := DigitsOnly(s);
    DigitsStay(d);
    if |d| < 9 { LeadingZeros(9 - |d|, d); }
    hide DigitsOnly, Number;
  }

  const COUNTRY := "973"

  function WithoutCountry(d: string): string {
    if COUNTRY <= d then d[3..] else d
  }

  function ValidatePhone(s: string): Option<string> {
    var d := WithoutCountry(DigitsOnly(s));
    if |d| != 8 then None else Some(d)
  }

  /** What is stored is the eight digits typed, or those typed after the country code. */
  lemma PhoneIsWhatWasTyped(s: string, p: string)
    ensures ValidatePhone(s) == Some(p) <==>
      |p| == 8 && (DigitsOnly(s) == "973" + p || (DigitsOnly(s) == p && !("973" <= p)))
  {
    var d := DigitsOnly(s);
    if d == "973" + p { assert d[3..] == p && d[..3] == "973"; }
    if COUNTRY <= d { assert d == "973" + d[3..]; }
    hide DigitsOnly;
  }

  /**
   * A stored number is found again from its own digits exactly when it does not
   * begin with the country code, which would be stripped a second time.
   */
  lemma PhoneIsCanonicalIff(s: string)
    requires ValidatePhone(s).Some?
    ensures var p := ValidatePhone(s).value;
      && |p| == 8 && AllDigits(p)
      && (ValidatePhone(p) == Some(p) <==> !(COUNTRY <= p))
      && (ValidatePhone(p).None? <==> COUNTRY <= p)
  {
    DigitsStay(ValidatePhone(s).value);
  }

  /** Such numbers exist: with the code typed twice, eight digits are stored that do not validate again. */
  lemma PhoneDoesNotValidateAgain(d: string)
    requires AllDigits(d) && |d| == 5
    ensures ValidatePhone(COUNTRY + COUNTRY + d) == Some(COUNTRY + d) && ValidatePhone(COUNTRY + d).None?
  {
    var once, twice := COUNTRY + d, COUNTRY + COUNTRY + d;
    DigitsStay(once);
    DigitsStay(twice);
    assert COUNTRY <= once && once[3..] == d;
    assert COUNTRY <= twice && twice[3..] == once;
    hide DigitsOnly;
  }

  /** With the country code in front every stored number validates to itself, so its member can always log in. */
  lemma PhoneWithCodeIsFound(s: string)
    requires ValidatePhone(s).Some?
    ensures ValidatePhone(COUNTRY + ValidatePhone(s).value) == ValidatePhone(s)
  {
    var p := ValidatePhone(s).value;
    DigitsStay(COUNTRY + p);
    assert COUNTRY <= COUNTRY + p && (COUNTRY + p)[3..] == p;
    hide DigitsOnly;
  }

  // ------------------------------------------------------------ names, dates, addresses

  predicate IsArabicLetter(c: char) {
    || '\U{0621}' <= c <= '\U{064A}' || '\U{0671}' <= c <= '\U{06D3}'
    || '\U{064B}' <= c <= '\U{0652}' || c == '\U{0640}'
  }

  function ValidateArabicName(s: string): Option<string> {
    var name := Joined(Words(TrimSpace(s), 0));
    if name == "" || (exists k :: 0 <= k < |name| && name[k] != ' ' && !IsArabicLetter(name[k])) then None
    else if |Words(name, 0)| < 4 || |name| > 120 then None
    else Some(name)
  }

  ghost predicate IsArabicWord(w: string) {
    w != "" && forall k :: 0 <= k < |w| ==> IsArabicLetter(w[k])
  }

  /** A symbol that is neither a letter nor a space. */
  ghost predicate HasOther(s: string) {
    exists k :: 0 <= k < |s| && s[k] != ' ' && !IsArabicLetter(s[k])
  }

  lemma HasOtherJoin(a: string, b: string)
    ensures HasOther(a + b) <==> HasOther(a) || HasOther(b)
  {
    hide IsArabicLetter;
    var s := a + b;
    if HasOther(s) {
      var k :| 0 <= k < |s| && s[k] != ' ' && !IsArabicLetter(s[k]);
      if k < |a| { assert a[k] == s[k]; } else { assert b[k - |a|] == s[k]; }
    }
    if HasOther(a) {
      var k :| 0 <= k < |a| && a[k] != ' ' && !IsArabicLetter(a[k]);
      assert s[k] == a[k];
    }
    if HasOther(b) {
      var k :| 0 <= k < |b| && b[k] != ' ' && !IsArabicLetter(b[k]);
      assert s[|a| + k] == b[k];
    }
  }

  lemma WordIsArabicIff(w: string)
    requires IsWord(w)
    ensures IsArabicWord(w) <==> !HasOther(w)
  {
    assert forall k :: 0 <= k < |w| ==> w[k] != ' ';
    hide IsArabicLetter;
  }

  lemma {:induction false} JoinedLetters(words: seq<string>)
    requires forall k :: 0 <= k < |words| ==> IsWord(words[k])
    ensures HasOther(Joined(words)) <==> exists n :: 0 <= n < |words| && !IsArabicWord(words[n])
  {
    if words != [] {
      var rest := words[1..];
      WordIsArabicIff(words[0]);
      JoinedLetters(rest);
      assert words == [words[0]] + rest;
      hide IsArabicWord, IsWord;
      if |words| > 1 {
        HasOtherJoin(words[0] + " ", Joined(rest));
        HasOtherJoin(words[0], " ");
      }
    }
  }

  /** A name is accepted when it has four words or more, of Arabic letters only, and 120 runes at most. */
  lemma NameAcceptedIff(s: string)
    ensures var words := Words(s, 0);
      ValidateArabicName(s) ==
        if |words| >= 4 && (forall n :: 0 <= n < |words| ==> IsArabicWord(words[n])) && |Joined(words)| <= 120
        then Some(Joined(words)) else None
  {
    var words := Words(s, 0);
    TrimmedWords(s);
    WordsAreWords(s, 0);
    JoinedWords(words);
    JoinedLetters(words);
    hide TrimSpace, Words, IsWord, IsArabicLetter;
    if Joined(words) == "" { NoWords(); }
  }

  type Layout = string -> Option<Calendar.Day>

  /** What the rules take from outside: the date, and matchers of the standard library. */
  datatype Outside = Outside(
    today: Calendar.Day,
    layouts: seq<Layout>,
    emailMatches: string -> bool,
    cleanMultiline: (string, nat) -> string)

  /** len of a string: its bytes in UTF-8. */
  function Utf8Length(s: string): nat {
    if s == "" then 0 else
    var c := s[0] as int;
    (if c < 0x80 then 1 else if c < 0x800 then 2 else if c < 0x1_0000 then 3 else 4) + Utf8Length(s[1..])
  }

  function ValidateEmail(out: Outside, s: string): Option<string> {
    var e := TrimSpace(s);
    if e == "" then Some("") else if !out.emailMatches(e) || Utf8Length(e) > 160 then None else Some(e)
  }

  /** An address is optional; one that is given is stored without the white space around it. */
  lemma EmailAcceptedIff(out: Outside, s: string, i: nat, j: nat)
    requires IsTrimmed(s, i, j)
    ensures ValidateEmail(out, s) ==
      if i == j then Some("")
      else if out.emailMatches(s[i..j]) && Utf8Length(s[i..j]) <= 160 then Some(s[i..j])
      else None
  {
    TrimSpaceIs(s, i, j);
    hide IsTrimmed, TrimSpace;
  }

  function SlashesToDashes(s: string): (r: string)
    ensures |r| == |s| && '/' !in r && forall k :: 0 <= k < |s| && r[k] != s[k] ==> s[k] == '/' && r[k] == '-'
  {
    if s == "" then "" else [if s[0] == '/' then '-' else s[0]] + SlashesToDashes(s[1..])
  }

  function Digits(n: nat, width: nat): (r: string)
    ensures |r| == width
  {
    if width == 0 then "" else Digits(n / 10, width - 1) + [['0', '1', '2', '3', '4', '5', '6', '7', '8', '9'][n % 10]]
  }

  function PowerOfTen(n: nat): nat {
    if n == 0 then 1 else 10 * PowerOfTen(n - 1)
  }

  lemma {:induction false} DigitsRead(n: nat, width: nat)
    requires n < PowerOfTen(width)
    ensures AllDigits(Digits(n, width)) && Number(Digits(n, width)) == n
  {
    if width > 0 {
      DigitsRead(n / 10, width - 1);
      var s := Digits(n, width);
      assert s[..width - 1] == Digits(n / 10, width - 1);
    }
  }

  /** The text reads YYYY-MM-DD as this day. */
  ghost predicate ReadsAs(t: string, d: Calendar.Date) {
    && |t| == 10 && t[4] == '-' && t[7] == '-'
    && AllDigits(t[0..4]) && AllDigits(t[5..7]) && AllDigits(t[8..10])
    && Number(t[0..4]) == d.year && Number(t[5..7]) == d.month && Number(t[8..10]) == d.day
  }

  /** YYYY-MM-DD, for years of at most four digits. */
  function IsoDate(d: Calendar.Day): string
    requires d.year >= 0
  {
    Digits(d.year, 4) + "-" + Digits(d.month, 2) + "-" + Digits(d.day, 2)
  }

  lemma PartsRead(d: Calendar.Day)
    requires 0 <= d.year <= 9999
    ensures AllDigits(Digits(d.year, 4)) && Number(Digits(d.year, 4)) == d.year
    ensures AllDigits(Digits(d.month, 2)) && Number(Digits(d.month, 2)) == d.month
    ensures AllDigits(Digits(d.day, 2)) && Number(Digits(d.day, 2)) == d.day
  {
    assert PowerOfTen(2) == 100 && PowerOfTen(4) == 10000;
    assert d.month < 100 && d.day < 100;
    hide *;
    DigitsRead(d.year, 4);
    DigitsRead(d.month, 2);
    DigitsRead(d.day, 2);
  }

  lemma IsoDateReads(d: Calendar.Day)
    requires 0 <= d.year <= 9999
    ensures ReadsAs(IsoDate(d), d)
  {
    assert d.month >= 1 && d.day >= 1;
    hide Digits, Number, AllDigits, Calendar.IsDate;
    PartsRead(d);
    var t := IsoDate(d);
    assert t[0..4] == Digits(d.year, 4) && t[5..7] == Digits(d.month, 2) && t[8..10] == Digits(d.day, 2);
    assert t[4] == '-' && t[7] == '-';
  }

  const ADULT := 18

  /** The date under the first layout that reads it. */
  function ParseDate(layouts: seq<Layout>, v: string): Option<Calendar.Day> {
    if layouts == [] then None else if layouts[0](v).Some? then layouts[0](v) else ParseDate(layouts[1..], v)
  }

  function ValidateDob(out: Outside, s: string): (r: Option<string>)
    ensures r.Some? ==> |r.value| == 10
  {
    var v := SlashesToDashes(TrimSpace(NormalizeDigits(s)));
    if v == "" then None else
    var d := ParseDate(out.layouts, v);
    if d.None? || !Calendar.NotAfter(d.value, out.today) || d.value.year < 1900 then None
    else if Calendar.Age(d.value, out.today) < ADULT then None
    else Some(IsoDate(d.value))
  }

  /** The loop over the layouts, with its break. */
  method CheckDob(out: Outside, s: string) returns (r: Option<string>)
    ensures r == ValidateDob(out, s)
  {
    var v := SlashesToDashes(TrimSpace(NormalizeDigits(s)));
    if v == "" { return None; }
    var d := None;
    assert out.layouts[0..] == out.layouts;
    var i := 0;
    while i < |out.layouts|
      invariant i <= |out.layouts| && d == None && ParseDate(out.layouts, v) == ParseDate(out.layouts[i..], v)
    {
      assert out.layouts[i..][1..] == out.layouts[i + 1..];
      d := out.layouts[i](v);
      if d.Some? { break; }
      i := i + 1;
    }
    if d.None? { return None; }
    if !Calendar.NotAfter(d.value, out.today) { return None; }
    if d.value.year < 1900 { return None; }
    if Calendar.Age(d.value, out.today) < ADULT { return None; }
    return Some(IsoDate(d.value));
  }

  /** The day on which age by day of the year is still one short: a leap-year birthday in a common year. */
  predicate IsLateDay(birth: Calendar.Day, at: Calendar.Day) {
    && Calendar.IsLeap(birth.year) && !Calendar.IsLeap(at.year) && birth.month > 2
    && at.month == birth.month && at.day == birth.day
  }

  /** The day on which it is already one ahead: the eve of a common-year birthday in a leap year. */
  predicate IsEarlyDay(birth: Calendar.Day, at: Calendar.Day) {
    && !Calendar.IsLeap(birth.year) && Calendar.IsLeap(at.year) && birth.month > 2
    && Calendar.IsDayBefore(at, birth)
  }

  /**
   * A date of birth is accepted exactly when its first reading is a day from 1900 on
   * and not in the future, and the applicant is eighteen by the calendar: except that
   * on the one early day seventeen is enough, and on the one late day it takes nineteen.
   */
  lemma DobAcceptedIff(out: Outside, s: string)
    ensures var v := SlashesToDashes(TrimSpace(NormalizeDigits(s))); var d := ParseDate(out.layouts, v);
      ValidateDob(out, s).Some? <==>
        && v != "" && d.Some? && 1900 <= d.value.year && Calendar.NotAfter(d.value, out.today)
        && Calendar.CalendarAge(d.value, out.today) >=
             if IsLateDay(d.value, out.today) then ADULT + 1
             else if IsEarlyDay(d.value, out.today) then ADULT - 1
             else ADULT
  {
    var d := ParseDate(out.layouts, SlashesToDashes(TrimSpace(NormalizeDigits(s))));
    if d.Some? { Calendar.AgesDifferIff(d.value, out.today); }
  }

  /** The date of birth that is stored reads as the accepted day, in any year of four digits. */
  lemma StoredDobIsTheDay(out: Outside, s: string)
    requires ValidateDob(out, s).Some? && out.today.year <= 9999
    ensures var d := ParseDate(out.layouts, SlashesToDashes(TrimSpace(NormalizeDigits(s))));
      d.Some? && ReadsAs(ValidateDob(out, s).value, d.value)
  {
    var d := ParseDate(out.layouts, SlashesToDashes(TrimSpace(NormalizeDigits(s))));
    hide IsoDate, ReadsAs, Calendar.IsDate, ParseDate, Calendar.Age;
    IsoDateReads(d.value);
  }

  /** So whoever is accepted is eighteen by the calendar, or will be tomorrow. */
  lemma AcceptedDobIsAdult(out: Outside, s: string)
    requires ValidateDob(out, s).Some?
    ensures var d := ParseDate(out.layouts, SlashesToDashes(TrimSpace(NormalizeDigits(s))));
      d.Some? && (Calendar.CalendarAge(d.value, out.today) >= ADULT
        || (Calendar.CalendarAge(d.value, out.today) == ADULT - 1 && Calendar.IsDayBefore(out.today, d.value)))
  {
    DobAcceptedIff(out, s);
  }
}
