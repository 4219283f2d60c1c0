// Printing and reading numbers: itoa of internal/store/document.go, parseInt of
// internal/httpapi/public.go, in the wrap-around arithmetic of int64.
module Numbers {
  import opened Prelude

  const MAX_INT64 := 0x7FFF_FFFF_FFFF_FFFF
  const MIN_INT64 := -0x8000_0000_0000_0000

  /** What int64 makes of a mathematical result. */
  function Wrap(x: int): int {
    (x - MIN_INT64) % 0x1_0000_0000_0000_0000 + MIN_INT64
  }

  predicate IsInt64(x: int) {
    MIN_INT64 <= x <= MAX_INT64
  }

  lemma WrapIsIdle(x: int)
    requires IsInt64(x)
    ensures Wrap(x) == x
  {
  }

  function DigitOf(n: nat): char
    requires n < 10
  {
    '0' + n as char
  }

  function ValueOf(c: char): int {
    c as int - '0' as int
  }

  /** The decimal numeral of a number, without leading zeros. */
  function Decimal(n: nat): (s: string)
    ensures s != "" && forall k :: 0 <= k < |s| ==> IsDigit(s[k])
  {
    if n < 10 then [DigitOf(n)] else Decimal(n / 10) + [DigitOf(n % 10)]
  }

  /** Ten to the power of `k`. */
  function Power(k: nat): nat {
    if k == 0 then 1 else 10 * Power(k - 1)
  }

  lemma {:induction false} DecimalFits(n: nat, k: nat)
    requires n < Power(k) && k > 0
    ensures |Decimal(n)| <= k
  {
    if n >= 10 {
      DecimalFits(n / 10, k - 1);
    }
  }

  lemma MaxHasNineteenDigits()
    ensures MAX_INT64 < Power(19)
  {
    assert Power(5) == 100_000;
    assert Power(10) == 10_000_000_000;
    assert Power(15) == 1_000_000_000_000_000;
  }

  // ------------------------------------------------------------ itoa

  /** What itoa prints: the smallest int64 has no negative, and comes out as a lone sign. */
  function Itoa(n: int): string
    requires IsInt64(n)
  {
    if n == MIN_INT64 then "-" else if n < 0 then "-" + Decimal(-n) else Decimal(n)
  }

  lemma OneDigitMore(n: nat, k: nat, tail: string)
    requires n > 0
    ensures if n < 10 then Decimal(n) + tail == [DigitOf(n % 10)] + tail
      else Decimal(n) + tail == Decimal(n / 10) + ([DigitOf(n % 10)] + tail)
  {
    if n >= 10 { JoinAssociates(Decimal(n / 10), [DigitOf(n % 10)], tail); }
  }

  /** The smallest int64 is its own negative. */
  lemma Negated(n: int)
    requires IsInt64(n) && n < 0
    ensures Wrap(-n) == if n == MIN_INT64 then n else -n
  {
  }

  /** The buffer of twenty bytes is filled from the right, and is never too small. */
  method ItoaInBuffer(number: int) returns (s: string)
    requires IsInt64(number)
    ensures s == Itoa(number)
  {
    var n := number;
    if n == 0 { return "0"; }
    var neg := n < 0;
    if neg {
      Negated(n);
      n := Wrap(-n);
    }
    hide Wrap;
    var b := new char[20];
    var i := b.Length;
    ghost var all := if n > 0 then Decimal(n) else "";
    if n > 0 {
      MaxHasNineteenDigits();
      DecimalFits(n, 19);
    }
    hide Decimal, Power, DigitOf;
    while n > 0
      invariant 0 <= i <= 20 && |all| <= 19
      invariant 0 < n ==> all == Decimal(n) + b[i..]
      invariant n <= 0 ==> all == b[i..]
      decreases n
    {
      OneDigitMore(n, i, b[i..]);
      ghost var tail := b[i..];
      i := i - 1;
      b[i] := DigitOf(n % 10);
      n := n / 10;
      assert b[i..] == [b[i]] + tail;
    }
    if neg {
      i := i - 1;
      b[i] := '-';
      assert b[i..] == [b[i]] + b[i + 1..];
    }
    return b[i..];
  }

  // ------------------------------------------------------------ parseInt

  /** The digits read so far, each step in int64. */
  function Folded(s: string): int {
    if s == "" then 0 else Wrap(Folded(s[..|s| - 1]) * 10 + ValueOf(s[|s| - 1]))
  }

  predicate Signed(s: string) {
    s != "" && s[0] == '-'
  }

  function Unsigned(s: string): string {
    if Signed(s) then s[1..] else s
  }

  /** None is the error return: some character is neither a digit nor a leading sign. */
  function ParseInt(s: string): Option<int> {
    if !AllDigits(Unsigned(s)) then None
    else if Signed(s) then Some(Wrap(-Folded(Unsigned(s))))
    else Some(Folded(s))
  }

  method ParseIntLoop(s: string) returns (r: Option<int>)
    ensures r == ParseInt(s)
  {
    var v, neg := 0, false;
    var from := if Signed(s) then 1 else 0;
    for i := 0 to |s|
      invariant neg <==> Signed(s) && i > 0
      invariant i >= from ==> v == Folded(s[from..i]) && AllDigits(s[from..i])
      invariant i < from ==> v == 0
    {
      if i == 0 && s[i] == '-' {
        neg := true;
        assert s[1..1] == "";
        continue;
      }
      assert i >= from && s[from..i + 1] == s[from..i] + [s[i]];
      if s[i] < '0' || s[i] > '9' {
        assert Unsigned(s)[i - from] == s[i];
        return None;
      }
      v := Wrap(v * 10 + (s[i] as int - '0' as int));
    }
    assert s[from..|s|] == Unsigned(s);
    if neg { v := Wrap(-v); }
    return Some(v);
  }

  lemma {:induction false} DecimalReadsBack(n: nat)
    requires n <= MAX_INT64
    ensures Folded(Decimal(n)) == n && AllDigits(Decimal(n))
  {
    if n >= 10 {
      DecimalReadsBack(n / 10);
      assert Decimal(n)[..|Decimal(n)| - 1] == Decimal(n / 10);
      WrapIsIdle(n);
    } else {
      assert Decimal(n)[..0] == "";
      WrapIsIdle(n);
    }
  }

  /** Reading the printed number gives it back for every int64 but the smallest, which reads as 0. */
  lemma PrintedNumberReadsBackIff(n: int)
    requires IsInt64(n)
    ensures ParseInt(Itoa(n)) == Some(n) <==> n != MIN_INT64
    ensures ParseInt(Itoa(MIN_INT64)) == Some(0)
  {
    if n != MIN_INT64 {
      DecimalReadsBack(if n < 0 then -n else n);
      if n < 0 {
        assert Unsigned(Itoa(n)) == Decimal(-n);
        WrapIsIdle(n);
      } else {
        assert Itoa(n) == Decimal(n) && IsDigit(Decimal(n)[0]);
      }
    }
    assert Unsigned("-") == "";
    hide Decimal;
  }

  /** No step of reading a printed number overflows: wrapping never changes a value on the way. */
  lemma {:induction false} NoStepOverflows(n: nat, k: nat)
    requires n <= MAX_INT64 && k < |Decimal(n)|
    ensures var before := Folded(Decimal(n)[..k]);
      0 <= before * 10 + ValueOf(Decimal(n)[k]) <= n
  {
    var s := Decimal(n);
    if n < 10 {
      assert s[..0] == "";
    } else if k == |s| - 1 {
      assert s[..k] == Decimal(n / 10);
      DecimalReadsBack(n / 10);
    } else {
      NoStepOverflows(n / 10, k);
      assert s[..k] == Decimal(n / 10)[..k];
    }
  }

  // ------------------------------------------------------------ plain numbers in cells

  /** isPlainNumber: digits without a leading zero. */
  predicate IsPlainNumber(v: string) {
    v != "" && AllDigits(v) && !(|v| > 1 && v[0] == '0')
  }

  method CheckPlainNumber(v: string) returns (r: bool)
    ensures r <==> IsPlainNumber(v)
  {
    if v == "" { return false; }
    for i := 0 to |v|
      invariant forall k :: 0 <= k < i ==> IsDigit(v[k])
    {
      if v[i] < '0' || v[i] > '9' { return false; }
    }
    return !(|v| > 1 && v[0] == '0');
  }

  /** The number a numeral stands for. */
  function Numeral(s: string): int {
    if s == "" then 0 else Numeral(s[..|s| - 1]) * 10 + ValueOf(s[|s| - 1])
  }

  lemma {:induction false} DecimalIsPlain(n: nat)
    ensures IsPlainNumber(Decimal(n)) && Numeral(Decimal(n)) == n
    ensures n > 0 ==> Decimal(n)[0] != '0'
  {
    if n >= 10 {
      DecimalIsPlain(n / 10);
      assert Decimal(n)[..|Decimal(n)| - 1] == Decimal(n / 10);
    } else {
      assert Decimal(n)[..0] == "";
    }
  }

  lemma {:induction false} PlainIsDecimal(v: string)
    requires IsPlainNumber(v)
    ensures Numeral(v) >= 0 && Decimal(Numeral(v)) == v && (|v| > 1 ==> Numeral(v) >= 10)
  {
    var init, last := v[..|v| - 1], v[|v| - 1];
    assert v == init + [last];
    if init != "" {
      assert v[0] == init[0] && IsDigit(last);
      PlainIsDecimal(init);
      assert Numeral(init) > 0 by {
        if |init| == 1 { assert init[..0] == "" && init[0] != '0'; }
      }
    }
  }

  /**
   * A cell is stored as a number exactly when it is the canonical numeral of one, so
   * printing the number restores the cell.
   */
  lemma PlainNumbersAreDecimals(v: string)
    ensures IsPlainNumber(v) <==> exists n: nat :: v == Decimal(n)
    ensures IsPlainNumber(v) ==> Numeral(v) >= 0 && Decimal(Numeral(v)) == v
  {
    if IsPlainNumber(v) { PlainIsDecimal(v); }
    if n: nat :| v == Decimal(n) { DecimalIsPlain(n); }
  }
}
