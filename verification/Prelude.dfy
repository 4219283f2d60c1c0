// Small vocabulary shared by the text modules. A Go string is a sequence of
// bytes; here one `char` stands for one byte.
module Prelude {

  datatype Option<+T> = None | Some(value: T)

  /** An ASCII digit. */
  predicate IsDigit(c: char) {
    '0' <= c <= '9'
  }

  predicate AllDigits(s: string) {
    forall k :: 0 <= k < |s| ==> IsDigit(s[k])
  }

  /** `pat` occurs in `s` at index `i`. */
  predicate HasAt(s: string, i: nat, pat: string) {
    i + |pat| <= |s| && s[i..i + |pat|] == pat
  }

  /** bytes.IndexByte from a given index. */
  function IndexByte(s: string, from: nat, c: char): (r: Option<nat>)
    ensures r.Some? ==> from <= r.value < |s| && s[r.value] == c
    decreases |s| - from
  {
    if from >= |s| then None
    else if s[from] == c then Some(from)
    else IndexByte(s, from + 1, c)
  }

  /** It is the first one. */
  lemma {:induction false} IndexByteIsFirst(s: string, from: nat, c: char)
    ensures var r := IndexByte(s, from, c);
      forall j: nat :: from <= j < (if r.Some? then r.value else |s|) ==> s[j] != c
    decreases |s| - from
  {
    if from < |s| && s[from] != c {
      IndexByteIsFirst(s, from + 1, c);
    }
  }

  lemma {:induction false} IndexByteIs(s: string, from: nat, c: char, k: nat)
    requires from <= k < |s| && s[k] == c && forall j :: from <= j < k ==> s[j] != c
    ensures IndexByte(s, from, c) == Some(k)
    decreases k - from
  {
    if from < k {
      IndexByteIs(s, from + 1, c, k);
    }
  }

  /** bytes.Index from a given index. */
  function FirstAt(s: string, from: nat, pat: string): (r: Option<nat>)
    ensures r.Some? ==> from <= r.value && HasAt(s, r.value, pat)
    decreases |s| - from
  {
    if from + |pat| > |s| then None
    else if HasAt(s, from, pat) then Some(from)
    else FirstAt(s, from + 1, pat)
  }

  /** An occurrence is never missed. */
  lemma {:induction false} FirstAtFinds(s: string, from: nat, pat: string, k: nat)
    requires from <= k && HasAt(s, k, pat)
    ensures FirstAt(s, from, pat).Some? && FirstAt(s, from, pat).value <= k
    decreases k - from
  {
    if from < k && !HasAt(s, from, pat) {
      FirstAtFinds(s, from + 1, pat, k);
    }
  }

  lemma SliceOfSlice<T>(s: seq<T>, a: nat, b: nat, i: nat, j: nat)
    requires a <= b <= |s| && i <= j <= b - a
    ensures s[a..b][i..j] == s[a + i..a + j]
  {
    var x, y := s[a..b][i..j], s[a + i..a + j];
    assert |x| == |y| && forall k :: 0 <= k < |x| ==> x[k] == s[a..b][i + k] == s[a + i + k] == y[k];
  }

  lemma SliceCons<T>(s: seq<T>, i: nat, j: nat)
    requires i < j <= |s|
    ensures s[i..j] == [s[i]] + s[i + 1..j]
  {
  }

  lemma SliceJoin<T>(s: seq<T>, i: nat, j: nat, k: nat)
    requires i <= j <= k <= |s|
    ensures s[i..j] + s[j..k] == s[i..k]
  {
  }

  lemma JoinAssociates<T>(a: seq<T>, b: seq<T>, c: seq<T>)
    ensures (a + b) + c == a + (b + c)
  {
  }

  /** The pieces of text written one after the other. */
  function Concat(pieces: seq<string>): string {
    if pieces == [] then "" else pieces[0] + Concat(pieces[1..])
  }

  lemma {:induction false} ConcatSnoc(pieces: seq<string>, last: string)
    ensures Concat(pieces + [last]) == Concat(pieces) + last
  {
    if pieces == [] {
      assert [] + [last] == [last];
    } else {
      assert (pieces + [last])[1..] == pieces[1..] + [last];
      ConcatSnoc(pieces[1..], last);
    }
  }

  /** The largest number of a set, or 0: COALESCE(MAX(...), 0). */
  ghost predicate IsMaxOrZero(numbers: set<int>, max: int) {
    if numbers == {} then max == 0 else max in numbers && forall x :: x in numbers ==> x <= max
  }

  lemma {:induction false} MaxExists(numbers: set<int>)
    ensures exists max :: IsMaxOrZero(numbers, max)
    decreases numbers
  {
    if numbers == {} {
      assert IsMaxOrZero(numbers, 0);
    } else {
      assert (forall y :: y !in numbers) ==> numbers == {};
      var x :| x in numbers;
      MaxExists(numbers - {x});
      var max :| IsMaxOrZero(numbers - {x}, max);
      var most := if numbers - {x} == {} || x > max then x else max;
      forall y | y in numbers ensures y <= most { assert y == x || y in numbers - {x}; }
      assert IsMaxOrZero(numbers, most);
    }
  }

  ghost function MaxOrZero(numbers: set<int>): (max: int)
    ensures IsMaxOrZero(numbers, max)
  {
    MaxExists(numbers);
    var max :| IsMaxOrZero(numbers, max);
    max
  }

  lemma MaxIsUnique(numbers: set<int>, a: int, b: int)
    requires IsMaxOrZero(numbers, a) && IsMaxOrZero(numbers, b)
    ensures a == b
  {
  }
}
