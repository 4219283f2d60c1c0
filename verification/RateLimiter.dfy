// The sliding-window rate limiter of internal/httpapi/server.go: a slice filtered
// in place and a janitor that deletes buckets, against the full log of grants.
// Instants are nanoseconds of a clock that does not run backwards.
module RateLimiter {

  const HOUR := 3_600_000_000_000

  /** The instants of `log` that still count at `now`, in their order. */
  function Recent(log: seq<int>, now: int, window: int): seq<int> {
    if log == [] then []
    else Recent(log[..|log| - 1], now, window) + if now - log[|log| - 1] < window then [log[|log| - 1]] else []
  }

  lemma RecentSnoc(log: seq<int>, t: int, now: int, window: int)
    ensures Recent(log + [t], now, window) == Recent(log, now, window) + if now - t < window then [t] else []
  {
    assert (log + [t])[..|log|] == log;
  }

  lemma {:induction false} RecentFits(log: seq<int>, now: int, window: int)
    ensures |Recent(log, now, window)| <= |log|
  {
    if log != [] { RecentFits(log[..|log| - 1], now, window); }
  }

  // ------------------------------------------------------------ the limiter

  /** A Go slice: a backing array, of which the first `len` entries are in use. */
  datatype Slice = Slice(data: array<int>, len: nat)

  /** The filter: entries that still count move to the front of the same array. */
  method FilterInPlace(a: array<int>, len: nat, now: int, window: int) returns (kept: nat)
    requires len <= a.Length
    modifies a
    ensures kept <= len && a[..kept] == Recent(old(a[..len]), now, window)
  {
    kept := 0;
    ghost var was := a[..len];
    for i := 0 to len
      invariant kept <= i
      invariant a[..kept] == Recent(was[..i], now, window)
      invariant a[i..len] == was[i..]
    {
      var t := a[i];
      assert t == was[i..][0] && was[..i + 1] == was[..i] + [t];
      RecentSnoc(was[..i], t, now, window);
      assert a[i + 1..len] == a[i..len][1..] == was[i + 1..];
      if now - t < window {
        ghost var front := a[..kept];
        a[kept] := t; // never past the entry just read
        assert a[..kept + 1] == front + [t];
        kept := kept + 1;
      }
    }
    assert was[..len] == was;
  }

  class Limiter {
    var buckets: map<string, Slice>

    /** The backing array of a key, if it has one. */
    ghost function Backing(key: string): set<array<int>>
      reads this
    {
      if key in buckets then {buckets[key].data} else {}
    }

    /** No two keys share a backing array. */
    ghost predicate Valid()
      reads this
    {
      && (forall key :: key in buckets ==> buckets[key].len <= buckets[key].data.Length)
      && (forall j, k :: j in buckets && k in buckets && buckets[j].data == buckets[k].data ==> j == k)
    }

    /** What the limiter remembers of a key; a missing bucket reads as an empty one. */
    ghost function Stamps(key: string): seq<int>
      reads this, Backing(key)
      requires Valid()
    {
      if key in buckets then buckets[key].data[..buckets[key].len] else []
    }

    constructor ()
      ensures Valid() && buckets == map[]
    {
      buckets := map[];
    }

    method Allow(key: string, n: int, window: int, now: int) returns (granted: bool)
      requires Valid()
      modifies this, Backing(key)
      ensures Valid() && fresh(Backing(key) - old(Backing(key)))
      ensures granted <==> Grants(old(Stamps(key)), n, window, now)
      ensures Stamps(key) == After(old(Stamps(key)), n, window, Attempt(now))
      ensures key in buckets && buckets == old(buckets)[key := buckets[key]]
    {
      assert Recent([], now, window) == [];
      var data, kept := new int[0], 0;
      if key in buckets {
        data := buckets[key].data;
        kept := FilterInPlace(data, buckets[key].len, now, window);
      }
      assert data[..kept] == Recent(old(Stamps(key)), now, window);
      if kept >= n {
        buckets := buckets[key := Slice(data, kept)];
        return false;
      }
      data := Append(data, kept, now);
      buckets := buckets[key := Slice(data, kept + 1)];
      return true;
    }

    /** append: in place while the capacity lasts, else into a larger array. */
    static method Append(a: array<int>, len: nat, t: int) returns (b: array<int>)
      requires len <= a.Length
      modifies a
      ensures b == a || fresh(b)
      ensures len < b.Length && b[..len + 1] == old(a[..len]) + [t]
    {
      b := a;
      if len == a.Length {
        b := new int[2 * len + 1];
        for i := 0 to len
          invariant b[..i] == a[..i]
          modifies b
        {
          b[i] := a[i];
        }
      }
      assert b[..len] == old(a[..len]);
      b[len] := t;
      assert b[..len + 1] == b[..len] + [t];
    }

    /** The loop of the janitor over the map. */
    method DeleteStale(now: int)
      requires forall k :: k in buckets ==> buckets[k].len <= buckets[k].data.Length
      modifies this
      ensures forall k :: k in buckets ==> k in old(buckets) && buckets[k] == old(buckets)[k]
      ensures forall k :: k in old(buckets) ==> (k in buckets <==>
        var v := old(buckets)[k]; !(v.len == 0 || now - v.data[v.len - 1] > HOUR))
    {
      var left := buckets.Keys;
      ghost var all := buckets;
      while left != {}
        invariant left <= all.Keys
        invariant forall k :: k in buckets ==> k in all && buckets[k] == all[k]
        invariant forall k :: k in left ==> k in buckets
        invariant forall k :: k in all && k !in left ==> (k in buckets <==>
          !(all[k].len == 0 || now - all[k].data[all[k].len - 1] > HOUR))
        decreases left
      {
        assert (forall y :: y !in left) ==> left == {};
        var k :| k in left;
        var v := buckets[k];
        if v.len == 0 || now - v.data[v.len - 1] > HOUR {
          buckets := buckets - {k};
        }
        left := left - {k};
      }
    }

    /** The janitor: forgets the keys whose last grant is more than an hour old, and no others. */
    method Sweep(now: int)
      requires Valid()
      modifies this
      ensures Valid()
      ensures forall k :: k in buckets ==> k in old(buckets) && buckets[k] == old(buckets)[k]
      ensures forall k :: k in old(buckets) ==> Stamps(k) == After(old(Stamps(k)), 0, 0, Swept(now))
    {
      DeleteStale(now);
    }
  }

  // ------------------------------------------------------------ one key

  datatype Event = Attempt(now: int) | Swept(now: int)

  predicate Stale(stamps: seq<int>, now: int) {
    stamps == [] || now - stamps[|stamps| - 1] > HOUR
  }

  predicate Grants(stamps: seq<int>, n: int, window: int, now: int) {
    |Recent(stamps, now, window)| < n
  }

  /** The bucket of a key after an attempt or a visit of the janitor. */
  function After(stamps: seq<int>, n: int, window: int, e: Event): seq<int> {
    match e
    case Swept(now) => if Stale(stamps, now) then [] else stamps
    case Attempt(now) =>
      Recent(stamps, now, window) + if Grants(stamps, n, window, now) then [now] else []
  }

  /** The bucket of a key used with one `n` and one window, after a run. */
  function Bucket(events: seq<Event>, n: int, window: int): seq<int> {
    if events == [] then []
    else After(Bucket(events[..|events| - 1], n, window), n, window, events[|events| - 1])
  }

  /** The exact limiter: it remembers every grant and forgets none. */
  function Log(events: seq<Event>, n: int, window: int): seq<int> {
    if events == [] then [] else
    var log, e := Log(events[..|events| - 1], n, window), events[|events| - 1];
    if e.Attempt? && Grants(log, n, window, e.now) then log + [e.now] else log
  }

  ghost predicate InTime(events: seq<Event>) {
    forall j, k :: 0 <= j <= k < |events| ==> events[j].now <= events[k].now
  }

  ghost predicate Until(stamps: seq<int>, now: int) {
    forall k :: 0 <= k < |stamps| ==> stamps[k] <= now
  }

  /** Entries outside the window stay outside. */
  lemma {:induction false} RecentOfRecent(log: seq<int>, earlier: int, now: int, window: int)
    requires earlier <= now
    ensures Recent(Recent(log, earlier, window), now, window) == Recent(log, now, window)
  {
    if log != [] {
      var rest, t := log[..|log| - 1], log[|log| - 1];
      RecentOfRecent(rest, earlier, now, window);
      if earlier - t < window {
        RecentSnoc(Recent(rest, earlier, window), t, now, window);
      } else {
        assert Recent(log, earlier, window) == Recent(rest, earlier, window);
        assert Recent(log, now, window) == Recent(rest, now, window);
      }
    }
  }

  lemma {:induction false} NothingRecent(log: seq<int>, now: int, window: int)
    requires forall k :: 0 <= k < |log| ==> now - log[k] >= window
    ensures Recent(log, now, window) == []
  {
    if log != [] { NothingRecent(log[..|log| - 1], now, window); }
  }

  ghost predicate Ascending(stamps: seq<int>) {
    forall j, k :: 0 <= j <= k < |stamps| ==> stamps[j] <= stamps[k]
  }

  lemma {:induction false} RecentKeepsOrder(log: seq<int>, now: int, window: int, bound: int)
    requires Ascending(log) && Until(log, bound)
    ensures Ascending(Recent(log, now, window)) && Until(Recent(log, now, window), bound)
  {
    if log != [] {
      var t := log[|log| - 1];
      RecentKeepsOrder(log[..|log| - 1], now, window, t);
    }
  }

  /** Instants in a bucket ascend, up to the last event. */
  lemma {:induction false} BucketAscends(events: seq<Event>, n: int, window: int)
    requires InTime(events) && events != []
    ensures Ascending(Bucket(events, n, window)) && Until(Bucket(events, n, window), events[|events| - 1].now)
  {
    var before, e := events[..|events| - 1], events[|events| - 1];
    if before != [] {
      BucketAscends(before, n, window);
      assert Until(Bucket(before, n, window), e.now);
      if e.Attempt? { RecentKeepsOrder(Bucket(before, n, window), e.now, window, e.now); }
    }
  }

  /** A stale bucket holds nothing a window of an hour could still see. */
  lemma StaleIsForgettable(stamps: seq<int>, swept: int, now: int, window: int)
    requires Ascending(stamps) && Stale(stamps, swept) && swept <= now && window <= HOUR + 1
    ensures Recent(stamps, now, window) == []
  {
    NothingRecent(stamps, now, window);
  }

  /** At any later instant the bucket shows what the full log shows. */
  lemma {:induction false} BucketShowsLog(events: seq<Event>, n: int, window: int, now: int)
    requires InTime(events) && window <= HOUR + 1 && (events != [] ==> events[|events| - 1].now <= now)
    ensures Recent(Bucket(events, n, window), now, window) == Recent(Log(events, n, window), now, window)
  {
    if events != [] {
      var before, e := events[..|events| - 1], events[|events| - 1];
      var stamps, log := Bucket(before, n, window), Log(before, n, window);
      BucketShowsLog(before, n, window, e.now);
      BucketShowsLog(before, n, window, now);
      if e.Attempt? {
        RecentOfRecent(stamps, e.now, now, window);
        if Grants(stamps, n, window, e.now) {
          RecentSnoc(Recent(stamps, e.now, window), e.now, now, window);
          RecentSnoc(log, e.now, now, window);
        } else {
          assert Recent(stamps, e.now, window) + [] == Recent(stamps, e.now, window);
        }
      } else if Stale(stamps, e.now) && before != [] {
        BucketAscends(before, n, window);
        StaleIsForgettable(stamps, e.now, now, window);
      }
    }
  }

  /** The grants in the window before an instant. */
  function InWindow(log: seq<int>, now: int, window: int): set<nat> {
    set k: nat | k < |log| && now - window < log[k]
  }

  lemma {:induction false} RecentCounts(log: seq<int>, now: int, window: int)
    ensures |Recent(log, now, window)| == |InWindow(log, now, window)|
  {
    if log == [] {
      assert InWindow(log, now, window) == {};
    } else {
      var last := |log| - 1;
      var rest := log[..last];
      RecentCounts(rest, now, window);
      var before := InWindow(rest, now, window);
      assert forall k: nat :: k in before ==> log[k] == rest[k];
      if now - log[last] < window {
        assert InWindow(log, now, window) == before + {last};
      } else {
        assert InWindow(log, now, window) == before;
      }
    }
  }

  /** After any run an attempt is granted exactly when fewer than `n` grants lie in the window before it. */
  lemma GrantedIff(events: seq<Event>, n: int, window: int, now: int)
    requires InTime(events) && window <= HOUR + 1 && (events != [] ==> events[|events| - 1].now <= now)
    ensures Grants(Bucket(events, n, window), n, window, now) <==> |InWindow(Log(events, n, window), now, window)| < n
  {
    BucketShowsLog(events, n, window, now);
    RecentCounts(Log(events, n, window), now, window);
    hide Recent, InWindow, Bucket, Log;
  }

  /** What the limiter answers after a run is what the exact limiter answers. */
  ghost predicate AnswersExactly(n: int, window: int) {
    forall events, now :: InTime(events + [Attempt(now)]) ==>
      (Grants(Bucket(events, n, window), n, window, now) <==> Grants(Log(events, n, window), n, window, now))
  }

  lemma WithinTheHour(n: int, window: int)
    requires window <= HOUR + 1
    ensures AnswersExactly(n, window)
  {
    forall events, now | InTime(events + [Attempt(now)])
      ensures Recent(Bucket(events, n, window), now, window) == Recent(Log(events, n, window), now, window)
    {
      var all := events + [Attempt(now)];
      assert forall k :: 0 <= k < |events| ==> events[k] == all[k];
      if events != [] { assert all[|events| - 1].now <= all[|events|].now; }
      BucketShowsLog(events, n, window, now);
    }
  }

  /** A burst, a visit of the janitor as soon as it acts, and one attempt more. */
  lemma BeyondTheHour(n: nat, window: int)
    requires n >= 1 && window > HOUR + 1
    ensures !AnswersExactly(n, window)
  {
    var burst, now := Repeated(Attempt(0), n), HOUR + 1;
    var events := burst + [Swept(now)];
    BurstIsRemembered(n, window);
    ZerosAreRecent(n, now, window);
    assert events[..n] == burst && InTime(events + [Attempt(now)]);
    hide Repeated, Zeros, Recent;
    assert Bucket(events, n, window) == After(Zeros(n), n, window, Swept(now)) == [];
    assert Log(events, n, window) == Zeros(n);
    assert Recent([], now, window) == [] by { NothingRecent([], now, window); }
    assert Grants(Bucket(events, n, window), n, window, now);
    assert !Grants(Log(events, n, window), n, window, now);
  }

  /**
   * The limiter answers from its filtered bucket as if it had kept every grant, in
   * every run, exactly when the window is at most an hour (and the nanosecond in
   * which the janitor does not yet act) or nothing is ever granted. The windows in
   * use are 15 minutes and one hour.
   */
  lemma JanitorNeverShowsIff(n: int, window: int)
    ensures AnswersExactly(n, window) <==> n <= 0 || window <= HOUR + 1
  {
    if window <= HOUR + 1 {
      WithinTheHour(n, window);
    } else if n >= 1 {
      BeyondTheHour(n, window);
    } else {
      assert forall stamps, now :: !Grants(stamps, n, window, now);
    }
    hide Bucket, Log, Recent;
  }

  function Repeated(e: Event, n: nat): (r: seq<Event>)
    ensures |r| == n && forall k :: 0 <= k < n ==> r[k] == e
  {
    if n == 0 then [] else Repeated(e, n - 1) + [e]
  }

  function Zeros(n: nat): (r: seq<int>)
    ensures |r| == n && forall k :: 0 <= k < n ==> r[k] == 0
  {
    if n == 0 then [] else Zeros(n - 1) + [0]
  }

  lemma {:induction false} ZerosAreRecent(n: nat, now: int, window: int)
    requires now < window
    ensures Recent(Zeros(n), now, window) == Zeros(n)
  {
    if n > 0 {
      ZerosAreRecent(n - 1, now, window);
      RecentSnoc(Zeros(n - 1), 0, now, window);
    }
  }

  /** `n` attempts in one instant are all granted. */
  lemma {:induction false} BurstsAreGranted(k: nat, n: nat, window: int)
    requires k <= n && window > 0
    ensures Bucket(Repeated(Attempt(0), k), n, window) == Zeros(k) == Log(Repeated(Attempt(0), k), n, window)
  {
    if k > 0 {
      BurstsAreGranted(k - 1, n, window);
      var events := Repeated(Attempt(0), k);
      var before := events[..k - 1];
      assert before == Repeated(Attempt(0), k - 1) && events[k - 1] == Attempt(0);
      ZerosAreRecent(k - 1, 0, window);
      assert Bucket(events, n, window) == After(Bucket(before, n, window), n, window, Attempt(0));
      hide Recent, Bucket, Repeated;
    }
  }

  lemma BurstIsRemembered(n: nat, window: int)
    requires window > 0
    ensures Bucket(Repeated(Attempt(0), n), n, window) == Zeros(n) == Log(Repeated(Attempt(0), n), n, window)
  {
    BurstsAreGranted(n, n, window);
  }

  // ------------------------------------------------------------ the promise

  /** The grants of an interval as long as the window, open at its end. */
  function Within(log: seq<int>, start: int, window: int): seq<int> {
    if log == [] then [] else
    var before, t := log[..|log| - 1], log[|log| - 1];
    if start <= t < start + window then Within(before, start, window) + [t] else Within(before, start, window)
  }

  lemma {:induction false} IntervalIsRecent(log: seq<int>, start: int, now: int, window: int)
    requires start <= now < start + window
    ensures |Within(log, start, window)| <= |Recent(log, now, window)|
  {
    if log != [] { IntervalIsRecent(log[..|log| - 1], start, now, window); }
  }

  /** No interval as long as the window ever holds more than `n` grants, wherever it starts. */
  lemma {:induction false} AtMostNInAnyInterval(events: seq<Event>, n: int, window: int, start: int)
    requires n >= 0
    ensures |Within(Log(events, n, window), start, window)| <= n
  {
    if events != [] {
      var e := events[|events| - 1];
      var log := Log(events[..|events| - 1], n, window);
      AtMostNInAnyInterval(events[..|events| - 1], n, window, start);
      if e.Attempt? && Grants(log, n, window, e.now) {
        assert (log + [e.now])[..|log|] == log;
        if start <= e.now < start + window { IntervalIsRecent(log, start, e.now, window); }
      }
    }
  }

  /** Instants at which attempts succeeded, by the answers of the limiter itself. */
  function Granted(events: seq<Event>, n: int, window: int): seq<int> {
    if events == [] then [] else
    var before, e := events[..|events| - 1], events[|events| - 1];
    var granted := e.Attempt? && Grants(Bucket(before, n, window), n, window, e.now);
    if granted then Granted(before, n, window) + [e.now] else Granted(before, n, window)
  }

  /** With a window of at most an hour the limiter grants what the exact one grants. */
  lemma {:induction false} GrantedIsLog(events: seq<Event>, n: int, window: int)
    requires InTime(events) && window <= HOUR + 1
    ensures Granted(events, n, window) == Log(events, n, window)
  {
    if events != [] {
      var before, e := events[..|events| - 1], events[|events| - 1];
      GrantedIsLog(before, n, window);
      BucketShowsLog(before, n, window, e.now);
    }
  }

  /** So the limiter keeps its promise: at most `n` successes in any interval of its window. */
  lemma LimiterKeepsItsPromise(events: seq<Event>, n: int, window: int, start: int)
    requires InTime(events) && n >= 0 && window <= HOUR + 1
    ensures |Within(Granted(events, n, window), start, window)| <= n
  {
    GrantedIsLog(events, n, window);
    AtMostNInAnyInterval(events, n, window, start);
  }
}
