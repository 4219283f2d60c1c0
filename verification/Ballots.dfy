// The ballot: what internal/store/elections.go accepts, what a cast ballot
// writes, and what the tallies of the results page add up to.
module Ballots {
  import opened Prelude
  import opened Database

  // ------------------------------------------------------------ the order of the roles

  /** ORDER BY sort_order, id. */
  predicate Before(roles: map<Id, Role>, a: Id, b: Id)
    requires a in roles && b in roles
  {
    roles[a].order < roles[b].order || (roles[a].order == roles[b].order && a <= b)
  }

  ghost predicate IsFirst(roles: map<Id, Role>, ids: set<Id>, r: Id)
    requires ids <= roles.Keys
  {
    r in ids && forall x :: x in ids ==> Before(roles, r, x)
  }

  lemma SomeElement(ids: set<Id>) returns (x: Id)
    requires ids != {}
    ensures x in ids
  {
    assert (forall y :: y !in ids) ==> ids == {};
    x :| x in ids;
  }

  lemma {:induction false} FirstExists(roles: map<Id, Role>, ids: set<Id>)
    requires ids <= roles.Keys && ids != {}
    ensures exists r :: IsFirst(roles, ids, r)
    decreases ids
  {
    var x := SomeElement(ids);
    var rest := ids - {x};
    if rest == {} {
      forall y | y in ids ensures Before(roles, x, y) { assert y !in rest; }
      assert IsFirst(roles, ids, x);
    } else {
      FirstExists(roles, rest);
      var r :| IsFirst(roles, rest, r);
      var least := if Before(roles, x, r) then x else r;
      forall y | y in ids ensures Before(roles, least, y) { assert y == x || y in rest; }
      assert IsFirst(roles, ids, least);
    }
  }

  ghost function InOrder(roles: map<Id, Role>, ids: set<Id>): seq<Id>
    requires ids <= roles.Keys
    decreases ids
  {
    if ids == {} then [] else
    FirstExists(roles, ids);
    var r :| IsFirst(roles, ids, r);
    [r] + InOrder(roles, ids - {r})
  }

  ghost predicate Enumerates(order: seq<Id>, ids: set<Id>) {
    && (forall k :: 0 <= k < |order| ==> order[k] in ids)
    && (forall x :: x in ids ==> x in order)
    && (forall j, k :: 0 <= j < k < |order| ==> order[j] != order[k])
  }

  lemma {:induction false} InOrderEnumerates(roles: map<Id, Role>, ids: set<Id>)
    requires ids <= roles.Keys
    ensures Enumerates(InOrder(roles, ids), ids)
    decreases ids
  {
    if ids != {} {
      FirstExists(roles, ids);
      var order := InOrder(roles, ids);
      var rest := ids - {order[0]};
      InOrderEnumerates(roles, rest);
      assert order[1..] == InOrder(roles, rest);
      forall x | x in ids ensures x in order {
        if x != order[0] { assert x in order[1..]; }
      }
    }
  }

  lemma FirstIsUnique(roles: map<Id, Role>, ids: set<Id>, a: Id, b: Id)
    requires ids <= roles.Keys && IsFirst(roles, ids, a) && IsFirst(roles, ids, b)
    ensures a == b
  {
    assert Before(roles, a, b) && Before(roles, b, a);
  }

  lemma InOrderStartsWith(roles: map<Id, Role>, ids: set<Id>, r: Id)
    requires ids <= roles.Keys && IsFirst(roles, ids, r)
    ensures InOrder(roles, ids) == [r] + InOrder(roles, ids - {r})
  {
    var order := InOrder(roles, ids);
    FirstExists(roles, ids);
    assert exists f :: IsFirst(roles, ids, f) && order == [f] + InOrder(roles, ids - {f});
    var f :| IsFirst(roles, ids, f) && order == [f] + InOrder(roles, ids - {f});
    FirstIsUnique(roles, ids, f, r);
  }

  /** By sort order, and by id where that is the same. */
  ghost predicate Ascends(roles: map<Id, Role>, order: seq<Id>) {
    && (forall k :: 0 <= k < |order| ==> order[k] in roles)
    && forall j, k :: 0 <= j < k < |order| ==>
         roles[order[j]].order < roles[order[k]].order
         || (roles[order[j]].order == roles[order[k]].order && order[j] < order[k])
  }

  lemma {:induction false} InOrderAscends(roles: map<Id, Role>, ids: set<Id>)
    requires ids <= roles.Keys
    ensures Ascends(roles, InOrder(roles, ids))
    decreases ids
  {
    if ids != {} {
      FirstExists(roles, ids);
      var first :| IsFirst(roles, ids, first);
      InOrderStartsWith(roles, ids, first);
      var rest := InOrder(roles, ids - {first});
      InOrderAscends(roles, ids - {first});
      InOrderEnumerates(roles, ids - {first});
      hide InOrder;
      assert InOrder(roles, ids) == [first] + rest;
      assert forall k :: 0 <= k < |rest| ==> rest[k] in ids && rest[k] != first && Before(roles, first, rest[k]);
    }
  }

  /** A role that sorts after all others comes last. */
  lemma {:induction false} LastInOrder(roles: map<Id, Role>, ids: set<Id>, id: Id, role: Role)
    requires ids <= roles.Keys && id !in roles && forall r :: r in roles ==> roles[r].order < role.order
    ensures InOrder(roles[id := role], ids + {id}) == InOrder(roles, ids) + [id]
    decreases ids
  {
    var more := roles[id := role];
    if ids == {} {
      assert IsFirst(more, {id}, id);
      InOrderStartsWith(more, {id}, id);
      assert {id} - {id} == {} && ids + {id} == {id};
    } else {
      FirstExists(roles, ids);
      var first :| IsFirst(roles, ids, first);
      assert IsFirst(more, ids + {id}, first);
      InOrderStartsWith(roles, ids, first);
      InOrderStartsWith(more, ids + {id}, first);
      LastInOrder(roles, ids - {first}, id, role);
      assert (ids + {id}) - {first} == (ids - {first}) + {id};
    }
  }

  // ------------------------------------------------------------ what is accepted

  /** One page of the ballot: how many picks it allows, and of whom. */
  datatype Section = Section(allowed: int, valid: set<Id>)

  /** SingleSelections: at least one. */
  function SingleSelections(s: Settings): int {
    if s.singleSelections < 1 then 1 else s.singleSelections
  }

  ghost function Order(db: Db): seq<Id> {
    if db.settings.mode == SinglePage then [0] else InOrder(db.roles, db.roles.Keys)
  }

  function SectionIds(db: Db): set<Id> {
    if db.settings.mode == SinglePage then {0} else db.roles.Keys
  }

  function SectionOf(db: Db, s: Id): Section
    requires s in SectionIds(db)
  {
    var allowed := if db.settings.mode == SinglePage then SingleSelections(db.settings) else db.roles[s].selections;
    Section(allowed, Entries(db, s))
  }

  type Selections = map<Id, seq<Id>>

  ghost predicate Distinct(picks: seq<Id>) {
    forall j, k :: 0 <= j < k < |picks| ==> picks[j] != picks[k]
  }

  ghost predicate SectionFilled(section: Section, picks: seq<Id>) {
    && 1 <= |picks| <= section.allowed && Distinct(picks)
    && (forall k :: 0 <= k < |picks| ==> picks[k] in section.valid)
  }

  /** A missing section reads as no picks. */
  function PicksIn(sel: Selections, s: Id): seq<Id> {
    if s in sel then sel[s] else []
  }

  ghost predicate BallotFilled(db: Db, sel: Selections) {
    forall s :: s in SectionIds(db) ==> SectionFilled(SectionOf(db, s), PicksIn(sel, s))
  }

  ghost predicate MayVote(db: Db, user: Id) {
    db.settings.voting == Open && user in db.users && db.users[user].status == Active && !HasVoted(db, user)
  }

  /** Everything CastBallot checks before it writes. */
  ghost predicate Accepts(db: Db, user: Id, sel: Selections) {
    MayVote(db, user) && BallotFilled(db, sel)
  }

  /** The picks in the order the votes are written. */
  function Picks(order: seq<Id>, sel: Selections): seq<Pick> {
    if order == [] then [] else SectionPicks(order[0], PicksIn(sel, order[0])) + Picks(order[1..], sel)
  }

  function SectionPicks(s: Id, picks: seq<Id>): (r: seq<Pick>)
    ensures |r| == |picks| && forall k :: 0 <= k < |r| ==> r[k] == (s, picks[k])
  {
    if picks == [] then [] else [(s, picks[0])] + SectionPicks(s, picks[1..])
  }

  /** Every pick of every listed section is there, and nothing else. */
  lemma {:induction false} PickIsListed(order: seq<Id>, sel: Selections, s: Id, p: Id)
    ensures (s, p) in Picks(order, sel) <==> s in order && s in sel && p in sel[s]
  {
    if order != [] {
      var here, rest := SectionPicks(order[0], PicksIn(sel, order[0])), Picks(order[1..], sel);
      PickIsListed(order[1..], sel, s, p);
      SectionLists(order[0], PicksIn(sel, order[0]), s, p);
      assert Picks(order, sel) == here + rest;
      assert s in order <==> s == order[0] || s in order[1..];
    }
  }

  lemma SectionLists(section: Id, picks: seq<Id>, s: Id, p: Id)
    ensures (s, p) in SectionPicks(section, picks) <==> s == section && p in picks
  {
    var listed := SectionPicks(section, picks);
    if s == section && p in picks {
      var k :| 0 <= k < |picks| && picks[k] == p;
      assert listed[k] == (s, p);
    }
  }

  // ------------------------------------------------------------ what CastBallot reads

  /** What CastBallot reads of one page before it looks at the picks. */
  datatype Check = Check(section: Id, allowed: int, valid: set<Id>)

  /** The loop that checks one page's picks. */
  ghost predicate Passes(c: Check, sel: Selections) {
    SectionFilled(Section(c.allowed, c.valid), PicksIn(sel, c.section))
  }

  ghost predicate ValidAll(checks: seq<Check>, sel: Selections) {
    forall k :: 0 <= k < |checks| ==> Passes(checks[k], sel)
  }

  /** The votes the transaction inserts, page by page. */
  function CheckedPicks(checks: seq<Check>, sel: Selections): seq<Pick> {
    if checks == [] then []
    else SectionPicks(checks[0].section, PicksIn(sel, checks[0].section)) + CheckedPicks(checks[1..], sel)
  }

  /** Every pick of every page read is among them, and nothing else. */
  lemma {:induction false} CheckedPickIsListed(checks: seq<Check>, sel: Selections, s: Id, p: Id)
    ensures (s, p) in CheckedPicks(checks, sel) <==>
      (exists k :: 0 <= k < |checks| && checks[k].section == s) && s in sel && p in sel[s]
  {
    if checks != [] {
      var first, rest := checks[0], checks[1..];
      var here := SectionPicks(first.section, PicksIn(sel, first.section));
      CheckedPickIsListed(rest, sel, s, p);
      SectionLists(first.section, PicksIn(sel, first.section), s, p);
      assert CheckedPicks(checks, sel) == here + CheckedPicks(rest, sel);
      if k :| 0 <= k < |rest| && rest[k].section == s { assert checks[k + 1].section == s; }
      if k :| 0 <= k < |checks| && checks[k].section == s {
        assert k > 0 ==> rest[k - 1].section == s;
      }
    }
  }

  predicate HasRow(db: Db, row: Vote) {
    exists v :: v in db.votes && db.votes[v] == row
  }

  lemma {:induction false} RowsStay(db: Db, ballot: Id, user: Id, picks: seq<Pick>, row: Vote)
    requires Below(db.votes.Keys, db.next.vote) && HasRow(db, row) && InsertVotes(db, ballot, user, picks).Some?
    ensures HasRow(InsertVotes(db, ballot, user, picks).value, row)
    decreases |picks|
  {
    if picks != [] {
      var db1 := InsertVote(db, Vote(ballot, user, picks[0].0, picks[0].1)).value;
      var v :| v in db.votes && db.votes[v] == row;
      assert v in db.votes.Keys && v in db1.votes && db1.votes[v] == row;
      RowsStay(db1, ballot, user, picks[1..], row);
    }
  }

  /** A list of picks that is inserted to the end leaves a row for each. */
  lemma {:induction false} InsertedPickHasRow(db: Db, ballot: Id, user: Id, picks: seq<Pick>, pick: Pick)
    requires Below(db.votes.Keys, db.next.vote) && pick in picks && InsertVotes(db, ballot, user, picks).Some?
    ensures HasRow(InsertVotes(db, ballot, user, picks).value, Vote(ballot, user, pick.0, pick.1))
    decreases |picks|
  {
    var row := Vote(ballot, user, picks[0].0, picks[0].1);
    var db1 := InsertVote(db, row).value;
    assert db1.votes[db.next.vote] == row;
    if pick == picks[0] {
      RowsStay(db1, ballot, user, picks[1..], row);
    } else {
      InsertedPickHasRow(db1, ballot, user, picks[1..], pick);
    }
  }

  function CheckOf(db: Db, s: Id): Check
    requires s in SectionIds(db)
  {
    Check(s, SectionOf(db, s).allowed, SectionOf(db, s).valid)
  }

  ghost predicate AreChecks(db: Db, order: seq<Id>, checks: seq<Check>) {
    && |checks| == |order|
    && forall k :: 0 <= k < |order| ==> order[k] in SectionIds(db) && checks[k] == CheckOf(db, order[k])
  }

  /** What was read decides acceptance, and lists the votes in the order of the sections. */
  lemma ChecksDecide(db: Db, order: seq<Id>, checks: seq<Check>, sel: Selections)
    requires AreChecks(db, order, checks) && Enumerates(order, SectionIds(db))
    ensures ValidAll(checks, sel) <==> BallotFilled(db, sel)
    ensures CheckedPicks(checks, sel) == Picks(order, sel)
  {
    if ValidAll(checks, sel) {
      forall s | s in SectionIds(db) ensures SectionFilled(SectionOf(db, s), PicksIn(sel, s)) {
        var k :| 0 <= k < |order| && order[k] == s;
        assert Passes(checks[k], sel);
      }
    }
    if BallotFilled(db, sel) {
      forall k | 0 <= k < |checks| ensures Passes(checks[k], sel) {
        assert SectionFilled(SectionOf(db, order[k]), PicksIn(sel, order[k]));
      }
    }
    ChecksListPicks(db, order, checks, sel);
  }

  lemma {:induction false} ChecksListPicks(db: Db, order: seq<Id>, checks: seq<Check>, sel: Selections)
    requires AreChecks(db, order, checks)
    ensures CheckedPicks(checks, sel) == Picks(order, sel)
  {
    if order != [] {
      ChecksListPicks(db, order[1..], checks[1..], sel);
    }
  }

  // ------------------------------------------------------------ a ballot that passes commits

  ghost predicate Insertable(db: Db, ballot: Id, user: Id, picks: seq<Pick>) {
    && ballot in db.ballots
    && (forall k :: 0 <= k < |picks| ==> picks[k].1 in db.participants)
    && (forall j, k :: 0 <= j < k < |picks| ==> picks[j].1 != picks[k].1)
    && (forall v, k :: v in db.votes && 0 <= k < |picks| && db.votes[v].user == user ==>
          db.votes[v].participant != picks[k].1)
  }

  function VoteFor(ballot: Id, user: Id, pick: Pick): Vote {
    Vote(ballot, user, pick.0, pick.1)
  }

  /** The table of votes with the given ones added under consecutive ids. */
  ghost predicate VotesAdded(before: Db, after: Db, ballot: Id, user: Id, picks: seq<Pick>) {
    && after == before.(votes := after.votes, next := before.next.(vote := before.next.vote + |picks|))
    && (forall v :: v in before.votes && v < before.next.vote ==> v in after.votes && after.votes[v] == before.votes[v])
    && (forall v :: v in after.votes ==> v in before.votes || before.next.vote <= v < before.next.vote + |picks|)
    && (forall v :: before.next.vote <= v < before.next.vote + |picks| ==>
          v in after.votes && after.votes[v] == VoteFor(ballot, user, picks[v - before.next.vote]))
  }

  lemma {:induction false} InsertVotesCommits(db: Db, ballot: Id, user: Id, picks: seq<Pick>)
    requires Insertable(db, ballot, user, picks)
    ensures InsertVotes(db, ballot, user, picks).Some?
    ensures VotesAdded(db, InsertVotes(db, ballot, user, picks).value, ballot, user, picks)
    decreases |picks|
  {
    if picks != [] {
      var vote := VoteFor(ballot, user, picks[0]);
      FirstVoteCommits(db, ballot, user, picks);
      var db1 := InsertVote(db, vote).value;
      hide Insertable;
      InsertVotesCommits(db1, ballot, user, picks[1..]);
      VotesAddedMore(db, db1, InsertVotes(db1, ballot, user, picks[1..]).value, ballot, user, picks);
    }
  }

  lemma FirstVoteCommits(db: Db, ballot: Id, user: Id, picks: seq<Pick>)
    requires Insertable(db, ballot, user, picks) && picks != []
    ensures InsertVote(db, VoteFor(ballot, user, picks[0])).Some?
    ensures Insertable(InsertVote(db, VoteFor(ballot, user, picks[0])).value, ballot, user, picks[1..])
  {
    var vote := VoteFor(ballot, user, picks[0]);
    forall v | v in db.votes ensures !SameVoteKey(db.votes[v], vote) { }
    var db1 := InsertVote(db, vote).value;
    forall v, k | v in db1.votes && 0 <= k < |picks[1..]| && db1.votes[v].user == user
      ensures db1.votes[v].participant != picks[1..][k].1
    {
      assert picks[1..][k] == picks[k + 1];
    }
  }

  lemma VotesAddedMore(db: Db, db1: Db, db2: Db, ballot: Id, user: Id, picks: seq<Pick>)
    requires picks != [] && InsertVote(db, VoteFor(ballot, user, picks[0])) == Some(db1)
    requires VotesAdded(db1, db2, ballot, user, picks[1..])
    ensures VotesAdded(db, db2, ballot, user, picks)
  {
    var n := db.next.vote;
    forall v | n <= v < n + |picks| ensures v in db2.votes && db2.votes[v] == VoteFor(ballot, user, picks[v - n]) {
      if v == n { assert n in db1.votes && n < db1.next.vote; }
      else { assert picks[1..][v - db1.next.vote] == picks[v - n]; }
    }
  }

  ghost predicate PickHolds(db: Db, order: seq<Id>, pick: Pick) {
    pick.0 in order && pick.1 in Entries(db, pick.0)
  }

  ghost predicate DistinctPicks(picks: seq<Pick>) {
    forall j, k :: 0 <= j < k < |picks| ==> picks[j].1 != picks[k].1
  }

  /** Every pick of an accepted ballot names a participant of its own section, and none twice. */
  ghost predicate PicksHold(db: Db, order: seq<Id>, picks: seq<Pick>) {
    (forall k :: 0 <= k < |picks| ==> PickHolds(db, order, picks[k])) && DistinctPicks(picks)
  }

  lemma DistinctJoin(a: seq<Pick>, b: seq<Pick>)
    requires DistinctPicks(a) && DistinctPicks(b)
    requires forall j, k :: 0 <= j < |a| && 0 <= k < |b| ==> a[j].1 != b[k].1
    ensures DistinctPicks(a + b)
  {
  }

  /** Picks of one more section, whose candidates are in no other. */
  lemma PicksHoldMore(db: Db, s: Id, order: seq<Id>, here: seq<Id>, rest: seq<Pick>)
    requires PicksHold(db, order, rest) && s !in order && Distinct(here)
    requires forall k :: 0 <= k < |here| ==> here[k] in Entries(db, s)
    ensures PicksHold(db, [s] + order, SectionPicks(s, here) + rest)
  {
    var first := SectionPicks(s, here);
    forall j, k | 0 <= j < |first| && 0 <= k < |rest| ensures first[j].1 != rest[k].1 {
      assert PickHolds(db, order, rest[k]) && first[j].1 in Entries(db, s);
    }
    DistinctJoin(first, rest);
    forall k | 0 <= k < |first| ensures PickHolds(db, [s] + order, first[k]) { }
    forall k | 0 <= k < |rest| ensures PickHolds(db, [s] + order, rest[k]) {
      assert PickHolds(db, order, rest[k]);
    }
    hide PickHolds;
  }

  /** Sections have disjoint candidates, so no participant is picked twice on a whole ballot. */
  lemma {:induction false} AcceptedPicksHold(db: Db, order: seq<Id>, sel: Selections)
    requires Distinct(order)
    requires forall k :: 0 <= k < |order| ==>
      order[k] in SectionIds(db) && SectionFilled(SectionOf(db, order[k]), PicksIn(sel, order[k]))
    ensures PicksHold(db, order, Picks(order, sel))
    ensures |Picks(order, sel)| >= |order|
  {
    if order != [] {
      var s, rest := order[0], order[1..];
      AcceptedPicksHold(db, rest, sel);
      assert s !in rest && SectionFilled(SectionOf(db, s), PicksIn(sel, s));
      hide PicksHold;
      PicksHoldMore(db, s, rest, PicksIn(sel, s), Picks(rest, sel));
      assert [s] + rest == order;
    }
  }

  lemma OrderEnumeratesSections(db: Db)
    ensures Enumerates(Order(db), SectionIds(db)) && Distinct(Order(db))
  {
    if db.settings.mode == ByRole { InOrderEnumerates(db.roles, db.roles.Keys); }
  }

  /** A user without a ballot has no votes. */
  lemma NoBallotNoVotes(db: Db, user: Id)
    requires Integrity(db) && !HasVoted(db, user)
    ensures forall v :: v in db.votes ==> db.votes[v].user != user
  {
    forall v | v in db.votes ensures db.votes[v].user != user {
      assert VotesHaveBallots(db.votes, db.ballots);
    }
  }

  lemma BallotIsInsertable(db: Db, user: Id, sel: Selections)
    requires Integrity(db) && Accepts(db, user, sel)
    ensures InsertBallot(db, user).Some? && db.next.ballot !in db.ballots
    ensures var picks, db1 := Picks(Order(db), sel), InsertBallot(db, user).value;
      && Insertable(db1, db.next.ballot, user, picks)
      && |picks| >= |Order(db)| && PicksHold(db, Order(db), picks)
      && db1.ballots == db.ballots[db.next.ballot := user]
      && Exec(db, Cast(user, picks)) == InsertVotes(db1, db.next.ballot, user, picks)
  {
    var order := Order(db);
    OrderEnumeratesSections(db);
    AcceptedPicksHold(db, order, sel);
    NoBallotNoVotes(db, user);
    assert Below(db.ballots.Keys, db.next.ballot);
    hide Integrity, InsertVotes, Picks, Order;
  }

  /**
   * A ballot that passes the checks always commits: no UNIQUE or FOREIGN KEY check
   * can fail. It adds one ballot and exactly one vote for every pick of every
   * section, at least one in each, and touches nothing else.
   */
  lemma AcceptedBallotCommits(db: Db, user: Id, sel: Selections)
    requires Integrity(db) && Accepts(db, user, sel)
    ensures var picks, result := Picks(Order(db), sel), Exec(db, Cast(user, Picks(Order(db), sel)));
      && result.Some? && |picks| >= |SectionIds(db)| && PicksHold(db, Order(db), picks)
      && result.value.ballots == db.ballots[db.next.ballot := user] && db.next.ballot !in db.ballots
      && VotesAdded(InsertBallot(db, user).value, result.value, db.next.ballot, user, picks)
  {
    BallotIsInsertable(db, user, sel);
    OrderEnumeratesSections(db);
    var order := Order(db);
    hide *;
    InsertVotesCommits(InsertBallot(db, user).value, db.next.ballot, user, Picks(order, sel));
    EnumerationLength(order, SectionIds(db));
  }

  lemma {:induction false} EnumerationLength(order: seq<Id>, ids: set<Id>)
    requires Enumerates(order, ids)
    ensures |order| == |ids|
  {
    if order == [] {
      assert forall x :: x !in ids;
    } else {
      var x, rest := order[0], ids - {order[0]};
      assert Enumerates(order[1..], rest) by {
        forall y | y in rest ensures y in order[1..] { assert y in order; }
      }
      EnumerationLength(order[1..], rest);
    }
  }

  // ------------------------------------------------------------ opening the vote

  /** What validateVotingSetup demands. */
  predicate ValidSetup(db: Db) {
    && !db.settings.gateOpen
    && if db.settings.mode == SinglePage then
         |Entries(db, 0)| >= 2 && SingleSelections(db.settings) <= |Entries(db, 0)|
       else
         && db.roles != map[]
         && forall r :: r in db.roles ==> Entries(db, r) != {} && db.roles[r].selections <= |Entries(db, r)|
  }

  /** A ballot that uses the full allowance of every section. */
  ghost predicate FullBallot(db: Db, sel: Selections) {
    BallotFilled(db, sel) && forall s :: s in SectionIds(db) ==> |PicksIn(sel, s)| == SectionOf(db, s).allowed
  }

  lemma {:induction false} ChooseFrom(ids: set<Id>, n: nat) returns (picks: seq<Id>)
    requires n <= |ids|
    ensures |picks| == n && Distinct(picks) && forall k :: 0 <= k < n ==> picks[k] in ids
  {
    if n == 0 {
      picks := [];
    } else {
      var x := SomeElement(ids);
      var rest := ChooseFrom(ids - {x}, n - 1);
      picks := [x] + rest;
    }
  }

  lemma {:induction false} DistinctPicksFit(picks: seq<Id>, ids: set<Id>)
    requires Distinct(picks) && forall k :: 0 <= k < |picks| ==> picks[k] in ids
    ensures |picks| <= |ids|
  {
    if picks != [] {
      DistinctPicksFit(picks[1..], ids - {picks[0]});
    }
  }

  lemma {:induction false} FillSections(db: Db, todo: set<Id>) returns (sel: Selections)
    requires todo <= SectionIds(db)
    requires forall s :: s in todo ==> 1 <= SectionOf(db, s).allowed <= |SectionOf(db, s).valid|
    ensures forall s :: s in todo ==>
      SectionFilled(SectionOf(db, s), PicksIn(sel, s)) && |PicksIn(sel, s)| == SectionOf(db, s).allowed
    decreases todo
  {
    if todo == {} {
      sel := map[];
    } else {
      var s := SomeElement(todo);
      var rest := FillSections(db, todo - {s});
      var picks := ChooseFrom(SectionOf(db, s).valid, SectionOf(db, s).allowed);
      sel := rest[s := picks];
      forall x | x in todo && x != s ensures PicksIn(sel, x) == PicksIn(rest, x) { }
    }
  }

  /** No role of the store allows less than one pick. */
  ghost predicate RolesAllow(db: Db) {
    forall r :: r in db.roles ==> db.roles[r].selections >= 1
  }

  /**
   * A ballot using every allowance exists exactly when no section allows more
   * picks than it has candidates.
   */
  lemma FullBallotExistsIff(db: Db)
    requires RolesAllow(db)
    ensures (exists sel :: FullBallot(db, sel)) <==>
      forall s :: s in SectionIds(db) ==> SectionOf(db, s).allowed <= |SectionOf(db, s).valid|
  {
    if forall s :: s in SectionIds(db) ==> SectionOf(db, s).allowed <= |SectionOf(db, s).valid| {
      var sel := FillSections(db, SectionIds(db));
      assert FullBallot(db, sel);
    }
    forall sel, s | FullBallot(db, sel) && s in SectionIds(db)
      ensures SectionOf(db, s).allowed <= |SectionOf(db, s).valid|
    {
      DistinctPicksFit(PicksIn(sel, s), SectionOf(db, s).valid);
    }
  }

  /**
   * validateVotingSetup blocks exactly the votes no full ballot can be cast in, a
   * single page with one candidate, a vote without roles, and an open gate.
   */
  lemma ValidSetupIff(db: Db)
    requires RolesAllow(db)
    ensures ValidSetup(db) <==>
      && !db.settings.gateOpen && (exists sel :: FullBallot(db, sel))
      && (if db.settings.mode == SinglePage then |Entries(db, 0)| >= 2 else db.roles != map[])
  {
    FullBallotExistsIff(db);
    if db.settings.mode == SinglePage {
      assert 0 in SectionIds(db);
    } else {
      forall r | r in db.roles ensures r in SectionIds(db) { }
      if forall s :: s in SectionIds(db) ==> SectionOf(db, s).allowed <= |SectionOf(db, s).valid| {
        forall r | r in db.roles ensures Entries(db, r) != {} {
          assert SectionOf(db, r).allowed >= 1;
        }
      }
    }
  }

  /** With a valid setup and voting open, every active member who has not voted can cast a full ballot. */
  lemma ValidSetupLetsEveryoneVote(db: Db, user: Id)
    requires RolesAllow(db) && ValidSetup(db) && MayVote(db, user)
    ensures exists sel :: Accepts(db, user, sel) && FullBallot(db, sel)
  {
    ValidSetupIff(db);
    var sel :| FullBallot(db, sel);
    assert Accepts(db, user, sel);
  }

  /** Another member's ballot leaves an acceptable ballot acceptable. */
  lemma OthersBallotsDoNotMatter(db: Db, user: Id, sel: Selections, other: Id, picks: seq<Pick>)
    requires Integrity(db) && Accepts(db, user, sel) && other != user && Exec(db, Cast(other, picks)).Some?
    ensures Accepts(Exec(db, Cast(other, picks)).value, user, sel)
  {
    var db' := Exec(db, Cast(other, picks)).value;
    InsertVotesFrame(InsertBallot(db, other).value, db.next.ballot, other, picks);
    assert db'.ballots == db.ballots[db.next.ballot := other];
    forall s | s in SectionIds(db') ensures SectionOf(db', s) == SectionOf(db, s) { }
  }

  lemma {:induction false} InsertVotesFrame(db: Db, ballot: Id, user: Id, picks: seq<Pick>)
    requires InsertVotes(db, ballot, user, picks).Some?
    ensures var db' := InsertVotes(db, ballot, user, picks).value;
      db' == db.(votes := db'.votes, next := db.next.(vote := db'.next.vote))
    decreases |picks|
  {
    if picks != [] {
      InsertVotesFrame(InsertVote(db, Vote(ballot, user, picks[0].0, picks[0].1)).value, ballot, user, picks[1..]);
    }
  }
}
