// The results page of internal/httpapi/elections.go: tallies, sections and what
// they add up to.
module Results {
  import opened Database
  import opened Ballots
  import opened Operations

  function VotesOf(db: Db, participants: set<Id>): set<Id> {
    set v | v in db.votes && db.votes[v].participant in participants
  }

  function SumTallies(db: Db, ps: seq<Id>): nat {
    if ps == [] then 0 else Tally(db, ps[0]) + SumTallies(db, ps[1..])
  }

  lemma {:induction false} SumCountsVotes(db: Db, ps: seq<Id>, ids: set<Id>)
    requires Enumerates(ps, ids)
    ensures SumTallies(db, ps) == |VotesOf(db, ids)|
  {
    if ps == [] {
      assert forall x :: x !in ids;
      assert VotesOf(db, ids) == {};
    } else {
      var p, rest := ps[0], ids - {ps[0]};
      assert Enumerates(ps[1..], rest) by {
        forall y | y in rest ensures y in ps[1..] { assert y in ps; }
      }
      SumCountsVotes(db, ps[1..], rest);
      assert VotesOf(db, ids) == VotesFor(db, p) + VotesOf(db, rest);
      assert VotesFor(db, p) !! VotesOf(db, rest);
    }
  }

  /** The tallies of all participants add up to the number of vote rows. */
  lemma TalliesAddUp(db: Db, ps: seq<Id>)
    requires Integrity(db) && Enumerates(ps, db.participants.Keys)
    ensures SumTallies(db, ps) == |db.votes|
  {
    SumCountsVotes(db, ps, db.participants.Keys);
    AllVotesCounted(db, db.participants.Keys);
  }

  lemma AllVotesCounted(db: Db, ids: set<Id>)
    requires Integrity(db) && db.participants.Keys <= ids
    ensures VotesOf(db, ids) == db.votes.Keys
  {
    assert VotesHaveEntries(db.votes, db.participants.Keys);
    assert forall v :: v in db.votes ==> v in VotesOf(db, ids);
  }

  lemma {:induction false} InjectionFits(db: Db, votes: set<Id>)
    requires votes <= db.votes.Keys
    requires forall v :: v in votes ==> db.votes[v].ballot in db.ballots
    requires forall v, w :: v in votes && w in votes && db.votes[v].ballot == db.votes[w].ballot ==> v == w
    ensures |votes| <= |db.ballots|
    ensures |votes| == |set v | v in votes :: db.votes[v].ballot|
    decreases votes
  {
    var ballots := set v | v in votes :: db.votes[v].ballot;
    if votes == {} {
      assert ballots == {};
    } else {
      var v := SomeElement(votes);
      InjectionFits(db, votes - {v});
      var others := set w | w in votes - {v} :: db.votes[w].ballot;
      assert ballots == others + {db.votes[v].ballot} && db.votes[v].ballot !in others;
    }
    SubsetFits(ballots, db.ballots.Keys);
  }

  lemma {:induction false} SubsetFits(a: set<Id>, b: set<Id>)
    requires a <= b
    ensures |a| <= |b|
    decreases a
  {
    if a != {} {
      var x := SomeElement(a);
      SubsetFits(a - {x}, b - {x});
    }
  }

  /** No tally exceeds the number of ballots: one ballot gives a candidate at most one vote. */
  lemma TallyFitsBallots(db: Db, p: Id)
    requires Integrity(db)
    ensures Tally(db, p) <= |db.ballots|
  {
    var votes := VotesFor(db, p);
    forall v, w | v in votes && w in votes && db.votes[v].ballot == db.votes[w].ballot ensures v == w {
      assert SameVoteKey(db.votes[v], db.votes[w]);
    }
    InjectionFits(db, votes);
  }

  /**
   * In every run of operations, with every cascade on the way, each vote belongs to
   * the ballot of its user and to an existing participant, the tallies of all
   * participants add up to the votes cast, and none exceeds the number of ballots.
   */
  lemma EveryRunAddsUp(db: Db, ops: seq<Op>, ps: seq<Id>)
    requires Integrity(db) && Enumerates(ps, Run(db, ops).participants.Keys)
    ensures var now := Run(db, ops);
      && VotesHaveBallots(now.votes, now.ballots) && VotesHaveEntries(now.votes, now.participants.Keys)
      && SumTallies(now, ps) == |now.votes| && forall p :: p in ps ==> Tally(now, p) <= |now.ballots|
  {
    RunKeepsIntegrity(db, ops);
    var now := Run(db, ops);
    assert VotesHaveBallots(now.votes, now.ballots) && VotesHaveEntries(now.votes, now.participants.Keys);
    TalliesAddUp(now, ps);
    forall p | p in ps ensures Tally(now, p) <= |now.ballots| { TallyFitsBallots(now, p); }
  }

  // ------------------------------------------------------------ the page

  datatype ResultSection = ResultSection(role: Id, candidates: seq<Id>, total: nat)

  /** The rows of a query, in some order. */
  method Rows(ids: set<Id>) returns (rows: seq<Id>)
    ensures Enumerates(rows, ids)
  {
    rows := [];
    var left := ids;
    while left != {}
      invariant left <= ids && Enumerates(rows, ids - left)
      decreases left
    {
      assert (forall y :: y !in left) ==> left == {};
      var x :| x in left;
      left := left - {x};
      rows := rows + [x];
    }
    assert ids - left == ids;
  }

  method FirstRole(roles: map<Id, Role>, ids: set<Id>) returns (r: Id)
    requires ids <= roles.Keys && ids != {}
    ensures IsFirst(roles, ids, r)
  {
    var rows := Rows(ids);
    assert rows != [] by { assert (forall y :: y !in ids) ==> ids == {}; }
    r := rows[0];
    for i := 1 to |rows|
      invariant r in ids && forall k :: 0 <= k < i ==> Before(roles, r, rows[k])
    {
      if !Before(roles, r, rows[i]) { r := rows[i]; }
    }
  }

  /** SELECT ... FROM roles ORDER BY sort_order, id. */
  method OrderedRoles(roles: map<Id, Role>) returns (order: seq<Id>)
    ensures order == InOrder(roles, roles.Keys)
    ensures Enumerates(order, roles.Keys) && Ascends(roles, order)
  {
    hide Enumerates, Ascends;
    order := [];
    var left := roles.Keys;
    while left != {}
      invariant left <= roles.Keys
      invariant order + InOrder(roles, left) == InOrder(roles, roles.Keys)
      decreases left
    {
      var r := FirstRole(roles, left);
      InOrderStartsWith(roles, left, r);
      assert order + InOrder(roles, left) == (order + [r]) + InOrder(roles, left - {r});
      order := order + [r];
      left := left - {r};
    }
    InOrderEnumerates(roles, roles.Keys);
    InOrderAscends(roles, roles.Keys);
  }

  method SumVotes(db: Db, ps: seq<Id>) returns (total: nat)
    ensures total == SumTallies(db, ps)
  {
    total := 0;
    for i := 0 to |ps|
      invariant total + SumTallies(db, ps[i..]) == SumTallies(db, ps)
    {
      assert ps[i..][1..] == ps[i + 1..];
      total := total + Tally(db, ps[i]);
    }
  }

  /** A section shows exactly the candidates of its role, and the sum of their tallies. */
  ghost predicate ShowsRole(db: Db, s: ResultSection) {
    Enumerates(s.candidates, Entries(db, s.role)) && s.total == |VotesOf(db, Entries(db, s.role))|
  }

  method SectionFor(db: Db, role: Id) returns (s: ResultSection)
    ensures s.role == role && ShowsRole(db, s)
  {
    var candidates := Rows(Entries(db, role));
    var total := SumVotes(db, candidates);
    SumCountsVotes(db, candidates, Entries(db, role));
    s := ResultSection(role, candidates, total);
  }

  function SumTotals(sections: seq<ResultSection>): nat {
    if sections == [] then 0 else sections[0].total + SumTotals(sections[1..])
  }

  lemma {:induction false} SumTotalsSnoc(sections: seq<ResultSection>, s: ResultSection)
    ensures SumTotals(sections + [s]) == SumTotals(sections) + s.total
  {
    if sections == [] {
      assert [] + [s] == [s];
      assert SumTotals([s]) == s.total + SumTotals([]);
    } else {
      assert (sections + [s])[1..] == sections[1..] + [s];
      SumTotalsSnoc(sections[1..], s);
    }
  }

  /** Participants whose role is among the given ones. */
  function EntriesAmong(db: Db, roles: set<Id>): set<Id> {
    set p | p in db.participants && db.participants[p].role in roles
  }

  lemma AddRole(db: Db, roles: set<Id>, role: Id)
    requires role !in roles
    ensures |VotesOf(db, EntriesAmong(db, roles + {role}))|
         == |VotesOf(db, EntriesAmong(db, roles))| + |VotesOf(db, Entries(db, role))|
  {
    var a, b := EntriesAmong(db, roles), Entries(db, role);
    assert EntriesAmong(db, roles + {role}) == a + b && a !! b;
    assert VotesOf(db, a + b) == VotesOf(db, a) + VotesOf(db, b) && VotesOf(db, a) !! VotesOf(db, b);
  }

  /** The loop over the roles. */
  method RoleSections(db: Db, roles: seq<Id>) returns (sections: seq<ResultSection>)
    requires Enumerates(roles, db.roles.Keys)
    ensures |sections| == |roles|
    ensures forall k :: 0 <= k < |sections| ==> sections[k].role == roles[k] && ShowsRole(db, sections[k])
    ensures SumTotals(sections) == |VotesOf(db, EntriesAmong(db, db.roles.Keys))|
  {
    hide ShowsRole, VotesOf, EntriesAmong;
    sections := [];
    ghost var seen: set<Id> := {};
    NoRoles(db);
    for i := 0 to |roles|
      invariant forall x :: x in seen <==> x in roles[..i]
      invariant |sections| == i
      invariant forall k :: 0 <= k < i ==> sections[k].role == roles[k] && ShowsRole(db, sections[k])
      invariant SumTotals(sections) == |VotesOf(db, EntriesAmong(db, seen))|
    {
      var s := SectionFor(db, roles[i]);
      assert roles[..i + 1] == roles[..i] + [roles[i]];
      AddSection(db, seen, s);
      SumTotalsSnoc(sections, s);
      sections := sections + [s];
      seen := seen + {roles[i]};
    }
    assert roles[..|roles|] == roles;
    assert forall x :: x in seen <==> x in db.roles.Keys;
    assert seen == db.roles.Keys;
  }

  lemma NoRoles(db: Db)
    ensures |VotesOf(db, EntriesAmong(db, {}))| == 0
  {
    assert EntriesAmong(db, {}) == {} && VotesOf(db, {}) == {};
  }

  lemma AddSection(db: Db, roles: set<Id>, s: ResultSection)
    requires s.role !in roles && ShowsRole(db, s)
    ensures |VotesOf(db, EntriesAmong(db, roles + {s.role}))| == |VotesOf(db, EntriesAmong(db, roles))| + s.total
  {
    AddRole(db, roles, s.role);
  }

  /** Every candidate of the roles page is on it, in the one section of its role. */
  ghost predicate ShowsEveryone(db: Db, sections: seq<ResultSection>) {
    forall p :: p in db.participants ==> exists k :: 0 <= k < |sections| && p in sections[k].candidates
  }

  /** Roles in the order of the ballot, then the candidates left without one, if any. */
  ghost predicate InPageOrder(db: Db, sections: seq<ResultSection>) {
    var order := InOrder(db.roles, db.roles.Keys);
    && (forall k :: 0 <= k < |order| ==> k < |sections| && sections[k].role == order[k])
    && |sections| == |order| + (if Entries(db, 0) == {} then 0 else 1)
    && (Entries(db, 0) != {} ==> sections[|order|].role == 0)
  }

  method Overview(db: Db) returns (sections: seq<ResultSection>)
    requires Integrity(db)
    ensures forall k :: 0 <= k < |sections| ==> ShowsRole(db, sections[k])
    ensures forall j, k :: 0 <= j < k < |sections| ==> sections[j].role != sections[k].role
    ensures db.settings.mode == SinglePage ==> |sections| == 1 && sections[0].role == 0
    ensures db.settings.mode == ByRole ==> InPageOrder(db, sections)
    ensures db.settings.mode == ByRole ==> ShowsEveryone(db, sections) && SumTotals(sections) == |db.votes|
  {
    if db.settings.mode == SinglePage {
      var s := SectionFor(db, 0);
      return [s];
    }
    sections := SectionsByRole(db);
  }

  method SectionsByRole(db: Db) returns (sections: seq<ResultSection>)
    requires Integrity(db)
    ensures forall k :: 0 <= k < |sections| ==> ShowsRole(db, sections[k])
    ensures forall j, k :: 0 <= j < k < |sections| ==> sections[j].role != sections[k].role
    ensures InPageOrder(db, sections) && ShowsEveryone(db, sections) && SumTotals(sections) == |db.votes|
  {
    assert 0 !in db.roles;
    var roles := OrderedRoles(db.roles);
    InOrderEnumerates(db.roles, db.roles.Keys);
    hide *;
    sections := RoleSections(db, roles);
    ghost var shown := sections;
    var orphans := SectionFor(db, 0); // candidates left without a role
    AllSectionsCount(db, orphans);
    if |orphans.candidates| > 0 {
      sections := sections + [orphans];
    }
    PageIsComplete(db, roles, shown, orphans, sections);
  }

  lemma OrphansLast(db: Db, shown: seq<ResultSection>, orphans: ResultSection, sections: seq<ResultSection>)
    requires ShowsRole(db, orphans) && orphans.role == 0
    requires sections == if orphans.candidates == [] then shown else shown + [orphans]
    ensures Entries(db, 0) == {} <==> orphans.candidates == []
    ensures SumTotals(sections) == SumTotals(shown) + orphans.total
  {
    if orphans.candidates == [] {
      NobodyHasNoVotes(db, orphans);
    } else {
      assert orphans.candidates[0] in Entries(db, 0);
      hide ShowsRole, Entries;
      SumTotalsSnoc(shown, orphans);
    }
  }

  lemma PageIsComplete(db: Db, roles: seq<Id>, shown: seq<ResultSection>, orphans: ResultSection,
                       sections: seq<ResultSection>)
    requires 0 !in db.roles && Enumerates(roles, db.roles.Keys) && roles == InOrder(db.roles, db.roles.Keys)
    requires |shown| == |roles|
    requires forall k :: 0 <= k < |shown| ==> shown[k].role == roles[k] && ShowsRole(db, shown[k])
    requires SumTotals(shown) + orphans.total == |db.votes| && orphans.role == 0 && ShowsRole(db, orphans)
    requires forall p :: p in db.participants ==> db.participants[p].role == 0 || db.participants[p].role in db.roles
    requires sections == if orphans.candidates == [] then shown else shown + [orphans]
    ensures forall k :: 0 <= k < |sections| ==> ShowsRole(db, sections[k])
    ensures forall j, k :: 0 <= j < k < |sections| ==> sections[j].role != sections[k].role
    ensures InPageOrder(db, sections) && ShowsEveryone(db, sections) && SumTotals(sections) == |db.votes|
  {
    hide ShowsRole, SumTotals, InOrder, Entries, ShowsEveryone;
    OrphansLast(db, shown, orphans, sections);
    assert forall k :: 0 <= k < |shown| ==> sections[k] == shown[k];
    EveryoneIsShown(db, roles, sections);
  }

  lemma AllSectionsCount(db: Db, orphans: ResultSection)
    requires Integrity(db) && orphans.role == 0 && ShowsRole(db, orphans)
    ensures |VotesOf(db, EntriesAmong(db, db.roles.Keys))| + orphans.total == |db.votes|
    ensures forall p :: p in db.participants ==> db.participants[p].role == 0 || db.participants[p].role in db.roles
  {
    assert 0 !in db.roles;
    AddSection(db, db.roles.Keys, orphans);
    assert EntriesHaveRoles(db.participants, db.roles.Keys);
    forall p | p in db.participants ensures p in EntriesAmong(db, db.roles.Keys + {0}) {
      assert db.participants[p].role == 0 || db.participants[p].role in db.roles;
    }
    AllVotesCounted(db, EntriesAmong(db, db.roles.Keys + {0}));
  }

  lemma NobodyHasNoVotes(db: Db, s: ResultSection)
    requires ShowsRole(db, s) && s.candidates == []
    ensures s.total == 0 && Entries(db, s.role) == {}
  {
    assert forall x :: x !in Entries(db, s.role);
    assert VotesOf(db, {}) == {};
  }

  lemma EveryoneIsShown(db: Db, roles: seq<Id>, sections: seq<ResultSection>)
    requires Enumerates(roles, db.roles.Keys) && |roles| <= |sections|
    requires forall k :: 0 <= k < |sections| ==> ShowsRole(db, sections[k])
    requires forall k :: 0 <= k < |roles| ==> sections[k].role == roles[k]
    requires forall p :: p in db.participants ==> db.participants[p].role == 0 || db.participants[p].role in db.roles
    requires Entries(db, 0) == {} || (|sections| == |roles| + 1 && sections[|roles|].role == 0)
    ensures ShowsEveryone(db, sections)
  {
    forall p | p in db.participants ensures exists k :: 0 <= k < |sections| && p in sections[k].candidates {
      var role := db.participants[p].role;
      assert p in Entries(db, role);
      var k := if role == 0 then |roles| else IndexOf(roles, role);
      assert ShowsRole(db, sections[k]) && sections[k].role == role;
    }
  }

  function IndexOf(s: seq<Id>, x: Id): (k: nat)
    requires x in s
    ensures k < |s| && s[k] == x
  {
    if s[0] == x then 0 else 1 + IndexOf(s[1..], x)
  }
}
