// What each operation of the store leaves behind, written out table by table:
// when it succeeds, and every row that differs afterwards.
module Outcomes {
  import opened Prelude
  import opened Database
  import opened Ballots
  import opened Operations
  import Calendar

  // ------------------------------------------------------------ settings

  lemma SetVotingStatusLeaves(db: Db, v: Voting)
    ensures Apply(db, SetVotingStatus(v)) ==
      if v == Open && !ValidSetup(db) then Outcome(db, false)
      else Outcome(db.(settings := db.settings.(voting := v)), true)
  {
    hide ValidSetup;
    if v != Open || ValidSetup(db) { Planned(db, SetVotingStatus(v), PutVoting(v)); }
  }

  lemma SaveElectionSettingsLeaves(db: Db, mode: Mode, title: string, winners: int, selections: int)
    ensures Apply(db, SaveElectionSettings(mode, title, winners, selections)) ==
      if title == "" || (db.settings.voting == Open && mode != db.settings.mode) then Outcome(db, false)
      else
        var count := if selections >= 1 then selections else if winners >= 1 then winners else 1;
        Outcome(db.(settings := db.settings.(mode := mode, singleSelections := count)), true)
  {
    var op := SaveElectionSettings(mode, title, winners, selections);
    if Plan(db, op).Some? {
      var ws := Plan(db, op).value;
      var count := if selections >= 1 then selections else if winners >= 1 then winners else 1;
      assert ws == [PutMode(mode), PutSelections(count)] && ws[1..] == [PutSelections(count)];
      var moded := db.(settings := db.settings.(mode := mode));
      hide Plan;
      OneWrite(moded, PutSelections(count));
    }
  }

  lemma SetCandidacyGateLeaves(db: Db, open: bool)
    ensures Apply(db, SetCandidacyGate(open)) ==
      if open && (db.roles == map[] || db.settings.voting != Draft) then Outcome(db, false)
      else Outcome(db.(settings := db.settings.(gateOpen := open)), true)
  {
    if Plan(db, SetCandidacyGate(open)).Some? { Planned(db, SetCandidacyGate(open), PutGate(open)); }
  }

  // ------------------------------------------------------------ roles and entries

  lemma CreateRoleLeaves(db: Db, name: string, role: Role)
    ensures Apply(db, Op.CreateRole(name, role)) ==
      if name == "" || role.minAge > 120 then Outcome(db, false)
      else
        var winners := if role.winners >= 1 then role.winners else 1;
        var selections := if role.selections >= 1 then role.selections else winners;
        var row := Role(winners, selections, if role.minAge >= 1 then role.minAge else 21, LastOrder(db.roles) + 10);
        Outcome(db.(roles := db.roles[db.next.role := row], next := db.next.(role := db.next.role + 1)), true)
  {
    hide LastOrder;
    var op := Op.CreateRole(name, role);
    if Plan(db, op).Some? {
      Planned(db, op, NewRole(NormalizeRole(name, role).value.(order := LastOrder(db.roles) + 10)));
    }
  }

  lemma UpdateRoleLeaves(db: Db, id: Id, name: string, role: Role)
    ensures Apply(db, Op.UpdateRole(id, name, role)) ==
      if name == "" || role.minAge > 120 then Outcome(db, false)
      else
        var winners := if role.winners >= 1 then role.winners else 1;
        var selections := if role.selections >= 1 then role.selections else winners;
        var row := Role(winners, selections, if role.minAge >= 1 then role.minAge else 21, role.order);
        Outcome(if id in db.roles then db.(roles := db.roles[id := row]) else db, true)
  {
    var op := Op.UpdateRole(id, name, role);
    if Plan(db, op).Some? { Planned(db, op, PutRole(id, NormalizeRole(name, role).value)); }
  }

  lemma DeleteRoleLeaves(db: Db, id: Id)
    requires 0 !in db.roles
    ensures Apply(db, Op.DeleteRole(id)) ==
      if db.settings.voting == Open || id !in db.roles then Outcome(db, false)
      else
        var gone := set p | p in db.participants && db.participants[p].role == id;
        var lost := set v | v in db.votes && db.votes[v].participant in gone;
        Outcome(db.(roles := db.roles - {id}, participants := db.participants - gone, votes := db.votes - lost), true)
  {
    if Plan(db, Op.DeleteRole(id)).Some? { Planned(db, Op.DeleteRole(id), DropRole(id)); }
  }

  lemma CreateParticipantLeaves(db: Db, name: string, roleId: Id)
    requires 0 !in db.roles
    ensures Apply(db, Op.CreateParticipant(name, roleId)) ==
      if name == "" || (roleId > 0 && roleId !in db.roles) then Outcome(db, false)
      else
        var entry := Participant(if roleId > 0 then roleId else 0, 0);
        Outcome(db.(participants := db.participants[db.next.participant := entry],
                    next := db.next.(participant := db.next.participant + 1)), true)
  {
    if name != "" { Planned(db, Op.CreateParticipant(name, roleId), NewEntry(if roleId > 0 then roleId else 0)); }
  }

  lemma UpdateParticipantLeaves(db: Db, id: Id, name: string, roleId: Id)
    requires 0 !in db.roles
    ensures Apply(db, Op.UpdateParticipant(id, name, roleId)) ==
      if name == "" || (id in db.participants && roleId > 0 && roleId !in db.roles) then Outcome(db, false)
      else if id !in db.participants then Outcome(db, true)
      else
        var moved := db.participants[id].(role := if roleId > 0 then roleId else 0);
        Outcome(db.(participants := db.participants[id := moved]), true)
  {
    var role := if roleId > 0 then roleId else 0;
    if name != "" { Planned(db, Op.UpdateParticipant(id, name, roleId), MoveEntry(id, role)); }
    if id in db.participants {
      assert {id} * db.participants.Keys == {id};
      var moved := db.participants[id].(role := role);
      assert WithRole(db.participants, {id}, role) == db.participants[id := moved];
    } else {
      assert {id} * db.participants.Keys == {};
    }
  }

  lemma DeleteParticipantLeaves(db: Db, id: Id)
    ensures Apply(db, Op.DeleteParticipant(id)) ==
      if db.settings.voting == Open || id !in db.participants then Outcome(db, false)
      else
        var lost := set v | v in db.votes && db.votes[v].participant == id;
        Outcome(db.(participants := db.participants - {id}, votes := db.votes - lost), true)
  {
    if Plan(db, Op.DeleteParticipant(id)).Some? {
      Planned(db, Op.DeleteParticipant(id), DropEntry(id));
      assert (set v | v in db.votes && db.votes[v].participant in {id})
          == set v | v in db.votes && db.votes[v].participant == id;
    }
  }

  lemma ResetVotesLeaves(db: Db)
    ensures Apply(db, Op.ResetVotes) ==
      if db.settings.voting == Open then Outcome(db, false)
      else Outcome(db.(votes := map[], ballots := map[]), true)
  {
    if db.settings.voting != Open { Planned(db, Op.ResetVotes, Reset); }
  }

  // ------------------------------------------------------------ the ballot

  /** The pages of the ballot: one for each role, or the one for candidates without a role. */
  predicate IsPage(db: Db, s: Id) {
    if db.settings.mode == SinglePage then s == 0 else s in db.roles
  }

  function Allowance(db: Db, s: Id): int
    requires IsPage(db, s)
  {
    if db.settings.mode == ByRole then db.roles[s].selections
    else if db.settings.singleSelections >= 1 then db.settings.singleSelections else 1
  }

  /** A page of the ballot as it must be sent: one pick at least, none twice, each a candidate of the page. */
  ghost predicate PageIsFilled(db: Db, s: Id, sel: Selections) {
    && IsPage(db, s) && s in sel && 1 <= |sel[s]| <= Allowance(db, s)
    && (forall j, k :: 0 <= j < k < |sel[s]| ==> sel[s][j] != sel[s][k])
    && (forall p :: p in sel[s] ==> p in db.participants && db.participants[p].role == s)
  }

  /** An active member who has not voted fills every page while voting is open. */
  ghost predicate MayCast(db: Db, user: Id, sel: Selections) {
    && db.settings.voting == Open && user in db.users && db.users[user].status == Active
    && (forall b :: b in db.ballots ==> db.ballots[b] != user)
    && (forall s :: IsPage(db, s) ==> PageIsFilled(db, s, sel))
  }

  lemma MayCastIff(db: Db, user: Id, sel: Selections)
    ensures MayCast(db, user, sel) <==> Accepts(db, user, sel)
  {
    assert forall s :: IsPage(db, s) <==> s in SectionIds(db);
    forall s | IsPage(db, s)
      ensures PageIsFilled(db, s, sel) <==> SectionFilled(SectionOf(db, s), PicksIn(sel, s))
    {
      PageIsFilledIff(db, s, sel);
    }
    hide IsPage, SectionIds, PageIsFilled, SectionFilled;
  }

  lemma PageIsFilledIff(db: Db, s: Id, sel: Selections)
    requires IsPage(db, s)
    ensures s in SectionIds(db)
    ensures PageIsFilled(db, s, sel) <==> SectionFilled(SectionOf(db, s), PicksIn(sel, s))
  {
    if s in sel {
      var picks := sel[s];
      if forall k :: 0 <= k < |picks| ==> picks[k] in Entries(db, s) {
        forall p | p in picks ensures p in Entries(db, s) {
          var k :| 0 <= k < |picks| && picks[k] == p;
        }
      }
    }
  }

  /** A row that stands for one pick of the ballot. */
  ghost predicate IsVoteOf(before: Db, user: Id, sel: Selections, row: Vote) {
    && row == Vote(before.next.ballot, user, row.role, row.participant)
    && IsPage(before, row.role) && row.role in sel && row.participant in sel[row.role]
  }

  ghost predicate IsNewVote(before: Db, after: Db, v: Id) {
    v in after.votes && v !in before.votes
  }

  ghost predicate HasNewVote(before: Db, after: Db, row: Vote) {
    exists v :: IsNewVote(before, after, v) && after.votes[v] == row
  }

  /** The new rows are one ballot and, for every pick of every page, one vote; all other rows are as before. */
  ghost predicate BallotWritten(before: Db, after: Db, user: Id, sel: Selections) {
    && after == before.(ballots := before.ballots[before.next.ballot := user], votes := after.votes, next := after.next)
    && before.next.ballot !in before.ballots
    && (forall v :: v in before.votes ==> v in after.votes && after.votes[v] == before.votes[v])
    && (forall v :: IsNewVote(before, after, v) ==> IsVoteOf(before, user, sel, after.votes[v]))
    && (forall row :: IsVoteOf(before, user, sel, row) ==> HasNewVote(before, after, row))
    && (forall v, w :: IsNewVote(before, after, v) && IsNewVote(before, after, w) && v != w ==>
          after.votes[v] != after.votes[w])
  }

  /** Numbered from the next id on, the picks become the new rows. */
  lemma NewRowIsPick(before: Db, placed: Db, after: Db, user: Id, picks: seq<Pick>, v: Id)
    requires placed.votes == before.votes && placed.next.vote == before.next.vote
    requires VotesAdded(placed, after, before.next.ballot, user, picks) && IsNewVote(before, after, v)
    ensures var n := before.next.vote;
      n <= v < n + |picks| && after.votes[v] == Vote(before.next.ballot, user, picks[v - n].0, picks[v - n].1)
  {
  }

  lemma PickIsNewRow(before: Db, placed: Db, after: Db, user: Id, picks: seq<Pick>, k: nat)
    requires Below(before.votes.Keys, before.next.vote)
    requires placed.votes == before.votes && placed.next.vote == before.next.vote
    requires VotesAdded(placed, after, before.next.ballot, user, picks) && k < |picks|
    ensures var v := before.next.vote + k;
      IsNewVote(before, after, v) && after.votes[v] == Vote(before.next.ballot, user, picks[k].0, picks[k].1)
  {
    assert before.next.vote + k !in before.votes.Keys;
    assert picks[(before.next.vote + k) - before.next.vote] == picks[k];
  }

  lemma OldRowsStay(before: Db, placed: Db, after: Db, user: Id, picks: seq<Pick>)
    requires Below(before.votes.Keys, before.next.vote) && InsertBallot(before, user) == Some(placed)
    requires VotesAdded(placed, after, before.next.ballot, user, picks)
    ensures after ==
      before.(ballots := before.ballots[before.next.ballot := user], votes := after.votes, next := after.next)
    ensures forall v :: v in before.votes ==> v in after.votes && after.votes[v] == before.votes[v]
  {
    assert forall v :: v in before.votes ==> v in before.votes.Keys;
  }

  lemma NewRowIsVote(before: Db, placed: Db, after: Db, user: Id, sel: Selections, order: seq<Id>, v: Id)
    requires placed.votes == before.votes && placed.next.vote == before.next.vote
    requires forall s :: IsPage(before, s) <==> s in order
    requires VotesAdded(placed, after, before.next.ballot, user, Picks(order, sel)) && IsNewVote(before, after, v)
    ensures before.next.vote <= v < before.next.vote + |Picks(order, sel)|
    ensures IsVoteOf(before, user, sel, after.votes[v])
    ensures after.votes[v].participant == Picks(order, sel)[v - before.next.vote].1
  {
    hide Picks, IsPage, VotesAdded;
    var picks := Picks(order, sel);
    NewRowIsPick(before, placed, after, user, picks, v);
    var pick := picks[v - before.next.vote];
    assert pick in picks;
    PickIsListed(order, sel, pick.0, pick.1);
  }

  lemma VoteHasRow(before: Db, placed: Db, after: Db, user: Id, sel: Selections, order: seq<Id>, row: Vote)
    requires Below(before.votes.Keys, before.next.vote)
    requires placed.votes == before.votes && placed.next.vote == before.next.vote
    requires forall s :: IsPage(before, s) <==> s in order
    requires VotesAdded(placed, after, before.next.ballot, user, Picks(order, sel)) && IsVoteOf(before, user, sel, row)
    ensures HasNewVote(before, after, row)
  {
    hide Picks, IsPage, VotesAdded, Below;
    var picks := Picks(order, sel);
    PickIsListed(order, sel, row.role, row.participant);
    var k :| 0 <= k < |picks| && picks[k] == (row.role, row.participant);
    PickIsNewRow(before, placed, after, user, picks, k);
  }

  lemma RowsArePicks(before: Db, placed: Db, after: Db, user: Id, sel: Selections, order: seq<Id>)
    requires Below(before.votes.Keys, before.next.vote) && before.next.ballot !in before.ballots
    requires InsertBallot(before, user) == Some(placed)
    requires Enumerates(order, SectionIds(before)) && DistinctPicks(Picks(order, sel))
    requires VotesAdded(placed, after, before.next.ballot, user, Picks(order, sel))
    ensures BallotWritten(before, after, user, sel)
  {
    assert forall s :: IsPage(before, s) <==> s in order;
    hide Picks, IsPage, SectionIds, VotesAdded, Enumerates, Below, IsVoteOf, HasNewVote;
    OldRowsStay(before, placed, after, user, Picks(order, sel));
    forall v | IsNewVote(before, after, v)
      ensures before.next.vote <= v < before.next.vote + |Picks(order, sel)|
      ensures IsVoteOf(before, user, sel, after.votes[v])
      ensures after.votes[v].participant == Picks(order, sel)[v - before.next.vote].1
    {
      NewRowIsVote(before, placed, after, user, sel, order, v);
    }
    forall row | IsVoteOf(before, user, sel, row) ensures HasNewVote(before, after, row) {
      VoteHasRow(before, placed, after, user, sel, order, row);
    }
  }

  /** A ballot is taken exactly when it may be cast, and then exactly what was picked is written. */
  lemma CastBallotLeaves(db: Db, user: Id, sel: Selections)
    requires Integrity(db)
    ensures var out := Apply(db, Op.CastBallot(user, sel));
      if MayCast(db, user, sel) then out.ok && BallotWritten(db, out.db, user, sel) else out == Outcome(db, false)
  {
    MayCastIff(db, user, sel);
    CastPlanned(db, user, sel);
    hide Apply, Exec, MayCast, Accepts, Picks, BallotWritten;
    if Accepts(db, user, sel) {
      AcceptedBallotCommits(db, user, sel);
      OrderEnumeratesSections(db);
      BallotIsPlaced(db, user, sel);
      assert Below(db.votes.Keys, db.next.vote);
      var after := Exec(db, Cast(user, Picks(Order(db), sel))).value;
      hide Integrity, Order, VotesAdded, Below;
      RowsArePicks(db, InsertBallot(db, user).value, after, user, sel, Order(db));
    }
  }

  lemma BallotIsPlaced(db: Db, user: Id, sel: Selections)
    requires Integrity(db) && Accepts(db, user, sel)
    ensures InsertBallot(db, user).Some? && DistinctPicks(Picks(Order(db), sel))
  {
    hide Integrity;
    BallotIsInsertable(db, user, sel);
  }

  // ------------------------------------------------------------ candidacies

  /** Active, and of the role's minimum age on that day; 21 where a role sets none. */
  predicate MayStandFor(db: Db, user: Id, roleId: Id, today: Calendar.Day) {
    && user in db.users && roleId in db.roles && db.users[user].status == Active && db.users[user].dob.Some?
    && Calendar.Age(db.users[user].dob.value, today)
         >= if db.roles[roleId].minAge >= 1 then db.roles[roleId].minAge else 21
  }

  lemma EligibleIff(db: Db, user: Id, roleId: Id, today: Calendar.Day)
    requires user in db.users && roleId in db.roles
    ensures EligibleForRole(db.users[user], db.roles[roleId], today) <==> MayStandFor(db, user, roleId, today)
  {
    hide Calendar.Age;
  }

  lemma NotThere(db: Db, user: Id, roleId: Id, today: Calendar.Day)
    ensures user !in db.users || roleId !in db.roles ==> !MayStandFor(db, user, roleId, today)
  {
  }

  lemma FirstSubmissionLeaves(db: Db, user: Id, roleId: Id, today: Calendar.Day)
    requires forall c :: c in db.candidacies ==> db.candidacies[c].user != user
    ensures Apply(db, Op.SubmitCandidacy(user, roleId, today)) ==
      if !db.settings.gateOpen || !MayStandFor(db, user, roleId, today) then Outcome(db, false)
      else Outcome(db.(candidacies := db.candidacies[db.next.candidacy := Candidacy(user, roleId, Submitted)],
                       next := db.next.(candidacy := db.next.candidacy + 1)), true)
  {
    var op := Op.SubmitCandidacy(user, roleId, today);
    if user in db.users && roleId in db.roles { EligibleIff(db, user, roleId, today); }
    assert CandidacyFor(db, user).None?;
    hide EligibleForRole, MayStandFor;
    NotThere(db, user, roleId, today);
    if Plan(db, op).Some? { Planned(db, op, NewCandidacy(user, roleId)); }
  }

  lemma SubmissionAgainLeaves(db: Db, user: Id, c: Id, roleId: Id, today: Calendar.Day)
    requires OneCandidacyEach(db.candidacies) && c in db.candidacies && db.candidacies[c].user == user
    ensures Apply(db, Op.SubmitCandidacy(user, roleId, today)) ==
      if !db.settings.gateOpen || !MayStandFor(db, user, roleId, today) || db.candidacies[c].status == Accepted
      then Outcome(db, false)
      else Outcome(db.(candidacies := db.candidacies[c := Candidacy(user, roleId, Submitted)]), true)
  {
    var op := Op.SubmitCandidacy(user, roleId, today);
    if user in db.users && roleId in db.roles { EligibleIff(db, user, roleId, today); }
    NotThere(db, user, roleId, today);
    assert IsCandidacyOf(db, user, c) && CandidacyFor(db, user) == Some(c);
    hide EligibleForRole, MayStandFor, CandidacyFor;
    if Plan(db, op).Some? { Planned(db, op, Resubmit(c, roleId)); }
  }

  lemma ChangeCandidacyRoleLeaves(db: Db, id: Id, roleId: Id, byMember: bool, today: Calendar.Day)
    ensures Apply(db, Op.ChangeCandidacyRole(id, roleId, byMember, today)) ==
      if id !in db.candidacies || !MayStandFor(db, db.candidacies[id].user, roleId, today)
        || (byMember && (!db.settings.gateOpen || db.candidacies[id].status == Accepted)) then Outcome(db, false)
      else
        var c := db.candidacies[id];
        var entries := map p | p in db.participants ::
          if c.status == Accepted && db.participants[p].candidacy == id then db.participants[p].(role := roleId)
          else db.participants[p];
        Outcome(db.(candidacies := db.candidacies[id := c.(role := roleId)], participants := entries), true)
  {
    var op := Op.ChangeCandidacyRole(id, roleId, byMember, today);
    if id in db.candidacies {
      var c := db.candidacies[id];
      NotThere(db, c.user, roleId, today);
      if c.user in db.users && roleId in db.roles { EligibleIff(db, c.user, roleId, today); }
      hide EligibleForRole, MayStandFor;
      if Plan(db, op).Some? {
        Planned(db, op, MoveCandidacy(id, roleId, c.status == Accepted));
        MovedEntries(db, id, roleId);
      }
    }
  }

  lemma MovedEntries(db: Db, id: Id, roleId: Id)
    requires id in db.candidacies && roleId in db.roles
    ensures var c := db.candidacies[id];
      var moved := db.(candidacies := db.candidacies[id := c.(role := roleId)]);
      var entries := map p | p in db.participants ::
        if c.status == Accepted && db.participants[p].candidacy == id then db.participants[p].(role := roleId)
        else db.participants[p];
      Exec(db, MoveCandidacy(id, roleId, c.status == Accepted)) == Some(moved.(participants := entries))
  {
    var c := db.candidacies[id];
    var moved := PutCandidacy(db, id, Some(roleId), None);
    assert moved == db.(candidacies := db.candidacies[id := c.(role := roleId)]);
    var entries := map p | p in db.participants ::
      if c.status == Accepted && db.participants[p].candidacy == id then db.participants[p].(role := roleId)
      else db.participants[p];
    var mine := EntriesOf(moved, id);
    assert forall p :: p in db.participants ==> (p in mine <==> db.participants[p].candidacy == id);
    if c.status != Accepted || mine == {} {
      assert entries == db.participants;
    } else {
      assert entries == WithRole(db.participants, mine, roleId);
    }
  }

  lemma AcceptedEntries(db: Db, id: Id)
    requires id in db.candidacies && db.candidacies[id].role != 0
    ensures var c := db.candidacies[id];
      var accepted := db.(candidacies := db.candidacies[id := c.(status := Accepted)]);
      Exec(db, Accept(id, c.role)) ==
        if c.role !in db.roles then None
        else if forall p :: p in db.participants ==> db.participants[p].candidacy != id then
          Some(accepted.(participants := db.participants[db.next.participant := Participant(c.role, id)],
                         next := db.next.(participant := db.next.participant + 1)))
        else
          Some(accepted.(participants := map p | p in db.participants ::
            if db.participants[p].candidacy == id then db.participants[p].(role := c.role) else db.participants[p]))
  {
    var c := db.candidacies[id];
    var accepted := PutCandidacy(db, id, None, Some(Accepted));
    assert accepted == db.(candidacies := db.candidacies[id := c.(status := Accepted)]);
    var mine := EntriesOf(accepted, id);
    assert forall p :: p in db.participants ==> (p in mine <==> db.participants[p].candidacy == id);
    if mine != {} {
      var p := SomeElement(mine);
      assert db.participants[p].candidacy == id;
      var entries := map p | p in db.participants ::
        if db.participants[p].candidacy == id then db.participants[p].(role := c.role) else db.participants[p];
      assert entries == WithRole(db.participants, mine, c.role);
    } else {
      assert forall p :: p in db.participants ==> p !in mine;
    }
  }

  lemma AcceptCandidacyLeaves(db: Db, id: Id)
    ensures Apply(db, Op.AcceptCandidacy(id)) ==
      if id !in db.candidacies || db.candidacies[id].status == Accepted || db.candidacies[id].role == 0
        || db.candidacies[id].role !in db.roles then Outcome(db, false)
      else
        var c := db.candidacies[id];
        var accepted := db.candidacies[id := c.(status := Accepted)];
        if forall p :: p in db.participants ==> db.participants[p].candidacy != id then
          Outcome(db.(candidacies := accepted,
                      participants := db.participants[db.next.participant := Participant(c.role, id)],
                      next := db.next.(participant := db.next.participant + 1)), true)
        else
          var entries := map p | p in db.participants ::
            if db.participants[p].candidacy == id then db.participants[p].(role := c.role) else db.participants[p];
          Outcome(db.(candidacies := accepted, participants := entries), true)
  {
    if Plan(db, Op.AcceptCandidacy(id)).Some? {
      Planned(db, Op.AcceptCandidacy(id), Accept(id, db.candidacies[id].role));
      hide Exec;
      AcceptedEntries(db, id);
    }
  }

  lemma ReturnCandidacyLeaves(db: Db, id: Id, note: string)
    ensures Apply(db, Op.ReturnCandidacy(id, note)) ==
      if note == "" || id !in db.candidacies then Outcome(db, false)
      else
        var gone := set p | p in db.participants && db.participants[p].candidacy == id;
        var lost := set v | v in db.votes && db.votes[v].participant in gone;
        Outcome(db.(candidacies := db.candidacies[id := db.candidacies[id].(status := Returned)],
                    participants := db.participants - gone, votes := db.votes - lost), true)
  {
    if note != "" && id in db.candidacies {
      Planned(db, Op.ReturnCandidacy(id, note), Return(id));
    }
  }

  // ------------------------------------------------------------ requests and members

  /** Some member has the number or the phone. */
  predicate SomeMemberHas(db: Db, cpr: string, phone: string, except: Id) {
    exists u :: u in db.users && u != except && (db.users[u].cpr == cpr || db.users[u].phone == phone)
  }

  /** Some pending request has the number or the phone. */
  predicate SomeRequestHas(db: Db, cpr: string, phone: string, except: Id) {
    exists a :: a in db.applications && a != except && db.applications[a].status == Pending
      && (db.applications[a].cpr == cpr || db.applications[a].phone == phone)
  }

  lemma UniqueIff(db: Db, cpr: string, phone: string, except: Id)
    requires IdsHandedOut(db)
    ensures Unique(db, cpr, phone, except) <==>
      !SomeMemberHas(db, cpr, phone, 0) && !SomeRequestHas(db, cpr, phone, except)
  {
    if Unique(db, cpr, phone, except) {
      forall a | a in db.applications && a != except && db.applications[a].status == Pending
        ensures db.applications[a].cpr != cpr && db.applications[a].phone != phone
      {
        assert PendingWith(db, a, except);
      }
    }
  }

  lemma CreateApplicationLeaves(db: Db, a: Application)
    requires IdsHandedOut(db)
    ensures Apply(db, Op.CreateApplication(a)) ==
      if SomeMemberHas(db, a.cpr, a.phone, 0) || SomeRequestHas(db, a.cpr, a.phone, 0) then Outcome(db, false)
      else
        var row := Application(a.cpr, a.phone, a.dob, Pending);
        Outcome(db.(applications := db.applications[db.next.application := row],
                    next := db.next.(application := db.next.application + 1)), true)
  {
    UniqueIff(db, a.cpr, a.phone, 0);
    hide Unique, SomeMemberHas, SomeRequestHas, IdsHandedOut;
    if Unique(db, a.cpr, a.phone, 0) { Planned(db, Op.CreateApplication(a), NewApplication(a)); }
  }

  lemma ApproveApplicationLeaves(db: Db, id: Id)
    requires IdsHandedOut(db)
    ensures Apply(db, Op.ApproveApplication(id)) ==
      if id !in db.applications || db.applications[id].status != Pending
        || SomeMemberHas(db, db.applications[id].cpr, db.applications[id].phone, 0)
        || SomeRequestHas(db, db.applications[id].cpr, db.applications[id].phone, id) then Outcome(db, false)
      else
        var a := db.applications[id];
        var users := db.users[db.next.user := User(a.cpr, a.phone, a.dob, Active, id)];
        Outcome(db.(users := users, next := db.next.(user := db.next.user + 1),
                    applications := db.applications[id := a.(status := Approved)]), true)
  {
    if id in db.applications {
      var a := db.applications[id];
      UniqueIff(db, a.cpr, a.phone, id);
      NumberIsFree(db, a.cpr, a.phone, id);
      hide Unique, SomeMemberHas, SomeRequestHas, IdsHandedOut, CprTaken;
      if Plan(db, Op.ApproveApplication(id)).Some? { Planned(db, Op.ApproveApplication(id), Approve(id, a)); }
    }
  }

  lemma NumberIsFree(db: Db, cpr: string, phone: string, except: Id)
    ensures Unique(db, cpr, phone, except) ==> !CprTaken(db, cpr, 0)
  {
  }

  lemma RejectApplicationLeaves(db: Db, id: Id)
    ensures Apply(db, Op.RejectApplication(id)) ==
      if id !in db.applications || db.applications[id].status == Approved then Outcome(db, false)
      else Outcome(db.(applications := db.applications[id := db.applications[id].(status := Rejected)]), true)
  {
    if Plan(db, Op.RejectApplication(id)).Some? {
      Planned(db, Op.RejectApplication(id), PutRequestStatus(id, Rejected));
    }
  }

  lemma SetApplicationStatusLeaves(db: Db, id: Id, s: RequestStatus)
    ensures Apply(db, Op.SetApplicationStatus(id, s)) ==
      if (s != Pending && s != OnHold && s != Withdrawn) || id !in db.applications
        || db.applications[id].status == Approved || db.applications[id].status == s then Outcome(db, false)
      else Outcome(db.(applications := db.applications[id := db.applications[id].(status := s)]), true)
  {
    if Plan(db, Op.SetApplicationStatus(id, s)).Some? {
      Planned(db, Op.SetApplicationStatus(id, s), PutRequestStatus(id, s));
    }
  }

  lemma DeleteApplicationLeaves(db: Db, id: Id)
    ensures Apply(db, Op.DeleteApplication(id)) ==
      if id !in db.applications || db.applications[id].status == Approved then Outcome(db, false)
      else Outcome(db.(applications := db.applications - {id}), true)
  {
    if Plan(db, Op.DeleteApplication(id)).Some? {
      Planned(db, Op.DeleteApplication(id), DropApplication(id));
    }
  }

  lemma UpdateUserLeaves(db: Db, id: Id, cpr: string, phone: string, dob: Option<Calendar.Day>)
    ensures Apply(db, Op.UpdateUser(id, cpr, phone, dob)) ==
      if SomeMemberHas(db, cpr, phone, id) then Outcome(db, false)
      else if id !in db.users then Outcome(db, true)
      else Outcome(db.(users := db.users[id := db.users[id].(cpr := cpr, phone := phone, dob := dob)]), true)
  {
    TakenIff(db, cpr, phone, id);
    hide SomeMemberHas, CprTaken, PhoneTaken;
    if !SomeMemberHas(db, cpr, phone, id) {
      Planned(db, Op.UpdateUser(id, cpr, phone, dob), PutUser(id, cpr, phone, dob));
    }
  }

  lemma TakenIff(db: Db, cpr: string, phone: string, except: Id)
    ensures SomeMemberHas(db, cpr, phone, except) <==> CprTaken(db, cpr, except) || PhoneTaken(db, phone, except)
  {
  }

  lemma SetUserStatusLeaves(db: Db, id: Id, s: MemberStatus)
    ensures Apply(db, Op.SetUserStatus(id, s)) ==
      if id !in db.users || db.users[id].status == s then Outcome(db, false)
      else
        var out := set t | t in db.sessions && db.sessions[t].kind == Member && db.sessions[t].subject == id;
        Outcome(db.(users := db.users[id := db.users[id].(status := s)],
                    sessions := if s == Active then db.sessions else db.sessions - out), true)
  {
    hide MemberTokens;
    if id in db.users && db.users[id].status != s {
      if s == Active {
        assert [PutMemberStatus(id, s)] + [] == [PutMemberStatus(id, s)];
        Planned(db, Op.SetUserStatus(id, s), PutMemberStatus(id, s));
      } else {
        WithdrawalLeaves(db, id, s);
        TokensAre(db, id);
      }
    }
  }

  lemma TokensAre(db: Db, id: Id)
    ensures MemberTokens(db, id) ==
      set t | t in db.sessions && db.sessions[t].kind == Member && db.sessions[t].subject == id
  {
  }

  lemma WithdrawalLeaves(db: Db, id: Id, s: MemberStatus)
    requires id in db.users && db.users[id].status != s && s != Active
    ensures Apply(db, Op.SetUserStatus(id, s)) ==
      Outcome(db.(users := db.users[id := db.users[id].(status := s)],
                  sessions := db.sessions - MemberTokens(db, id)), true)
  {
    var put := db.(users := db.users[id := db.users[id].(status := s)]);
    var first, second := PutMemberStatus(id, s), DropSessionsOf(id);
    assert [first] + [second] == [first, second];
    assert Plan(db, Op.SetUserStatus(id, s)) == Some([first, second]);
    assert Exec(db, first) == Some(put);
    assert Exec(put, second) == Some(put.(sessions := put.sessions - MemberTokens(put, id)));
    assert MemberTokens(put, id) == MemberTokens(db, id);
    hide Plan, Exec, MemberTokens;
    assert [first, second][1..] == [second];
    OneWrite(put, second);
  }

  lemma DeleteUserLeaves(db: Db, id: Id)
    ensures Apply(db, Op.DeleteUser(id)) ==
      if id !in db.users then Outcome(db, false)
      else
        var papers := set b | b in db.ballots && db.ballots[b] == id;
        var lost := set v | v in db.votes && (db.votes[v].user == id || db.votes[v].ballot in papers);
        var out := set t | t in db.sessions && db.sessions[t].kind == Member && db.sessions[t].subject == id;
        var stood := set c | c in db.candidacies && db.candidacies[c].user == id;
        var from := db.users[id].application;
        Outcome(db.(users := db.users - {id}, ballots := db.ballots - papers, votes := db.votes - lost,
                    sessions := db.sessions - out, candidacies := db.candidacies - stood,
                    applications := if from > 0 then db.applications - {from} else db.applications), true)
  {
    if id in db.users {
      Planned(db, Op.DeleteUser(id), DropUser(id, db.users[id].application));
      VoterDropped(db, id);
      NothingLeft(DropRequestAndSessions(DropVoter(db, id), id, db.users[id].application), id);
    }
  }

  lemma VoterDropped(db: Db, id: Id)
    ensures var papers := set b | b in db.ballots && db.ballots[b] == id;
      var lost := set v | v in db.votes && (db.votes[v].user == id || db.votes[v].ballot in papers);
      DropVoter(db, id) == db.(ballots := db.ballots - papers, votes := db.votes - lost)
  {
  }

  lemma NothingLeft(db: Db, id: Id)
    requires forall b :: b in db.ballots ==> db.ballots[b] != id
    ensures DeleteUserRow(db, id) == db.(users := db.users - {id},
      candidacies := db.candidacies - set c | c in db.candidacies && db.candidacies[c].user == id)
  {
    var none := set b | b in db.ballots && db.ballots[b] == id;
    assert forall b :: b !in none;
    assert none == {};
    assert (set v | v in db.votes && db.votes[v].ballot in none) == {};
    assert db.ballots - {} == db.ballots && db.votes - {} == db.votes;
  }

  // ------------------------------------------------------------ sessions

  lemma LoginLeaves(db: Db, u: Id, phone: string, dob: Option<Calendar.Day>, cpr: string, token: string, expires: int)
    requires UniqueCpr(db.users) && u in db.users
    requires db.users[u].phone == phone && db.users[u].dob == dob && db.users[u].cpr == cpr
    ensures Apply(db, Op.Login(phone, dob, cpr, token, expires)) ==
      if db.users[u].status == Cancelled || token in db.sessions then Outcome(db, false)
      else Outcome(db.(sessions := db.sessions[token := Session(Member, u, expires)]), true)
  {
    assert HasCredentials(db, u, phone, dob, cpr);
    var found := MemberWith(db, phone, dob, cpr);
    assert HasCredentials(db, found.value, phone, dob, cpr);
    assert db.users[found.value].cpr == db.users[u].cpr;
    hide UniqueCpr, MemberWith;
    var op := Op.Login(phone, dob, cpr, token, expires);
    if Plan(db, op).Some? { Planned(db, op, NewSession(token, Session(Member, u, expires))); }
  }

  lemma LoginOfNobody(db: Db, phone: string, dob: Option<Calendar.Day>, cpr: string, token: string, expires: int)
    requires forall u :: u in db.users ==>
      !(db.users[u].phone == phone && db.users[u].dob == dob && db.users[u].cpr == cpr)
    ensures Apply(db, Op.Login(phone, dob, cpr, token, expires)) == Outcome(db, false)
  {
    assert MemberWith(db, phone, dob, cpr).None?;
  }

  lemma AdminLoginLeaves(db: Db, kind: Subject, id: Id, token: string, expires: int)
    ensures Apply(db, Op.AdminLogin(kind, id, token, expires)) ==
      if kind == Member || token in db.sessions then Outcome(db, false)
      else Outcome(db.(sessions := db.sessions[token := Session(kind, id, expires)]), true)
  {
    if kind != Member {
      Planned(db, Op.AdminLogin(kind, id, token, expires), NewSession(token, Session(kind, id, expires)));
    }
  }

  lemma LogoutLeaves(db: Db, token: string)
    ensures Apply(db, Op.Logout(token)) == Outcome(db.(sessions := db.sessions - {token}), true)
  {
    Planned(db, Op.Logout(token), DropSessions({token}));
  }

  lemma LookupSessionLeaves(db: Db, token: string, now: int)
    ensures Apply(db, Op.LookupSession(token, now)) ==
      Outcome(if token in db.sessions && now > db.sessions[token].expires
              then db.(sessions := db.sessions - {token}) else db, true)
  {
    if token in db.sessions && now > db.sessions[token].expires {
      Planned(db, Op.LookupSession(token, now), DropSessions({token}));
    }
  }

  lemma PurgeSessionsLeaves(db: Db, now: int)
    ensures Apply(db, Op.PurgeSessions(now)) ==
      Outcome(db.(sessions := db.sessions - set t | t in db.sessions && now > db.sessions[t].expires), true)
  {
    var expired := set t | t in db.sessions && Expired(db.sessions[t], now);
    Planned(db, Op.PurgeSessions(now), DropSessions(expired));
    assert expired == set t | t in db.sessions && now > db.sessions[t].expires;
  }
}
