// Every write keeps the integrity of the tables. Since every write of the store
// is atomic, this is an invariant of every interleaving of any callers.
module IntegrityKept {
  import opened Prelude
  import opened Database

  lemma DeleteBallotsKeeps(db: Db, ballots: set<Id>)
    requires Integrity(db)
    ensures Integrity(DeleteBallots(db, ballots))
  {
    hide EntriesHaveRoles, CandidaciesHaveUsers, OneCandidacyEach, OneEntryEach, UniqueCpr;
  }

  lemma DeleteEntriesKeeps(db: Db, entries: set<Id>)
    requires Integrity(db)
    ensures Integrity(DeleteEntries(db, entries))
  {
    hide CandidaciesHaveUsers, BallotsHaveUsers, OneBallotEach, OneCandidacyEach, UniqueCpr;
  }

  lemma DeleteRoleKeeps(db: Db, role: Id)
    requires Integrity(db)
    ensures Integrity(DeleteRoleRow(db, role))
  {
    var entries := if role == 0 then {} else Entries(db, role);
    DeleteEntriesKeeps(db, entries);
    hide CandidaciesHaveUsers, BallotsHaveUsers, VotesHaveBallots, VotesHaveEntries, OneBallotEach,
      OneVotePerCandidate, OneCandidacyEach, OneEntryEach, UniqueCpr;
  }

  lemma DeleteUserKeeps(db: Db, user: Id)
    requires Integrity(db)
    ensures Integrity(DeleteUserRow(db, user))
  {
    hide EntriesHaveRoles, VotesHaveBallots, VotesHaveEntries, OneBallotEach, OneVotePerCandidate, OneEntryEach;
    DeleteBallotsKeeps(db, set b | b in db.ballots && db.ballots[b] == user);
  }

  lemma DeleteVotesKeeps(db: Db, votes: set<Id>)
    requires Integrity(db)
    ensures Integrity(db.(votes := db.votes - votes))
  {
    hide EntriesHaveRoles, CandidaciesHaveUsers, BallotsHaveUsers, OneBallotEach, OneCandidacyEach, OneEntryEach,
      UniqueCpr;
  }

  lemma InsertBallotKeeps(db: Db, user: Id)
    requires Integrity(db) && InsertBallot(db, user).Some?
    ensures Integrity(InsertBallot(db, user).value)
  {
    hide EntriesHaveRoles, CandidaciesHaveUsers, VotesHaveEntries, OneVotePerCandidate, OneCandidacyEach,
      OneEntryEach, UniqueCpr;
  }

  lemma InsertVoteKeeps(db: Db, vote: Vote)
    requires Integrity(db) && InsertVote(db, vote).Some?
    requires vote.ballot in db.ballots && db.ballots[vote.ballot] == vote.user
    ensures Integrity(InsertVote(db, vote).value)
  {
    hide EntriesHaveRoles, CandidaciesHaveUsers, BallotsHaveUsers, OneBallotEach, OneCandidacyEach, OneEntryEach,
      UniqueCpr;
  }

  lemma {:induction false} InsertVotesKeeps(db: Db, ballot: Id, user: Id, picks: seq<Pick>)
    requires Integrity(db) && InsertVotes(db, ballot, user, picks).Some?
    requires ballot in db.ballots && db.ballots[ballot] == user
    ensures Integrity(InsertVotes(db, ballot, user, picks).value)
    decreases |picks|
  {
    hide Integrity;
    if picks != [] {
      var vote := Vote(ballot, user, picks[0].0, picks[0].1);
      InsertVoteKeeps(db, vote);
      InsertVotesKeeps(InsertVote(db, vote).value, ballot, user, picks[1..]);
    }
  }

  lemma InsertEntryKeeps(db: Db, entry: Participant)
    requires Integrity(db) && InsertEntry(db, entry).Some?
    requires entry.candidacy == 0 || EntriesOf(db, entry.candidacy) == {}
    ensures Integrity(InsertEntry(db, entry).value)
  {
    assert forall p :: p in db.participants && db.participants[p].candidacy == entry.candidacy ==>
      p in EntriesOf(db, entry.candidacy);
  }

  /** Entries may change role as long as the role exists. */
  lemma OtherEntriesKeep(db: Db, rows: map<Id, Participant>)
    requires Integrity(db) && rows.Keys == db.participants.Keys
    requires forall p :: p in rows ==> rows[p].candidacy == db.participants[p].candidacy
    requires EntriesHaveRoles(rows, db.roles.Keys)
    ensures Integrity(db.(participants := rows))
  {
    hide EntriesHaveRoles, CandidaciesHaveUsers, BallotsHaveUsers, VotesHaveBallots, VotesHaveEntries, OneBallotEach,
      OneVotePerCandidate, OneCandidacyEach, UniqueCpr, Below;
    forall p, q | p in rows && q in rows && SameCandidacy(rows[p], rows[q]) ensures p == q {
      assert SameCandidacy(db.participants[p], db.participants[q]);
    }
  }

  lemma PutEntryRoleKeeps(db: Db, entries: set<Id>, role: Id)
    requires Integrity(db) && PutEntryRole(db, entries, role).Some?
    ensures Integrity(PutEntryRole(db, entries, role).value)
  {
    if entries != {} {
      assert EntriesHaveRoles(WithRole(db.participants, entries, role), db.roles.Keys);
      hide Integrity;
      OtherEntriesKeep(db, WithRole(db.participants, entries, role));
    }
  }

  /** A candidacy may change everything but its owner. */
  lemma PutCandidacyKeeps(db: Db, id: Id, c: Candidacy)
    requires Integrity(db) && id in db.candidacies && c.user == db.candidacies[id].user
    ensures Integrity(db.(candidacies := db.candidacies[id := c]))
  {
    assert (db.candidacies[id := c]).Keys == db.candidacies.Keys;
    hide EntriesHaveRoles, BallotsHaveUsers, VotesHaveBallots, VotesHaveEntries, OneBallotEach, OneVotePerCandidate,
      OneEntryEach, UniqueCpr, Below;
  }

  lemma ApproveKeeps(db: Db, id: Id, a: Application)
    requires Integrity(db) && Exec(db, Approve(id, a)).Some?
    ensures Integrity(Exec(db, Approve(id, a)).value)
  {
    var db' := Exec(db, Approve(id, a)).value;
    forall u | u in db.users ensures db.users[u].cpr != a.cpr {
      assert u > 0 && !CprTaken(db, a.cpr, 0);
    }
    assert forall u :: u in db'.users ==> u in db.users || u == db.next.user;
  }

  lemma PutUserKeeps(db: Db, w: Write)
    requires Integrity(db) && w.PutUser? && Exec(db, w).Some?
    ensures Integrity(Exec(db, w).value)
  {
    hide EntriesHaveRoles, CandidaciesHaveUsers, BallotsHaveUsers, VotesHaveBallots, VotesHaveEntries, OneBallotEach,
      OneVotePerCandidate, OneCandidacyEach, OneEntryEach;
    if w.id in db.users {
      assert Exec(db, w).value.users.Keys == db.users.Keys;
    }
  }

  lemma DropVoterKeeps(db: Db, id: Id)
    requires Integrity(db)
    ensures Integrity(DropVoter(db, id))
  {
    hide Integrity;
    var votes := set v | v in db.votes && db.votes[v].user == id;
    DeleteVotesKeeps(db, votes);
    DeleteBallotsKeeps(db.(votes := db.votes - votes), set b | b in db.ballots && db.ballots[b] == id);
  }

  lemma DropRequestKeeps(db: Db, id: Id, application: Id)
    requires Integrity(db)
    ensures Integrity(DropRequestAndSessions(db, id, application))
  {
    hide EntriesHaveRoles, CandidaciesHaveUsers, BallotsHaveUsers, VotesHaveBallots, VotesHaveEntries, OneBallotEach,
      OneVotePerCandidate, OneCandidacyEach, OneEntryEach, UniqueCpr;
  }

  lemma DropUserKeeps(db: Db, id: Id, application: Id)
    requires Integrity(db)
    ensures Integrity(Exec(db, DropUser(id, application)).value)
  {
    hide Integrity, DeleteUserRow, DropVoter, DropRequestAndSessions;
    DropVoterKeeps(db, id);
    DropRequestKeeps(DropVoter(db, id), id, application);
    DeleteUserKeeps(DropRequestAndSessions(DropVoter(db, id), id, application), id);
  }

  lemma PutCandidacyKeepsAll(db: Db, id: Id, role: Option<Id>, status: Option<CandidacyStatus>)
    requires Integrity(db)
    ensures Integrity(PutCandidacy(db, id, role, status))
  {
    if id in db.candidacies {
      PutCandidacyKeeps(db, id, PutCandidacy(db, id, role, status).candidacies[id]);
    }
  }

  lemma ResubmitKeeps(db: Db, id: Id, role: Id)
    requires Integrity(db)
    ensures Integrity(Exec(db, Resubmit(id, role)).value)
  {
    hide Integrity;
    PutCandidacyKeepsAll(db, id, Some(role), Some(Submitted));
    assert Exec(db, Resubmit(id, role)).value == PutCandidacy(db, id, Some(role), Some(Submitted));
  }

  lemma MoveCandidacyKeeps(db: Db, id: Id, role: Id, withEntry: bool)
    requires Integrity(db) && Exec(db, MoveCandidacy(id, role, withEntry)).Some?
    ensures Integrity(Exec(db, MoveCandidacy(id, role, withEntry)).value)
  {
    hide Integrity;
    var moved := PutCandidacy(db, id, Some(role), None);
    PutCandidacyKeepsAll(db, id, Some(role), None);
    if withEntry { PutEntryRoleKeeps(moved, EntriesOf(moved, id), role); }
  }

  lemma AcceptKeeps(db: Db, id: Id, role: Id)
    requires Integrity(db) && Exec(db, Accept(id, role)).Some?
    ensures Integrity(Exec(db, Accept(id, role)).value)
  {
    hide Integrity;
    var accepted := PutCandidacy(db, id, None, Some(Accepted));
    PutCandidacyKeepsAll(db, id, None, Some(Accepted));
    if EntriesOf(accepted, id) == {} {
      InsertEntryKeeps(accepted, Participant(role, id));
    } else {
      PutEntryRoleKeeps(accepted, EntriesOf(accepted, id), role);
    }
  }

  lemma ReturnKeeps(db: Db, id: Id)
    requires Integrity(db)
    ensures Integrity(Exec(db, Return(id)).value)
  {
    hide Integrity;
    var returned := PutCandidacy(db, id, None, Some(Returned));
    PutCandidacyKeepsAll(db, id, None, Some(Returned));
    DeleteEntriesKeeps(returned, EntriesOf(returned, id));
  }

  lemma CastKeeps(db: Db, user: Id, picks: seq<Pick>)
    requires Integrity(db) && Exec(db, Cast(user, picks)).Some?
    ensures Integrity(Exec(db, Cast(user, picks)).value)
  {
    hide Integrity;
    InsertBallotKeeps(db, user);
    InsertVotesKeeps(InsertBallot(db, user).value, db.next.ballot, user, picks);
  }

  lemma SettingsWritesKeep(db: Db, w: Write)
    requires Integrity(db) && (w.PutVoting? || w.PutMode? || w.PutGate? || w.PutSelections?)
    ensures Integrity(Exec(db, w).value)
  {
    hide EntriesHaveRoles, CandidaciesHaveUsers, BallotsHaveUsers, VotesHaveBallots, VotesHaveEntries, OneBallotEach,
      OneVotePerCandidate, OneCandidacyEach, OneEntryEach, UniqueCpr, Below;
    assert IdsHandedOut(db);
  }

  lemma RoleWritesKeep(db: Db, w: Write)
    requires Integrity(db) && (w.NewRole? || w.PutRole? || w.Reset?)
    ensures Integrity(Exec(db, w).value)
  {
    hide CandidaciesHaveUsers, OneCandidacyEach, OneEntryEach, UniqueCpr;
  }

  lemma RequestWritesKeep(db: Db, w: Write)
    requires Integrity(db) && (w.NewApplication? || w.PutRequestStatus? || w.DropApplication?)
    ensures Integrity(Exec(db, w).value)
  {
    hide EntriesHaveRoles, CandidaciesHaveUsers, BallotsHaveUsers, VotesHaveBallots, VotesHaveEntries, OneBallotEach,
      OneVotePerCandidate, OneCandidacyEach, OneEntryEach, UniqueCpr;
  }

  lemma SessionWritesKeep(db: Db, w: Write)
    requires Integrity(db) && (w.DropSessionsOf? || w.NewSession? || w.DropSessions?) && Exec(db, w).Some?
    ensures Integrity(Exec(db, w).value)
  {
    hide EntriesHaveRoles, CandidaciesHaveUsers, BallotsHaveUsers, VotesHaveBallots, VotesHaveEntries, OneBallotEach,
      OneVotePerCandidate, OneCandidacyEach, OneEntryEach, UniqueCpr, Below;
  }

  lemma MemberStatusKeeps(db: Db, id: Id, s: MemberStatus)
    requires Integrity(db)
    ensures Integrity(Exec(db, PutMemberStatus(id, s)).value)
  {
    hide EntriesHaveRoles, CandidaciesHaveUsers, BallotsHaveUsers, VotesHaveBallots, VotesHaveEntries, OneBallotEach,
      OneVotePerCandidate, OneCandidacyEach, OneEntryEach;
    if id in db.users {
      var users := db.users[id := db.users[id].(status := s)];
      assert users.Keys == db.users.Keys;
    }
  }

  lemma NewCandidacyKeeps(db: Db, user: Id, role: Id)
    requires Integrity(db) && Exec(db, NewCandidacy(user, role)).Some?
    ensures Integrity(Exec(db, NewCandidacy(user, role)).value)
  {
    hide EntriesHaveRoles, BallotsHaveUsers, VotesHaveBallots, VotesHaveEntries, OneBallotEach, OneVotePerCandidate,
      OneEntryEach, UniqueCpr;
  }

  /** Every write that the constraints let through keeps every key, reference and uniqueness. */
  lemma ExecKeepsIntegrity(db: Db, w: Write)
    requires Integrity(db) && Exec(db, w).Some?
    ensures Integrity(Exec(db, w).value)
  {
    hide Integrity;
    match w
    case PutVoting(_) => SettingsWritesKeep(db, w);
    case PutMode(_) => SettingsWritesKeep(db, w);
    case PutGate(_) => SettingsWritesKeep(db, w);
    case PutSelections(_) => SettingsWritesKeep(db, w);
    case NewRole(_) => RoleWritesKeep(db, w);
    case PutRole(_, _) => RoleWritesKeep(db, w);
    case DropRole(id) => DeleteRoleKeeps(db, id);
    case NewEntry(role) => InsertEntryKeeps(db, Participant(role, 0));
    case MoveEntry(id, role) => PutEntryRoleKeeps(db, {id} * db.participants.Keys, role);
    case DropEntry(id) => DeleteEntriesKeeps(db, {id});
    case NewCandidacy(user, role) => NewCandidacyKeeps(db, user, role);
    case Resubmit(id, role) => ResubmitKeeps(db, id, role);
    case MoveCandidacy(id, role, withEntry) => MoveCandidacyKeeps(db, id, role, withEntry);
    case Accept(id, role) => AcceptKeeps(db, id, role);
    case Return(id) => ReturnKeeps(db, id);
    case Cast(user, picks) => CastKeeps(db, user, picks);
    case Reset => RoleWritesKeep(db, w);
    case NewApplication(_) => RequestWritesKeep(db, w);
    case PutRequestStatus(_, _) => RequestWritesKeep(db, w);
    case DropApplication(_) => RequestWritesKeep(db, w);
    case Approve(id, a) => ApproveKeeps(db, id, a);
    case PutUser(_, _, _, _) => PutUserKeeps(db, w);
    case PutMemberStatus(id, s) => MemberStatusKeeps(db, id, s);
    case DropSessionsOf(_) => SessionWritesKeep(db, w);
    case DropUser(id, application) => DropUserKeeps(db, id, application);
    case NewSession(_, _) => SessionWritesKeep(db, w);
    case DropSessions(_) => SessionWritesKeep(db, w);
  }
}
