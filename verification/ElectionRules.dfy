// What every run of atomic operations keeps of the election: the gate and the
// vote are never open together, the ballot entries follow the candidacies, and
// the roles on the ballot stay votable.
module ElectionRules {
  import opened Prelude
  import opened Database
  import opened Ballots
  import opened IntegrityKept
  import opened Operations
  import Calendar

  ghost predicate GateRule(s: Settings) {
    !(s.gateOpen && s.voting == Open)
  }

  ghost predicate RoleRule(roles: map<Id, Role>) {
    forall r :: r in roles ==> roles[r].winners >= 1 && roles[r].selections >= 1 && 1 <= roles[r].minAge <= 120
  }

  /** While a vote by roles is open there are roles to vote for. */
  ghost predicate OpenRule(s: Settings, roles: map<Id, Role>) {
    s.voting == Open && s.mode == ByRole ==> roles != map[]
  }

  /** The candidacy of an entry was handed out, and if it still exists it is accepted. */
  ghost predicate EntryRule(participants: map<Id, Participant>, candidacies: map<Id, Candidacy>, next: Id) {
    forall p :: p in participants && participants[p].candidacy != 0 ==>
      var c := participants[p].candidacy;
      0 < c < next && (c in candidacies ==> candidacies[c].status == Accepted)
  }

  /** Entries that UpdateParticipant did not move stand in the role of their candidacy. */
  ghost predicate RolesAgree(participants: map<Id, Participant>, candidacies: map<Id, Candidacy>, moved: set<Id>) {
    forall p :: p in participants && p !in moved && participants[p].candidacy in candidacies ==>
      participants[p].role == candidacies[participants[p].candidacy].role
  }

  ghost predicate Rules(db: Db, moved: set<Id>) {
    && GateRule(db.settings) && RoleRule(db.roles) && OpenRule(db.settings, db.roles)
    && EntryRule(db.participants, db.candidacies, db.next.candidacy)
    && RolesAgree(db.participants, db.candidacies, moved)
  }

  /** What a write must respect to keep the rules; every plan does. */
  ghost predicate Respects(db: Db, w: Write, moved: set<Id>) {
    match w
    case PutVoting(v) => v == Open ==> ValidSetup(db)
    case PutGate(open) => open ==> db.settings.voting != Open
    case PutMode(m) => db.settings.voting == Open ==> m == db.settings.mode
    case NewRole(r) => r.winners >= 1 && r.selections >= 1 && 1 <= r.minAge <= 120
    case PutRole(_, r) => r.winners >= 1 && r.selections >= 1 && 1 <= r.minAge <= 120
    case DropRole(_) => db.settings.voting != Open
    case MoveEntry(id, _) => id in moved
    case Resubmit(id, _) => id in db.candidacies && db.candidacies[id].status != Accepted
    case MoveCandidacy(id, _, withEntry) =>
      id in db.candidacies && (withEntry <==> db.candidacies[id].status == Accepted)
    case Accept(id, role) =>
      id in db.candidacies && db.candidacies[id].status != Accepted && role == db.candidacies[id].role
    case _ => true
  }

  // ------------------------------------------------------------ one write

  /** A candidacy that is not accepted has no ballot entry, so accepting it always inserts a new one. */
  lemma NoEntryUnlessAccepted(db: Db, id: Id, moved: set<Id>)
    requires Integrity(db) && Rules(db, moved) && id in db.candidacies && db.candidacies[id].status != Accepted
    ensures EntriesOf(db, id) == {}
  {
    assert id in db.candidacies.Keys && id > 0;
    assert forall p :: p in db.participants ==> db.participants[p].candidacy != id;
  }

  /** No entry belongs to a candidacy that is not handed out yet. */
  lemma NoEntryBeforeCandidacy(db: Db, moved: set<Id>)
    requires Integrity(db) && Rules(db, moved)
    ensures EntriesOf(db, db.next.candidacy) == {}
  {
    assert Below(db.candidacies.Keys, db.next.candidacy);
    assert forall p :: p in db.participants ==> db.participants[p].candidacy != db.next.candidacy;
  }

  /** Rules about entries survive when entries or candidacies only go away. */
  lemma FewerRowsKeep(participants: map<Id, Participant>, candidacies: map<Id, Candidacy>,
                      fewer: map<Id, Participant>, less: map<Id, Candidacy>, next: Id, moved: set<Id>)
    requires EntryRule(participants, candidacies, next) && RolesAgree(participants, candidacies, moved)
    requires forall p :: p in fewer ==> p in participants && fewer[p] == participants[p]
    requires forall c :: c in less ==> c in candidacies && less[c] == candidacies[c]
    ensures EntryRule(fewer, less, next) && RolesAgree(fewer, less, moved)
  {
  }

  lemma DropRoleKeeps(db: Db, id: Id, moved: set<Id>)
    requires Integrity(db) && Rules(db, moved) && db.settings.voting != Open
    ensures Rules(Exec(db, DropRole(id)).value, moved)
  {
    var db' := Exec(db, DropRole(id)).value;
    FewerRowsKeep(db.participants, db.candidacies, db'.participants, db'.candidacies, db.next.candidacy, moved);
  }

  lemma DropEntriesKeeps(db: Db, entries: set<Id>, moved: set<Id>)
    requires Rules(db, moved)
    ensures Rules(DeleteEntries(db, entries), moved)
  {
    var db' := DeleteEntries(db, entries);
    FewerRowsKeep(db.participants, db.candidacies, db'.participants, db'.candidacies, db.next.candidacy, moved);
  }

  /** A candidacy without entries may change in any way. */
  lemma LooseCandidacyKeeps(db: Db, id: Id, c: Candidacy, moved: set<Id>)
    requires Rules(db, moved) && EntriesOf(db, id) == {} && 0 < id
    ensures Rules(db.(candidacies := db.candidacies[id := c]), moved)
  {
    forall p | p in db.participants ensures db.participants[p].candidacy != id {
      assert p !in EntriesOf(db, id);
    }
  }

  lemma NewCandidacyKeepsRules(db: Db, user: Id, role: Id, moved: set<Id>)
    requires Integrity(db) && Rules(db, moved) && Exec(db, NewCandidacy(user, role)).Some?
    ensures Rules(Exec(db, NewCandidacy(user, role)).value, moved)
  {
    NoEntryBeforeCandidacy(db, moved);
    assert Below(db.candidacies.Keys, db.next.candidacy);
    LooseCandidacyKeeps(db, db.next.candidacy, Candidacy(user, role, Submitted), moved);
  }

  lemma ResubmitKeepsRules(db: Db, id: Id, role: Id, moved: set<Id>)
    requires Integrity(db) && Rules(db, moved) && Respects(db, Resubmit(id, role), moved)
    ensures Rules(Exec(db, Resubmit(id, role)).value, moved)
  {
    NoEntryUnlessAccepted(db, id, moved);
    assert id in db.candidacies.Keys;
    LooseCandidacyKeeps(db, id, db.candidacies[id].(role := role, status := Submitted), moved);
  }

  lemma MoveEntryKeepsRules(db: Db, id: Id, role: Id, moved: set<Id>)
    requires Rules(db, moved) && id in moved && Exec(db, MoveEntry(id, role)).Some?
    ensures Rules(Exec(db, MoveEntry(id, role)).value, moved)
  {
  }

  /** An accepted candidacy and its entries move together. */
  lemma MoveTogetherKeeps(participants: map<Id, Participant>, candidacies: map<Id, Candidacy>, next: Id, moved: set<Id>,
                          id: Id, role: Id, entries: set<Id>)
    requires EntryRule(participants, candidacies, next) && RolesAgree(participants, candidacies, moved)
    requires id in candidacies && entries == set p | p in participants && participants[p].candidacy == id
    ensures EntryRule(WithRole(participants, entries, role), candidacies[id := candidacies[id].(role := role)], next)
    ensures RolesAgree(WithRole(participants, entries, role), candidacies[id := candidacies[id].(role := role)], moved)
  {
    var rows := WithRole(participants, entries, role);
    assert forall p :: p in rows ==> rows[p].candidacy == participants[p].candidacy;
    assert forall p :: p in rows && rows[p].candidacy != id ==> rows[p] == participants[p];
  }

  lemma MoveCandidacyKeepsRules(db: Db, id: Id, role: Id, withEntry: bool, moved: set<Id>)
    requires Integrity(db) && Rules(db, moved) && Respects(db, MoveCandidacy(id, role, withEntry), moved)
    requires Exec(db, MoveCandidacy(id, role, withEntry)).Some?
    ensures Rules(Exec(db, MoveCandidacy(id, role, withEntry)).value, moved)
  {
    assert id in db.candidacies.Keys;
    var moving := db.(candidacies := db.candidacies[id := db.candidacies[id].(role := role)]);
    var entries := EntriesOf(moving, id);
    if !withEntry || entries == {} {
      if !withEntry { NoEntryUnlessAccepted(db, id, moved); }
      assert EntriesOf(db, id) == entries;
      LooseCandidacyKeeps(db, id, db.candidacies[id].(role := role), moved);
    } else {
      MoveTogetherKeeps(db.participants, db.candidacies, db.next.candidacy, moved, id, role, entries);
      hide EntryRule, RolesAgree, WithRole;
    }
  }

  lemma AcceptKeepsRules(db: Db, id: Id, role: Id, moved: set<Id>)
    requires Integrity(db) && Rules(db, moved) && Respects(db, Accept(id, role), moved)
    requires Exec(db, Accept(id, role)).Some?
    ensures Rules(Exec(db, Accept(id, role)).value, moved)
    ensures var db' := Exec(db, Accept(id, role)).value;
      && db'.participants == db.participants[db.next.participant := Participant(role, id)]
      && db'.votes == db.votes && db'.next.participant == db.next.participant + 1
  {
    NoEntryUnlessAccepted(db, id, moved);
    assert id in db.candidacies.Keys;
    var accepted := db.(candidacies := db.candidacies[id := db.candidacies[id].(status := Accepted)]);
    LooseCandidacyKeeps(db, id, db.candidacies[id].(status := Accepted), moved);
    assert EntriesOf(accepted, id) == EntriesOf(db, id);
    assert Below(db.participants.Keys, db.next.participant);
  }

  lemma ReturnKeepsRules(db: Db, id: Id, moved: set<Id>)
    requires Integrity(db) && Rules(db, moved)
    ensures Rules(Exec(db, Return(id)).value, moved)
    ensures EntriesOf(Exec(db, Return(id)).value, id) == {}
  {
    var db' := Exec(db, Return(id)).value;
    var dropped := DeleteEntries(db, EntriesOf(db, id));
    DropEntriesKeeps(db, EntriesOf(db, id), moved);
    assert EntriesOf(dropped, id) == {};
    if id in db.candidacies {
      assert id in db.candidacies.Keys;
      var returned := db.(candidacies := db.candidacies[id := db.candidacies[id].(status := Returned)]);
      assert EntriesOf(returned, id) == EntriesOf(db, id);
      LooseCandidacyKeeps(dropped, id, db.candidacies[id].(status := Returned), moved);
    }
  }

  lemma DropUserKeepsRules(db: Db, id: Id, application: Id, moved: set<Id>)
    requires Rules(db, moved)
    ensures Rules(Exec(db, DropUser(id, application)).value, moved)
  {
    var db' := Exec(db, DropUser(id, application)).value;
    FewerRowsKeep(db.participants, db.candidacies, db'.participants, db'.candidacies, db.next.candidacy, moved);
  }

  lemma CastKeepsRules(db: Db, user: Id, picks: seq<Pick>, moved: set<Id>)
    requires Rules(db, moved) && Exec(db, Cast(user, picks)).Some?
    ensures Rules(Exec(db, Cast(user, picks)).value, moved)
  {
    InsertVotesFrame(InsertBallot(db, user).value, db.next.ballot, user, picks);
  }

  lemma SettingWriteKeepsRules(db: Db, w: Write, moved: set<Id>)
    requires Rules(db, moved) && Respects(db, w, moved)
    requires w.PutVoting? || w.PutMode? || w.PutGate? || w.PutSelections? || w.NewRole? || w.PutRole?
    ensures Rules(Exec(db, w).value, moved)
  {
    hide EntryRule, RolesAgree;
  }

  /** The parts of the database the rules speak of. */
  predicate SameElection(db: Db, other: Db) {
    && other.settings == db.settings && other.roles == db.roles && other.participants == db.participants
    && other.candidacies == db.candidacies && other.next.candidacy == db.next.candidacy
  }

  lemma RequestsAreNotElections(db: Db, w: Write)
    requires Exec(db, w).Some? && (w.NewApplication? || w.PutRequestStatus? || w.DropApplication? || w.Approve?)
    ensures SameElection(db, Exec(db, w).value)
  {
  }

  lemma MembersAreNotElections(db: Db, w: Write)
    requires Exec(db, w).Some?
    requires (w.PutUser? || w.PutMemberStatus? || w.DropSessionsOf? || w.NewSession? || w.DropSessions?)
    ensures SameElection(db, Exec(db, w).value)
  {
    hide CprTaken, MemberTokens;
  }

  /** Writes that touch neither settings, roles, entries nor candidacies. */
  lemma OtherWriteKeepsRules(db: Db, w: Write, moved: set<Id>)
    requires Rules(db, moved) && Exec(db, w).Some?
    requires w.Reset? || w.NewApplication? || w.PutRequestStatus? || w.DropApplication? || w.Approve? || w.PutUser?
      || w.PutMemberStatus? || w.DropSessionsOf? || w.NewSession? || w.DropSessions?
    ensures Rules(Exec(db, w).value, moved)
  {
    hide EntryRule, RolesAgree, OpenRule, RoleRule, GateRule;
    if w.NewApplication? || w.PutRequestStatus? || w.DropApplication? || w.Approve? {
      hide Exec;
      RequestsAreNotElections(db, w);
    } else if !w.Reset? {
      hide Exec;
      MembersAreNotElections(db, w);
    }
  }

  lemma WriteKeepsRules(db: Db, w: Write, moved: set<Id>)
    requires Integrity(db) && Rules(db, moved) && Respects(db, w, moved) && Exec(db, w).Some?
    ensures Rules(Exec(db, w).value, moved)
  {
    hide Rules, Integrity;
    match w
    case DropRole(id) => DropRoleKeeps(db, id, moved);
    case NewEntry(role) => NewEntryKeepsRules(db, role, moved);
    case MoveEntry(id, role) => MoveEntryKeepsRules(db, id, role, moved);
    case DropEntry(id) => DropEntriesKeeps(db, {id}, moved);
    case NewCandidacy(user, role) => NewCandidacyKeepsRules(db, user, role, moved);
    case Resubmit(id, role) => ResubmitKeepsRules(db, id, role, moved);
    case MoveCandidacy(id, role, withEntry) => MoveCandidacyKeepsRules(db, id, role, withEntry, moved);
    case Accept(id, role) => AcceptKeepsRules(db, id, role, moved);
    case Return(id) => ReturnKeepsRules(db, id, moved);
    case Cast(user, picks) => CastKeepsRules(db, user, picks, moved);
    case DropUser(id, application) => DropUserKeepsRules(db, id, application, moved);
    case PutVoting(_) => SettingWriteKeepsRules(db, w, moved);
    case PutMode(_) => SettingWriteKeepsRules(db, w, moved);
    case PutGate(_) => SettingWriteKeepsRules(db, w, moved);
    case PutSelections(_) => SettingWriteKeepsRules(db, w, moved);
    case NewRole(_) => SettingWriteKeepsRules(db, w, moved);
    case PutRole(_, _) => SettingWriteKeepsRules(db, w, moved);
    case _ => OtherWriteKeepsRules(db, w, moved);
  }

  lemma NewEntryKeepsRules(db: Db, role: Id, moved: set<Id>)
    requires Integrity(db) && Rules(db, moved) && Exec(db, NewEntry(role)).Some?
    ensures Rules(Exec(db, NewEntry(role)).value, moved)
  {
    assert Below(db.candidacies.Keys, db.next.candidacy);
    assert 0 !in db.candidacies.Keys;
  }

  // ------------------------------------------------------------ one operation

  /** Entries an operation moves away from the role of their candidacy. */
  function MovedBy(op: Op): set<Id> {
    if op.UpdateParticipant? then {op.id} else {}
  }

  predicate IsCandidacyOp(op: Op) {
    op.SubmitCandidacy? || op.ChangeCandidacyRole? || op.AcceptCandidacy? || op.ReturnCandidacy?
  }

  lemma CandidacyPlansRespectRules(db: Db, op: Op, moved: set<Id>)
    requires Plan(db, op).Some? && IsCandidacyOp(op)
    ensures Plan(db, op).value != [] ==> Respects(db, Plan(db, op).value[0], moved)
  {
    hide ValidSetup, EligibleForRole;
  }

  lemma OtherPlansRespectRules(db: Db, op: Op, moved: set<Id>)
    requires Plan(db, op).Some? && !IsCandidacyOp(op) && MovedBy(op) <= moved
    ensures Plan(db, op).value != [] ==> Respects(db, Plan(db, op).value[0], moved)
  {
    if op.UpdateParticipant? { assert op.id in MovedBy(op); }
    hide ValidSetup, EligibleForRole, Unique, CprTaken, PhoneTaken, Accepts, Picks, Order, MovedBy;
    hide LastOrder, MemberWith, RoleOrNone, CandidacyFor;
  }

  lemma PlansRespectRules(db: Db, op: Op, moved: set<Id>)
    requires Plan(db, op).Some? && MovedBy(op) <= moved
    ensures Plan(db, op).value != [] ==> Respects(db, Plan(db, op).value[0], moved)
  {
    hide Plan, Respects, MovedBy;
    if IsCandidacyOp(op) {
      CandidacyPlansRespectRules(db, op, moved);
    } else {
      OtherPlansRespectRules(db, op, moved);
    }
  }

  lemma {:induction false} MoreMovedKeeps(db: Db, moved: set<Id>, more: set<Id>)
    requires Rules(db, moved) && moved <= more
    ensures Rules(db, more)
  {
  }

  lemma HarmlessWrite(db: Db, w: Write, moved: set<Id>)
    requires w.PutSelections? || w.DropSessionsOf?
    ensures Respects(db, w, moved)
  {
  }

  /** The second write of the settings form and of a status change. */
  lemma SecondWritesKeepRules(db: Db, op: Op, moved: set<Id>)
    requires Integrity(db) && Rules(db, moved) && Plan(db, op).Some? && (op.SaveElectionSettings? || op.SetUserStatus?)
    ensures Rules(Apply(db, op).db, moved)
  {
    hide Rules, Integrity, Respects;
    var ws := Plan(db, op).value;
    PlansRespectRules(db, op, moved);
    WriteKeepsRules(db, ws[0], moved);
    if |ws| == 2 {
      var db1 := Exec(db, ws[0]).value;
      ExecKeepsIntegrity(db, ws[0]);
      HarmlessWrite(db1, ws[1], moved);
      WriteKeepsRules(db1, ws[1], moved);
      assert ws[1..] == [ws[1]];
      OneWrite(db1, ws[1]);
    } else {
      assert ws == [ws[0]];
      OneWrite(db, ws[0]);
    }
  }

  lemma ApplyKeepsRules(db: Db, op: Op, moved: set<Id>)
    requires Integrity(db) && Rules(db, moved)
    ensures Rules(Apply(db, op).db, moved + MovedBy(op))
  {
    var more := moved + MovedBy(op);
    MoreMovedKeeps(db, moved, more);
    hide Rules, Integrity, Respects, Exec, Plan;
    var plan := Plan(db, op);
    if plan.Some? {
      if op.SaveElectionSettings? || op.SetUserStatus? {
        SecondWritesKeepRules(db, op, more);
      } else {
        PlanLength(db, op);
        if plan.value != [] {
          PlansRespectRules(db, op, more);
          assert plan.value == [plan.value[0]];
          OneWrite(db, plan.value[0]);
          if Exec(db, plan.value[0]).Some? { WriteKeepsRules(db, plan.value[0], more); }
        }
      }
    }
  }

  // ------------------------------------------------------------ every run

  function Moved(ops: seq<Op>): set<Id> {
    if ops == [] then {} else Moved(ops[..|ops| - 1]) + MovedBy(ops[|ops| - 1])
  }

  lemma {:induction false} RunKeepsRules(db: Db, ops: seq<Op>)
    requires Installed(db)
    ensures Integrity(Run(db, ops)) && Rules(Run(db, ops), Moved(ops))
  {
    if ops == [] {
    } else {
      hide Rules, Integrity, Apply;
      RunKeepsRules(db, ops[..|ops| - 1]);
      var before := Run(db, ops[..|ops| - 1]);
      ApplyKeepsIntegrity(before, ops[|ops| - 1]);
      ApplyKeepsRules(before, ops[|ops| - 1], Moved(ops[..|ops| - 1]));
    }
  }

  /** In every run the gate and the vote are never both open. */
  lemma GateAndVoteNeverBothOpen(db: Db, ops: seq<Op>)
    requires Installed(db)
    ensures var s := Run(db, ops).settings; !(s.gateOpen && s.voting == Open)
  {
    RunKeepsRules(db, ops);
  }

  /** The gate opens exactly when there is a role and the vote is in draft. */
  lemma GateOpensIff(db: Db)
    ensures Apply(db, SetCandidacyGate(true)).ok <==> db.roles != map[] && db.settings.voting == Draft
    ensures Apply(db, SetCandidacyGate(true)).ok ==>
      Apply(db, SetCandidacyGate(true)).db == db.(settings := db.settings.(gateOpen := true))
  {
    if db.roles != map[] && db.settings.voting == Draft { Planned(db, SetCandidacyGate(true), PutGate(true)); }
  }

  /**
   * So it can be opened again after voting has begun, in two steps and with every
   * ballot kept: the vote only has to be taken back to draft first.
   */
  lemma GateReopensThroughDraft(db: Db)
    requires db.roles != map[]
    ensures var again := Run(db, [SetVotingStatus(Draft), SetCandidacyGate(true)]);
      again == db.(settings := db.settings.(voting := Draft, gateOpen := true))
  {
    var ops := [SetVotingStatus(Draft), SetCandidacyGate(true)];
    assert ops[..1] == [SetVotingStatus(Draft)] && ops[..1][..0] == [];
    Planned(db, SetVotingStatus(Draft), PutVoting(Draft));
    var draft := db.(settings := db.settings.(voting := Draft));
    assert Run(db, ops[..1]) == draft;
    GateOpensIff(draft);
  }

  lemma OnlyPutModeChangesMode(db: Db, w: Write)
    requires Exec(db, w).Some? && !w.PutMode?
    ensures Exec(db, w).value.settings.mode == db.settings.mode
  {
    hide CprTaken, PhoneTaken, MemberTokens, EntriesOf, Entries;
    if w.Cast? {
      InsertVotesFrame(InsertBallot(db, w.user).value, db.next.ballot, w.user, w.picks);
    } else if w.NewApplication? || w.PutRequestStatus? || w.DropApplication? || w.Approve? {
      hide Exec;
      RequestsAreNotElections(db, w);
    } else if w.PutUser? || w.PutMemberStatus? || w.DropSessionsOf? || w.NewSession? || w.DropSessions? {
      hide Exec;
      MembersAreNotElections(db, w);
    }
  }

  lemma {:induction false} WritesWithoutPutMode(db: Db, ws: seq<Write>)
    requires forall k :: 0 <= k < |ws| ==> !ws[k].PutMode?
    ensures RunWrites(db, ws).db.settings.mode == db.settings.mode
    decreases |ws|
  {
    hide Exec;
    if ws != [] && Exec(db, ws[0]).Some? {
      OnlyPutModeChangesMode(db, ws[0]);
      WritesWithoutPutMode(Exec(db, ws[0]).value, ws[1..]);
    }
  }

  lemma OnlySettingsPutMode(db: Db, op: Op)
    requires Plan(db, op).Some? && !op.SaveElectionSettings?
    ensures forall k :: 0 <= k < |Plan(db, op).value| ==> !Plan(db, op).value[k].PutMode?
  {
  }

  /** The voting mode never changes while voting is open. */
  lemma ModeIsFixedWhileOpen(db: Db, op: Op)
    requires db.settings.voting == Open
    ensures Apply(db, op).db.settings.mode == db.settings.mode
  {
    if Plan(db, op).Some? {
      var ws := Plan(db, op).value;
      if op.SaveElectionSettings? {
        assert ws[1..] == [ws[1]];
        OneWrite(Exec(db, ws[0]).value, ws[1]);
      } else {
        OnlySettingsPutMode(db, op);
        WritesWithoutPutMode(db, ws);
      }
    }
  }

  // ------------------------------------------------------------ who may stand

  /** No candidacy is new and none has changed its role. */
  ghost predicate NoNewRoles(before: map<Id, Candidacy>, after: map<Id, Candidacy>) {
    forall c :: c in after ==> c in before && after[c].role == before[c].role && after[c].user == before[c].user
  }

  predicate TakesRole(w: Write) {
    w.NewCandidacy? || w.Resubmit? || w.MoveCandidacy?
  }

  lemma EntryWritesAreNotCandidacies(db: Db, entries: set<Id>, entry: Participant)
    ensures InsertEntry(db, entry).Some? ==> InsertEntry(db, entry).value.candidacies == db.candidacies
    ensures PutEntryRole(db, entries, entry.role).Some? ==>
      PutEntryRole(db, entries, entry.role).value.candidacies == db.candidacies
    ensures DeleteEntries(db, entries).candidacies == db.candidacies
  {
    hide WithRole;
  }

  lemma DecisionsTakeNoRole(db: Db, w: Write)
    requires Exec(db, w).Some? && (w.Accept? || w.Return?)
    ensures NoNewRoles(db.candidacies, Exec(db, w).value.candidacies)
  {
    var decided := PutCandidacy(db, w.id, None, Some(if w.Accept? then Accepted else Returned));
    assert NoNewRoles(db.candidacies, decided.candidacies);
    hide PutCandidacy, EntriesOf, NoNewRoles;
    var entry := Participant(if w.Accept? then w.roleId else 0, w.id);
    EntryWritesAreNotCandidacies(decided, EntriesOf(decided, w.id), entry);
    hide InsertEntry, PutEntryRole, DeleteEntries;
  }

  lemma OtherWritesTakeNoRole(db: Db, w: Write)
    requires Exec(db, w).Some? && !TakesRole(w)
    ensures NoNewRoles(db.candidacies, Exec(db, w).value.candidacies)
  {
    if w.Cast? {
      InsertVotesFrame(InsertBallot(db, w.user).value, db.next.ballot, w.user, w.picks);
    } else if w.Accept? || w.Return? {
      hide Exec;
      DecisionsTakeNoRole(db, w);
    } else if w.NewApplication? || w.PutRequestStatus? || w.DropApplication? || w.Approve? {
      hide Exec;
      RequestsAreNotElections(db, w);
    } else if w.PutUser? || w.PutMemberStatus? || w.DropSessionsOf? || w.NewSession? || w.DropSessions? {
      hide Exec;
      MembersAreNotElections(db, w);
    }
  }

  lemma {:induction false} OtherPlansTakeNoRole(db: Db, ws: seq<Write>)
    requires forall k :: 0 <= k < |ws| ==> !TakesRole(ws[k])
    ensures NoNewRoles(db.candidacies, RunWrites(db, ws).db.candidacies)
    decreases |ws|
  {
    hide Exec, TakesRole;
    if ws != [] && Exec(db, ws[0]).Some? {
      OtherWritesTakeNoRole(db, ws[0]);
      OtherPlansTakeNoRole(Exec(db, ws[0]).value, ws[1..]);
    }
  }

  lemma OnlyMembersAndCommitteeTakeRoles(db: Db, op: Op)
    requires Plan(db, op).Some? && !op.SubmitCandidacy? && !op.ChangeCandidacyRole?
    ensures forall k :: 0 <= k < |Plan(db, op).value| ==> !TakesRole(Plan(db, op).value[k])
  {
  }

  /** The candidacy is new, or stands for another role than before. */
  predicate TookRole(before: map<Id, Candidacy>, after: map<Id, Candidacy>, c: Id) {
    c in after && (c !in before || after[c].role != before[c].role)
  }

  /** The rule of a role binds whoever makes the change, the committee included. */
  ghost predicate MetTheRule(db: Db, op: Op, c: Candidacy) {
    && (op.SubmitCandidacy? || op.ChangeCandidacyRole?)
    && c.role in db.roles && c.user in db.users && EligibleForRole(db.users[c.user], db.roles[c.role], op.today)
    && (op.SubmitCandidacy? || op.byMember ==> db.settings.gateOpen)
  }

  lemma SubmissionGuards(db: Db, op: Op)
    requires op.SubmitCandidacy?
    ensures Plan(db, op).Some? ==>
      && db.settings.gateOpen && op.roleId in db.roles && op.user in db.users
      && EligibleForRole(db.users[op.user], db.roles[op.roleId], op.today)
      && |Plan(db, op).value| == 1 && Plan(db, op).value == [Plan(db, op).value[0]]
      && (Plan(db, op).value[0] == NewCandidacy(op.user, op.roleId)
          || exists c :: IsCandidacyOf(db, op.user, c) && Plan(db, op).value[0] == Resubmit(c, op.roleId))
    ensures Plan(db, op).None? ==> Apply(db, op).db == db
  {
    hide EligibleForRole, Exec;
  }

  lemma SubmissionMeetsTheRule(db: Db, op: Op, c: Id)
    requires op.SubmitCandidacy? && TookRole(db.candidacies, Apply(db, op).db.candidacies, c)
    ensures MetTheRule(db, op, Apply(db, op).db.candidacies[c])
  {
    SubmissionGuards(db, op);
    var w := Plan(db, op).value[0];
    Planned(db, op, w);
    hide EligibleForRole, Plan, Apply;
  }

  lemma MoveGuards(db: Db, op: Op)
    requires op.ChangeCandidacyRole?
    ensures Plan(db, op).Some? ==>
      && (op.byMember ==> db.settings.gateOpen) && op.id in db.candidacies && op.roleId in db.roles
      && db.candidacies[op.id].user in db.users
      && EligibleForRole(db.users[db.candidacies[op.id].user], db.roles[op.roleId], op.today)
      && Plan(db, op).value == [MoveCandidacy(op.id, op.roleId, db.candidacies[op.id].status == Accepted)]
    ensures Plan(db, op).None? ==> Apply(db, op).db == db
  {
    hide EligibleForRole, Exec;
  }

  lemma MoveMeetsTheRule(db: Db, op: Op, c: Id)
    requires op.ChangeCandidacyRole? && TookRole(db.candidacies, Apply(db, op).db.candidacies, c)
    ensures MetTheRule(db, op, Apply(db, op).db.candidacies[c])
  {
    MoveGuards(db, op);
    Planned(db, op, MoveCandidacy(op.id, op.roleId, db.candidacies[op.id].status == Accepted));
    hide EligibleForRole, Plan, Apply;
  }

  /**
   * Whatever the operation, whoever comes to stand for a role was an active member
   * of its minimum age on that day, and a member did so through an open gate.
   */
  lemma OnlyTheEligibleStand(db: Db, op: Op, c: Id)
    requires TookRole(db.candidacies, Apply(db, op).db.candidacies, c)
    ensures MetTheRule(db, op, Apply(db, op).db.candidacies[c])
  {
    if op.SubmitCandidacy? {
      SubmissionMeetsTheRule(db, op, c);
    } else if op.ChangeCandidacyRole? {
      MoveMeetsTheRule(db, op, c);
    } else {
      OnlyTheseTakeRoles(db, op, c);
    }
  }

  lemma OnlyTheseTakeRoles(db: Db, op: Op, c: Id)
    ensures TookRole(db.candidacies, Apply(db, op).db.candidacies, c) ==> op.SubmitCandidacy? || op.ChangeCandidacyRole?
  {
    if Plan(db, op).Some? && !op.SubmitCandidacy? && !op.ChangeCandidacyRole? {
      OnlyMembersAndCommitteeTakeRoles(db, op);
      OtherPlansTakeNoRole(db, Plan(db, op).value);
    }
  }

  /** In every run a submitted or returned candidacy has no ballot entry, and any candidacy has at most one. */
  lemma EntriesFollowCandidacies(db: Db, ops: seq<Op>, c: Id)
    requires Installed(db)
    ensures var now := Run(db, ops);
      c in now.candidacies ==>
        && |EntriesOf(now, c)| <= 1
        && (now.candidacies[c].status != Accepted ==> EntriesOf(now, c) == {})
        && (forall p :: p in EntriesOf(now, c) && p !in Moved(ops) ==>
              now.participants[p].role == now.candidacies[c].role)
  {
    var now := Run(db, ops);
    RunKeepsRules(db, ops);
    if c in now.candidacies {
      assert c in now.candidacies.Keys;
      if now.candidacies[c].status != Accepted { NoEntryUnlessAccepted(now, c, Moved(ops)); }
      var entries := EntriesOf(now, c);
      if entries != {} {
        var p := SomeElement(entries);
        forall q | q in entries ensures q == p {
          assert SameCandidacy(now.participants[p], now.participants[q]);
        }
        assert entries == {p};
      }
    }
  }

  /** No row belongs to the member or, as a ballot entry, to the candidacy. */
  ghost predicate GoneEverywhere(db: Db, user: Id, c: Id) {
    && user !in db.users && !HasVoted(db, user) && MemberTokens(db, user) == {}
    && (forall v :: v in db.votes ==> db.votes[v].user != user)
    && (forall d :: !IsCandidacyOf(db, user, d))
    && EntriesOf(db, c) == {}
  }

  /**
   * Deleting a member takes everything but the ballot entries of the candidacy, which
   * carry only its number: the member is gone everywhere exactly when there were none.
   */
  lemma DeletedMemberIsGoneIff(db: Db, user: Id, c: Id)
    requires user in db.users && IsCandidacyOf(db, user, c)
    ensures var after := Apply(db, DeleteUser(user)).db;
      && EntriesOf(after, c) == EntriesOf(db, c)
      && (GoneEverywhere(after, user, c) <==> EntriesOf(db, c) == {})
  {
    Planned(db, DeleteUser(user), DropUser(user, db.users[user].application));
    hide MemberTokens, EntriesOf;
    var after := Apply(db, DeleteUser(user)).db;
    assert after.participants == db.participants;
    EntriesAreOfTable(db, after, c);
    SessionsGone(DropVoter(db, user), user, db.users[user].application);
    SessionsStay(DropRequestAndSessions(DropVoter(db, user), user, db.users[user].application), after, user);
  }

  lemma EntriesAreOfTable(db: Db, other: Db, c: Id)
    requires db.participants == other.participants
    ensures EntriesOf(db, c) == EntriesOf(other, c)
  {
  }

  lemma SessionsGone(db: Db, user: Id, application: Id)
    ensures MemberTokens(DropRequestAndSessions(db, user, application), user) == {}
  {
  }

  lemma SessionsStay(db: Db, other: Db, user: Id)
    requires db.sessions == other.sessions
    ensures MemberTokens(db, user) == MemberTokens(other, user)
  {
  }

  // ------------------------------------------------------------ a run that leaves an entry behind

  const ANY_ROLE := Role(1, 1, DEFAULT_MIN_AGE, 0)

  /** A member applies for a role, is accepted, and is deleted. */
  function Departure(user: Id, role: Id, c: Id, today: Calendar.Day): seq<Op> {
    [Op.CreateRole("x", ANY_ROLE), SetCandidacyGate(true), SubmitCandidacy(user, role, today), AcceptCandidacy(c),
     DeleteUser(user)]
  }

  lemma RunSnoc(db: Db, ops: seq<Op>, op: Op)
    ensures Run(db, ops + [op]) == Apply(Run(db, ops), op).db
  {
    assert (ops + [op])[..|ops|] == ops;
  }

  /** A member may stand for a role: the gate is open, and nobody stands yet. */
  ghost predicate MayStand(db: Db, user: Id, role: Id) {
    && db.settings.gateOpen && user in db.users && role in db.roles && role != 0
    && db.roles[role].minAge == DEFAULT_MIN_AGE && db.users[user].status == Active
    && db.candidacies == map[] && db.participants == map[]
  }

  lemma GateOpened(db: Db, user: Id)
    requires Installed(db) && user in db.users
    ensures var open := Apply(Apply(db, Op.CreateRole("x", ANY_ROLE)).db, SetCandidacyGate(true)).db;
      && MayStand(open, user, db.next.role) && open.users == db.users
      && open.next.candidacy == db.next.candidacy && open.next.participant == db.next.participant
  {
    var row := ANY_ROLE.(order := LastOrder(db.roles) + 10);
    Planned(db, Op.CreateRole("x", ANY_ROLE), NewRole(row));
    var created := Apply(db, Op.CreateRole("x", ANY_ROLE)).db;
    assert db.next.role in created.roles && created.roles != map[] && created.settings == db.settings;
    hide LastOrder;
    Planned(created, SetCandidacyGate(true), PutGate(true));
  }

  /** A member stands for a role and is not on the ballot. */
  ghost predicate Standing(db: Db, user: Id, role: Id, c: Id) {
    && user in db.users && role in db.roles && role != 0 && IsCandidacyOf(db, user, c)
    && db.candidacies[c] == Candidacy(user, role, Submitted) && db.participants == map[]
  }

  lemma StandingSubmitted(db: Db, user: Id, role: Id, today: Calendar.Day)
    requires MayStand(db, user, role) && CandidateAge(db.users[user].dob, today) >= DEFAULT_MIN_AGE
    ensures var after := Apply(db, SubmitCandidacy(user, role, today)).db;
      Standing(after, user, role, db.next.candidacy) && after.next.participant == db.next.participant
  {
    assert CandidacyFor(db, user).None?;
    hide CandidateAge;
    Planned(db, SubmitCandidacy(user, role, today), NewCandidacy(user, role));
  }

  lemma StandingAccepted(db: Db, user: Id, role: Id, c: Id)
    requires Standing(db, user, role, c)
    ensures var after := Apply(db, AcceptCandidacy(c)).db;
      user in after.users && IsCandidacyOf(after, user, c) && db.next.participant in EntriesOf(after, c)
  {
    Planned(db, AcceptCandidacy(c), Accept(c, role));
  }

  lemma MemberDeleted(db: Db, user: Id)
    requires user in db.users
    ensures user !in Apply(db, DeleteUser(user)).db.users
  {
    Planned(db, DeleteUser(user), DropUser(user, db.users[user].application));
  }

  lemma FiveOps(db: Db, ops: seq<Op>)
    requires |ops| == 5
    ensures Run(db, ops) ==
      Apply(Apply(Apply(Apply(Apply(db, ops[0]).db, ops[1]).db, ops[2]).db, ops[3]).db, ops[4]).db
  {
    hide Apply;
    assert ops == ((([ops[0]] + [ops[1]]) + [ops[2]]) + [ops[3]]) + [ops[4]] && [ops[0]] == [] + [ops[0]];
    RunSnoc(db, [], ops[0]);
    RunSnoc(db, [ops[0]], ops[1]);
    RunSnoc(db, [ops[0]] + [ops[1]], ops[2]);
    RunSnoc(db, ([ops[0]] + [ops[1]]) + [ops[2]], ops[3]);
    RunSnoc(db, (([ops[0]] + [ops[1]]) + [ops[2]]) + [ops[3]], ops[4]);
  }

  /** There are such runs: for any member old enough, from any installed database. */
  lemma DeletedMemberStaysOnBallot(db: Db, user: Id, today: Calendar.Day)
    requires Installed(db) && user in db.users
    requires CandidateAge(db.users[user].dob, today) >= DEFAULT_MIN_AGE
    ensures var now := Run(db, Departure(user, db.next.role, db.next.candidacy, today));
      user !in now.users && db.next.participant in EntriesOf(now, db.next.candidacy)
  {
    var role, c := db.next.role, db.next.candidacy;
    FiveOps(db, Departure(user, role, c, today));
    GateOpened(db, user);
    hide Apply, Run, Installed, Standing, MayStand, EntriesOf, CandidateAge;
    var open := Apply(Apply(db, Op.CreateRole("x", ANY_ROLE)).db, SetCandidacyGate(true)).db;
    StandingSubmitted(open, user, role, today);
    var submitted := Apply(open, SubmitCandidacy(user, role, today)).db;
    StandingAccepted(submitted, user, role, c);
    var accepted := Apply(submitted, AcceptCandidacy(c)).db;
    DeletedMemberIsGoneIff(accepted, user, c);
    MemberDeleted(accepted, user);
  }

  /**
   * Accepting, also after a return, always inserts a fresh entry in the role of the
   * candidacy with no votes: the branch that refreshes an existing entry is never taken.
   */
  lemma AcceptanceGivesFreshEntry(db: Db, ops: seq<Op>, c: Id)
    requires Installed(db) && Apply(Run(db, ops), AcceptCandidacy(c)).ok
    ensures var before, after := Run(db, ops), Apply(Run(db, ops), AcceptCandidacy(c)).db;
      var p := before.next.participant;
      && EntriesOf(before, c) == {} && p !in before.participants
      && after.participants == before.participants[p := Participant(before.candidacies[c].role, c)]
      && Tally(after, p) == 0
  {
    var before := Run(db, ops);
    RunKeepsRules(db, ops);
    AcceptanceWrites(before, c, Moved(ops));
    NoVotesAhead(before);
    hide Apply, Rules, Integrity;
    NoVotesNoTally(Apply(before, AcceptCandidacy(c)).db, before.next.participant);
  }

  lemma NoVotesNoTally(db: Db, p: Id)
    requires forall v :: v in db.votes ==> db.votes[v].participant != p
    ensures Tally(db, p) == 0
  {
    assert forall v :: v !in VotesFor(db, p);
  }

  lemma AcceptanceWrites(db: Db, c: Id, moved: set<Id>)
    requires Integrity(db) && Rules(db, moved) && Apply(db, AcceptCandidacy(c)).ok
    ensures var after := Apply(db, AcceptCandidacy(c)).db;
      && c in db.candidacies && EntriesOf(db, c) == {} && db.next.participant !in db.participants
      && after.participants == db.participants[db.next.participant := Participant(db.candidacies[c].role, c)]
      && after.votes == db.votes
  {
    assert Plan(db, AcceptCandidacy(c)).Some?;
    var w := Accept(c, db.candidacies[c].role);
    OneWrite(db, w);
    NoEntryUnlessAccepted(db, c, moved);
    AcceptKeepsRules(db, c, db.candidacies[c].role, moved);
    assert Below(db.participants.Keys, db.next.participant);
    hide Exec, Rules, Integrity;
  }

  lemma NoVotesAhead(db: Db)
    requires Integrity(db)
    ensures forall v :: v in db.votes ==> db.votes[v].participant != db.next.participant
  {
    assert VotesHaveEntries(db.votes, db.participants.Keys) && Below(db.participants.Keys, db.next.participant);
  }

  /**
   * Whenever voting is opened, in any run, every active member who has not voted can
   * cast a ballot, even one that uses the full allowance of every section.
   */
  lemma OpeningLetsEveryoneVote(db: Db, ops: seq<Op>, user: Id)
    requires Installed(db) && Apply(Run(db, ops), SetVotingStatus(Open)).ok
    ensures var open := Apply(Run(db, ops), SetVotingStatus(Open)).db;
      user in open.users && open.users[user].status == Active && !HasVoted(open, user) ==>
        exists sel :: Accepts(open, user, sel) && FullBallot(open, sel)
  {
    var before := Run(db, ops);
    RunKeepsRules(db, ops);
    assert Plan(before, SetVotingStatus(Open)).Some?;
    OneWrite(before, PutVoting(Open));
    var open := Apply(before, SetVotingStatus(Open)).db;
    assert open == before.(settings := before.settings.(voting := Open));
    SetupIgnoresStatus(before, open);
    if user in open.users && open.users[user].status == Active && !HasVoted(open, user) {
      ValidSetupLetsEveryoneVote(open, user);
    }
  }

  lemma SetupIgnoresStatus(db: Db, other: Db)
    requires other == db.(settings := db.settings.(voting := other.settings.voting)) && ValidSetup(db)
    ensures ValidSetup(other)
  {
    assert forall r :: Entries(other, r) == Entries(db, r);
  }

  /** The ballots of other members, however many, never make an acceptable ballot unacceptable. */
  lemma {:induction false} OthersCannotSpoilABallot(db: Db, casts: seq<Op>, user: Id, sel: Selections)
    requires Integrity(db) && Accepts(db, user, sel)
    requires forall k :: 0 <= k < |casts| ==> casts[k].CastBallot? && casts[k].user != user
    ensures Integrity(Run(db, casts)) && Accepts(Run(db, casts), user, sel)
  {
    hide Accepts, Integrity;
    if casts != [] {
      var before, last := Run(db, casts[..|casts| - 1]), casts[|casts| - 1];
      OthersCannotSpoilABallot(db, casts[..|casts| - 1], user, sel);
      ApplyKeepsIntegrity(before, last);
      assert last.CastBallot? && last.user != user;
      if Plan(before, last).Some? {
        var w := Cast(last.user, Picks(Order(before), last.sel));
        OneWrite(before, w);
        if Exec(before, w).Some? {
          OthersBallotsDoNotMatter(before, user, sel, last.user, w.picks);
        }
      }
    }
  }
}
