// What every run of atomic operations keeps of the membership register:
// requests and members, shared phones, and sessions.
module Membership {
  import opened Prelude
  import opened Database
  import opened IntegrityKept
  import opened Ballots
  import opened Operations
  import opened Outcomes

  /** Every member that came through a request belongs to an approved one. */
  ghost predicate MembersWereApproved(users: map<Id, User>, applications: map<Id, Application>) {
    forall u :: u in users && users[u].application != 0 ==>
      users[u].application in applications && applications[users[u].application].status == Approved
  }

  predicate SameRequest(u: User, w: User) {
    u.application != 0 && u.application == w.application
  }

  ghost predicate OneMemberPerRequest(users: map<Id, User>) {
    forall u, w :: u in users && w in users && SameRequest(users[u], users[w]) ==> u == w
  }

  predicate IsMemberOf(users: map<Id, User>, u: Id, a: Id) {
    u in users && users[u].application == a
  }

  /** Every approved request has its member. */
  ghost predicate ApprovedHaveMembers(users: map<Id, User>, applications: map<Id, Application>) {
    forall a :: a in applications && applications[a].status == Approved ==> exists u :: IsMemberOf(users, u, a)
  }

  /** Applications ids of members are a bijection onto the approved requests. */
  ghost predicate RegisterRule(users: map<Id, User>, applications: map<Id, Application>) {
    MembersWereApproved(users, applications) && OneMemberPerRequest(users) && ApprovedHaveMembers(users, applications)
  }

  /** No member session belongs to a missing or cancelled member. */
  ghost predicate SessionRule(sessions: map<string, Session>, users: map<Id, User>) {
    forall t :: t in sessions && sessions[t].kind == Member ==>
      sessions[t].subject in users && users[sessions[t].subject].status != Cancelled
  }

  // ------------------------------------------------------------ requests and members

  lemma PutRequestKeeps(users: map<Id, User>, applications: map<Id, Application>, id: Id, a: Application)
    requires RegisterRule(users, applications) && a.status != Approved
    requires id in applications ==> applications[id].status != Approved
    ensures RegisterRule(users, applications[id := a])
  {
  }

  lemma DropRequestKeeps(users: map<Id, User>, applications: map<Id, Application>, id: Id)
    requires RegisterRule(users, applications) && id in applications && applications[id].status != Approved
    ensures RegisterRule(users, applications - {id})
  {
  }

  lemma ApproveKeepsRegister(users: map<Id, User>, applications: map<Id, Application>, id: Id, a: Application,
                             uid: Id, u: User)
    requires RegisterRule(users, applications) && id in applications && applications[id].status != Approved
    requires id != 0 && uid !in users && u.application == id && a.status == Approved
    ensures RegisterRule(users[uid := u], applications[id := a])
  {
    var users', applications' := users[uid := u], applications[id := a];
    assert forall w :: w in users ==> users[w].application != id;
    forall x | x in applications' && applications'[x].status == Approved ensures exists w :: IsMemberOf(users', w, x) {
      if x == id {
        assert IsMemberOf(users', uid, x);
      } else {
        var w :| IsMemberOf(users, w, x);
        assert IsMemberOf(users', w, x);
      }
    }
  }

  /** A member may change everything but the request they came from. */
  lemma PutUserKeepsRegister(users: map<Id, User>, applications: map<Id, Application>, id: Id, u: User)
    requires RegisterRule(users, applications) && id in users && u.application == users[id].application
    ensures RegisterRule(users[id := u], applications)
  {
    var users' := users[id := u];
    forall a | a in applications && applications[a].status == Approved ensures exists w :: IsMemberOf(users', w, a) {
      var w :| IsMemberOf(users, w, a);
      assert IsMemberOf(users', w, a);
    }
  }

  /** A member leaves together with the request they came from. */
  lemma DropUserKeepsRegister(users: map<Id, User>, applications: map<Id, Application>, id: Id)
    requires RegisterRule(users, applications) && id in users && RequestIds(users, applications)
    ensures RegisterRule(users - {id},
      if users[id].application > 0 then applications - {users[id].application} else applications)
  {
    var a0 := users[id].application;
    var users', applications' := users - {id}, if a0 > 0 then applications - {a0} else applications;
    forall a | a in applications' && applications'[a].status == Approved ensures exists w :: IsMemberOf(users', w, a) {
      assert a > 0 && a != a0;
      var w :| IsMemberOf(users, w, a);
      assert w != id;
      assert IsMemberOf(users', w, a);
    }
  }

  /** Requests of members have real ids, and a request id of 0 is not one. */
  ghost predicate RequestIds(users: map<Id, User>, applications: map<Id, Application>) {
    (forall u :: u in users ==> users[u].application >= 0) && forall a :: a in applications ==> a > 0
  }

  ghost predicate Register(db: Db) {
    RegisterRule(db.users, db.applications) && RequestIds(db.users, db.applications)
  }

  /** What a write must respect to keep the register; every plan does. */
  ghost predicate RespectsRegister(db: Db, w: Write) {
    match w
    case PutRequestStatus(id, s) => s != Approved && (id in db.applications ==> db.applications[id].status != Approved)
    case DropApplication(id) => id in db.applications && db.applications[id].status != Approved
    case Approve(id, a) => id in db.applications && db.applications[id].status != Approved
    case DropUser(id, a) => id in db.users && a == db.users[id].application
    case _ => true
  }

  lemma RequestWriteKeepsRegister(db: Db, w: Write)
    requires Integrity(db) && Register(db) && RespectsRegister(db, w) && Exec(db, w).Some?
    requires w.NewApplication? || w.PutRequestStatus? || w.DropApplication? || w.Approve?
    ensures Register(Exec(db, w).value)
  {
    match w {
      case NewApplication(a) =>
        assert Below(db.applications.Keys, db.next.application) && db.next.application !in db.applications.Keys;
        PutRequestKeeps(db.users, db.applications, db.next.application, a.(status := Pending));
      case PutRequestStatus(id, s) =>
        if id in db.applications { PutRequestKeeps(db.users, db.applications, id, db.applications[id].(status := s)); }
      case DropApplication(id) => DropRequestKeeps(db.users, db.applications, id);
      case Approve(id, a) =>
        assert Below(db.users.Keys, db.next.user) && db.next.user !in db.users.Keys;
        ApproveKeepsRegister(db.users, db.applications, id, db.applications[id].(status := Approved), db.next.user,
          User(a.cpr, a.phone, a.dob, Active, id));
    }
    hide RegisterRule, Integrity;
  }

  lemma MemberWriteKeepsRegister(db: Db, w: Write)
    requires Register(db) && RespectsRegister(db, w) && Exec(db, w).Some?
    requires w.PutUser? || w.PutMemberStatus? || w.DropUser?
    ensures Register(Exec(db, w).value)
  {
    match w {
      case PutUser(id, cpr, phone, dob) =>
        if id in db.users { PutUserKeepsRegister(db.users, db.applications, id, Exec(db, w).value.users[id]); }
      case PutMemberStatus(id, s) =>
        if id in db.users { PutUserKeepsRegister(db.users, db.applications, id, db.users[id].(status := s)); }
      case DropUser(id, a) => DropUserKeepsRegister(db.users, db.applications, id);
    }
    hide RegisterRule;
  }

  predicate IsElectionWrite(w: Write) {
    w.PutVoting? || w.PutMode? || w.PutGate? || w.PutSelections? || w.NewRole? || w.PutRole? || w.DropRole? || w.Reset?
    || w.Cast? || w.NewEntry? || w.DropEntry? || w.MoveEntry?
  }

  predicate IsCandidacyWrite(w: Write) {
    w.NewCandidacy? || w.Resubmit? || w.MoveCandidacy? || w.Accept? || w.Return?
  }

  predicate IsSessionWrite(w: Write) {
    w.NewSession? || w.DropSessions? || w.DropSessionsOf?
  }

  lemma ElectionWritesAreNotMembers(db: Db, w: Write)
    requires Exec(db, w).Some? && IsElectionWrite(w)
    ensures var after := Exec(db, w).value;
      after.users == db.users && after.applications == db.applications && after.sessions == db.sessions
  {
    if w.Cast? {
      InsertVotesFrame(InsertBallot(db, w.user).value, db.next.ballot, w.user, w.picks);
    }
  }

  lemma PutCandidacyIsNotMembers(db: Db, id: Id, role: Option<Id>, status: Option<CandidacyStatus>)
    ensures var after := PutCandidacy(db, id, role, status);
      after.users == db.users && after.applications == db.applications && after.sessions == db.sessions
  {
  }

  lemma EntryWritesAreNotMembers(db: Db, entries: set<Id>, entry: Participant)
    ensures var after := InsertEntry(db, entry); after.Some? ==>
      && after.value.users == db.users && after.value.applications == db.applications
      && after.value.sessions == db.sessions
    ensures var after := PutEntryRole(db, entries, entry.role); after.Some? ==>
      && after.value.users == db.users && after.value.applications == db.applications
      && after.value.sessions == db.sessions
  {
    hide WithRole;
  }

  lemma AcceptIsNotMembers(db: Db, id: Id, role: Id)
    requires Exec(db, Accept(id, role)).Some?
    ensures var after := Exec(db, Accept(id, role)).value;
      after.users == db.users && after.applications == db.applications && after.sessions == db.sessions
  {
    PutCandidacyIsNotMembers(db, id, None, Some(Accepted));
    var accepted := PutCandidacy(db, id, None, Some(Accepted));
    EntryWritesAreNotMembers(accepted, EntriesOf(accepted, id), Participant(role, id));
    hide PutCandidacy, EntriesOf, InsertEntry, PutEntryRole;
  }

  lemma ReturnIsNotMembers(db: Db, id: Id)
    ensures var after := Exec(db, Return(id)).value;
      after.users == db.users && after.applications == db.applications && after.sessions == db.sessions
  {
    PutCandidacyIsNotMembers(db, id, None, Some(Returned));
    hide PutCandidacy, EntriesOf;
  }

  lemma OtherCandidacyWritesAreNotMembers(db: Db, w: Write)
    requires Exec(db, w).Some? && (w.NewCandidacy? || w.Resubmit? || w.MoveCandidacy?)
    ensures var after := Exec(db, w).value;
      after.users == db.users && after.applications == db.applications && after.sessions == db.sessions
  {
    if !w.NewCandidacy? {
      PutCandidacyIsNotMembers(db, w.id, Some(w.roleId), if w.Resubmit? then Some(Submitted) else None);
    }
    hide PutCandidacy, EntriesOf;
  }

  lemma CandidacyWritesAreNotMembers(db: Db, w: Write)
    requires Exec(db, w).Some? && IsCandidacyWrite(w)
    ensures var after := Exec(db, w).value;
      after.users == db.users && after.applications == db.applications && after.sessions == db.sessions
  {
    hide Exec;
    if w.Accept? {
      AcceptIsNotMembers(db, w.id, w.roleId);
    } else if w.Return? {
      ReturnIsNotMembers(db, w.id);
    } else {
      OtherCandidacyWritesAreNotMembers(db, w);
    }
  }

  /** Writes that leave members and requests alone. */
  lemma SameRegister(db: Db, w: Write)
    requires Exec(db, w).Some? && (IsElectionWrite(w) || IsCandidacyWrite(w) || IsSessionWrite(w))
    ensures Exec(db, w).value.users == db.users && Exec(db, w).value.applications == db.applications
  {
    if IsElectionWrite(w) {
      hide Exec;
      ElectionWritesAreNotMembers(db, w);
    } else if IsCandidacyWrite(w) {
      hide Exec;
      CandidacyWritesAreNotMembers(db, w);
    }
  }

  lemma WriteKeepsRegister(db: Db, w: Write)
    requires Integrity(db) && Register(db) && RespectsRegister(db, w) && Exec(db, w).Some?
    ensures Register(Exec(db, w).value)
  {
    hide Exec, Integrity, RegisterRule, RequestIds;
    if w.NewApplication? || w.PutRequestStatus? || w.DropApplication? || w.Approve? {
      RequestWriteKeepsRegister(db, w);
    } else if w.PutUser? || w.PutMemberStatus? || w.DropUser? {
      MemberWriteKeepsRegister(db, w);
    } else {
      SameRegister(db, w);
    }
  }

  // ------------------------------------------------------------ shared phones

  predicate SharePhone(users: map<Id, User>, u: Id, w: Id) {
    u in users && w in users && u != w && users[u].phone == users[w].phone
  }

  /** No two members come to share a phone who did not share one before. */
  ghost predicate NoNewSharing(before: map<Id, User>, after: map<Id, User>) {
    forall u, w :: SharePhone(after, u, w) ==> SharePhone(before, u, w)
  }

  ghost predicate RespectsPhones(db: Db, w: Write) {
    match w
    case Approve(_, a) => !PhoneTaken(db, a.phone, 0)
    case PutUser(id, _, phone, _) => !PhoneTaken(db, phone, id)
    case _ => true
  }

  lemma WriteSharesNoPhone(db: Db, w: Write)
    requires Integrity(db) && RespectsPhones(db, w) && Exec(db, w).Some?
    ensures NoNewSharing(db.users, Exec(db, w).value.users)
  {
    assert Below(db.users.Keys, db.next.user);
    if IsElectionWrite(w) || IsCandidacyWrite(w) || IsSessionWrite(w) {
      hide Exec;
      SameRegister(db, w);
    } else if w.Approve? {
      assert forall u :: u in db.users ==> u in db.users.Keys && u > 0 && db.users[u].phone != w.application.phone;
    } else if w.PutUser? {
      assert forall u :: u in db.users && u != w.id ==> db.users[u].phone != w.phone;
    }
  }

  // ------------------------------------------------------------ sessions

  ghost predicate RespectsSessions(db: Db, w: Write) {
    match w
    case NewSession(_, s) => s.kind == Member ==> s.subject in db.users && db.users[s.subject].status != Cancelled
    case PutMemberStatus(id, s) => s == Cancelled ==> MemberTokens(db, id) == {}
    case _ => true
  }

  lemma WriteKeepsSessions(db: Db, w: Write)
    requires Integrity(db) && SessionRule(db.sessions, db.users) && RespectsSessions(db, w) && Exec(db, w).Some?
    ensures SessionRule(Exec(db, w).value.sessions, Exec(db, w).value.users)
  {
    if IsElectionWrite(w) {
      hide Exec;
      ElectionWritesAreNotMembers(db, w);
    } else if IsCandidacyWrite(w) {
      hide Exec;
      CandidacyWritesAreNotMembers(db, w);
    } else if w.PutMemberStatus? {
      assert forall t :: t in db.sessions && db.sessions[t].kind == Member && db.sessions[t].subject == w.id ==>
        t in MemberTokens(db, w.id);
    } else if w.DropUser? {
      DropUserDropsSessions(db, w.id, w.applicationId);
    } else if w.Approve? {
      assert Below(db.users.Keys, db.next.user) && db.next.user !in db.users.Keys;
    }
  }

  lemma DropUserDropsSessions(db: Db, id: Id, application: Id)
    ensures var after := Exec(db, DropUser(id, application)).value;
      after.sessions == db.sessions - MemberTokens(db, id) && after.users == db.users - {id}
  {
  }

  /** A change of status: the sessions of a withdrawn member go with it. */
  lemma StatusChangeKeepsSessions(db: Db, id: Id, s: MemberStatus)
    requires SessionRule(db.sessions, db.users) && Plan(db, SetUserStatus(id, s)).Some?
    ensures var after := Apply(db, SetUserStatus(id, s)).db; SessionRule(after.sessions, after.users)
    ensures s != Active ==> MemberTokens(Apply(db, SetUserStatus(id, s)).db, id) == {}
  {
    assert id in db.users && db.users[id].status != s;
    hide Apply, Plan;
    SetUserStatusLeaves(db, id, s);
    var after := Apply(db, SetUserStatus(id, s)).db;
    if s != Active {
      assert forall t :: t !in MemberTokens(after, id);
    }
  }

  // ------------------------------------------------------------ every run

  lemma PlansRespectRegister(db: Db, op: Op)
    requires Plan(db, op).Some?
    ensures forall k :: 0 <= k < |Plan(db, op).value| ==> RespectsRegister(db, Plan(db, op).value[k])
  {
  }

  lemma OthersLeavePhones(db: Db, op: Op)
    requires Plan(db, op).Some? && !op.ApproveApplication? && !op.UpdateUser?
    ensures forall k :: 0 <= k < |Plan(db, op).value| ==>
      !Plan(db, op).value[k].Approve? && !Plan(db, op).value[k].PutUser?
  {
    hide PhoneTaken, CprTaken, Unique, Accepts, ValidSetup, EligibleForRole;
  }

  lemma PlansRespectPhones(db: Db, op: Op)
    requires Plan(db, op).Some?
    ensures forall k :: 0 <= k < |Plan(db, op).value| ==> RespectsPhones(db, Plan(db, op).value[k])
  {
    if op.ApproveApplication? {
      assert Unique(db, db.applications[op.id].cpr, db.applications[op.id].phone, op.id);
    } else if !op.UpdateUser? {
      OthersLeavePhones(db, op);
    }
    hide PhoneTaken, CprTaken;
  }

  lemma PlansRespectSessions(db: Db, op: Op)
    requires Plan(db, op).Some? && !op.SetUserStatus?
    ensures forall k :: 0 <= k < |Plan(db, op).value| ==> RespectsSessions(db, Plan(db, op).value[k])
  {
  }

  ghost predicate Orderly(db: Db) {
    Integrity(db) && Register(db) && SessionRule(db.sessions, db.users)
  }

  /** One write of a plan: everything but the session rule of a status change. */
  lemma OneWriteIsOrderly(db: Db, op: Op, w: Write)
    requires Integrity(db) && Register(db) && RespectsRegister(db, w) && RespectsPhones(db, w) && Exec(db, w).Some?
    ensures var after := Exec(db, w).value;
      Integrity(after) && Register(after) && NoNewSharing(db.users, after.users)
  {
    hide *;
    ExecKeepsIntegrity(db, w);
    WriteKeepsRegister(db, w);
    WriteSharesNoPhone(db, w);
  }

  lemma SharingIsTransitive(a: map<Id, User>, b: map<Id, User>, c: map<Id, User>)
    requires NoNewSharing(a, b) && NoNewSharing(b, c)
    ensures NoNewSharing(a, c)
  {
  }

  /** The second write of the settings form and of a status change is harmless. */
  lemma SecondWriteIsOrderly(db: Db, w: Write)
    requires Integrity(db) && Register(db) && (w.PutSelections? || w.DropSessionsOf?)
    ensures var after := Exec(db, w).value;
      Integrity(after) && Register(after) && NoNewSharing(db.users, after.users)
  {
    hide Integrity, Register, NoNewSharing;
    assert RespectsRegister(db, w) && RespectsPhones(db, w);
    OneWriteIsOrderly(db, ResetVotes, w);
  }

  lemma ApplyIsOrderly(db: Db, op: Op)
    requires Orderly(db)
    ensures Orderly(Apply(db, op).db) && NoNewSharing(db.users, Apply(db, op).db.users)
  {
    var plan := Plan(db, op);
    if plan.Some? && plan.value != [] {
      var w := plan.value[0];
      PlansRespectRegister(db, op);
      PlansRespectPhones(db, op);
      if op.SetUserStatus? {
        StatusChangeKeepsSessions(db, op.id, op.status);
        TwoWritesAreOrderly(db, op);
      } else if op.SaveElectionSettings? {
        TwoWritesAreOrderly(db, op);
        SettingsKeepSessions(db, op);
      } else {
        PlanLength(db, op);
        assert plan.value == [w];
        OneWrite(db, w);
        PlansRespectSessions(db, op);
        hide Plan, Exec, Integrity, Register, SessionRule, NoNewSharing;
        if Exec(db, w).Some? {
          OneWriteIsOrderly(db, op, w);
          WriteKeepsSessions(db, w);
        } else {
          NothingShared(db.users);
        }
      }
    }
  }

  lemma NothingShared(users: map<Id, User>)
    ensures NoNewSharing(users, users)
  {
  }

  lemma SettingsKeepSessions(db: Db, op: Op)
    requires op.SaveElectionSettings?
    ensures Apply(db, op).db.sessions == db.sessions && Apply(db, op).db.users == db.users
  {
    if Plan(db, op).Some? {
      var ws := Plan(db, op).value;
      assert ws[1..] == [ws[1]];
      OneWrite(Exec(db, ws[0]).value, ws[1]);
    }
  }

  lemma TwoWritesAreOrderly(db: Db, op: Op)
    requires Integrity(db) && Register(db) && Plan(db, op).Some? && (op.SaveElectionSettings? || op.SetUserStatus?)
    ensures var after := Apply(db, op).db;
      Integrity(after) && Register(after) && NoNewSharing(db.users, after.users)
  {
    var ws := Plan(db, op).value;
    PlansRespectRegister(db, op);
    PlansRespectPhones(db, op);
    var db1 := Exec(db, ws[0]).value;
    hide Integrity, Register, NoNewSharing;
    OneWriteIsOrderly(db, op, ws[0]);
    if |ws| == 2 {
      assert ws[1..] == [ws[1]];
      OneWrite(db1, ws[1]);
      SecondWriteIsOrderly(db1, ws[1]);
      SharingIsTransitive(db.users, db1.users, Exec(db1, ws[1]).value.users);
    } else {
      assert ws == [ws[0]];
      OneWrite(db, ws[0]);
    }
  }

  lemma {:induction false} RunIsOrderly(db: Db, ops: seq<Op>)
    requires Orderly(db)
    ensures Orderly(Run(db, ops)) && NoNewSharing(db.users, Run(db, ops).users)
  {
    hide Orderly, Apply;
    if ops == [] {
    } else {
      hide NoNewSharing;
      var before := Run(db, ops[..|ops| - 1]);
      RunIsOrderly(db, ops[..|ops| - 1]);
      ApplyIsOrderly(before, ops[|ops| - 1]);
      SharingIsTransitive(db.users, before.users, Run(db, ops).users);
    }
  }

  /**
   * In every run the requests of form-created members are a bijection onto the
   * approved requests, no two members share a phone who did not already share it in
   * the seed, and no member session belongs to a missing or cancelled member.
   */
  lemma EveryRunKeepsTheRegister(db: Db, ops: seq<Op>)
    requires Installed(db)
    ensures var now := Run(db, ops);
      && RegisterRule(now.users, now.applications) && NoNewSharing(db.users, now.users)
      && SessionRule(now.sessions, now.users)
  {
    RunIsOrderly(db, ops);
  }
}
