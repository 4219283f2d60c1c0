// The operations of internal/store as atomic steps: the checks each of them makes
// and the writes it then issues. An operation that is refused writes nothing.
module Operations {
  import opened Prelude
  import opened Database
  import opened Ballots
  import opened IntegrityKept
  import Calendar

  const DEFAULT_MIN_AGE := 21

  datatype Op =
    // internal/store/elections.go and internal/httpapi/elections.go
    | SetVotingStatus(voting: Voting)
    | SaveElectionSettings(mode: Mode, title: string, winners: int, selections: int)
    | CreateRole(name: string, role: Role)
    | UpdateRole(id: Id, name: string, role: Role)
    | DeleteRole(id: Id)
    | CreateParticipant(name: string, roleId: Id)
    | UpdateParticipant(id: Id, name: string, roleId: Id)
    | DeleteParticipant(id: Id)
    | CastBallot(user: Id, sel: Selections)
    | ResetVotes
    // internal/store/candidacy.go
    | SetCandidacyGate(open: bool)
    | SubmitCandidacy(user: Id, roleId: Id, today: Calendar.Day)
    | ChangeCandidacyRole(id: Id, roleId: Id, byMember: bool, today: Calendar.Day)
    | AcceptCandidacy(id: Id)
    | ReturnCandidacy(id: Id, note: string)
    // internal/store/members.go and internal/store/membership_status.go
    | CreateApplication(application: Application)
    | ApproveApplication(id: Id)
    | RejectApplication(id: Id)
    | SetApplicationStatus(id: Id, request: RequestStatus)
    | DeleteApplication(id: Id)
    | UpdateUser(id: Id, cpr: string, phone: string, dob: Option<Calendar.Day>)
    | SetUserStatus(id: Id, status: MemberStatus)
    | DeleteUser(id: Id)
    // internal/store/admins.go and the login of internal/httpapi/public.go
    | Login(phone: string, dob: Option<Calendar.Day>, cpr: string, token: string, expires: int)
    | AdminLogin(kind: Subject, id: Id, token: string, expires: int)
    | Logout(token: string)
    | LookupSession(token: string, now: int)
    | PurgeSessions(now: int)

  /** normalizeRole: None is its error return; the sort order is passed through. */
  function NormalizeRole(name: string, r: Role): Option<Role> {
    if name == "" then None else
    var winners := if r.winners < 1 then 1 else r.winners;
    var selections := if r.selections < 1 then winners else r.selections;
    var minAge := if r.minAge <= 0 then DEFAULT_MIN_AGE else r.minAge;
    if minAge > 120 then None else Some(Role(winners, selections, minAge, r.order))
  }

  /** CandidateAge: a date of birth that does not parse counts as age 0. */
  function CandidateAge(dob: Option<Calendar.Day>, today: Calendar.Day): int {
    if dob.None? then 0 else Calendar.Age(dob.value, today)
  }

  predicate EligibleForRole(u: User, r: Role, today: Calendar.Day) {
    u.status == Active && CandidateAge(u.dob, today) >= if r.minAge <= 0 then DEFAULT_MIN_AGE else r.minAge
  }

  predicate IsCandidacyOf(db: Db, user: Id, c: Id) {
    c in db.candidacies && db.candidacies[c].user == user
  }

  ghost function CandidacyFor(db: Db, user: Id): (r: Option<Id>)
    ensures r.Some? ==> IsCandidacyOf(db, user, r.value)
    ensures r.None? ==> forall c :: !IsCandidacyOf(db, user, c)
  {
    if exists c :: IsCandidacyOf(db, user, c) then
      var c :| IsCandidacyOf(db, user, c);
      Some(c)
    else None
  }

  /** The argument of a role column: NULL unless a role is given. */
  function RoleOrNone(roleId: Id): Id {
    if roleId > 0 then roleId else 0
  }

  /** COALESCE(MAX(sort_order), 0) of the roles. */
  ghost function LastOrder(roles: map<Id, Role>): int {
    MaxOrZero(set r | r in roles :: roles[r].order)
  }

  predicate HasCredentials(db: Db, u: Id, phone: string, dob: Option<Calendar.Day>, cpr: string) {
    u in db.users && db.users[u].phone == phone && db.users[u].dob == dob && db.users[u].cpr == cpr
  }

  /** FindUserByCredentials. */
  ghost function MemberWith(db: Db, phone: string, dob: Option<Calendar.Day>, cpr: string): (r: Option<Id>)
    ensures r.Some? ==> HasCredentials(db, r.value, phone, dob, cpr)
    ensures r.None? ==> forall u :: !HasCredentials(db, u, phone, dob, cpr)
  {
    if exists u :: HasCredentials(db, u, phone, dob, cpr) then
      var u :| HasCredentials(db, u, phone, dob, cpr);
      Some(u)
    else None
  }

  /** The requests a failed login may be waiting for. */
  function RequestsWith(db: Db, cpr: string, phone: string): set<Id> {
    set a | a in db.applications && (db.applications[a].cpr == cpr || db.applications[a].phone == phone)
  }

  predicate PendingWith(db: Db, a: Id, except: Id) {
    a in db.applications && a != except && db.applications[a].status == Pending
  }

  /** CheckUnique: no member and no other pending request has the number or the phone. */
  ghost predicate Unique(db: Db, cpr: string, phone: string, except: Id) {
    && !CprTaken(db, cpr, 0) && !PhoneTaken(db, phone, 0)
    && (forall a :: PendingWith(db, a, except) ==> db.applications[a].cpr != cpr && db.applications[a].phone != phone)
  }

  predicate Expired(s: Session, now: int) {
    now > s.expires
  }

  /** The writes of an operation whose checks pass; None when a check refuses it. */
  ghost function Plan(db: Db, op: Op): Option<seq<Write>> {
    match op
    case SetVotingStatus(v) => if v == Open && !ValidSetup(db) then None else Some([PutVoting(v)])
    case SaveElectionSettings(mode, title, winners, selections) =>
      if (db.settings.voting == Open && mode != db.settings.mode) || title == "" then None else
      var w := if winners < 1 then 1 else winners;
      Some([PutMode(mode), PutSelections(if selections < 1 then w else selections)])
    case CreateRole(name, role) =>
      var r := NormalizeRole(name, role);
      if r.None? then None else Some([NewRole(r.value.(order := LastOrder(db.roles) + 10))])
    case UpdateRole(id, name, role) =>
      var r := NormalizeRole(name, role);
      if r.None? then None else Some([PutRole(id, r.value)])
    case DeleteRole(id) => if db.settings.voting == Open || id !in db.roles then None else Some([DropRole(id)])
    case CreateParticipant(name, role) => if name == "" then None else Some([NewEntry(RoleOrNone(role))])
    case UpdateParticipant(id, name, role) =>
      if name == "" then None else Some([MoveEntry(id, RoleOrNone(role))])
    case DeleteParticipant(id) =>
      if db.settings.voting == Open || id !in db.participants then None else Some([DropEntry(id)])
    case CastBallot(user, sel) => if !Accepts(db, user, sel) then None else Some([Cast(user, Picks(Order(db), sel))])
    case ResetVotes => if db.settings.voting == Open then None else Some([Reset])
    case SetCandidacyGate(open) =>
      if open && (db.roles == map[] || db.settings.voting != Draft) then None else Some([PutGate(open)])
    case SubmitCandidacy(user, role, today) =>
      if !db.settings.gateOpen || role !in db.roles || user !in db.users
        || !EligibleForRole(db.users[user], db.roles[role], today) then None else
      var existing := CandidacyFor(db, user);
      if existing.None? then Some([NewCandidacy(user, role)])
      else if db.candidacies[existing.value].status == Accepted then None
      else Some([Resubmit(existing.value, role)])
    case ChangeCandidacyRole(id, role, byMember, today) =>
      if (byMember && !db.settings.gateOpen) || id !in db.candidacies || role !in db.roles then None else
      var c := db.candidacies[id];
      if c.user !in db.users || !EligibleForRole(db.users[c.user], db.roles[role], today) then None
      else if byMember && c.status == Accepted then None
      else Some([MoveCandidacy(id, role, c.status == Accepted)])
    case AcceptCandidacy(id) =>
      if id !in db.candidacies || db.candidacies[id].status == Accepted || db.candidacies[id].role == 0 then None
      else Some([Accept(id, db.candidacies[id].role)])
    case ReturnCandidacy(id, note) => if note == "" || id !in db.candidacies then None else Some([Return(id)])
    case CreateApplication(a) => if !Unique(db, a.cpr, a.phone, 0) then None else Some([NewApplication(a)])
    case ApproveApplication(id) =>
      if id !in db.applications || db.applications[id].status != Pending
        || !Unique(db, db.applications[id].cpr, db.applications[id].phone, id) then None
      else Some([Approve(id, db.applications[id])])
    case RejectApplication(id) =>
      if id !in db.applications || db.applications[id].status == Approved then None
      else Some([PutRequestStatus(id, Rejected)])
    case SetApplicationStatus(id, s) =>
      if s == Approved || s == Rejected || id !in db.applications
        || db.applications[id].status == Approved || db.applications[id].status == s then None
      else Some([PutRequestStatus(id, s)])
    case DeleteApplication(id) =>
      if id !in db.applications || db.applications[id].status == Approved then None else Some([DropApplication(id)])
    case UpdateUser(id, cpr, phone, dob) =>
      if CprTaken(db, cpr, id) || PhoneTaken(db, phone, id) then None else Some([PutUser(id, cpr, phone, dob)])
    case SetUserStatus(id, s) =>
      if id !in db.users || db.users[id].status == s then None
      else Some([PutMemberStatus(id, s)] + if s == Active then [] else [DropSessionsOf(id)])
    case DeleteUser(id) => if id !in db.users then None else Some([DropUser(id, db.users[id].application)])
    case Login(phone, dob, cpr, token, expires) =>
      var member := MemberWith(db, phone, dob, cpr);
      if member.None? || db.users[member.value].status == Cancelled then None
      else Some([NewSession(token, Session(Member, member.value, expires))])
    case AdminLogin(kind, id, token, expires) =>
      if kind == Member then None else Some([NewSession(token, Session(kind, id, expires))])
    case Logout(token) => Some([DropSessions({token})])
    case LookupSession(token, now) =>
      Some(if token in db.sessions && Expired(db.sessions[token], now) then [DropSessions({token})] else [])
    case PurgeSessions(now) => Some([DropSessions(set t | t in db.sessions && Expired(db.sessions[t], now))])
  }

  datatype Outcome = Outcome(db: Db, ok: bool)

  /** The writes one after the other, up to the first that the constraints reject. */
  function RunWrites(db: Db, writes: seq<Write>): Outcome
    decreases |writes|
  {
    if writes == [] then Outcome(db, true) else
    var next := Exec(db, writes[0]);
    if next.None? then Outcome(db, false) else RunWrites(next.value, writes[1..])
  }

  ghost function Apply(db: Db, op: Op): Outcome {
    var plan := Plan(db, op);
    if plan.None? then Outcome(db, false) else RunWrites(db, plan.value)
  }

  /** The state after a run of operations, whether each of them succeeded or was refused. */
  ghost function Run(db: Db, ops: seq<Op>): Db {
    if ops == [] then db else Apply(Run(db, ops[..|ops| - 1]), ops[|ops| - 1]).db
  }

  /** A database as installed: default settings, and the members of the seed file. */
  ghost predicate Installed(db: Db) {
    && db.settings == Settings(Draft, ByRole, false, 1)
    && db.applications == map[] && db.sessions == map[] && db.roles == map[] && db.participants == map[]
    && db.candidacies == map[] && db.ballots == map[] && db.votes == map[]
    && IdsHandedOut(db) && UniqueCpr(db.users)
    && forall u :: u in db.users ==> db.users[u].application == 0 && db.users[u].status == Active
  }

  // ------------------------------------------------------------ integrity in every run

  lemma {:induction false} RunWritesKeepIntegrity(db: Db, writes: seq<Write>)
    requires Integrity(db)
    ensures Integrity(RunWrites(db, writes).db)
    decreases |writes|
  {
    hide Integrity, Exec;
    if writes != [] {
      var next := Exec(db, writes[0]);
      if next.Some? {
        ExecKeepsIntegrity(db, writes[0]);
        RunWritesKeepIntegrity(next.value, writes[1..]);
      }
    }
  }

  lemma ApplyKeepsIntegrity(db: Db, op: Op)
    requires Integrity(db)
    ensures Integrity(Apply(db, op).db)
  {
    hide Integrity, Plan;
    if Plan(db, op).Some? { RunWritesKeepIntegrity(db, Plan(db, op).value); }
  }

  lemma {:induction false} RunKeepsIntegrity(db: Db, ops: seq<Op>)
    requires Integrity(db)
    ensures Integrity(Run(db, ops))
  {
    hide Integrity, Apply;
    if ops != [] {
      RunKeepsIntegrity(db, ops[..|ops| - 1]);
      ApplyKeepsIntegrity(Run(db, ops[..|ops| - 1]), ops[|ops| - 1]);
    }
  }

  /** A plan of one write is that write, or a refusal that changes nothing. */
  lemma OneWrite(db: Db, w: Write)
    ensures RunWrites(db, [w]) ==
      match Exec(db, w) case None => Outcome(db, false) case Some(db') => Outcome(db', true)
  {
    hide Exec;
    assert [w][1..] == [];
  }

  /** An operation that plans one write does what that write does. */
  lemma Planned(db: Db, op: Op, w: Write)
    requires Plan(db, op) == Some([w])
    ensures Apply(db, op) ==
      match Exec(db, w) case None => Outcome(db, false) case Some(db') => Outcome(db', true)
  {
    hide Plan, Exec;
    OneWrite(db, w);
  }

  /** A ballot that is accepted does what its transaction does. */
  lemma CastPlanned(db: Db, user: Id, sel: Selections)
    ensures Apply(db, CastBallot(user, sel)) ==
      if !Accepts(db, user, sel) then Outcome(db, false)
      else
        var result := Exec(db, Cast(user, Picks(Order(db), sel)));
        if result.None? then Outcome(db, false) else Outcome(result.value, true)
  {
    hide Accepts, Exec, Picks, Order;
    if Accepts(db, user, sel) { Planned(db, CastBallot(user, sel), Cast(user, Picks(Order(db), sel))); }
  }

  /** All operations but two issue at most one write. */
  lemma PlanLength(db: Db, op: Op)
    requires Plan(db, op).Some? && !op.SaveElectionSettings? && !op.SetUserStatus?
    ensures |Plan(db, op).value| <= 1
  {
  }

  /** The two operations that issue two writes issue only writes no constraint can reject. */
  lemma TwoWritesSucceed(db: Db, op: Op)
    requires Plan(db, op).Some? && (op.SaveElectionSettings? || op.SetUserStatus?)
    ensures Apply(db, op).ok
  {
    var ws := Plan(db, op).value;
    if |ws| == 2 {
      assert ws[1..] == [ws[1]];
      OneWrite(Exec(db, ws[0]).value, ws[1]);
    } else {
      assert ws == [ws[0]];
      OneWrite(db, ws[0]);
    }
  }

  /** Refused operations change nothing. */
  lemma RefusalChangesNothing(db: Db, op: Op)
    requires !Apply(db, op).ok
    ensures Apply(db, op).db == db
  {
    hide Plan, Exec;
    var plan := Plan(db, op);
    if plan.Some? {
      if op.SaveElectionSettings? || op.SetUserStatus? {
        TwoWritesSucceed(db, op);
      } else {
        PlanLength(db, op);
        if plan.value != [] {
          assert plan.value == [plan.value[0]];
          OneWrite(db, plan.value[0]);
        }
      }
    }
  }
}
