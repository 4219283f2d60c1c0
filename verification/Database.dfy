// The tables of internal/store/store.go and the statements the store runs on
// them, with the schema's keys, UNIQUE constraints and cascades. One write is
// one SQL statement or one transaction: the store has a single connection, so
// each of them is atomic.
module Database {
  import opened Prelude
  import Calendar

  type Id = int

  datatype MemberStatus = Active | Suspended | Cancelled
  datatype User = User(cpr: string, phone: string, dob: Option<Calendar.Day>, status: MemberStatus, application: Id)

  datatype RequestStatus = Pending | Approved | Rejected | OnHold | Withdrawn
  datatype Application =
    Application(cpr: string, phone: string, dob: Option<Calendar.Day>, status: RequestStatus)

  datatype Subject = Member | MembershipAdmin | ElectionsAdmin
  datatype Session = Session(kind: Subject, subject: Id, expires: int)

  datatype Role = Role(winners: int, selections: int, minAge: int, order: int)
  datatype Participant = Participant(role: Id, candidacy: Id)
  datatype CandidacyStatus = Submitted | Accepted | Returned
  datatype Candidacy = Candidacy(user: Id, role: Id, status: CandidacyStatus)
  datatype Vote = Vote(ballot: Id, user: Id, role: Id, participant: Id)

  datatype Voting = Draft | Open | Closed
  datatype Mode = ByRole | SinglePage
  datatype Settings = Settings(voting: Voting, mode: Mode, gateOpen: bool, singleSelections: int)

  /** sqlite_sequence: the next id of every AUTOINCREMENT table. Ids are never used twice. */
  datatype Counters = Counters(
    user: Id, application: Id, role: Id, participant: Id, candidacy: Id, ballot: Id, vote: Id)

  /** A role, application or candidacy id of 0 stands for NULL. A ballot row holds its user. */
  datatype Db = Db(
    settings: Settings,
    users: map<Id, User>,
    applications: map<Id, Application>,
    sessions: map<string, Session>,
    roles: map<Id, Role>,
    participants: map<Id, Participant>,
    candidacies: map<Id, Candidacy>,
    ballots: map<Id, Id>,
    votes: map<Id, Vote>,
    next: Counters)

  // ------------------------------------------------------------ queries

  /** Participants: the candidates of a role, or those without one for role 0. */
  function Entries(db: Db, role: Id): set<Id> {
    set p | p in db.participants && db.participants[p].role == role
  }

  /** The ballot entries a candidacy has. */
  function EntriesOf(db: Db, candidacy: Id): set<Id> {
    set p | p in db.participants && db.participants[p].candidacy == candidacy
  }

  predicate HasVoted(db: Db, user: Id) {
    exists b :: b in db.ballots && db.ballots[b] == user
  }

  function VotesFor(db: Db, participant: Id): set<Id> {
    set v | v in db.votes && db.votes[v].participant == participant
  }

  function Tally(db: Db, participant: Id): nat {
    |VotesFor(db, participant)|
  }

  // ------------------------------------------------------------ deletes with their cascades

  function DeleteBallots(db: Db, ballots: set<Id>): Db {
    db.(ballots := db.ballots - ballots,
        votes := db.votes - set v | v in db.votes && db.votes[v].ballot in ballots)
  }

  function DeleteEntries(db: Db, entries: set<Id>): Db {
    db.(participants := db.participants - entries,
        votes := db.votes - set v | v in db.votes && db.votes[v].participant in entries)
  }

  function DeleteRoleRow(db: Db, role: Id): Db {
    DeleteEntries(db, if role == 0 then {} else Entries(db, role)).(roles := db.roles - {role})
  }

  function DeleteUserRow(db: Db, user: Id): Db {
    DeleteBallots(db, set b | b in db.ballots && db.ballots[b] == user)
      .(candidacies := db.candidacies - (set c | c in db.candidacies && db.candidacies[c].user == user),
        users := db.users - {user})
  }

  // ------------------------------------------------------------ inserts with their constraints

  /** INSERT INTO ballots: the user must exist and must not have a ballot. */
  function InsertBallot(db: Db, user: Id): Option<Db> {
    if user !in db.users || HasVoted(db, user) then None
    else Some(db.(ballots := db.ballots[db.next.ballot := user],
                  next := db.next.(ballot := db.next.ballot + 1)))
  }

  /** INSERT INTO votes: ballot and participant must exist, one vote per user and participant. */
  function InsertVote(db: Db, vote: Vote): Option<Db> {
    if vote.ballot !in db.ballots || vote.participant !in db.participants then None
    else if exists v :: v in db.votes && SameVoteKey(db.votes[v], vote) then None
    else Some(db.(votes := db.votes[db.next.vote := vote], next := db.next.(vote := db.next.vote + 1)))
  }

  /** A pick is a section and a participant chosen in it. */
  type Pick = (Id, Id)

  /** The votes of one ballot, inserted one after the other. */
  function InsertVotes(db: Db, ballot: Id, user: Id, picks: seq<Pick>): Option<Db>
    decreases |picks|
  {
    if picks == [] then Some(db) else
    var first := InsertVote(db, Vote(ballot, user, picks[0].0, picks[0].1));
    if first.None? then None else InsertVotes(first.value, ballot, user, picks[1..])
  }

  function InsertEntry(db: Db, entry: Participant): Option<Db> {
    if entry.role != 0 && entry.role !in db.roles then None
    else Some(db.(participants := db.participants[db.next.participant := entry],
                  next := db.next.(participant := db.next.participant + 1)))
  }

  function WithRole(rows: map<Id, Participant>, entries: set<Id>, role: Id): (r: map<Id, Participant>)
    ensures r.Keys == rows.Keys
    ensures forall p :: p in rows ==> r[p] == if p in entries then rows[p].(role := role) else rows[p]
  {
    map p | p in rows :: if p in entries then rows[p].(role := role) else rows[p]
  }

  /** UPDATE participants SET role_id: the foreign key is checked when a row changes. */
  function PutEntryRole(db: Db, entries: set<Id>, role: Id): Option<Db> {
    if entries == {} then Some(db)
    else if role != 0 && role !in db.roles then None
    else Some(db.(participants := WithRole(db.participants, entries, role)))
  }

  /** UPDATE candidacies SET ... WHERE id = ?: nothing changes when the row is gone. */
  function PutCandidacy(db: Db, id: Id, role: Option<Id>, status: Option<CandidacyStatus>): Db {
    if id !in db.candidacies then db else
    var c := db.candidacies[id];
    db.(candidacies := db.candidacies[id := Candidacy(c.user,
      if role.Some? then role.value else c.role, if status.Some? then status.value else c.status)])
  }

  predicate CprTaken(db: Db, cpr: string, except: Id) {
    exists u :: u in db.users && u != except && db.users[u].cpr == cpr
  }

  predicate PhoneTaken(db: Db, phone: string, except: Id) {
    exists u :: u in db.users && u != except && db.users[u].phone == phone
  }

  // ------------------------------------------------------------ writes

  datatype Write =
    | PutVoting(voting: Voting)
    | PutMode(mode: Mode)
    | PutGate(open: bool)
    | PutSelections(count: int)
    | NewRole(role: Role)
    | PutRole(id: Id, role: Role)
    | DropRole(id: Id)
    | NewEntry(roleId: Id)
    | MoveEntry(id: Id, roleId: Id)
    | DropEntry(id: Id)
    | NewCandidacy(user: Id, roleId: Id)
    | Resubmit(id: Id, roleId: Id)
    | MoveCandidacy(id: Id, roleId: Id, withEntry: bool)
    | Accept(id: Id, roleId: Id)
    | Return(id: Id)
    | Cast(user: Id, picks: seq<Pick>)
    | Reset
    | NewApplication(application: Application)
    | PutRequestStatus(id: Id, request: RequestStatus)
    | DropApplication(id: Id)
    | Approve(id: Id, application: Application)
    | PutUser(id: Id, cpr: string, phone: string, dob: Option<Calendar.Day>)
    | PutMemberStatus(id: Id, status: MemberStatus)
    | DropSessionsOf(user: Id)
    | DropUser(id: Id, applicationId: Id)
    | NewSession(token: string, session: Session)
    | DropSessions(tokens: set<string>)

  /** One write; None is a constraint violation, and then nothing was written. */
  function Exec(db: Db, w: Write): Option<Db> {
    match w
    case PutVoting(v) => Some(db.(settings := db.settings.(voting := v)))
    case PutMode(m) => Some(db.(settings := db.settings.(mode := m)))
    case PutGate(open) => Some(db.(settings := db.settings.(gateOpen := open)))
    case PutSelections(n) => Some(db.(settings := db.settings.(singleSelections := n)))
    case NewRole(role) =>
      Some(db.(roles := db.roles[db.next.role := role], next := db.next.(role := db.next.role + 1)))
    case PutRole(id, role) => Some(if id in db.roles then db.(roles := db.roles[id := role]) else db)
    case DropRole(id) => Some(DeleteRoleRow(db, id))
    case NewEntry(role) => InsertEntry(db, Participant(role, 0))
    case MoveEntry(id, role) => PutEntryRole(db, {id} * db.participants.Keys, role)
    case DropEntry(id) => Some(DeleteEntries(db, {id}))
    case NewCandidacy(user, role) =>
      if user !in db.users || (exists c :: c in db.candidacies && db.candidacies[c].user == user) then None
      else Some(db.(candidacies := db.candidacies[db.next.candidacy := Candidacy(user, role, Submitted)],
                    next := db.next.(candidacy := db.next.candidacy + 1)))
    case Resubmit(id, role) => Some(PutCandidacy(db, id, Some(role), Some(Submitted)))
    case MoveCandidacy(id, role, withEntry) =>
      var moved := PutCandidacy(db, id, Some(role), None);
      if withEntry then PutEntryRole(moved, EntriesOf(moved, id), role) else Some(moved)
    case Accept(id, role) =>
      var accepted := PutCandidacy(db, id, None, Some(Accepted));
      if EntriesOf(accepted, id) == {} then InsertEntry(accepted, Participant(role, id))
      else PutEntryRole(accepted, EntriesOf(accepted, id), role)
    case Return(id) =>
      var returned := PutCandidacy(db, id, None, Some(Returned));
      Some(DeleteEntries(returned, EntriesOf(returned, id)))
    case Cast(user, picks) =>
      var ballot := InsertBallot(db, user);
      if ballot.None? then None else InsertVotes(ballot.value, db.next.ballot, user, picks)
    case Reset => Some(db.(votes := map[], ballots := map[]))
    case NewApplication(a) =>
      Some(db.(applications := db.applications[db.next.application := a.(status := Pending)],
               next := db.next.(application := db.next.application + 1)))
    case PutRequestStatus(id, s) =>
      Some(if id in db.applications
           then db.(applications := db.applications[id := db.applications[id].(status := s)]) else db)
    case DropApplication(id) => Some(db.(applications := db.applications - {id}))
    case Approve(id, a) =>
      if CprTaken(db, a.cpr, 0) then None else
      var user := User(a.cpr, a.phone, a.dob, Active, id);
      Some(db.(users := db.users[db.next.user := user], next := db.next.(user := db.next.user + 1),
               applications := if id in db.applications
                 then db.applications[id := db.applications[id].(status := Approved)] else db.applications))
    case PutUser(id, cpr, phone, dob) =>
      if id !in db.users then Some(db)
      else if CprTaken(db, cpr, id) then None
      else Some(db.(users := db.users[id := db.users[id].(cpr := cpr, phone := phone, dob := dob)]))
    case PutMemberStatus(id, s) =>
      Some(if id in db.users then db.(users := db.users[id := db.users[id].(status := s)]) else db)
    case DropSessionsOf(user) =>
      Some(db.(sessions := db.sessions - MemberTokens(db, user)))
    case DropUser(id, application) =>
      Some(DeleteUserRow(DropRequestAndSessions(DropVoter(db, id), id, application), id))
    case NewSession(token, session) =>
      if token in db.sessions then None else Some(db.(sessions := db.sessions[token := session]))
    case DropSessions(tokens) => Some(db.(sessions := db.sessions - tokens))
  }

  /** DELETE FROM votes WHERE user_id, then DELETE FROM ballots WHERE user_id. */
  function DropVoter(db: Db, user: Id): Db {
    var db' := db.(votes := db.votes - set v | v in db.votes && db.votes[v].user == user);
    DeleteBallots(db', set b | b in db.ballots && db.ballots[b] == user)
  }

  function DropRequestAndSessions(db: Db, user: Id, application: Id): Db {
    db.(sessions := db.sessions - MemberTokens(db, user),
        applications := if application > 0 then db.applications - {application} else db.applications)
  }

  function MemberTokens(db: Db, user: Id): set<string> {
    set t | t in db.sessions && db.sessions[t].kind == Member && db.sessions[t].subject == user
  }

  // ------------------------------------------------------------ integrity

  /** Ids start at 1 and stay below the next one. */
  ghost predicate Below(ids: set<Id>, next: Id) {
    next > 0 && forall i :: i in ids ==> 0 < i < next
  }

  /** No row has an id that is not handed out yet. */
  ghost predicate IdsHandedOut(db: Db) {
    && Below(db.users.Keys, db.next.user) && Below(db.applications.Keys, db.next.application)
    && Below(db.roles.Keys, db.next.role) && Below(db.participants.Keys, db.next.participant)
    && Below(db.candidacies.Keys, db.next.candidacy) && Below(db.ballots.Keys, db.next.ballot)
    && Below(db.votes.Keys, db.next.vote)
  }

  ghost predicate EntriesHaveRoles(participants: map<Id, Participant>, roles: set<Id>) {
    forall p :: p in participants ==> participants[p].role == 0 || participants[p].role in roles
  }

  ghost predicate CandidaciesHaveUsers(candidacies: map<Id, Candidacy>, users: set<Id>) {
    forall c :: c in candidacies ==> candidacies[c].user in users
  }

  ghost predicate BallotsHaveUsers(ballots: map<Id, Id>, users: set<Id>) {
    forall b :: b in ballots ==> ballots[b] in users
  }

  /** Every vote points to a ballot, and carries the user of that ballot. */
  ghost predicate VotesHaveBallots(votes: map<Id, Vote>, ballots: map<Id, Id>) {
    forall v :: v in votes ==> votes[v].ballot in ballots && ballots[votes[v].ballot] == votes[v].user
  }

  ghost predicate VotesHaveEntries(votes: map<Id, Vote>, participants: set<Id>) {
    forall v :: v in votes ==> votes[v].participant in participants
  }

  ghost predicate OneBallotEach(ballots: map<Id, Id>) {
    forall a, b :: a in ballots && b in ballots && ballots[a] == ballots[b] ==> a == b
  }

  /** The columns of the unique index on votes. */
  predicate SameVoteKey(v: Vote, w: Vote) {
    v.user == w.user && v.participant == w.participant
  }

  ghost predicate OneVotePerCandidate(votes: map<Id, Vote>) {
    forall v, w :: v in votes && w in votes && SameVoteKey(votes[v], votes[w]) ==> v == w
  }

  ghost predicate OneCandidacyEach(candidacies: map<Id, Candidacy>) {
    forall c, d :: c in candidacies && d in candidacies && candidacies[c].user == candidacies[d].user ==> c == d
  }

  predicate SameCandidacy(p: Participant, q: Participant) {
    p.candidacy != 0 && p.candidacy == q.candidacy
  }

  ghost predicate OneEntryEach(participants: map<Id, Participant>) {
    forall p, q :: p in participants && q in participants && SameCandidacy(participants[p], participants[q]) ==> p == q
  }

  ghost predicate UniqueCpr(users: map<Id, User>) {
    forall u, w :: u in users && w in users && users[u].cpr == users[w].cpr ==> u == w
  }

  /** Every key, reference and uniqueness the schema declares, and the owner of a vote. */
  ghost predicate Integrity(db: Db) {
    && IdsHandedOut(db)
    && EntriesHaveRoles(db.participants, db.roles.Keys) && CandidaciesHaveUsers(db.candidacies, db.users.Keys)
    && BallotsHaveUsers(db.ballots, db.users.Keys)
    && VotesHaveBallots(db.votes, db.ballots) && VotesHaveEntries(db.votes, db.participants.Keys)
    && OneBallotEach(db.ballots) && OneVotePerCandidate(db.votes) && OneCandidacyEach(db.candidacies)
    && OneEntryEach(db.participants) && UniqueCpr(db.users)
  }
}
