// From request to login, over any run: what a request says is what the member it
// becomes can log in with.
module Admission {
  import opened Prelude
  import opened Database
  import opened Ballots
  import opened IntegrityKept
  import opened Operations
  import opened Outcomes
  import opened Membership
  import Calendar

  predicate SameRequest(a: Application, b: Application) {
    a.cpr == b.cpr && a.phone == b.phone && a.dob == b.dob
  }

  predicate SameMember(a: User, b: User) {
    a.cpr == b.cpr && a.phone == b.phone && a.dob == b.dob
  }

  /** A row that was there before and is there now holds the same data. */
  predicate RequestStays(before: Db, after: Db, id: Id) {
    && before.next.application <= after.next.application
    && (id < before.next.application && id in after.applications ==>
          id in before.applications && SameRequest(before.applications[id], after.applications[id]))
  }

  predicate MemberStays(before: Db, after: Db, u: Id) {
    && before.next.user <= after.next.user
    && (u < before.next.user && u in after.users ==> u in before.users && SameMember(before.users[u], after.users[u]))
  }

  // ------------------------------------------------------------ one write

  lemma CountersStay(db: Db, w: Write)
    requires Exec(db, w).Some? && (IsElectionWrite(w) || IsCandidacyWrite(w) || IsSessionWrite(w))
    ensures var after := Exec(db, w).value;
      after.next.user == db.next.user && after.next.application == db.next.application
  {
    hide EntriesOf, Entries, MemberTokens, WithRole;
    if w.Cast? {
      InsertVotesFrame(InsertBallot(db, w.user).value, db.next.ballot, w.user, w.picks);
    } else if IsCandidacyWrite(w) {
      hide Exec;
      CandidacyCountersStay(db, w);
    }
  }

  lemma CandidacyCountersStay(db: Db, w: Write)
    requires Exec(db, w).Some? && IsCandidacyWrite(w)
    ensures var after := Exec(db, w).value;
      after.next.user == db.next.user && after.next.application == db.next.application
  {
    hide EntriesOf, Entries, WithRole, DeleteRoleRow, InsertBallot, InsertVotes, MemberTokens, DeleteUserRow;
    hide DropRequestAndSessions, DropVoter, CprTaken;
  }

  lemma RequestWriteStays(db: Db, w: Write, id: Id, u: Id)
    requires Exec(db, w).Some? && (w.NewApplication? || w.PutRequestStatus? || w.DropApplication?)
    ensures RequestStays(db, Exec(db, w).value, id) && MemberStays(db, Exec(db, w).value, u)
  {
    hide CprTaken, PutCandidacy, PutEntryRole, EntriesOf, DeleteEntries, DeleteRoleRow, InsertEntry, InsertBallot;
    hide InsertVotes, MemberTokens, DeleteUserRow, DropRequestAndSessions, DropVoter;
  }

  lemma ApprovalStays(db: Db, w: Write, id: Id, u: Id)
    requires Exec(db, w).Some? && w.Approve?
    ensures RequestStays(db, Exec(db, w).value, id) && MemberStays(db, Exec(db, w).value, u)
  {
    hide CprTaken, PutCandidacy, PutEntryRole, EntriesOf, DeleteEntries, DeleteRoleRow, InsertEntry, InsertBallot;
    hide InsertVotes, MemberTokens, DeleteUserRow, DropRequestAndSessions, DropVoter;
  }

  lemma MemberWriteStays(db: Db, w: Write, id: Id, u: Id)
    requires Exec(db, w).Some? && (w.PutUser? || w.PutMemberStatus?)
    requires w.PutUser? ==> w.id != u
    ensures RequestStays(db, Exec(db, w).value, id) && MemberStays(db, Exec(db, w).value, u)
  {
    hide CprTaken, PutCandidacy, PutEntryRole, EntriesOf, DeleteEntries, DeleteRoleRow, InsertEntry, InsertBallot;
    hide InsertVotes, MemberTokens, DeleteUserRow, DropRequestAndSessions, DropVoter;
  }

  lemma DeletionStays(db: Db, w: Write, id: Id, u: Id)
    requires w.DropUser?
    ensures Exec(db, w).Some?
    ensures RequestStays(db, Exec(db, w).value, id) && MemberStays(db, Exec(db, w).value, u)
  {
    hide MemberTokens;
  }

  lemma WriteStays(db: Db, w: Write, id: Id, u: Id)
    requires Exec(db, w).Some? && (w.PutUser? ==> w.id != u)
    ensures RequestStays(db, Exec(db, w).value, id) && MemberStays(db, Exec(db, w).value, u)
  {
    hide Exec;
    if IsElectionWrite(w) || IsCandidacyWrite(w) || IsSessionWrite(w) {
      SameRegister(db, w);
      CountersStay(db, w);
    } else {
      if w.DropUser? {
        DeletionStays(db, w, id, u);
      } else if w.PutUser? || w.PutMemberStatus? {
        MemberWriteStays(db, w, id, u);
      } else if w.Approve? {
        ApprovalStays(db, w, id, u);
      } else {
        RequestWriteStays(db, w, id, u);
      }
    }
  }

  // ------------------------------------------------------------ every run

  predicate Edits(op: Op, u: Id) {
    op.UpdateUser? && op.id == u
  }

  lemma PlansEdit(db: Db, op: Op, u: Id)
    requires Plan(db, op).Some? && !Edits(op, u)
    ensures forall k :: 0 <= k < |Plan(db, op).value| ==>
      Plan(db, op).value[k].PutUser? ==> Plan(db, op).value[k].id != u
  {
  }

  lemma {:induction false} WritesStay(db: Db, writes: seq<Write>, id: Id, u: Id)
    requires forall k :: 0 <= k < |writes| ==> writes[k].PutUser? ==> writes[k].id != u
    ensures RequestStays(db, RunWrites(db, writes).db, id) && MemberStays(db, RunWrites(db, writes).db, u)
    decreases |writes|
  {
    hide Exec;
    if writes != [] {
      var next := Exec(db, writes[0]);
      if next.Some? {
        WriteStays(db, writes[0], id, u);
        WritesStay(next.value, writes[1..], id, u);
      }
    }
  }

  lemma OperationStays(db: Db, op: Op, id: Id, u: Id)
    requires !Edits(op, u)
    ensures RequestStays(db, Apply(db, op).db, id) && MemberStays(db, Apply(db, op).db, u)
  {
    hide Plan, RunWrites;
    if Plan(db, op).Some? {
      PlansEdit(db, op, u);
      WritesStay(db, Plan(db, op).value, id, u);
    }
  }

  /** Over any run a request keeps its data, and so does a member nobody edits. */
  lemma {:induction false} RunStays(db: Db, ops: seq<Op>, id: Id, u: Id)
    requires forall k :: 0 <= k < |ops| ==> !Edits(ops[k], u)
    ensures RequestStays(db, Run(db, ops), id) && MemberStays(db, Run(db, ops), u)
  {
    hide Apply;
    if ops != [] {
      var before := ops[..|ops| - 1];
      RunStays(db, before, id, u);
      OperationStays(Run(db, before), ops[|ops| - 1], id, u);
    }
  }

  /** Over any run at all a request keeps its data. */
  lemma {:induction false} RequestsKeepTheirData(db: Db, ops: seq<Op>, id: Id)
    ensures RequestStays(db, Run(db, ops), id)
  {
    hide Apply;
    if ops != [] {
      var before, op := ops[..|ops| - 1], ops[|ops| - 1];
      RequestsKeepTheirData(db, before, id);
      OperationStays(Run(db, before), op, id, if op.UpdateUser? then op.id + 1 else 0);
    }
  }

  /**
   * Whatever else happens in between: a request that is made and later approved gives
   * a member who logs in with the phone, birthday and number of the request, as long as
   * the member is there, not cancelled, and nobody edited these.
   */
  lemma ApplicantGetsIn(db: Db, a: Application, until: seq<Op>, later: seq<Op>, token: string, expires: int)
    requires Integrity(db) && Apply(db, Op.CreateApplication(a)).ok
    requires var waiting := Run(Apply(db, Op.CreateApplication(a)).db, until);
      && Apply(waiting, Op.ApproveApplication(db.next.application)).ok
      && (forall k :: 0 <= k < |later| ==> !Edits(later[k], waiting.next.user))
    ensures var waiting := Run(Apply(db, Op.CreateApplication(a)).db, until);
      var now := Run(Apply(waiting, Op.ApproveApplication(db.next.application)).db, later);
      var u := waiting.next.user;
      u in now.users && now.users[u].status != Cancelled && token !in now.sessions ==>
        Apply(now, Op.Login(a.phone, a.dob, a.cpr, token, expires)) ==
          Outcome(now.(sessions := now.sessions[token := Session(Member, u, expires)]), true)
  {
    hide Apply, Run, Integrity;
    var id := db.next.application;
    var asked := Apply(db, Op.CreateApplication(a)).db;
    RequestMade(db, a);
    var waiting := Run(asked, until);
    RequestsKeepTheirData(asked, until, id);
    RunKeepsIntegrity(asked, until);
    RequestApproved(waiting, id);
    var joined := Apply(waiting, Op.ApproveApplication(id)).db;
    var u, now := waiting.next.user, Run(joined, later);
    RunStays(joined, later, id, u);
    RunKeepsIntegrity(joined, later);
    NumbersAreUnique(now);
    if u in now.users { LoginLeaves(now, u, a.phone, a.dob, a.cpr, token, expires); }
  }

  lemma RequestMade(db: Db, a: Application)
    requires Integrity(db) && Apply(db, Op.CreateApplication(a)).ok
    ensures var asked, id := Apply(db, Op.CreateApplication(a)).db, db.next.application;
      && Integrity(asked) && id < asked.next.application
      && id in asked.applications && asked.applications[id] == Application(a.cpr, a.phone, a.dob, Pending)
  {
    ApplyKeepsIntegrity(db, Op.CreateApplication(a));
    CreateApplicationLeaves(db, a);
    hide Apply, Integrity;
  }

  lemma RequestApproved(db: Db, id: Id)
    requires Integrity(db) && Apply(db, Op.ApproveApplication(id)).ok
    ensures id in db.applications
    ensures var joined, a, u := Apply(db, Op.ApproveApplication(id)).db, db.applications[id], db.next.user;
      && Integrity(joined) && u < joined.next.user
      && u in joined.users && joined.users[u] == User(a.cpr, a.phone, a.dob, Active, id)
  {
    ApplyKeepsIntegrity(db, Op.ApproveApplication(id));
    ApproveApplicationLeaves(db, id);
    hide Apply, Integrity;
  }

  lemma NumbersAreUnique(db: Db)
    requires Integrity(db)
    ensures UniqueCpr(db.users)
  {
  }
}
