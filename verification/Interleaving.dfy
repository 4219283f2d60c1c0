// CastBallot of internal/store/elections.go statement by statement, any number of
// calls at once, interleaved with every write any other operation may issue. Only
// the database is shared; a transaction is one step, for there is one connection.
module Interleaving {
  import opened Prelude
  import opened Database
  import opened IntegrityKept
  import opened Ballots
  import opened Operations

  /** Where a call stands: the statement it runs next, and what it has read so far. */
  datatype Stage =
    | Status
    | Membership
    | Voted
    | ReadMode
    | SingleCandidates
    | SingleAllowance(valid: set<Id>)
    | RoleList
    | RoleCandidates(todo: seq<(Id, int)>, checks: seq<Check>)
    | Transaction(checks: seq<Check>)
    | Finished(ok: bool)

  datatype Call = Call(user: Id, sel: Selections, stage: Stage)

  type CallId = nat

  datatype System = System(db: Db, calls: map<CallId, Call>)

  datatype Step =
    | Begin(call: CallId, user: Id, sel: Selections)
    | Advance(call: CallId, order: seq<Id>)
    | Other(write: Write)

  // ------------------------------------------------------------ one call

  function RoleAllowances(roles: map<Id, Role>, order: seq<Id>): seq<(Id, int)>
    requires forall k :: 0 <= k < |order| ==> order[k] in roles
  {
    if order == [] then [] else [(order[0], roles[order[0]].selections)] + RoleAllowances(roles, order[1..])
  }

  /** The stage after the last read: the checks are evaluated before the transaction begins. */
  ghost function Evaluate(checks: seq<Check>, sel: Selections): Stage {
    if ValidAll(checks, sel) then Transaction(checks) else Finished(false)
  }

  /** The next statement of a call. Only the transaction can change the database. */
  ghost function Next(db: Db, c: Call, order: seq<Id>): (Db, Stage) {
    match c.stage
    case Status => (db, if db.settings.voting == Open then Membership else Finished(false))
    case Membership =>
      (db, if c.user in db.users && db.users[c.user].status == Active then Voted else Finished(false))
    case Voted => (db, if HasVoted(db, c.user) then Finished(false) else ReadMode)
    case ReadMode => (db, if db.settings.mode == SinglePage then SingleCandidates else RoleList)
    case SingleCandidates => (db, SingleAllowance(Entries(db, 0)))
    case SingleAllowance(valid) => (db, Evaluate([Check(0, SingleSelections(db.settings), valid)], c.sel))
    case RoleList =>
      (db, if Enumerates(order, db.roles.Keys)
           then (var todo := RoleAllowances(db.roles, order);
                 if todo == [] then Evaluate([], c.sel) else RoleCandidates(todo, []))
           else RoleList)
    case RoleCandidates(todo, checks) =>
      if todo == [] then (db, Evaluate(checks, c.sel)) else
      var more := checks + [Check(todo[0].0, todo[0].1, Entries(db, todo[0].0))];
      (db, if |todo| == 1 then Evaluate(more, c.sel) else RoleCandidates(todo[1..], more))
    case Transaction(checks) =>
      var result := Exec(db, Cast(c.user, CheckedPicks(checks, c.sel)));
      if result.Some? then (result.value, Finished(true)) else (db, Finished(false))
    case Finished(ok) => (db, Finished(ok))
  }

  // ------------------------------------------------------------ the system

  ghost predicate Enabled(s: System, step: Step) {
    match step
    case Begin(call, _, _) => call !in s.calls
    case Advance(call, _) => call in s.calls && !s.calls[call].stage.Finished?
    case Other(w) => !w.Cast?
  }

  ghost function Take(s: System, step: Step): System
    requires Enabled(s, step)
  {
    match step
    case Begin(call, user, sel) => s.(calls := s.calls[call := Call(user, sel, Status)])
    case Advance(call, order) =>
      var next := Next(s.db, s.calls[call], order);
      System(next.0, s.calls[call := s.calls[call].(stage := next.1)])
    case Other(w) =>
      var result := Exec(s.db, w);
      if result.Some? then s.(db := result.value) else s
  }

  /** States `states[0], states[1], ...` linked by the steps, whatever their order. */
  ghost predicate IsRun(states: seq<System>, steps: seq<Step>) {
    && |states| == |steps| + 1 && Integrity(states[0].db) && states[0].calls == map[]
    && forall k :: 0 <= k < |steps| ==> Enabled(states[k], steps[k]) && states[k + 1] == Take(states[k], steps[k])
  }

  /** The call made by a step ends successfully in it, for this user. */
  ghost predicate Succeeds(states: seq<System>, steps: seq<Step>, k: nat, user: Id)
    requires IsRun(states, steps) && k < |steps|
  {
    && steps[k].Advance? && states[k].calls[steps[k].call].user == user
    && states[k + 1].calls[steps[k].call].stage == Finished(true)
  }

  /** The user has a ballot before step `k` and none after it. */
  ghost predicate Removes(states: seq<System>, k: nat, user: Id)
    requires k + 1 < |states|
  {
    HasVoted(states[k].db, user) && !HasVoted(states[k + 1].db, user)
  }

  // ------------------------------------------------------------ what every interleaving keeps

  lemma StepKeepsIntegrity(s: System, step: Step)
    requires Integrity(s.db) && Enabled(s, step)
    ensures Integrity(Take(s, step).db)
  {
    hide Integrity, Exec;
    match step
    case Begin(_, _, _) =>
    case Advance(call, order) =>
      var c := s.calls[call];
      if c.stage.Transaction? {
        var w := Cast(c.user, CheckedPicks(c.stage.checks, c.sel));
        if Exec(s.db, w).Some? { ExecKeepsIntegrity(s.db, w); }
      }
    case Other(w) => if Exec(s.db, w).Some? { ExecKeepsIntegrity(s.db, w); }
  }

  lemma {:induction false} EveryStateIsSound(states: seq<System>, steps: seq<Step>, k: nat)
    requires IsRun(states, steps) && k < |states|
    ensures Integrity(states[k].db)
  {
    hide Integrity, Take, Enabled;
    if k > 0 {
      EveryStateIsSound(states, steps, k - 1);
      assert Enabled(states[k - 1], steps[k - 1]) && states[k - 1 + 1] == Take(states[k - 1], steps[k - 1]);
      StepKeepsIntegrity(states[k - 1], steps[k - 1]);
    }
  }

  /** Under every interleaving no user ever has two ballots, and every vote belongs to its user's one ballot. */
  lemma AtMostOneBallot(states: seq<System>, steps: seq<Step>, k: nat, a: Id, b: Id)
    requires IsRun(states, steps) && k < |states|
    ensures var db := states[k].db;
      && (a in db.ballots && b in db.ballots && db.ballots[a] == db.ballots[b] ==> a == b)
      && (forall v :: v in db.votes ==>
            db.votes[v].ballot in db.ballots && db.ballots[db.votes[v].ballot] == db.votes[v].user)
  {
    EveryStateIsSound(states, steps, k);
    assert OneBallotEach(states[k].db.ballots) && VotesHaveBallots(states[k].db.votes, states[k].db.ballots);
  }

  /**
   * A step of a call changes the database exactly when it is the commit of a
   * successful call; a call that fails has left no ballot and no vote behind.
   */
  lemma OnlySuccessWrites(s: System, call: CallId, order: seq<Id>)
    requires Integrity(s.db) && Enabled(s, Advance(call, order))
    ensures var after, c := Take(s, Advance(call, order)), s.calls[call];
      && (after.db != s.db <==> after.calls[call].stage == Finished(true))
      && (after.calls[call].stage == Finished(true) ==> !HasVoted(s.db, c.user) && HasVoted(after.db, c.user))
  {
    var c := s.calls[call];
    if c.stage.Transaction? {
      var picks := CheckedPicks(c.stage.checks, c.sel);
      var first := InsertBallot(s.db, c.user);
      if first.Some? && InsertVotes(first.value, s.db.next.ballot, c.user, picks).Some? {
        InsertVotesFrame(first.value, s.db.next.ballot, c.user, picks);
        var after := Exec(s.db, Cast(c.user, picks)).value;
        assert Below(s.db.ballots.Keys, s.db.next.ballot) && s.db.next.ballot !in s.db.ballots.Keys;
        assert s.db.next.ballot in after.ballots && after.ballots[s.db.next.ballot] == c.user;
      }
    }
  }

  lemma SuccessLeavesABallot(states: seq<System>, steps: seq<Step>, k: nat, user: Id)
    requires IsRun(states, steps) && k < |steps| && Succeeds(states, steps, k, user)
    ensures !HasVoted(states[k].db, user) && HasVoted(states[k + 1].db, user)
  {
    EveryStateIsSound(states, steps, k);
    hide Integrity, Next;
    assert Enabled(states[k], steps[k]) && states[k + 1] == Take(states[k], steps[k]);
    OnlySuccessWrites(states[k], steps[k].call, steps[k].order);
  }

  lemma {:induction false} BallotGoneIsRemoved(states: seq<System>, i: nat, j: nat, user: Id) returns (k: nat)
    requires i < j < |states| && HasVoted(states[i].db, user) && !HasVoted(states[j].db, user)
    ensures i <= k < j && Removes(states, k, user)
    decreases j - i
  {
    if HasVoted(states[i + 1].db, user) {
      k := BallotGoneIsRemoved(states, i + 1, j, user);
    } else {
      k := i;
    }
  }

  /** The steps that can take the ballot of a user away: a reset, or the deletion of that member. */
  predicate TakesBallot(step: Step, user: Id) {
    step.Other? && (step.write.Reset? || (step.write.DropUser? && step.write.id == user))
  }

  predicate SameVoters(db: Db, after: Db) {
    after.users == db.users && after.next.user == db.next.user && after.ballots == db.ballots
  }

  lemma EntryWritesKeepVoters(db: Db, entries: set<Id>, entry: Participant)
    ensures InsertEntry(db, entry).Some? ==> SameVoters(db, InsertEntry(db, entry).value)
    ensures PutEntryRole(db, entries, entry.role).Some? ==> SameVoters(db, PutEntryRole(db, entries, entry.role).value)
    ensures SameVoters(db, DeleteEntries(db, entries))
  {
    hide WithRole;
  }

  lemma CandidacyWritesKeepVoters(db: Db, w: Write)
    requires Exec(db, w).Some? && (w.Resubmit? || w.MoveCandidacy? || w.Accept? || w.Return?)
    ensures SameVoters(db, Exec(db, w).value)
  {
    var role := if w.Resubmit? || w.MoveCandidacy? then Some(w.roleId) else None;
    var status :=
      if w.Resubmit? then Some(Submitted) else if w.Accept? then Some(Accepted)
      else if w.Return? then Some(Returned) else None;
    var put := PutCandidacy(db, w.id, role, status);
    assert SameVoters(db, put);
    hide PutCandidacy, EntriesOf;
    EntryWritesKeepVoters(put, EntriesOf(put, w.id), Participant(if w.Return? then 0 else w.roleId, w.id));
    hide InsertEntry, PutEntryRole, DeleteEntries;
  }

  lemma RequestWritesKeepBallots(db: Db, w: Write)
    requires Exec(db, w).Some?
    requires w.NewApplication? || w.PutRequestStatus? || w.DropApplication? || w.Approve? || w.PutUser?
      || w.PutMemberStatus? || w.DropSessionsOf? || w.NewSession? || w.DropSessions?
    ensures Exec(db, w).value.ballots == db.ballots
  {
    hide CprTaken, MemberTokens;
  }

  lemma OtherWritesKeepBallots(db: Db, w: Write)
    requires Exec(db, w).Some? && !w.Cast? && !w.Reset? && !w.DropUser?
    ensures Exec(db, w).value.ballots == db.ballots
  {
    if w.Resubmit? || w.MoveCandidacy? || w.Accept? || w.Return? {
      hide Exec;
      CandidacyWritesKeepVoters(db, w);
    } else if w.NewApplication? || w.PutRequestStatus? || w.DropApplication? || w.Approve? || w.PutUser?
      || w.PutMemberStatus? || w.DropSessionsOf? || w.NewSession? || w.DropSessions? {
      hide Exec;
      RequestWritesKeepBallots(db, w);
    }
  }

  /** Deleting another member leaves this user's ballot. */
  lemma DropUserKeepsOthers(db: Db, user: Id, other: Id, application: Id)
    requires HasVoted(db, user) && other != user
    ensures HasVoted(Exec(db, DropUser(other, application)).value, user)
  {
    var b :| b in db.ballots && db.ballots[b] == user;
    hide MemberTokens;
    assert Exec(db, DropUser(other, application)).value.ballots
        == db.ballots - set b | b in db.ballots && db.ballots[b] == other;
    assert b in Exec(db, DropUser(other, application)).value.ballots;
  }

  lemma CastKeepsBallots(db: Db, user: Id, caster: Id, picks: seq<Pick>)
    requires Integrity(db) && HasVoted(db, user) && Exec(db, Cast(caster, picks)).Some?
    ensures HasVoted(Exec(db, Cast(caster, picks)).value, user)
  {
    var b :| b in db.ballots && db.ballots[b] == user;
    assert Below(db.ballots.Keys, db.next.ballot) && b in db.ballots.Keys;
    InsertVotesFrame(InsertBallot(db, caster).value, db.next.ballot, caster, picks);
    assert b in Exec(db, Cast(caster, picks)).value.ballots;
  }

  /** A ballot goes only by a reset or with its member. */
  lemma OnlyTheseTakeBallots(s: System, step: Step, user: Id)
    requires Integrity(s.db) && Enabled(s, step) && HasVoted(s.db, user) && !HasVoted(Take(s, step).db, user)
    ensures TakesBallot(step, user)
  {
    hide Integrity, Exec;
    if step.Advance? && s.calls[step.call].stage.Transaction? {
      var c := s.calls[step.call];
      var picks := CheckedPicks(c.stage.checks, c.sel);
      if Exec(s.db, Cast(c.user, picks)).Some? { CastKeepsBallots(s.db, user, c.user, picks); }
    } else if step.Other? && Exec(s.db, step.write).Some? {
      var w := step.write;
      if w.DropUser? {
        if w.id != user { DropUserKeepsOthers(s.db, user, w.id, w.applicationId); }
      } else if !w.Reset? {
        OtherWritesKeepBallots(s.db, w);
      }
    }
  }

  /** A member id that was handed out and has no row any more. */
  predicate Gone(db: Db, user: Id) {
    user !in db.users && user < db.next.user
  }

  lemma MemberWritesBringNobodyBack(db: Db, w: Write, user: Id)
    requires Exec(db, w).Some? && Gone(db, user)
    requires w.NewApplication? || w.PutRequestStatus? || w.DropApplication? || w.Approve? || w.PutUser?
      || w.PutMemberStatus? || w.DropSessionsOf? || w.NewSession? || w.DropSessions?
    ensures Gone(Exec(db, w).value, user)
  {
    hide CprTaken, MemberTokens;
  }

  lemma DeletionBringsNobodyBack(db: Db, w: Write, user: Id)
    requires w.DropUser? && Gone(db, user)
    ensures Exec(db, w).Some? && Gone(Exec(db, w).value, user)
  {
    hide MemberTokens;
  }

  /** Ids are never used twice, so a deleted member never comes back. */
  lemma WritesBringNobodyBack(db: Db, w: Write, user: Id)
    requires Exec(db, w).Some? && Gone(db, user)
    ensures Gone(Exec(db, w).value, user)
  {
    if w.Cast? {
      InsertVotesFrame(InsertBallot(db, w.user).value, db.next.ballot, w.user, w.picks);
    } else if w.Resubmit? || w.MoveCandidacy? || w.Accept? || w.Return? {
      hide Exec;
      CandidacyWritesKeepVoters(db, w);
    } else if w.NewApplication? || w.PutRequestStatus? || w.DropApplication? || w.Approve? || w.PutUser?
      || w.PutMemberStatus? || w.DropSessionsOf? || w.NewSession? || w.DropSessions? {
      hide Exec;
      MemberWritesBringNobodyBack(db, w, user);
    } else if w.DropUser? {
      hide Exec;
      DeletionBringsNobodyBack(db, w, user);
    }
  }

  lemma StepBringsNobodyBack(s: System, step: Step, user: Id)
    requires Enabled(s, step) && Gone(s.db, user)
    ensures Gone(Take(s, step).db, user)
  {
    hide Exec, Gone;
    if step.Advance? && s.calls[step.call].stage.Transaction? {
      var c := s.calls[step.call];
      var w := Cast(c.user, CheckedPicks(c.stage.checks, c.sel));
      if Exec(s.db, w).Some? { WritesBringNobodyBack(s.db, w, user); }
    } else if step.Other? && Exec(s.db, step.write).Some? {
      WritesBringNobodyBack(s.db, step.write, user);
    }
  }

  lemma {:induction false} GoneStays(states: seq<System>, steps: seq<Step>, k: nat, j: nat, user: Id)
    requires IsRun(states, steps) && k <= j < |states| && Gone(states[k].db, user)
    ensures Gone(states[j].db, user)
    decreases j - k
  {
    if k < j {
      assert Enabled(states[k], steps[k]) && states[k + 1] == Take(states[k], steps[k]);
      hide Gone, Take, Enabled;
      StepBringsNobodyBack(states[k], steps[k], user);
      GoneStays(states, steps, k + 1, j, user);
    }
  }

  /** Deleting a member with a ballot leaves the id without a row for good. */
  lemma DeletionLeavesGone(s: System, step: Step, user: Id)
    requires Integrity(s.db) && Enabled(s, step) && HasVoted(s.db, user)
    requires step.Other? && step.write.DropUser? && step.write.id == user
    ensures Gone(Take(s, step).db, user)
  {
    assert BallotsHaveUsers(s.db.ballots, s.db.users.Keys) && Below(s.db.users.Keys, s.db.next.user);
    assert user in s.db.users.Keys;
    hide Integrity, MemberTokens;
  }

  /** Only members vote. */
  lemma SuccessNeedsAMember(s: System, call: CallId, order: seq<Id>)
    requires Enabled(s, Advance(call, order))
    requires Take(s, Advance(call, order)).calls[call].stage == Finished(true)
    ensures s.calls[call].user in s.db.users
  {
    hide InsertVotes;
  }

  /**
   * No double vote, even with racing requests: two calls of one user both succeed,
   * in any interleaving, only if all votes were reset between them.
   */
  lemma NoDoubleVote(states: seq<System>, steps: seq<Step>, i: nat, j: nat, user: Id)
    requires IsRun(states, steps) && i < j < |steps|
    requires Succeeds(states, steps, i, user) && Succeeds(states, steps, j, user)
    ensures exists k :: i < k < j && steps[k] == Other(Reset)
  {
    assert |states| == |steps| + 1;
    SuccessLeavesABallot(states, steps, i, user);
    SuccessLeavesABallot(states, steps, j, user);
    assert i + 1 < j;
    var k := BallotGoneIsRemoved(states, i + 1, j, user);
    assert Enabled(states[k], steps[k]) && states[k + 1] == Take(states[k], steps[k]);
    assert Enabled(states[j], steps[j]) && states[j + 1] == Take(states[j], steps[j]);
    EveryStateIsSound(states, steps, k);
    hide IsRun, Integrity, HasVoted, Take, Enabled;
    OnlyTheseTakeBallots(states[k], steps[k], user);
    SuccessNeedsAMember(states[j], steps[j].call, steps[j].order);
    if steps[k].write.DropUser? {
      DeletionLeavesGone(states[k], steps[k], user);
      GoneStays(states, steps, k + 1, j, user);
    }
  }

  // ------------------------------------------------------------ a call on its own

  /** `n` statements of one call with nothing in between. */
  ghost function Alone(db: Db, c: Call, order: seq<Id>, n: nat): (Db, Stage)
    decreases n
  {
    if n == 0 then (db, c.stage) else
    var next := Next(db, c, order);
    Alone(next.0, c.(stage := next.1), order, n - 1)
  }

  lemma {:induction false} FinishedStays(db: Db, c: Call, order: seq<Id>, n: nat)
    requires c.stage.Finished?
    ensures Alone(db, c, order, n) == (db, c.stage)
    decreases n
  {
    if n > 0 { FinishedStays(db, c, order, n - 1); }
  }

  /** What the call leaves behind, as the outcome of the atomic operation. */
  ghost predicate Ends(db: Db, c: Call, order: seq<Id>, n: nat, outcome: Outcome) {
    Alone(db, c, order, n) == (outcome.db, Finished(outcome.ok))
  }

  lemma OneStepMore(db: Db, c: Call, order: seq<Id>, n: nat, outcome: Outcome)
    requires n > 0 && Ends(Next(db, c, order).0, c.(stage := Next(db, c, order).1), order, n - 1, outcome)
    ensures Ends(db, c, order, n, outcome)
  {
    hide Next;
  }

  lemma RefusedCall(db: Db, c: Call, order: seq<Id>, n: nat)
    requires c.stage == Finished(false) && !Accepts(db, c.user, c.sel)
    ensures Ends(db, c, order, n, Apply(db, CastBallot(c.user, c.sel)))
  {
    hide Accepts;
    FinishedStays(db, c, order, n);
  }

  lemma TransactionEnds(db: Db, c: Call, order: seq<Id>, n: nat, picks: seq<Pick>)
    requires c.stage.Transaction? && CheckedPicks(c.stage.checks, c.sel) == picks && n > 0
    ensures var result := Exec(db, Cast(c.user, picks));
      Ends(db, c, order, n, if result.None? then Outcome(db, false) else Outcome(result.value, true))
  {
    var next := Next(db, c, order);
    var result := Exec(db, Cast(c.user, picks));
    hide Exec;
    FinishedStays(next.0, c.(stage := next.1), order, n - 1);
    OneStepMore(db, c, order, n, if result.None? then Outcome(db, false) else Outcome(result.value, true));
  }

  /** From the evaluation of everything read to the end of the transaction. */
  lemma EvaluationEnds(db: Db, c: Call, checks: seq<Check>, n: nat)
    requires AreChecks(db, Order(db), checks) && MayVote(db, c.user) && c.stage == Evaluate(checks, c.sel) && n > 0
    ensures Ends(db, c, Order(db), n, Apply(db, CastBallot(c.user, c.sel)))
  {
    OrderEnumeratesSections(db);
    ChecksDecide(db, Order(db), checks, c.sel);
    CastPlanned(db, c.user, c.sel);
    hide BallotFilled, Order, Picks, CheckedPicks, MayVote, ValidAll, AreChecks, Exec, Apply, Ends;
    if ValidAll(checks, c.sel) {
      TransactionEnds(db, c, Order(db), n, Picks(Order(db), c.sel));
    } else {
      RefusedCall(db, c, Order(db), n);
    }
  }

  lemma AllowancesFrom(roles: map<Id, Role>, order: seq<Id>, i: nat)
    requires i < |order| && forall k :: 0 <= k < |order| ==> order[k] in roles
    ensures RoleAllowances(roles, order[i..]) ==
      [(order[i], roles[order[i]].selections)] + RoleAllowances(roles, order[i + 1..])
    ensures i + 1 == |order| <==> RoleAllowances(roles, order[i + 1..]) == []
  {
    assert order[i..][1..] == order[i + 1..];
  }

  /** The candidates of the remaining roles are read one role at a time. */
  lemma {:induction false} RolesAreRead(db: Db, c: Call, i: nat, checks: seq<Check>, n: nat)
    requires db.settings.mode == ByRole && MayVote(db, c.user) && i < |Order(db)| && n > |Order(db)| - i
    requires forall k :: 0 <= k < |Order(db)| ==> Order(db)[k] in db.roles
    requires |checks| == i && forall k :: 0 <= k < i ==> checks[k] == CheckOf(db, Order(db)[k])
    requires c.stage == RoleCandidates(RoleAllowances(db.roles, Order(db)[i..]), checks)
    ensures Ends(db, c, Order(db), n, Apply(db, CastBallot(c.user, c.sel)))
    decreases |Order(db)| - i
  {
    var order := Order(db);
    AllowancesFrom(db.roles, order, i);
    var more := checks + [CheckOf(db, order[i])];
    hide MayVote, Order, Apply, RoleAllowances;
    var next := Next(db, c, order);
    if i + 1 == |order| {
      assert next == (db, Evaluate(more, c.sel));
      assert AreChecks(db, order, more);
      EvaluationEnds(db, c.(stage := next.1), more, n - 1);
    } else {
      assert next == (db, RoleCandidates(RoleAllowances(db.roles, order[i + 1..]), more));
      RolesAreRead(db, c.(stage := next.1), i + 1, more, n - 1);
    }
    hide Next;
    OneStepMore(db, c, order, n, Apply(db, CastBallot(c.user, c.sel)));
  }

  /** On a single page two reads follow: the candidates, and how many may be chosen. */
  lemma SinglePageIsRead(db: Db, c: Call, n: nat)
    requires db.settings.mode == SinglePage && MayVote(db, c.user) && c.stage == SingleCandidates && n > 2
    ensures Ends(db, c, Order(db), n, Apply(db, CastBallot(c.user, c.sel)))
  {
    var order, out := Order(db), Apply(db, CastBallot(c.user, c.sel));
    OrderEnumeratesSections(db);
    var checks := [CheckOf(db, 0)];
    assert AreChecks(db, order, checks);
    hide MayVote, Apply, Ends, Order, Evaluate, AreChecks;
    var c1 := c.(stage := Next(db, c, order).1);
    var c2 := c1.(stage := Next(db, c1, order).1);
    assert c2.stage == Evaluate(checks, c.sel);
    EvaluationEnds(db, c2, checks, n - 2);
    OneStepMore(db, c1, order, n - 1, out);
    OneStepMore(db, c, order, n, out);
  }

  /** By roles the list of roles is read first. */
  lemma RoleListIsRead(db: Db, c: Call, n: nat)
    requires db.settings.mode == ByRole && MayVote(db, c.user) && c.stage == RoleList && n > |Order(db)| + 1
    ensures Ends(db, c, Order(db), n, Apply(db, CastBallot(c.user, c.sel)))
  {
    var order, out := Order(db), Apply(db, CastBallot(c.user, c.sel));
    OrderEnumeratesSections(db);
    hide MayVote, Apply, Ends, Order, Evaluate;
    var c1 := c.(stage := Next(db, c, order).1);
    if order == [] {
      assert c1.stage == Evaluate([], c.sel);
      assert AreChecks(db, order, []);
      EvaluationEnds(db, c1, [], n - 1);
    } else {
      assert order[0..] == order;
      AllowancesFrom(db.roles, order, 0);
      assert c1.stage == RoleCandidates(RoleAllowances(db.roles, order), []);
      RolesAreRead(db, c1, 0, [], n - 1);
    }
    OneStepMore(db, c, order, n, out);
  }

  /** From the first read of the ballot on. */
  lemma BallotIsRead(db: Db, c: Call, n: nat)
    requires MayVote(db, c.user) && c.stage == ReadMode && n >= |Order(db)| + 3
    ensures Ends(db, c, Order(db), n, Apply(db, CastBallot(c.user, c.sel)))
  {
    var order, out := Order(db), Apply(db, CastBallot(c.user, c.sel));
    var c1 := c.(stage := Next(db, c, order).1);
    assert c1.stage == if db.settings.mode == SinglePage then SingleCandidates else RoleList;
    hide *;
    if db.settings.mode == SinglePage {
      SinglePageIsRead(db, c1, n - 1);
    } else {
      RoleListIsRead(db, c1, n - 1);
    }
    OneStepMore(db, c, order, n, out);
  }

  /**
   * The two grains agree: the statements of one call with nothing in between do
   * what the atomic operation does, for every database, user and ballot.
   */
  lemma CallAloneIsAtomic(db: Db, user: Id, sel: Selections, n: nat)
    requires n >= |Order(db)| + 6
    ensures Ends(db, Call(user, sel, Status), Order(db), n, Apply(db, CastBallot(user, sel)))
  {
    var order, out := Order(db), Apply(db, CastBallot(user, sel));
    var c := Call(user, sel, Status);
    var c1 := c.(stage := Next(db, c, order).1);
    var c2 := c1.(stage := Next(db, c1, order).1);
    var c3 := c2.(stage := Next(db, c2, order).1);
    hide Apply, Ends, Order;
    if c1.stage.Finished? {
      RefusedCall(db, c1, order, n - 1);
    } else {
      if c2.stage.Finished? {
        RefusedCall(db, c2, order, n - 2);
      } else {
        if c3.stage.Finished? { RefusedCall(db, c3, order, n - 3); } else { BallotIsRead(db, c3, n - 3); }
        OneStepMore(db, c2, order, n - 2, out);
      }
      OneStepMore(db, c1, order, n - 1, out);
    }
    OneStepMore(db, c, order, n, out);
  }
}
