// The store object of internal/store, method by method: guards with their early
// returns, loops over rows, transactions that roll back. Every method does exactly
// what its operation in Operations says, so what holds of every run of operations
// holds of every sequence of calls.
module Store {
  import opened Prelude
  import opened Database
  import opened Ballots
  import opened Operations
  import opened Outcomes
  import Results
  import Calendar
  import Validation

  // ------------------------------------------------------------ proof steps

  /** Inserting the picks of a section one by one. */
  lemma OnePickMore(db: Db, ballot: Id, user: Id, s: Id, picks: seq<Id>, k: nat, rest: seq<Pick>)
    requires k < |picks|
    ensures InsertVotes(db, ballot, user, SectionPicks(s, picks[k..]) + rest) ==
      var first := InsertVote(db, Vote(ballot, user, s, picks[k]));
      if first.None? then None else InsertVotes(first.value, ballot, user, SectionPicks(s, picks[k + 1..]) + rest)
  {
    var all := SectionPicks(s, picks[k..]) + rest;
    assert picks[k..][1..] == picks[k + 1..];
    assert all[0] == (s, picks[k]) && all[1..] == SectionPicks(s, picks[k + 1..]) + rest;
    hide InsertVote, SectionPicks;
  }

  /** A single entry of a candidacy is the whole set of its entries. */
  lemma OnlyEntry(db: Db, candidacy: Id, p: Id)
    requires OneEntryEach(db.participants) && candidacy != 0 && p in EntriesOf(db, candidacy)
    ensures EntriesOf(db, candidacy) == {p}
  {
    forall q | q in EntriesOf(db, candidacy) ensures q == p {
      assert SameCandidacy(db.participants[p], db.participants[q]);
    }
  }

  // ------------------------------------------------------------ outcomes of longer operations

  lemma MovedRows(db: Db, id: Id, roleId: Id)
    requires id in db.candidacies && roleId in db.roles
    ensures var moved := PutCandidacy(db, id, Some(roleId), None);
      var entries := map p | p in db.participants ::
        if db.participants[p].candidacy == id then db.participants[p].(role := roleId) else db.participants[p];
      && moved == db.(candidacies := db.candidacies[id := db.candidacies[id].(role := roleId)])
      && PutEntryRole(moved, EntriesOf(moved, id), roleId) == Some(moved.(participants := entries))
  {
    var moved := PutCandidacy(db, id, Some(roleId), None);
    var entries := map p | p in db.participants ::
      if db.participants[p].candidacy == id then db.participants[p].(role := roleId) else db.participants[p];
    assert EntriesOf(moved, id) == {} ==> entries == db.participants by {
      assert forall p :: p in db.participants ==> (p in EntriesOf(moved, id) <==> db.participants[p].candidacy == id);
    }
    assert entries == WithRole(db.participants, EntriesOf(moved, id), roleId);
  }

  lemma LoginDecided(db: Db, phone: string, dob: Option<Calendar.Day>, cpr: string, token: string, expires: int)
    requires UniqueCpr(db.users)
    ensures var member := MemberWith(db, phone, dob, cpr);
      Apply(db, Op.Login(phone, dob, cpr, token, expires)) ==
      if member.None? || db.users[member.value].status == Cancelled || token in db.sessions then Outcome(db, false)
      else Outcome(db.(sessions := db.sessions[token := Session(Member, member.value, expires)]), true)
  {
    var member := MemberWith(db, phone, dob, cpr);
    hide Apply, UniqueCpr, MemberWith;
    if member.Some? {
      LoginLeaves(db, member.value, phone, dob, cpr, token, expires);
    } else {
      forall u | u in db.users
        ensures !(db.users[u].phone == phone && db.users[u].dob == dob && db.users[u].cpr == cpr)
      {
        assert !HasCredentials(db, u, phone, dob, cpr);
      }
      LoginOfNobody(db, phone, dob, cpr, token, expires);
    }
  }

  lemma CastWrites(db: Db, user: Id, picks: seq<Pick>)
    ensures var ballot := InsertBallot(db, user);
      Exec(db, Cast(user, picks)) ==
        if ballot.None? then None else InsertVotes(ballot.value, db.next.ballot, user, picks)
  {
    hide InsertBallot, InsertVotes;
  }

  // ------------------------------------------------------------ replies

  datatype LoginReply = Welcome | Incomplete | Cancellation | About(request: RequestStatus) | NotFound | Failure

  /** What a login without a member is told; an approved request no longer explains it. */
  function ReplyTo(db: Db, request: Id): LoginReply {
    if request !in db.applications || db.applications[request].status == Approved then NotFound
    else About(db.applications[request].status)
  }

  /**
   * A member who registered with a phone and a number can log in with them, the phone
   * typed with the country code, unless the membership is cancelled.
   */
  lemma RegisteredMemberGetsIn(db: Db, u: Id, phone: string, cpr: string, token: string, expires: int)
    requires UniqueCpr(db.users) && u in db.users && db.users[u].status != Cancelled && token !in db.sessions
    requires Validation.ValidatePhone(phone) == Some(db.users[u].phone)
    requires Validation.ValidateCpr(cpr) == Some(db.users[u].cpr)
    ensures var typed := Validation.ValidatePhone(Validation.COUNTRY + db.users[u].phone);
      var number := Validation.ValidateCpr(db.users[u].cpr);
      && typed.Some? && number.Some?
      && Apply(db, Op.Login(typed.value, db.users[u].dob, number.value, token, expires)).ok
  {
    hide Validation.ValidatePhone, Validation.ValidateCpr, Apply;
    Validation.PhoneWithCodeIsFound(phone);
    Validation.CprIsCanonical(cpr);
    LoginLeaves(db, u, db.users[u].phone, db.users[u].dob, db.users[u].cpr, token, expires);
  }

  /** No approved request is touched: it belongs to a member by now. */
  ghost predicate ApprovedStay(before: Db, after: Db) {
    forall a :: a in before.applications && before.applications[a].status == Approved ==>
      a in after.applications && after.applications[a] == before.applications[a]
  }

  /** The one row that differs is the submitted candidacy of the user: a new one, or the one there was. */
  ghost predicate IsSubmission(before: Db, after: Db, user: Id, roleId: Id, c: Id) {
    && (c == before.next.candidacy || (c in before.candidacies && before.candidacies[c].user == user))
    && after.candidacies == before.candidacies[c := Candidacy(user, roleId, Submitted)]
  }

  ghost predicate SubmittedTo(before: Db, after: Db, user: Id, roleId: Id) {
    exists c :: IsSubmission(before, after, user, roleId, c)
  }

  // ------------------------------------------------------------ the store

  class Store {
    var db: Db

    ghost predicate Valid()
      reads this
    {
      Integrity(db)
    }

    constructor (installed: Db)
      requires Installed(installed)
      ensures Valid() && db == installed
    {
      db := installed;
    }

    // ---------------------------------------------------------- rows

    method Roles() returns (order: seq<Id>)
      ensures order == InOrder(db.roles, db.roles.Keys)
    {
      order := Results.OrderedRoles(db.roles);
    }

    // ---------------------------------------------------------- voting

    method ValidateVotingSetup() returns (ok: bool)
      ensures ok <==> ValidSetup(db)
    {
      if db.settings.gateOpen { return false; }
      if db.settings.mode == SinglePage {
        var candidates := Entries(db, 0);
        if |candidates| < 2 { return false; }
        return SingleSelections(db.settings) <= |candidates|;
      }
      var roles := Roles();
      InOrderEnumerates(db.roles, db.roles.Keys);
      if |roles| == 0 { return false; }
      assert roles[0] in db.roles;
      for i := 0 to |roles|
        invariant forall k :: 0 <= k < i ==>
          Entries(db, roles[k]) != {} && db.roles[roles[k]].selections <= |Entries(db, roles[k])|
      {
        var candidates := Entries(db, roles[i]);
        if candidates == {} { return false; }
        if db.roles[roles[i]].selections > |candidates| { return false; }
      }
      return true;
    }

    method SetVotingStatus(voting: Voting) returns (ok: bool)
      requires Valid()
      modifies this
      ensures Valid() && Outcome(db, ok) == Apply(old(db), Op.SetVotingStatus(voting))
      ensures ok <==> voting == Open ==> ValidSetup(old(db))
      ensures ok ==> db == old(db).(settings := old(db).settings.(voting := voting))
    {
      ghost var op := Op.SetVotingStatus(voting);
      ApplyKeepsIntegrity(db, op);
      SetVotingStatusLeaves(db, voting);
      hide Integrity, Apply, ValidSetup;
      if voting == Open {
        var valid := ValidateVotingSetup();
        if !valid { return false; }
      }
      db := db.(settings := db.settings.(voting := voting));
      ok := true;
    }

    method SaveElectionSettings(mode: Mode, title: string, winners: int, selections: int) returns (ok: bool)
      requires Valid()
      modifies this
      ensures Valid() && Outcome(db, ok) == Apply(old(db), Op.SaveElectionSettings(mode, title, winners, selections))
      ensures old(db).settings.voting == Open ==> db.settings.mode == old(db).settings.mode
      ensures ok ==>
        var count := if selections >= 1 then selections else if winners >= 1 then winners else 1;
        db == old(db).(settings := old(db).settings.(mode := mode, singleSelections := count))
    {
      ghost var op := Op.SaveElectionSettings(mode, title, winners, selections);
      ApplyKeepsIntegrity(db, op);
      SaveElectionSettingsLeaves(db, mode, title, winners, selections);
      hide Integrity, Apply;
      if db.settings.voting == Open && mode != db.settings.mode { return false; }
      if title == "" { return false; }
      var win, sel := winners, selections;
      if win < 1 { win := 1; }
      if sel < 1 { sel := win; }
      db := db.(settings := db.settings.(mode := mode));
      db := db.(settings := db.settings.(singleSelections := sel));
      ok := true;
    }

    /** normalizeRole writes into its argument. */
    method NormalizedRole(name: string, role: Role) returns (r: Role, ok: bool)
      ensures NormalizeRole(name, role) == if ok then Some(r) else None
    {
      r := role;
      if name == "" { return r, false; }
      if r.winners < 1 { r := r.(winners := 1); }
      if r.selections < 1 { r := r.(selections := r.winners); }
      if r.minAge <= 0 { r := r.(minAge := DEFAULT_MIN_AGE); }
      return r, r.minAge <= 120;
    }

    method SelectLastOrder() returns (max: int)
      ensures max == LastOrder(db.roles)
    {
      max := 0;
      var roles := Roles();
      InOrderEnumerates(db.roles, db.roles.Keys);
      for i := 0 to |roles|
        invariant if i == 0 then max == 0 else exists k :: 0 <= k < i && db.roles[roles[k]].order == max
        invariant forall k :: 0 <= k < i ==> db.roles[roles[k]].order <= max
      {
        if i == 0 || db.roles[roles[i]].order > max { max := db.roles[roles[i]].order; }
      }
      MaxOfRoles(db.roles, roles, max);
    }

    static lemma MaxOfRoles(rows: map<Id, Role>, ids: seq<Id>, max: int)
      requires Enumerates(ids, rows.Keys)
      requires if ids == [] then max == 0 else exists k :: 0 <= k < |ids| && rows[ids[k]].order == max
      requires forall k :: 0 <= k < |ids| ==> rows[ids[k]].order <= max
      ensures max == LastOrder(rows)
    {
      var orders := set r | r in rows :: rows[r].order;
      if ids == [] {
        assert forall r :: r !in rows.Keys;
        assert orders == {};
      } else {
        var k :| 0 <= k < |ids| && rows[ids[k]].order == max;
        assert ids[k] in rows && max in orders;
        forall x | x in orders ensures x <= max {
          var r :| r in rows && rows[r].order == x;
          assert r in ids;
        }
      }
      MaxIsUnique(orders, max, LastOrder(rows));
    }

    /** A new role is votable and comes last on the ballot. */
    method CreateRole(name: string, role: Role) returns (ok: bool)
      requires Valid()
      modifies this
      ensures Valid() && Outcome(db, ok) == Apply(old(db), Op.CreateRole(name, role))
      ensures ok ==>
        InOrder(db.roles, db.roles.Keys) == InOrder(old(db).roles, old(db).roles.Keys) + [old(db).next.role]
    {
      ghost var op := Op.CreateRole(name, role);
      ApplyKeepsIntegrity(db, op);
      assert Below(db.roles.Keys, db.next.role) && db.next.role !in db.roles.Keys;
      hide Integrity;
      var r, fine := NormalizedRole(name, role);
      if !fine { return false; }
      var max := SelectLastOrder();
      r := r.(order := max + 10);
      Planned(db, op, NewRole(r));
      SortsLast(db.roles, db.next.role, r);
      hide InOrder;
      db := db.(roles := db.roles[db.next.role := r], next := db.next.(role := db.next.role + 1));
      ok := true;
    }

    static lemma SortsLast(rows: map<Id, Role>, id: Id, role: Role)
      requires id !in rows && role.order == LastOrder(rows) + 10
      ensures InOrder(rows[id := role], rows[id := role].Keys) == InOrder(rows, rows.Keys) + [id]
    {
      var orders := set r | r in rows :: rows[r].order;
      forall r | r in rows ensures rows[r].order < role.order { assert rows[r].order in orders; }
      LastInOrder(rows, rows.Keys, id, role);
      assert rows[id := role].Keys == rows.Keys + {id};
    }

    method UpdateRole(id: Id, name: string, role: Role) returns (ok: bool)
      requires Valid()
      modifies this
      ensures Valid() && Outcome(db, ok) == Apply(old(db), Op.UpdateRole(id, name, role))
      ensures ok && id in db.roles ==>
        db.roles[id].winners >= 1 && db.roles[id].selections >= 1 && 1 <= db.roles[id].minAge <= 120
      ensures db == old(db).(roles := db.roles) && db.roles.Keys == old(db).roles.Keys
      ensures forall r :: r in db.roles && r != id ==> db.roles[r] == old(db).roles[r]
    {
      ghost var op := Op.UpdateRole(id, name, role);
      ApplyKeepsIntegrity(db, op);
      hide Integrity, RunWrites;
      var r, fine := NormalizedRole(name, role);
      if !fine { return false; }
      Planned(db, op, PutRole(id, r));
      if id in db.roles { db := db.(roles := db.roles[id := r]); }
      ok := true;
    }

    method DeleteRole(id: Id) returns (ok: bool)
      requires Valid()
      modifies this
      ensures Valid() && Outcome(db, ok) == Apply(old(db), Op.DeleteRole(id))
      ensures ok ==> id !in db.roles && Entries(db, id) == {}
    {
      ghost var op := Op.DeleteRole(id);
      ApplyKeepsIntegrity(db, op);
      DeleteRoleLeaves(db, id);
      hide Integrity, Apply;
      if db.settings.voting == Open { return false; }
      if id !in db.roles { return false; }
      db := DeleteRoleRow(db, id);
      ok := true;
    }

    method CreateParticipant(name: string, roleId: Id) returns (ok: bool)
      requires Valid()
      modifies this
      ensures Valid() && Outcome(db, ok) == Apply(old(db), Op.CreateParticipant(name, roleId))
      ensures ok ==>
        Entries(db, RoleOrNone(roleId)) == Entries(old(db), RoleOrNone(roleId)) + {old(db).next.participant}
    {
      ghost var op := Op.CreateParticipant(name, roleId);
      ApplyKeepsIntegrity(db, op);
      hide Integrity;
      if name == "" { return false; }
      var role := 0;
      if roleId > 0 { role := roleId; }
      Planned(db, op, NewEntry(role));
      EntryIsAdded(db, role);
      hide Plan, Entries;
      var inserted := InsertEntry(db, Participant(role, 0));
      if inserted.None? { return false; }
      db := inserted.value;
      ok := true;
    }

    static lemma EntryIsAdded(db: Db, role: Id)
      ensures var inserted := InsertEntry(db, Participant(role, 0));
        inserted.Some? ==> Entries(inserted.value, role) == Entries(db, role) + {db.next.participant}
    {
    }

    method UpdateParticipant(id: Id, name: string, roleId: Id) returns (ok: bool)
      requires Valid()
      modifies this
      ensures Valid() && Outcome(db, ok) == Apply(old(db), Op.UpdateParticipant(id, name, roleId))
      ensures ok && id in db.participants ==> id in Entries(db, RoleOrNone(roleId))
      ensures db == old(db).(participants := db.participants) && db.participants.Keys == old(db).participants.Keys
      ensures forall p :: p in db.participants && p != id ==> db.participants[p] == old(db).participants[p]
    {
      ghost var op := Op.UpdateParticipant(id, name, roleId);
      ApplyKeepsIntegrity(db, op);
      hide Integrity;
      if name == "" { return false; }
      var role := 0;
      if roleId > 0 { role := roleId; }
      Planned(db, op, MoveEntry(id, role));
      assert id in db.participants ==> id in {id} * db.participants.Keys;
      var updated := PutEntryRole(db, {id} * db.participants.Keys, role);
      if updated.None? { return false; }
      db := updated.value;
      ok := true;
    }

    method DeleteParticipant(id: Id) returns (ok: bool)
      requires Valid()
      modifies this
      ensures Valid() && Outcome(db, ok) == Apply(old(db), Op.DeleteParticipant(id))
      ensures ok ==> id !in db.participants && VotesFor(db, id) == {}
    {
      ghost var op := Op.DeleteParticipant(id);
      ApplyKeepsIntegrity(db, op);
      DeleteParticipantLeaves(db, id);
      hide Integrity, Apply;
      if db.settings.voting == Open { return false; }
      if id !in db.participants { return false; }
      db := DeleteEntries(db, {id});
      ok := true;
    }

    // ---------------------------------------------------------- ballots

    /** The set of candidates of a page, filled row by row. */
    method ValidIds(section: Id) returns (valid: set<Id>)
      ensures valid == Entries(db, section)
    {
      var rows := Results.Rows(Entries(db, section));
      valid := {};
      for i := 0 to |rows|
        invariant forall x :: x in valid <==> x in rows[..i]
      {
        assert rows[..i + 1] == rows[..i] + [rows[i]];
        valid := valid + {rows[i]};
      }
      assert rows[..|rows|] == rows;
      AllRows(rows, Entries(db, section), valid);
    }

    static lemma AllRows(rows: seq<Id>, ids: set<Id>, valid: set<Id>)
      requires Enumerates(rows, ids) && forall x :: x in valid <==> x in rows
      ensures valid == ids
    {
      forall x ensures x in valid <==> x in ids {
        if x in rows {
          var k :| 0 <= k < |rows| && rows[k] == x;
        }
      }
    }

    method BallotChecks() returns (checks: seq<Check>)
      ensures AreChecks(db, Order(db), checks)
    {
      if db.settings.mode == SinglePage {
        var valid := ValidIds(0);
        return [Check(0, SingleSelections(db.settings), valid)];
      }
      var roles := Roles();
      InOrderEnumerates(db.roles, db.roles.Keys);
      checks := [];
      for i := 0 to |roles|
        invariant |checks| == i && forall k :: 0 <= k < i ==> checks[k] == CheckOf(db, roles[k])
      {
        var valid := ValidIds(roles[i]);
        checks := checks + [Check(roles[i], db.roles[roles[i]].selections, valid)];
      }
    }

    static method CheckPicks(c: Check, sel: Selections) returns (ok: bool)
      ensures ok <==> Passes(c, sel)
    {
      var picks := PicksIn(sel, c.section);
      if |picks| == 0 { return false; }
      if |picks| > c.allowed { return false; }
      var seen: set<Id> := {};
      for i := 0 to |picks|
        invariant forall x :: x in seen <==> x in picks[..i]
        invariant Distinct(picks[..i]) && forall k :: 0 <= k < i ==> picks[k] in c.valid
      {
        assert picks[..i + 1] == picks[..i] + [picks[i]];
        if picks[i] !in c.valid { return false; }
        if picks[i] in seen {
          var j :| 0 <= j < i && picks[j] == picks[i];
          assert !Distinct(picks);
          return false;
        }
        seen := seen + {picks[i]};
      }
      assert picks[..|picks|] == picks;
      return true;
    }

    /** The two loops of the transaction; on failure the caller rolls back. */
    method InsertBallotVotes(ballot: Id, user: Id, checks: seq<Check>, sel: Selections) returns (ok: bool)
      modifies this
      ensures InsertVotes(old(db), ballot, user, CheckedPicks(checks, sel)) == if ok then Some(db) else None
      ensures ok && Below(old(db).votes.Keys, old(db).next.vote) ==>
        forall c, p :: c in checks && c.section in sel && p in sel[c.section] ==>
          HasRow(db, Vote(ballot, user, c.section, p))
    {
      ghost var before := db;
      ghost var target := InsertVotes(db, ballot, user, CheckedPicks(checks, sel));
      assert checks[0..] == checks;
      hide InsertVotes, InsertVote;
      for i := 0 to |checks|
        invariant InsertVotes(db, ballot, user, CheckedPicks(checks[i..], sel)) == target
      {
        var s, picks := checks[i].section, PicksIn(sel, checks[i].section);
        ghost var rest := CheckedPicks(checks[i + 1..], sel);
        assert checks[i..][1..] == checks[i + 1..] && picks[0..] == picks;
        for k := 0 to |picks|
          invariant InsertVotes(db, ballot, user, SectionPicks(s, picks[k..]) + rest) == target
        {
          OnePickMore(db, ballot, user, s, picks, k, rest);
          var inserted := InsertVote(db, Vote(ballot, user, s, picks[k]));
          if inserted.None? { return false; }
          db := inserted.value;
        }
        assert SectionPicks(s, picks[|picks|..]) + rest == rest;
      }
      NoMoreVotes(db, ballot, user);
      EveryPickHasRow(before, db, ballot, user, checks, sel);
      return true;
    }

    static lemma EveryPickHasRow(before: Db, after: Db, ballot: Id, user: Id, checks: seq<Check>, sel: Selections)
      requires InsertVotes(before, ballot, user, CheckedPicks(checks, sel)) == Some(after)
      ensures Below(before.votes.Keys, before.next.vote) ==>
        forall c, p :: c in checks && c.section in sel && p in sel[c.section] ==>
          HasRow(after, Vote(ballot, user, c.section, p))
    {
      hide InsertVotes, CheckedPicks, HasRow, Below;
      if Below(before.votes.Keys, before.next.vote) {
        forall c, p | c in checks && c.section in sel && p in sel[c.section]
          ensures HasRow(after, Vote(ballot, user, c.section, p))
        {
          var k :| 0 <= k < |checks| && checks[k] == c;
          assert checks[k].section == c.section;
          CheckedPickIsListed(checks, sel, c.section, p);
          InsertedPickHasRow(before, ballot, user, CheckedPicks(checks, sel), (c.section, p));
        }
      }
    }

    static lemma NoMoreVotes(db: Db, ballot: Id, user: Id)
      ensures InsertVotes(db, ballot, user, []) == Some(db)
    {
    }

    /** Reads every page, then checks its picks, before anything is written. */
    method CheckBallot(sel: Selections) returns (ok: bool, checks: seq<Check>)
      ensures ok <==> BallotFilled(db, sel)
      ensures CheckedPicks(checks, sel) == Picks(Order(db), sel)
    {
      hide BallotFilled, Passes, Picks, CheckedPicks, Order, AreChecks, Enumerates, Distinct, SectionIds;
      checks := BallotChecks();
      OrderEnumeratesSections(db);
      ChecksDecide(db, Order(db), checks, sel);
      for i := 0 to |checks|
        invariant forall k :: 0 <= k < i ==> Passes(checks[k], sel)
      {
        var passes := CheckPicks(checks[i], sel);
        if !passes { return false, checks; }
      }
      ok := true;
    }

    method CastBallot(user: Id, sel: Selections) returns (ok: bool)
      requires Valid()
      modifies this
      ensures Valid() && Outcome(db, ok) == Apply(old(db), Op.CastBallot(user, sel))
      ensures ok <==> MayCast(old(db), user, sel)
      ensures ok ==> BallotWritten(old(db), db, user, sel)
    {
      ghost var op := Op.CastBallot(user, sel);
      ApplyKeepsIntegrity(db, op);
      CastBallotLeaves(db, user, sel);
      CastPlanned(db, user, sel);
      CastWrites(db, user, Picks(Order(db), sel));
      hide Integrity, Apply, Exec, BallotFilled, Picks, CheckedPicks, Order, InsertVotes, MayCast, BallotWritten;
      if db.settings.voting != Open { return false; }
      if user !in db.users { return false; }
      if db.users[user].status != Active { return false; }
      if HasVoted(db, user) { return false; }
      var filled, checks := CheckBallot(sel);
      if !filled { return false; }
      hide HasVoted;
      var saved := db;
      var inserted := InsertBallot(db, user);
      if inserted.None? { return false; }
      var ballot := db.next.ballot;
      db := inserted.value;
      ok := InsertBallotVotes(ballot, user, checks, sel);
      if !ok { db := saved; }
    }

    method ResetVotes() returns (ok: bool)
      requires Valid()
      modifies this
      ensures Valid() && Outcome(db, ok) == Apply(old(db), Op.ResetVotes)
      ensures ok ==> forall user :: !HasVoted(db, user)
    {
      ApplyKeepsIntegrity(db, Op.ResetVotes);
      hide Integrity;
      if db.settings.voting == Open { return false; }
      Planned(db, Op.ResetVotes, Reset);
      db := db.(votes := map[]);
      db := db.(ballots := map[]);
      ok := true;
    }

    // ---------------------------------------------------------- candidacies

    method SetCandidacyGate(open: bool) returns (ok: bool)
      requires Valid()
      modifies this
      ensures Valid() && Outcome(db, ok) == Apply(old(db), Op.SetCandidacyGate(open))
      ensures ok <==> open ==> old(db).roles != map[] && old(db).settings.voting == Draft
    {
      ghost var op := Op.SetCandidacyGate(open);
      ApplyKeepsIntegrity(db, op);
      hide Integrity;
      if open {
        if db.roles == map[] { return false; }
        if db.settings.voting != Draft { return false; }
      }
      Planned(db, op, PutGate(open));
      db := db.(settings := db.settings.(gateOpen := open));
      ok := true;
    }

    /** SELECT ... FROM candidacies WHERE user_id = ?. */
    method CandidacyForUser(user: Id) returns (c: Option<Id>)
      requires Valid()
      ensures c == CandidacyFor(db, user)
    {
      var ids := set x | x in db.candidacies && db.candidacies[x].user == user;
      var rows := Results.Rows(ids);
      if |rows| == 0 {
        NoRows(rows, ids);
        forall x ensures !IsCandidacyOf(db, user, x) { assert x !in ids; }
        return None;
      }
      assert IsCandidacyOf(db, user, rows[0]);
      return Some(rows[0]);
    }

    method SubmitCandidacy(user: Id, roleId: Id, today: Calendar.Day) returns (ok: bool)
      requires Valid()
      modifies this
      ensures Valid() && Outcome(db, ok) == Apply(old(db), Op.SubmitCandidacy(user, roleId, today))
      ensures ok ==> SubmittedTo(old(db), db, user, roleId)
    {
      ghost var op := Op.SubmitCandidacy(user, roleId, today);
      ApplyKeepsIntegrity(db, op);
      assert OneCandidacyEach(db.candidacies);
      hide Integrity, RunWrites, OneCandidacyEach;
      if !db.settings.gateOpen { return false; }
      if roleId !in db.roles || user !in db.users { return false; }
      EligibleIff(db, user, roleId, today);
      hide EligibleForRole, MayStandFor;
      if !EligibleForRole(db.users[user], db.roles[roleId], today) { return false; }
      var existing := CandidacyForUser(user);
      if existing.None? {
        forall c | c in db.candidacies ensures db.candidacies[c].user != user { assert !IsCandidacyOf(db, user, c); }
        FirstSubmissionLeaves(db, user, roleId, today);
        ghost var before := db;
        hide Apply, OneCandidacyEach;
        db := db.(candidacies := db.candidacies[db.next.candidacy := Candidacy(user, roleId, Submitted)],
                  next := db.next.(candidacy := db.next.candidacy + 1));
        assert IsSubmission(before, db, user, roleId, before.next.candidacy);
        return true;
      }
      if db.candidacies[existing.value].status == Accepted { return false; }
      SubmissionAgainLeaves(db, user, existing.value, roleId, today);
      ghost var before := db;
      hide Apply, OneCandidacyEach;
      db := db.(candidacies := db.candidacies[existing.value :=
        db.candidacies[existing.value].(role := roleId, status := Submitted)]);
      assert IsSubmission(before, db, user, roleId, existing.value);
      return true;
    }

    method ChangeCandidacyRole(id: Id, roleId: Id, byMember: bool, today: Calendar.Day) returns (ok: bool)
      requires Valid()
      modifies this
      ensures Valid() && Outcome(db, ok) == Apply(old(db), Op.ChangeCandidacyRole(id, roleId, byMember, today))
      ensures ok ==> id in old(db).candidacies && db.participants.Keys == old(db).participants.Keys
      ensures ok ==> db.candidacies == old(db).candidacies[id := old(db).candidacies[id].(role := roleId)]
      ensures ok ==> forall p :: p in db.participants ==>
        var moves := old(db).candidacies[id].status == Accepted && old(db).participants[p].candidacy == id;
        db.participants[p] == old(db).participants[p].(role := if moves then roleId else old(db).participants[p].role)
    {
      ghost var op := Op.ChangeCandidacyRole(id, roleId, byMember, today);
      ApplyKeepsIntegrity(db, op);
      ChangeCandidacyRoleLeaves(db, id, roleId, byMember, today);
      if id in db.candidacies {
        NotThere(db, db.candidacies[id].user, roleId, today);
        if roleId in db.roles { MovedRows(db, id, roleId); }
      }
      hide Integrity, Apply, MayStandFor, EntriesOf, PutCandidacy, PutEntryRole;
      if byMember && !db.settings.gateOpen { return false; }
      if id !in db.candidacies { return false; }
      var c := db.candidacies[id];
      if roleId !in db.roles { return false; }
      if c.user !in db.users { return false; }
      EligibleIff(db, c.user, roleId, today);
      hide EligibleForRole;
      if !EligibleForRole(db.users[c.user], db.roles[roleId], today) { return false; }
      if byMember && c.status == Accepted { return false; }
      db := PutCandidacy(db, id, Some(roleId), None);
      if c.status == Accepted {
        var moved := PutEntryRole(db, EntriesOf(db, id), roleId);
        assert moved.Some?; // the role exists, so its foreign key holds and nothing is rolled back
        db := moved.value;
      }
      ok := true;
    }

    method AcceptCandidacy(id: Id) returns (ok: bool)
      requires Valid()
      modifies this
      ensures Valid() && Outcome(db, ok) == Apply(old(db), Op.AcceptCandidacy(id))
      ensures ok ==> id in old(db).candidacies
      ensures ok ==> db.candidacies == old(db).candidacies[id := old(db).candidacies[id].(status := Accepted)]
      ensures ok ==> exists p :: p in db.participants && db.participants[p] == Participant(db.candidacies[id].role, id)
    {
      ghost var op := Op.AcceptCandidacy(id);
      ApplyKeepsIntegrity(db, op);
      if id !in db.candidacies { return false; }
      var c := db.candidacies[id];
      if c.status == Accepted { return false; }
      if c.role == 0 { return false; }
      Planned(db, op, Accept(id, c.role));
      assert id in db.candidacies.Keys && id != 0 && OneEntryEach(db.participants);
      hide Integrity;
      var saved := db;
      db := PutCandidacy(db, id, None, Some(Accepted));
      var entries := Results.Rows(EntriesOf(db, id));
      if |entries| == 0 {
        NoRows(entries, EntriesOf(db, id));
        var inserted := InsertEntry(db, Participant(c.role, id));
        if inserted.None? { db := saved; return false; }
        ghost var entry := db.next.participant;
        db := inserted.value;
        assert db.participants[entry] == Participant(c.role, id);
      } else {
        OnlyEntry(db, id, entries[0]);
        var updated := PutEntryRole(db, {entries[0]}, c.role);
        if updated.None? { db := saved; return false; }
        db := updated.value;
        assert db.participants[entries[0]] == Participant(c.role, id);
      }
      ok := true;
    }

    static lemma NoRows(rows: seq<Id>, ids: set<Id>)
      requires Enumerates(rows, ids) && rows == []
      ensures ids == {}
    {
      assert forall x :: x !in ids;
    }

    method ReturnCandidacy(id: Id, note: string) returns (ok: bool)
      requires Valid()
      modifies this
      ensures Valid() && Outcome(db, ok) == Apply(old(db), Op.ReturnCandidacy(id, note))
      ensures ok ==> id in old(db).candidacies && EntriesOf(db, id) == {}
      ensures ok ==> db.candidacies == old(db).candidacies[id := old(db).candidacies[id].(status := Returned)]
    {
      ghost var op := Op.ReturnCandidacy(id, note);
      ApplyKeepsIntegrity(db, op);
      ReturnCandidacyLeaves(db, id, note);
      hide Integrity, Apply;
      if note == "" { return false; }
      if id !in db.candidacies { return false; }
      ReturnDeletes(PutCandidacy(db, id, None, Some(Returned)), id);
      NoneLeft(PutCandidacy(db, id, None, Some(Returned)), id);
      db := PutCandidacy(db, id, None, Some(Returned));
      db := db.(votes := db.votes - set v | v in db.votes && db.votes[v].participant in EntriesOf(db, id));
      db := DeleteEntries(db, EntriesOf(db, id));
      ok := true;
    }

    /** Deleting the votes first changes nothing of what the cascade leaves. */
    static lemma NoneLeft(db: Db, id: Id)
      ensures EntriesOf(DeleteEntries(db, EntriesOf(db, id)), id) == {}
    {
    }

    static lemma ReturnDeletes(db: Db, id: Id)
      ensures var gone := set v | v in db.votes && db.votes[v].participant in EntriesOf(db, id);
        var fewer := db.(votes := db.votes - gone);
        DeleteEntries(fewer, EntriesOf(fewer, id)) == DeleteEntries(db, EntriesOf(db, id))
    {
      var fewer := db.(votes := db.votes - set v | v in db.votes && db.votes[v].participant in EntriesOf(db, id));
      assert EntriesOf(fewer, id) == EntriesOf(db, id);
      assert DeleteEntries(fewer, EntriesOf(fewer, id)).votes == DeleteEntries(db, EntriesOf(db, id)).votes;
    }

    // ---------------------------------------------------------- requests

    method CheckUnique(cpr: string, phone: string, except: Id) returns (ok: bool)
      ensures ok <==> Unique(db, cpr, phone, except)
    {
      if CprTaken(db, cpr, 0) { return false; }
      if exists a :: a in db.applications && PendingWith(db, a, except) && db.applications[a].cpr == cpr {
        return false;
      }
      if PhoneTaken(db, phone, 0) { return false; }
      if exists a :: a in db.applications && PendingWith(db, a, except) && db.applications[a].phone == phone {
        return false;
      }
      return true;
    }

    method CreateApplication(a: Application) returns (ok: bool)
      requires Valid()
      modifies this
      ensures Valid() && Outcome(db, ok) == Apply(old(db), Op.CreateApplication(a))
      ensures ok ==>
        var row := Application(a.cpr, a.phone, a.dob, Pending);
        && db.applications == old(db).applications[old(db).next.application := row]
        && old(db).next.application !in old(db).applications && db.users == old(db).users
    {
      ghost var op := Op.CreateApplication(a);
      ApplyKeepsIntegrity(db, op);
      CreateApplicationLeaves(db, a);
      UniqueIff(db, a.cpr, a.phone, 0);
      assert Below(db.applications.Keys, db.next.application) && db.next.application !in db.applications.Keys;
      hide Integrity, Apply, Unique, SomeMemberHas, SomeRequestHas;
      var unique := CheckUnique(a.cpr, a.phone, 0);
      if !unique { return false; }
      db := db.(applications := db.applications[db.next.application := a.(status := Pending)],
                next := db.next.(application := db.next.application + 1));
      ok := true;
    }

    method ApproveApplication(id: Id) returns (ok: bool)
      requires Valid()
      modifies this
      ensures Valid() && Outcome(db, ok) == Apply(old(db), Op.ApproveApplication(id))
      ensures ok ==> id in old(db).applications
      ensures ok ==> db.applications == old(db).applications[id := old(db).applications[id].(status := Approved)]
      ensures ok ==> var a := old(db).applications[id];
        db.users == old(db).users[old(db).next.user := User(a.cpr, a.phone, a.dob, Active, id)]
    {
      ghost var op := Op.ApproveApplication(id);
      ApplyKeepsIntegrity(db, op);
      ApproveApplicationLeaves(db, id);
      if id in db.applications {
        UniqueIff(db, db.applications[id].cpr, db.applications[id].phone, id);
        NumberIsFree(db, db.applications[id].cpr, db.applications[id].phone, id);
      }
      hide Integrity, Apply, Unique, CprTaken, SomeMemberHas, SomeRequestHas;
      if id !in db.applications { return false; }
      var a := db.applications[id];
      if a.status != Pending { return false; }
      var unique := CheckUnique(a.cpr, a.phone, id);
      if !unique { return false; }
      if CprTaken(db, a.cpr, 0) { return false; }
      db := db.(users := db.users[db.next.user := User(a.cpr, a.phone, a.dob, Active, id)],
                next := db.next.(user := db.next.user + 1));
      db := db.(applications := db.applications[id := a.(status := Approved)]);
      ok := true;
    }

    method RejectApplication(id: Id) returns (ok: bool)
      requires Valid()
      modifies this
      ensures Valid() && Outcome(db, ok) == Apply(old(db), Op.RejectApplication(id))
      ensures ApprovedStay(old(db), db)
      ensures ok ==> id in old(db).applications
      ensures ok ==>
        db == old(db).(applications := old(db).applications[id := old(db).applications[id].(status := Rejected)])
    {
      ghost var op := Op.RejectApplication(id);
      ApplyKeepsIntegrity(db, op);
      RejectApplicationLeaves(db, id);
      hide Integrity, Apply;
      if id !in db.applications { return false; }
      if db.applications[id].status == Approved { return false; }
      db := db.(applications := db.applications[id := db.applications[id].(status := Rejected)]);
      ok := true;
    }

    method SetApplicationStatus(id: Id, request: RequestStatus) returns (ok: bool)
      requires Valid()
      modifies this
      ensures Valid() && Outcome(db, ok) == Apply(old(db), Op.SetApplicationStatus(id, request))
      ensures ApprovedStay(old(db), db)
      ensures ok ==> id in old(db).applications
      ensures ok ==>
        db == old(db).(applications := old(db).applications[id := old(db).applications[id].(status := request)])
    {
      ghost var op := Op.SetApplicationStatus(id, request);
      ApplyKeepsIntegrity(db, op);
      SetApplicationStatusLeaves(db, id, request);
      hide Integrity, Apply;
      if request != Pending && request != OnHold && request != Withdrawn { return false; }
      if id !in db.applications { return false; }
      if db.applications[id].status == Approved { return false; }
      if db.applications[id].status == request { return false; }
      db := db.(applications := db.applications[id := db.applications[id].(status := request)]);
      ok := true;
    }

    method DeleteApplication(id: Id) returns (ok: bool)
      requires Valid()
      modifies this
      ensures Valid() && Outcome(db, ok) == Apply(old(db), Op.DeleteApplication(id))
      ensures ApprovedStay(old(db), db)
      ensures ok ==> db == old(db).(applications := old(db).applications - {id})
    {
      ghost var op := Op.DeleteApplication(id);
      ApplyKeepsIntegrity(db, op);
      DeleteApplicationLeaves(db, id);
      hide Integrity, Apply;
      if id !in db.applications { return false; }
      if db.applications[id].status == Approved { return false; }
      db := db.(applications := db.applications - {id});
      ok := true;
    }

    // ---------------------------------------------------------- members

    method UpdateUser(id: Id, cpr: string, phone: string, dob: Option<Calendar.Day>) returns (ok: bool)
      requires Valid()
      modifies this
      ensures Valid() && Outcome(db, ok) == Apply(old(db), Op.UpdateUser(id, cpr, phone, dob))
      ensures ok ==> !CprTaken(db, cpr, id) && !PhoneTaken(db, phone, id)
      ensures ok && id in old(db).users ==>
        db == old(db).(users := old(db).users[id := old(db).users[id].(cpr := cpr, phone := phone, dob := dob)])
    {
      ghost var op := Op.UpdateUser(id, cpr, phone, dob);
      ApplyKeepsIntegrity(db, op);
      UpdateUserLeaves(db, id, cpr, phone, dob);
      TakenIff(db, cpr, phone, id);
      hide Integrity, Apply, SomeMemberHas;
      if CprTaken(db, cpr, id) { return false; }
      if PhoneTaken(db, phone, id) { return false; }
      if id in db.users {
        db := db.(users := db.users[id := db.users[id].(cpr := cpr, phone := phone, dob := dob)]);
      }
      ok := true;
    }

    method SetUserStatus(id: Id, status: MemberStatus) returns (ok: bool)
      requires Valid()
      modifies this
      ensures Valid() && Outcome(db, ok) == Apply(old(db), Op.SetUserStatus(id, status))
      ensures ok && status != Active ==> MemberTokens(db, id) == {}
      ensures ok ==> id in old(db).users
      ensures ok ==>
        db == old(db).(users := old(db).users[id := old(db).users[id].(status := status)], sessions := db.sessions)
    {
      ghost var op := Op.SetUserStatus(id, status);
      ApplyKeepsIntegrity(db, op);
      SetUserStatusLeaves(db, id, status);
      hide Integrity, Apply;
      if id !in db.users { return false; }
      if db.users[id].status == status { return false; }
      db := db.(users := db.users[id := db.users[id].(status := status)]);
      if status != Active {
        db := db.(sessions := db.sessions - MemberTokens(db, id));
      }
      ok := true;
    }

    /** One transaction of five statements. */
    method DeleteUser(id: Id) returns (ok: bool)
      requires Valid()
      modifies this
      ensures Valid() && Outcome(db, ok) == Apply(old(db), Op.DeleteUser(id))
      ensures ok ==> id !in db.users && !HasVoted(db, id) && MemberTokens(db, id) == {}
    {
      ghost var op := Op.DeleteUser(id);
      ApplyKeepsIntegrity(db, op);
      DeleteUserLeaves(db, id);
      hide *;
      if id !in db.users { return false; }
      var application := db.users[id].application;
      ghost var before := db;
      db := db.(votes := db.votes - set v | v in db.votes && db.votes[v].user == id);
      db := DeleteBallots(db, set b | b in db.ballots && db.ballots[b] == id);
      TwoDeletesDropVoter(before, id);
      db := db.(sessions := db.sessions - MemberTokens(db, id));
      if application > 0 {
        db := db.(applications := db.applications - {application});
      }
      ThenRequestAndSessions(DropVoter(before, id), id, application);
      db := DeleteUserRow(db, id);
      FiveDeletes(before, id);
      ok := true;
    }

    /** The five deletes of a member are what the operation leaves. */
    static lemma FiveDeletes(db: Db, id: Id)
      requires id in db.users
      ensures Outcome(DeleteUserRow(DropRequestAndSessions(DropVoter(db, id), id, db.users[id].application), id), true)
        == Apply(db, Op.DeleteUser(id))
    {
      Planned(db, Op.DeleteUser(id), DropUser(id, db.users[id].application));
      hide DeleteUserRow, DropRequestAndSessions, DropVoter;
    }

    static lemma TwoDeletesDropVoter(db: Db, id: Id)
      ensures var fewer := db.(votes := db.votes - set v | v in db.votes && db.votes[v].user == id);
        DeleteBallots(fewer, set b | b in fewer.ballots && fewer.ballots[b] == id) == DropVoter(db, id)
    {
      hide DeleteBallots;
    }

    static lemma ThenRequestAndSessions(db: Db, id: Id, application: Id)
      ensures var left := db.(sessions := db.sessions - MemberTokens(db, id));
        (if application > 0 then left.(applications := left.applications - {application}) else left)
        == DropRequestAndSessions(db, id, application)
    {
      hide MemberTokens;
    }

    // ---------------------------------------------------------- sessions

    /** FindUserByCredentials: the number is unique, so there is at most one such member. */
    method FindUserByCredentials(phone: string, dob: Option<Calendar.Day>, cpr: string) returns (u: Option<Id>)
      requires Valid()
      ensures u == MemberWith(db, phone, dob, cpr)
    {
      var ids := set x | x in db.users && HasCredentials(db, x, phone, dob, cpr);
      var rows := Results.Rows(ids);
      if |rows| == 0 {
        NoRows(rows, ids);
        forall x ensures !HasCredentials(db, x, phone, dob, cpr) { assert x !in ids; }
        return None;
      }
      assert HasCredentials(db, rows[0], phone, dob, cpr) && UniqueCpr(db.users);
      return Some(rows[0]);
    }

    /** The latest request with the number or the phone, 0 when there is none. */
    method LatestRequest(cpr: string, phone: string) returns (latest: Id)
      requires Valid()
      ensures latest == MaxOrZero(RequestsWith(db, cpr, phone))
    {
      var ids := RequestsWith(db, cpr, phone);
      var rows := Results.Rows(ids);
      latest := 0;
      for i := 0 to |rows|
        invariant if i == 0 then latest == 0 else exists k :: 0 <= k < i && rows[k] == latest
        invariant forall k :: 0 <= k < i ==> rows[k] <= latest
      {
        if i == 0 || rows[i] > latest { latest := rows[i]; }
      }
      if rows == [] { NoRows(rows, ids); }
      MaxIsUnique(ids, latest, MaxOrZero(ids));
    }

    /**
     * The login for phone, birthday and number as they are stored. A refusal
     * tells a cancelled member from one whose latest request is still open or was
     * turned down, and both from someone unknown.
     */
    method Login(phone: string, dob: Option<Calendar.Day>, cpr: string, token: string, expires: int)
      returns (reply: LoginReply)
      requires Valid()
      modifies this
      ensures Valid() && Outcome(db, reply == Welcome) == Apply(old(db), Op.Login(phone, dob, cpr, token, expires))
      ensures reply == Cancellation <==>
        var u := MemberWith(old(db), phone, dob, cpr); u.Some? && old(db).users[u.value].status == Cancelled
      ensures MemberWith(old(db), phone, dob, cpr).None? ==>
        reply == ReplyTo(old(db), MaxOrZero(RequestsWith(old(db), cpr, phone)))
      ensures reply != Incomplete
    {
      ghost var op := Op.Login(phone, dob, cpr, token, expires);
      ApplyKeepsIntegrity(db, op);
      LoginDecided(db, phone, dob, cpr, token, expires);
      hide Integrity, Apply, MemberWith;
      var u := FindUserByCredentials(phone, dob, cpr);
      if u.Some? && db.users[u.value].status == Cancelled { return Cancellation; }
      if u.None? {
        var latest := LatestRequest(cpr, phone);
        return ReplyTo(db, latest);
      }
      if token in db.sessions { return Failure; }
      db := db.(sessions := db.sessions[token := Session(Member, u.value, expires)]);
      reply := Welcome;
    }

    /** handleMemberLogin: phone and number are normalised as at registration, or refused. */
    method MemberLogin(phone: string, dob: Option<Calendar.Day>, cpr: string, token: string, expires: int)
      returns (reply: LoginReply)
      requires Valid()
      modifies this
      ensures Valid()
      ensures reply == Incomplete <==> Validation.ValidatePhone(phone).None? || Validation.ValidateCpr(cpr).None?
      ensures reply == Incomplete ==> db == old(db)
      ensures reply != Incomplete ==>
        var op := Op.Login(
          Validation.ValidatePhone(phone).value, dob, Validation.ValidateCpr(cpr).value, token, expires);
        Outcome(db, reply == Welcome) == Apply(old(db), op)
    {
      var validPhone, validCpr := Validation.ValidatePhone(phone), Validation.ValidateCpr(cpr);
      hide *;
      if validPhone.None? || validCpr.None? { return Incomplete; }
      reply := Login(validPhone.value, dob, validCpr.value, token, expires);
    }

    /** The session a token stands for; an expired one is deleted. */
    method LookupSession(token: string, now: int) returns (session: Option<Session>)
      requires Valid()
      modifies this
      ensures Valid() && Outcome(db, true) == Apply(old(db), Op.LookupSession(token, now))
      ensures session ==
        if token in old(db).sessions && !Expired(old(db).sessions[token], now)
        then Some(old(db).sessions[token]) else None
    {
      ghost var op := Op.LookupSession(token, now);
      ApplyKeepsIntegrity(db, op);
      LookupSessionLeaves(db, token, now);
      hide Integrity, Apply;
      if token !in db.sessions { return None; }
      if Expired(db.sessions[token], now) {
        db := db.(sessions := db.sessions - {token});
        return None;
      }
      return Some(db.sessions[token]);
    }

    method DeleteSession(token: string)
      requires Valid()
      modifies this
      ensures Valid() && Outcome(db, true) == Apply(old(db), Op.Logout(token))
      ensures token !in db.sessions
    {
      ApplyKeepsIntegrity(db, Op.Logout(token));
      hide Integrity;
      Planned(db, Op.Logout(token), DropSessions({token}));
      db := db.(sessions := db.sessions - {token});
    }

    method PurgeExpiredSessions(now: int)
      requires Valid()
      modifies this
      ensures Valid() && Outcome(db, true) == Apply(old(db), Op.PurgeSessions(now))
      ensures forall t :: t in db.sessions ==> !Expired(db.sessions[t], now)
    {
      ghost var op := Op.PurgeSessions(now);
      ApplyKeepsIntegrity(db, op);
      PurgeSessionsLeaves(db, now);
      hide Integrity, Apply;
      var expired := set t | t in db.sessions && Expired(db.sessions[t], now);
      db := db.(sessions := db.sessions - expired);
    }
  }
}
