// buildPerson of internal/httpapi/public.go: the answers of the registration form
// against its current definition.
module Registration {
  import opened Prelude
  import opened Validation
  import opened Form

  datatype Person = Person(
    name: string, cpr: string, dob: string, phone: string, email: string,
    house: string, road: string, block: string,
    volunteer: bool, volunteerField: string, affiliated: bool, affiliation: string,
    extra: map<string, string>)

  const BLANK := Person("", "", "", "", "", "", "", "", false, "", false, "", map[])

  /** Refused carries the field that is blamed; "" blames none. */
  datatype Result = Built(person: Person) | Refused(key: string)

  type Values = map<string, string>

  function Answer(answers: Values, key: string): string {
    if key in answers then answers[key] else ""
  }

  /** A conditional field only applies when its controlling answer matches. */
  predicate Applies(f: Field, answers: Values) {
    f.dependsOn == "" || Answer(answers, f.dependsOn) == f.dependsVal
  }

  /** What one field does to the person: nothing, a value under its key, or a refusal. */
  datatype Effect = Skip | Write(value: string) | Refuse

  function FromOption(r: Option<string>): Effect {
    if r.None? then Refuse else Write(r.value)
  }

  /** A field that is only asked for after a yes. */
  function AfterYes(yes: bool, v: string): Effect {
    if !yes then Skip else if v == "" then Refuse else Write(CleanText(v, 120))
  }

  function Address(v: string): string {
    CleanText(NormalizeDigits(v), 40)
  }

  function EffectOf(out: Outside, answers: Values, f: Field): Effect {
    var v := Answer(answers, f.key);
    if !Applies(f, answers) then Skip
    else if f.required && v == "" && f.kind != "yesno" then Refuse
    else if f.key == "name" then FromOption(ValidateArabicName(v))
    else if f.key == "cpr" then FromOption(ValidateCpr(v))
    else if f.key == "dob" then FromOption(ValidateDob(out, v))
    else if f.key == "phone" then FromOption(ValidatePhone(v))
    else if f.key == "email" then FromOption(ValidateEmail(out, v))
    else if f.key == "house" || f.key == "road" || f.key == "block" then Write(Address(v))
    else if f.key == "volunteer" || f.key == "affiliated" then if v == "yes" || v == "no" then Write(v) else Refuse
    else if f.key == "volunteer_field" then AfterYes(Answer(answers, "volunteer") == "yes", v)
    else if f.key == "affiliation" then AfterYes(Answer(answers, "affiliated") == "yes", v)
    else Write(if f.kind == "textarea" then out.cleanMultiline(v, 600) else CleanText(v, 200))
  }

  /** Where an answer is kept: the columns, and the map of custom answers. */
  datatype Slot = Name | Cpr | Dob | Phone | Email | House | Road | Block
    | Volunteer | VolunteerField | Affiliated | Affiliation | Extra(key: string)

  function SlotOf(key: string): Slot {
    match key
    case "name" => Name
    case "cpr" => Cpr
    case "dob" => Dob
    case "phone" => Phone
    case "email" => Email
    case "house" => House
    case "road" => Road
    case "block" => Block
    case "volunteer" => Volunteer
    case "volunteer_field" => VolunteerField
    case "affiliated" => Affiliated
    case "affiliation" => Affiliation
    case _ => Extra(key)
  }

  function PutIn(p: Person, slot: Slot, v: string): Person {
    match slot
    case Name => p.(name := v)
    case Cpr => p.(cpr := v)
    case Dob => p.(dob := v)
    case Phone => p.(phone := v)
    case Email => p.(email := v)
    case House => p.(house := v)
    case Road => p.(road := v)
    case Block => p.(block := v)
    case Volunteer => p.(volunteer := v == "yes")
    case VolunteerField => p.(volunteerField := v)
    case Affiliated => p.(affiliated := v == "yes")
    case Affiliation => p.(affiliation := v)
    case Extra(key) => p.(extra := p.extra[key := v])
  }

  function Put(p: Person, key: string, v: string): Person {
    PutIn(p, SlotOf(key), v)
  }

  predicate Complete(p: Person) {
    p.name != "" && p.cpr != "" && p.dob != "" && p.phone != ""
  }

  /** The fields one after the other, from the `i`-th on. */
  function Walk(out: Outside, fields: seq<Field>, answers: Values, i: nat, p: Person): Result
    requires i <= |fields|
    decreases |fields| - i
  {
    if i == |fields| then if Complete(p) then Built(p) else Refused("") else
    match EffectOf(out, answers, fields[i])
    case Skip => Walk(out, fields, answers, i + 1, p)
    case Refuse => Refused(fields[i].key)
    case Write(v) => Walk(out, fields, answers, i + 1, Put(p, fields[i].key, v))
  }

  function Keys(fields: seq<Field>): set<string> {
    set k | 0 <= k < |fields| :: fields[k].key
  }

  /** The answers to the fields of the page; anything else the browser sent is ignored. */
  function AnswersTo(fields: seq<Field>, values: Values): Values {
    map key | key in Keys(fields) :: TrimSpace(Answer(values, key))
  }

  function Build(out: Outside, fields: seq<Field>, values: Values): Result {
    Walk(out, fields, AnswersTo(fields, values), 0, BLANK)
  }

  method CollectAnswers(fields: seq<Field>, values: Values) returns (answers: Values)
    ensures answers == AnswersTo(fields, values)
  {
    hide TrimSpace;
    answers := map[];
    for i := 0 to |fields|
      invariant answers == AnswersTo(fields[..i], values)
    {
      OneMoreKey(fields, i);
      answers := answers[fields[i].key := TrimSpace(Answer(values, fields[i].key))];
    }
    assert fields[..|fields|] == fields;
  }

  lemma OneMoreKey(fields: seq<Field>, i: nat)
    requires i < |fields|
    ensures Keys(fields[..i + 1]) == Keys(fields[..i]) + {fields[i].key}
  {
    var less, more := fields[..i], fields[..i + 1];
    forall key | key in Keys(more) ensures key in Keys(less) + {fields[i].key} {
      var k :| 0 <= k < |more| && more[k].key == key;
      if k < i { assert less[k].key == key; }
    }
    forall key | key in Keys(less) + {fields[i].key} ensures key in Keys(more) {
      if key == fields[i].key {
        assert more[i].key == key;
      } else {
        var k :| 0 <= k < |less| && less[k].key == key;
        assert more[k].key == key;
      }
    }
  }

  /** The two loops of buildPerson and the check after them. */
  method BuildPerson(out: Outside, fields: seq<Field>, values: Values) returns (r: Result)
    ensures r == Build(out, fields, values)
  {
    var answers := CollectAnswers(fields, values);
    var p := BLANK;
    hide AnswersTo, EffectOf, Put;
    for i := 0 to |fields|
      invariant Walk(out, fields, answers, i, p) == Walk(out, fields, answers, 0, BLANK)
    {
      var f := fields[i];
      var effect := FieldEffect(out, answers, f);
      if effect.Refuse? { return Refused(f.key); }
      if effect.Write? { p := Put(p, f.key, effect.value); }
    }
    if p.name == "" || p.cpr == "" || p.dob == "" || p.phone == "" { return Refused(""); }
    return Built(p);
  }

  /** One turn of the loop: `continue`, the early returns, and the switch over the key. */
  method FieldEffect(out: Outside, answers: Values, f: Field) returns (effect: Effect)
    ensures effect == EffectOf(out, answers, f)
    ensures effect.Write? ==>
      && (f.key == "cpr" ==> |effect.value| == 9) && (f.key == "dob" ==> |effect.value| == 10)
      && (f.key == "phone" ==> |effect.value| == 8)
  {
    if !EffectOf(out, answers, f).Refuse? { CredentialLength(out, answers, f); }
    hide ValidateArabicName, ValidateCpr, ValidateDob, ValidatePhone, ValidateEmail, CleanText, Address;
    var v := Answer(answers, f.key);
    if !Applies(f, answers) { return Skip; }
    if f.required && v == "" && f.kind != "yesno" { return Refuse; }
    match f.key {
      case "name" => return FromOption(ValidateArabicName(v));
      case "cpr" => return FromOption(ValidateCpr(v));
      case "dob" =>
        var dob := CheckDob(out, v);
        return FromOption(dob);
      case "phone" => return FromOption(ValidatePhone(v));
      case "email" => return FromOption(ValidateEmail(out, v));
      case "house" => return Write(Address(v));
      case "road" => return Write(Address(v));
      case "block" => return Write(Address(v));
      case "volunteer" =>
        if v != "yes" && v != "no" { return Refuse; }
        return Write(v);
      case "affiliated" =>
        if v != "yes" && v != "no" { return Refuse; }
        return Write(v);
      case "volunteer_field" =>
        if Answer(answers, "volunteer") != "yes" { return Skip; }
        if v == "" { return Refuse; }
        return Write(CleanText(v, 120));
      case "affiliation" =>
        if Answer(answers, "affiliated") != "yes" { return Skip; }
        if v == "" { return Refuse; }
        return Write(CleanText(v, 120));
      case _ =>
        if f.kind == "textarea" { return Write(out.cleanMultiline(v, 600)); }
        return Write(CleanText(v, 200));
    }
  }

  // ------------------------------------------------------------ the person by key

  /** What a person holds in a slot; None is an absent custom answer. */
  function GetIn(p: Person, slot: Slot): Option<string> {
    match slot
    case Name => Some(p.name)
    case Cpr => Some(p.cpr)
    case Dob => Some(p.dob)
    case Phone => Some(p.phone)
    case Email => Some(p.email)
    case House => Some(p.house)
    case Road => Some(p.road)
    case Block => Some(p.block)
    case Volunteer => Some(if p.volunteer then "yes" else "no")
    case VolunteerField => Some(p.volunteerField)
    case Affiliated => Some(if p.affiliated then "yes" else "no")
    case Affiliation => Some(p.affiliation)
    case Extra(key) => if key in p.extra then Some(p.extra[key]) else None
  }

  function Get(p: Person, key: string): Option<string> {
    GetIn(p, SlotOf(key))
  }

  lemma SlotsAreDistinct(a: string, b: string)
    requires SlotOf(a) == SlotOf(b)
    ensures a == b
  {
  }

  lemma YesNoSlots(key: string)
    ensures (SlotOf(key).Volunteer? ==> key == "volunteer") && (SlotOf(key).Affiliated? ==> key == "affiliated")
  {
  }

  lemma SlotHolds(p: Person, slot: Slot, v: string, other: Slot)
    requires slot.Volunteer? || slot.Affiliated? ==> v == "yes" || v == "no"
    ensures GetIn(PutIn(p, slot, v), other) == if other == slot then Some(v) else GetIn(p, other)
  {
  }

  lemma GetPut(p: Person, key: string, v: string, other: string)
    requires key == "volunteer" || key == "affiliated" ==> v == "yes" || v == "no"
    ensures Get(Put(p, key, v), other) == if other == key then Some(v) else Get(p, other)
  {
    YesNoSlots(key);
    hide SlotOf, GetIn, PutIn;
    SlotHolds(p, SlotOf(key), v, SlotOf(other));
    if SlotOf(other) == SlotOf(key) { SlotsAreDistinct(other, key); }
  }

  /** Extras never sit under the key of a column. */
  ghost predicate ExtrasAreCustom(p: Person) {
    forall key :: key in p.extra ==> SlotOf(key) == Extra(key)
  }

  lemma PutKeepsExtras(p: Person, key: string, v: string)
    requires ExtrasAreCustom(p)
    ensures ExtrasAreCustom(Put(p, key, v))
  {
    assert SlotOf(key).Extra? ==> SlotOf(key) == Extra(key);
    hide SlotOf;
  }

  lemma CoreSlots()
    ensures SlotOf("name") == Name && SlotOf("cpr") == Cpr && SlotOf("dob") == Dob && SlotOf("phone") == Phone
    ensures SlotOf("email") == Email && SlotOf("house") == House && SlotOf("road") == Road && SlotOf("block") == Block
    ensures SlotOf("volunteer") == Volunteer && SlotOf("volunteer_field") == VolunteerField
    ensures SlotOf("affiliated") == Affiliated && SlotOf("affiliation") == Affiliation
  {
  }

  /** A person is what it holds under the keys. */
  lemma SameColumns(p: Person, q: Person)
    requires forall key :: Get(p, key) == Get(q, key)
    ensures p == q.(extra := p.extra)
  {
    CoreSlots();
    hide SlotOf;
    assert Get(p, "name") == Get(q, "name") && Get(p, "cpr") == Get(q, "cpr");
    assert Get(p, "dob") == Get(q, "dob") && Get(p, "phone") == Get(q, "phone");
    assert Get(p, "email") == Get(q, "email") && Get(p, "house") == Get(q, "house");
    assert Get(p, "road") == Get(q, "road") && Get(p, "block") == Get(q, "block");
    assert Get(p, "volunteer") == Get(q, "volunteer") && Get(p, "affiliated") == Get(q, "affiliated");
    assert Get(p, "volunteer_field") == Get(q, "volunteer_field") && Get(p, "affiliation") == Get(q, "affiliation");
  }

  lemma SamePerson(p: Person, q: Person)
    requires ExtrasAreCustom(p) && ExtrasAreCustom(q) && forall key :: Get(p, key) == Get(q, key)
    ensures p == q
  {
    hide SlotOf, Get;
    SameColumns(p, q);
    SameExtras(p, q);
  }

  lemma SameExtras(p: Person, q: Person)
    requires ExtrasAreCustom(p) && ExtrasAreCustom(q) && forall key :: Get(p, key) == Get(q, key)
    ensures p.extra == q.extra
  {
    forall key | key in p.extra ensures key in q.extra && q.extra[key] == p.extra[key] {
      assert Get(p, key) == Get(q, key);
    }
    forall key | key in q.extra ensures key in p.extra { assert Get(p, key) == Get(q, key); }
  }

  function Held(effect: Effect, key: string): Option<string> {
    if effect.Write? then Some(effect.value) else Get(BLANK, key)
  }

  /** Each key holds what the one field with that key writes, and keys without a field are blank. */
  ghost predicate Assembled(out: Outside, fields: seq<Field>, answers: Values, n: nat, p: Person)
    requires n <= |fields|
  {
    && ExtrasAreCustom(p)
    && (forall k :: 0 <= k < n ==> Get(p, fields[k].key) == Held(EffectOf(out, answers, fields[k]), fields[k].key))
    && (forall key :: (forall k :: 0 <= k < n ==> fields[k].key != key) ==> Get(p, key) == Get(BLANK, key))
  }

  lemma YesNoAnswers(out: Outside, answers: Values, f: Field)
    requires f.key == "volunteer" || f.key == "affiliated"
    ensures var e := EffectOf(out, answers, f);
      e.Write? ==> e.value == Answer(answers, f.key) && (e.value == "yes" || e.value == "no")
  {
  }

  /** `q` is `p` with what one field writes under its key. */
  ghost predicate WithEffect(p: Person, q: Person, f: Field, e: Effect) {
    forall key :: Get(q, key) == if key == f.key && e.Write? then Some(e.value) else Get(p, key)
  }

  lemma EffectApplied(out: Outside, answers: Values, f: Field, p: Person)
    requires ExtrasAreCustom(p) && !EffectOf(out, answers, f).Refuse?
    ensures var e := EffectOf(out, answers, f); var q := if e.Write? then Put(p, f.key, e.value) else p;
      ExtrasAreCustom(q) && WithEffect(p, q, f, e)
  {
    var e := EffectOf(out, answers, f);
    if e.Write? {
      if f.key == "volunteer" || f.key == "affiliated" { YesNoAnswers(out, answers, f); }
      PutKeepsExtras(p, f.key, e.value);
      hide EffectOf, Put, Get;
      forall key ensures Get(Put(p, f.key, e.value), key) == if key == f.key then Some(e.value) else Get(p, key) {
        GetPut(p, f.key, e.value, key);
      }
    }
  }

  lemma OneFieldMore(out: Outside, fields: seq<Field>, answers: Values, n: nat, p: Person)
    requires n < |fields| && DistinctKeys(fields) && Assembled(out, fields, answers, n, p)
    requires !EffectOf(out, answers, fields[n]).Refuse?
    ensures var e := EffectOf(out, answers, fields[n]);
      Assembled(out, fields, answers, n + 1, if e.Write? then Put(p, fields[n].key, e.value) else p)
  {
    var f := fields[n];
    EffectApplied(out, answers, f, p);
    hide EffectOf, Get, Put, ExtrasAreCustom;
    var e := EffectOf(out, answers, f);
    var q := if e.Write? then Put(p, f.key, e.value) else p;
    forall k | 0 <= k < n + 1 ensures Get(q, fields[k].key) == Held(EffectOf(out, answers, fields[k]), fields[k].key) {
      if k == n {
        assert forall j :: 0 <= j < n ==> fields[j].key != f.key;
        assert Get(p, f.key) == Get(BLANK, f.key);
      } else {
        assert fields[k].key != f.key;
      }
    }
    forall key | forall k :: 0 <= k < n + 1 ==> fields[k].key != key ensures Get(q, key) == Get(BLANK, key) {
      assert fields[n].key != key;
    }
  }

  ghost predicate NoneRefuses(out: Outside, fields: seq<Field>, answers: Values) {
    forall k :: 0 <= k < |fields| ==> !EffectOf(out, answers, fields[k]).Refuse?
  }

  /** With no refusal the walk ends in the assembled person, if that is complete. */
  lemma {:induction false} WalkAssembles(out: Outside, fields: seq<Field>, answers: Values, i: nat, p: Person)
    returns (q: Person)
    requires i <= |fields| && DistinctKeys(fields) && Assembled(out, fields, answers, i, p)
    requires NoneRefuses(out, fields, answers)
    ensures Assembled(out, fields, answers, |fields|, q)
    ensures Walk(out, fields, answers, i, p) == if Complete(q) then Built(q) else Refused("")
    decreases |fields| - i
  {
    hide Assembled, EffectOf, Put, Complete;
    if i == |fields| {
      q := p;
    } else {
      OneFieldMore(out, fields, answers, i, p);
      var e := EffectOf(out, answers, fields[i]);
      q := WalkAssembles(out, fields, answers, i + 1, if e.Write? then Put(p, fields[i].key, e.value) else p);
    }
  }

  lemma {:induction false} BuiltMeansNoneRefuses(out: Outside, fields: seq<Field>, answers: Values, i: nat, p: Person)
    requires i <= |fields| && Walk(out, fields, answers, i, p).Built?
    ensures forall k :: i <= k < |fields| ==> !EffectOf(out, answers, fields[k]).Refuse?
    decreases |fields| - i
  {
    hide EffectOf, Put, Complete;
    if i < |fields| {
      var e := EffectOf(out, answers, fields[i]);
      BuiltMeansNoneRefuses(out, fields, answers, i + 1, if e.Write? then Put(p, fields[i].key, e.value) else p);
    }
  }

  lemma BlankIsAssembled(out: Outside, fields: seq<Field>, answers: Values)
    ensures Assembled(out, fields, answers, 0, BLANK)
  {
  }

  /** A success: no field refused, and the person is the assembled one. */
  lemma BuiltIsAssembled(out: Outside, fields: seq<Field>, values: Values)
    requires DistinctKeys(fields) && Build(out, fields, values).Built?
    ensures var answers, p := AnswersTo(fields, values), Build(out, fields, values).person;
      NoneRefuses(out, fields, answers) && Assembled(out, fields, answers, |fields|, p) && Complete(p)
  {
    var answers := AnswersTo(fields, values);
    hide AnswersTo, Assembled, EffectOf, Complete, Put;
    BuiltMeansNoneRefuses(out, fields, answers, 0, BLANK);
    BlankIsAssembled(out, fields, answers);
    var q := WalkAssembles(out, fields, answers, 0, BLANK);
  }

  // ------------------------------------------------------------ order does not matter

  ghost predicate SameFields(a: seq<Field>, b: seq<Field>) {
    forall f :: f in a <==> f in b
  }

  lemma SameAnswers(a: seq<Field>, b: seq<Field>, values: Values)
    requires SameFields(a, b)
    ensures AnswersTo(a, values) == AnswersTo(b, values)
  {
    hide TrimSpace;
    forall key ensures key in Keys(a) <==> key in Keys(b) {
      if key in Keys(a) {
        var k :| 0 <= k < |a| && a[k].key == key;
        assert a[k] in b;
        var j :| 0 <= j < |b| && b[j] == a[k];
        assert b[j].key == key;
      }
      if key in Keys(b) {
        var k :| 0 <= k < |b| && b[k].key == key;
        assert b[k] in a;
        var j :| 0 <= j < |a| && a[j] == b[k];
        assert a[j].key == key;
      }
    }
    assert Keys(a) == Keys(b);
  }

  /** The person is assembled from any order of the same fields. */
  lemma AssembledInAnyOrder(out: Outside, a: seq<Field>, b: seq<Field>, answers: Values, p: Person)
    requires SameFields(a, b) && Assembled(out, a, answers, |a|, p)
    ensures Assembled(out, b, answers, |b|, p)
  {
    hide Get, EffectOf, Held;
    forall k | 0 <= k < |b| ensures Get(p, b[k].key) == Held(EffectOf(out, answers, b[k]), b[k].key) {
      assert b[k] in b && b[k] in a;
      var j :| 0 <= j < |a| && a[j] == b[k];
    }
    forall key | forall k :: 0 <= k < |b| ==> b[k].key != key ensures Get(p, key) == Get(BLANK, key) {
      forall j | 0 <= j < |a| ensures a[j].key != key {
        assert a[j] in a && a[j] in b;
        var k :| 0 <= k < |b| && b[k] == a[j];
      }
    }
  }

  /** Two assembled persons are the same. */
  lemma AssembledIsUnique(out: Outside, fields: seq<Field>, answers: Values, p: Person, q: Person)
    requires Assembled(out, fields, answers, |fields|, p) && Assembled(out, fields, answers, |fields|, q)
    ensures p == q
  {
    forall key ensures Get(p, key) == Get(q, key) {
      if k :| 0 <= k < |fields| && fields[k].key == key {
        assert Get(p, fields[k].key) == Get(q, fields[k].key);
      } else {
        assert forall k :: 0 <= k < |fields| ==> fields[k].key != key;
      }
    }
    SamePerson(p, q);
  }

  /**
   * A registration that succeeds gives the same person whatever the order of the
   * fields on the page; only which field a refusal blames can depend on it.
   */
  lemma OrderDoesNotMatter(out: Outside, a: seq<Field>, b: seq<Field>, values: Values)
    requires DistinctKeys(a) && DistinctKeys(b) && SameFields(a, b)
    ensures Build(out, a, values).Built? <==> Build(out, b, values).Built?
    ensures Build(out, a, values).Built? ==> Build(out, a, values) == Build(out, b, values)
  {
    if Build(out, a, values).Built? { SuccessInAnyOrder(out, a, b, values); }
    if Build(out, b, values).Built? { SuccessInAnyOrder(out, b, a, values); }
  }

  lemma SuccessInAnyOrder(out: Outside, a: seq<Field>, b: seq<Field>, values: Values)
    requires DistinctKeys(a) && DistinctKeys(b) && SameFields(a, b) && Build(out, a, values).Built?
    ensures Build(out, b, values) == Build(out, a, values)
  {
    var answers, p := AnswersTo(a, values), Build(out, a, values).person;
    BuiltIsAssembled(out, a, values);
    SameAnswers(a, b, values);
    forall k | 0 <= k < |b| ensures !EffectOf(out, answers, b[k]).Refuse? {
      assert b[k] in b && b[k] in a;
      var j :| 0 <= j < |a| && a[j] == b[k];
    }
    hide EffectOf, Assembled, Complete, AnswersTo;
    BlankIsAssembled(out, b, answers);
    var q := WalkAssembles(out, b, answers, 0, BLANK);
    AssembledInAnyOrder(out, a, b, answers, p);
    AssembledIsUnique(out, b, answers, p, q);
  }

  // ------------------------------------------------------------ on a form an admin can reach

  /** The page of a form: its enabled fields, in any order. */
  ghost predicate IsPage(form: Form, fields: seq<Field>) {
    && DistinctKeys(fields)
    && (forall k :: 0 <= k < |fields| ==> Shown(form, true, fields[k].key) && form.fields[fields[k].key] == fields[k])
    && (forall key :: Shown(form, true, key) ==> form.fields[key] in fields)
  }

  lemma LockedFieldsAreOnThePage(form: Form, fields: seq<Field>, d: nat) returns (k: nat)
    requires Sound(form) && IsPage(form, fields) && d < 4
    ensures k < |fields| && fields[k].key == DEFAULTS[d].key && fields[k].dependsOn == ""
  {
    assert KeepsCore(form, DEFAULTS[d]) && DEFAULTS[d].locked && DEFAULTS[d].dependsOn == "";
    var f := form.fields[DEFAULTS[d].key];
    assert LockedIsShown(f) && Shown(form, true, f.key) && f in fields;
    k :| 0 <= k < |fields| && fields[k] == f;
  }

  /** What the four credentials write is never empty. */
  lemma CredentialsAreNotEmpty(out: Outside, answers: Values, f: Field)
    requires f.key in LOCKED && f.dependsOn == "" && !EffectOf(out, answers, f).Refuse?
    ensures EffectOf(out, answers, f).Write? && EffectOf(out, answers, f).value != ""
  {
    var v := Answer(answers, f.key);
    if f.key == "cpr" { CprIsCanonical(v); }
    hide ValidateDob, NormalizeCpr, DigitsOnly;
  }

  lemma LockedKeys()
    ensures |DEFAULTS| == 12
    ensures DEFAULTS[0].key == "name" && DEFAULTS[1].key == "cpr"
    ensures DEFAULTS[2].key == "dob" && DEFAULTS[3].key == "phone"
    ensures forall d :: 0 <= d < 4 ==> DEFAULTS[d].locked && DEFAULTS[d].dependsOn == "" && DEFAULTS[d].key in LOCKED
  {
  }

  /** One credential of the assembled person. */
  lemma CredentialIsPresent(out: Outside, form: Form, fields: seq<Field>, answers: Values, p: Person, d: nat)
    requires Sound(form) && IsPage(form, fields) && d < 4
    requires NoneRefuses(out, fields, answers) && Assembled(out, fields, answers, |fields|, p)
    ensures Get(p, DEFAULTS[d].key).Some? && Get(p, DEFAULTS[d].key).value != ""
  {
    var k := LockedFieldsAreOnThePage(form, fields, d);
    assert fields[k].key in LOCKED by { LockedKeys(); }
    hide EffectOf, Get;
    CredentialsAreNotEmpty(out, answers, fields[k]);
  }

  /** The last check of buildPerson is never what refuses: every refusal blames a field. */
  lemma CompletenessCheckIsDead(out: Outside, form: Form, fields: seq<Field>, values: Values)
    requires Sound(form) && IsPage(form, fields)
    ensures Build(out, fields, values) != Refused("")
  {
    var answers := AnswersTo(fields, values);
    hide AnswersTo, EffectOf, Assembled;
    if NoneRefuses(out, fields, answers) {
      BlankIsAssembled(out, fields, answers);
      var q := WalkAssembles(out, fields, answers, 0, BLANK);
      forall d | 0 <= d < 4 ensures Get(q, DEFAULTS[d].key).Some? && Get(q, DEFAULTS[d].key).value != "" {
        CredentialIsPresent(out, form, fields, answers, q, d);
      }
      LockedKeys();
      assert Complete(q);
    } else {
      RefusalBlamesAField(out, fields, answers, 0, BLANK);
      forall k | 0 <= k < |fields| ensures fields[k].key != "" { assert Shown(form, true, fields[k].key); }
    }
  }

  lemma {:induction false} RefusalBlamesAField(out: Outside, fields: seq<Field>, answers: Values, i: nat, p: Person)
    requires i <= |fields| && exists k :: i <= k < |fields| && EffectOf(out, answers, fields[k]).Refuse?
    ensures exists k :: i <= k < |fields| && Walk(out, fields, answers, i, p) == Refused(fields[k].key)
    decreases |fields| - i
  {
    hide EffectOf, Put, Complete;
    var e := EffectOf(out, answers, fields[i]);
    if !e.Refuse? {
      RefusalBlamesAField(out, fields, answers, i + 1, if e.Write? then Put(p, fields[i].key, e.value) else p);
    }
  }

  /** The page shows the field with this key. */
  predicate IsOn(fields: seq<Field>, key: string) {
    exists k :: 0 <= k < |fields| && fields[k].key == key
  }

  /** The two questions are asked unconditionally, and the two details hang on their yes. */
  lemma QuestionIsUnconditional(form: Form, f: Field)
    requires Sound(form) && f.key in form.fields && form.fields[f.key] == f
    ensures f.key == "volunteer" || f.key == "affiliated" ==> f.dependsOn == ""
    ensures f.key == "volunteer_field" ==> f.dependsOn == "volunteer" && f.dependsVal == "yes"
    ensures f.key == "affiliation" ==> f.dependsOn == "affiliated" && f.dependsVal == "yes"
  {
    DetailKeys();
    hide DEFAULTS;
    assert KeepsCore(form, DEFAULTS[8]) && KeepsCore(form, DEFAULTS[9]);
    assert KeepsCore(form, DEFAULTS[10]) && KeepsCore(form, DEFAULTS[11]);
  }

  predicate IsQuestion(key: string) {
    key == "volunteer" || key == "affiliated"
  }

  lemma QuestionEffect(out: Outside, answers: Values, f: Field)
    requires IsQuestion(f.key) && f.dependsOn == "" && !EffectOf(out, answers, f).Refuse?
    ensures EffectOf(out, answers, f) == Write(Answer(answers, f.key))
  {
  }

  lemma YesIsRecorded(out: Outside, form: Form, fields: seq<Field>, values: Values, p: Person, key: string)
    requires Sound(form) && IsPage(form, fields) && IsQuestion(key)
    requires NoneRefuses(out, fields, AnswersTo(fields, values))
    requires Assembled(out, fields, AnswersTo(fields, values), |fields|, p)
    ensures Answer(AnswersTo(fields, values), key) == "yes" <==> Get(p, key) == Some("yes")
  {
    var answers := AnswersTo(fields, values);
    CoreSlots();
    hide Sound, EffectOf, SlotOf, TrimSpace;
    if k :| 0 <= k < |fields| && fields[k].key == key {
      assert Shown(form, true, fields[k].key);
      QuestionIsUnconditional(form, fields[k]);
      QuestionEffect(out, answers, fields[k]);
      hide Get;
      assert Get(p, fields[k].key) == Held(EffectOf(out, answers, fields[k]), key);
    } else {
      assert forall k :: 0 <= k < |fields| ==> fields[k].key != key;
      assert key !in Keys(fields);
      assert Get(p, key) == Get(BLANK, key);
    }
  }

  /** A detail and the question it hangs on. */
  predicate IsDetail(key: string, on: string) {
    (key == "volunteer_field" && on == "volunteer") || (key == "affiliation" && on == "affiliated")
  }

  lemma DependentColumn(out: Outside, form: Form, fields: seq<Field>, values: Values, p: Person,
                        key: string, on: string)
    requires Sound(form) && IsPage(form, fields) && IsDetail(key, on)
    requires NoneRefuses(out, fields, AnswersTo(fields, values))
    requires Assembled(out, fields, AnswersTo(fields, values), |fields|, p)
    ensures Get(p, key).Some?
    ensures Get(p, key).value != "" <==> Answer(AnswersTo(fields, values), on) == "yes" && IsOn(fields, key)
    ensures Get(p, key).value != "" ==> Get(p, key).value == CleanText(TrimSpace(Answer(values, key)), 120)
  {
    var answers := AnswersTo(fields, values);
    CoreSlots();
    hide Sound, EffectOf, SlotOf, TrimSpace;
    assert Get(BLANK, key) == Some("");
    if k :| 0 <= k < |fields| && fields[k].key == key {
      assert Shown(form, true, fields[k].key) && IsOn(fields, key);
      QuestionIsUnconditional(form, fields[k]);
      assert key in Keys(fields);
      DependentEffect(out, fields, values, fields[k], on);
      hide Get;
      assert Get(p, fields[k].key) == Held(EffectOf(out, answers, fields[k]), key);
    } else {
      assert forall k :: 0 <= k < |fields| ==> fields[k].key != key;
      assert Get(p, key) == Get(BLANK, key);
    }
  }

  lemma AnswerIsTrimmed(fields: seq<Field>, values: Values, key: string)
    requires key in Keys(fields)
    ensures var v := Answer(AnswersTo(fields, values), key); v != "" ==> !IsSpace(v[0])
  {
    TrimmedStartsWithText(Answer(values, key));
    hide TrimSpace, IsSpace;
  }

  lemma DependentEffect(out: Outside, fields: seq<Field>, values: Values, f: Field, on: string)
    requires IsDetail(f.key, on)
    requires f.dependsOn == on && f.dependsVal == "yes" && f.key in Keys(fields)
    requires !EffectOf(out, AnswersTo(fields, values), f).Refuse?
    ensures var e := EffectOf(out, AnswersTo(fields, values), f);
      if Answer(AnswersTo(fields, values), on) == "yes"
      then e == Write(CleanText(TrimSpace(Answer(values, f.key)), 120)) && e.value != ""
      else e.Skip?
  {
    var answers := AnswersTo(fields, values);
    var v := Answer(answers, f.key);
    AnswerIsTrimmed(fields, values, f.key);
    if v != "" { CleanTextKeepsText(v, 120); }
    hide CleanText, TrimSpace, AnswersTo, Answer;
  }

  lemma Columns(p: Person)
    ensures IsQuestion("volunteer") && IsQuestion("affiliated")
    ensures IsDetail("volunteer_field", "volunteer") && IsDetail("affiliation", "affiliated")
    ensures Get(p, "volunteer_field") == Some(p.volunteerField) && Get(p, "affiliation") == Some(p.affiliation)
    ensures Get(p, "volunteer") == Some("yes") <==> p.volunteer
    ensures Get(p, "affiliated") == Some("yes") <==> p.affiliated
  {
    CoreSlots();
    hide SlotOf;
    assert "yes"[0] != "no"[0];
  }

  /**
   * On any form an admin can reach, a volunteering field or an affiliation is
   * recorded exactly when the answer before it is yes and the form asks for it, so a
   * non-empty one implies the matching yes; and what is recorded is the answer given.
   */
  lemma DetailsFollowTheirQuestion(out: Outside, form: Form, fields: seq<Field>, values: Values)
    requires Sound(form) && IsPage(form, fields) && Build(out, fields, values).Built?
    ensures var p := Build(out, fields, values).person;
      && (p.volunteerField != "" <==> p.volunteer && IsOn(fields, "volunteer_field"))
      && (p.affiliation != "" <==> p.affiliated && IsOn(fields, "affiliation"))
      && (p.volunteerField != "" ==> p.volunteerField == CleanText(TrimSpace(Answer(values, "volunteer_field")), 120))
      && (p.affiliation != "" ==> p.affiliation == CleanText(TrimSpace(Answer(values, "affiliation")), 120))
  {
    BuiltIsAssembled(out, fields, values);
    var p := Build(out, fields, values).person;
    Columns(p);
    hide *;
    YesIsRecorded(out, form, fields, values, p, "volunteer");
    YesIsRecorded(out, form, fields, values, p, "affiliated");
    DependentColumn(out, form, fields, values, p, "volunteer_field", "volunteer");
    DependentColumn(out, form, fields, values, p, "affiliation", "affiliated");
  }

  lemma DetailKeys()
    ensures |DEFAULTS| == 12
    ensures DEFAULTS[8].key == "volunteer" && DEFAULTS[9].key == "volunteer_field"
    ensures DEFAULTS[10].key == "affiliated" && DEFAULTS[11].key == "affiliation"
    ensures DEFAULTS[8].dependsOn == "" && DEFAULTS[10].dependsOn == ""
    ensures DEFAULTS[9].dependsOn == "volunteer" && DEFAULTS[9].dependsVal == "yes"
    ensures DEFAULTS[11].dependsOn == "affiliated" && DEFAULTS[11].dependsVal == "yes"
  {
  }

  /** What the credentials write has the length the login expects. */
  lemma CredentialLength(out: Outside, answers: Values, f: Field)
    requires !EffectOf(out, answers, f).Refuse?
    ensures var e := EffectOf(out, answers, f); e.Write? ==>
      && (f.key == "cpr" ==> |e.value| == 9) && (f.key == "dob" ==> |e.value| == 10)
      && (f.key == "phone" ==> |e.value| == 8)
  {
    var v := Answer(answers, f.key);
    if f.key == "cpr" { CprIsCanonical(v); }
    hide NormalizeCpr, DigitsOnly, CleanText, Address;
  }

  /** A field of the registration that hangs on no answer. */
  predicate IsPlain(key: string) {
    key in {"name", "cpr", "dob", "phone", "email", "house", "road", "block", "volunteer", "affiliated"}
  }

  lemma PlainIsUnconditional(form: Form, f: Field)
    requires Sound(form) && f.key in form.fields && form.fields[f.key] == f && IsPlain(f.key)
    ensures f.dependsOn == ""
  {
    var d := PlainDefault(f.key);
    hide DEFAULTS;
    assert KeepsCore(form, DEFAULTS[d]);
  }

  lemma PlainDefault(key: string) returns (d: nat)
    requires IsPlain(key)
    ensures d < |DEFAULTS| && DEFAULTS[d].key == key && DEFAULTS[d].dependsOn == ""
  {
    LockedKeys();
    DetailKeys();
    MiddleKeys();
    hide DEFAULTS;
    if key == "name" { d := 0; }
    else if key == "cpr" { d := 1; }
    else if key == "dob" { d := 2; }
    else if key == "phone" { d := 3; }
    else if key == "email" { d := 4; }
    else if key == "house" { d := 5; }
    else if key == "road" { d := 6; }
    else if key == "block" { d := 7; }
    else if key == "volunteer" { d := 8; }
    else { d := 10; }
  }

  lemma MiddleKeys()
    ensures |DEFAULTS| == 12
    ensures DEFAULTS[4].key == "email" && DEFAULTS[5].key == "house"
    ensures DEFAULTS[6].key == "road" && DEFAULTS[7].key == "block"
    ensures forall d :: 4 <= d < 8 ==> DEFAULTS[d].dependsOn == ""
  {
  }

  /** What the rules of one field make of an answer. */
  ghost predicate Records(out: Outside, key: string, v: string, w: string) {
    && (key == "name" ==> ValidateArabicName(v) == Some(w)) && (key == "cpr" ==> ValidateCpr(v) == Some(w))
    && (key == "dob" ==> ValidateDob(out, v) == Some(w)) && (key == "phone" ==> ValidatePhone(v) == Some(w))
    && (key == "email" ==> ValidateEmail(out, v) == Some(w))
    && (key in {"house", "road", "block"} ==> w == CleanText(NormalizeDigits(v), 40))
    && (key in {"volunteer", "affiliated"} ==> w == v)
  }

  lemma PlainEffect(out: Outside, answers: Values, f: Field)
    requires IsPlain(f.key) && f.dependsOn == "" && !EffectOf(out, answers, f).Refuse?
    ensures var e := EffectOf(out, answers, f); e.Write? && Records(out, f.key, Answer(answers, f.key), e.value)
  {
    hide ValidateArabicName, ValidateCpr, ValidateDob, ValidatePhone, ValidateEmail, CleanText;
  }

  /** What the assembled person holds under such a key. */
  lemma PlainColumn(out: Outside, form: Form, fields: seq<Field>, values: Values, p: Person, key: string)
    requires Sound(form) && IsPage(form, fields) && IsPlain(key)
    requires NoneRefuses(out, fields, AnswersTo(fields, values))
    requires Assembled(out, fields, AnswersTo(fields, values), |fields|, p)
    ensures if IsOn(fields, key)
      then Get(p, key).Some? && Records(out, key, TrimSpace(Answer(values, key)), Get(p, key).value)
      else Get(p, key) == Get(BLANK, key)
  {
    var answers := AnswersTo(fields, values);
    hide EffectOf, Get, TrimSpace, Records, Sound, IsPlain;
    if k :| 0 <= k < |fields| && fields[k].key == key {
      assert Shown(form, true, fields[k].key) && key in Keys(fields);
      PlainIsUnconditional(form, fields[k]);
      PlainEffect(out, answers, fields[k]);
    } else {
      assert forall k :: 0 <= k < |fields| ==> fields[k].key != key;
    }
  }

  lemma CredentialIsOn(form: Form, fields: seq<Field>, d: nat)
    requires Sound(form) && IsPage(form, fields) && d < 4
    ensures IsOn(fields, DEFAULTS[d].key)
  {
    var k := LockedFieldsAreOnThePage(form, fields, d);
  }

  /** The columns of a person by their keys. */
  lemma ColumnsByKey(p: Person)
    ensures Get(p, "name") == Some(p.name) && Get(p, "cpr") == Some(p.cpr)
    ensures Get(p, "dob") == Some(p.dob) && Get(p, "phone") == Some(p.phone)
    ensures Get(p, "email") == Some(p.email) && Get(p, "house") == Some(p.house)
    ensures Get(p, "road") == Some(p.road) && Get(p, "block") == Some(p.block)
    ensures Get(p, "volunteer") == Some(if p.volunteer then "yes" else "no")
    ensures Get(p, "affiliated") == Some(if p.affiliated then "yes" else "no")
  {
    CoreSlots();
    hide SlotOf;
  }

  /**
   * On any form an admin can reach, the four credentials of a registered person are
   * what the rules make of the four answers.
   */
  lemma CredentialsAreTheAnswers(out: Outside, form: Form, fields: seq<Field>, values: Values)
    requires Sound(form) && IsPage(form, fields) && Build(out, fields, values).Built?
    ensures var p := Build(out, fields, values).person;
      && ValidateArabicName(TrimSpace(Answer(values, "name"))) == Some(p.name)
      && ValidateCpr(TrimSpace(Answer(values, "cpr"))) == Some(p.cpr)
      && ValidateDob(out, TrimSpace(Answer(values, "dob"))) == Some(p.dob)
      && ValidatePhone(TrimSpace(Answer(values, "phone"))) == Some(p.phone)
  {
    BuiltIsAssembled(out, fields, values);
    var p := Build(out, fields, values).person;
    LockedKeys();
    ColumnsByKey(p);
    hide DEFAULTS, Build, Assembled, NoneRefuses, IsOn, IsPage, Sound, Get;
    forall d | 0 <= d < 4 ensures IsOn(fields, DEFAULTS[d].key) { CredentialIsOn(form, fields, d); }
    hide ValidateArabicName, ValidateCpr, ValidateDob, ValidatePhone, ValidateEmail, TrimSpace;
    PlainColumn(out, form, fields, values, p, "name");
    PlainColumn(out, form, fields, values, p, "cpr");
    PlainColumn(out, form, fields, values, p, "dob");
    PlainColumn(out, form, fields, values, p, "phone");
  }

  /** An answer with its digits in ASCII and its white space collapsed, cut to a length. */
  function Cleaned(values: Values, key: string, max: nat): string {
    CleanText(NormalizeDigits(TrimSpace(Answer(values, key))), max)
  }

  /** And so are the other columns, or blank where the page has no such field. */
  lemma ColumnsAreTheAnswers(out: Outside, form: Form, fields: seq<Field>, values: Values)
    requires Sound(form) && IsPage(form, fields) && Build(out, fields, values).Built?
    ensures var p := Build(out, fields, values).person;
      && (if IsOn(fields, "email") then ValidateEmail(out, TrimSpace(Answer(values, "email"))) == Some(p.email)
          else p.email == "")
      && p.house == (if IsOn(fields, "house") then Cleaned(values, "house", 40) else "")
      && p.road == (if IsOn(fields, "road") then Cleaned(values, "road", 40) else "")
      && p.block == (if IsOn(fields, "block") then Cleaned(values, "block", 40) else "")
      && (p.volunteer <==> IsOn(fields, "volunteer") && TrimSpace(Answer(values, "volunteer")) == "yes")
      && (p.affiliated <==> IsOn(fields, "affiliated") && TrimSpace(Answer(values, "affiliated")) == "yes")
  {
    BuiltIsAssembled(out, fields, values);
    var p := Build(out, fields, values).person;
    ColumnsByKey(p);
    ColumnsByKey(BLANK);
    assert "yes"[0] != "no"[0];
    hide Build, Assembled, NoneRefuses, IsOn, IsPage, Sound, Get;
    hide ValidateEmail, CleanText, TrimSpace, NormalizeDigits;
    PlainColumn(out, form, fields, values, p, "email");
    PlainColumn(out, form, fields, values, p, "house");
    PlainColumn(out, form, fields, values, p, "road");
    PlainColumn(out, form, fields, values, p, "block");
    PlainColumn(out, form, fields, values, p, "volunteer");
    PlainColumn(out, form, fields, values, p, "affiliated");
  }

  /**
   * What is kept of a registration reads as what was typed: the same number, the
   * same day, and the eight digits typed with or without the country code.
   */
  lemma RegistrationReadsAsTyped(out: Outside, form: Form, fields: seq<Field>, values: Values)
    requires Sound(form) && IsPage(form, fields) && Build(out, fields, values).Built? && out.today.year <= 9999
    ensures var p := Build(out, fields, values).person;
      var day := ParseDate(out.layouts, SlashesToDashes(TrimSpace(NormalizeDigits(TrimSpace(Answer(values, "dob"))))));
      var digits := DigitsOnly(TrimSpace(Answer(values, "phone")));
      && Number(p.cpr) == Number(DigitsOnly(TrimSpace(Answer(values, "cpr"))))
      && day.Some? && ReadsAs(p.dob, day.value)
      && (digits == "973" + p.phone || (digits == p.phone && !("973" <= p.phone)))
  {
    hide *;
    CredentialsAreTheAnswers(out, form, fields, values);
    CprKeepsItsNumber(TrimSpace(Answer(values, "cpr")));
    StoredDobIsTheDay(out, TrimSpace(Answer(values, "dob")));
    PhoneIsWhatWasTyped(TrimSpace(Answer(values, "phone")), Build(out, fields, values).person.phone);
  }

  /** The field asks for nothing, or its answer meets its rule. */
  ghost predicate Meets(out: Outside, answers: Values, f: Field) {
    var v := Answer(answers, f.key);
    (f.dependsOn != "" && Answer(answers, f.dependsOn) != f.dependsVal) ||
    (&& (f.required && f.kind != "yesno" ==> v != "")
     && (f.key == "name" ==> ValidateArabicName(v).Some?) && (f.key == "cpr" ==> ValidateCpr(v).Some?)
     && (f.key == "dob" ==> ValidateDob(out, v).Some?) && (f.key == "phone" ==> ValidatePhone(v).Some?)
     && (f.key == "email" ==> ValidateEmail(out, v).Some?)
     && (f.key == "volunteer" || f.key == "affiliated" ==> v == "yes" || v == "no")
     && (f.key == "volunteer_field" && Answer(answers, "volunteer") == "yes" ==> v != "")
     && (f.key == "affiliation" && Answer(answers, "affiliated") == "yes" ==> v != ""))
  }

  lemma RefusesIff(out: Outside, answers: Values, f: Field)
    ensures EffectOf(out, answers, f).Refuse? <==> !Meets(out, answers, f)
  {
    hide ValidateArabicName, ValidateCpr, ValidateDob, ValidatePhone, ValidateEmail, CleanText, Address;
  }

  /** A registration is accepted exactly when every field of the page that applies is answered by its rule. */
  lemma RegistrationAcceptedIff(out: Outside, form: Form, fields: seq<Field>, values: Values)
    requires Sound(form) && IsPage(form, fields)
    ensures Build(out, fields, values).Built? <==>
      forall k :: 0 <= k < |fields| ==> Meets(out, AnswersTo(fields, values), fields[k])
  {
    var answers := AnswersTo(fields, values);
    assert DistinctKeys(fields);
    hide Meets, EffectOf, AnswersTo, Assembled, Sound, IsPage, Complete;
    forall k | 0 <= k < |fields|
      ensures EffectOf(out, answers, fields[k]).Refuse? <==> !Meets(out, answers, fields[k])
    {
      RefusesIff(out, answers, fields[k]);
    }
    CompletenessCheckIsDead(out, form, fields, values);
    if NoneRefuses(out, fields, answers) {
      BlankIsAssembled(out, fields, answers);
      var q := WalkAssembles(out, fields, answers, 0, BLANK);
    } else if Build(out, fields, values).Built? {
      BuiltIsAssembled(out, fields, values);
    }
  }

  lemma CustomIff(key: string)
    ensures SlotOf(key).Extra? <==> key !in CORE
    ensures key !in CORE ==> SlotOf(key) == Extra(key)
  {
  }

  /** What a custom field records. */
  lemma CustomEffect(out: Outside, answers: Values, f: Field)
    requires f.key !in CORE && !EffectOf(out, answers, f).Refuse?
    ensures var v := Answer(answers, f.key);
      EffectOf(out, answers, f) ==
        if f.dependsOn != "" && Answer(answers, f.dependsOn) != f.dependsVal then Skip
        else Write(if f.kind == "textarea" then out.cleanMultiline(v, 600) else CleanText(v, 200))
  {
    hide CleanText;
  }

  /** A custom answer is recorded exactly when its field applies, under its key. */
  lemma ExtraIsTheAnswer(out: Outside, fields: seq<Field>, values: Values, k: nat)
    requires DistinctKeys(fields) && Build(out, fields, values).Built? && k < |fields| && fields[k].key !in CORE
    ensures var (f, extra) := (fields[k], Build(out, fields, values).person.extra);
      var v := TrimSpace(Answer(values, f.key));
      if f.dependsOn == "" || Answer(AnswersTo(fields, values), f.dependsOn) == f.dependsVal
      then
        var text := if f.kind == "textarea" then out.cleanMultiline(v, 600) else CleanText(v, 200);
        f.key in extra && extra[f.key] == text
      else f.key !in extra
  {
    BuiltIsAssembled(out, fields, values);
    var p, answers, f := Build(out, fields, values).person, AnswersTo(fields, values), fields[k];
    assert f.key in Keys(fields) && Answer(answers, f.key) == TrimSpace(Answer(values, f.key));
    assert Get(p, f.key) == Held(EffectOf(out, answers, f), f.key) && !EffectOf(out, answers, f).Refuse?;
    hide *;
    CustomEffect(out, answers, f);
    ExtraHeld(p, f.key, EffectOf(out, answers, f));
  }

  lemma ExtraHeld(p: Person, key: string, e: Effect)
    requires key !in CORE && Get(p, key) == Held(e, key)
    ensures if e.Write? then key in p.extra && p.extra[key] == e.value else key !in p.extra
  {
    CustomIff(key);
    hide SlotOf, CORE;
  }

  /** And nothing is recorded under any other key. */
  lemma NoOtherExtras(out: Outside, fields: seq<Field>, values: Values, key: string)
    requires DistinctKeys(fields) && Build(out, fields, values).Built?
    requires key in Build(out, fields, values).person.extra
    ensures IsOn(fields, key) && key !in CORE
  {
    BuiltIsAssembled(out, fields, values);
    var p := Build(out, fields, values).person;
    CustomIff(key);
    hide Build, EffectOf, SlotOf, CORE, DistinctKeys;
    assert !IsOn(fields, key) ==> Get(p, key) == Get(BLANK, key);
  }

  lemma CredentialHeld(out: Outside, form: Form, fields: seq<Field>, answers: Values, p: Person, d: nat)
    requires Sound(form) && IsPage(form, fields) && d < 4
    requires NoneRefuses(out, fields, answers) && Assembled(out, fields, answers, |fields|, p)
    ensures var v := Get(p, DEFAULTS[d].key);
      && v.Some? && (d == 1 ==> |v.value| == 9) && (d == 2 ==> |v.value| == 10) && (d == 3 ==> |v.value| == 8)
  {
    var k := LockedFieldsAreOnThePage(form, fields, d);
    LockedKeys();
    assert fields[k].key in LOCKED;
    hide EffectOf, Get, DEFAULTS;
    CredentialsAreNotEmpty(out, answers, fields[k]);
    CredentialLength(out, answers, fields[k]);
  }

  lemma {:induction false} RefusalIsOnThePage(out: Outside, fields: seq<Field>, answers: Values, i: nat, p: Person)
    requires i <= |fields|
    requires Walk(out, fields, answers, i, p).Refused? && Walk(out, fields, answers, i, p) != Refused("")
    ensures IsOn(fields, Walk(out, fields, answers, i, p).key)
    decreases |fields| - i
  {
    hide EffectOf, Put, Complete;
    if i < |fields| {
      var e := EffectOf(out, answers, fields[i]);
      if !e.Refuse? {
        RefusalIsOnThePage(out, fields, answers, i + 1, if e.Write? then Put(p, fields[i].key, e.value) else p);
      }
    }
  }

  /**
   * Whatever edits an admin made, a registration either carries all four
   * credentials, of the lengths the login expects, or blames a field of the page.
   */
  lemma EveryRegistrationIsComplete(out: Outside, edits: seq<Edit>, fields: seq<Field>, values: Values)
    requires IsPage(AfterEdits(edits), fields)
    ensures match Build(out, fields, values)
      case Built(p) => Complete(p) && |p.cpr| == 9 && |p.dob| == 10 && |p.phone| == 8
      case Refused(key) => key != "" && IsOn(fields, key)
  {
    var form := AfterEdits(edits);
    EveryFormIsSound(edits);
    CompletenessCheckIsDead(out, form, fields, values);
    hide Walk, AnswersTo, Sound, IsOn, Assembled, NoneRefuses, AfterEdits;
    if Build(out, fields, values).Built? {
      BuiltIsAssembled(out, fields, values);
      CredentialLengths(out, form, fields, AnswersTo(fields, values), Build(out, fields, values).person);
    } else {
      RefusalIsOnThePage(out, fields, AnswersTo(fields, values), 0, BLANK);
    }
  }

  lemma CredentialLengths(out: Outside, form: Form, fields: seq<Field>, answers: Values, p: Person)
    requires Sound(form) && IsPage(form, fields)
    requires NoneRefuses(out, fields, answers) && Assembled(out, fields, answers, |fields|, p)
    ensures |p.cpr| == 9 && |p.dob| == 10 && |p.phone| == 8
  {
    LockedKeys();
    CoreSlots();
    hide SlotOf, DEFAULTS, Sound, IsPage, NoneRefuses, Assembled;
    CredentialHeld(out, form, fields, answers, p, 1);
    CredentialHeld(out, form, fields, answers, p, 2);
    CredentialHeld(out, form, fields, answers, p, 3);
  }
}
