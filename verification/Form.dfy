// The editable registration form of internal/store/form.go: the table form_fields
// and the edits an admin can make to it, and what no sequence of edits can undo.
module Form {
  import opened Prelude
  import opened Validation

  datatype Field = Field(
    id: int, key: string, title: string, kind: string, required: bool, enabled: bool,
    core: bool, locked: bool, dependsOn: string, dependsVal: string, order: int)

  /** form_fields by its UNIQUE field_key, and the next AUTOINCREMENT id. */
  datatype Form = Form(fields: map<string, Field>, next: int)

  /** A row of defaultFields; its wording plays no part here. */
  function Default(key: string, kind: string, required: bool, order: int,
                   dependsOn: string, dependsVal: string): Field
  {
    Field(0, key, key, kind, required, true, true, key in LOCKED, dependsOn, dependsVal, order)
  }

  const LOCKED: set<string> := {"name", "cpr", "dob", "phone"}

  const CORE: set<string> := {
    "name", "cpr", "dob", "phone", "email", "house", "road", "block",
    "volunteer", "volunteer_field", "affiliated", "affiliation"}

  const DEFAULTS: seq<Field> := [
    Default("name", "arabic_name", true, 10, "", ""),
    Default("cpr", "cpr", true, 20, "", ""),
    Default("dob", "date", true, 30, "", ""),
    Default("phone", "phone", true, 40, "", ""),
    Default("email", "email", false, 50, "", ""),
    Default("house", "text", true, 60, "", ""),
    Default("road", "text", true, 70, "", ""),
    Default("block", "text", true, 80, "", ""),
    Default("volunteer", "yesno", true, 90, "", ""),
    Default("volunteer_field", "text", true, 100, "volunteer", "yes"),
    Default("affiliated", "yesno", true, 110, "", ""),
    Default("affiliation", "text", true, 120, "affiliated", "yes")]

  const KINDS: set<string> := {
    "text", "textarea", "number", "date", "email", "phone", "cpr", "arabic_name", "yesno", "select"}

  // ------------------------------------------------------------ keys of custom fields

  /** strings.ToLower, as far as the result can survive: ASCII letters, and the two other runes that map to one. */
  function ToLower(c: char): char {
    if 'A' <= c <= 'Z' then 'a' + (c - 'A')
    else if c == '\U{0130}' then 'i'
    else if c == '\U{212A}' then 'k'
    else c
  }

  predicate IsKeyChar(c: char) {
    'a' <= c <= 'z' || '0' <= c <= '9' || c == '_'
  }

  function KeepKeyChars(s: string): (r: string)
    ensures forall k :: 0 <= k < |r| ==> IsKeyChar(r[k])
  {
    if s == "" then "" else
    var c, rest := ToLower(s[0]), KeepKeyChars(s[1..]);
    if 'a' <= c <= 'z' || '0' <= c <= '9' then [c] + rest
    else if c == '_' || c == '-' || c == ' ' then "_" + rest
    else rest
  }

  /** strings.Trim(s, "_"). */
  function TrimUnderscores(s: string): string
    decreases |s|
  {
    if s != "" && s[0] == '_' then TrimUnderscores(s[1..])
    else if s != "" && s[|s| - 1] == '_' then TrimUnderscores(s[..|s| - 1])
    else s
  }

  lemma {:induction false} TrimmedKey(s: string)
    requires forall k :: 0 <= k < |s| ==> IsKeyChar(s[k])
    ensures var r := TrimUnderscores(s);
      (forall k :: 0 <= k < |r| ==> IsKeyChar(r[k])) && (r != "" ==> r[0] != '_' && r[|r| - 1] != '_')
    decreases |s|
  {
    if s != "" && s[0] == '_' {
      TrimmedKey(s[1..]);
    } else if s != "" && s[|s| - 1] == '_' {
      TrimmedKey(s[..|s| - 1]);
    }
  }

  function SanitizeKey(s: string): string {
    var k := TrimUnderscores(KeepKeyChars(TrimSpace(s)));
    if |k| > 40 then k[..40] else k
  }

  lemma {:induction false} KeyCharsAreKept(s: string)
    requires forall k :: 0 <= k < |s| ==> IsKeyChar(s[k])
    ensures KeepKeyChars(s) == s
  {
    if s != "" { KeyCharsAreKept(s[1..]); }
  }

  /** A key that was stored is its own key, unless it was cut right after an underscore. */
  lemma SanitizedAgainIff(s: string)
    ensures var k := SanitizeKey(s); SanitizeKey(k) == k <==> k == "" || k[|k| - 1] != '_'
  {
    SanitizedKey(s);
    var k := SanitizeKey(s);
    KeyCharsAreKept(k);
    if k != "" {
      assert !Validation.IsSpace(k[0]) && !Validation.IsSpace(k[|k| - 1]) by {
        assert IsKeyChar(k[0]) && IsKeyChar(k[|k| - 1]);
      }
      TrimSpaceIs(k, 0, |k|);
      assert k[0..|k|] == k;
    }
    hide SanitizeKey;
    TrimmedShrinks(k);
  }

  lemma {:induction false} TrimmedShrinks(s: string)
    ensures |TrimUnderscores(s)| <= |s|
    ensures TrimUnderscores(s) == s <==> s == "" || (s[0] != '_' && s[|s| - 1] != '_')
    decreases |s|
  {
    if s != "" && s[0] == '_' {
      TrimmedShrinks(s[1..]);
    } else if s != "" && s[|s| - 1] == '_' {
      TrimmedShrinks(s[..|s| - 1]);
    }
  }

  /** A custom key has only letters, digits and inner underscores, unless it was cut at 40. */
  lemma SanitizedKey(s: string)
    ensures var k := SanitizeKey(s);
      && |k| <= 40 && (forall i :: 0 <= i < |k| ==> IsKeyChar(k[i])) && (k != "" ==> k[0] != '_')
      && (0 < |k| < 40 ==> k[|k| - 1] != '_')
  {
    TrimmedKey(KeepKeyChars(TrimSpace(s)));
  }

  // ------------------------------------------------------------ the edits

  function InsertOrIgnore(form: Form, f: Field): Form {
    if f.key in form.fields then form
    else Form(form.fields[f.key := f.(id := form.next)], form.next + 1)
  }

  function InstalledFrom(form: Form, defaults: seq<Field>): Form
    decreases |defaults|
  {
    if defaults == [] then form else InstalledFrom(InsertOrIgnore(form, defaults[0]), defaults[1..])
  }

  /** COALESCE(MAX(sort_order), 0). */
  ghost function MaxOrder(fields: map<string, Field>): int {
    MaxOrZero(set k | k in fields :: fields[k].order)
  }

  datatype Edit = Boot | Update(field: Field) | Add(field: Field) | Delete(key: string) | Reorder(keys: seq<string>)

  datatype Outcome = Outcome(form: Form, ok: bool)

  /** The row an update of an existing field leaves. */
  function Updated(existing: Field, f: Field): Field {
    existing.(title := TrimSpace(f.title),
      kind := if existing.core then existing.kind else f.kind,
      required := existing.locked || f.required,
      enabled := existing.locked || f.enabled,
      dependsOn := if existing.core then existing.dependsOn else f.dependsOn,
      dependsVal := if existing.core then existing.dependsVal else f.dependsVal,
      order := f.order)
  }

  function Reordered(fields: map<string, Field>, keys: seq<string>, n: nat): map<string, Field>
    requires n <= |keys|
  {
    if n == 0 then fields else
    var before := Reordered(fields, keys, n - 1);
    if keys[n - 1] in before then before[keys[n - 1] := before[keys[n - 1]].(order := n * 10)] else before
  }

  ghost function Edited(form: Form, e: Edit): Outcome {
    match e
    case Boot => Outcome(InstalledFrom(form, DEFAULTS), true)
    case Update(f) =>
      if f.key !in form.fields then Outcome(form, false) else
      var row := Updated(form.fields[f.key], f);
      if row.kind !in KINDS || row.title == "" then Outcome(form, false)
      else Outcome(form.(fields := form.fields[f.key := row]), true)
    case Add(f) =>
      var key := SanitizeKey(f.key);
      if key == "" || key in CORE || TrimSpace(f.title) == "" || f.kind !in KINDS || key in form.fields
      then Outcome(form, false)
      else Outcome(Form(form.fields[key := Field(form.next, key, TrimSpace(f.title), f.kind, f.required, f.enabled,
        false, false, f.dependsOn, f.dependsVal, MaxOrder(form.fields) + 10)], form.next + 1), true)
    case Delete(key) =>
      if key in CORE then Outcome(form, false)
      else if key in form.fields && !form.fields[key].core then Outcome(form.(fields := form.fields - {key}), true)
      else Outcome(form, true)
    case Reorder(keys) => Outcome(form.(fields := Reordered(form.fields, keys, |keys|)), true)
  }

  // ------------------------------------------------------------ the store's methods

  predicate Precedes(a: Field, b: Field) {
    a.order < b.order || (a.order == b.order && a.id <= b.id)
  }

  predicate Shown(form: Form, onlyEnabled: bool, key: string) {
    key in form.fields && (onlyEnabled ==> form.fields[key].enabled)
  }

  ghost predicate DistinctKeys(fields: seq<Field>) {
    forall j, k :: 0 <= j < k < |fields| ==> fields[j].key != fields[k].key
  }

  ghost predicate Ordered(fields: seq<Field>) {
    forall j, k :: 0 <= j < k < |fields| ==> Precedes(fields[j], fields[k])
  }

  /** Exactly the fields shown, each once, in the order of the page. */
  ghost predicate Lists(form: Form, onlyEnabled: bool, fields: seq<Field>) {
    && DistinctKeys(fields) && Ordered(fields)
    && (forall k :: 0 <= k < |fields| ==>
          Shown(form, onlyEnabled, fields[k].key) && form.fields[fields[k].key] == fields[k])
    && (forall key :: Shown(form, onlyEnabled, key) ==> form.fields[key] in fields)
  }

  /** The same fields but for their places on the page. */
  ghost predicate OnlyOrdersDiffer(before: map<string, Field>, after: map<string, Field>) {
    && after.Keys == before.Keys
    && forall key :: key in before ==> after[key] == before[key].(order := after[key].order)
  }

  /**
   * What an update makes of a row: its title and place are the new ones; so are the two
   * switches unless it is locked, which sets both, and its type and condition unless it is core.
   */
  ghost predicate TakesOver(was: Field, given: Field, now: Field) {
    && now.id == was.id && now.key == was.key && now.core == was.core && now.locked == was.locked
    && now.title == TrimSpace(given.title) && now.order == given.order
    && (was.locked ==> now.enabled && now.required)
    && (!was.locked ==> (now.enabled <==> given.enabled) && (now.required <==> given.required))
    && (was.core ==> now.kind == was.kind && now.dependsOn == was.dependsOn && now.dependsVal == was.dependsVal)
    && (!was.core ==> now.kind == given.kind && now.dependsOn == given.dependsOn && now.dependsVal == given.dependsVal)
  }

  predicate MayTakeOver(was: Field, given: Field) {
    TrimSpace(given.title) != "" && (if was.core then was.kind else given.kind) in KINDS
  }

  predicate MayAdd(key: string, given: Field) {
    key != "" && key !in CORE && TrimSpace(given.title) != "" && given.kind in KINDS
  }

  /** What an admin adds: a custom field as given, under a new id, ten places after the last one. */
  ghost predicate IsAdded(form: Form, given: Field, now: Field) {
    && now.id == form.next && !now.core && !now.locked && now.title == TrimSpace(given.title) && now.kind == given.kind
    && (now.required <==> given.required) && (now.enabled <==> given.enabled)
    && now.dependsOn == given.dependsOn && now.dependsVal == given.dependsVal
    && (forall k :: k in form.fields ==> form.fields[k].order + 10 <= now.order)
    && (if form.fields == map[] then now.order == 10
        else exists k :: k in form.fields && form.fields[k].order + 10 == now.order)
  }

  class FormStore {
    var form: Form

    constructor ()
      ensures form == Form(map[], 1)
    {
      form := Form(map[], 1);
    }

    method InstallDefaultFields()
      modifies this
      ensures Outcome(form, true) == Edited(old(form), Boot)
    {
      hide InstalledFrom, InsertOrIgnore, DEFAULTS;
      ghost var was := form;
      var defaults := DEFAULTS;
      assert defaults[0..] == defaults;
      for i := 0 to |defaults|
        invariant InstalledFrom(form, defaults[i..]) == InstalledFrom(was, defaults)
      {
        OneMoreInstalled(form, defaults, i);
        form := InsertOrIgnore(form, defaults[i]);
      }
      assert defaults[|defaults|..] == [];
      NoneLeft(form);
    }

    static lemma OneMoreInstalled(form: Form, defaults: seq<Field>, i: nat)
      requires i < |defaults|
      ensures InstalledFrom(form, defaults[i..]) == InstalledFrom(InsertOrIgnore(form, defaults[i]), defaults[i + 1..])
    {
      assert defaults[i..][1..] == defaults[i + 1..];
    }

    static lemma NoneLeft(form: Form)
      ensures InstalledFrom(form, []) == form
    {
    }

    method First(keys: set<string>) returns (key: string)
      requires keys != {} && keys <= form.fields.Keys
      ensures key in keys && forall k :: k in keys ==> Precedes(form.fields[key], form.fields[k])
    {
      assert (forall x :: x !in keys) ==> keys == {};
      key :| key in keys;
      var left := keys - {key};
      while left != {}
        invariant key in keys && left <= keys
        invariant forall k :: k in keys && k !in left ==> Precedes(form.fields[key], form.fields[k])
        decreases left
      {
        assert (forall x :: x !in left) ==> left == {};
        var k :| k in left;
        if !Precedes(form.fields[key], form.fields[k]) { key := k; }
        left := left - {k};
      }
    }

    /** SELECT ... FROM form_fields ... ORDER BY sort_order, id. */
    method Fields(onlyEnabled: bool) returns (fields: seq<Field>)
      requires WellKeyed(form)
      ensures Lists(form, onlyEnabled, fields)
    {
      fields := [];
      var left := set key | key in form.fields && Shown(form, onlyEnabled, key);
      ghost var all := left;
      while left != {}
        invariant left <= all
        invariant DistinctKeys(fields) && Ordered(fields)
        invariant forall k :: 0 <= k < |fields| ==> fields[k].key in all && form.fields[fields[k].key] == fields[k]
        invariant forall k :: 0 <= k < |fields| ==> fields[k].key !in left
        invariant forall k, x :: 0 <= k < |fields| && x in left ==> Precedes(fields[k], form.fields[x])
        invariant forall x :: x in all && x !in left ==> form.fields[x] in fields
        decreases left
      {
        var key := First(left);
        assert form.fields[key].key == key;
        var longer := fields + [form.fields[key]];
        assert forall x :: x in fields ==> x in longer;
        assert longer[|fields|] in longer;
        fields := longer;
        left := left - {key};
      }
    }

    method FieldByKey(key: string) returns (f: Option<Field>)
      requires WellKeyed(form)
      ensures f == if key in form.fields then Some(form.fields[key]) else None
    {
      var fields := Fields(false);
      for i := 0 to |fields|
        invariant forall k :: 0 <= k < i ==> fields[k].key != key
      {
        if fields[i].key == key { return Some(fields[i]); }
      }
      EveryRowIsListed(form, fields, key);
      return None;
    }

    static lemma EveryRowIsListed(form: Form, fields: seq<Field>, key: string)
      requires WellKeyed(form) && Lists(form, false, fields)
      ensures key in form.fields ==> exists k :: 0 <= k < |fields| && fields[k].key == key
    {
      if key in form.fields {
        assert Shown(form, false, key) && form.fields[key] in fields;
      }
    }

    /** Overrules what an admin may not change of this field. */
    static method KeepStructure(existing: Field, field: Field) returns (f: Field)
      ensures f == field.(enabled := f.enabled, required := f.required, kind := f.kind,
        dependsOn := f.dependsOn, dependsVal := f.dependsVal)
      ensures f.enabled == (existing.locked || field.enabled) && f.required == (existing.locked || field.required)
      ensures f.kind == if existing.core then existing.kind else field.kind
      ensures f.dependsOn == if existing.core then existing.dependsOn else field.dependsOn
      ensures f.dependsVal == if existing.core then existing.dependsVal else field.dependsVal
    {
      f := field;
      if existing.locked {
        f := f.(enabled := true);
        f := f.(required := true);
      }
      if existing.core {
        f := f.(kind := existing.kind);
        f := f.(dependsOn := existing.dependsOn);
        f := f.(dependsVal := existing.dependsVal);
      }
    }

    method UpdateField(field: Field) returns (ok: bool)
      requires WellKeyed(form)
      modifies this
      ensures Outcome(form, ok) == Edited(old(form), Update(field))
      ensures form.fields.Keys == old(form).fields.Keys && form.next == old(form).next
      ensures forall key :: key in form.fields && key != field.key ==> form.fields[key] == old(form).fields[key]
      ensures ok ==> field.key in form.fields && TakesOver(old(form).fields[field.key], field, form.fields[field.key])
      ensures ok <==> field.key in old(form).fields && MayTakeOver(old(form).fields[field.key], field)
      ensures !ok ==> form == old(form)
    {
      var found := FieldByKey(field.key);
      hide TrimSpace, KINDS, WellKeyed;
      if found.None? { return false; }
      var existing := found.value;
      var f := KeepStructure(existing, field);
      if f.kind !in KINDS { return false; }
      if TrimSpace(f.title) == "" { return false; }
      form := form.(fields := form.fields[f.key := existing.(title := TrimSpace(f.title), kind := f.kind,
        required := f.required, enabled := f.enabled,
        dependsOn := f.dependsOn, dependsVal := f.dependsVal, order := f.order)]);
      ok := true;
    }

    method SelectMaxOrder() returns (max: int)
      ensures max == MaxOrder(form.fields) && forall k :: k in form.fields ==> form.fields[k].order <= max
    {
      max := 0;
      var left, any := form.fields.Keys, false;
      while left != {}
        invariant left <= form.fields.Keys && (any <==> left != form.fields.Keys)
        invariant forall k :: k in form.fields && k !in left ==> form.fields[k].order <= max
        invariant if any then exists k :: k in form.fields && form.fields[k].order == max else max == 0
        decreases left
      {
        assert (forall x :: x !in left) ==> left == {};
        var k :| k in left;
        if !any || form.fields[k].order > max { max := form.fields[k].order; }
        any := true;
        left := left - {k};
      }
      MaxOfFields(form.fields, max);
    }

    static lemma MaxOfFields(fields: map<string, Field>, max: int)
      requires forall k :: k in fields ==> fields[k].order <= max
      requires if fields.Keys != {} then exists k :: k in fields && fields[k].order == max else max == 0
      ensures max == MaxOrder(fields)
    {
      var orders := set k | k in fields :: fields[k].order;
      if fields.Keys == {} {
        assert orders == {};
      } else {
        var k :| k in fields && fields[k].order == max;
        assert max in orders;
      }
      MaxIsUnique(orders, max, MaxOrder(fields));
    }

    static lemma MaxIsTaken(fields: map<string, Field>, max: int)
      requires max == MaxOrder(fields)
      ensures if fields == map[] then max == 0 else exists k :: k in fields && fields[k].order == max
    {
      var orders := set k | k in fields :: fields[k].order;
      if fields != map[] {
        assert fields.Keys != {};
        var k :| k in fields;
        assert fields[k].order in orders;
      } else {
        assert orders == {};
      }
    }

    method AddField(field: Field) returns (ok: bool)
      modifies this
      ensures Outcome(form, ok) == Edited(old(form), Add(field))
      ensures var key := SanitizeKey(field.key);
        ok <==> MayAdd(key, field) && key !in old(form).fields
      ensures ok ==> var key := SanitizeKey(field.key);
        && form.fields.Keys == old(form).fields.Keys + {key} && form.next == old(form).next + 1
        && form.fields[key].key == key && IsAdded(old(form), field, form.fields[key])
        && forall k :: k in old(form).fields ==> form.fields[k] == old(form).fields[k]
      ensures !ok ==> form == old(form)
    {
      var key := SanitizeKey(field.key);
      if key == "" { return false; }
      if key in CORE { return false; }
      if TrimSpace(field.title) == "" { return false; }
      if field.kind !in KINDS { return false; }
      var max := SelectMaxOrder();
      if key in form.fields { return false; } // UNIQUE
      MaxIsTaken(form.fields, max);
      hide TrimSpace, SanitizeKey;
      form := Form(form.fields[key := Field(form.next, key, TrimSpace(field.title), field.kind, field.required,
        field.enabled, false, false, field.dependsOn, field.dependsVal, max + 10)], form.next + 1);
      ok := true;
    }

    method DeleteField(key: string) returns (ok: bool)
      modifies this
      ensures Outcome(form, ok) == Edited(old(form), Delete(key))
      ensures forall k :: k in old(form).fields && (old(form).fields[k].core || k != key) ==>
        k in form.fields && form.fields[k] == old(form).fields[k]
      ensures ok <==> key !in CORE
      ensures key in form.fields ==> !ok || form.fields[key].core
      ensures form.fields.Keys <= old(form).fields.Keys && form.next == old(form).next
    {
      if key in CORE { return false; }
      if key in form.fields && !form.fields[key].core {
        form := form.(fields := form.fields - {key});
      }
      ok := true;
    }

    method ReorderFields(keys: seq<string>)
      modifies this
      ensures Outcome(form, true) == Edited(old(form), Reorder(keys))
      ensures OnlyOrdersDiffer(old(form).fields, form.fields)
    {
      ghost var was := form;
      for i := 0 to |keys|
        invariant form == was.(fields := Reordered(was.fields, keys, i))
        invariant OnlyOrdersDiffer(was.fields, form.fields)
      {
        if keys[i] in form.fields {
          form := form.(fields := form.fields[keys[i] := form.fields[keys[i]].(order := (i + 1) * 10)]);
        }
      }
    }
  }

  // ------------------------------------------------------------ what no edit undoes

  ghost predicate WellKeyed(form: Form) {
    forall key :: key in form.fields ==> form.fields[key].key == key && key != ""
  }

  /** A core field keeps its type, its condition and its lock. */
  ghost predicate KeepsCore(form: Form, d: Field) {
    && d.key in form.fields
    && var f := form.fields[d.key];
      f.core && f.kind == d.kind && f.dependsOn == d.dependsOn && f.dependsVal == d.dependsVal && f.locked == d.locked
  }

  predicate LockedIsShown(f: Field) {
    f.locked ==> f.enabled && f.required
  }

  /** The definition a validator may rely on. */
  ghost predicate Sound(form: Form) {
    && WellKeyed(form)
    && (forall k :: 0 <= k < |DEFAULTS| ==> KeepsCore(form, DEFAULTS[k]))
    && (forall key :: key in form.fields ==>
          (form.fields[key].core <==> key in CORE) && LockedIsShown(form.fields[key]))
  }

  lemma DefaultsAreCore()
    ensures forall k :: 0 <= k < |DEFAULTS| ==> IsDefault(DEFAULTS[k])
  {
  }

  predicate IsDefault(d: Field) {
    d.key in CORE && d.key != "" && d.core && LockedIsShown(d)
  }

  /** The keys of the defaults, in their order. */
  const DEFAULT_KEYS: seq<string> := [
    "name", "cpr", "dob", "phone", "email", "house", "road", "block",
    "volunteer", "volunteer_field", "affiliated", "affiliation"]

  lemma DefaultKeysAre()
    ensures |DEFAULT_KEYS| == |DEFAULTS| && forall k :: 0 <= k < |DEFAULTS| ==> DEFAULTS[k].key == DEFAULT_KEYS[k]
  {
  }

  lemma DefaultKeysDiffer()
    ensures forall j, k :: 0 <= j < k < |DEFAULT_KEYS| ==> DEFAULT_KEYS[j] != DEFAULT_KEYS[k]
  {
  }

  lemma CoreAreDefaultKeys(key: string)
    requires key in CORE
    ensures key in DEFAULT_KEYS
  {
    var keys := DEFAULT_KEYS;
    assert keys[0] in keys && keys[1] in keys && keys[2] in keys && keys[3] in keys;
    assert keys[4] in keys && keys[5] in keys && keys[6] in keys && keys[7] in keys;
    assert keys[8] in keys && keys[9] in keys && keys[10] in keys && keys[11] in keys;
  }

  lemma DefaultsAreDistinct()
    ensures DistinctKeys(DEFAULTS)
    ensures forall key :: key in CORE ==> exists k :: 0 <= k < |DEFAULTS| && DEFAULTS[k].key == key
  {
    DefaultKeysAre();
    DefaultKeysDiffer();
    hide DEFAULTS, DEFAULT_KEYS, CORE;
    forall key | key in CORE ensures exists k :: 0 <= k < |DEFAULTS| && DEFAULTS[k].key == key {
      CoreAreDefaultKeys(key);
      var k :| 0 <= k < |DEFAULT_KEYS| && DEFAULT_KEYS[k] == key;
      assert DEFAULTS[k].key == key;
    }
  }

  /** A row that installing the defaults has added. */
  predicate FromDefault(d: Field, f: Field) {
    f == d.(id := f.id)
  }

  /** Installing into a table that has none of the defaults adds them all, and nothing else. */
  lemma {:induction false} InstallAddsAll(form: Form, defaults: seq<Field>)
    requires DistinctKeys(defaults)
    requires forall k :: 0 <= k < |defaults| ==> defaults[k].key !in form.fields
    ensures var after := InstalledFrom(form, defaults);
      && (forall key :: key in form.fields ==> key in after.fields && after.fields[key] == form.fields[key])
      && (forall k :: 0 <= k < |defaults| ==>
            defaults[k].key in after.fields && FromDefault(defaults[k], after.fields[defaults[k].key]))
      && (forall key :: key in after.fields && key !in form.fields ==>
            exists k :: 0 <= k < |defaults| && defaults[k].key == key)
    decreases |defaults|
  {
    if defaults != [] {
      var next := InsertOrIgnore(form, defaults[0]);
      assert forall k :: 0 <= k < |defaults[1..]| ==> defaults[1..][k] == defaults[k + 1];
      InstallAddsAll(next, defaults[1..]);
      var after := InstalledFrom(form, defaults);
      assert defaults[0].key in next.fields && after.fields[defaults[0].key] == next.fields[defaults[0].key];
      forall k | 0 <= k < |defaults|
        ensures defaults[k].key in after.fields && FromDefault(defaults[k], after.fields[defaults[k].key])
      {
        if k > 0 { assert defaults[1..][k - 1] == defaults[k]; }
      }
      forall key | key in after.fields && key !in form.fields
        ensures exists k :: 0 <= k < |defaults| && defaults[k].key == key
      {
        if key != defaults[0].key {
          var k :| 0 <= k < |defaults[1..]| && defaults[1..][k].key == key;
          assert defaults[k + 1].key == key;
        }
      }
    }
  }

  lemma FirstBootIsSound()
    ensures Sound(InstalledFrom(Form(map[], 1), DEFAULTS))
  {
    DefaultsAreCore();
    DefaultsAreDistinct();
    hide DEFAULTS, CORE, LOCKED, InstalledFrom;
    InstallAddsAll(Form(map[], 1), DEFAULTS);
    var after := InstalledFrom(Form(map[], 1), DEFAULTS);
    forall key | key in after.fields
      ensures (after.fields[key].core <==> key in CORE) && LockedIsShown(after.fields[key])
      ensures after.fields[key].key == key != ""
    {
      var k :| 0 <= k < |DEFAULTS| && DEFAULTS[k].key == key;
      assert FromDefault(DEFAULTS[k], after.fields[key]) && IsDefault(DEFAULTS[k]);
    }
    forall k | 0 <= k < |DEFAULTS| ensures KeepsCore(after, DEFAULTS[k]) {
      assert FromDefault(DEFAULTS[k], after.fields[DEFAULTS[k].key]) && IsDefault(DEFAULTS[k]);
    }
  }

  /** Later boots find every default in place. */
  lemma {:induction false} InstallAgainIsIdle(form: Form, defaults: seq<Field>)
    requires forall k :: 0 <= k < |defaults| ==> defaults[k].key in form.fields
    ensures InstalledFrom(form, defaults) == form
    decreases |defaults|
  {
    if defaults != [] { InstallAgainIsIdle(form, defaults[1..]); }
  }

  lemma {:induction false} ReorderKeepsSound(form: Form, keys: seq<string>, n: nat)
    requires n <= |keys| && Sound(form)
    ensures Sound(form.(fields := Reordered(form.fields, keys, n)))
  {
    if n > 0 {
      ReorderKeepsSound(form, keys, n - 1);
      var before := form.(fields := Reordered(form.fields, keys, n - 1));
      if keys[n - 1] in before.fields {
        SameButOrder(before, keys[n - 1], before.fields[keys[n - 1]].(order := n * 10));
      }
    }
  }

  /** Replacing a row by one with the same structure. */
  lemma SameButOrder(form: Form, key: string, f: Field)
    requires Sound(form) && key in form.fields
    requires var was := form.fields[key];
      && f.key == was.key && f.core == was.core && f.locked == was.locked
      && (f.core ==> f.kind == was.kind && f.dependsOn == was.dependsOn && f.dependsVal == was.dependsVal)
      && LockedIsShown(f)
    ensures Sound(form.(fields := form.fields[key := f]))
  {
    hide LOCKED, CORE, DEFAULTS;
    var after := form.(fields := form.fields[key := f]);
    forall k | 0 <= k < |DEFAULTS| ensures KeepsCore(after, DEFAULTS[k]) {
      assert KeepsCore(form, DEFAULTS[k]);
    }
  }

  lemma OtherRowsKeepSound(form: Form, after: Form)
    requires Sound(form) && WellKeyed(after)
    requires forall key :: key in CORE && key in form.fields ==>
      key in after.fields && after.fields[key] == form.fields[key]
    requires forall key :: key in after.fields && key !in CORE ==>
      !after.fields[key].core && LockedIsShown(after.fields[key])
    ensures Sound(after)
  {
    DefaultsAreCore();
    hide LOCKED, CORE, DEFAULTS;
    forall k | 0 <= k < |DEFAULTS| ensures KeepsCore(after, DEFAULTS[k]) {
      assert KeepsCore(form, DEFAULTS[k]);
    }
    DefaultsAreDistinct();
    forall key | key in after.fields
      ensures (after.fields[key].core <==> key in CORE) && LockedIsShown(after.fields[key])
    {
      if key in CORE {
        var k :| 0 <= k < |DEFAULTS| && DEFAULTS[k].key == key;
        assert KeepsCore(form, DEFAULTS[k]) && after.fields[key] == form.fields[key];
      }
    }
  }

  lemma EditKeepsSound(form: Form, e: Edit)
    requires Sound(form)
    ensures Sound(Edited(form, e).form)
  {
    match e
    case Boot =>
      assert forall k :: 0 <= k < |DEFAULTS| ==> KeepsCore(form, DEFAULTS[k]);
      InstallAgainIsIdle(form, DEFAULTS);
    case Update(f) =>
      if Edited(form, e).ok {
        SameButOrder(form, f.key, Updated(form.fields[f.key], f));
      }
    case Add(f) => OtherRowsKeepSound(form, Edited(form, e).form);
    case Delete(key) => OtherRowsKeepSound(form, Edited(form, e).form);
    case Reorder(keys) => ReorderKeepsSound(form, keys, |keys|);
  }

  /** The form after the first boot and any edits, refused or not. */
  ghost function AfterEdits(edits: seq<Edit>): Form {
    if edits == [] then InstalledFrom(Form(map[], 1), DEFAULTS)
    else Edited(AfterEdits(edits[..|edits| - 1]), edits[|edits| - 1]).form
  }

  /**
   * Whatever edits are made, name, personal number, date of birth and phone stay on
   * the form: enabled, required, unconditional and of their original type.
   */
  lemma {:induction false} EveryFormIsSound(edits: seq<Edit>)
    ensures Sound(AfterEdits(edits))
  {
    hide Sound, Edited;
    if edits == [] {
      FirstBootIsSound();
    } else {
      EveryFormIsSound(edits[..|edits| - 1]);
      EditKeepsSound(AfterEdits(edits[..|edits| - 1]), edits[|edits| - 1]);
    }
  }

  /** Reordering by a list without repetitions puts the fields in the order of the list. */
  lemma {:induction false} ReorderFollowsList(fields: map<string, Field>, keys: seq<string>, n: nat)
    requires n <= |keys| && forall j, k :: 0 <= j < k < |keys| ==> keys[j] != keys[k]
    ensures Reordered(fields, keys, n).Keys == fields.Keys
    ensures forall k :: 0 <= k < n && keys[k] in fields ==> Reordered(fields, keys, n)[keys[k]].order == (k + 1) * 10
    ensures forall key :: key in fields && key !in keys[..n] ==> Reordered(fields, keys, n)[key] == fields[key]
  {
    if n > 0 {
      ReorderFollowsList(fields, keys, n - 1);
      assert keys[..n] == keys[..n - 1] + [keys[n - 1]];
    }
  }

  /** So the page then shows two fields of the list in the order of the list. */
  lemma PageFollowsList(form: Form, keys: seq<string>, fields: seq<Field>, j: nat, k: nat, a: nat, b: nat)
    requires WellKeyed(form) && forall j, k :: 0 <= j < k < |keys| ==> keys[j] != keys[k]
    requires Lists(Edited(form, Reorder(keys)).form, false, fields)
    requires j < k < |fields| && a < |keys| && b < |keys| && fields[j].key == keys[a] && fields[k].key == keys[b]
    ensures a < b
  {
    ReorderFollowsList(form.fields, keys, |keys|);
    assert Precedes(fields[j], fields[k]) && fields[j].key != fields[k].key;
  }
}
