/**
 * The multi-step booking form controller: field validation per step, forward
 * and backward navigation, the step indicators, and the persistence of the
 * field values and of the current step in the browser's key-value store
 * (keys `bookingFormData` and `bookingFormStep`).
 */
module Booking {
  import opened Wrappers
  import opened Text
  import opened Email
  import opened Progress

  /** The text `validateStep` puts in a field's error message when the e-mail check fails. */
  const EMAIL_MESSAGE := "Please enter a valid email address"

  /**
   * One `input`, `select` or `textarea` of the booking form. `name` is empty
   * for an unnamed field; `step` is the `data-step` of the enclosing
   * `.form-step`, if any; `error` stands for the `error` class together with
   * the display of the field's own error message, and `message` is that
   * message's text. The page looks the message element up through the
   * field's parent, so fields sharing a parent share one; here each field is
   * taken to own its message element.
   */
  datatype Field = Field(
    name: string,
    value: string,
    defaultValue: string,
    required: bool,
    isEmail: bool,
    step: Option<int>,
    error: bool,
    message: string)

  // ---------------------------------------------------------------- validation

  /** `!field.value.trim()`: the value is empty once trimmed. */
  predicate Blank(f: Field) {
    Trim(f.value) == []
  }

  /** An e-mail field whose raw value is non-empty and fails the shape check. */
  predicate BadEmail(f: Field) {
    f.isEmail && f.value != [] && !ValidateEmail(f.value)
  }

  predicate FieldValid(f: Field) {
    !Blank(f) && !BadEmail(f)
  }

  /** The fields `validateStep(s)` visits: the required ones inside step `s`. */
  predicate Checked(f: Field, s: int) {
    f.step == Some(s) && f.required
  }

  /**
   * A field as `validateStep(s)` leaves it: a checked field ends flagged
   * exactly when it is not valid, and shows the e-mail message when its
   * value fails the e-mail check; nothing else about it changes, and a field
   * that is not checked is left as it is.
   */
  function Validated(f: Field, s: int): (r: Field)
    ensures r.name == f.name && r.value == f.value && r.defaultValue == f.defaultValue
    ensures r.required == f.required && r.isEmail == f.isEmail && r.step == f.step
    ensures Checked(f, s) ==> r.error == !FieldValid(f)
    ensures Checked(f, s) && BadEmail(f) ==> r.message == EMAIL_MESSAGE
    ensures !BadEmail(f) ==> r.message == f.message
    ensures !Checked(f, s) ==> r == f
  {
    if !Checked(f, s) then f
    else f.(error := !FieldValid(f), message := if BadEmail(f) then EMAIL_MESSAGE else f.message)
  }

  /**
   * Validation visits every required field of the step, with no early exit:
   * each one's error flag ends set exactly when it failed; every other field
   * and every value are left as they were.
   */
  function ValidateAll(fs: seq<Field>, s: int): (r: seq<Field>)
    ensures |r| == |fs|
    ensures forall k | 0 <= k < |fs| ::
      && r[k].value == fs[k].value
      && (Checked(fs[k], s) ==> r[k].error == !FieldValid(fs[k]))
      && (!Checked(fs[k], s) ==> r[k] == fs[k])
  {
    seq(|fs|, k requires 0 <= k < |fs| => Validated(fs[k], s))
  }

  /** Every required field of step `s` holds a valid value. */
  predicate StepValid(fs: seq<Field>, s: int) {
    forall k | 0 <= k < |fs| :: Checked(fs[k], s) ==> FieldValid(fs[k])
  }

  /** One more field to check: the step stays valid when that field is valid or unchecked. */
  lemma StepValidAppend(fs: seq<Field>, f: Field, s: int)
    ensures StepValid(fs + [f], s) == (StepValid(fs, s) && (Checked(f, s) ==> FieldValid(f)))
  {
    var all := fs + [f];
    assert all[|fs|] == f;
    assert forall k | 0 <= k < |fs| :: all[k] == fs[k];
  }

  lemma ValidateAllAppend(fs: seq<Field>, f: Field, s: int)
    ensures ValidateAll(fs + [f], s) == ValidateAll(fs, s) + [Validated(f, s)]
  {
  }

  /** Extending the visited prefix by one field. */
  lemma OneMoreField(fs: seq<Field>, k: nat, s: int)
    requires k < |fs|
    ensures ValidateAll(fs[..k + 1], s) == ValidateAll(fs[..k], s) + [Validated(fs[k], s)]
    ensures StepValid(fs[..k + 1], s) == (StepValid(fs[..k], s) && (Checked(fs[k], s) ==> FieldValid(fs[k])))
  {
    assert fs[..k + 1] == fs[..k] + [fs[k]];
    StepValidAppend(fs[..k], fs[k], s);
    ValidateAllAppend(fs[..k], fs[k], s);
  }

  /**
   * A field is valid when its value holds something other than white space
   * and, for a non-empty e-mail field, the value has the shape of the pattern
   * `^[^\s@]+@[^\s@]+\.[^\s@]+$`.
   */
  lemma FieldValidMeans(f: Field)
    ensures FieldValid(f) <==>
      && !AllWhitespace(f.value)
      && (f.isEmail && f.value != [] ==> MatchesPattern(f.value))
  {
    TrimEmptyIff(f.value);
  }

  /** Validating a second time gives the same fields and the same verdict. */
  lemma ValidateAllEffect(fs: seq<Field>, s: int)
    ensures StepValid(ValidateAll(fs, s), s) == StepValid(fs, s)
    ensures ValidateAll(ValidateAll(fs, s), s) == ValidateAll(fs, s)
  {
    var once := ValidateAll(fs, s);
    forall k | 0 <= k < |fs| ensures Checked(once[k], s) == Checked(fs[k], s) && FieldValid(once[k]) == FieldValid(fs[k]) {
      assert once[k].value == fs[k].value;
    }
  }

  /**
   * The body of `validateStep`'s loop for one field: a required field of step
   * `s` has its error set when its trimmed value is empty and cleared
   * otherwise, and set again (with the e-mail message) when it is an e-mail
   * field whose non-empty value fails the shape check.
   */
  method CheckField(f: Field, s: int) returns (g: Field, passed: bool)
    ensures g == Validated(f, s)
    ensures passed == (Checked(f, s) ==> FieldValid(f))
  {
    g, passed := f, true;
    if f.step == Some(s) && f.required {
      if Trim(f.value) == [] {
        g := g.(error := true);
        passed := false;
      } else {
        g := g.(error := false);
      }
      if f.isEmail && f.value != [] && !ValidateEmail(f.value) {
        g := g.(error := true, message := EMAIL_MESSAGE);
        passed := false;
      }
    }
  }

  // ---------------------------------------------------------------- persistence

  /** The position of the last field named `key`, if any; an empty name is never matched. */
  function LastNamed(fs: seq<Field>, key: string): (r: Option<nat>)
    ensures r.Some? ==>
      && key != [] && r.value < |fs| && fs[r.value].name == key
      && forall j | r.value < j < |fs| :: fs[j].name != key
    ensures r.None? ==> key == [] || forall j | 0 <= j < |fs| :: fs[j].name != key
  {
    if fs == [] then None
    else if key != [] && fs[|fs| - 1].name == key then Some(|fs| - 1)
    else LastNamed(fs[..|fs| - 1], key)
  }

  /** The record `saveFormData` writes: `m` with every named field's value put in, in order. */
  function Saved(m: map<string, string>, fs: seq<Field>): (r: map<string, string>)
    ensures r.Keys == m.Keys + Names(fs)
  {
    if fs == [] then m
    else
      var init := fs[..|fs| - 1];
      var r := Saved(m, init);
      var f := fs[|fs| - 1];
      NamesOfLast(fs);
      if f.name != [] then r[f.name := f.value] else r
  }

  /** The non-empty names of the fields. */
  function Names(fs: seq<Field>): set<string> {
    set k | 0 <= k < |fs| && fs[k].name != [] :: fs[k].name
  }

  /** The names of `fs`: those of all but the last field, and the last one's. */
  lemma NamesOfLast(fs: seq<Field>)
    requires fs != []
    ensures Names(fs) == Names(fs[..|fs| - 1]) + (if fs[|fs| - 1].name != [] then {fs[|fs| - 1].name} else {})
  {
    var init := fs[..|fs| - 1];
    assert forall k | 0 <= k < |init| :: init[k] == fs[k];
  }

  /**
   * Saving is a merge: a key belongs to the new record when it was stored
   * before or names a field; a field's name maps to its value, the last
   * field winning among fields of the same name; every other key keeps its
   * stored value, and unnamed fields contribute nothing.
   */
  lemma {:induction false} SavedLookup(m: map<string, string>, fs: seq<Field>, key: string)
    ensures key in Saved(m, fs) <==> key in m || LastNamed(fs, key).Some?
    ensures LastNamed(fs, key).Some? ==> Saved(m, fs)[key] == fs[LastNamed(fs, key).value].value
    ensures LastNamed(fs, key).None? && key in m ==> Saved(m, fs)[key] == m[key]
  {
    if fs != [] {
      var init := fs[..|fs| - 1];
      SavedLookup(m, init, key);
      if LastNamed(fs, key) != Some(|fs| - 1) {
        assert LastNamed(fs, key) == LastNamed(init, key);
        if LastNamed(init, key).Some? {
          assert fs[LastNamed(init, key).value] == init[LastNamed(init, key).value];
        }
      }
    }
  }

  /**
   * `restoreFormData` on one field: a named field the record holds takes the
   * stored value; only the value can change, only to that entry, and without
   * a record or a name nothing does.
   */
  function Restored(f: Field, record: Option<map<string, string>>): (r: Field)
    ensures r.(value := f.value) == f
    ensures record.None? || f.name == [] ==> r == f
    ensures r.value == f.value || (record.Some? && f.name in record.value && r.value == record.value[f.name])
    ensures record.Some? && f.name != [] && f.name in record.value ==> r.value == record.value[f.name]
  {
    if record.Some? && f.name != [] && f.name in record.value then f.(value := record.value[f.name]) else f
  }

  /**
   * `restoreFormData` on the whole form: every named field the record holds
   * takes the stored value, every other field is left as it is, and only
   * values change.
   */
  function RestoreAll(fs: seq<Field>, record: Option<map<string, string>>): (r: seq<Field>)
    ensures |r| == |fs|
    ensures forall k | 0 <= k < |fs| :: r[k].(value := fs[k].value) == fs[k]
    ensures forall k | 0 <= k < |fs| ::
      record.Some? && fs[k].name != [] && fs[k].name in record.value ==> r[k].value == record.value[fs[k].name]
    ensures forall k | 0 <= k < |fs| ::
      !(record.Some? && fs[k].name != [] && fs[k].name in record.value) ==> r[k] == fs[k]
    ensures record.None? ==> r == fs
  {
    seq(|fs|, k requires 0 <= k < |fs| => Restored(fs[k], record))
  }

  /** `bookingForm.reset()`: every field goes back to its default value, and nothing else changes. */
  function ResetAll(fs: seq<Field>): (r: seq<Field>)
    ensures |r| == |fs|
    ensures forall k | 0 <= k < |fs| :: r[k].value == fs[k].defaultValue && r[k].(value := fs[k].value) == fs[k]
  {
    seq(|fs|, k requires 0 <= k < |fs| => fs[k].(value := fs[k].defaultValue))
  }

  /** No two fields share a non-empty name. */
  predicate DistinctNames(fs: seq<Field>) {
    forall i, j | 0 <= i < j < |fs| :: fs[i].name != [] ==> fs[i].name != fs[j].name
  }

  /** With distinct names, restoring what was just saved changes no field. */
  lemma {:induction false} SaveThenRestore(m: map<string, string>, fs: seq<Field>)
    requires DistinctNames(fs)
    ensures RestoreAll(fs, Some(Saved(m, fs))) == fs
  {
    forall k | 0 <= k < |fs| ensures Restored(fs[k], Some(Saved(m, fs))) == fs[k] {
      var key := fs[k].name;
      SavedLookup(m, fs, key);
      if key != [] {
        assert LastNamed(fs, key) == Some(k);
      }
    }
  }

  /**
   * After a reload the fields hold their defaults again; restoring the saved
   * record brings every named field back to the value it had when it was
   * saved, while unnamed fields keep their default.
   */
  lemma {:induction false} SaveThenReload(m: map<string, string>, fs: seq<Field>)
    requires DistinctNames(fs)
    ensures forall k | 0 <= k < |fs| ::
      RestoreAll(ResetAll(fs), Some(Saved(m, fs)))[k].value ==
        if fs[k].name != [] then fs[k].value else fs[k].defaultValue
  {
    forall k | 0 <= k < |fs|
      ensures RestoreAll(ResetAll(fs), Some(Saved(m, fs)))[k].value ==
        if fs[k].name != [] then fs[k].value else fs[k].defaultValue
    {
      var key := fs[k].name;
      SavedLookup(m, fs, key);
      if key != [] {
        assert LastNamed(fs, key) == Some(k);
      }
    }
  }

  /** With duplicate names the record holds the later field's value, so restoring overwrites the earlier one. */
  lemma {:induction false} DuplicateNameLastWins(m: map<string, string>, fs: seq<Field>, i: nat, j: nat)
    requires i < j < |fs| && fs[i].name != [] && fs[i].name == fs[j].name
    requires forall k | j < k < |fs| :: fs[k].name != fs[j].name
    ensures RestoreAll(fs, Some(Saved(m, fs)))[i].value == fs[j].value
  {
    var record := Saved(m, fs);
    SavedLookup(m, fs, fs[j].name);
    assert LastNamed(fs, fs[j].name) == Some(j);
    assert RestoreAll(fs, Some(record))[i] == Restored(fs[i], Some(record));
  }

  // ---------------------------------------------------------------- the form

  /**
   * The page state the controller works on: the ids of the `.form-step`
   * elements, the active step (at most one), the two stored records, the
   * form's fields, the `.step` indicators and the percentage on display.
   */
  class BookingForm {
    const steps: set<int>
    var active: Option<int>
    /** `bookingFormData`; None when the key is absent. */
    var storedFields: Option<map<string, string>>
    /** `bookingFormStep`; None when the key is absent. */
    var storedStep: Option<int>
    const fields: array<Field>
    const indicators: array<Indicator>
    var percent: int

    /** The active step, when there is one, is one of the form's steps. */
    ghost predicate Valid()
      reads this
    {
      active.Some? ==> active.value in steps
    }

    /** The indicators and the percentage show step `s`. */
    ghost predicate Shows(s: int)
      reads this, indicators
    {
      indicators[..] == Render(indicators.Length, s) && percent == Percent(s)
    }

    constructor (steps: set<int>, fields: seq<Field>, indicators: seq<Indicator>, active: Option<int>,
                 storedFields: Option<map<string, string>>, storedStep: Option<int>, percent: int)
      requires active.Some? ==> active.value in steps
      ensures Valid()
      ensures this.steps == steps && this.fields[..] == fields && this.indicators[..] == indicators
      ensures this.active == active && this.storedFields == storedFields && this.storedStep == storedStep
      ensures this.percent == percent
      ensures fresh(this.fields) && fresh(this.indicators)
    {
      this.steps := steps;
      this.fields := new Field[|fields|](k requires 0 <= k < |fields| => fields[k]);
      this.indicators := new Indicator[|indicators|](k requires 0 <= k < |indicators| => indicators[k]);
      this.active := active;
      this.storedFields := storedFields;
      this.storedStep := storedStep;
      this.percent := percent;
    }

    /** `updateStepUI`: classify every indicator against `s` and show the percentage for `s`. */
    method UpdateStepUI(s: int)
      modifies indicators, this`percent
      ensures Shows(s)
    {
      var k := 0;
      while k < indicators.Length
        invariant 0 <= k <= indicators.Length
        invariant forall j | 0 <= j < k :: indicators[j] == Classify(j + 1, s)
      {
        indicators[k] := Classify(k + 1, s);
        k := k + 1;
      }
      percent := Percent(s);
    }

    /** `saveFormData`: merge the named fields' values into the stored record. */
    method SaveFormData()
      modifies this`storedFields
      ensures storedFields == Some(Saved(old(storedFields).GetOr(map[]), fields[..]))
    {
      var data := storedFields.GetOr(map[]);
      var k := 0;
      while k < fields.Length
        invariant 0 <= k <= fields.Length
        invariant data == Saved(storedFields.GetOr(map[]), fields[..k])
      {
        var f := fields[k];
        if f.name != [] {
          data := data[f.name := f.value];
        }
        assert fields[..k + 1][..k] == fields[..k];
        k := k + 1;
      }
      assert fields[..] == fields[..fields.Length];
      storedFields := Some(data);
    }

    /** `restoreFormData`: named fields the stored record holds take the stored value. */
    method RestoreFormData()
      modifies fields
      ensures fields[..] == RestoreAll(old(fields[..]), storedFields)
    {
      if storedFields.None? {
        return;
      }
      var record := storedFields.value;
      var k := 0;
      while k < fields.Length
        invariant 0 <= k <= fields.Length
        invariant forall j | 0 <= j < k :: fields[j] == Restored(old(fields[j]), storedFields)
        invariant forall j | k <= j < fields.Length :: fields[j] == old(fields[j])
      {
        var f := fields[k];
        if f.name != [] && f.name in record {
          fields[k] := f.(value := record[f.name]);
        }
        k := k + 1;
      }
    }

    /**
     * The form's `input` and `change` listeners: the user sets field `k` to
     * `v`, and `saveFormData` runs.
     */
    method Input(k: nat, v: string)
      requires k < fields.Length
      modifies fields, this`storedFields
      ensures fields[..] == old(fields[..])[k := old(fields[k]).(value := v)]
      ensures storedFields == Some(Saved(old(storedFields).GetOr(map[]), fields[..]))
      ensures fields[k].name != [] && DistinctNames(fields[..]) ==>
        fields[k].name in storedFields.value && storedFields.value[fields[k].name] == v
    {
      fields[k] := fields[k].(value := v);
      SaveFormData();
      if fields[k].name != [] && DistinctNames(fields[..]) {
        SavedLookup(old(storedFields).GetOr(map[]), fields[..], fields[k].name);
        assert LastNamed(fields[..], fields[k].name) == Some(k);
      }
    }

    /**
     * `validateStep(s)`: visit every required field of step `s`, set or clear
     * its error, and report whether all of them passed.
     */
    method ValidateStep(s: int) returns (ok: bool)
      requires s in steps
      modifies fields
      ensures ok == StepValid(old(fields[..]), s)
      ensures fields[..] == ValidateAll(old(fields[..]), s)
    {
      ok := true;
      ghost var before := fields[..];
      var k := 0;
      while k < fields.Length
        invariant 0 <= k <= fields.Length
        invariant ok == StepValid(before[..k], s)
        invariant fields[..k] == ValidateAll(before[..k], s)
        invariant fields[k..] == before[k..]
      {
        assert fields[k] == before[k];
        var f, passed := CheckField(fields[k], s);
        OneMoreField(before, k, s);
        ghost var done := fields[..k];
        fields[k] := f;
        ok := ok && passed;
        assert fields[..k] == done;
        assert fields[..k + 1] == done + [f];
        assert fields[k + 1..] == before[k + 1..];
        k := k + 1;
      }
      assert before[..k] == before;
    }

    /**
     * `nextStep`: validate the active step; on success deactivate it and, when
     * the following step exists, activate it, store it and show it. Past the
     * last step this leaves no step active.
     */
    method NextStep()
      requires Valid()
      modifies this`active, this`storedStep, this`percent, fields, indicators
      ensures Valid()
      ensures old(active).None? ==>
        && active == old(active) && storedStep == old(storedStep) && percent == old(percent)
        && fields[..] == old(fields[..]) && indicators[..] == old(indicators[..])
      ensures old(active).Some? ==>
        var s := old(active).value;
        && fields[..] == ValidateAll(old(fields[..]), s)
        && if !StepValid(old(fields[..]), s) then
             && active == old(active) && storedStep == old(storedStep)
             && percent == old(percent) && indicators[..] == old(indicators[..])
           else if s + 1 in steps then
             active == Some(s + 1) && storedStep == Some(s + 1) && Shows(s + 1)
           else
             && active == None && storedStep == old(storedStep)
             && percent == old(percent) && indicators[..] == old(indicators[..])
    {
      if active.None? {
        return;
      }
      var s := active.value;
      var ok := ValidateStep(s);
      if !ok {
        return;
      }
      active := None;
      if s + 1 in steps {
        active := Some(s + 1);
        storedStep := Some(s + 1);
        UpdateStepUI(s + 1);
      }
    }

    /**
     * `prevStep`: with no validation, deactivate the active step and, when the
     * preceding step exists, activate it, store it and show it. Before the
     * first step this leaves no step active.
     */
    method PrevStep()
      requires Valid()
      modifies this`active, this`storedStep, this`percent, indicators
      ensures Valid()
      ensures old(active).None? ==>
        && active == old(active) && storedStep == old(storedStep)
        && percent == old(percent) && indicators[..] == old(indicators[..])
      ensures old(active).Some? ==>
        var s := old(active).value;
        if s - 1 in steps then
          active == Some(s - 1) && storedStep == Some(s - 1) && Shows(s - 1)
        else
          && active == None && storedStep == old(storedStep)
          && percent == old(percent) && indicators[..] == old(indicators[..])
    {
      if active.None? {
        return;
      }
      var s := active.value;
      active := None;
      if s - 1 in steps {
        active := Some(s - 1);
        storedStep := Some(s - 1);
        UpdateStepUI(s - 1);
      }
    }

    /**
     * The page-load handler: restore the field values, then pick the stored
     * step (step 1 when none is stored), deactivate every step, and activate,
     * show and store the chosen one when it exists.
     */
    method Load()
      requires Valid()
      modifies this`active, this`storedStep, this`percent, fields, indicators
      ensures Valid()
      ensures fields[..] == RestoreAll(old(fields[..]), storedFields)
      ensures var s := old(storedStep).GetOr(1);
        if s in steps then
          active == Some(s) && storedStep == Some(s) && Shows(s)
        else
          && active == None && storedStep == old(storedStep)
          && percent == old(percent) && indicators[..] == old(indicators[..])
    {
      RestoreFormData();
      var s := storedStep.GetOr(1);
      active := None;
      if s in steps {
        active := Some(s);
        UpdateStepUI(s);
        storedStep := Some(s);
      }
    }

    /**
     * The booking form's submit handler. It validates step `TOTAL_STEPS`
     * whichever step is active; on success (`confirmed`, when the
     * confirmation is shown) the fields go back to their defaults, both
     * stored records are removed and step 1 becomes the only active step.
     * When step `TOTAL_STEPS` does not exist the lookup of its element fails
     * and nothing changes; when step 1 does not exist the handler stops after
     * deactivating every step.
     */
    method Submit() returns (confirmed: bool)
      requires Valid()
      modifies this`active, this`storedStep, this`storedFields, this`percent, fields, indicators
      ensures Valid()
      ensures confirmed <==> TOTAL_STEPS in steps && StepValid(old(fields[..]), TOTAL_STEPS)
      ensures TOTAL_STEPS !in steps ==> fields[..] == old(fields[..])
      ensures TOTAL_STEPS in steps && !confirmed ==> fields[..] == ValidateAll(old(fields[..]), TOTAL_STEPS)
      ensures !confirmed ==>
        && active == old(active) && storedStep == old(storedStep) && storedFields == old(storedFields)
        && percent == old(percent) && indicators[..] == old(indicators[..])
      ensures confirmed ==>
        && fields[..] == ResetAll(ValidateAll(old(fields[..]), TOTAL_STEPS))
        && storedFields == None && storedStep == None
        && if 1 in steps then active == Some(1) && Shows(1)
           else active == None && percent == old(percent) && indicators[..] == old(indicators[..])
    {
      if TOTAL_STEPS !in steps {
        return false;
      }
      confirmed := ValidateStep(TOTAL_STEPS);
      if !confirmed {
        return;
      }
      ResetFields();
      storedFields := None;
      storedStep := None;
      active := None;
      if 1 in steps {
        active := Some(1);
        UpdateStepUI(1);
      }
    }

    /** `bookingForm.reset()`: every field takes its default value. */
    method ResetFields()
      modifies fields
      ensures fields[..] == ResetAll(old(fields[..]))
    {
      var k := 0;
      while k < fields.Length
        invariant 0 <= k <= fields.Length
        invariant forall j | 0 <= j < k :: fields[j] == old(fields[j]).(value := old(fields[j]).defaultValue)
        invariant forall j | k <= j < fields.Length :: fields[j] == old(fields[j])
      {
        fields[k] := fields[k].(value := fields[k].defaultValue);
        k := k + 1;
      }
    }
  }

  /**
   * Advancing from a valid step `s` to an existing step `s + 1` and then
   * going back returns to step `s`: it is active, stored and shown again.
   */
  method NextThenPrev(form: BookingForm, s: int)
    requires form.Valid() && form.active == Some(s) && s + 1 in form.steps
    requires StepValid(form.fields[..], s)
    modifies form, form.fields, form.indicators
    ensures form.Valid()
    ensures form.active == Some(s) && form.storedStep == Some(s) && form.Shows(s)
    ensures form.fields[..] == ValidateAll(old(form.fields[..]), s)
  {
    form.NextStep();
    form.PrevStep();
  }
}
