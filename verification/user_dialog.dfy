/**
  `UpdateUserInfoDialog`: a modal with a mode, a visibility flag, a
  remembered key, the options (with the `onOk` callback) it was opened with,
  and the form values. The callback is a type parameter `H`; submitting
  returns which callback to invoke with which value instead of invoking it.
 */
module UserDialog {
  import opened Records

  /** The `mode` state: `''` before the first open, then `create`, `edit` or `show`. */
  datatype Mode = Unset | Create | Edit | Show

  /** The values held by the dialog's form items. */
  datatype FormValues = FormValues(name: string, sex: Field, age: Field, createdAt: string)

  /** The form after `setFieldsValue(initValue)`, or after `resetFields()` (the form has no initial values). */
  const Blank: FormValues := FormValues("", Empty, Empty, "")

  /** The form after `setFieldsValue(record)`. */
  function Loaded(record: UserInfo): FormValues
  {
    FormValues(record.name, record.sex, record.age, record.createdAt)
  }

  datatype Dialog<H> = Dialog(visible: bool, mode: Mode, key: string, onOk: Option<H>, form: FormValues)

  /** The dialog as first mounted. */
  function Initial<H>(): Dialog<H>
  {
    Dialog(false, Unset, "", None, Blank)
  }

  // ---------------------------------------------------------- transitions

  /** `create`: blank form, visible, options replaced, mode `create`; the remembered key is untouched. */
  function OpenCreate<H>(d: Dialog<H>, onOk: Option<H>): (r: Dialog<H>)
    ensures r.visible && r.mode == Create && r.onOk == onOk
    ensures r.form == Blank && r.key == d.key
  {
    d.(visible := true, mode := Create, onOk := onOk, form := Blank)
  }

  /** `edit`: the record loaded into the form, its key remembered, visible, options replaced, mode `edit`. */
  function OpenEdit<H>(d: Dialog<H>, record: UserInfo, onOk: Option<H>): (r: Dialog<H>)
    ensures r.visible && r.mode == Edit && r.onOk == onOk && r.key == record.key
    ensures r.form.name == record.name && r.form.sex == record.sex
    ensures r.form.age == record.age && r.form.createdAt == record.createdAt
  {
    d.(visible := true, mode := Edit, key := record.key, onOk := onOk, form := Loaded(record))
  }

  /** `show`: the record loaded into the form, visible, mode `show`; options and key are kept. */
  function OpenShow<H>(d: Dialog<H>, record: UserInfo): (r: Dialog<H>)
    ensures r.visible && r.mode == Show && r.form == Loaded(record)
    ensures r.onOk == d.onOk && r.key == d.key
  {
    d.(visible := true, mode := Show, form := Loaded(record))
  }

  /** `handleCancel`: hidden and the form reset; mode, key and options are kept. */
  function Cancel<H>(d: Dialog<H>): (r: Dialog<H>)
    ensures !r.visible && r.form == Blank
    ensures r.mode == d.mode && r.key == d.key && r.onOk == d.onOk
  {
    d.(visible := false, form := Blank)
  }

  /**
    The user typing into the form. The three inputs are disabled in `show`
    mode; the creation-time input is disabled in every mode.
   */
  function Input<H>(d: Dialog<H>, name: string, sex: Field, age: Field): (r: Dialog<H>)
    ensures r.visible == d.visible && r.mode == d.mode && r.key == d.key && r.onOk == d.onOk
    ensures r.form.createdAt == d.form.createdAt
    ensures d.mode == Show ==> r == d
    ensures d.mode != Show ==> r.form.name == name && r.form.sex == sex && r.form.age == age
  {
    if InputsDisabled(d.mode) then d
    else d.(form := d.form.(name := name, sex := sex, age := age))
  }

  // ------------------------------------------------------------ layout

  /** The footer with the cancel and submit buttons is rendered unless the mode is `show`. */
  predicate HasSubmitAction(m: Mode)
  {
    m != Show
  }

  /** The name, sex and age inputs are disabled in `show` mode. */
  predicate InputsDisabled(m: Mode)
  {
    m == Show
  }

  /** The creation-time form item is mounted unless the mode is `create`. */
  predicate CreatedAtMounted(m: Mode)
  {
    m != Create
  }

  // ----------------------------------------------------------- validation

  datatype FieldError = NameRequired | SexRequired | AgeRequired | AgeOutOfRange

  /** The name rule: a falsy name is rejected. */
  function ValidateName(v: string): (r: Option<FieldError>)
    ensures r.None? <==> TruthyText(v)
    ensures r.Some? ==> r.value == NameRequired
  {
    if !TruthyText(v) then Some(NameRequired) else None
  }

  /** The sex rule: a falsy sex (`''` or 0) is rejected. */
  function ValidateSex(v: Field): (r: Option<FieldError>)
    ensures r.None? <==> Truthy(v)
    ensures r.Some? ==> r.value == SexRequired
  {
    if !Truthy(v) then Some(SexRequired) else None
  }

  /**
    The age rule: "required" only for a falsy value other than 0; any number
    outside 1..110 (0 included) gets the range error.
   */
  function ValidateAge(v: Field): (r: Option<FieldError>)
    ensures r == Some(AgeRequired) <==> v.Empty?
    ensures r == Some(AgeOutOfRange) <==> v.Num? && !(1 <= v.n <= 110)
    ensures r.None? <==> v.Num? && 1 <= v.n <= 110
  {
    if !Truthy(v) && v != Num(0) then Some(AgeRequired)
    else if !(v.Num? && 1 <= v.n && v.n <= 110) then Some(AgeOutOfRange)
    else None
  }

  /** The errors `validateFields` reports, in form order. */
  function Errors(f: FormValues): (errs: seq<FieldError>)
    ensures |errs| == 0 <==> TruthyText(f.name) && Truthy(f.sex) && f.age.Num? && 1 <= f.age.n <= 110
    ensures NameRequired in errs <==> f.name == ""
    ensures SexRequired in errs <==> !Truthy(f.sex)
    ensures AgeRequired in errs <==> f.age.Empty?
    ensures AgeOutOfRange in errs <==> f.age.Num? && !(1 <= f.age.n <= 110)
  {
    var n := ValidateName(f.name);
    var s := ValidateSex(f.sex);
    var a := ValidateAge(f.age);
    (if n.Some? then [n.value] else []) + (if s.Some? then [s.value] else []) + (if a.Some? then [a.value] else [])
  }

  /** Age 0 is a number, so it is out of range rather than missing. */
  lemma ZeroAgeIsOutOfRange(f: FormValues)
    requires f.age == Num(0)
    ensures AgeOutOfRange in Errors(f) && AgeRequired !in Errors(f)
  {
  }

  // --------------------------------------------------------------- submit

  /**
    The value passed to `onOk`: the validated fields, `createdAt` only when its
    item is mounted, and the remembered key only in edit mode.
   */
  function SubmittedValue<H>(d: Dialog<H>): (v: Payload)
    ensures v.name == d.form.name && v.sex == d.form.sex && v.age == d.form.age
    ensures v.key == (if d.mode == Edit then Some(d.key) else None)
    ensures v.createdAt.Some? <==> CreatedAtMounted(d.mode)
    ensures v.createdAt.Some? ==> v.createdAt.value == d.form.createdAt
  {
    Payload(d.form.name, d.form.sex, d.form.age,
            if CreatedAtMounted(d.mode) then Some(d.form.createdAt) else None,
            if d.mode == Edit then Some(d.key) else None)
  }

  /** What a submit click leads to. */
  datatype SubmitOutcome<H> = Rejected(errors: seq<FieldError>) | NoCallback | Emitted(onOk: H, value: Payload)

  /**
    `handleSubmit`: a failed validation or a missing `onOk` leaves the dialog
    as it is; otherwise `onOk` is invoked once with the submitted value and
    the dialog hides.
   */
  function Submit<H>(d: Dialog<H>): (r: (Dialog<H>, SubmitOutcome<H>))
    ensures r.1.Rejected? <==> |Errors(d.form)| > 0
    ensures r.1.Rejected? ==> r.1.errors == Errors(d.form)
    ensures r.1.NoCallback? <==> |Errors(d.form)| == 0 && d.onOk.None?
    ensures r.1.Emitted? <==> |Errors(d.form)| == 0 && d.onOk.Some?
    ensures !r.1.Emitted? ==> r.0 == d
    ensures r.1.Emitted? ==> r.0 == d.(visible := false)
    ensures r.1.Emitted? ==> r.1.onOk == d.onOk.value && r.1.value == SubmittedValue(d)
  {
    var errs := Errors(d.form);
    if |errs| > 0 then (d, Rejected(errs))
    else if d.onOk.None? then (d, NoCallback)
    else (d.(visible := false), Emitted(d.onOk.value, SubmittedValue(d)))
  }

  /**
    The creation time reaches `onOk` exactly when the dialog was not opened
    for create: a create-mode emission carries no creation time, an edit-mode
    one carries the creation time loaded from the record.
   */
  lemma EmittedCreatedAtFollowsMode<H>(d: Dialog<H>)
    requires Submit(d).1.Emitted?
    ensures Submit(d).1.value.createdAt.None? <==> d.mode == Create
    ensures d.mode == Edit ==> Submit(d).1.value.createdAt == Some(d.form.createdAt)
  {
  }

  /** A submit that emits a value does so only after all three rules passed. */
  lemma EmittedValueIsValid<H>(d: Dialog<H>)
    requires Submit(d).1.Emitted?
    ensures TruthyText(Submit(d).1.value.name) && Truthy(Submit(d).1.value.sex)
    ensures Submit(d).1.value.age.Num? && 1 <= Submit(d).1.value.age.n <= 110
  {
  }

  /** In edit mode the emitted key is the remembered one, whatever the form shows. */
  lemma EditSubmitCarriesRememberedKey<H>(d: Dialog<H>, record: UserInfo, onOk: H, name: string, sex: Field, age: Field)
    requires TruthyText(name) && Truthy(sex) && age.Num? && 1 <= age.n <= 110
    ensures var e := Input(OpenEdit(d, record, Some(onOk)), name, sex, age);
      Submit(e).1 == Emitted(onOk, Payload(name, sex, age, Some(record.createdAt), Some(record.key)))
      && !Submit(e).0.visible
  {
  }
}
