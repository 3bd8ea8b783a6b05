/**
  The `Home` screen as a whole: the one displayed list, the search form and
  the dialog, driven by the user's actions. The create and edit buttons open
  the dialog with an `onOk` closure over the list as it was when the button
  was clicked; `Handler` records which closure and that captured list.
 */
module HomeScreen {
  import opened Records
  import opened RecordList
  import opened UserDialog

  /** The two `onOk` closures: append to, or replace by key in, the captured list. */
  datatype Handler = AppendTo(base: seq<UserInfo>) | ReplaceIn(base: seq<UserInfo>)

  datatype Screen = Screen(data: seq<UserInfo>, criteria: Criteria, dialog: Dialog<Handler>)

  /** The screen as first mounted. */
  function Init(): Screen
  {
    Screen(Seed(), Cleared, Initial())
  }

  datatype Action =
    | EnterCriteria(c: Criteria)
    | ClickSearch
    | ClickReset
    | ClickCreate
    | ClickView(record: UserInfo)
    | ClickEdit(record: UserInfo)
    | ConfirmDelete(record: UserInfo)
    | TypeInDialog(name: string, sex: Field, age: Field)
    | CancelDialog
    | SubmitDialog(freshKey: string, now: string)

  /**
    Runs a callback. `freshKey` and `now` stand for `getUniqueKey()` and
    `new Date().toLocaleString()`, which the create closure evaluates when it runs.
   */
  function RunHandler(h: Handler, v: Payload, freshKey: string, now: string): (r: seq<UserInfo>)
    ensures h.AppendTo? ==> r == h.base + [UserInfo(freshKey, v.name, v.sex, v.age, now)]
    ensures h.ReplaceIn? ==> |r| == |h.base| && Keys(r) == Keys(h.base)
  {
    match h
    case AppendTo(base) => CreateRecord(base, v, freshKey, now)
    case ReplaceIn(base) => EditRecord(base, v)
  }

  /**
    One user action. While the modal is open it covers the page, so the page
    controls do nothing; the row links act on rows of the displayed list only;
    the submit button exists only outside `show` mode.
   */
  function Step(s: Screen, a: Action, timeOf: string -> Option<int>): (r: Screen)
    ensures a.ClickReset? && !s.dialog.visible ==> r.data == Seed() && r.criteria == Cleared
    ensures a.CancelDialog? ==> r.data == s.data && !r.dialog.visible
    ensures a.SubmitDialog? && s.dialog.visible && HasSubmitAction(s.dialog.mode) && Submit(s.dialog).1.Emitted?
      ==> !r.dialog.visible
    ensures a.SubmitDialog? && !Submit(s.dialog).1.Emitted? ==> r == s
  {
    var page := !s.dialog.visible;
    match a
    case EnterCriteria(c) =>
      if page then s.(criteria := c) else s
    case ClickSearch =>
      if page then s.(data := Search(s.data, s.criteria, timeOf)) else s
    case ClickReset =>
      if page then s.(data := Seed(), criteria := Cleared) else s
    case ClickCreate =>
      if page then s.(dialog := OpenCreate(s.dialog, Some(AppendTo(s.data)))) else s
    case ClickView(record) =>
      if page && record in s.data then s.(dialog := OpenShow(s.dialog, record)) else s
    case ClickEdit(record) =>
      if page && record in s.data then s.(dialog := OpenEdit(s.dialog, record, Some(ReplaceIn(s.data)))) else s
    case ConfirmDelete(record) =>
      if page && record in s.data then s.(data := DeleteRecord(s.data, record.key)) else s
    case TypeInDialog(name, sex, age) =>
      if page then s else s.(dialog := Input(s.dialog, name, sex, age))
    case CancelDialog =>
      s.(dialog := Cancel(s.dialog))
    case SubmitDialog(freshKey, now) =>
      if page || !HasSubmitAction(s.dialog.mode) then s
      else
        var (d, outcome) := Submit(s.dialog);
        match outcome
        case Emitted(h, v) => s.(data := RunHandler(h, v, freshKey, now), dialog := d)
        case _ => s
  }

  /**
    What holds between actions: keys are unique, and whenever the submit
    button is reachable the stored callback is the one for the mode and its
    captured list is the displayed list (so the captured copy is never stale
    when it runs), and in edit mode the remembered key is a row's key.
   */
  ghost predicate Inv(s: Screen)
  {
    && UniqueKeys(s.data)
    && (s.dialog.visible ==> s.dialog.mode != Unset)
    && (s.dialog.visible && s.dialog.mode == Create ==> s.dialog.onOk == Some(AppendTo(s.data)))
    && (s.dialog.visible && s.dialog.mode == Edit ==>
          s.dialog.onOk == Some(ReplaceIn(s.data)) && s.dialog.key in Keys(s.data))
  }

  lemma InitSatisfiesInv()
    ensures Inv(Init())
  {
  }

  /** Every action keeps the invariant, given that generated keys are fresh. */
  lemma StepPreservesInv(s: Screen, a: Action, timeOf: string -> Option<int>)
    requires Inv(s)
    requires a.SubmitDialog? ==> a.freshKey !in Keys(s.data)
    ensures Inv(Step(s, a, timeOf))
  {
    var page := !s.dialog.visible;
    match a
    case ClickSearch =>
      SearchSound(s.data, s.criteria, timeOf);
    case ClickEdit(record) =>
      if page && record in s.data {
        var i :| 0 <= i < |s.data| && s.data[i] == record;
        assert Keys(s.data)[i] == record.key;
      }
    case ConfirmDelete(record) =>
      DeleteSubseqIdempotent(s.data, record.key);
    case SubmitDialog(freshKey, now) =>
      if !page && HasSubmitAction(s.dialog.mode) && Submit(s.dialog).1.Emitted? {
        var v := SubmittedValue(s.dialog);
        if s.dialog.mode == Edit {
          EditKeepsKeys(s.data, v);
        } else {
          assert s.dialog.mode == Create;
          CreateKeepsKeysUnique(s.data, v, freshKey, now);
        }
      }
    case _ =>
  }

  /**
    The create flow: open the dialog, fill in valid values, submit with a
    fresh key. Exactly one row is appended, carrying the generated key and
    creation time; the rows before it are unchanged.
   */
  lemma CreateFlow(s: Screen, name: string, sex: Field, age: Field, freshKey: string, now: string,
                   timeOf: string -> Option<int>)
    requires Inv(s) && !s.dialog.visible
    requires TruthyText(name) && Truthy(sex) && age.Num? && 1 <= age.n <= 110
    ensures var s1 := Step(s, ClickCreate, timeOf);
      var s2 := Step(s1, TypeInDialog(name, sex, age), timeOf);
      var s3 := Step(s2, SubmitDialog(freshKey, now), timeOf);
      s3.data == s.data + [UserInfo(freshKey, name, sex, age, now)] && !s3.dialog.visible
  {
  }

  /**
    The edit flow on row `i`: open it, change the editable fields to valid
    values, submit. Row `i` gets the new values but keeps its key and its
    creation time (the creation-time input is disabled); every other row and
    the length are unchanged.
   */
  lemma EditFlow(s: Screen, i: nat, name: string, sex: Field, age: Field, freshKey: string, now: string,
                 timeOf: string -> Option<int>)
    requires Inv(s) && !s.dialog.visible && i < |s.data|
    requires TruthyText(name) && Truthy(sex) && age.Num? && 1 <= age.n <= 110
    ensures var s1 := Step(s, ClickEdit(s.data[i]), timeOf);
      var s2 := Step(s1, TypeInDialog(name, sex, age), timeOf);
      var s3 := Step(s2, SubmitDialog(freshKey, now), timeOf);
      && |s3.data| == |s.data|
      && s3.data[i] == UserInfo(s.data[i].key, name, sex, age, s.data[i].createdAt)
      && (forall j :: 0 <= j < |s.data| && j != i ==> s3.data[j] == s.data[j])
      && !s3.dialog.visible
  {
    var s1 := Step(s, ClickEdit(s.data[i]), timeOf);
    var s2 := Step(s1, TypeInDialog(name, sex, age), timeOf);
    var v := Payload(name, sex, age, Some(s.data[i].createdAt), Some(s.data[i].key));
    assert Submit(s2.dialog).1 == Emitted(ReplaceIn(s.data), v);
    var r := EditRecord(s.data, v);
    forall j | 0 <= j < |s.data| && j != i
      ensures r[j] == s.data[j]
    {
      assert s.data[j].key != s.data[i].key;
    }
  }

  /** Cancelling the dialog never runs a callback, whatever was typed. */
  lemma CancelNeverCallsBack(s: Screen, name: string, sex: Field, age: Field, timeOf: string -> Option<int>)
    ensures var s1 := Step(s, TypeInDialog(name, sex, age), timeOf);
      Step(s1, CancelDialog, timeOf).data == s.data
  {
  }

  /**
    A dialog opened in show mode is read-only on screen: there is no submit
    button, so submitting does nothing, and the inputs are disabled, so typing
    does nothing. Cancelling (the close icon) still hides it.
   */
  lemma ShowModeIsReadOnly(s: Screen, name: string, sex: Field, age: Field, freshKey: string, now: string,
                           timeOf: string -> Option<int>)
    requires s.dialog.visible && s.dialog.mode == Show
    ensures Step(s, SubmitDialog(freshKey, now), timeOf) == s
    ensures Step(s, TypeInDialog(name, sex, age), timeOf) == s
    ensures !Step(s, CancelDialog, timeOf).dialog.visible
  {
  }

  /**
    Outside show mode the same dialog is editable and submittable: typing
    changes the form, and submitting valid values runs the stored callback
    and hides the dialog.
   */
  lemma EditableModesSubmit(s: Screen, name: string, sex: Field, age: Field, freshKey: string, now: string,
                            timeOf: string -> Option<int>)
    requires s.dialog.visible && s.dialog.mode != Show && s.dialog.onOk.Some?
    requires TruthyText(name) && Truthy(sex) && age.Num? && 1 <= age.n <= 110
    ensures var s1 := Step(s, TypeInDialog(name, sex, age), timeOf);
      && s1.dialog.form == s.dialog.form.(name := name, sex := sex, age := age)
      && !Step(s1, SubmitDialog(freshKey, now), timeOf).dialog.visible
  {
  }

  /** After a reset, searching shows exactly the seed rows, whatever came before. */
  lemma ResetThenSearchShowsSeed(s: Screen, timeOf: string -> Option<int>)
    requires !s.dialog.visible
    ensures Step(Step(s, ClickReset, timeOf), ClickSearch, timeOf).data == Seed()
  {
  }

  /**
    Editing the first seed row's age to 19 from a fresh screen leaves
    '张三' with age 19 and the same key and creation time, and '李四' as it was.
   */
  lemma SeedEditScenario(freshKey: string, now: string, timeOf: string -> Option<int>)
    ensures var s1 := Step(Init(), ClickEdit(SeedZhang), timeOf);
      var s2 := Step(s1, TypeInDialog("张三", Num(1), Num(19)), timeOf);
      Step(s2, SubmitDialog(freshKey, now), timeOf).data == [SeedZhang.(age := Num(19)), SeedLi]
  {
    InitSatisfiesInv();
    EditFlow(Init(), 0, "张三", Num(1), Num(19), freshKey, now, timeOf);
  }
}
