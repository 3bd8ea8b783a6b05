# User management screen — Dafny model

A model of the logic of a single React screen: a table of user records held in
client memory, a search panel that filters it, and a modal dialog
(`UpdateUserInfoDialog`) that creates, edits and shows records. The screen keeps
one list (`dataSource`). Every list operation is modelled as a pure function from
the current list to the next one. The dialog is an immutable state value with one
transition function per imperative handle method.

Modules:

- `SeqOps` (`seq_ops.dfy`): `Keep` (order-preserving filter, the model of
  `Array.prototype.filter`), the subsequence relation, and `IndexOf`
  (`String.prototype.indexOf`).
- `Records` (`records.dfy`): the record `UserInfo`. The `number | ''` slots
  become `Field = Empty | Num(n)`, and JavaScript truthiness is explicit
  (`Truthy`, `TruthyText`). Also here: the `onOk` payload `Payload` and unique keys.
- `RecordList` (`record_list.dfy`): the seed rows, the create/edit callbacks,
  delete, search, reset, the age and creation-time comparators, and the cell
  formatters of `Home`.
- `UserDialog` (`user_dialog.dfy`): the dialog's `create`/`edit`/`show`
  transitions, cancel, the three field validators, mode-dependent layout, and
  submit.
- `HomeScreen` (`home_screen.dfy`): the screen as a whole, driven by user actions.
  It has an invariant (unique keys; the stored callback is never stale when it
  runs) and end-to-end create/edit flows.

Parameters stand in for what the model cannot compute:

- `timeOf: string -> Option<int>` is `new Date(s).getTime()`. `None` is NaN, which
  fails every comparison.
- `freshKey` is `getUniqueKey()`.
- `now` is `new Date().toLocaleString()`.

Facts about the code that the model keeps as written:

- Search narrows the one displayed list and overwrites it. There is no separate
  full copy, so repeated searches narrow further (`SearchTwiceNarrows`). Only
  reset brings rows back, and it restores the seed rows.
- The creation-time filter is strict at both ends: `start < t < end`.
- The search's age and sex criteria are gated by truthiness, so an age criterion of
  0 is ignored. The dialog's age validator does treat 0 as present: it is
  reported as out of range.
- Edit replaces the matching row wholesale with the submitted value. The row keeps
  its key and creation time only because the dialog injects the remembered key and
  sends back the disabled creation-time field unchanged (`EditFlow`).
- Nothing in the code checks that keys are unique. They stay unique when generated
  keys are fresh (`StepPreservesInv`).
- `show` does not replace the stored options, and `create` does not clear the
  remembered key. Neither is observable: `show` has no submit button
  (`ShowModeIsReadOnly`), and the key is used only in edit mode.

## Model

| member | source | states |
|---|---|---|
| `SeqOps.Keep` | src/views/Home/index.tsx:188-193 | the filter keeps exactly the values satisfying the predicate, never grows the list, and every kept element satisfies it (multiplicity in `SeqOps.KeepMultiset`) |
| `SeqOps.KeepMultiset` | src/views/Home/index.tsx:188-193 | filtering keeps every passing occurrence: each element satisfying the predicate occurs in the result exactly as often as in the input, every other element not at all |
| `SeqOps.KeepIsSubseq` | src/views/Home/index.tsx:89 | filtering keeps order and invents nothing: the result is a subsequence of the input |
| `SeqOps.IndexOf` | src/views/Home/index.tsx:196-203 | `indexOf` is -1 exactly when the query is not a substring, otherwise it is the first position where the query occurs |
| `RecordList.Seed` | src/views/Home/index.tsx:22-37 | the initial list has two rows with keys "1" and "2", so its keys are unique |
| `RecordList.CreateRecord` | src/views/Home/index.tsx:56-63 | create appends exactly one row after the unchanged existing rows; the new row takes the generated key and creation time, overriding the payload's, and takes name, sex and age from the payload |
| `RecordList.CreateKeepsKeysUnique` | src/views/Home/index.tsx:56-63 | with a key not already present, create keeps keys unique and adds exactly that key at the end |
| `RecordList.EditRecord` | src/views/Home/index.tsx:75-81 | edit keeps the length; every row whose key equals the submitted key becomes the submitted value (with that key), every other row is unchanged |
| `RecordList.EditKeepsKeys` | src/views/Home/index.tsx:75-81 | edit never changes the key column, so unique keys stay unique |
| `RecordList.EditWithoutMatchIsNoOp` | src/views/Home/index.tsx:75-81 | with no key, or a key no row carries, edit returns the list unchanged |
| `RecordList.EditIdempotent` | src/views/Home/index.tsx:75-81 | applying the same edit twice equals applying it once |
| `RecordList.DeleteRecord` | src/views/Home/index.tsx:88-92 | a row survives delete exactly when it was present and its key differs; no row with the deleted key remains |
| `RecordList.DeleteKeepsOtherRows` | src/views/Home/index.tsx:89 | delete keeps every occurrence of every row whose key differs, repeats included, and no occurrence of a row with the deleted key |
| `RecordList.DeleteSubseqIdempotent` | src/views/Home/index.tsx:89-90 | delete keeps the surviving rows in order, deleting twice equals deleting once, and unique keys stay unique |
| `RecordList.DeleteRemovesExactlyOne` | src/views/Home/index.tsx:89-90 | with unique keys, deleting a present key shortens the list by exactly one |
| `RecordList.Search` | src/views/Home/index.tsx:174-219 | with no truthy criterion the list is returned unchanged; otherwise the result is no longer and every row in it was in the list and matches each truthy criterion |
| `RecordList.SearchIsMatchFilter` | src/views/Home/index.tsx:179-217 | the four staged filters (sex, age, name, time) equal one filter by the conjunction of the truthy criteria |
| `RecordList.SearchSound` | src/views/Home/index.tsx:179-218 | the result is an ordered subsequence of the list, a row is in it if and only if it was in the list and matches, and unique keys stay unique |
| `RecordList.SearchTwiceNarrows` | src/views/Home/index.tsx:174-219 | searching the result of a search keeps exactly the rows matching both criteria sets, and the result is still an ordered subsequence of the original list |
| `RecordList.WindowBoundsExcluded` | src/views/Home/index.tsx:206-217 | a row whose parsed time equals the window's start or end is not in the result |
| `RecordList.ZeroAgeIgnored` | src/views/Home/index.tsx:187-194 | an age criterion of 0 is falsy and filters exactly like no age criterion |
| `RecordList.SeedSearchBySex` | src/views/Home/index.tsx:180-185 | searching the seed rows for sex 2 yields exactly the '李四' row |
| `RecordList.AgeSorter` | src/views/Home/index.tsx:135-140 | the age comparator is 0 when either age is `''`, and otherwise has the sign of the age difference |
| `RecordList.AgeSorterAntisymmetric` | src/views/Home/index.tsx:135-140 | swapping the arguments negates the comparator |
| `RecordList.AgeSorterTiesNotTransitive` | src/views/Home/index.tsx:135-140 | because `''` ties with every age, the comparator's ties are not transitive (18 ~ '' ~ 20 but 18 < 20) |
| `RecordList.CreatedAtSorter` | src/views/Home/index.tsx:148-149 | the time comparator is NaN exactly when either date does not parse, and otherwise has the sign of the time difference |
| `RecordList.DefaultCell` | src/views/Home/index.tsx:98-103 | the formatter never yields a missing or empty cell: missing or `''` shows '-', anything else shows unchanged |
| `RecordList.DefaultCellIdempotent` | src/views/Home/index.tsx:98-103 | formatting twice equals formatting once; an age of 0 shows as 0 while an empty age shows '-' |
| `RecordList.SexCell` | src/views/Home/index.tsx:120-128 | the sex column shows '-' exactly for falsy values, '男' exactly for 1, '女' for every other truthy number |
| `UserDialog.OpenCreate` | src/views/Home/UpdateUserInfoDialog/index.tsx:30-35 | create shows the dialog in create mode with a blank form and the new options, and leaves the remembered key alone |
| `UserDialog.OpenEdit` | src/views/Home/UpdateUserInfoDialog/index.tsx:36-42 | edit shows the dialog in edit mode with the record's fields in the form, remembers the record's key and stores the new options |
| `UserDialog.OpenShow` | src/views/Home/UpdateUserInfoDialog/index.tsx:43-47 | show displays the record in show mode and keeps both the stored options and the remembered key |
| `UserDialog.Cancel` | src/views/Home/UpdateUserInfoDialog/index.tsx:50-53 | cancel hides the dialog and blanks the form, changing nothing else |
| `UserDialog.Input` | src/views/Home/UpdateUserInfoDialog/index.tsx:95-137 | typing changes name, sex and age except in show mode, where nothing changes; the creation time is never editable |
| `UserDialog.ValidateName` | src/views/Home/UpdateUserInfoDialog/index.tsx:87-92 | the name rule fails, with the name-required error, exactly when the name is falsy |
| `UserDialog.ValidateSex` | src/views/Home/UpdateUserInfoDialog/index.tsx:103-108 | the sex rule fails, with the sex-required error, exactly when sex is `''` or 0 |
| `UserDialog.ValidateAge` | src/views/Home/UpdateUserInfoDialog/index.tsx:122-130 | "age required" exactly for `''`; the range error exactly for numbers outside 1..110, 0 included; success exactly for 1..110 |
| `UserDialog.Errors` | src/views/Home/UpdateUserInfoDialog/index.tsx:81-134 | validation passes exactly when the name is non-empty, sex is truthy and age is in 1..110, and each error is reported exactly when its rule fails |
| `UserDialog.ZeroAgeIsOutOfRange` | src/views/Home/UpdateUserInfoDialog/index.tsx:122-130 | an age of 0 is reported as out of range and not as missing |
| `UserDialog.SubmittedValue` | src/views/Home/UpdateUserInfoDialog/index.tsx:56-61 | the emitted value carries the form's name, sex and age, the remembered key exactly in edit mode, and the creation time exactly when its item is mounted |
| `UserDialog.Submit` | src/views/Home/UpdateUserInfoDialog/index.tsx:55-63 | a failed validation returns the errors and leaves the dialog as it was; with no `onOk` the dialog also stays unchanged; otherwise `onOk` is invoked once with the submitted value and the dialog hides |
| `UserDialog.EmittedValueIsValid` | src/views/Home/UpdateUserInfoDialog/index.tsx:55-63 | any value handed to `onOk` has a non-empty name, a truthy sex and an age in 1..110 |
| `UserDialog.EmittedCreatedAtFollowsMode` | src/views/Home/UpdateUserInfoDialog/index.tsx:135-139 | an emitted value lacks a creation time exactly when the dialog was opened for create; in edit mode it carries the creation time loaded from the record |
| `UserDialog.EditSubmitCarriesRememberedKey` | src/views/Home/UpdateUserInfoDialog/index.tsx:36-63 | after opening in edit mode and typing valid values, submit emits the typed values with the record's creation time and remembered key, then hides |
| `HomeScreen.RunHandler` | src/views/Home/index.tsx:52-86 | the create callback appends one row to its captured list; the edit callback keeps its captured list's length and keys |
| `HomeScreen.Step` | src/views/Home/index.tsx:52-226 | reset yields exactly the seed rows and clears the criteria; cancel never changes the list; a submit that does not emit changes nothing |
| `HomeScreen.InitSatisfiesInv` | src/views/Home/index.tsx:22-43 | the freshly mounted screen satisfies the invariant |
| `HomeScreen.StepPreservesInv` | src/views/Home/index.tsx:52-226 | with fresh generated keys, every action keeps keys unique and keeps the stored callback's captured list equal to the displayed list whenever submit is reachable |
| `HomeScreen.CreateFlow` | src/views/Home/index.tsx:52-68 | open create, type valid values, submit: the list gains exactly one row at the end with the typed fields, the generated key and the creation time |
| `HomeScreen.EditFlow` | src/views/Home/index.tsx:70-86 | open edit on a row, type valid values, submit: that row gets the typed fields but keeps its key and creation time, and all other rows are unchanged |
| `HomeScreen.CancelNeverCallsBack` | src/views/Home/UpdateUserInfoDialog/index.tsx:50-53 | whatever was typed, cancelling leaves the list unchanged |
| `HomeScreen.ShowModeIsReadOnly` | src/views/Home/UpdateUserInfoDialog/index.tsx:70-79 | in show mode submitting leaves the screen unchanged (no footer) and typing changes nothing (inputs disabled), while cancelling still hides the dialog |
| `HomeScreen.EditableModesSubmit` | src/views/Home/UpdateUserInfoDialog/index.tsx:55-95 | outside show mode typing updates name, sex and age, and submitting valid values with a stored callback hides the dialog |
| `HomeScreen.ResetThenSearchShowsSeed` | src/views/Home/index.tsx:222-226 | after reset, whatever came before, a search shows exactly the seed rows |
| `HomeScreen.SeedEditScenario` | src/views/Home/index.tsx:70-86 | on a fresh screen, editing '张三' to age 19 gives '张三' with age 19 and the same key and creation time, followed by '李四' unchanged |

## Left out

- React hooks, rendering, the antd components and the search panel's collapse toggle
  are left out. `Criteria` stands for the object the search form's `validateFields()`
  returns, and that object holds only mounted items. While the panel is collapsed,
  the age and creation-time items are unmounted, so they are absent from it and do
  not filter. Delete is modelled as already confirmed (the confirmation popup is UI).
- Date handling is left out. `new Date(s).getTime()` is the parameter `timeOf`,
  and `new Date().toLocaleString()` is the parameter `now`. The seed rows' creation
  strings are the source's literal date strings, not their locale formatting.
- `getUniqueKey` (`Date.now()` plus `Math.random`) is left out. The key is a
  parameter, and its freshness is a precondition of the invariant.
- `message.success` notifications are left out; they have no effect on state.
- The promise mechanics of `validateFields` are left out. Validation is a pure
  result. The search form has no rules, so its validation always succeeds.
- The dialog's title lookup table is a constant map with no logic and is left out.
- App, main and router modules are left out (locale provider, DOM mounting, route table).
- The table's own sort algorithm is left out; only the two comparators are modelled.
- `Records.Field` reads JavaScript numbers as mathematical integers. Fractional
  values and NaN from a number input are not modelled. This governs every member
  that reads an age or a sex: `RecordList.AgeSorter`, the age search in
  `RecordList.Search`, and `UserDialog.ValidateAge`. The source accepts 1.5 and
  rejects 110.5; the model has no such values.
- `SeqOps.IndexOf` counts Dafny characters (Unicode scalar values), while JavaScript's
  `indexOf` counts UTF-16 code units. The returned position differs once a name
  holds a character outside the Basic Multilingual Plane, such as an emoji. Search
  only tests the result against -1, and that test is unaffected.
- `undefined` and `null` form values are read as `''`. A cleared number input yields
  `null`. The dialog's validators and the search's truthiness tests treat `null` and
  `undefined` exactly like `''`. A `null` value never reaches a row: edit sends back
  the loaded record's own creation time, and a failed validation stops every empty
  age or sex before `onOk`. `PayloadRecord` reads a missing key or creation time as
  `''`. Through the dialog that never reaches a row either: create overrides both,
  and an edit-mode payload carries both.
