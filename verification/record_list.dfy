/**
  The list logic of the `Home` screen: the seed rows, the `onOk` updates for
  create and edit, delete, the search filter, reset, the two column sorters
  and the cell formatters. The screen keeps a single list; every operation
  here maps the current list to the next one.
 */
module RecordList {
  import opened SeqOps
  import opened Records

  // ---------------------------------------------------------------- seed

  const SeedZhang: UserInfo := UserInfo("1", "张三", Num(1), Num(18), "2024-3-14 12:44:09")
  const SeedLi: UserInfo := UserInfo("2", "李四", Num(2), Num(20), "2024-3-15 09:08:08")

  /** The two literal rows the screen starts with and resets to. */
  function Seed(): (r: seq<UserInfo>)
    ensures |r| == 2 && UniqueKeys(r)
    ensures Keys(r) == ["1", "2"]
  {
    [SeedZhang, SeedLi]
  }

  // ------------------------------------------------------ create / edit / delete

  /**
    The create callback: the submitted fields, with a freshly generated key
    and the creation time, appended at the end.
   */
  function CreateRecord(data: seq<UserInfo>, v: Payload, freshKey: string, now: string): (r: seq<UserInfo>)
    ensures |r| == |data| + 1
    ensures r[..|data|] == data
    ensures r[|data|].key == freshKey && r[|data|].createdAt == now
    ensures r[|data|].name == v.name && r[|data|].sex == v.sex && r[|data|].age == v.age
  {
    data + [UserInfo(freshKey, v.name, v.sex, v.age, now)]
  }

  /** With a key no row has, create keeps keys unique and adds exactly that key. */
  lemma CreateKeepsKeysUnique(data: seq<UserInfo>, v: Payload, freshKey: string, now: string)
    requires UniqueKeys(data)
    requires freshKey !in Keys(data)
    ensures UniqueKeys(CreateRecord(data, v, freshKey, now))
    ensures Keys(CreateRecord(data, v, freshKey, now)) == Keys(data) + [freshKey]
  {
    var r := CreateRecord(data, v, freshKey, now);
    forall i, j | 0 <= i < j < |r|
      ensures r[i].key != r[j].key
    {
      if j == |data| {
        assert r[i] == data[i];
        assert Keys(data)[i] == data[i].key;
      } else {
        assert r[i] == data[i] && r[j] == data[j];
      }
    }
  }

  /** The row a payload matches in the edit callback: `item.key === newValue.key`. */
  predicate KeyMatches(item: UserInfo, v: Payload)
  {
    v.key == Some(item.key)
  }

  /** The edit callback: every row whose key equals the submitted key is replaced by the submitted value. */
  function EditRecord(data: seq<UserInfo>, v: Payload): (r: seq<UserInfo>)
    ensures |r| == |data|
    ensures forall i :: 0 <= i < |data| && KeyMatches(data[i], v) ==>
      r[i] == PayloadRecord(v) && r[i].key == data[i].key
    ensures forall i :: 0 <= i < |data| && !KeyMatches(data[i], v) ==> r[i] == data[i]
  {
    seq(|data|, i requires 0 <= i < |data| => if KeyMatches(data[i], v) then PayloadRecord(v) else data[i])
  }

  /** Edit never changes the key column, so it keeps keys unique. */
  lemma EditKeepsKeys(data: seq<UserInfo>, v: Payload)
    ensures Keys(EditRecord(data, v)) == Keys(data)
    ensures UniqueKeys(data) ==> UniqueKeys(EditRecord(data, v))
  {
    var r := EditRecord(data, v);
    assert forall i :: 0 <= i < |data| ==> r[i].key == data[i].key;
  }

  /** Edit with a key no row carries (or with no key at all) changes nothing. */
  lemma EditWithoutMatchIsNoOp(data: seq<UserInfo>, v: Payload)
    requires v.key.None? || v.key.value !in Keys(data)
    ensures EditRecord(data, v) == data
  {
    var r := EditRecord(data, v);
    forall i | 0 <= i < |data|
      ensures r[i] == data[i]
    {
      assert Keys(data)[i] == data[i].key;
    }
  }

  /** Editing twice with the same value is the same as editing once. */
  lemma EditIdempotent(data: seq<UserInfo>, v: Payload)
    ensures EditRecord(EditRecord(data, v), v) == EditRecord(data, v)
  {
  }

  /** The delete handler: keep the rows whose key differs from the deleted row's key. */
  function DeleteRecord(data: seq<UserInfo>, key: string): (r: seq<UserInfo>)
    ensures forall x :: x in r <==> x in data && x.key != key
    ensures key !in Keys(r)
  {
    var r := Keep(data, (x: UserInfo) => x.key != key);
    assert forall i :: 0 <= i < |r| ==> Keys(r)[i] != key;
    r
  }

  /** Delete keeps the other rows in their order and deleting again changes nothing. */
  lemma DeleteSubseqIdempotent(data: seq<UserInfo>, key: string)
    ensures IsSubseq(DeleteRecord(data, key), data)
    ensures DeleteRecord(DeleteRecord(data, key), key) == DeleteRecord(data, key)
    ensures UniqueKeys(data) ==> UniqueKeys(DeleteRecord(data, key))
  {
    var p := (x: UserInfo) => x.key != key;
    KeepIsSubseq(data, p);
    KeepAll(Keep(data, p), p);
    if UniqueKeys(data) {
      KeepPreservesUniqueKeys(data, p);
    }
  }

  /** Dropping the first row keeps keys unique. */
  lemma TailKeepsKeysUnique(data: seq<UserInfo>)
    requires |data| > 0 && UniqueKeys(data)
    ensures UniqueKeys(data[1..])
  {
    forall a, b | 0 <= a < b < |data[1..]|
      ensures data[1..][a].key != data[1..][b].key
    {
      assert data[1..][a] == data[a + 1] && data[1..][b] == data[b + 1];
    }
  }

  /** Delete keeps every occurrence of every row whose key differs, repeats included. */
  lemma DeleteKeepsOtherRows(data: seq<UserInfo>, key: string)
    ensures forall x :: multiset(DeleteRecord(data, key))[x] == if x.key != key then multiset(data)[x] else 0
  {
    KeepMultiset(data, (x: UserInfo) => x.key != key);
  }

  /** With unique keys, deleting a present key removes exactly one row. */
  lemma {:induction false} DeleteRemovesExactlyOne(data: seq<UserInfo>, key: string)
    requires UniqueKeys(data)
    requires key in Keys(data)
    ensures |DeleteRecord(data, key)| == |data| - 1
    decreases |data|
  {
    var p := (x: UserInfo) => x.key != key;
    var tail := data[1..];
    assert Keep(data, p) == if p(data[0]) then [data[0]] + Keep(tail, p) else Keep(tail, p);
    if data[0].key == key {
      forall x | x in tail
        ensures p(x)
      {
        var j :| 0 <= j < |tail| && tail[j] == x;
        assert data[j + 1] == x;
      }
      KeepAll(tail, p);
    } else {
      var i :| 0 <= i < |data| && Keys(data)[i] == key;
      assert i > 0;
      assert Keys(tail)[i - 1] == data[i].key;
      TailKeepsKeysUnique(data);
      DeleteRemovesExactlyOne(tail, key);
    }
  }

  // --------------------------------------------------------------- search

  /** A creation-time window picked in the search form, as epoch milliseconds. */
  datatype Window = Window(start: int, end: int)

  /**
    The values the search form's `validateFields()` returns. Only mounted
    items appear there: with the panel collapsed the age and creation-time
    items are unmounted, so `age` is `Empty` and `createdAt` is `None`.
    `createdAt` is also `None` when no range was picked.
   */
  datatype Criteria = Criteria(name: string, sex: Field, age: Field, createdAt: Option<Window>)

  /** The search form right after reset: `name`, `age` and `sex` set to `''`, the range cleared. */
  const Cleared: Criteria := Criteria("", Empty, Empty, None)

  /** No criterion is truthy, so the search handler returns early. */
  predicate NoCriteria(c: Criteria)
  {
    !TruthyText(c.name) && !Truthy(c.sex) && !Truthy(c.age) && c.createdAt.None?
  }

  /**
    A parsed creation time lies strictly inside the window. An invalid date
    (`None`, JavaScript's NaN) fails both comparisons.
   */
  predicate InWindow(t: Option<int>, w: Window)
  {
    t.Some? && w.start < t.value && t.value < w.end
  }

  /**
    What a row must satisfy to survive a search: every truthy criterion holds
    of it. `timeOf` stands for `new Date(s).getTime()`.
   */
  ghost predicate Matches(c: Criteria, timeOf: string -> Option<int>, x: UserInfo)
  {
    && (Truthy(c.sex) ==> x.sex == c.sex)
    && (Truthy(c.age) ==> x.age == c.age)
    && (TruthyText(c.name) ==> Contains(x.name, c.name))
    && (c.createdAt.Some? ==> InWindow(timeOf(x.createdAt), c.createdAt.value))
  }

  /**
    The search handler: returns the list unchanged when no criterion is set,
    otherwise narrows it by sex, then age, then name, then creation time,
    each step only when its criterion is truthy.
   */
  function Search(data: seq<UserInfo>, c: Criteria, timeOf: string -> Option<int>): (r: seq<UserInfo>)
    ensures NoCriteria(c) ==> r == data
    ensures |r| <= |data|
    ensures forall x :: x in r ==> x in data && Matches(c, timeOf, x)
  {
    if NoCriteria(c) then data
    else
      var bySex := if Truthy(c.sex) then Keep(data, (x: UserInfo) => x.sex == c.sex) else data;
      var byAge := if Truthy(c.age) then Keep(bySex, (x: UserInfo) => x.age == c.age) else bySex;
      var byName := if TruthyText(c.name) then Keep(byAge, (x: UserInfo) => IndexOf(x.name, c.name) != -1) else byAge;
      if c.createdAt.Some? then Keep(byName, (x: UserInfo) => InWindow(timeOf(x.createdAt), c.createdAt.value))
      else byName
  }

  /** One filter step of `Search`, read as a filter by a predicate that may be constantly true. */
  lemma StepIsKeep(s: seq<UserInfo>, on: bool, p: UserInfo -> bool, q: UserInfo -> bool)
    requires forall x :: q(x) == (on ==> p(x))
    ensures (if on then Keep(s, p) else s) == Keep(s, q)
  {
    if on {
      KeepExt(s, p, q);
    } else {
      KeepAll(s, q);
    }
  }

  /**
    The staged search is a single filter by `Matches`: it keeps exactly the
    matching rows, in their original order.
   */
  lemma SearchIsMatchFilter(data: seq<UserInfo>, c: Criteria, timeOf: string -> Option<int>)
    ensures Search(data, c, timeOf) == Keep(data, (x: UserInfo) => Matches(c, timeOf, x))
  {
    var m := (x: UserInfo) => Matches(c, timeOf, x);
    if NoCriteria(c) {
      KeepAll(data, m);
    } else {
      var pSex := (x: UserInfo) => x.sex == c.sex;
      var pAge := (x: UserInfo) => x.age == c.age;
      var pName := (x: UserInfo) => IndexOf(x.name, c.name) != -1;
      var qSex := (x: UserInfo) => Truthy(c.sex) ==> x.sex == c.sex;
      var qAge := (x: UserInfo) => Truthy(c.age) ==> x.age == c.age;
      var qName := (x: UserInfo) => TruthyText(c.name) ==> IndexOf(x.name, c.name) != -1;
      var qTime := (x: UserInfo) => c.createdAt.Some? ==> InWindow(timeOf(x.createdAt), c.createdAt.value);
      var q2 := (x: UserInfo) => qSex(x) && qAge(x);
      var q3 := (x: UserInfo) => q2(x) && qName(x);
      var q4 := (x: UserInfo) => q3(x) && qTime(x);

      var bySex := if Truthy(c.sex) then Keep(data, pSex) else data;
      StepIsKeep(data, Truthy(c.sex), pSex, qSex);
      var byAge := if Truthy(c.age) then Keep(bySex, pAge) else bySex;
      StepIsKeep(bySex, Truthy(c.age), pAge, qAge);
      KeepKeep(data, qSex, qAge, q2);
      var byName := if TruthyText(c.name) then Keep(byAge, pName) else byAge;
      StepIsKeep(byAge, TruthyText(c.name), pName, qName);
      KeepKeep(data, q2, qName, q3);
      if c.createdAt.Some? {
        var pTime := (x: UserInfo) => InWindow(timeOf(x.createdAt), c.createdAt.value);
        StepIsKeep(byName, true, pTime, qTime);
      } else {
        KeepAll(byName, qTime);
      }
      KeepKeep(data, q3, qTime, q4);
      KeepExt(data, q4, m);
    }
  }

  /**
    The search result is an ordered subsequence of the list, and a row is in
    it exactly when it was in the list and matches every truthy criterion.
   */
  lemma SearchSound(data: seq<UserInfo>, c: Criteria, timeOf: string -> Option<int>)
    ensures IsSubseq(Search(data, c, timeOf), data)
    ensures forall x :: x in Search(data, c, timeOf) <==> x in data && Matches(c, timeOf, x)
    ensures UniqueKeys(data) ==> UniqueKeys(Search(data, c, timeOf))
  {
    var m := (x: UserInfo) => Matches(c, timeOf, x);
    SearchIsMatchFilter(data, c, timeOf);
    KeepIsSubseq(data, m);
    if UniqueKeys(data) {
      KeepPreservesUniqueKeys(data, m);
    }
  }

  /**
    Searching the result of a search narrows by both sets of criteria, and
    the rows left are still in the order of the original list.
   */
  lemma SearchTwiceNarrows(data: seq<UserInfo>, c1: Criteria, c2: Criteria, timeOf: string -> Option<int>)
    ensures Search(Search(data, c1, timeOf), c2, timeOf)
      == Keep(data, (x: UserInfo) => Matches(c1, timeOf, x) && Matches(c2, timeOf, x))
    ensures IsSubseq(Search(Search(data, c1, timeOf), c2, timeOf), data)
  {
    var m1 := (x: UserInfo) => Matches(c1, timeOf, x);
    var m2 := (x: UserInfo) => Matches(c2, timeOf, x);
    var once := Search(data, c1, timeOf);
    SearchIsMatchFilter(data, c1, timeOf);
    SearchIsMatchFilter(once, c2, timeOf);
    KeepKeep(data, m1, m2, (x: UserInfo) => Matches(c1, timeOf, x) && Matches(c2, timeOf, x));
    SearchSound(data, c1, timeOf);
    SearchSound(once, c2, timeOf);
    SubseqTransitive(Search(once, c2, timeOf), once, data);
  }

  /** A row created exactly at either end of the window is left out. */
  lemma WindowBoundsExcluded(data: seq<UserInfo>, c: Criteria, timeOf: string -> Option<int>, x: UserInfo)
    requires c.createdAt.Some?
    requires timeOf(x.createdAt) == Some(c.createdAt.value.start) || timeOf(x.createdAt) == Some(c.createdAt.value.end)
    ensures x !in Search(data, c, timeOf)
  {
  }

  /** An age criterion of 0 is falsy, so it filters exactly like no age criterion. */
  lemma ZeroAgeIgnored(data: seq<UserInfo>, c: Criteria, timeOf: string -> Option<int>)
    requires c.age == Num(0)
    ensures Search(data, c, timeOf) == Search(data, c.(age := Empty), timeOf)
  {
  }

  /** Filtering the seed rows by sex 2 leaves exactly the second seed row. */
  lemma SeedSearchBySex(timeOf: string -> Option<int>)
    ensures Search(Seed(), Criteria("", Num(2), Empty, None), timeOf) == [SeedLi]
  {
    var p := (x: UserInfo) => x.sex == Num(2);
    assert Seed()[1..] == [SeedLi];
    assert Keep([SeedLi], p) == [SeedLi] + Keep([], p);
  }

  // -------------------------------------------------------------- sorters

  /** The age column's comparator: 0 when either age is `''`, otherwise the difference. */
  function AgeSorter(a: UserInfo, b: UserInfo): (r: int)
    ensures a.age.Empty? || b.age.Empty? ==> r == 0
    ensures a.age.Num? && b.age.Num? ==>
      (r < 0 <==> a.age.n < b.age.n) && (r == 0 <==> a.age.n == b.age.n) && (r > 0 <==> a.age.n > b.age.n)
  {
    if a.age.Empty? || b.age.Empty? then 0 else a.age.n - b.age.n
  }

  /** The age comparator is antisymmetric. */
  lemma AgeSorterAntisymmetric(a: UserInfo, b: UserInfo)
    ensures AgeSorter(a, b) == -AgeSorter(b, a)
  {
  }

  /**
    Treating `''` as equal to every age makes the comparator inconsistent:
    18 ties with `''`, `''` ties with 20, yet 18 sorts before 20.
   */
  lemma AgeSorterTiesNotTransitive()
    ensures exists a: UserInfo, b: UserInfo, c: UserInfo ::
      AgeSorter(a, b) == 0 && AgeSorter(b, c) == 0 && AgeSorter(a, c) < 0
  {
    var a := SeedZhang;
    var b := SeedZhang.(age := Empty);
    var c := SeedLi;
    assert AgeSorter(a, b) == 0 && AgeSorter(b, c) == 0 && AgeSorter(a, c) < 0;
  }

  /**
    The creation-time column's comparator: the difference of the parsed
    times, or NaN (`None`) when either date does not parse.
   */
  function CreatedAtSorter(a: UserInfo, b: UserInfo, timeOf: string -> Option<int>): (r: Option<int>)
    ensures r.None? <==> timeOf(a.createdAt).None? || timeOf(b.createdAt).None?
    ensures r.Some? ==> (r.value < 0 <==> timeOf(a.createdAt).value < timeOf(b.createdAt).value)
    ensures r.Some? ==> (r.value == 0 <==> timeOf(a.createdAt) == timeOf(b.createdAt))
  {
    var ta := timeOf(a.createdAt);
    var tb := timeOf(b.createdAt);
    if ta.None? || tb.None? then None else Some(ta.value - tb.value)
  }

  // ------------------------------------------------------- cell formatters

  /** A value handed to a column's `render`. */
  datatype Cell = Undefined | Text(s: string) | Number(n: int)

  /** A record slot of type `number | ''` as the value a column renders. */
  function FieldCell(f: Field): Cell
  {
    match f
    case Empty => Text("")
    case Num(n) => Number(n)
  }

  /** `defaultCell`: a missing value or `''` shows as '-', anything else shows as itself. */
  function DefaultCell(v: Cell): (r: Cell)
    ensures r != Undefined && r != Text("")
    ensures v != Undefined && v != Text("") ==> r == v
    ensures v == Undefined || v == Text("") ==> r == Text("-")
  {
    if v.Undefined? || v == Text("") then Text("-") else v
  }

  /** Formatting is idempotent, and an age of 0 shows as 0 (the check is `=== ''`, not truthiness). */
  lemma DefaultCellIdempotent(v: Cell)
    ensures DefaultCell(DefaultCell(v)) == DefaultCell(v)
    ensures DefaultCell(FieldCell(Num(0))) == Number(0)
    ensures DefaultCell(FieldCell(Empty)) == Text("-")
  {
  }

  /** The sex column: '-' for any falsy value, '男' for 1, '女' for every other number. */
  function SexCell(v: Field): (r: string)
    ensures r == "-" <==> !Truthy(v)
    ensures r == "男" <==> v == Num(1)
    ensures r == "女" <==> Truthy(v) && v != Num(1)
  {
    if !Truthy(v) then "-" else if v.n == 1 then "男" else "女"
  }
}
