/**
  The user record of the management screen (`IUserInfo`) and the value the
  dialog hands to its `onOk` callback.
 */
module Records {
  import opened SeqOps

  datatype Option<T> = None | Some(value: T) {
    function GetOr(default: T): T {
      match this
      case Some(v) => v
      case None => default
    }
  }

  /** A form/record slot typed `number | ''`: the empty string or a number. */
  datatype Field = Empty | Num(n: int)

  /** JavaScript truthiness of a `number | ''` value: `''` and `0` are falsy. */
  predicate Truthy(f: Field)
  {
    f.Num? && f.n != 0
  }

  /** JavaScript truthiness of a string: only `''` is falsy. */
  predicate TruthyText(s: string)
  {
    s != ""
  }

  /** One row of the table. `createdAt` is the localised date string the row was created with. */
  datatype UserInfo = UserInfo(key: string, name: string, sex: Field, age: Field, createdAt: string)

  /**
    What the dialog passes to `onOk`: the validated form fields, `createdAt`
    only when that form item was mounted, `key` only when injected in edit mode.
   */
  datatype Payload = Payload(name: string, sex: Field, age: Field, createdAt: Option<string>, key: Option<string>)

  /**
    The payload read as a row. A missing `key` or `createdAt` is read as `''`:
    both are falsy, both render as '-', and both parse to an invalid date.
   */
  function PayloadRecord(v: Payload): (r: UserInfo)
    ensures v.key.Some? ==> r.key == v.key.value
    ensures v.createdAt.Some? ==> r.createdAt == v.createdAt.value
    ensures r.name == v.name && r.sex == v.sex && r.age == v.age
  {
    UserInfo(v.key.GetOr(""), v.name, v.sex, v.age, v.createdAt.GetOr(""))
  }

  /** The keys of a list, in order. */
  function Keys(data: seq<UserInfo>): (ks: seq<string>)
    ensures |ks| == |data|
    ensures forall i :: 0 <= i < |data| ==> ks[i] == data[i].key
  {
    seq(|data|, i requires 0 <= i < |data| => data[i].key)
  }

  /** No two rows share a key. */
  predicate UniqueKeys(data: seq<UserInfo>)
  {
    forall i, j :: 0 <= i < j < |data| ==> data[i].key != data[j].key
  }

  /** Filtering a list with unique keys keeps them unique. */
  lemma {:induction false} KeepPreservesUniqueKeys(data: seq<UserInfo>, p: UserInfo -> bool)
    requires UniqueKeys(data)
    ensures UniqueKeys(Keep(data, p))
    decreases |data|
  {
    if |data| > 0 {
      var rest := Keep(data[1..], p);
      assert UniqueKeys(data[1..]) by {
        forall i, j | 0 <= i < j < |data[1..]|
          ensures data[1..][i].key != data[1..][j].key
        {
          assert data[1..][i] == data[i + 1] && data[1..][j] == data[j + 1];
        }
      }
      KeepPreservesUniqueKeys(data[1..], p);
      if p(data[0]) {
        forall y | y in rest
          ensures y.key != data[0].key
        {
          assert y in data[1..];
          var j :| 0 <= j < |data[1..]| && data[1..][j] == y;
          assert data[j + 1] == y;
        }
        var r := [data[0]] + rest;
        forall i, j | 0 <= i < j < |r|
          ensures r[i].key != r[j].key
        {
          if i == 0 {
            assert r[j] == rest[j - 1];
            assert r[j] in rest;
          } else {
            assert r[i] == rest[i - 1] && r[j] == rest[j - 1];
          }
        }
      }
    }
  }
}
