/**
  The handful of repository operations the handlers use, over a table held as
  a sequence of rows: find the first row matching a condition, count the
  matching rows, update every matching row, delete every matching row. The
  update and delete return the number of affected rows, as the ORM's result
  objects do.
 */
module Repository {
  import opened JsValues

  /** Row `k` is the first row that satisfies `p`. */
  ghost predicate IsFirst<T>(rows: seq<T>, p: T -> bool, k: int) {
    0 <= k < |rows| && p(rows[k]) && forall j :: 0 <= j < k ==> !p(rows[j])
  }

  /** `findOne` / `findOneBy`: the first matching row, if any. */
  function FindFirst<T>(rows: seq<T>, p: T -> bool): (r: Option<T>)
    ensures r.None? <==> forall i :: 0 <= i < |rows| ==> !p(rows[i])
    ensures r.Some? ==> r.value in rows && p(r.value)
    ensures r.Some? ==> exists k :: IsFirst(rows, p, k) && rows[k] == r.value
  {
    if |rows| == 0 then None
    else if p(rows[0]) then
      assert IsFirst(rows, p, 0);
      Some(rows[0])
    else
      var r := FindFirst(rows[1..], p);
      assert forall i :: 1 <= i < |rows| ==> rows[i] == rows[1..][i - 1];
      if r.Some? then
        FirstShifts(rows, p, r.value);
        r
      else r
  }

  /** The first match in the tail, behind a non-matching head, is the first match of the whole table. */
  lemma FirstShifts<T>(rows: seq<T>, p: T -> bool, v: T)
    requires |rows| > 0 && !p(rows[0])
    requires exists k :: IsFirst(rows[1..], p, k) && rows[1..][k] == v
    ensures exists k :: IsFirst(rows, p, k) && rows[k] == v
  {
    var k :| IsFirst(rows[1..], p, k) && rows[1..][k] == v;
    assert IsFirst(rows, p, k + 1);
  }

  /** Behind a non-matching head, the first match of the table is the first match of the tail. */
  lemma FirstInTail<T>(rows: seq<T>, p: T -> bool)
    requires |rows| > 0 && !p(rows[0])
    ensures forall k :: IsFirst(rows, p, k) ==> IsFirst(rows[1..], p, k - 1) && rows[k] == rows[1..][k - 1]
  {
    forall k | IsFirst(rows, p, k) ensures IsFirst(rows[1..], p, k - 1) && rows[k] == rows[1..][k - 1] {
      assert forall j :: 0 <= j < k - 1 ==> rows[1..][j] == rows[j + 1];
    }
  }

  /** Whatever row is the first match, `FindFirst` returns it. */
  lemma {:induction false} FindsFirst<T>(rows: seq<T>, p: T -> bool)
    ensures forall k :: IsFirst(rows, p, k) ==> FindFirst(rows, p) == Some(rows[k])
  {
    if |rows| > 0 && !p(rows[0]) {
      FindsFirst(rows[1..], p);
      FirstInTail(rows, p);
    }
  }

  /** At most one row is the first match. */
  lemma FirstIsUnique<T>(rows: seq<T>, p: T -> bool, k: int, k': int)
    requires IsFirst(rows, p, k) && IsFirst(rows, p, k')
    ensures k == k'
  {
  }

  /** `count({where})` */
  function CountWhere<T>(rows: seq<T>, p: T -> bool): (n: nat)
    ensures n <= |rows|
    ensures n == 0 <==> forall i :: 0 <= i < |rows| ==> !p(rows[i])
  {
    if |rows| == 0 then 0
    else
      var rest := CountWhere(rows[1..], p);
      assert forall i :: 1 <= i < |rows| ==> rows[i] == rows[1..][i - 1];
      (if p(rows[0]) then 1 else 0) + rest
  }

  /** `update(where, changes)`: every matching row is rewritten by `f`, every other row kept; returns the rows and the affected count. */
  function UpdateWhere<T>(rows: seq<T>, p: T -> bool, f: T -> T): (r: (seq<T>, nat))
    ensures |r.0| == |rows|
    ensures forall i :: 0 <= i < |rows| ==> r.0[i] == (if p(rows[i]) then f(rows[i]) else rows[i])
    ensures r.1 == CountWhere(rows, p)
  {
    if |rows| == 0 then ([], 0)
    else
      var rest := UpdateWhere(rows[1..], p, f);
      var head := if p(rows[0]) then f(rows[0]) else rows[0];
      ([head] + rest.0, (if p(rows[0]) then 1 else 0) + rest.1)
  }

  /** `delete(criteria)`: drop every matching row, keep the others in order; returns the rows and the affected count. */
  function DeleteWhere<T>(rows: seq<T>, p: T -> bool): (r: (seq<T>, nat))
    ensures r.1 == |rows| - |r.0|
    ensures r.1 == CountWhere(rows, p)
    ensures forall i :: 0 <= i < |r.0| ==> r.0[i] in rows && !p(r.0[i])
    ensures forall i :: 0 <= i < |rows| && !p(rows[i]) ==> rows[i] in r.0
  {
    if |rows| == 0 then ([], 0)
    else
      var rest := DeleteWhere(rows[1..], p);
      assert forall i :: 1 <= i < |rows| ==> rows[i] == rows[1..][i - 1];
      if p(rows[0]) then (rest.0, 1 + rest.1) else ([rows[0]] + rest.0, rest.1)
  }

  lemma {:induction false} CountAppend<T>(a: seq<T>, b: seq<T>, p: T -> bool)
    ensures CountWhere(a + b, p) == CountWhere(a, p) + CountWhere(b, p)
  {
    if |a| > 0 {
      assert (a + b)[1..] == a[1..] + b;
      CountAppend(a[1..], b, p);
    } else {
      assert a + b == b;
    }
  }

  /** No two rows share a key. */
  predicate DistinctKeys<T>(rows: seq<T>, key: T -> string) {
    forall i, j :: 0 <= i < j < |rows| ==> key(rows[i]) != key(rows[j])
  }

  /** Deleting rows never makes two kept rows share a key. */
  lemma {:induction false} DeleteKeepsDistinctKeys<T>(rows: seq<T>, p: T -> bool, key: T -> string)
    requires DistinctKeys(rows, key)
    ensures DistinctKeys(DeleteWhere(rows, p).0, key)
  {
    if |rows| > 0 {
      var rest := DeleteWhere(rows[1..], p).0;
      DistinctKeysTail(rows, key);
      DeleteKeepsDistinctKeys(rows[1..], p, key);
      if !p(rows[0]) {
        forall j | 0 <= j < |rest| ensures key(rows[0]) != key(rest[j]) {
          var m :| 0 <= m < |rows[1..]| && rows[1..][m] == rest[j];
          assert rows[m + 1] == rest[j];
        }
        DistinctKeysCons(rows[0], rest, key);
      }
    }
  }

  lemma DistinctKeysTail<T>(rows: seq<T>, key: T -> string)
    requires |rows| > 0 && DistinctKeys(rows, key)
    ensures DistinctKeys(rows[1..], key)
  {
    forall i, j | 0 <= i < j < |rows| - 1 ensures key(rows[1..][i]) != key(rows[1..][j]) {
      assert rows[1..][i] == rows[i + 1] && rows[1..][j] == rows[j + 1];
    }
  }

  /** A row whose key no other row has can go in front. */
  lemma DistinctKeysCons<T>(x: T, rest: seq<T>, key: T -> string)
    requires DistinctKeys(rest, key) && forall j :: 0 <= j < |rest| ==> key(x) != key(rest[j])
    ensures DistinctKeys([x] + rest, key)
  {
    var kept := [x] + rest;
    forall i, j | 0 <= i < j < |kept| ensures key(kept[i]) != key(kept[j]) {
      assert kept[j] == rest[j - 1];
      if i > 0 {
        assert kept[i] == rest[i - 1];
      }
    }
  }
}
