/**
  A database table, or a client-side list of records, seen as a sequence of
  rows that carry an integer key. The three shapes of statement the system
  issues against a key are here once: look the row up (`WHERE id = $1`),
  rewrite it (`UPDATE … WHERE id = $1`, or `list.map(x => x.id === id ? … : x)`)
  and drop it (`DELETE … WHERE id = $1`, or `list.filter(x => x.id !== id)`).
 */
module Tables {

  import opened Base
  import opened Seqs

  /** No two rows share a key (a primary key, or any unique index). */
  predicate UniqueKeys<T, K(==)>(rows: seq<T>, key: T -> K) {
    forall i, j :: 0 <= i < j < |rows| ==> key(rows[i]) != key(rows[j])
  }

  /** Some row has key `id`. */
  predicate HasKey<T>(rows: seq<T>, key: T -> Id, id: Id) {
    exists i :: 0 <= i < |rows| && key(rows[i]) == id
  }

  /** The first row whose key is `id`, if any (`result.rows[0]`). */
  function Lookup<T(==,!new)>(rows: seq<T>, key: T -> Id, id: Id): (r: Option<T>)
    ensures r.Some? <==> HasKey(rows, key, id)
    ensures r.Some? ==> r.value in rows && key(r.value) == id
    ensures UniqueKeys(rows, key) ==> forall i :: 0 <= i < |rows| && key(rows[i]) == id ==> r == Some(rows[i])
  {
    var r := Find((x: T) => key(x) == id, rows);
    assert r.Some? <==> HasKey(rows, key, id) by {
      if HasKey(rows, key, id) {
        var i :| 0 <= i < |rows| && key(rows[i]) == id;
        assert rows[i] in rows;
      }
    }
    r
  }

  /** Every row with key `id` rewritten by `f`; every other row, and the
      order, kept. */
  function ReplaceWhere<T>(rows: seq<T>, key: T -> Id, id: Id, f: T -> T): (r: seq<T>)
    ensures |r| == |rows|
    ensures forall i :: 0 <= i < |rows| && key(rows[i]) == id ==> r[i] == f(rows[i])
    ensures forall i :: 0 <= i < |rows| && key(rows[i]) != id ==> r[i] == rows[i]
  {
    Map((x: T) => if key(x) == id then f(x) else x, rows)
  }

  /** Every row whose key is not `id`, in order. */
  function RemoveWhere<T(==,!new)>(rows: seq<T>, key: T -> Id, id: Id): (r: seq<T>)
    ensures forall x :: x in r <==> x in rows && key(x) != id
    ensures !HasKey(r, key, id)
    ensures Subsequence(r, rows)
    ensures !HasKey(rows, key, id) ==> r == rows
    ensures UniqueKeys(rows, key) && HasKey(rows, key, id) ==> |r| == |rows| - 1
    decreases |rows|
  {
    if |rows| == 0 then []
    else
      var rest := RemoveWhere(rows[1..], key, id);
      HeadAndTail(rows, key, id);
      if key(rows[0]) == id then rest
      else
        var r := [rows[0]] + rest;
        HeadAndTail(r, key, id);
        assert r[1..] == rest;
        assert rows == [rows[0]] + rows[1..];
        r
  }

  /** How the keys of a non-empty table split into its first row and the
      rest. */
  lemma HeadAndTail<T>(rows: seq<T>, key: T -> Id, id: Id)
    requires |rows| > 0
    ensures HasKey(rows, key, id) <==> key(rows[0]) == id || HasKey(rows[1..], key, id)
    ensures UniqueKeys(rows, key) ==> UniqueKeys(rows[1..], key)
    ensures UniqueKeys(rows, key) && key(rows[0]) == id ==> !HasKey(rows[1..], key, id)
  {
    var tail := rows[1..];
    assert forall i :: 0 <= i < |tail| ==> tail[i] == rows[i + 1];
    if HasKey(rows, key, id) && key(rows[0]) != id {
      var i :| 0 <= i < |rows| && key(rows[i]) == id;
      assert key(tail[i - 1]) == id;
    }
  }

  /** Rewriting rows without changing their keys keeps the keys unique. */
  lemma ReplaceKeepsKeys<T>(rows: seq<T>, key: T -> Id, id: Id, f: T -> T)
    requires UniqueKeys(rows, key)
    requires forall x :: key(f(x)) == key(x)
    ensures UniqueKeys(ReplaceWhere(rows, key, id, f), key)
    ensures forall k :: HasKey(ReplaceWhere(rows, key, id, f), key, k) <==> HasKey(rows, key, k)
  {
    var r := ReplaceWhere(rows, key, id, f);
    assert forall i :: 0 <= i < |rows| ==> key(r[i]) == key(rows[i]);
  }

  /** A subsequence of a table with unique keys has unique keys. */
  lemma {:induction false} SubsequenceKeepsKeys<T, K>(a: seq<T>, b: seq<T>, key: T -> K)
    requires Subsequence(a, b) && UniqueKeys(b, key)
    ensures UniqueKeys(a, key)
    decreases |b|
  {
    if |a| > 0 {
      assert |b| > 0;
      if a[0] == b[0] {
        SubsequenceKeepsKeys(a[1..], b[1..], key);
        SubsequenceMembers(a[1..], b[1..]);
        forall j | 0 < j < |a|
          ensures key(a[0]) != key(a[j])
        {
          assert a[1..][j - 1] == a[j];
          assert a[j] in a[1..];
          assert a[j] in b[1..];
          var k :| 0 <= k < |b[1..]| && b[1..][k] == a[j];
          assert b[k + 1] == a[j];
        }
      } else {
        SubsequenceKeepsKeys(a, b[1..], key);
      }
    }
  }

  /** Every element of a subsequence occurs in the full sequence. */
  lemma {:induction false} SubsequenceMembers<T>(a: seq<T>, b: seq<T>)
    requires Subsequence(a, b)
    ensures forall x :: x in a ==> x in b
    decreases |b|
  {
    if |a| > 0 {
      if a[0] == b[0] {
        SubsequenceMembers(a[1..], b[1..]);
        assert forall x :: x in a ==> x == a[0] || x in a[1..];
      } else {
        SubsequenceMembers(a, b[1..]);
      }
    }
  }
}
