/** What a bounded int table holds. */
module TableRows {
  import opened Options

  // The rows of its dense array: their order matters to `fold`, and the finite map behind them is what users see.

  datatype Row<+K, +D> = Row(key: K, data: D)

  /** The position of the row with index `k`, or the number of rows. */
  function PositionOf<K, D>(rows: seq<Row<K, D>>, toInt: K -> int, k: int): (i: nat)
    ensures i <= |rows|
    ensures i < |rows| ==> toInt(rows[i].key) == k
    ensures forall j :: 0 <= j < i ==> toInt(rows[j].key) != k
  {
    if rows == [] then 0 else if toInt(rows[0].key) == k then 0 else 1 + PositionOf(rows[1..], toInt, k)
  }

  /** Indices are in bounds and pairwise different. */
  predicate Unique<K, D>(rows: seq<Row<K, D>>, toInt: K -> int, bound: nat) {
    (forall i :: 0 <= i < |rows| ==> 0 <= toInt(rows[i].key) < bound) &&
    forall i, j :: 0 <= i < j < |rows| ==> toInt(rows[i].key) != toInt(rows[j].key)
  }

  function Lookup<K, D>(rows: seq<Row<K, D>>, toInt: K -> int, k: int): Option<Row<K, D>> {
    var i := PositionOf(rows, toInt, k);
    if i < |rows| then Some(rows[i]) else None
  }

  /** `set`: a row that is there is replaced in place, key and data; a new one goes to the end. */
  function SetRow<K, D>(rows: seq<Row<K, D>>, toInt: K -> int, row: Row<K, D>): seq<Row<K, D>> {
    var i := PositionOf(rows, toInt, toInt(row.key));
    if i < |rows| then rows[i := row] else rows + [row]
  }

  /** `remove`: the last row moves into the hole. */
  function RemoveRow<K, D>(rows: seq<Row<K, D>>, toInt: K -> int, k: int): seq<Row<K, D>> {
    var i := PositionOf(rows, toInt, k);
    if i < |rows| then rows[i := rows[|rows| - 1]][..|rows| - 1] else rows
  }

  lemma SetsAt<K, D>(rows: seq<Row<K, D>>, toInt: K -> int, row: Row<K, D>, i: nat)
    requires i < |rows| && PositionOf(rows, toInt, toInt(row.key)) == i
    ensures SetRow(rows, toInt, row) == rows[i := row]
  {}

  lemma RemovesAt<K, D>(rows: seq<Row<K, D>>, toInt: K -> int, k: int, i: nat)
    requires i < |rows| && PositionOf(rows, toInt, k) == i
    ensures RemoveRow(rows, toInt, k) == rows[i := rows[|rows| - 1]][..|rows| - 1]
  {}

  function FoldRows<K, D, A>(rows: seq<Row<K, D>>, init: A, f: (K, D, A) -> A): A
    decreases |rows|
  {
    if rows == [] then init else f(rows[|rows| - 1].key, rows[|rows| - 1].data, FoldRows(rows[..|rows| - 1], init, f))
  }

  /** A fold that collects finds all rows, in order. */
  lemma {:induction false} FoldCollects<K, D>(rows: seq<Row<K, D>>, init: seq<Row<K, D>>)
    ensures FoldRows(rows, init, (k, d, acc) => acc + [Row(k, d)]) == init + rows
    decreases |rows|
  {
    if rows != [] {
      var n := |rows| - 1;
      FoldCollects(rows[..n], init);
      assert rows == rows[..n] + [rows[n]];
    }
  }

  // ----- the finite map -----

  function MapOf<K, D>(rows: seq<Row<K, D>>, toInt: K -> int): map<int, Row<K, D>> {
    if rows == [] then map[] else MapOf(rows[1..], toInt)[toInt(rows[0].key) := rows[0]]
  }

  lemma {:induction false} MapOfIsLookup<K, D>(rows: seq<Row<K, D>>, toInt: K -> int, k: int)
    ensures k in MapOf(rows, toInt) <==> Lookup(rows, toInt, k).Some?
    ensures k in MapOf(rows, toInt) ==> MapOf(rows, toInt)[k] == Lookup(rows, toInt, k).value
  {
    if rows != [] { MapOfIsLookup(rows[1..], toInt, k); }
  }

  lemma PositionIsUnique<K, D>(rows: seq<Row<K, D>>, toInt: K -> int, bound: nat, i: nat)
    requires Unique(rows, toInt, bound) && i < |rows|
    ensures PositionOf(rows, toInt, toInt(rows[i].key)) == i
  {}

  lemma SetKeepsUnique<K, D>(rows: seq<Row<K, D>>, toInt: K -> int, bound: nat, row: Row<K, D>)
    requires Unique(rows, toInt, bound) && 0 <= toInt(row.key) < bound
    ensures Unique(SetRow(rows, toInt, row), toInt, bound)
  {}

  lemma {:induction false} RemoveKeepsUnique<K, D>(rows: seq<Row<K, D>>, toInt: K -> int, bound: nat, k: int)
    requires Unique(rows, toInt, bound)
    ensures Unique(RemoveRow(rows, toInt, k), toInt, bound)
  {
    hide PositionOf;
  }

  lemma {:induction false} LookupAfterSet<K, D>(rows: seq<Row<K, D>>, toInt: K -> int, bound: nat, row: Row<K, D>,
          k: int)
    requires Unique(rows, toInt, bound) && 0 <= toInt(row.key) < bound
    ensures Lookup(SetRow(rows, toInt, row), toInt, k) ==
            if k == toInt(row.key) then Some(row) else Lookup(rows, toInt, k)
  {
    hide PositionOf;
    var next := SetRow(rows, toInt, row);
    SetKeepsUnique(rows, toInt, bound, row);
    var p := PositionOf(rows, toInt, toInt(row.key));
    assert next[p] == row;
    if k == toInt(row.key) {
      PositionIsUnique(next, toInt, bound, p);
    } else {
      var i := PositionOf(rows, toInt, k);
      if i < |rows| {
        assert next[i] == rows[i];
        PositionIsUnique(next, toInt, bound, i);
      } else {
        forall j | 0 <= j < |next| ensures toInt(next[j].key) != k {
          if j != p { assert next[j] == rows[j]; }
        }
      }
    }
  }

  lemma {:induction false} LookupAfterRemove<K, D>(rows: seq<Row<K, D>>, toInt: K -> int, bound: nat, gone: int, k: int)
    requires Unique(rows, toInt, bound)
    ensures Lookup(RemoveRow(rows, toInt, gone), toInt, k) == if k == gone then None else Lookup(rows, toInt, k)
  {
    hide PositionOf;
    var next := RemoveRow(rows, toInt, gone);
    var p, last := PositionOf(rows, toInt, gone), |rows| - 1;
    RemoveKeepsUnique(rows, toInt, bound, gone);
    if p < |rows| {
      assert forall j :: 0 <= j < last ==> next[j] == if j == p then rows[last] else rows[j];
      var i := PositionOf(rows, toInt, k);
      if k != gone && i < |rows| {
        var at := if i == last then p else i;
        assert next[at] == rows[i];
        PositionIsUnique(next, toInt, bound, at);
      } else {
        forall j | 0 <= j < |next| ensures toInt(next[j].key) != k {
          assert next[j] == rows[if j == p then last else j];
        }
      }
    }
  }

  /** The dense array never runs out while an index is absent: distinct indices below the bound, one of them missing. */
  lemma {:induction false} Pigeonhole<K, D>(rows: seq<Row<K, D>>, toInt: K -> int, bound: nat, absent: int)
    requires Unique(rows, toInt, bound) && 0 <= absent < bound && Lookup(rows, toInt, absent).None?
    ensures |rows| < bound
  {
    var used := seq(|rows|, i requires 0 <= i < |rows| => toInt(rows[i].key));
    DistinctBelow(used + [absent], bound);
  }

  lemma {:induction false} DistinctBelow(s: seq<int>, n: nat)
    requires forall i :: 0 <= i < |s| ==> 0 <= s[i] < n
    requires forall i, j :: 0 <= i < j < |s| ==> s[i] != s[j]
    ensures |s| <= n
    decreases n
  {
    assert |s| > 0 ==> 0 <= s[0] < n;
    if n > 0 {
      if i :| 0 <= i < |s| && s[i] == n - 1 {
        DistinctBelow(s[..i] + s[i + 1..], n - 1);
      } else {
        DistinctBelow(s, n - 1);
      }
    }
  }

  // ----- runs -----

  /** Operations that may change the table; out-of-range keys are refused before anything is changed. */
  datatype Action<+K, +D> = Set(key: K, data: D) | Add(key: K, data: D) | Remove(key: K)

  function Apply<K, D>(rows: seq<Row<K, D>>, toInt: K -> int, bound: nat, a: Action<K, D>): seq<Row<K, D>> {
    if !(0 <= toInt(a.key) < bound) then rows else
      match a
      case Set(key, data) => SetRow(rows, toInt, Row(key, data))
      case Add(key, data) => if Lookup(rows, toInt, toInt(key)).Some? then rows else SetRow(rows, toInt, Row(key, data))
      case Remove(key) => RemoveRow(rows, toInt, toInt(key))
  }

  function Run<K, D>(toInt: K -> int, bound: nat, actions: seq<Action<K, D>>): seq<Row<K, D>>
    decreases |actions|
  {
    if actions == [] then [] else
      Apply(Run(toInt, bound, actions[..|actions| - 1]), toInt, bound, actions[|actions| - 1])
  }

  /** The same run on a finite map from indices to the latest key and data. */
  function RunMap<K, D>(toInt: K -> int, bound: nat, actions: seq<Action<K, D>>): map<int, Row<K, D>>
    decreases |actions|
  {
    if actions == [] then map[] else
      var m, a := RunMap(toInt, bound, actions[..|actions| - 1]), actions[|actions| - 1];
      var k := toInt(a.key);
      if !(0 <= k < bound) then m else
        match a
        case Set(key, data) => m[k := Row(key, data)]
        case Add(key, data) => if k in m then m else m[k := Row(key, data)]
        case Remove(_) => m - {k}
  }

  lemma {:induction false} MapsAgree<K, D>(rows: seq<Row<K, D>>, toInt: K -> int, m: map<int, Row<K, D>>)
    requires forall k :: k in m <==> Lookup(rows, toInt, k).Some?
    requires forall k :: k in m ==> m[k] == Lookup(rows, toInt, k).value
    ensures MapOf(rows, toInt) == m
  {
    var n := MapOf(rows, toInt);
    forall k
      ensures k in n <==> k in m
      ensures k in n ==> n[k] == m[k]
    {
      MapOfIsLookup(rows, toInt, k);
    }
  }

  /** Over every run the rows keep distinct indices in bounds and are that map, each index once. */
  lemma {:induction false} RunRefinesMap<K, D>(toInt: K -> int, bound: nat, actions: seq<Action<K, D>>)
    ensures var rows := Run(toInt, bound, actions);
            Unique(rows, toInt, bound) && MapOf(rows, toInt) == RunMap(toInt, bound, actions)
    decreases |actions|
  {
    if actions != [] {
      var before, a := actions[..|actions| - 1], actions[|actions| - 1];
      RunRefinesMap(toInt, bound, before);
      var rows, m, k := Run(toInt, bound, before), RunMap(toInt, bound, before), toInt(a.key);
      var next, after := Apply(rows, toInt, bound, a), RunMap(toInt, bound, actions);
      if 0 <= k < bound {
        if a.Remove? {
          RemoveKeepsUnique(rows, toInt, bound, k);
        } else {
          SetKeepsUnique(rows, toInt, bound, Row(a.key, a.data));
        }
        MapOfIsLookup(rows, toInt, k);
        forall j
          ensures j in after <==> Lookup(next, toInt, j).Some?
          ensures j in after ==> after[j] == Lookup(next, toInt, j).value
        {
          hide PositionOf, MapOf, Unique, SetRow, RemoveRow;
          MapOfIsLookup(rows, toInt, j);
          if a.Remove? {
            LookupAfterRemove(rows, toInt, bound, k, j);
          } else {
            LookupAfterSet(rows, toInt, bound, Row(a.key, a.data), j);
          }
        }
        MapsAgree(next, toInt, after);
      }
    }
  }
}
