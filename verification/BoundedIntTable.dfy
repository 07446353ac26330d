/** bounded_int_table.ml: entries reachable through a sparse array by index and through a dense array in order, both
    updated in place. */
module BoundedIntTable {
  import opened Options
  import opened TableRows

  class Entry<K, D> {
    var key: K
    var data: D
    var definedEntriesIndex: nat

    constructor (k: K, d: D, i: nat)
      ensures key == k && data == d && definedEntriesIndex == i
    {
      key, data, definedEntriesIndex := k, d, i;
    }
  }

  /** What `find` does: fail for an index out of range, or say whether there is an entry. */
  datatype Found<+D> = OutOfRange | Absent | Present(data: D)

  datatype Added = Done | Duplicate | BadKey

  class Table<K, D> {
    const numKeys: nat
    const keyToInt: K -> int
    var length: nat
    const entriesByKey: array<Entry?<K, D>>
    const definedEntries: array<Entry?<K, D>>

    function Index(k: K): int { keyToInt(k) }

    /** The entry in slot `i` of the sparse array knows its place in the dense one. */
    predicate SparseOk(i: nat)
      requires i < entriesByKey.Length
      reads this, entriesByKey, definedEntries, entriesByKey[i]
    {
      var e := entriesByKey[i];
      e != null ==>
        Index(e.key) == i && e.definedEntriesIndex < length <= definedEntries.Length &&
        definedEntries[e.definedEntriesIndex] == e
    }

    /** The first `length` slots of the dense array hold entries that know their place and are in the sparse one. */
    predicate DenseOk(i: nat)
      requires i < definedEntries.Length
      reads this, entriesByKey, definedEntries, definedEntries[i]
    {
      var e := definedEntries[i];
      if i < length then
        e != null && e.definedEntriesIndex == i && 0 <= Index(e.key) < entriesByKey.Length &&
        entriesByKey[Index(e.key)] == e
      else e == null
    }

    /** `invariant`: both arrays hold the same entries, with exact back-indices. */
    predicate Valid()
      reads this, entriesByKey, definedEntries, entriesByKey[..], definedEntries[..]
    {
      entriesByKey != definedEntries && numKeys == entriesByKey.Length == definedEntries.Length && length <= numKeys &&
      (forall i: nat :: i < numKeys ==> SparseOk(i)) &&
      (forall i: nat :: i < numKeys ==> DenseOk(i))
    }

    /** The rows of the dense array, in order. */
    ghost function Rows(): (rows: seq<Row<K, D>>)
      requires Valid()
      reads this, entriesByKey, definedEntries, entriesByKey[..], definedEntries[..]
      ensures |rows| == length
      ensures forall i: nat :: i < length ==>
                DenseOk(i) && rows[i] == Row(definedEntries[i].key, definedEntries[i].data)
    {
      RowsUpTo(length)
    }

    ghost function RowsUpTo(n: nat): (rows: seq<Row<K, D>>)
      requires Valid() && n <= length
      reads this, entriesByKey, definedEntries, entriesByKey[..], definedEntries[..]
      ensures |rows| == n
      ensures forall i: nat :: i < n ==> DenseOk(i) && rows[i] == Row(definedEntries[i].key, definedEntries[i].data)
    {
      if n == 0 then [] else
        assert DenseOk(n - 1);
        RowsUpTo(n - 1) + [Row(definedEntries[n - 1].key, definedEntries[n - 1].data)]
    }

    lemma {:induction false} RowsAre(rows: seq<Row<K, D>>)
      requires Valid() && |rows| == length
      requires forall i: nat :: i < length ==>
                 definedEntries[i] != null && rows[i] == Row(definedEntries[i].key, definedEntries[i].data)
      ensures Rows() == rows
    {
      var mine := Rows();
      forall i: nat | i < length ensures mine[i] == rows[i] {}
    }

    /** `Valid`, spelled out. */
    lemma {:induction false} Parts()
      requires Valid()
      ensures entriesByKey != definedEntries && numKeys == entriesByKey.Length == definedEntries.Length &&
              length <= numKeys
      ensures forall i: nat {:trigger entriesByKey[i]} :: i < numKeys ==>
                var e := entriesByKey[i];
                e != null ==>
                  Index(e.key) == i && e.definedEntriesIndex < length && definedEntries[e.definedEntriesIndex] == e
      ensures forall i: nat {:trigger definedEntries[i]} :: i < length ==>
                var e := definedEntries[i];
                e != null && e.definedEntriesIndex == i && 0 <= Index(e.key) < numKeys &&
                  entriesByKey[Index(e.key)] == e
      ensures forall i: nat {:trigger definedEntries[i]} :: length <= i < numKeys ==> definedEntries[i] == null
    {
      forall i: nat | i < numKeys
        ensures var e := entriesByKey[i];
                e != null ==>
                  Index(e.key) == i && e.definedEntriesIndex < length && definedEntries[e.definedEntriesIndex] == e
      {
        assert SparseOk(i);
      }
      forall i: nat | i < numKeys
        ensures var e := definedEntries[i];
                if i < length then
                  e != null && e.definedEntriesIndex == i && 0 <= Index(e.key) < numKeys &&
                    entriesByKey[Index(e.key)] == e
                else e == null
      {
        assert DenseOk(i);
      }
    }

    /** And put together again, with its rows. */
    lemma {:induction false} Whole(rows: seq<Row<K, D>>)
      requires entriesByKey != definedEntries && numKeys == entriesByKey.Length == definedEntries.Length &&
               length <= numKeys
      requires forall i: nat {:trigger entriesByKey[i]} :: i < numKeys ==>
                 var e := entriesByKey[i];
                 e != null ==>
                   Index(e.key) == i && e.definedEntriesIndex < length && definedEntries[e.definedEntriesIndex] == e
      requires forall i: nat {:trigger definedEntries[i]} :: i < length ==>
                 var e := definedEntries[i];
                 e != null && e.definedEntriesIndex == i && 0 <= Index(e.key) < numKeys &&
                   entriesByKey[Index(e.key)] == e
      requires forall i: nat {:trigger definedEntries[i]} :: length <= i < numKeys ==> definedEntries[i] == null
      requires |rows| == length
      requires forall i: nat :: i < length ==> rows[i] == Row(definedEntries[i].key, definedEntries[i].data)
      ensures Valid() && Rows() == rows
    {
      forall i: nat | i < numKeys ensures SparseOk(i) && DenseOk(i) {}
      RowsAre(rows);
    }

    /** Both arrays hold the same entries. */
    lemma {:induction false} SameEntries(e: Entry<K, D>)
      requires Valid()
      ensures e in entriesByKey[..] <==> e in definedEntries[..]
    {
      Parts();
      if e in entriesByKey[..] {
        var i: nat :| i < numKeys && entriesByKey[i] == e;
        assert definedEntries[..][e.definedEntriesIndex] == e;
      }
      if e in definedEntries[..] {
        var i: nat :| i < numKeys && definedEntries[i] == e;
        assert entriesByKey[..][Index(e.key)] == e;
      }
    }

    lemma {:induction false} RowsUnique()
      requires Valid()
      ensures Unique(Rows(), keyToInt, numKeys)
    {
      var rows := Rows();
      forall i: nat | i < length
        ensures 0 <= keyToInt(rows[i].key) < numKeys && entriesByKey[keyToInt(rows[i].key)] == definedEntries[i]
        ensures definedEntries[i] != null && definedEntries[i].definedEntriesIndex == i
      {
        assert DenseOk(i);
      }
    }

    /** The sparse array finds the row by its index. */
    lemma {:induction false} SparseFinds(k: nat)
      requires Valid() && k < numKeys
      ensures Unique(Rows(), keyToInt, numKeys)
      ensures entriesByKey[k] == null <==> Lookup(Rows(), keyToInt, k).None?
      ensures entriesByKey[k] != null ==>
                var e := entriesByKey[k];
                e.definedEntriesIndex < length && definedEntries[e.definedEntriesIndex] == e &&
                PositionOf(Rows(), keyToInt, k) == e.definedEntriesIndex &&
                Lookup(Rows(), keyToInt, k) == Some(Row(e.key, e.data))
    {
      RowsUnique();
      assert SparseOk(k);
      var rows := Rows();
      forall i: nat | i < length ensures entriesByKey[k] == null ==> keyToInt(rows[i].key) != k {
        assert DenseOk(i);
      }
      if entriesByKey[k] != null {
        PositionIsUnique(rows, keyToInt, numKeys, entriesByKey[k].definedEntriesIndex);
      }
    }

    constructor (n: nat, toInt: K -> int)
      ensures Valid() && Rows() == [] && numKeys == n && keyToInt == toInt && fresh(entriesByKey) &&
              fresh(definedEntries)
    {
      numKeys := n;
      keyToInt := toInt;
      length := 0;
      entriesByKey := new Entry?<K, D>[n](_ => null);
      definedEntries := new Entry?<K, D>[n](_ => null);
    }

    /** `fold`: the dense array from front to back. */
    method Fold<A>(init: A, f: (K, D, A) -> A) returns (acc: A)
      requires Valid()
      ensures acc == FoldRows(Rows(), init, f)
    {
      acc := init;
      var i := 0;
      assert Rows()[..0] == [];
      while i != length
        invariant 0 <= i <= length
        invariant acc == FoldRows(Rows()[..i], init, f)
        decreases length - i
      {
        assert DenseOk(i);
        var entry := definedEntries[i];
        assert Rows()[..i + 1][..i] == Rows()[..i];
        acc := f(entry.key, entry.data, acc);
        i := i + 1;
      }
      assert Rows()[..length] == Rows();
    }

    method Find(key: K) returns (r: Found<D>)
      requires Valid()
      ensures r.OutOfRange? <==> !(0 <= keyToInt(key) < numKeys)
      ensures !r.OutOfRange? ==> match Lookup(Rows(), keyToInt, keyToInt(key))
                                 case None => r == Absent
                                 case Some(row) => r == Present(row.data)
    {
      var index := keyToInt(key);
      if !(0 <= index < entriesByKey.Length) { return OutOfRange; }
      SparseFinds(index);
      var entry := entriesByKey[index];
      if entry == null { return Absent; }
      return Present(entry.data);
    }

    /** The slot after the last one is free: the pigeonhole argument. */
    method AddAssumingNotThere(key: K, data: D)
      requires Valid() && 0 <= keyToInt(key) < numKeys && Lookup(Rows(), keyToInt, keyToInt(key)).None?
      modifies this, entriesByKey, definedEntries
      ensures Valid() && Rows() == old(Rows()) + [Row(key, data)]
    {
      hide *;
      Parts();
      SparseFinds(keyToInt(key));
      Pigeonhole(Rows(), keyToInt, numKeys, keyToInt(key));
      IndexIs(key);
      ghost var before := Rows();
      var definedEntriesIndex := length;
      var entry := new Entry(key, data, definedEntriesIndex);
      entriesByKey[keyToInt(key)] := entry;
      definedEntries[definedEntriesIndex] := entry;
      length := length + 1;
      Whole(before + [Row(key, data)]);
    }

    lemma IndexIs(key: K)
      ensures Index(key) == keyToInt(key)
    {}

    /** The latest key and data of an index; the key is replaced as well. */
    method Set(key: K, data: D) returns (ok: bool)
      requires Valid()
      modifies this, entriesByKey, definedEntries, entriesByKey[..]
      ensures Valid() && ok == (0 <= keyToInt(key) < numKeys)
      ensures Rows() == if ok then SetRow(old(Rows()), keyToInt, Row(key, data)) else old(Rows())
    {
      var index := keyToInt(key);
      if !(0 <= index < entriesByKey.Length) { return false; }
      SparseFinds(index);
      var entry := entriesByKey[index];
      if entry == null {
        AddAssumingNotThere(key, data);
      } else {
        Overwrite(index, key, data);
      }
      return true;
    }

    method Overwrite(index: nat, key: K, data: D)
      requires Valid() && index < numKeys && keyToInt(key) == index && entriesByKey[index] != null
      modifies entriesByKey[index]
      ensures Valid() && Rows() == SetRow(old(Rows()), keyToInt, Row(key, data))
    {
      hide *;
      Parts();
      SparseFinds(index);
      IndexIs(key);
      ghost var before, p := Rows(), entriesByKey[index].definedEntriesIndex;
      var entry := entriesByKey[index];
      entry.key := key;
      entry.data := data;
      SetsAt(before, keyToInt, Row(key, data), p);
      Whole(before[p := Row(key, data)]);
    }

    method Add(key: K, data: D) returns (r: Added)
      requires Valid()
      modifies this, entriesByKey, definedEntries
      ensures Valid()
      ensures r.BadKey? <==> !(0 <= keyToInt(key) < numKeys)
      ensures r.Duplicate? <==> 0 <= keyToInt(key) < numKeys && Lookup(old(Rows()), keyToInt, keyToInt(key)).Some?
      ensures Rows() == if r.Done? then SetRow(old(Rows()), keyToInt, Row(key, data)) else old(Rows())
    {
      var index := keyToInt(key);
      if !(0 <= index < entriesByKey.Length) { return BadKey; }
      SparseFinds(index);
      var entry := entriesByKey[index];
      if entry != null { return Duplicate; }
      AddAssumingNotThere(key, data);
      return Done;
    }

    /** The last entry of the dense array fills the hole. */
    method Remove(key: K) returns (ok: bool)
      requires Valid()
      modifies this, entriesByKey, definedEntries, entriesByKey[..]
      ensures Valid() && ok == (0 <= keyToInt(key) < numKeys)
      ensures Rows() == if ok then RemoveRow(old(Rows()), keyToInt, keyToInt(key)) else old(Rows())
    {
      var index := keyToInt(key);
      if !(0 <= index < entriesByKey.Length) { return false; }
      SparseFinds(index);
      var entry := entriesByKey[index];
      if entry != null {
        Parts();
        assert definedEntries[length - 1] == entriesByKey[Index(definedEntries[length - 1].key)];
        RemoveEntry(index, entry);
      }
      return true;
    }

    method RemoveEntry(index: nat, entry: Entry<K, D>)
      requires Valid() && index < numKeys && entriesByKey[index] == entry && 0 < length
      modifies `length, entriesByKey, definedEntries, definedEntries[length - 1]
      ensures Valid() && Rows() == RemoveRow(old(Rows()), keyToInt, index)
    {
      hide *;
      Parts();
      SparseFinds(index);
      ghost var before, n := Rows(), length;
      length := length - 1;
      entriesByKey[index] := null;
      var hole := entry.definedEntriesIndex;
      var last := length;
      FillHole(hole, last);
      RemovesAt(before, keyToInt, index, hole);
      Whole(before[hole := before[n - 1]][..n - 1]);
    }

    /** The dense array with a hole in it: moving the last entry there makes it dense again. */
    method FillHole(hole: nat, last: nat)
      requires entriesByKey != definedEntries && numKeys == entriesByKey.Length == definedEntries.Length
      requires hole <= last == length < numKeys
      requires forall i: nat {:trigger entriesByKey[i]} :: i < numKeys ==>
                 var e := entriesByKey[i];
                 e != null ==>
                   Index(e.key) == i && hole != e.definedEntriesIndex <= last &&
                   definedEntries[e.definedEntriesIndex] == e
      requires forall i: nat {:trigger definedEntries[i]} :: i <= last && i != hole ==>
                 var e := definedEntries[i];
                 e != null && e.definedEntriesIndex == i && 0 <= Index(e.key) < numKeys &&
                   entriesByKey[Index(e.key)] == e
      requires forall i: nat {:trigger definedEntries[i]} :: last < i < numKeys ==> definedEntries[i] == null
      modifies definedEntries, definedEntries[last]
      ensures forall i: nat {:trigger entriesByKey[i]} :: i < numKeys ==>
                var e := entriesByKey[i];
                e != null ==>
                  Index(e.key) == i && e.definedEntriesIndex < length && definedEntries[e.definedEntriesIndex] == e
      ensures forall i: nat {:trigger definedEntries[i]} :: i < length ==>
                var e := definedEntries[i];
                e != null && e.definedEntriesIndex == i && 0 <= Index(e.key) < numKeys &&
                  entriesByKey[Index(e.key)] == e
      ensures forall i: nat {:trigger definedEntries[i]} :: length <= i < numKeys ==> definedEntries[i] == null
      ensures forall i: nat {:trigger definedEntries[i]} :: i < length ==>
              definedEntries[i] == old(definedEntries[if i == hole then last else i])
      ensures var e := old(definedEntries[last]);
              e != null ==> e.key == old(definedEntries[last].key) && e.data == old(definedEntries[last].data)
    {
      hide *;
      if hole < last {
        var moved := definedEntries[last];
        definedEntries[hole] := moved;
        moved.definedEntriesIndex := hole;
      }
      definedEntries[last] := null;
    }
  }

  /** `create` fails for a negative number of keys. */
  method Create<K, D>(numKeys: int, keyToInt: K -> int) returns (t: Table?<K, D>)
    ensures t == null <==> numKeys < 0
    ensures t != null ==> fresh(t) && t.Valid() && t.Rows() == [] && t.numKeys == numKeys && t.keyToInt == keyToInt
  {
    if numKeys < 0 { return null; }
    t := new Table(numKeys, keyToInt);
  }
}
