/** Sorted sequences of bindings as maps. */
module SortedEntries {
  import opened Options
  import opened Orders

  type Entries<K, V> = seq<(K, V)>

  ghost predicate Sorted<K(!new), V>(s: Entries<K, V>, cmp: (K, K) -> int) {
    forall i, j :: 0 <= i < j < |s| ==> cmp(s[i].0, s[j].0) < 0
  }

  /** The datum bound to a key equivalent to `k`, by linear search. */
  function Lookup<K, V>(s: Entries<K, V>, k: K, cmp: (K, K) -> int): Option<V> {
    if s == [] then None
    else if cmp(k, s[0].0) == 0 then Some(s[0].1)
    else Lookup(s[1..], k, cmp)
  }

  /** Linear sorted insertion. An existing binding keeps its key; its datum changes only if `replace`. */
  function Insert<K, V>(s: Entries<K, V>, k: K, v: V, replace: bool, cmp: (K, K) -> int): Entries<K, V> {
    if s == [] then [(k, v)]
    else if cmp(k, s[0].0) == 0 then [(s[0].0, if replace then v else s[0].1)] + s[1..]
    else if cmp(k, s[0].0) < 0 then [(k, v)] + s
    else [s[0]] + Insert(s[1..], k, v, replace, cmp)
  }

  /** Every entry whose key is not equivalent to `k`, in order. */
  function Delete<K, V>(s: Entries<K, V>, k: K, cmp: (K, K) -> int): Entries<K, V> {
    if s == [] then []
    else if cmp(k, s[0].0) == 0 then Delete(s[1..], k, cmp)
    else [s[0]] + Delete(s[1..], k, cmp)
  }

  // ----- splitting at a pivot entry -----

  /** Sortedness of a concatenation around a pivot, taken apart. */
  lemma {:induction false} SortedSplit<K(!new), V>(a: Entries<K, V>, e: (K, V), b: Entries<K, V>, cmp: (K, K) -> int)
    requires Sorted(a + [e] + b, cmp)
    ensures Sorted(a, cmp) && Sorted(b, cmp)
    ensures forall i :: 0 <= i < |a| ==> cmp(a[i].0, e.0) < 0
    ensures forall i :: 0 <= i < |b| ==> cmp(e.0, b[i].0) < 0
  {
    var s := a + [e] + b;
    assert forall i :: 0 <= i < |a| ==> s[i] == a[i];
    assert s[|a|] == e;
    assert forall i :: 0 <= i < |b| ==> s[|a| + 1 + i] == b[i];
  }

  /** A key left of the pivot is inserted into the left part. */
  lemma {:induction false} InsertLeft<K(!new), V>(a: Entries<K, V>, e: (K, V), b: Entries<K, V>, k: K, v: V,
          replace: bool, cmp: (K, K) -> int)
    requires cmp(k, e.0) < 0
    ensures Insert(a + [e] + b, k, v, replace, cmp) == Insert(a, k, v, replace, cmp) + [e] + b
  {
    if a == [] {
      assert a + [e] + b == [e] + b;
    } else {
      assert (a + [e] + b)[1..] == a[1..] + [e] + b;
      assert (a + [e] + b)[0] == a[0];
      InsertLeft(a[1..], e, b, k, v, replace, cmp);
    }
  }

  /** A key right of the pivot is inserted into the right part. */
  lemma {:induction false} InsertRight<K(!new), V>(a: Entries<K, V>, e: (K, V), b: Entries<K, V>, k: K, v: V,
          replace: bool, cmp: (K, K) -> int)
    requires TotalOrder(cmp)
    requires forall i :: 0 <= i < |a| ==> cmp(a[i].0, e.0) < 0
    requires cmp(k, e.0) > 0
    ensures Insert(a + [e] + b, k, v, replace, cmp) == a + [e] + Insert(b, k, v, replace, cmp)
  {
    if a == [] {
      assert a + [e] + b == [e] + b;
      assert ([e] + b)[1..] == b;
    } else {
      assert (a + [e] + b)[1..] == a[1..] + [e] + b;
      assert (a + [e] + b)[0] == a[0];
      StrictTrans(cmp, a[0].0, e.0, k);
      InsertRight(a[1..], e, b, k, v, replace, cmp);
    }
  }

  /** A key equivalent to the pivot changes the pivot only. */
  lemma {:induction false} InsertAt<K(!new), V>(a: Entries<K, V>, e: (K, V), b: Entries<K, V>, k: K, v: V,
          replace: bool, cmp: (K, K) -> int)
    requires TotalOrder(cmp)
    requires forall i :: 0 <= i < |a| ==> cmp(a[i].0, e.0) < 0
    requires cmp(k, e.0) == 0
    ensures Insert(a + [e] + b, k, v, replace, cmp) == a + [(e.0, if replace then v else e.1)] + b
  {
    if a == [] {
      assert a + [e] + b == [e] + b;
      assert ([e] + b)[1..] == b;
    } else {
      assert (a + [e] + b)[1..] == a[1..] + [e] + b;
      assert (a + [e] + b)[0] == a[0];
      StrictTrans(cmp, a[0].0, e.0, k);
      InsertAt(a[1..], e, b, k, v, replace, cmp);
    }
  }

  lemma {:induction false} DeleteAppend<K, V>(a: Entries<K, V>, b: Entries<K, V>, k: K, cmp: (K, K) -> int)
    ensures Delete(a + b, k, cmp) == Delete(a, k, cmp) + Delete(b, k, cmp)
  {
    if a == [] {
      assert a + b == b;
    } else {
      assert (a + b)[1..] == a[1..] + b;
      DeleteAppend(a[1..], b, k, cmp);
    }
  }

  lemma {:induction false} DeleteNothing<K, V>(s: Entries<K, V>, k: K, cmp: (K, K) -> int)
    requires forall i :: 0 <= i < |s| ==> cmp(k, s[i].0) != 0
    ensures Delete(s, k, cmp) == s && Lookup(s, k, cmp) == None
  {
    if s != [] {
      DeleteNothing(s[1..], k, cmp);
    }
  }

  lemma {:induction false} LookupAppend<K, V>(a: Entries<K, V>, b: Entries<K, V>, k: K, cmp: (K, K) -> int)
    ensures Lookup(a + b, k, cmp) == if Lookup(a, k, cmp).Some? then Lookup(a, k, cmp) else Lookup(b, k, cmp)
  {
    if a == [] {
      assert a + b == b;
    } else {
      assert (a + b)[1..] == a[1..] + b;
      LookupAppend(a[1..], b, k, cmp);
    }
  }

  /** Around a pivot of a sorted sequence, a key can only occur on the side the comparison names. */
  lemma {:induction false} OneSide<K(!new), V>(a: Entries<K, V>, e: (K, V), b: Entries<K, V>, k: K, cmp: (K, K) -> int)
    requires TotalOrder(cmp) && Sorted(a + [e] + b, cmp)
    ensures cmp(k, e.0) >= 0 ==> Delete(a, k, cmp) == a && Lookup(a, k, cmp) == None
    ensures cmp(k, e.0) <= 0 ==> Delete(b, k, cmp) == b && Lookup(b, k, cmp) == None
  {
    SortedSplit(a, e, b, cmp);
    if cmp(k, e.0) >= 0 {
      forall i | 0 <= i < |a| ensures cmp(k, a[i].0) != 0 {
        StrictTrans(cmp, a[i].0, e.0, k);
      }
      DeleteNothing(a, k, cmp);
    }
    if cmp(k, e.0) <= 0 {
      forall i | 0 <= i < |b| ensures cmp(k, b[i].0) != 0 {
        StrictTrans(cmp, k, e.0, b[i].0);
      }
      DeleteNothing(b, k, cmp);
    }
  }

  lemma {:induction false} DeleteAround<K(!new), V>(a: Entries<K, V>, e: (K, V), b: Entries<K, V>, k: K,
          cmp: (K, K) -> int)
    requires TotalOrder(cmp) && Sorted(a + [e] + b, cmp)
    ensures Delete(a + [e] + b, k, cmp) ==
            if cmp(k, e.0) < 0 then Delete(a, k, cmp) + [e] + b
            else if cmp(k, e.0) == 0 then a + b else a + [e] + Delete(b, k, cmp)
  {
    OneSide(a, e, b, k, cmp);
    var d := if cmp(k, e.0) == 0 then [] else [e];
    assert Delete([e], k, cmp) == d;
    hide TotalOrder, Sorted, Delete;
    DeleteAppend(a + [e], b, k, cmp);
    DeleteAppend(a, [e], k, cmp);
    if d == [] { assert a + d == a; }
  }

  lemma {:induction false} LookupAround<K(!new), V>(a: Entries<K, V>, e: (K, V), b: Entries<K, V>, k: K,
          cmp: (K, K) -> int)
    requires TotalOrder(cmp) && Sorted(a + [e] + b, cmp)
    ensures Lookup(a + [e] + b, k, cmp) ==
            if cmp(k, e.0) < 0 then Lookup(a, k, cmp)
            else if cmp(k, e.0) == 0 then Some(e.1) else Lookup(b, k, cmp)
  {
    OneSide(a, e, b, k, cmp);
    hide TotalOrder, Sorted;
    LookupAppend(a + [e], b, k, cmp);
    LookupAppend(a, [e], k, cmp);
  }

  // ----- what insertion and deletion mean as finite maps -----

  /** `x` is smaller than every key of `s`. */
  ghost predicate Below<K, V>(x: K, s: Entries<K, V>, cmp: (K, K) -> int) {
    forall i :: 0 <= i < |s| ==> cmp(x, s[i].0) < 0
  }

  lemma {:induction false} SortedCons<K(!new), V>(e: (K, V), s: Entries<K, V>, cmp: (K, K) -> int)
    ensures Sorted([e] + s, cmp) <==> Below(e.0, s, cmp) && Sorted(s, cmp)
    ensures forall x :: Below(x, [e] + s, cmp) <==> cmp(x, e.0) < 0 && Below(x, s, cmp)
  {
    var t := [e] + s;
    assert t[0] == e && forall i :: 0 <= i < |s| ==> t[i + 1] == s[i];
  }

  lemma {:induction false} InsertBounded<K(!new), V>(s: Entries<K, V>, k: K, v: V, replace: bool, cmp: (K, K) -> int,
          x: K)
    requires cmp(x, k) < 0 && Below(x, s, cmp)
    ensures Below(x, Insert(s, k, v, replace, cmp), cmp)
  {
    if s != [] {
      var t := s[1..];
      assert s == [s[0]] + t;
      SortedCons(s[0], t, cmp);
      SortedCons((k, v), s, cmp);
      InsertBounded(t, k, v, replace, cmp, x);
      SortedCons(s[0], Insert(t, k, v, replace, cmp), cmp);
      SortedCons((s[0].0, if replace then v else s[0].1), t, cmp);
    }
  }

  lemma {:induction false} InsertSorted<K(!new), V>(s: Entries<K, V>, k: K, v: V, replace: bool, cmp: (K, K) -> int)
    requires TotalOrder(cmp) && Sorted(s, cmp)
    ensures Sorted(Insert(s, k, v, replace, cmp), cmp)
  {
    if s != [] {
      var e, t := s[0], s[1..];
      assert s == [e] + t;
      SortedCons(e, t, cmp);
      if cmp(k, e.0) == 0 {
        SortedCons((e.0, if replace then v else e.1), t, cmp);
      } else if cmp(k, e.0) < 0 {
        forall j | 0 <= j < |s| ensures cmp(k, s[j].0) < 0 {
          if j > 0 { StrictTrans(cmp, k, e.0, s[j].0); }
        }
        SortedCons((k, v), s, cmp);
      } else {
        InsertSorted(t, k, v, replace, cmp);
        InsertBounded(t, k, v, replace, cmp, e.0);
        SortedCons(e, Insert(t, k, v, replace, cmp), cmp);
      }
    }
  }

  lemma {:induction false} SameOrApart<K(!new)>(cmp: (K, K) -> int, q: K, k: K, e: K)
    requires TotalOrder(cmp)
    ensures cmp(q, k) == 0 ==> (cmp(q, e) == 0 <==> cmp(k, e) == 0)
    ensures cmp(k, e) == 0 ==> (cmp(q, k) == 0 <==> cmp(q, e) == 0)
  {
    if cmp(q, k) == 0 { SameClass(cmp, q, k, e); }
    if cmp(k, e) == 0 { SameClass(cmp, k, e, q); }
  }

  /** Insertion updates the finite map at `k` and nowhere else; without `replace` an existing binding stays. */
  lemma {:induction false} InsertIsMapUpdate<K(!new), V>(s: Entries<K, V>, k: K, v: V, replace: bool, q: K,
          cmp: (K, K) -> int)
    requires TotalOrder(cmp)
    requires Sorted(s, cmp)
    ensures Lookup(Insert(s, k, v, replace, cmp), q, cmp) ==
            if cmp(q, k) == 0 && (replace || Lookup(s, k, cmp) == None) then Some(v) else Lookup(s, q, cmp)
  {
    if s != [] {
      var t := s[1..];
      InsertIsMapUpdate(t, k, v, replace, q, cmp);
      assert (Insert(s, k, v, replace, cmp))[1..] ==
        if cmp(k, s[0].0) == 0 then t else if cmp(k, s[0].0) < 0 then s else Insert(t, k, v, replace, cmp);
      assert cmp(k, s[0].0) < 0 ==> Lookup(s, k, cmp) == None by {
        if cmp(k, s[0].0) < 0 {
          forall i | 0 <= i < |s| ensures cmp(k, s[i].0) != 0 {
            if i > 0 { StrictTrans(cmp, k, s[0].0, s[i].0); }
          }
          DeleteNothing(s, k, cmp);
        }
      }
      SameOrApart(cmp, q, k, s[0].0);
    }
  }

  /** Deletion removes the binding at `k` and no other, and keeps the sequence sorted. */
  lemma {:induction false} DeleteIsMapRemove<K(!new), V>(s: Entries<K, V>, k: K, q: K, cmp: (K, K) -> int)
    requires TotalOrder(cmp)
    ensures Lookup(Delete(s, k, cmp), q, cmp) == if cmp(q, k) == 0 then None else Lookup(s, q, cmp)
  {
    if s != [] {
      DeleteIsMapRemove(s[1..], k, q, cmp);
      SameOrApart(cmp, q, k, s[0].0);
    }
  }

  lemma {:induction false} DeleteSorted<K(!new), V>(s: Entries<K, V>, k: K, cmp: (K, K) -> int)
    requires Sorted(s, cmp)
    ensures Sorted(Delete(s, k, cmp), cmp)
    ensures forall x :: Below(x, s, cmp) ==> Below(x, Delete(s, k, cmp), cmp)
  {
    if s != [] {
      var e, t := s[0], s[1..];
      assert s == [e] + t;
      SortedCons(e, t, cmp);
      DeleteSorted(t, k, cmp);
      SortedCons(e, Delete(t, k, cmp), cmp);
    }
  }
}
