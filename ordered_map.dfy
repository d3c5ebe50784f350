/**
 * JavaScript's `Map`, which iterates in insertion order, as an association list whose
 * keys are unique: `Put` is `Map.prototype.set` and the list itself is what
 * `Map.prototype.entries` yields. `Lookup` observes the value stored under a key, to
 * state what the map holds.
 */
module OrderedMap {
  import opened Sequences

  datatype Option<T> = None | Some(value: T)

  /** The keys, in iteration order. */
  function Keys<K, V>(m: seq<(K, V)>): seq<K> {
    seq(|m|, i requires 0 <= i < |m| => m[i].0)
  }

  /** The value stored under `k`, if any (the one at its first position). */
  function Lookup<K(==), V>(m: seq<(K, V)>, k: K): (r: Option<V>)
    ensures r.Some? <==> k in Keys(m)
    ensures r.Some? ==> r.value == m[IndexOf(Keys(m), k)].1
  {
    if m == [] then None
    else
      assert Keys(m) == [m[0].0] + Keys(m[1..]);
      if m[0].0 == k then Some(m[0].1) else Lookup(m[1..], k)
  }

  /**
   * `Map.prototype.set`: a key already present keeps its position and takes the new
   * value; a new key is appended at the end.
   */
  function Put<K(==), V>(m: seq<(K, V)>, k: K, v: V): (r: seq<(K, V)>)
    requires Unique(Keys(m))
    ensures Unique(Keys(r))
    ensures Keys(r) == if k in Keys(m) then Keys(m) else Keys(m) + [k]
  {
    if k in Keys(m) then
      var r := m[IndexOf(Keys(m), k) := (k, v)];
      assert Keys(r) == Keys(m);
      r
    else
      var r := m + [(k, v)];
      assert Keys(r) == Keys(m) + [k];
      r
  }

  /** After `set`, the key holds the new value and every other key its old one. */
  lemma PutLookup<K, V>(m: seq<(K, V)>, k: K, v: V, j: K)
    requires Unique(Keys(m))
    ensures Lookup(Put(m, k, v), j) == if j == k then Some(v) else Lookup(m, j)
  {
    var r := Put(m, k, v);
    if k in Keys(m) {
      var p := IndexOf(Keys(m), k);
      assert r == m[p := (k, v)];
      assert Keys(r) == Keys(m);
      if j in Keys(m) {
        var q := IndexOf(Keys(m), j);
        assert q == p <==> j == k;
        assert r[q] == if j == k then (k, v) else m[q];
      }
    } else {
      assert r == m + [(k, v)];
      if j == k {
        IndexOfAppendNew(Keys(m), k);
      } else if j in Keys(m) {
        IndexOfAppend(Keys(m), k, j);
      }
    }
  }

  /** Successive `set` calls, one per entry, in order. */
  function PutAll<K(==), V>(m: seq<(K, V)>, entries: seq<(K, V)>): (r: seq<(K, V)>)
    requires Unique(Keys(m))
    ensures Unique(Keys(r))
    decreases |entries|
  {
    if entries == [] then m else PutAll(Put(m, entries[0].0, entries[0].1), entries[1..])
  }

  /** The names in `names` that do not occur in `present`, in their order. */
  function Missing<K(==)>(names: seq<K>, present: seq<K>): seq<K> {
    if names == [] then []
    else (if names[0] in present then [] else [names[0]]) + Missing(names[1..], present)
  }

  /** The entries whose key is not in `names`, in their order. */
  function Retained<K(==), V>(m: seq<(K, V)>, names: seq<K>): seq<(K, V)> {
    if m == [] then []
    else (if m[0].0 in names then [] else [m[0]]) + Retained(m[1..], names)
  }

  lemma KeysCons<K, V>(e: (K, V), m: seq<(K, V)>)
    ensures Keys([e] + m) == [e.0] + Keys(m)
  {
  }

  /** With unique keys, looking up the key at position `i` finds the value at `i`. */
  lemma LookupAt<K, V>(m: seq<(K, V)>, i: nat)
    requires Unique(Keys(m)) && i < |m|
    ensures Lookup(m, m[i].0) == Some(m[i].1)
  {
    IndexOfUnique(Keys(m), i);
  }

  /** A key that is found is stored at some position with that value. */
  lemma LookupFound<K, V>(m: seq<(K, V)>, k: K, v: V)
    requires Lookup(m, k) == Some(v)
    ensures exists i | 0 <= i < |m| :: m[i] == (k, v)
  {
    var i := IndexOf(Keys(m), k);
    assert m[i] == (k, v);
  }

  lemma MissingCons<K>(x: K, names: seq<K>, present: seq<K>)
    ensures Missing([x] + names, present) == (if x in present then [] else [x]) + Missing(names, present)
  {
    assert ([x] + names)[1..] == names;
  }

  lemma MissingAppendAbsent<K>(names: seq<K>, present: seq<K>, x: K)
    requires x !in names
    ensures Missing(names, present + [x]) == Missing(names, present)
    decreases |names|
  {
    if names != [] {
      MissingAppendAbsent(names[1..], present, x);
    }
  }

  lemma {:induction false} RetainedAppend<K, V>(a: seq<(K, V)>, b: seq<(K, V)>, names: seq<K>)
    ensures Retained(a + b, names) == Retained(a, names) + Retained(b, names)
  {
    if a == [] {
      assert a + b == b;
    } else {
      assert (a + b)[0] == a[0] && (a + b)[1..] == a[1..] + b;
      RetainedAppend(a[1..], b, names);
    }
  }

  lemma {:induction false} RetainedUpdate<K, V>(m: seq<(K, V)>, p: nat, e: (K, V), names: seq<K>)
    requires p < |m| && m[p].0 in names && e.0 in names
    ensures Retained(m[p := e], names) == Retained(m, names)
  {
    if p > 0 {
      assert m[p := e][1..] == m[1..][p - 1 := e];
      RetainedUpdate(m[1..], p - 1, e, names);
    }
  }

  /** `set` on a key of `names` leaves the entries outside `names` as they were. */
  lemma RetainedPut<K, V>(m: seq<(K, V)>, k: K, v: V, names: seq<K>)
    requires Unique(Keys(m)) && k in names
    ensures Retained(Put(m, k, v), names) == Retained(m, names)
  {
    if k in Keys(m) {
      RetainedUpdate(m, IndexOf(Keys(m), k), (k, v), names);
    } else {
      RetainedAppend(m, [(k, v)], names);
    }
  }

  /**
   * After successive `set` calls with distinct keys, the keys already present keep their
   * positions and the new ones follow them, in the order they were set.
   */
  lemma {:induction false} PutAllKeys<K, V>(m: seq<(K, V)>, entries: seq<(K, V)>)
    requires Unique(Keys(m)) && Unique(Keys(entries))
    ensures Keys(PutAll(m, entries)) == Keys(m) + Missing(Keys(entries), Keys(m))
    decreases |entries|
  {
    if entries == [] {
      assert Missing(Keys(entries), Keys(m)) == [];
    } else {
      var e := entries[0];
      var rest := entries[1..];
      KeysCons(e, rest);
      assert entries == [e] + rest;
      UniqueCons(e.0, Keys(rest));
      PutAllKeys(Put(m, e.0, e.1), rest);
      MissingCons(e.0, Keys(rest), Keys(m));
      MissingStep(Keys(m), e.0, Keys(rest));
    }
  }

  /** The key list after one more `set`, followed by the names still missing from it. */
  lemma MissingStep<K>(ks: seq<K>, x: K, rest: seq<K>)
    requires x !in rest
    ensures var ks' := if x in ks then ks else ks + [x];
      ks' + Missing(rest, ks') == ks + ((if x in ks then [] else [x]) + Missing(rest, ks))
  {
    if x !in ks {
      MissingAppendAbsent(rest, ks, x);
      AppendAssoc(ks, [x], Missing(rest, ks));
    }
  }

  /** After successive `set` calls with distinct keys, each set key holds its set value. */
  lemma {:induction false} PutAllLookup<K, V>(m: seq<(K, V)>, entries: seq<(K, V)>, k: K)
    requires Unique(Keys(m)) && Unique(Keys(entries))
    ensures Lookup(PutAll(m, entries), k) == if k in Keys(entries) then Lookup(entries, k) else Lookup(m, k)
    decreases |entries|
  {
    if entries != [] {
      var e := entries[0];
      var rest := entries[1..];
      KeysCons(e, rest);
      assert entries == [e] + rest;
      UniqueCons(e.0, Keys(rest));
      PutAllLookup(Put(m, e.0, e.1), rest, k);
      PutLookup(m, e.0, e.1, k);
    }
  }

  /** Successive `set` calls on keys of `names` leave the entries outside `names` as they were. */
  lemma {:induction false} PutAllRetained<K, V>(m: seq<(K, V)>, entries: seq<(K, V)>, names: seq<K>)
    requires Unique(Keys(m))
    requires forall k | k in Keys(entries) :: k in names
    ensures Retained(PutAll(m, entries), names) == Retained(m, names)
    decreases |entries|
  {
    if entries != [] {
      var e := entries[0];
      KeysCons(e, entries[1..]);
      assert entries == [e] + entries[1..];
      RetainedPut(m, e.0, e.1, names);
      PutAllRetained(Put(m, e.0, e.1), entries[1..], names);
    }
  }

  /** Successive `set` calls with distinct keys none of which is present append the entries in order. */
  lemma {:induction false} PutAllFresh<K, V>(m: seq<(K, V)>, entries: seq<(K, V)>)
    requires Unique(Keys(m)) && Unique(Keys(entries))
    requires forall i | 0 <= i < |entries| :: entries[i].0 !in Keys(m)
    ensures PutAll(m, entries) == m + entries
    decreases |entries|
  {
    if entries != [] {
      var e := entries[0];
      var rest := entries[1..];
      KeysCons(e, rest);
      assert entries == [e] + rest;
      UniqueCons(e.0, Keys(rest));
      var m' := Put(m, e.0, e.1);
      assert m' == m + [e];
      forall i | 0 <= i < |rest| ensures rest[i].0 !in Keys(m') {
        assert rest[i] == entries[i + 1];
        assert Keys(rest)[i] == rest[i].0;
      }
      PutAllFresh(m', rest);
      AppendAssoc(m, [e], rest);
    }
  }
}
