/**
 * A relational table held in memory: its rows in insertion order, each a key and
 * the rest of the row. Keyed tables have unique keys; association tables repeat them.
 */
module Tables {
  import opened Wrappers

  type Table<K, V> = seq<(K, V)>

  /** The keys present in a table. */
  function Keys<K, V>(t: Table<K, V>): set<K> {
    set i | 0 <= i < |t| :: t[i].0
  }

  /** The keys of a non-empty table: its first row's key and the keys of the rest. */
  lemma KeysCons<K, V>(t: Table<K, V>)
    requires t != []
    ensures Keys(t) == {t[0].0} + Keys(t[1..])
  {
    forall x | x in Keys(t) ensures x in {t[0].0} + Keys(t[1..]) {
      var i :| 0 <= i < |t| && t[i].0 == x;
      if i > 0 { assert t[1..][i - 1].0 == x; }
    }
    forall x | x in Keys(t[1..]) ensures x in Keys(t) {
      var i :| 0 <= i < |t[1..]| && t[1..][i].0 == x;
      assert t[i + 1].0 == x;
    }
  }

  /** A primary key: no two rows share a key. */
  predicate UniqueKeys<K(==), V>(t: Table<K, V>) {
    forall i, j :: 0 <= i < j < |t| ==> t[i].0 != t[j].0
  }

  /** `SELECT ... WHERE key = ?` returning the first matching row, or nothing. */
  function Lookup<K(==), V>(t: Table<K, V>, k: K): (r: Option<V>)
    ensures r.Some? <==> k in Keys(t)
    ensures r.Some? ==> (k, r.value) in t
  {
    if t == [] then None
    else if t[0].0 == k then Some(t[0].1)
    else
      var r := Lookup(t[1..], k);
      KeysCons(t);
      r
  }

  /** The number of rows a statement `WHERE key = ?` affects. */
  function Count<K(==), V>(t: Table<K, V>, k: K): (n: nat)
    ensures n > 0 <==> k in Keys(t)
    ensures UniqueKeys(t) ==> n <= 1
  {
    if t == [] then 0
    else
      var n := Count(t[1..], k);
      KeysCons(t);
      assert UniqueKeys(t) ==> UniqueKeys(t[1..]) && (t[0].0 == k ==> k !in Keys(t[1..]));
      (if t[0].0 == k then 1 else 0) + n
  }

  /** `DELETE ... WHERE key = ?`: the other rows, in order. */
  function Remove<K(==), V>(t: Table<K, V>, k: K): (r: Table<K, V>)
    ensures Keys(r) == Keys(t) - {k}
    ensures UniqueKeys(t) ==> UniqueKeys(r)
  {
    if t == [] then []
    else
      var rest := Remove(t[1..], k);
      KeysCons(t);
      if t[0].0 == k then rest
      else
        var r := [t[0]] + rest;
        KeysCons(r);
        assert r[1..] == rest;
        assert UniqueKeys(t) ==> t[0].0 !in Keys(t[1..]);
        r
  }

  /** A delete keeps exactly the rows with another key. */
  lemma {:induction false} RemoveRows<K, V>(t: Table<K, V>, k: K)
    ensures forall i :: 0 <= i < |Remove(t, k)| ==> Remove(t, k)[i] in t && Remove(t, k)[i].0 != k
    ensures forall i :: 0 <= i < |t| && t[i].0 != k ==> t[i] in Remove(t, k)
  {
    if t != [] {
      RemoveRows(t[1..], k);
      var rest := Remove(t[1..], k);
      forall i | 0 <= i < |t| && t[i].0 != k ensures t[i] in Remove(t, k) {
        if i > 0 { assert t[1..][i - 1] == t[i]; }
      }
      forall i | 0 <= i < |Remove(t, k)| ensures Remove(t, k)[i] in t && Remove(t, k)[i].0 != k {
        if t[0].0 != k && i > 0 { assert Remove(t, k)[i] == rest[i - 1]; }
      }
    }
  }

  /** `UPDATE ... SET ... WHERE key = ?`: every row with that key gets `v`, in place. */
  function Replace<K(==), V>(t: Table<K, V>, k: K, v: V): (r: Table<K, V>)
    ensures |r| == |t|
    ensures forall i :: 0 <= i < |t| ==> r[i] == if t[i].0 == k then (k, v) else t[i]
    ensures Keys(r) == Keys(t)
    ensures UniqueKeys(t) ==> UniqueKeys(r)
  {
    seq(|t|, i requires 0 <= i < |t| => if t[i].0 == k then (k, v) else t[i])
  }

  /** The values stored under key `k`, in row order: how association rows are read back. */
  function ValuesOf<K(==), V>(t: Table<K, V>, k: K): (r: seq<V>)
    ensures |r| <= |t|
    ensures k !in Keys(t) ==> r == []
  {
    if t == [] then []
    else
      KeysCons(t);
      (if t[0].0 == k then [t[0].1] else []) + ValuesOf(t[1..], k)
  }

  /** Rows `(k, vs[0]), (k, vs[1]), ...`: what a loop inserting `vs` under `k` appends. */
  function Rows<K, V>(k: K, vs: seq<V>): (r: Table<K, V>)
    ensures |r| == |vs|
    ensures Keys(r) <= {k}
  {
    seq(|vs|, i requires 0 <= i < |vs| => (k, vs[i]))
  }

  /** A key absent before an insertion is found afterwards, and every other lookup is unchanged. */
  lemma {:induction false} LookupAppend<K, V>(t: Table<K, V>, k: K, v: V, q: K)
    requires k !in Keys(t)
    ensures Lookup(t + [(k, v)], q) == if q == k then Some(v) else Lookup(t, q)
  {
    if t != [] {
      assert (t + [(k, v)])[1..] == t[1..] + [(k, v)];
      KeysCons(t);
      LookupAppend(t[1..], k, v, q);
    }
  }

  /** After a delete the key is gone and every other lookup is unchanged. */
  lemma {:induction false} LookupRemove<K, V>(t: Table<K, V>, k: K, q: K)
    ensures Lookup(Remove(t, k), q) == if q == k then None else Lookup(t, q)
  {
    if t != [] {
      LookupRemove(t[1..], k, q);
    }
  }

  /** After an update of an existing key, its lookup yields the new value and every other lookup is unchanged. */
  lemma {:induction false} LookupReplace<K, V>(t: Table<K, V>, k: K, v: V, q: K)
    ensures Lookup(Replace(t, k, v), q) ==
      if q == k && k in Keys(t) then Some(v) else Lookup(t, q)
  {
    if t != [] {
      assert Replace(t, k, v)[1..] == Replace(t[1..], k, v);
      KeysCons(t);
      LookupReplace(t[1..], k, v, q);
    }
  }

  /** Reading back a key's values distributes over concatenated row sequences. */
  lemma {:induction false} ValuesOfAppend<K, V>(t: Table<K, V>, u: Table<K, V>, k: K)
    ensures ValuesOf(t + u, k) == ValuesOf(t, k) + ValuesOf(u, k)
  {
    if t != [] {
      assert (t + u)[0] == t[0];
      assert (t + u)[1..] == t[1..] + u;
      ValuesOfAppend(t[1..], u, k);
      var h: seq<V> := if t[0].0 == k then [t[0].1] else [];
      assert ValuesOf(t + u, k) == h + (ValuesOf(t[1..], k) + ValuesOf(u, k));
      assert h + (ValuesOf(t[1..], k) + ValuesOf(u, k)) == (h + ValuesOf(t[1..], k)) + ValuesOf(u, k);
    } else {
      assert t + u == u;
    }
  }

  /** Rows inserted under `k` read back as exactly the inserted values under `k`, and as nothing under any other key. */
  lemma {:induction false} ValuesOfRows<K, V>(k: K, vs: seq<V>, q: K)
    ensures ValuesOf(Rows(k, vs), q) == if q == k then vs else []
  {
    if vs != [] {
      assert Rows(k, vs)[1..] == Rows(k, vs[1..]);
      ValuesOfRows(k, vs[1..], q);
    }
  }

  /** Deleting a key's rows leaves nothing under it and every other key's values as they were. */
  lemma {:induction false} ValuesOfRemove<K, V>(t: Table<K, V>, k: K, q: K)
    ensures ValuesOf(Remove(t, k), q) == if q == k then [] else ValuesOf(t, q)
  {
    if t != [] {
      ValuesOfRemove(t[1..], k, q);
    }
  }

  /** The keys of two row sequences laid end to end. */
  lemma KeysConcat<K, V>(t: Table<K, V>, u: Table<K, V>)
    ensures Keys(t + u) == Keys(t) + Keys(u)
  {
    forall x | x in Keys(t + u) ensures x in Keys(t) + Keys(u) {
      var i :| 0 <= i < |t + u| && (t + u)[i].0 == x;
      if i >= |t| { assert u[i - |t|].0 == x; }
    }
    forall x | x in Keys(t) ensures x in Keys(t + u) {
      var i :| 0 <= i < |t| && t[i].0 == x;
      assert (t + u)[i].0 == x;
    }
    forall x | x in Keys(u) ensures x in Keys(t + u) {
      var i :| 0 <= i < |u| && u[i].0 == x;
      assert (t + u)[|t| + i].0 == x;
    }
  }

  /** Inserting a row under a fresh key keeps the key a primary key. */
  lemma UniqueAppend<K, V>(t: Table<K, V>, row: (K, V))
    requires UniqueKeys(t) && row.0 !in Keys(t)
    ensures UniqueKeys(t + [row])
    ensures Keys(t + [row]) == Keys(t) + {row.0}
  {
    KeysConcat(t, [row]);
    assert Keys([row]) == {row.0} by {
      assert [row][0].0 == row.0;
    }
    forall i, j | 0 <= i < j < |t + [row]| ensures (t + [row])[i].0 != (t + [row])[j].0 {
      if j == |t| { assert t[i].0 in Keys(t); }
    }
  }

  /** Under a primary key, looking up a row's key finds that row. */
  lemma {:induction false} LookupUnique<K, V>(t: Table<K, V>, i: nat)
    requires UniqueKeys(t) && i < |t|
    ensures Lookup(t, t[i].0) == Some(t[i].1)
  {
    if i > 0 {
      assert t[1..][i - 1] == t[i];
      LookupUnique(t[1..], i - 1);
    }
  }
}
