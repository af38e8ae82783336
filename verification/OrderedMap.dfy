/** The part of Rust's `BTreeMap<u64, V>` that the recovery manager uses, as its entries in key order. */
module OrderedMap {
  import opened Ordering

  ghost predicate Ordered<V>(m: seq<(nat, V)>) {
    forall i, j :: 0 <= i < j < |m| ==> m[i].0 < m[j].0
  }

  /** `insert`: replaces the entry under `k`, or adds one at the place its key demands. */
  function Insert<V>(m: seq<(nat, V)>, k: nat, v: V): seq<(nat, V)> {
    if m == [] || k < m[0].0 then [(k, v)] + m
    else if k == m[0].0 then [(k, v)] + m[1..]
    else [m[0]] + Insert(m[1..], k, v)
  }

  /** `range(..=k).next_back()`. */
  function LastAtMost<V>(m: seq<(nat, V)>, k: nat): (r: Option<(nat, V)>)
    requires Ordered(m)
    ensures r.Some? ==> r.value in m && r.value.0 <= k && forall e :: e in m && e.0 <= k ==> e.0 <= r.value.0
    ensures r.None? ==> forall e :: e in m ==> k < e.0
  {
    if m == [] then None
    else
      var last := m[|m| - 1];
      assert m == m[..|m| - 1] + [last];
      if last.0 <= k then Some(last) else LastAtMost(m[..|m| - 1], k)
  }

  lemma {:induction false} InsertContents<V>(m: seq<(nat, V)>, k: nat, v: V, e: (nat, V))
    requires Ordered(m)
    ensures Ordered(Insert(m, k, v))
    ensures e in Insert(m, k, v) <==> e == (k, v) || (e in m && e.0 != k)
  {
    if m != [] {
      assert m == [m[0]] + m[1..];
      if m[0].0 < k {
        InsertContents(m[1..], k, v, e);
        var r := Insert(m[1..], k, v);
        forall j | 0 <= j < |r| ensures m[0].0 < r[j].0 {
          InsertContents(m[1..], k, v, r[j]);
          assert r[j] in r;
          if r[j] != (k, v) {
            assert r[j] in m[1..];
          }
        }
      }
    }
  }

  lemma OrderedDrop<V>(m: seq<(nat, V)>, n: nat)
    requires Ordered(m) && n <= |m|
    ensures Ordered(m[n..])
  {
    forall i, j | 0 <= i < j < |m[n..]| ensures m[n..][i].0 < m[n..][j].0 {
      assert m[n + i].0 < m[n + j].0;
    }
  }

  lemma OneEntryPerKey<V>(m: seq<(nat, V)>, e: (nat, V), f: (nat, V))
    requires Ordered(m) && e in m && f in m && e.0 == f.0
    ensures e == f
  {
    var i :| 0 <= i < |m| && m[i] == e;
    var j :| 0 <= j < |m| && m[j] == f;
    assert i == j;
  }

  /** After an insertion a look-up finds the new entry where it is the nearest, and elsewhere what it found before. */
  lemma LastAfterInsert<V>(m: seq<(nat, V)>, k: nat, v: V, n: nat)
    requires Ordered(m)
    ensures Ordered(Insert(m, k, v))
    ensures LastAtMost(Insert(m, k, v), n) ==
            var found := LastAtMost(m, n);
            if k <= n && (found.None? || found.value.0 <= k) then Some((k, v)) else found
  {
    var r, found := Insert(m, k, v), LastAtMost(m, n);
    InsertContents(m, k, v, (k, v));
    var found' := LastAtMost(r, n);
    if found.Some? { InsertContents(m, k, v, found.value); }
    if found'.Some? {
      InsertContents(m, k, v, found'.value);
      if found'.value == (k, v) {
        if found.Some? && found.value.0 != k { assert found.value in r; }
      } else {
        assert found'.value in m;
        OneEntryPerKey(m, found'.value, found.value);
      }
    }
  }

  /** A key above every other goes to the end. */
  lemma {:induction false} InsertLast<V>(m: seq<(nat, V)>, k: nat, v: V)
    requires Ordered(m) && forall i :: 0 <= i < |m| ==> m[i].0 < k
    ensures Insert(m, k, v) == m + [(k, v)]
  {
    if m != [] {
      InsertLast(m[1..], k, v);
      assert m == [m[0]] + m[1..];
    }
  }
}
