/**
 * The dependency map `deps`: a map from a formula cell to the cells its
 * formula reads, kept as an association list. An Immutable `Map` fixes
 * no iteration order once it outgrows a few entries; the list iterates
 * in insertion order, which is one order the source may produce.
 */
module DepMaps {
  import opened Wrappers
  import opened Sheet

  type DepMap = seq<(CellRef, seq<CellRef>)>

  /** A map never holds one key twice. */
  ghost predicate DistinctKeys(m: DepMap)
  {
    forall i, j :: 0 <= i < j < |m| ==> m[i].0 != m[j].0
  }

  /** `m.has(k)` */
  ghost predicate HasKey(m: DepMap, k: CellRef)
  {
    exists i :: 0 <= i < |m| && m[i].0 == k
  }

  /** `m.get(k)` */
  function Lookup(m: DepMap, k: CellRef): Option<seq<CellRef>>
  {
    if m == [] then None
    else if m[0].0 == k then Some(m[0].1)
    else Lookup(m[1..], k)
  }

  /** A key is found iff it is present, and what is found is stored beside it. */
  lemma {:induction false} LookupFound(m: DepMap, k: CellRef)
    ensures Lookup(m, k).Some? <==> HasKey(m, k)
    ensures Lookup(m, k).Some? ==> exists i :: 0 <= i < |m| && m[i] == (k, Lookup(m, k).value)
  {
    if m != [] && m[0].0 != k {
      LookupFound(m[1..], k);
      var r := Lookup(m[1..], k);
      if r.Some? {
        var i :| 0 <= i < |m[1..]| && m[1..][i] == (k, r.value);
        assert m[i + 1] == (k, r.value);
      }
      if HasKey(m, k) {
        var i :| 0 <= i < |m| && m[i].0 == k;
        assert m[1..][i - 1].0 == k;
      }
    } else if m != [] {
      assert m[0] == (k, m[0].1);
    }
  }

  /** `m.set(k, v)`: replaces the value of a present key in place, else appends. */
  function Put(m: DepMap, k: CellRef, v: seq<CellRef>): (r: DepMap)
    ensures Lookup(r, k) == Some(v)
    ensures forall k' :: k' != k ==> Lookup(r, k') == Lookup(m, k')
  {
    if m == [] then [(k, v)]
    else if m[0].0 == k then [(k, v)] + m[1..]
    else [m[0]] + Put(m[1..], k, v)
  }

  /** `Put` keeps a map's keys distinct. */
  lemma {:induction false} PutDistinct(m: DepMap, k: CellRef, v: seq<CellRef>)
    requires DistinctKeys(m)
    ensures DistinctKeys(Put(m, k, v))
  {
    if m != [] && m[0].0 != k {
      PutDistinct(m[1..], k, v);
      var r := Put(m, k, v);
      forall i, j | 0 <= i < j < |r| ensures r[i].0 != r[j].0 {
        if i == 0 {
          assert r[j] == Put(m[1..], k, v)[j - 1];
          assert Lookup(Put(m[1..], k, v), m[0].0) == Lookup(m[1..], m[0].0);
          LookupFound(m[1..], m[0].0);
          LookupFound(Put(m[1..], k, v), m[0].0);
        }
      }
    }
  }

  /** With distinct keys, the value found for a key is the one stored beside it. */
  lemma {:induction false} LookupAt(m: DepMap, i: nat)
    requires DistinctKeys(m) && i < |m|
    ensures Lookup(m, m[i].0) == Some(m[i].1)
  {
    if i > 0 {
      assert m[1..][i - 1] == m[i];
      LookupAt(m[1..], i - 1);
    }
  }

  /** Appending an entry with a new key extends the lookups by that key only. */
  lemma LookupSnoc(m: DepMap, e: (CellRef, seq<CellRef>), k: CellRef)
    requires DistinctKeys(m + [e])
    ensures Lookup(m + [e], k) == if k == e.0 then Some(e.1) else Lookup(m, k)
  {
    var m' := m + [e];
    if k == e.0 {
      LookupAt(m', |m|);
    } else if HasKey(m, k) {
      var i :| 0 <= i < |m| && m[i].0 == k;
      assert DistinctKeys(m) by {
        forall a, b | 0 <= a < b < |m| ensures m[a].0 != m[b].0 {
          assert m'[a] == m[a] && m'[b] == m[b];
        }
      }
      LookupAt(m, i);
      LookupAt(m', i);
    } else {
      LookupFound(m, k);
      LookupFound(m', k);
    }
  }
}
