/**
 * An insertion-ordered map (`IndexMap<K, V>`) as an association list: the
 * entries in iteration order, each key at most once. `Insert` of a key that
 * is already present replaces its value and keeps its position; a new key
 * goes to the end. Collecting an iterator of pairs into a map is a fold of
 * `Insert` over the pairs (`FromPairs`).
 */
module IndexMap {
  import opened Wrappers

  function Keys<K, V>(m: seq<(K, V)>): (r: seq<K>)
    ensures |r| == |m|
    ensures forall i :: 0 <= i < |m| ==> r[i] == m[i].0
  {
    seq(|m|, i requires 0 <= i < |m| => m[i].0)
  }

  predicate DistinctKeys<K(==), V>(m: seq<(K, V)>) {
    forall i, j :: 0 <= i < j < |m| ==> m[i].0 != m[j].0
  }

  /** The position of key `k`, if it is present. */
  function IndexOf<K(==), V>(m: seq<(K, V)>, k: K): (r: Option<nat>)
    ensures r.Some? ==> r.value < |m| && m[r.value].0 == k
    ensures r.Some? ==> forall j :: 0 <= j < r.value ==> m[j].0 != k
    ensures r.None? ==> forall j :: 0 <= j < |m| ==> m[j].0 != k
    decreases |m|
  {
    if |m| == 0 then None
    else if m[0].0 == k then Some(0)
    else
      match IndexOf(m[1..], k)
      case None => None
      case Some(j) => Some(j + 1)
  }

  /** The first position holding `k` is the one `IndexOf` finds. */
  lemma IndexOfIs<K, V>(m: seq<(K, V)>, k: K, j: nat)
    requires j < |m| && m[j].0 == k
    requires forall i :: 0 <= i < j ==> m[i].0 != k
    ensures IndexOf(m, k) == Some(j)
  {
  }

  lemma IndexOfAbsent<K, V>(m: seq<(K, V)>, k: K)
    requires forall i :: 0 <= i < |m| ==> m[i].0 != k
    ensures IndexOf(m, k) == None
  {
  }

  /** `IndexMap::get`. */
  function Get<K(==), V>(m: seq<(K, V)>, k: K): (r: Option<V>)
    ensures r.None? <==> k !in Keys(m)
    ensures DistinctKeys(m) ==> forall i :: 0 <= i < |m| && m[i].0 == k ==> r == Some(m[i].1)
  {
    match IndexOf(m, k)
    case None => None
    case Some(i) => Some(m[i].1)
  }

  /** `IndexMap::insert`. */
  function Insert<K(==), V>(m: seq<(K, V)>, k: K, v: V): (r: seq<(K, V)>)
    ensures k in Keys(m) ==> Keys(r) == Keys(m)
    ensures k !in Keys(m) ==> r == m + [(k, v)]
    ensures Get(r, k) == Some(v)
    ensures DistinctKeys(m) ==> DistinctKeys(r)
  {
    match IndexOf(m, k)
    case None =>
      var r := m + [(k, v)];
      IndexOfIs(r, k, |m|);
      r
    case Some(i) =>
      var r := m[i := (k, v)];
      assert Keys(r) == Keys(m);
      IndexOfIs(r, k, i);
      r
  }

  /** Inserting adds no entry but the one inserted. */
  lemma InsertEntries<K, V>(m: seq<(K, V)>, k: K, v: V)
    ensures forall e :: e in Insert(m, k, v) ==> e in m || e == (k, v)
  {
  }

  /** Inserting one key leaves the lookup of every other key as it was. */
  lemma InsertGetOther<K, V>(m: seq<(K, V)>, k: K, v: V, k': K)
    requires k' != k
    ensures Get(Insert(m, k, v), k') == Get(m, k')
  {
    var r := Insert(m, k, v);
    assert forall i :: 0 <= i < |m| ==> r[i].0 == m[i].0 by {
      if k in Keys(m) {
        assert Keys(r) == Keys(m);
      }
    }
    match IndexOf(m, k')
    case None =>
      IndexOfAbsent(r, k');
    case Some(j) =>
      IndexOfIs(r, k', j);
  }

  /** Inserting the pairs of `ps` one by one into `acc`. */
  function Extend<K(==), V>(acc: seq<(K, V)>, ps: seq<(K, V)>): (r: seq<(K, V)>)
    ensures DistinctKeys(acc) ==> DistinctKeys(r)
    decreases |ps|
  {
    if |ps| == 0 then acc
    else Extend(Insert(acc, ps[0].0, ps[0].1), ps[1..])
  }

  /** Extending adds no entry that was not in `acc` or `ps`. */
  lemma {:induction false} ExtendEntries<K, V>(acc: seq<(K, V)>, ps: seq<(K, V)>)
    ensures forall e :: e in Extend(acc, ps) ==> e in acc || e in ps
    decreases |ps|
  {
    if |ps| > 0 {
      var acc' := Insert(acc, ps[0].0, ps[0].1);
      InsertEntries(acc, ps[0].0, ps[0].1);
      ExtendEntries(acc', ps[1..]);
      assert forall p :: p in ps[1..] ==> p in ps;
    }
  }

  /** Collecting pairs into a map (`FromIterator for IndexMap`). */
  function FromPairs<K(==), V>(ps: seq<(K, V)>): (r: seq<(K, V)>)
    ensures DistinctKeys(r)
    ensures forall i :: 0 <= i < |r| ==> r[i] in ps
  {
    ExtendEntries([], ps);
    Extend([], ps)
  }

  /** The value of the last pair in `ps` with key `k`. */
  function LastValue<K(==), V>(ps: seq<(K, V)>, k: K): Option<V>
    decreases |ps|
  {
    if |ps| == 0 then None
    else if ps[|ps| - 1].0 == k then Some(ps[|ps| - 1].1)
    else LastValue(ps[..|ps| - 1], k)
  }

  lemma {:induction false} LastValueCons<K, V>(p: (K, V), ps: seq<(K, V)>, k: K)
    ensures LastValue([p] + ps, k) == if LastValue(ps, k).Some? || p.0 != k then LastValue(ps, k) else Some(p.1)
    decreases |ps|
  {
    if |ps| > 0 {
      assert ([p] + ps)[..|ps|] == [p] + ps[..|ps| - 1];
      LastValueCons(p, ps[..|ps| - 1], k);
    }
  }

  /** `LastValue` read from the front: a later pair with the key overrides the first one. */
  lemma LastValueFirst<K, V>(ps: seq<(K, V)>, k: K)
    requires |ps| > 0
    ensures var later := LastValue(ps[1..], k);
            LastValue(ps, k) == if later.Some? || ps[0].0 != k then later else Some(ps[0].1)
  {
    assert ps == [ps[0]] + ps[1..];
    LastValueCons(ps[0], ps[1..], k);
  }

  lemma {:induction false} ExtendGet<K, V>(acc: seq<(K, V)>, ps: seq<(K, V)>, k: K)
    ensures Get(Extend(acc, ps), k) == if LastValue(ps, k).Some? then LastValue(ps, k) else Get(acc, k)
    decreases |ps|
  {
    if |ps| > 0 {
      var p, rest := ps[0], ps[1..];
      var acc' := Insert(acc, p.0, p.1);
      assert Extend(acc, ps) == Extend(acc', rest);
      ExtendGet(acc', rest, k);
      LastValueFirst(ps, k);
      var later := LastValue(rest, k);
      if later.None? {
        if p.0 == k {
          assert LastValue(ps, k) == Some(p.1) == Get(acc', k);
        } else {
          InsertGetOther(acc, p.0, p.1, k);
          assert LastValue(ps, k) == None;
        }
      } else {
        assert LastValue(ps, k) == later;
      }
    }
  }

  /** After collecting, each key holds the value of its last occurrence. */
  lemma FromPairsGet<K, V>(ps: seq<(K, V)>, k: K)
    ensures Get(FromPairs(ps), k) == LastValue(ps, k)
  {
    ExtendGet([], ps, k);
  }

  lemma {:induction false} ExtendDistinct<K, V>(acc: seq<(K, V)>, ps: seq<(K, V)>)
    requires DistinctKeys(acc + ps)
    ensures Extend(acc, ps) == acc + ps
    decreases |ps|
  {
    if |ps| > 0 {
      var a := acc + ps;
      assert ps[0].0 !in Keys(acc) by {
        forall i | 0 <= i < |acc| ensures acc[i].0 != ps[0].0 {
          assert a[i] == acc[i] && a[|acc|] == ps[0];
        }
      }
      assert acc + [ps[0]] + ps[1..] == a;
      ExtendDistinct(acc + [ps[0]], ps[1..]);
    }
  }

  /** Collecting pairs whose keys are already distinct rebuilds them unchanged, in order. */
  lemma FromPairsDistinct<K, V>(ps: seq<(K, V)>)
    requires DistinctKeys(ps)
    ensures FromPairs(ps) == ps
  {
    assert [] + ps == ps;
    ExtendDistinct([], ps);
  }

  /** Entries that carry, position by position, the keys of a map: collecting them changes nothing. */
  lemma FromPairsSameKeys<K, V, W>(m: seq<(K, V)>, ps: seq<(K, W)>)
    requires DistinctKeys(m)
    requires |ps| == |m| && forall i :: 0 <= i < |m| ==> ps[i].0 == m[i].0
    ensures FromPairs(ps) == ps
  {
    assert DistinctKeys(ps) by {
      forall i, j | 0 <= i < j < |ps| ensures ps[i].0 != ps[j].0 {
        assert ps[i].0 == m[i].0 && ps[j].0 == m[j].0;
      }
    }
    FromPairsDistinct(ps);
  }

  /** Each key once, in the order of its first occurrence. */
  function FirstOccurrences<K(==)>(ks: seq<K>): seq<K>
    decreases |ks|
  {
    if |ks| == 0 then []
    else
      var f := FirstOccurrences(ks[..|ks| - 1]);
      if ks[|ks| - 1] in f then f else f + [ks[|ks| - 1]]
  }

  /** Extending by one more pair is inserting that pair last. */
  lemma {:induction false} ExtendSnoc<K, V>(acc: seq<(K, V)>, ps: seq<(K, V)>, p: (K, V))
    ensures Extend(acc, ps + [p]) == Insert(Extend(acc, ps), p.0, p.1)
    decreases |ps|
  {
    if |ps| == 0 {
      assert ps + [p] == [p];
      assert [p][1..] == [];
    } else {
      var qs := ps + [p];
      assert qs[0] == ps[0] && qs[1..] == ps[1..] + [p];
      ExtendSnoc(Insert(acc, ps[0].0, ps[0].1), ps[1..], p);
    }
  }

  /** Collecting one more pair inserts it into the map collected so far. */
  lemma FromPairsSnoc<K, V>(ps: seq<(K, V)>, p: (K, V))
    ensures FromPairs(ps + [p]) == Insert(FromPairs(ps), p.0, p.1)
  {
    ExtendSnoc([], ps, p);
  }

  /** `FromPairsSnoc` read from the back of a non-empty sequence. */
  lemma FromPairsLast<K, V>(ps: seq<(K, V)>)
    requires |ps| > 0
    ensures var n := |ps|; FromPairs(ps) == Insert(FromPairs(ps[..n - 1]), ps[n - 1].0, ps[n - 1].1)
  {
    var n := |ps|;
    assert ps == ps[..n - 1] + [ps[n - 1]];
    FromPairsSnoc(ps[..n - 1], ps[n - 1]);
  }

  /** The keys after an insertion: unchanged for a present key, the new key last otherwise. */
  lemma InsertKeys<K, V>(m: seq<(K, V)>, k: K, v: V)
    ensures Keys(Insert(m, k, v)) == if k in Keys(m) then Keys(m) else Keys(m) + [k]
  {
    if k !in Keys(m) {
      assert Keys(m + [(k, v)]) == Keys(m) + [k];
    }
  }

  /**
   * The keys of a collected map are the keys of the pairs in order of first
   * occurrence: a repeated key stays where it first appeared.
   */
  lemma {:induction false} FromPairsKeys<K, V>(ps: seq<(K, V)>)
    ensures Keys(FromPairs(ps)) == FirstOccurrences(Keys(ps))
    decreases |ps|
  {
    var n := |ps|;
    if n > 0 {
      var init, k, v := ps[..n - 1], ps[n - 1].0, ps[n - 1].1;
      var m := FromPairs(init);
      var ks := Keys(ps);
      assert ks[..n - 1] == Keys(init);
      assert ks[n - 1] == k;
      FromPairsKeys(init);
      FromPairsLast(ps);
      InsertKeys(m, k, v);
      calc {
        Keys(FromPairs(ps));
        Keys(Insert(m, k, v));
        if k in Keys(m) then Keys(m) else Keys(m) + [k];
        if k in FirstOccurrences(Keys(init)) then FirstOccurrences(Keys(init)) else FirstOccurrences(Keys(init)) + [k];
        FirstOccurrences(ks);
      }
    }
  }
}
