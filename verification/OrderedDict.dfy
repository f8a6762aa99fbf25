/** A Python dict: a finite map that remembers the order in which keys were first inserted. */
module OrderedDict {
  import opened Wrappers

  datatype Dict<K, V> = Dict(keys: seq<K>, items: map<K, V>)

  function Empty<K, V>(): Dict<K, V> {
    Dict([], map[])
  }

  function Get<K, V>(d: Dict<K, V>, k: K): Option<V> {
    if k in d.items then Some(d.items[k]) else None
  }

  /** `d[k] = v`: a known key keeps its place. */
  function Put<K, V>(d: Dict<K, V>, k: K, v: V): Dict<K, V> {
    Dict(if k in d.items then d.keys else d.keys + [k], d.items[k := v])
  }

  /** Stores `v` under `k`, or what `merge` makes of the value already there. */
  function Merge<K, V>(d: Dict<K, V>, k: K, v: V, merge: (V, V) -> V): Dict<K, V> {
    Put(d, k, if k in d.items then merge(d.items[k], v) else v)
  }

  function MergeAll<K, V>(d: Dict<K, V>, saves: seq<(K, V)>, merge: (V, V) -> V): Dict<K, V> {
    if saves == [] then d
    else
      var (k, v) := saves[|saves| - 1];
      Merge(MergeAll(d, saves[..|saves| - 1], merge), k, v, merge)
  }

  /** A merge in which a later copy of a value makes an earlier copy of it irrelevant. */
  ghost predicate LaterCopyWins<V(!new)>(merge: (V, V) -> V) {
    && (forall v :: merge(v, v) == v)
    && (forall x, v :: merge(merge(x, v), v) == merge(x, v))
    && (forall x, y, w, v :: merge(x, v) == merge(y, v) ==> merge(merge(x, w), v) == merge(merge(y, w), v))
  }

  ghost predicate Knows<K, V>(d: Dict<K, V>, saves: seq<(K, V)>) {
    forall i :: 0 <= i < |saves| ==> saves[i].0 in d.items
  }

  lemma {:induction false} MergeAllKnows<K, V>(d: Dict<K, V>, saves: seq<(K, V)>, merge: (V, V) -> V)
    ensures Knows(MergeAll(d, saves, merge), saves)
    ensures d.items.Keys <= MergeAll(d, saves, merge).items.Keys
  {
    if saves != [] {
      var front := saves[..|saves| - 1];
      MergeAllKnows(d, front, merge);
      assert forall i :: 0 <= i < |front| ==> saves[i] == front[i];
    }
  }

  /** The same keys in the same order, the same values except at `k`, where a save of `v`
      would remove the difference. */
  ghost predicate DifferBelow<K, V>(x: Dict<K, V>, y: Dict<K, V>, k: K, v: V, merge: (V, V) -> V) {
    && x.keys == y.keys && x.items.Keys == y.items.Keys && k in x.items
    && (forall j :: j in x.items && j != k ==> x.items[j] == y.items[j])
    && merge(x.items[k], v) == merge(y.items[k], v)
  }

  lemma {:induction false} MergeAllKeepsDifference<K, V(!new)>(
    x: Dict<K, V>, y: Dict<K, V>, k: K, v: V, saves: seq<(K, V)>, merge: (V, V) -> V)
    requires LaterCopyWins(merge) && DifferBelow(x, y, k, v, merge) && Knows(x, saves)
    ensures DifferBelow(MergeAll(x, saves, merge), MergeAll(y, saves, merge), k, v, merge)
  {
    if saves != [] {
      var front := saves[..|saves| - 1];
      assert forall i :: 0 <= i < |front| ==> saves[i] == front[i];
      MergeAllKeepsDifference(x, y, k, v, front, merge);
      MergeAllKnows(x, front, merge);
      MergeAllKnows(y, front, merge);
    }
  }

  /** A key that no save touches rides along unchanged behind the others. */
  lemma {:induction false} MergeAllFrame<K, V>(d: Dict<K, V>, k: K, v: V, saves: seq<(K, V)>, merge: (V, V) -> V)
    requires k !in d.items && Knows(d, saves)
    ensures MergeAll(Put(d, k, v), saves, merge) == Put(MergeAll(d, saves, merge), k, v)
    ensures MergeAll(d, saves, merge).items.Keys == d.items.Keys
  {
    if saves != [] {
      var front := saves[..|saves| - 1];
      assert forall i :: 0 <= i < |front| ==> saves[i] == front[i];
      MergeAllFrame(d, k, v, front, merge);
      var a := MergeAll(d, front, merge);
      var (j, w) := saves[|saves| - 1];
      assert Put(a, k, v).items[j] == a.items[j];
      assert Merge(Put(a, k, v), j, w, merge).items == Put(Merge(a, j, w, merge), k, v).items;
    }
  }

  /** Saving the same list a second time changes nothing: not the values, not the order. */
  lemma {:induction false} ReplayChangesNothing<K, V(!new)>(d: Dict<K, V>, saves: seq<(K, V)>, merge: (V, V) -> V)
    requires LaterCopyWins(merge)
    ensures MergeAll(MergeAll(d, saves, merge), saves, merge) == MergeAll(d, saves, merge)
  {
    if saves != [] {
      var front := saves[..|saves| - 1];
      var (k, v) := saves[|saves| - 1];
      var a := MergeAll(d, front, merge);
      var b := Merge(a, k, v, merge);
      ReplayChangesNothing(d, front, merge);
      MergeAllKnows(d, front, merge);
      if k in a.items {
        MergeAllKeepsDifference(b, a, k, v, front, merge);
        assert Merge(MergeAll(b, front, merge), k, v, merge).items == b.items;
      } else {
        MergeAllFrame(a, k, v, front, merge);
        assert Merge(b, k, v, merge).items == b.items;
      }
    }
  }

  lemma {:induction false} MergeAllAppend<K, V>(d: Dict<K, V>, p: seq<(K, V)>, q: seq<(K, V)>, merge: (V, V) -> V)
    ensures MergeAll(d, p + q, merge) == MergeAll(MergeAll(d, p, merge), q, merge)
  {
    if q == [] {
      assert p + q == p;
    } else {
      assert (p + q)[..|p + q| - 1] == p + q[..|q| - 1];
      MergeAllAppend(d, p, q[..|q| - 1], merge);
    }
  }

  lemma MergeAllSnoc<K, V>(d: Dict<K, V>, saves: seq<(K, V)>, k: K, v: V, merge: (V, V) -> V)
    ensures MergeAll(d, saves + [(k, v)], merge) == Merge(MergeAll(d, saves, merge), k, v, merge)
  {
    assert (saves + [(k, v)])[..|saves|] == saves;
  }

  // ----- a dict and its items()

  ghost predicate Valid<K, V>(d: Dict<K, V>) {
    && (forall k :: k in d.items ==> k in d.keys)
    && (forall i :: 0 <= i < |d.keys| ==> d.keys[i] in d.items)
    && (forall i, j :: 0 <= i < j < |d.keys| ==> d.keys[i] != d.keys[j])
  }

  function Pairs<K, V>(d: Dict<K, V>): seq<(K, V)>
    requires Valid(d)
  {
    seq(|d.keys|, i requires 0 <= i < |d.keys| => (d.keys[i], d.items[d.keys[i]]))
  }

  ghost predicate DistinctKeys<K, V>(saves: seq<(K, V)>) {
    forall i, j :: 0 <= i < j < |saves| ==> saves[i].0 != saves[j].0
  }

  lemma MergeValid<K, V>(d: Dict<K, V>, k: K, v: V, merge: (V, V) -> V)
    requires Valid(d)
    ensures Valid(Merge(d, k, v, merge))
  {
    var r := Merge(d, k, v, merge);
    forall j | j in r.items
      ensures j in r.keys
    {
      if j != k {
        assert j in d.keys;
      }
    }
  }

  lemma PairsOfNew<K, V>(d: Dict<K, V>, k: K, v: V, merge: (V, V) -> V)
    requires Valid(d) && k !in d.items && Valid(Merge(d, k, v, merge))
    ensures Pairs(Merge(d, k, v, merge)) == Pairs(d) + [(k, v)]
  {
  }

  lemma PairsOfKnown<K, V>(d: Dict<K, V>, k: K, v: V, merge: (V, V) -> V, p: nat)
    requires Valid(d) && p < |d.keys| && d.keys[p] == k && Valid(Merge(d, k, v, merge))
    ensures Pairs(d) == Pairs(d)[..p] + [(k, d.items[k])] + Pairs(d)[p + 1..]
    ensures Pairs(Merge(d, k, v, merge)) == Pairs(d)[..p] + [(k, merge(d.items[k], v))] + Pairs(d)[p + 1..]
    ensures forall j :: p < j < |Pairs(d)| ==> Pairs(d)[j].0 != k
  {
    var r := Merge(d, k, v, merge);
    assert r.keys == d.keys && r.items == d.items[k := merge(d.items[k], v)];
    assert forall j :: 0 <= j < |d.keys| && j != p ==> Pairs(r)[j] == Pairs(d)[j];
    assert Pairs(r)[p] == (k, merge(d.items[k], v));
  }

  lemma {:induction false} MergeAllValid<K, V>(d: Dict<K, V>, saves: seq<(K, V)>, merge: (V, V) -> V)
    requires Valid(d)
    ensures Valid(MergeAll(d, saves, merge))
  {
    if saves != [] {
      MergeAllValid(d, saves[..|saves| - 1], merge);
      var (k, v) := saves[|saves| - 1];
      MergeValid(MergeAll(d, saves[..|saves| - 1], merge), k, v, merge);
    }
  }

  /** Pairs with distinct keys, read into an empty dict, are its items, whatever the merge. */
  lemma {:induction false} ReadBack<K, V>(saves: seq<(K, V)>, merge: (V, V) -> V)
    requires DistinctKeys(saves)
    ensures Valid(MergeAll(Empty(), saves, merge)) && Pairs(MergeAll(Empty(), saves, merge)) == saves
  {
    if saves != [] {
      var front := saves[..|saves| - 1];
      var (k, v) := saves[|saves| - 1];
      var d := MergeAll(Empty(), front, merge);
      ReadBack(front, merge);
      assert forall i :: 0 <= i < |front| ==> d.keys[i] == Pairs(d)[i].0 == saves[i].0;
      MergeValid(d, k, v, merge);
      PairsOfNew(d, k, v, merge);
    }
  }

  lemma PairsDetermine<K, V>(d: Dict<K, V>, e: Dict<K, V>)
    requires Valid(d) && Valid(e) && Pairs(d) == Pairs(e)
    ensures d == e
  {
    assert |d.keys| == |Pairs(d)| && |e.keys| == |Pairs(e)|;
    forall i | 0 <= i < |d.keys|
      ensures d.keys[i] == e.keys[i] && d.items[d.keys[i]] == e.items[d.keys[i]]
    {
      assert Pairs(d)[i] == Pairs(e)[i];
    }
    assert d.items == e.items;
  }

  predicate AssociativeAt<V(==)>(merge: (V, V) -> V, x: V, y: V, z: V) {
    merge(merge(x, y), z) == merge(x, merge(y, z))
  }

  ghost predicate Associative<V(!new)>(merge: (V, V) -> V) {
    forall x, y, z :: AssociativeAt(merge, x, y, z)
  }

  lemma MergeCommutes<K, V>(d: Dict<K, V>, j: K, w: V, k: K, v: V, merge: (V, V) -> V)
    requires j != k && k in d.items
    ensures Merge(Merge(d, k, v, merge), j, w, merge) == Merge(Merge(d, j, w, merge), k, v, merge)
  {
    assert Merge(Merge(d, k, v, merge), j, w, merge).items == Merge(Merge(d, j, w, merge), k, v, merge).items;
  }

  /** A merge into a known key can be made before or after saves of other keys. */
  lemma {:induction false} MoveMerge<K, V>(d: Dict<K, V>, k: K, v: V, saves: seq<(K, V)>, merge: (V, V) -> V)
    requires k in d.items && forall i :: 0 <= i < |saves| ==> saves[i].0 != k
    ensures MergeAll(Merge(d, k, v, merge), saves, merge) == Merge(MergeAll(d, saves, merge), k, v, merge)
    ensures k in MergeAll(d, saves, merge).items
  {
    if saves != [] {
      var front := saves[..|saves| - 1];
      var (j, w) := saves[|saves| - 1];
      MoveMerge(d, k, v, front, merge);
      MergeCommutes(MergeAll(d, front, merge), j, w, k, v, merge);
    }
  }

  lemma MergeTwice<K, V(!new)>(d: Dict<K, V>, k: K, v: V, w: V, merge: (V, V) -> V)
    requires Associative(merge)
    ensures Merge(Merge(d, k, v, merge), k, w, merge) == Merge(d, k, merge(v, w), merge)
  {
    if k in d.items {
      assert AssociativeAt(merge, d.items[k], v, w);
    }
    assert Merge(Merge(d, k, v, merge), k, w, merge).items == Merge(d, k, merge(v, w), merge).items;
  }

  lemma MergeInside<K, V(!new)>(
    d: Dict<K, V>, pre: seq<(K, V)>, k: K, was: V, v: V, post: seq<(K, V)>, merge: (V, V) -> V)
    requires Associative(merge) && forall i :: 0 <= i < |post| ==> post[i].0 != k
    ensures MergeAll(d, pre + [(k, merge(was, v))] + post, merge)
            == Merge(MergeAll(d, pre + [(k, was)] + post, merge), k, v, merge)
  {
    var x := MergeAll(d, pre, merge);
    MergeAllAppend(d, pre + [(k, was)], post, merge);
    MergeAllAppend(d, pre + [(k, merge(was, v))], post, merge);
    MergeAllSnoc(d, pre, k, was, merge);
    MergeAllSnoc(d, pre, k, merge(was, v), merge);
    MergeTwice(x, k, was, v, merge);
    MoveMerge(Merge(x, k, was, merge), k, v, post, merge);
  }

  /** Merging `v` into `e` and the items of the result into `d` is merging the items of `e`
      into `d`, and then `v`. */
  lemma PassThrough<K, V(!new)>(d: Dict<K, V>, e: Dict<K, V>, k: K, v: V, merge: (V, V) -> V)
    requires Associative(merge) && Valid(e) && Valid(Merge(e, k, v, merge))
    ensures MergeAll(d, Pairs(Merge(e, k, v, merge)), merge) == Merge(MergeAll(d, Pairs(e), merge), k, v, merge)
  {
    var ps := Pairs(e);
    if k !in e.items {
      PairsOfNew(e, k, v, merge);
      MergeAllSnoc(d, ps, k, v, merge);
    } else {
      var p :| 0 <= p < |e.keys| && e.keys[p] == k;
      PairsOfKnown(e, k, v, merge, p);
      var post := ps[p + 1..];
      assert forall i :: 0 <= i < |post| ==> post[i] == ps[p + 1 + i];
      MergeInside(d, ps[..p], k, e.items[k], v, post, merge);
    }
  }

  /** Merging is associative: `saves` can be merged into `e` first, or last. */
  lemma {:induction false} MergeThrough<K, V(!new)>(
    d: Dict<K, V>, e: Dict<K, V>, saves: seq<(K, V)>, merge: (V, V) -> V)
    requires Associative(merge) && Valid(e)
    ensures Valid(MergeAll(e, saves, merge))
    ensures MergeAll(d, Pairs(MergeAll(e, saves, merge)), merge) == MergeAll(MergeAll(d, Pairs(e), merge), saves, merge)
  {
    MergeAllValid(e, saves, merge);
    if saves != [] {
      var front := saves[..|saves| - 1];
      var (k, v) := saves[|saves| - 1];
      MergeAllValid(e, front, merge);
      MergeThrough(d, e, front, merge);
      PassThrough(d, MergeAll(e, front, merge), k, v, merge);
    }
  }
}
