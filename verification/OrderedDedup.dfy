/** `list(dict.fromkeys(xs))`: each element once, in the order of first occurrence. */
module OrderedDedup {

  function Dedup<T(==)>(xs: seq<T>): seq<T> {
    if xs == [] then []
    else AppendNew(Dedup(xs[..|xs| - 1]), xs[|xs| - 1])
  }

  /** Appends an element that is not there yet. */
  function AppendNew<T(==)>(xs: seq<T>, x: T): seq<T> {
    if x in xs then xs else xs + [x]
  }

  ghost predicate NoDuplicates<T>(xs: seq<T>) {
    forall i, j :: 0 <= i < j < |xs| ==> xs[i] != xs[j]
  }

  /** Element `b` of the result was first seen after element `a`. */
  ghost predicate SeenBefore<T>(xs: seq<T>, a: T, b: T) {
    exists p :: 0 <= p < |xs| && xs[p] == a && b !in xs[..p + 1]
  }

  lemma {:induction false} SameElements<T>(xs: seq<T>, x: T)
    ensures x in Dedup(xs) <==> x in xs
  {
    if xs != [] {
      SameElements(xs[..|xs| - 1], x);
    }
  }

  /** The result holds the elements of the input, none twice, in order of first occurrence. */
  lemma {:induction false} DedupMeaning<T>(xs: seq<T>)
    ensures NoDuplicates(Dedup(xs))
    ensures forall x :: x in Dedup(xs) <==> x in xs
    ensures forall i, j :: 0 <= i < j < |Dedup(xs)| ==> SeenBefore(xs, Dedup(xs)[i], Dedup(xs)[j])
  {
    if xs != [] {
      var front, last := xs[..|xs| - 1], xs[|xs| - 1];
      DedupMeaning(front);
      var d := Dedup(xs);
      forall i, j | 0 <= i < j < |d|
        ensures SeenBefore(xs, d[i], d[j])
      {
        var kept := Dedup(front);
        assert d[i] == kept[i];
        SameElements(front, d[i]);
        if j < |kept| {
          var p :| 0 <= p < |front| && front[p] == d[i] && d[j] !in front[..p + 1];
          assert front[..p + 1] == xs[..p + 1];
        } else {
          var p :| 0 <= p < |front| && front[p] == d[i];
          assert forall q :: 0 <= q <= p ==> xs[..p + 1][q] == front[q];
        }
      }
    }
  }

  lemma {:induction false} DedupFixed<T>(xs: seq<T>)
    requires NoDuplicates(xs)
    ensures Dedup(xs) == xs
  {
    if xs != [] {
      DedupFixed(xs[..|xs| - 1]);
    }
  }

  /** What the first list already went through need not be undone. */
  lemma {:induction false} DedupLeft<T>(xs: seq<T>, ys: seq<T>)
    ensures Dedup(Dedup(xs) + ys) == Dedup(xs + ys)
  {
    if ys == [] {
      assert Dedup(xs) + ys == Dedup(xs) && xs + ys == xs;
      DedupMeaning(xs);
      DedupFixed(Dedup(xs));
    } else {
      var front := ys[..|ys| - 1];
      DedupLeft(xs, front);
      assert (Dedup(xs) + ys)[..|Dedup(xs) + ys| - 1] == Dedup(xs) + front;
      assert (xs + ys)[..|xs + ys| - 1] == xs + front;
    }
  }

  lemma DedupSnoc<T>(xs: seq<T>, x: T)
    ensures Dedup(xs + [x]) == AppendNew(Dedup(xs), x)
  {
    assert (xs + [x])[..|xs|] == xs;
  }

  lemma {:induction false} DedupRight<T>(xs: seq<T>, ys: seq<T>)
    ensures Dedup(xs + Dedup(ys)) == Dedup(xs + ys)
  {
    if ys != [] {
      var front, last := ys[..|ys| - 1], ys[|ys| - 1];
      DedupRight(xs, front);
      assert xs + ys == (xs + front) + [last];
      DedupSnoc(xs + front, last);
      SameElements(front, last);
      if last in front {
        SameElements(xs + front, last);
      } else {
        assert xs + Dedup(ys) == (xs + Dedup(front)) + [last];
        DedupSnoc(xs + Dedup(front), last);
      }
    }
  }

  lemma Regroup<T>(xs: seq<T>, ys: seq<T>, zs: seq<T>)
    ensures xs + ys + zs == xs + (ys + zs)
  {
  }

  lemma DedupAssociative<T>(xs: seq<T>, ys: seq<T>, zs: seq<T>)
    ensures Dedup(Dedup(xs + ys) + zs) == Dedup(xs + Dedup(ys + zs))
  {
    Regroup(xs, ys, zs);
    DedupLeft(xs + ys, zs);
    DedupRight(xs, ys + zs);
  }
}
