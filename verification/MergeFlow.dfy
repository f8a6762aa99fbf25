/** Merging the personal-data flows that separate batches report: `merge_flow`. */
module MergeFlow {
  import opened Wrappers
  import opened OrderedDict
  import opened OrderedDedup

  /** One personal-data item. A missing list reads as [], a missing or falsy scalar as "". */
  datatype Item = Item(
    name: string, collect: seq<string>, store: seq<string>, use: seq<string>, dispose: seq<string>,
    encryption: string, table: string, category: string, thirdParty: string, overseas: string)

  datatype Summary = Summary(items: nat, tables: nat, encryption: string)

  /** `NoFlow` is `{}` or anything that is not a dict. */
  datatype Flow = NoFlow | Flow(items: seq<Item>, gaps: seq<string>, summary: Summary)

  const UNCONFIRMED := "미확인"

  function FirstNonEmpty(a: string, b: string): string {
    if a != "" then a else b
  }

  function MergeItem(cur: Item, it: Item): Item {
    Item(cur.name,
         Dedup(cur.collect + it.collect), Dedup(cur.store + it.store),
         Dedup(cur.use + it.use), Dedup(cur.dispose + it.dispose),
         FirstNonEmpty(cur.encryption, it.encryption), FirstNonEmpty(cur.table, it.table),
         FirstNonEmpty(cur.category, it.category), FirstNonEmpty(cur.thirdParty, it.thirdParty),
         FirstNonEmpty(cur.overseas, it.overseas))
  }

  function ItemsOf(f: Flow): seq<Item> {
    if f.NoFlow? then [] else f.items
  }

  function GapsOf(f: Flow): seq<string> {
    if f.NoFlow? then [] else f.gaps
  }

  /** The named items, each under its name. */
  function Named(items: seq<Item>): seq<(string, Item)> {
    if items == [] then []
    else
      var last := items[|items| - 1];
      Named(items[..|items| - 1]) + if last.name != "" then [(last.name, last)] else []
  }

  function Later(earlier: Item, later: Item): Item {
    later
  }

  /** The dict comprehension over the accumulated items: a repeated name keeps its last item. */
  function Index(items: seq<Item>): Dict<string, Item> {
    MergeAll(Empty(), Named(items), Later)
  }

  function Values(d: Dict<string, Item>): seq<Item>
    requires Valid(d)
  {
    seq(|d.keys|, i requires 0 <= i < |d.keys| => d.items[d.keys[i]])
  }

  lemma NamedSnoc(items: seq<Item>, last: Item)
    ensures Named(items + [last]) == if last.name != "" then Named(items) + [(last.name, last)] else Named(items)
  {
    assert (items + [last])[..|items|] == items;
  }

  function Combined(acc: seq<Item>, more: seq<Item>): (d: Dict<string, Item>)
    ensures Valid(d)
  {
    MergeAllValid(Empty(), Named(acc), Later);
    MergeAllValid(Index(acc), Named(more), MergeItem);
    MergeAll(Index(acc), Named(more), MergeItem)
  }

  // ----- the summary

  function TablesOf(items: seq<Item>): set<string> {
    set i | 0 <= i < |items| && items[i].table != "" :: items[i].table
  }

  function FirstEncryption(items: seq<Item>): string {
    if items == [] then UNCONFIRMED
    else if items[0].encryption != "" then items[0].encryption
    else FirstEncryption(items[1..])
  }

  function Summarize(items: seq<Item>): Summary {
    Summary(|items|, |TablesOf(items)|, FirstEncryption(items))
  }

  // ----- the merge

  function Merge(acc: Flow, more: Flow): Flow {
    if more.NoFlow? then acc
    else
      var items := Values(Combined(ItemsOf(acc), more.items));
      Flow(items, Dedup(GapsOf(acc) + more.gaps), Summarize(items))
  }

  method MergeFlows(acc: Flow, more: Flow) returns (merged: Flow)
    ensures merged == Merge(acc, more)
  {
    if more.NoFlow? {
      return acc;
    }
    var items: Dict<string, Item> := Empty();
    var seen := ItemsOf(acc);
    assert seen[..0] == [];
    for i := 0 to |seen|
      invariant items == Index(seen[..i])
    {
      IndexStep(Empty(), seen, i, Later);
      if seen[i].name != "" {
        items := Put(items, seen[i].name, seen[i]);
      }
    }
    assert seen[..|seen|] == seen;
    assert more.items[..0] == [];
    for i := 0 to |more.items|
      invariant items == MergeAll(Index(seen), Named(more.items[..i]), MergeItem)
    {
      var it := more.items[i];
      IndexStep(Index(seen), more.items, i, MergeItem);
      if it.name != "" {
        if it.name in items.items {
          items := Put(items, it.name, MergeItem(items.items[it.name], it));
        } else {
          items := Put(items, it.name, it);
        }
      }
    }
    assert more.items[..|more.items|] == more.items;
    assert items == Combined(seen, more.items);
    var values := Values(items);
    merged := Flow(values, Dedup(GapsOf(acc) + more.gaps), Summarize(values));
  }

  lemma IndexStep(d: Dict<string, Item>, items: seq<Item>, i: nat, merge: (Item, Item) -> Item)
    requires i < |items|
    ensures var before := MergeAll(d, Named(items[..i]), merge);
            MergeAll(d, Named(items[..i + 1]), merge)
            == if items[i].name == "" then before else OrderedDict.Merge(before, items[i].name, items[i], merge)
  {
    assert items[..i + 1] == items[..i] + [items[i]];
    NamedSnoc(items[..i], items[i]);
    if items[i].name != "" {
      MergeAllSnoc(d, Named(items[..i]), items[i].name, items[i], merge);
    }
  }

  // ----- well-formed flows

  ghost predicate UniqueNames(items: seq<Item>) {
    && (forall i :: 0 <= i < |items| ==> items[i].name != "")
    && (forall i, j :: 0 <= i < j < |items| ==> items[i].name != items[j].name)
  }

  ghost predicate DupFree(it: Item) {
    NoDuplicates(it.collect) && NoDuplicates(it.store) && NoDuplicates(it.use) && NoDuplicates(it.dispose)
  }

  ghost predicate WellFormed(f: Flow) {
    && UniqueNames(ItemsOf(f))
    && (forall i :: 0 <= i < |ItemsOf(f)| ==> DupFree(ItemsOf(f)[i]))
    && NoDuplicates(GapsOf(f))
  }

  /** Equal but for the summary, which every merge computes afresh. */
  predicate SameFlow(f: Flow, g: Flow) {
    ItemsOf(f) == ItemsOf(g) && GapsOf(f) == GapsOf(g)
  }

  lemma MergeItemAssociative(a: Item, b: Item, c: Item)
    ensures MergeItem(MergeItem(a, b), c) == MergeItem(a, MergeItem(b, c))
  {
    DedupAssociative(a.collect, b.collect, c.collect);
    DedupAssociative(a.store, b.store, c.store);
    DedupAssociative(a.use, b.use, c.use);
    DedupAssociative(a.dispose, b.dispose, c.dispose);
  }

  lemma DedupTwice(xs: seq<string>)
    requires NoDuplicates(xs)
    ensures Dedup(xs + xs) == xs
  {
    DedupAbsorbs(xs, xs);
  }

  lemma {:induction false} DedupAbsorbs(xs: seq<string>, ys: seq<string>)
    requires NoDuplicates(xs) && forall y :: y in ys ==> y in xs
    ensures Dedup(xs + ys) == xs
  {
    if ys == [] {
      assert xs + ys == xs;
      DedupFixed(xs);
    } else {
      assert (xs + ys)[..|xs + ys| - 1] == xs + ys[..|ys| - 1];
      DedupAbsorbs(xs, ys[..|ys| - 1]);
    }
  }

  lemma MergeItemIdempotent(it: Item)
    requires DupFree(it)
    ensures MergeItem(it, it) == it
  {
    DedupTwice(it.collect);
    DedupTwice(it.store);
    DedupTwice(it.use);
    DedupTwice(it.dispose);
  }

  // ----- a dict of named items and its list of values are two views of the same thing

  ghost predicate SelfNamed(d: Dict<string, Item>) {
    forall k :: k in d.items ==> k != "" && d.items[k].name == k
  }

  lemma {:induction false} NamedUnique(items: seq<Item>)
    requires forall i :: 0 <= i < |items| ==> items[i].name != ""
    ensures |Named(items)| == |items|
    ensures forall i :: 0 <= i < |items| ==> Named(items)[i] == (items[i].name, items[i])
  {
    if items != [] {
      var front, last := items[..|items| - 1], items[|items| - 1];
      assert forall i :: 0 <= i < |front| ==> front[i] == items[i];
      NamedUnique(front);
    }
  }

  lemma ValuesNamed(d: Dict<string, Item>)
    requires Valid(d) && SelfNamed(d)
    ensures UniqueNames(Values(d)) && Named(Values(d)) == Pairs(d)
  {
    var vs := Values(d);
    forall i | 0 <= i < |vs|
      ensures vs[i].name == d.keys[i] != ""
    {
      assert d.keys[i] in d.items;
    }
    NamedUnique(vs);
  }

  lemma {:induction false} MergeAllSelfNamed(d: Dict<string, Item>, items: seq<Item>, merge: (Item, Item) -> Item)
    requires SelfNamed(d) && forall a: Item, b: Item :: a.name == b.name ==> merge(a, b).name == a.name
    ensures SelfNamed(MergeAll(d, Named(items), merge))
  {
    if items != [] {
      MergeAllSelfNamed(d, items[..|items| - 1], merge);
      IndexStep(d, items, |items| - 1, merge);
      assert items[..|items|] == items;
    }
  }

  lemma CombinedSelfNamed(acc: seq<Item>, more: seq<Item>)
    ensures SelfNamed(Index(acc)) && SelfNamed(Combined(acc, more))
  {
    MergeAllSelfNamed(Empty(), acc, Later);
    MergeAllSelfNamed(Index(acc), more, MergeItem);
  }

  /** Items with unique names, read in by any merge, are the values of the dict. */
  lemma ReadItems(items: seq<Item>, merge: (Item, Item) -> Item)
    requires UniqueNames(items)
    ensures var d := MergeAll(Empty(), Named(items), merge);
            Valid(d) && Pairs(d) == Named(items) && Values(d) == items
  {
    NamedUnique(items);
    ReadBack(Named(items), merge);
    var d := MergeAll(Empty(), Named(items), merge);
    assert |d.keys| == |Pairs(d)|;
    forall i | 0 <= i < |items|
      ensures Values(d)[i] == items[i]
    {
      assert Pairs(d)[i] == (items[i].name, items[i]);
    }
  }

  /** What a merge returns is read back as it was. */
  lemma ReadCombined(acc: seq<Item>, more: seq<Item>)
    ensures UniqueNames(Values(Combined(acc, more))) && Index(Values(Combined(acc, more))) == Combined(acc, more)
  {
    var d := Combined(acc, more);
    CombinedSelfNamed(acc, more);
    ValuesNamed(d);
    ReadItems(Values(d), Later);
    PairsDetermine(Index(Values(d)), d);
  }

  // ----- the laws

  /** Unit: merging with the empty flow, on either side, changes nothing but the summary. */
  lemma EmptyFlowIsUnit(f: Flow)
    requires WellFormed(f)
    ensures Merge(f, NoFlow) == f && SameFlow(Merge(NoFlow, f), f)
  {
    if f.Flow? {
      ReadItems(f.items, MergeItem);
      assert [] + f.gaps == f.gaps;
      DedupFixed(f.gaps);
    }
  }

  /** Idempotence: merging a flow with itself changes nothing but the summary. */
  lemma MergeIdempotent(f: Flow)
    requires WellFormed(f)
    ensures SameFlow(Merge(f, f), f)
  {
    if f.Flow? {
      var d := Index(f.items);
      ReadItems(f.items, Later);
      NamedUnique(f.items);
      forall i | 0 <= i < |f.items|
        ensures Holds(d, f.items[i])
      {
        assert Pairs(d)[i] == Named(f.items)[i];
      }
      AbsorbKnown(d, f.items);
      DedupTwice(f.gaps);
    }
  }

  lemma AbsorbOne(d: Dict<string, Item>, it: Item)
    requires it.name in d.items && d.items[it.name] == it && DupFree(it)
    ensures OrderedDict.Merge(d, it.name, it, MergeItem) == d
  {
    MergeItemIdempotent(it);
    assert d.items[it.name := it] == d.items;
  }

  ghost predicate Holds(d: Dict<string, Item>, it: Item) {
    it.name in d.items && d.items[it.name] == it && DupFree(it)
  }

  lemma {:induction false} AbsorbKnown(d: Dict<string, Item>, items: seq<Item>)
    requires forall i :: 0 <= i < |items| ==> Holds(d, items[i])
    ensures MergeAll(d, Named(items), MergeItem) == d
  {
    if items != [] {
      var front, last := items[..|items| - 1], items[|items| - 1];
      AbsorbKnown(d, front);
      StepNamed(d, front, last, MergeItem);
      assert items == front + [last];
      AbsorbOne(d, last);
    }
  }

  /** One more item is merged under its name, or skipped when it has none. */
  lemma StepNamed(d: Dict<string, Item>, items: seq<Item>, last: Item, merge: (Item, Item) -> Item)
    ensures var before := MergeAll(d, Named(items), merge);
            MergeAll(d, Named(items + [last]), merge)
            == if last.name == "" then before else OrderedDict.Merge(before, last.name, last, merge)
  {
    NamedSnoc(items, last);
    MergeAllSnoc(d, Named(items), last.name, last, merge);
  }

  lemma MergeItemIsAssociative()
    ensures Associative(MergeItem)
  {
    forall a, b, c
      ensures AssociativeAt(MergeItem, a, b, c)
    {
      MergeItemAssociative(a, b, c);
    }
  }

  /** What the reports of a name come to when they are merged one after the other. */
  function FoldOf(items: seq<Item>, name: string): Option<Item> {
    if items == [] then None
    else
      var last, earlier := items[|items| - 1], FoldOf(items[..|items| - 1], name);
      if last.name != name then earlier
      else if earlier.None? then Some(last)
      else Some(MergeItem(earlier.value, last))
  }

  /** The last report of a name. */
  function LastOf(items: seq<Item>, name: string): (last: Option<Item>)
    ensures last.None? ==> forall i :: 0 <= i < |items| ==> items[i].name != name
    ensures last.Some? ==> exists i :: 0 <= i < |items| && items[i] == last.value && items[i].name == name
                                       && forall j :: i < j < |items| ==> items[j].name != name
  {
    if items == [] then None
    else
      var n := |items| - 1;
      var earlier := LastOf(items[..n], name);
      if items[n].name == name then Some(items[n]) else earlier
  }

  /** For each name, merging its reports gives nothing that its last report does not hold. */
  ghost predicate LastReportSuffices(f: Flow) {
    forall name :: name != "" ==> FoldOf(ItemsOf(f), name) == LastOf(ItemsOf(f), name)
  }

  lemma FoldSnoc(items: seq<Item>, last: Item, name: string)
    ensures FoldOf(items + [last], name)
            == if last.name != name then FoldOf(items, name)
               else if FoldOf(items, name).None? then Some(last)
               else Some(MergeItem(FoldOf(items, name).value, last))
    ensures LastOf(items + [last], name) == if last.name != name then LastOf(items, name) else Some(last)
  {
    assert (items + [last])[..|items|] == items;
  }

  /** The dict of the merge loop holds the fold under each name. */
  lemma {:induction false} CombinedIsFold(items: seq<Item>, name: string)
    requires name != ""
    ensures Get(Combined([], items), name) == FoldOf(items, name)
  {
    if items != [] {
      var front, last := items[..|items| - 1], items[|items| - 1];
      CombinedIsFold(front, name);
      FoldSnoc(front, last, name);
      StepNamed(Empty(), front, last, MergeItem);
      assert items == front + [last];
    }
  }

  /** The dict of the comprehension holds the last report under each name. */
  lemma {:induction false} IndexIsLast(items: seq<Item>, name: string)
    requires name != ""
    ensures Get(Index(items), name) == LastOf(items, name)
  {
    if items != [] {
      var front, last := items[..|items| - 1], items[|items| - 1];
      IndexIsLast(front, name);
      FoldSnoc(front, last, name);
      StepNamed(Empty(), front, last, Later);
      assert items == front + [last];
    }
  }

  lemma {:induction false} SameKeys(items: seq<Item>)
    ensures Combined([], items).keys == Index(items).keys
    ensures Combined([], items).items.Keys == Index(items).items.Keys
  {
    if items != [] {
      var front, last := items[..|items| - 1], items[|items| - 1];
      SameKeys(front);
      StepNamed(Empty(), front, last, MergeItem);
      StepNamed(Empty(), front, last, Later);
      assert items == front + [last];
    }
  }

  lemma SufficesIffSameDict(f: Flow)
    ensures LastReportSuffices(f) <==> Combined([], ItemsOf(f)) == Index(ItemsOf(f))
  {
    var items := ItemsOf(f);
    forall name | name != ""
      ensures Get(Combined([], items), name) == FoldOf(items, name)
      ensures Get(Index(items), name) == LastOf(items, name)
    {
      CombinedIsFold(items, name);
      IndexIsLast(items, name);
    }
    if LastReportSuffices(f) {
      SameKeys(items);
      CombinedSelfNamed([], items);
      CombinedSelfNamed(items, []);
      forall name | name in Index(items).items
        ensures Combined([], items).items[name] == Index(items).items[name]
      {
        assert Get(Combined([], items), name) == Get(Index(items), name);
      }
      assert Combined([], items).items == Index(items).items;
    }
  }

  lemma UniqueNamesSuffice(f: Flow)
    requires UniqueNames(ItemsOf(f))
    ensures LastReportSuffices(f)
  {
    ReadItems(ItemsOf(f), Later);
    ReadItems(ItemsOf(f), MergeItem);
    PairsDetermine(Combined([], ItemsOf(f)), Index(ItemsOf(f)));
    SufficesIffSameDict(f);
  }

  /** Reading `b` into `a` directly, or through its own index. */
  lemma ReadThrough(a: seq<Item>, b: seq<Item>)
    requires Combined([], b) == Index(b)
    ensures MergeAll(Index(a), Pairs(Index(b)), MergeItem) == Combined(a, b)
  {
    MergeItemIsAssociative();
    MergeThrough(Index(a), Empty(), Named(b), MergeItem);
    assert Pairs(Empty<string, Item>()) == [];
  }

  lemma ItemsAssociative(a: seq<Item>, b: seq<Item>, c: seq<Item>)
    requires Combined([], b) == Index(b)
    ensures Combined(a, Values(Combined(b, c))) == MergeAll(Combined(a, b), Named(c), MergeItem)
  {
    MergeItemIsAssociative();
    ReadThrough(a, b);
    MergeThrough(Index(a), Index(b), Named(c), MergeItem);
    CombinedSelfNamed(b, c);
    ValuesNamed(Combined(b, c));
  }

  /** Associativity, summary included. */
  lemma MergeAssociative(a: Flow, b: Flow, c: Flow)
    requires LastReportSuffices(b)
    ensures Merge(Merge(a, b), c) == Merge(a, Merge(b, c))
  {
    if c.Flow? {
      SufficesIffSameDict(b);
      ItemsAssociative(ItemsOf(a), ItemsOf(b), c.items);
      GapsAssociative(a, b, c);
      if b.Flow? {
        ReadCombined(ItemsOf(a), b.items);
      }
    }
  }

  lemma ItemsOfMerge(acc: Flow, more: Flow)
    requires more.Flow?
    ensures ItemsOf(Merge(acc, more)) == Values(Combined(ItemsOf(acc), more.items))
  {
  }

  lemma AssociativeOnlyIf(b: Flow, s: Summary)
    requires Merge(Merge(NoFlow, b), Flow([], [], s)) == Merge(NoFlow, Merge(b, Flow([], [], s)))
    ensures LastReportSuffices(b)
  {
    SufficesIffSameDict(b);
    if b.Flow? {
      var merged, indexed := Combined([], b.items), Index(b.items);
      ReadCombined([], b.items);
      ItemsOfMerge(NoFlow, b);
      ItemsOfMerge(Merge(NoFlow, b), Flow([], [], s));
      assert ItemsOf(Merge(Merge(NoFlow, b), Flow([], [], s))) == Values(merged);
      CombinedSelfNamed(b.items, []);
      ValuesNamed(indexed);
      ItemsOfMerge(b, Flow([], [], s));
      ItemsOfMerge(NoFlow, Merge(b, Flow([], [], s)));
      ReadItems(Values(indexed), MergeItem);
      CombinedSelfNamed([], b.items);
      ValuesNamed(merged);
      PairsDetermine(merged, indexed);
    }
  }

  /** The merge is associative around `b` exactly when, for each name, the last of the reports
      in `b` is what merging those reports one after the other gives. */
  lemma MergeAssociativeIff(b: Flow)
    ensures (forall a: Flow, c: Flow :: Merge(Merge(a, b), c) == Merge(a, Merge(b, c))) <==> LastReportSuffices(b)
  {
    if LastReportSuffices(b) {
      forall a: Flow, c: Flow
        ensures Merge(Merge(a, b), c) == Merge(a, Merge(b, c))
      {
        MergeAssociative(a, b, c);
      }
    } else {
      var empty := Flow([], [], Summary(0, 0, UNCONFIRMED));
      if Merge(Merge(NoFlow, b), empty) == Merge(NoFlow, Merge(b, empty)) {
        AssociativeOnlyIf(b, empty.summary);
      }
    }
  }

  lemma GapsAssociative(a: Flow, b: Flow, c: Flow)
    requires c.Flow?
    ensures GapsOf(Merge(Merge(a, b), c)) == GapsOf(Merge(a, Merge(b, c)))
  {
    if b.Flow? {
      DedupAssociative(GapsOf(a), b.gaps, c.gaps);
    } else {
      DedupRight(GapsOf(a), c.gaps);
      assert [] + c.gaps == c.gaps;
    }
  }

  lemma {:induction false} NeverReported(items: seq<Item>, name: string)
    requires forall k :: 0 <= k < |items| ==> items[k].name != name
    ensures FoldOf(items, name) == None && LastOf(items, name) == None
  {
    if items != [] {
      NeverReported(items[..|items| - 1], name);
    }
  }

  lemma {:induction false} ReportedOnce(items: seq<Item>, i: nat)
    requires i < |items| && forall k :: 0 <= k < |items| && k != i ==> items[k].name != items[i].name
    ensures FoldOf(items, items[i].name) == Some(items[i]) == LastOf(items, items[i].name)
  {
    var front := items[..|items| - 1];
    if i < |front| {
      ReportedOnce(front, i);
    } else {
      NeverReported(front, items[i].name);
    }
  }

  lemma {:induction false} ReportedTwice(items: seq<Item>, i: nat, j: nat)
    requires i < j < |items| && items[i].name == items[j].name
    requires forall k :: 0 <= k < |items| && k != i && k != j ==> items[k].name != items[i].name
    ensures FoldOf(items, items[i].name) == Some(MergeItem(items[i], items[j]))
    ensures LastOf(items, items[i].name) == Some(items[j])
  {
    var front := items[..|items| - 1];
    if j < |front| {
      ReportedTwice(front, i, j);
    } else {
      ReportedOnce(front, i);
    }
  }

  /** In any flow, a name reported exactly twice meets the condition exactly when the second
      report covers the first. */
  lemma RepeatedNameSufficesIff(items: seq<Item>, i: nat, j: nat)
    requires i < j < |items| && items[i].name == items[j].name
    requires forall k :: 0 <= k < |items| && k != i && k != j ==> items[k].name != items[i].name
    ensures FoldOf(items, items[i].name) == LastOf(items, items[i].name)
            <==> MergeItem(items[i], items[j]) == items[j]
  {
    ReportedTwice(items, i, j);
  }

  // ----- nothing is lost over a whole scan

  /** Every list entry of `it` is in `kept`. */
  predicate Keeps(kept: Item, it: Item) {
    && kept.name == it.name
    && (forall x :: x in it.collect ==> x in kept.collect) && (forall x :: x in it.store ==> x in kept.store)
    && (forall x :: x in it.use ==> x in kept.use) && (forall x :: x in it.dispose ==> x in kept.dispose)
  }

  lemma MergeItemKeeps(cur: Item, it: Item)
    requires cur.name == it.name
    ensures Keeps(MergeItem(cur, it), cur) && Keeps(MergeItem(cur, it), it)
  {
    DedupMeaning(cur.collect + it.collect);
    DedupMeaning(cur.store + it.store);
    DedupMeaning(cur.use + it.use);
    DedupMeaning(cur.dispose + it.dispose);
  }

  ghost predicate KeepsAll(r: Dict<string, Item>, d: Dict<string, Item>) {
    forall k :: k in d.items ==> k in r.items && Keeps(r.items[k], d.items[k])
  }

  predicate KeepsItem(r: Dict<string, Item>, it: Item) {
    it.name != "" ==> it.name in r.items && Keeps(r.items[it.name], it)
  }

  lemma MergeKeeps(d: Dict<string, Item>, last: Item)
    requires SelfNamed(d) && last.name != ""
    ensures var r := OrderedDict.Merge(d, last.name, last, MergeItem);
            SelfNamed(r) && KeepsAll(r, d) && KeepsItem(r, last)
  {
    if last.name in d.items {
      MergeItemKeeps(d.items[last.name], last);
    }
  }

  lemma KeepsItemOn(r: Dict<string, Item>, m: Dict<string, Item>, it: Item)
    requires KeepsAll(r, m) && KeepsItem(m, it)
    ensures KeepsItem(r, it)
  {
  }

  lemma KeepsAllOn(r: Dict<string, Item>, m: Dict<string, Item>, d: Dict<string, Item>)
    requires KeepsAll(r, m) && KeepsAll(m, d) && SelfNamed(d)
    ensures KeepsAll(r, d)
  {
    forall k | k in d.items
      ensures k in r.items && Keeps(r.items[k], d.items[k])
    {
      KeepsItemOn(r, m, d.items[k]);
    }
  }

  ghost predicate KeepsItems(r: Dict<string, Item>, items: seq<Item>) {
    forall i :: 0 <= i < |items| ==> KeepsItem(r, items[i])
  }

  lemma {:induction false} MergeAllKeeps(d: Dict<string, Item>, items: seq<Item>)
    requires SelfNamed(d)
    ensures var r := MergeAll(d, Named(items), MergeItem);
            SelfNamed(r) && KeepsAll(r, d) && KeepsItems(r, items)
  {
    if items != [] {
      var front, last := items[..|items| - 1], items[|items| - 1];
      MergeAllKeeps(d, front);
      IndexStep(d, items, |items| - 1, MergeItem);
      assert items[..|items|] == items;
      var m, r := MergeAll(d, Named(front), MergeItem), MergeAll(d, Named(items), MergeItem);
      if last.name != "" {
        MergeKeeps(m, last);
        KeepsAllOn(r, m, d);
      }
      forall i | 0 <= i < |items|
        ensures KeepsItem(r, items[i])
      {
        if i < |front| {
          assert KeepsItem(m, front[i]);
          if last.name != "" {
            KeepsItemOn(r, m, items[i]);
          }
        }
      }
    }
  }

  ghost predicate HasEvidence(items: seq<Item>, it: Item) {
    exists i :: 0 <= i < |items| && Keeps(items[i], it)
  }

  /** One merge keeps every entry of the accumulated items and of the new ones. */
  lemma MergeKeepsEvidence(acc: Flow, more: Flow, it: Item)
    requires UniqueNames(ItemsOf(acc)) && it.name != ""
    requires it in ItemsOf(more) || HasEvidence(ItemsOf(acc), it)
    ensures UniqueNames(ItemsOf(Merge(acc, more))) && HasEvidence(ItemsOf(Merge(acc, more)), it)
  {
    if more.Flow? {
      var d, r := Index(ItemsOf(acc)), Combined(ItemsOf(acc), more.items);
      CombinedSelfNamed(ItemsOf(acc), more.items);
      ReadCombined(ItemsOf(acc), more.items);
      MergeAllKeeps(d, more.items);
      ReadItems(ItemsOf(acc), Later);
      NamedUnique(ItemsOf(acc));
      if it in more.items {
        assert KeepsItem(r, it);
      } else {
        var i :| 0 <= i < |ItemsOf(acc)| && Keeps(ItemsOf(acc)[i], it);
        assert Pairs(d)[i] == Named(ItemsOf(acc))[i];
      }
      assert it.name in r.keys;
      var p :| 0 <= p < |r.keys| && r.keys[p] == it.name;
      assert Keeps(Values(r)[p], it);
    }
  }

  /** The accumulated flow of a scan: the batch results merged one after the other. */
  function Accumulate(results: seq<Flow>): Flow {
    if results == [] then NoFlow else Merge(Accumulate(results[..|results| - 1]), results[|results| - 1])
  }

  /** Whatever the batches report, duplicates included, every list entry of every named item
      is in the final item of that name, item names are unique, and the summary counts them. */
  lemma {:induction false} ScanLosesNothing(results: seq<Flow>)
    ensures UniqueNames(ItemsOf(Accumulate(results)))
    ensures forall r, it :: r in results && it in ItemsOf(r) && it.name != "" ==>
              HasEvidence(ItemsOf(Accumulate(results)), it)
    ensures Accumulate(results).Flow? ==> Accumulate(results).summary == Summarize(Accumulate(results).items)
  {
    if results != [] {
      var front, last := results[..|results| - 1], results[|results| - 1];
      ScanLosesNothing(front);
      if last.Flow? {
        ReadCombined(ItemsOf(Accumulate(front)), last.items);
      }
      forall r, it | r in results && it in ItemsOf(r) && it.name != ""
        ensures HasEvidence(ItemsOf(Accumulate(results)), it)
      {
        assert r in front || r == last;
        MergeKeepsEvidence(Accumulate(front), last, it);
      }
    }
  }

  // ----- and nothing is invented

  /** The named items of all batches, in batch order. */
  function Reports(results: seq<Flow>): seq<Item> {
    if results == [] then [] else Reports(results[..|results| - 1]) + ItemsOf(results[|results| - 1])
  }

  /** The final items are those of one long merge loop over all reports. */
  lemma {:induction false} ScanIsOneFold(results: seq<Flow>)
    ensures ItemsOf(Accumulate(results)) == Values(Combined([], Reports(results)))
    ensures Index(ItemsOf(Accumulate(results))) == Combined([], Reports(results))
  {
    if results == [] {
      assert Combined([], []) == Empty<string, Item>();
    } else {
      var front, last := results[..|results| - 1], results[|results| - 1];
      ScanIsOneFold(front);
      var acc, reports := ItemsOf(Accumulate(front)), Reports(front);
      if last.Flow? {
        NamedJoin(reports, last.items);
        MergeAllAppend(Empty(), Named(reports), Named(last.items), MergeItem);
        assert Combined(acc, last.items) == Combined([], Reports(results));
        ReadCombined(acc, last.items);
      } else {
        assert Reports(results) == reports;
      }
    }
  }

  lemma {:induction false} NamedJoin(a: seq<Item>, b: seq<Item>)
    ensures Named(a + b) == Named(a) + Named(b)
  {
    if b == [] {
      assert a + b == a;
    } else {
      var front, last := b[..|b| - 1], b[|b| - 1];
      NamedJoin(a, front);
      assert a + b == (a + front) + [last] && b == front + [last];
      NamedSnoc(a + front, last);
      NamedSnoc(front, last);
    }
  }

  /** What the reports of a name say in one of their lists, in order and with repetitions. */
  function Told(items: seq<Item>, name: string, list: Item -> seq<string>): seq<string> {
    if items == [] then []
    else
      var last := items[|items| - 1];
      Told(items[..|items| - 1], name, list) + if last.name == name then list(last) else []
  }

  /** What the first report with something to say in a scalar says there. */
  function FirstTold(items: seq<Item>, name: string, scalar: Item -> string): string {
    if items == [] then ""
    else
      var last, earlier := items[|items| - 1], FirstTold(items[..|items| - 1], name, scalar);
      if last.name == name then FirstNonEmpty(earlier, scalar(last)) else earlier
  }

  /** A list field, which a merge deduplicates after joining. */
  ghost predicate IsList(list: Item -> seq<string>) {
    forall a: Item, b: Item :: list(MergeItem(a, b)) == Dedup(list(a) + list(b))
  }

  /** A scalar field, of which a merge keeps the first that is not empty. */
  ghost predicate IsScalar(scalar: Item -> string) {
    forall a: Item, b: Item :: scalar(MergeItem(a, b)) == FirstNonEmpty(scalar(a), scalar(b))
  }

  lemma DedupJoin(kept: seq<string>, told: seq<string>, more: seq<string>)
    requires Dedup(kept) == Dedup(told)
    ensures Dedup(Dedup(kept + more)) == Dedup(told + more)
  {
    DedupMeaning(kept + more);
    DedupFixed(Dedup(kept + more));
    DedupLeft(kept, more);
    DedupLeft(told, more);
  }

  lemma {:induction false} FoldLists(items: seq<Item>, name: string, list: Item -> seq<string>)
    requires IsList(list)
    ensures FoldOf(items, name).None? ==> Told(items, name, list) == []
    ensures FoldOf(items, name).Some? ==> Dedup(list(FoldOf(items, name).value)) == Dedup(Told(items, name, list))
  {
    if items != [] {
      var front, last := items[..|items| - 1], items[|items| - 1];
      FoldLists(front, name, list);
      if last.name == name {
        var earlier := FoldOf(front, name);
        if earlier.Some? {
          DedupJoin(list(earlier.value), Told(front, name, list), list(last));
        } else {
          assert [] + list(last) == list(last);
        }
      } else {
        assert Told(front, name, list) + [] == Told(front, name, list);
      }
    }
  }

  lemma {:induction false} FoldScalars(items: seq<Item>, name: string, scalar: Item -> string)
    requires IsScalar(scalar)
    ensures FoldOf(items, name).None? ==> FirstTold(items, name, scalar) == ""
    ensures FoldOf(items, name).Some? ==> scalar(FoldOf(items, name).value) == FirstTold(items, name, scalar)
  {
    if items != [] {
      FoldScalars(items[..|items| - 1], name, scalar);
    }
  }

  lemma ListsAndScalars()
    ensures IsList((it: Item) => it.collect) && IsList((it: Item) => it.store)
    ensures IsList((it: Item) => it.use) && IsList((it: Item) => it.dispose)
    ensures IsScalar((it: Item) => it.encryption) && IsScalar((it: Item) => it.table)
    ensures IsScalar((it: Item) => it.category)
    ensures IsScalar((it: Item) => it.thirdParty) && IsScalar((it: Item) => it.overseas)
  {
  }

  /** Over a whole scan: a name has a final item exactly when some batch reports it; each list of
      that item is, up to repetitions, what the reports of the name say in order, and each scalar
      what the first of them to say something says. `list` and `scalar` stand for any list or
      scalar field (ListsAndScalars). */
  lemma ScanTellsExactly(results: seq<Flow>, name: string, list: Item -> seq<string>, scalar: Item -> string)
    requires name != "" && IsList(list) && IsScalar(scalar)
    ensures var reports, final := Reports(results), LastOf(ItemsOf(Accumulate(results)), name);
            && (final.Some? <==> exists i :: 0 <= i < |reports| && reports[i].name == name)
            && (final.Some? ==>
                  && Dedup(list(final.value)) == Dedup(Told(reports, name, list))
                  && scalar(final.value) == FirstTold(reports, name, scalar))
  {
    var reports := Reports(results);
    ScanIsOneFold(results);
    IndexIsLast(ItemsOf(Accumulate(results)), name);
    CombinedIsFold(reports, name);
    FoldLists(reports, name, list);
    FoldScalars(reports, name, scalar);
    FoldReported(reports, name);
  }

  lemma {:induction false} FoldReported(items: seq<Item>, name: string)
    ensures FoldOf(items, name).Some? <==> exists i :: 0 <= i < |items| && items[i].name == name
  {
    if items != [] {
      var front := items[..|items| - 1];
      FoldReported(front, name);
      assert forall i :: 0 <= i < |front| ==> front[i] == items[i];
      if i :| 0 <= i < |items| && items[i].name == name {
        assert i < |front| ==> front[i].name == name;
      }
    }
  }

  // ----- gaps and summary of a whole scan

  /** The gaps that the batches report, in batch order and with repetitions. */
  function GapReports(results: seq<Flow>): seq<string> {
    if results == [] then []
    else
      var last := results[|results| - 1];
      GapReports(results[..|results| - 1]) + if last.Flow? then last.gaps else []
  }

  lemma {:induction false} ScanGaps(results: seq<Flow>)
    ensures GapsOf(Accumulate(results)) == Dedup(GapReports(results))
    ensures Accumulate(results).Flow? <==> exists i :: 0 <= i < |results| && results[i].Flow?
  {
    if results != [] {
      var front, last := results[..|results| - 1], results[|results| - 1];
      assert forall i :: 0 <= i < |front| ==> front[i] == results[i];
      ScanGaps(front);
      if last.Flow? {
        DedupLeft(GapReports(front), last.gaps);
      } else {
        assert GapReports(front) + [] == GapReports(front);
      }
    }
  }

  lemma {:induction false} GapReported(results: seq<Flow>, gap: string)
    ensures gap in GapReports(results)
            <==> exists i :: 0 <= i < |results| && results[i].Flow? && gap in results[i].gaps
  {
    if results != [] {
      var front := results[..|results| - 1];
      assert forall i :: 0 <= i < |front| ==> front[i] == results[i];
      GapReported(front, gap);
      if i :| 0 <= i < |results| && results[i].Flow? && gap in results[i].gaps {
        assert i < |front| ==> front[i].Flow?;
      }
    }
  }

  /** Over every scan a gap is in the final list exactly when some batch reports it, none is in it
      twice, and they stand in the order in which the batches, one after the other, first report them. */
  lemma ScanKeepsGaps(results: seq<Flow>)
    ensures var final := Accumulate(results);
            && (final.Flow? <==> exists i :: 0 <= i < |results| && results[i].Flow?)
            && (final.Flow? ==>
                  && NoDuplicates(final.gaps)
                  && (forall gap :: gap in final.gaps
                        <==> exists i :: 0 <= i < |results| && results[i].Flow? && gap in results[i].gaps)
                  && (forall i, j :: 0 <= i < j < |final.gaps| ==>
                        SeenBefore(GapReports(results), final.gaps[i], final.gaps[j])))
  {
    ScanGaps(results);
    DedupMeaning(GapReports(results));
    forall gap
      ensures gap in GapReports(results)
              <==> exists i :: 0 <= i < |results| && results[i].Flow? && gap in results[i].gaps
    {
      GapReported(results, gap);
    }
  }

  lemma {:induction false} FirstEncryptionMeaning(items: seq<Item>)
    ensures (forall i :: 0 <= i < |items| ==> items[i].encryption == "") ==> FirstEncryption(items) == "미확인"
    ensures forall i :: 0 <= i < |items| && items[i].encryption != ""
                        && (forall k :: 0 <= k < i ==> items[k].encryption == "")
              ==> FirstEncryption(items) == items[i].encryption
  {
    if items != [] {
      var rest := items[1..];
      assert forall k :: 0 <= k < |rest| ==> rest[k] == items[k + 1];
      FirstEncryptionMeaning(rest);
      forall i | 0 <= i < |items| && items[i].encryption != ""
                 && (forall k :: 0 <= k < i ==> items[k].encryption == "")
        ensures FirstEncryption(items) == items[i].encryption
      {
        if i > 0 {
          assert items[0].encryption == "" && rest[i - 1] == items[i];
        }
      }
    }
  }

  /** What the summary of a merge counts: the items, the different tables they name, and the first
      encryption any of them states. */
  lemma SummaryMeaning(acc: Flow, more: Flow)
    requires more.Flow?
    ensures var merged := Merge(acc, more);
            && merged.Flow? && merged.summary.items == |merged.items|
            && merged.summary.tables
               == |set i | 0 <= i < |merged.items| && merged.items[i].table != "" :: merged.items[i].table|
            && ((forall i :: 0 <= i < |merged.items| ==> merged.items[i].encryption == "") ==>
                  merged.summary.encryption == "미확인")
            && (forall i :: 0 <= i < |merged.items| && merged.items[i].encryption != ""
                            && (forall k :: 0 <= k < i ==> merged.items[k].encryption == "") ==>
                  merged.summary.encryption == merged.items[i].encryption)
  {
    FirstEncryptionMeaning(Merge(acc, more).items);
  }

  /** Over every scan the named items that are kept are those some batch reports. */
  lemma ScanKeepsNames(results: seq<Flow>, name: string)
    requires name != ""
    ensures var final := Accumulate(results);
            (final.Flow? && exists k :: 0 <= k < |final.items| && final.items[k].name == name)
            <==> exists i, k :: 0 <= i < |results| && results[i].Flow? && 0 <= k < |results[i].items|
                                && results[i].items[k].name == name
  {
    var final, reports := Accumulate(results), Reports(results);
    ScanGaps(results);
    ScanIsOneFold(results);
    IndexIsLast(ItemsOf(final), name);
    CombinedIsFold(reports, name);
    FoldReported(reports, name);
    FoldReported(ItemsOf(final), name);
    LastAndFold(ItemsOf(final), name);
    ReportedBy(results, name);
  }

  lemma {:induction false} LastAndFold(items: seq<Item>, name: string)
    ensures LastOf(items, name).Some? <==> FoldOf(items, name).Some?
  {
    if items != [] {
      LastAndFold(items[..|items| - 1], name);
    }
  }

  ghost predicate Names(f: Flow, name: string) {
    f.Flow? && exists k :: 0 <= k < |f.items| && f.items[k].name == name
  }

  lemma {:induction false} ReportedBy(results: seq<Flow>, name: string)
    ensures (exists k :: 0 <= k < |Reports(results)| && Reports(results)[k].name == name)
            <==> exists i :: 0 <= i < |results| && Names(results[i], name)
  {
    if results != [] {
      var front, last := results[..|results| - 1], results[|results| - 1];
      assert forall i :: 0 <= i < |front| ==> front[i] == results[i];
      ReportedBy(front, name);
      var all, before := Reports(results), Reports(front);
      assert all == before + ItemsOf(last);
      if k :| 0 <= k < |all| && all[k].name == name {
        if k < |before| {
          assert before[k].name == name;
          var i :| 0 <= i < |front| && Names(front[i], name);
          assert Names(results[i], name);
        } else {
          assert last.items[k - |before|].name == name;
          assert Names(results[|front|], name);
        }
      }
      if i :| 0 <= i < |results| && Names(results[i], name) {
        if i < |front| {
          assert Names(front[i], name);
          var k :| 0 <= k < |before| && before[k].name == name;
          assert all[k].name == name;
        } else {
          var k :| 0 <= k < |last.items| && last.items[k].name == name;
          assert all[|before| + k].name == name;
        }
      }
    }
  }
}
