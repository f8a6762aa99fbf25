/** Collecting the names a log line gives its host: `_extract_host_aliases`. */
module HostAliases {
  import opened Wrappers
  import opened Json
  import opened OrderedDedup

  const ALIAS_KEYS := [
    "hostIdentifier", "host_identifier", "host_id", "hostId", "hostname", "local_hostname",
    "computer_name", "uuid", "host_uuid", "hardware_uuid", "hardwareUuid"]

  const NESTED_KEYS := ["columns", "data", "decorations", "result", "results", "snapshot"]

  /** The containers visited once more after the payload itself. */
  const EXTRA_KEYS := ["decorations", "columns", "data", "result", "results", "snapshot"]

  /** The text of a non-empty string or of a number that is not a boolean. */
  function TextOf(candidate: Option<Json>): string {
    match candidate
    case Some(Str(chars)) => chars
    case Some(Num(_, text)) => text
    case _ => ""
  }

  // ----- what there is to collect, in the order it is met

  function KeyTexts(fields: seq<Field>, keys: seq<string>): seq<string> {
    if keys == [] then []
    else
      var text := TextOf(Get(fields, keys[|keys| - 1]));
      KeyTexts(fields, keys[..|keys| - 1]) + if text != "" then [text] else []
  }

  function ChildTexts(value: Json, keys: seq<string>): seq<string>
    requires value.Obj?
    decreases value, 0, |keys|
  {
    if keys == [] then []
    else
      var child := Get(value.fields, keys[|keys| - 1]);
      ChildTexts(value, keys[..|keys| - 1]) + if child.Some? then Preorder(child.value) else []
  }

  function ItemTexts(value: Json, n: nat): seq<string>
    requires value.Arr? && n <= |value.items|
    decreases value, 0, n
  {
    if n == 0 then [] else ItemTexts(value, n - 1) + Preorder(value.items[n - 1])
  }

  /** Every alias text with its repetitions: an object's own before its containers', items in order. */
  function Preorder(value: Json): seq<string>
    decreases value, 1
  {
    match value
    case Obj(fields) => KeyTexts(fields, ALIAS_KEYS) + ChildTexts(value, NESTED_KEYS)
    case Arr(items) => ItemTexts(value, |items|)
    case _ => []
  }

  function AppendAll(names: seq<string>, more: seq<string>): seq<string> {
    if more == [] then names
    else AppendNew(AppendAll(names, more[..|more| - 1]), more[|more| - 1])
  }

  lemma {:induction false} AppendAllJoin(names: seq<string>, more: seq<string>, rest: seq<string>)
    ensures AppendAll(AppendAll(names, more), rest) == AppendAll(names, more + rest)
  {
    if rest == [] {
      assert more + rest == more;
    } else {
      AppendAllJoin(names, more, rest[..|rest| - 1]);
      assert (more + rest)[..|more + rest| - 1] == more + rest[..|rest| - 1];
    }
  }

  lemma {:induction false} AppendAllIsDedup(more: seq<string>)
    ensures AppendAll([], more) == Dedup(more)
  {
    if more != [] {
      AppendAllIsDedup(more[..|more| - 1]);
    }
  }

  lemma {:induction false} NothingNew(names: seq<string>, more: seq<string>)
    requires forall text :: text in more ==> text in names
    ensures AppendAll(names, more) == names
  {
    if more != [] {
      NothingNew(names, more[..|more| - 1]);
    }
  }

  lemma AppendOneMore(names: seq<string>, before: seq<string>, text: string)
    ensures AppendAll(names, before + [text]) == AppendNew(AppendAll(names, before), text)
    ensures before + [] == before
  {
    assert (before + [text])[..|before|] == before;
  }

  // ----- the collector

  class AliasList {
    var names: seq<string>

    constructor ()
      ensures names == []
    {
      names := [];
    }

    method Append(candidate: Option<Json>)
      modifies this
      ensures names == if TextOf(candidate) == "" then old(names) else AppendNew(old(names), TextOf(candidate))
    {
      var text := TextOf(candidate);
      if text != "" && text !in names {
        names := names + [text];
      }
    }

    method Collect(value: Json)
      modifies this
      ensures names == AppendAll(old(names), Preorder(value))
      decreases value, 1
    {
      if value.Obj? {
        CollectKeys(value.fields, ALIAS_KEYS);
        CollectChildren(value, NESTED_KEYS);
        AppendAllJoin(old(names), KeyTexts(value.fields, ALIAS_KEYS), ChildTexts(value, NESTED_KEYS));
        return;
      }
      if value.Arr? {
        CollectItems(value);
      }
    }

    method CollectKeys(fields: seq<Field>, keys: seq<string>)
      modifies this
      ensures names == AppendAll(old(names), KeyTexts(fields, keys))
    {
      for i := 0 to |keys|
        invariant names == AppendAll(old(names), KeyTexts(fields, keys[..i]))
      {
        Append(Get(fields, keys[i]));
        assert keys[..i + 1][..i] == keys[..i];
        AppendOneMore(old(names), KeyTexts(fields, keys[..i]), TextOf(Get(fields, keys[i])));
      }
      assert keys[..|keys|] == keys;
    }

    method CollectChildren(value: Json, keys: seq<string>)
      requires value.Obj?
      modifies this
      ensures names == AppendAll(old(names), ChildTexts(value, keys))
      decreases value, 0
    {
      for i := 0 to |keys|
        invariant names == AppendAll(old(names), ChildTexts(value, keys[..i]))
      {
        var child := Get(value.fields, keys[i]);
        assert keys[..i + 1][..i] == keys[..i];
        assert ChildTexts(value, keys[..i]) + [] == ChildTexts(value, keys[..i]);
        if child.Some? {
          Collect(child.value);
          AppendAllJoin(old(names), ChildTexts(value, keys[..i]), Preorder(child.value));
        }
      }
      assert keys[..|keys|] == keys;
    }

    method CollectItems(value: Json)
      requires value.Arr?
      modifies this
      ensures names == AppendAll(old(names), ItemTexts(value, |value.items|))
      decreases value, 0
    {
      for i := 0 to |value.items|
        invariant names == AppendAll(old(names), ItemTexts(value, i))
      {
        Collect(value.items[i]);
        AppendAllJoin(old(names), ItemTexts(value, i), Preorder(value.items[i]));
      }
    }
  }

  /** The six passes after the first add nothing. */
  method ExtractHostAliases(payload: Json) returns (aliases: seq<string>)
    requires payload.Obj?
    ensures aliases == Dedup(Preorder(payload))
  {
    var list := new AliasList();
    list.Collect(payload);
    AppendAllIsDedup(Preorder(payload));
    for i := 0 to |EXTRA_KEYS|
      invariant list.names == Dedup(Preorder(payload))
    {
      var container := Get(payload.fields, EXTRA_KEYS[i]);
      if container.Some? {
        list.Collect(container.value);
        ChildIncluded(payload, NESTED_KEYS, EXTRA_KEYS[i]);
        DedupMeaning(Preorder(payload));
        NothingNew(Dedup(Preorder(payload)), Preorder(container.value));
      }
    }
    return list.names;
  }

  lemma {:induction false} ChildIncluded(value: Json, keys: seq<string>, key: string)
    requires value.Obj? && key in keys && Get(value.fields, key).Some?
    ensures forall text :: text in Preorder(Get(value.fields, key).value) ==> text in ChildTexts(value, keys)
    decreases |keys|
  {
    if key != keys[|keys| - 1] {
      ChildIncluded(value, keys[..|keys| - 1], key);
    }
  }

  // ----- which names are found

  /** Following containers and list items leads to an object that has `text` under an alias key. */
  ghost predicate Names(value: Json, text: string)
    decreases value, 2
  {
    match value
    case Obj(fields) =>
      || (text != "" && SomeKeyNames(fields, ALIAS_KEYS, text))
      || SomeChildNames(value, NESTED_KEYS, text)
    case Arr(items) => SomeItemNames(value, |items|, text)
    case _ => false
  }

  ghost predicate SomeKeyNames(fields: seq<Field>, keys: seq<string>, text: string) {
    exists key :: key in keys && KeyNames(fields, key, text)
  }

  ghost predicate SomeChildNames(value: Json, keys: seq<string>, text: string)
    requires value.Obj?
    decreases value, 1
  {
    exists key :: key in keys && ChildNames(value, key, text)
  }

  ghost predicate SomeItemNames(value: Json, n: nat, text: string)
    requires value.Arr? && n <= |value.items|
    decreases value, 1
  {
    exists i :: 0 <= i < n && Names(value.items[i], text)
  }

  ghost predicate KeyNames(fields: seq<Field>, key: string, text: string) {
    TextOf(Get(fields, key)) == text
  }

  ghost predicate ChildNames(value: Json, key: string, text: string)
    requires value.Obj?
    decreases value, 0
  {
    var child := Get(value.fields, key);
    child.Some? && Names(child.value, text)
  }

  lemma KeysSplit(fields: seq<Field>, keys: seq<string>, text: string)
    requires keys != []
    ensures SomeKeyNames(fields, keys, text)
            <==> SomeKeyNames(fields, keys[..|keys| - 1], text) || KeyNames(fields, keys[|keys| - 1], text)
  {
    assert forall key :: key in keys <==> key in keys[..|keys| - 1] || key == keys[|keys| - 1];
  }

  lemma ChildrenSplit(value: Json, keys: seq<string>, text: string)
    requires value.Obj? && keys != []
    ensures SomeChildNames(value, keys, text)
            <==> SomeChildNames(value, keys[..|keys| - 1], text) || ChildNames(value, keys[|keys| - 1], text)
  {
    assert forall key :: key in keys <==> key in keys[..|keys| - 1] || key == keys[|keys| - 1];
  }

  lemma ItemsSplit(value: Json, n: nat, text: string)
    requires value.Arr? && 0 < n <= |value.items|
    ensures SomeItemNames(value, n, text) <==> SomeItemNames(value, n - 1, text) || Names(value.items[n - 1], text)
  {
  }

  lemma {:induction false} KeyTextsExact(fields: seq<Field>, keys: seq<string>, text: string)
    ensures text in KeyTexts(fields, keys) <==> text != "" && SomeKeyNames(fields, keys, text)
  {
    if keys != [] {
      KeyTextsExact(fields, keys[..|keys| - 1], text);
      KeysSplit(fields, keys, text);
    }
  }

  lemma {:induction false} ChildTextsExact(value: Json, keys: seq<string>, text: string)
    requires value.Obj?
    ensures text in ChildTexts(value, keys) <==> SomeChildNames(value, keys, text)
    decreases value, 0, |keys|
  {
    if keys != [] {
      ChildTextsExact(value, keys[..|keys| - 1], text);
      ChildrenSplit(value, keys, text);
      var child := Get(value.fields, keys[|keys| - 1]);
      if child.Some? {
        FoundExactly(child.value, text);
      }
    }
  }

  lemma {:induction false} ItemTextsExact(value: Json, n: nat, text: string)
    requires value.Arr? && n <= |value.items|
    ensures text in ItemTexts(value, n) <==> SomeItemNames(value, n, text)
    decreases value, 0, n
  {
    if n > 0 {
      ItemTextsExact(value, n - 1, text);
      ItemsSplit(value, n, text);
      FoundExactly(value.items[n - 1], text);
    }
  }

  lemma {:induction false} FoundExactly(value: Json, text: string)
    ensures text in Preorder(value) <==> Names(value, text)
    decreases value, 1
  {
    match value {
      case Obj(fields) =>
        KeyTextsExact(fields, ALIAS_KEYS, text);
        ChildTextsExact(value, NESTED_KEYS, text);
      case Arr(items) =>
        ItemTextsExact(value, |items|, text);
      case _ =>
    }
  }

  /** The extracted names are the reachable ones, none twice, in the order in which they are met. */
  lemma AliasesMeaning(payload: Json)
    ensures NoDuplicates(Dedup(Preorder(payload)))
    ensures forall text :: text in Dedup(Preorder(payload)) <==> Names(payload, text)
    ensures forall i, j :: 0 <= i < j < |Dedup(Preorder(payload))| ==>
              SeenBefore(Preorder(payload), Dedup(Preorder(payload))[i], Dedup(Preorder(payload))[j])
  {
    DedupMeaning(Preorder(payload));
    forall text
      ensures text in Dedup(Preorder(payload)) <==> Names(payload, text)
    {
      FoundExactly(payload, text);
    }
  }

  // ----- the traversal, by its laws

  /** The text under a key, if any. */
  function Text(fields: seq<Field>, key: string): seq<string> {
    match Get(fields, key)
    case Some(Str(chars)) => if chars != "" then [chars] else []
    case Some(Num(_, text)) => if text != "" then [text] else []
    case _ => []
  }

  /** What a container holds. */
  function Inside(fields: seq<Field>, key: string): seq<string> {
    if Get(fields, key).Some? then Preorder(Get(fields, key).value) else []
  }

  lemma {:induction false} KeyTextsJoin(fields: seq<Field>, a: seq<string>, b: seq<string>)
    ensures KeyTexts(fields, a + b) == KeyTexts(fields, a) + KeyTexts(fields, b)
  {
    if b == [] {
      assert a + b == a;
    } else {
      assert (a + b)[..|a + b| - 1] == a + b[..|b| - 1];
      KeyTextsJoin(fields, a, b[..|b| - 1]);
    }
  }

  lemma {:induction false} ChildTextsJoin(value: Json, a: seq<string>, b: seq<string>)
    requires value.Obj?
    ensures ChildTexts(value, a + b) == ChildTexts(value, a) + ChildTexts(value, b)
    decreases |b|
  {
    if b == [] {
      assert a + b == a;
    } else {
      assert (a + b)[..|a + b| - 1] == a + b[..|b| - 1];
      ChildTextsJoin(value, a, b[..|b| - 1]);
    }
  }

  lemma OneKey(fields: seq<Field>, key: string)
    ensures KeyTexts(fields, [key]) == Text(fields, key)
  {
    assert [key][..0] == [];
  }

  lemma OneContainer(value: Json, key: string)
    requires value.Obj?
    ensures ChildTexts(value, [key]) == Inside(value.fields, key)
  {
    assert [key][..0] == [];
  }

  /** The texts under the keys, one key after the other. */
  function Texts(fields: seq<Field>, keys: seq<string>): seq<string> {
    if keys == [] then [] else Text(fields, keys[0]) + Texts(fields, keys[1..])
  }

  lemma {:induction false} KeyTextsAreTexts(fields: seq<Field>, keys: seq<string>)
    ensures KeyTexts(fields, keys) == Texts(fields, keys)
  {
    if keys != [] {
      KeyTextsAreTexts(fields, keys[1..]);
      OneKey(fields, keys[0]);
      KeyTextsJoin(fields, [keys[0]], keys[1..]);
      assert keys == [keys[0]] + keys[1..];
    }
  }

  lemma ThreeContainers(value: Json, a: string, b: string, c: string)
    requires value.Obj?
    ensures ChildTexts(value, [a, b, c])
            == Inside(value.fields, a) + Inside(value.fields, b) + Inside(value.fields, c)
  {
    OneContainer(value, a);
    OneContainer(value, b);
    OneContainer(value, c);
    ChildTextsJoin(value, [a], [b]);
    ChildTextsJoin(value, [a, b], [c]);
    assert [a] + [b] == [a, b] && [a, b] + [c] == [a, b, c];
  }

  /** An object's own names come key by key in this order, strings and numbers alike. */
  lemma OwnNamesInOrder(fields: seq<Field>)
    ensures KeyTexts(fields, ALIAS_KEYS)
            == Texts(fields, ["hostIdentifier", "host_identifier", "host_id", "hostId", "hostname", "local_hostname",
                              "computer_name", "uuid", "host_uuid", "hardware_uuid", "hardwareUuid"])
  {
    KeyTextsAreTexts(fields, ALIAS_KEYS);
  }

  /** Its containers come after them in this order. */
  lemma ContainersInOrder(value: Json)
    requires value.Obj?
    ensures Preorder(value)
            == KeyTexts(value.fields, ALIAS_KEYS)
               + ((Inside(value.fields, "columns") + Inside(value.fields, "data")
                   + Inside(value.fields, "decorations"))
                  + (Inside(value.fields, "result") + Inside(value.fields, "results")
                     + Inside(value.fields, "snapshot")))
  {
    ThreeContainers(value, "columns", "data", "decorations");
    ThreeContainers(value, "result", "results", "snapshot");
    ChildTextsJoin(value, ["columns", "data", "decorations"], ["result", "results", "snapshot"]);
    assert ["columns", "data", "decorations"] + ["result", "results", "snapshot"] == NESTED_KEYS;
  }

  /** The items of a list come one after the other; anything else has no names. */
  lemma ItemsInOrder(items: seq<Json>, last: Json, other: Json)
    requires !other.Obj? && !other.Arr?
    ensures Preorder(Arr([])) == []
    ensures Preorder(Arr(items + [last])) == Preorder(Arr(items)) + Preorder(last)
    ensures Preorder(other) == []
  {
    SameItems(items, last, |items|);
  }

  lemma {:induction false} SameItems(items: seq<Json>, last: Json, n: nat)
    requires n <= |items|
    ensures ItemTexts(Arr(items + [last]), n) == ItemTexts(Arr(items), n)
    decreases n
  {
    if n > 0 {
      SameItems(items, last, n - 1);
    }
  }
}
