/** JSON values as Python holds them after parsing: dicts keep their fields in order. */
module Json {
  import opened Wrappers

  /** `text` of a number is Python's `str` of it; it takes no part in equality. */
  datatype Json =
    | Null
    | Bool(flag: bool)
    | Num(value: real, text: string)
    | Str(chars: string)
    | Arr(items: seq<Json>)
    | Obj(fields: seq<Field>)

  datatype Field = Field(key: string, value: Json)

  predicate HasKey(fields: seq<Field>, key: string) {
    exists i :: 0 <= i < |fields| && fields[i].key == key
  }

  /** `d.get(key)`; the keys of a parsed object are distinct. */
  function Get(fields: seq<Field>, key: string): (found: Option<Json>)
    ensures found.Some? <==> HasKey(fields, key)
    ensures found.Some? ==> exists i :: 0 <= i < |fields| && fields[i] == Field(key, found.value)
  {
    if fields == [] then None
    else if fields[0].key == key then Some(fields[0].value)
    else
      var found := Get(fields[1..], key);
      assert forall i :: 0 <= i < |fields[1..]| ==> fields[1..][i] == fields[i + 1];
      found
  }

  /** In every object, no key occurs twice. */
  predicate DistinctKeys(j: Json) {
    match j
    case Arr(items) => forall i :: 0 <= i < |items| ==> DistinctKeys(items[i])
    case Obj(fields) =>
      && (forall i, k :: 0 <= i < k < |fields| ==> fields[i].key != fields[k].key)
      && (forall i :: 0 <= i < |fields| ==> DistinctKeys(fields[i].value))
    case _ => true
  }

  function AsNumber(flag: bool): real {
    if flag then 1.0 else 0.0
  }

  /** Equality of values: of JSON, or (`lax`) of Python, where True == 1 and False == 0. */
  predicate Same(a: Json, b: Json, lax: bool) {
    match (a, b)
    case (Null, Null) => true
    case (Bool(x), Bool(y)) => x == y
    case (Num(x, _), Num(y, _)) => x == y
    case (Str(x), Str(y)) => x == y
    case (Bool(x), Num(y, _)) => lax && AsNumber(x) == y
    case (Num(x, _), Bool(y)) => lax && x == AsNumber(y)
    case (Arr(xs), Arr(ys)) => |xs| == |ys| && forall i :: 0 <= i < |xs| ==> Same(xs[i], ys[i], lax)
    case (Obj(xs), Obj(ys)) =>
      |xs| == |ys| && forall i :: 0 <= i < |xs| ==> SameField(xs[i], ys, lax)
    case _ => false
  }

  predicate SameField(x: Field, ys: seq<Field>, lax: bool) {
    exists k :: 0 <= k < |ys| && x.key == ys[k].key && Same(x.value, ys[k].value, lax)
  }

  /** Contains no value that Python confuses with another: no boolean, no 0 and no 1. */
  predicate Unambiguous(j: Json) {
    match j
    case Bool(_) => false
    case Num(x, _) => x != 0.0 && x != 1.0
    case Arr(items) => forall i :: 0 <= i < |items| ==> Unambiguous(items[i])
    case Obj(fields) => forall i :: 0 <= i < |fields| ==> Unambiguous(fields[i].value)
    case _ => true
  }

  lemma {:induction false} StrictIsLax(a: Json, b: Json)
    requires Same(a, b, false)
    ensures Same(a, b, true)
    decreases a
  {
    match (a, b) {
      case (Arr(xs), Arr(ys)) =>
        forall i | 0 <= i < |xs|
          ensures Same(xs[i], ys[i], true)
        {
          StrictIsLax(xs[i], ys[i]);
        }
      case (Obj(xs), Obj(ys)) =>
        forall i | 0 <= i < |xs|
          ensures SameField(xs[i], ys, true)
        {
          assert SameField(xs[i], ys, false);
          var k :| 0 <= k < |ys| && xs[i].key == ys[k].key && Same(xs[i].value, ys[k].value, false);
          StrictIsLax(xs[i].value, ys[k].value);
        }
      case _ =>
    }
  }

  lemma {:induction false} UnambiguousIsStrict(a: Json, b: Json)
    requires Unambiguous(b) && Same(a, b, true)
    ensures Same(a, b, false)
    decreases a
  {
    match (a, b) {
      case (Arr(xs), Arr(ys)) =>
        forall i | 0 <= i < |xs|
          ensures Same(xs[i], ys[i], false)
        {
          UnambiguousIsStrict(xs[i], ys[i]);
        }
      case (Obj(xs), Obj(ys)) =>
        forall i | 0 <= i < |xs|
          ensures SameField(xs[i], ys, false)
        {
          assert SameField(xs[i], ys, true);
          var k :| 0 <= k < |ys| && xs[i].key == ys[k].key && Same(xs[i].value, ys[k].value, true);
          UnambiguousIsStrict(xs[i].value, ys[k].value);
        }
      case _ =>
    }
  }

  lemma {:induction false} SameReflexive(j: Json, lax: bool)
    ensures Same(j, j, lax)
  {
    match j {
      case Arr(items) =>
        forall i | 0 <= i < |items|
          ensures Same(items[i], items[i], lax)
        {
          SameReflexive(items[i], lax);
        }
      case Obj(fields) =>
        forall i | 0 <= i < |fields|
          ensures SameField(fields[i], fields, lax)
        {
          SameReflexive(fields[i].value, lax);
        }
      case _ =>
    }
  }

  /** A different JSON value that Python takes for `j`. */
  lemma {:induction false} Twin(j: Json) returns (twin: Json)
    requires !Unambiguous(j) && DistinctKeys(j)
    ensures Same(twin, j, true) && !Same(twin, j, false)
  {
    match j {
      case Bool(flag) =>
        twin := Num(AsNumber(flag), "");
      case Num(x, _) =>
        twin := Bool(x == 1.0);
      case Arr(items) =>
        var i :| 0 <= i < |items| && !Unambiguous(items[i]);
        var inner := Twin(items[i]);
        twin := Arr(items[i := inner]);
        forall k | 0 <= k < |items|
          ensures Same(twin.items[k], items[k], true)
        {
          SameReflexive(items[k], true);
        }
      case Obj(fields) =>
        var i :| 0 <= i < |fields| && !Unambiguous(fields[i].value);
        var inner := Twin(fields[i].value);
        var changed := Field(fields[i].key, inner);
        twin := Obj(fields[i := changed]);
        forall k | 0 <= k < |fields|
          ensures SameField(twin.fields[k], fields, true)
        {
          SameReflexive(fields[k].value, true);
          assert twin.fields[k].key == fields[k].key;
        }
        assert !SameField(changed, fields, false);
        assert twin.fields[i] == changed;
      case _ =>
    }
  }

  /** Python finds an allowed value exactly where JSON does, whatever it is compared with,
      precisely when that value holds no boolean, no 0 and no 1. */
  lemma PythonEqualityExact(allowed: Json)
    requires DistinctKeys(allowed)
    ensures (forall j :: Same(j, allowed, true) <==> Same(j, allowed, false)) <==> Unambiguous(allowed)
  {
    if Unambiguous(allowed) {
      forall j
        ensures Same(j, allowed, true) <==> Same(j, allowed, false)
      {
        if Same(j, allowed, false) {
          StrictIsLax(j, allowed);
        } else if Same(j, allowed, true) {
          UnambiguousIsStrict(j, allowed);
        }
      }
    } else {
      var twin := Twin(allowed);
    }
  }
}
