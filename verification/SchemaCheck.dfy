/** The built-in checker for a subset of JSON Schema draft-07 (`_check`), against the meaning
    the standard gives the same keywords. */
module SchemaCheck {
  import opened Wrappers
  import opened Json

  /** The keywords the checker looks at. `additional` is false for `additionalProperties: false`. */
  datatype Schema = Schema(
    typeName: Option<string>, required: seq<string>, properties: seq<Property>, additional: bool,
    items: Option<Schema>, allowed: Option<seq<Json>>)

  datatype Property = Property(name: string, schema: Schema)

  datatype Step = Key(name: string) | Index(at: nat)
  type Path = seq<Step>

  datatype Problem =
    | NotObject(path: Path)
    | MissingKey(path: Path, key: string)
    | ExtraKey(path: Path, key: string)
    | NotArray(path: Path)
    | NotString(path: Path)
    | NotAllowed(path: Path)

  function FindProperty(properties: seq<Property>, name: string): (found: Option<Schema>)
    ensures found.Some? <==> exists i :: 0 <= i < |properties| && properties[i].name == name
    ensures found.Some? ==> exists i :: 0 <= i < |properties| && properties[i] == Property(name, found.value)
  {
    if properties == [] then None
    else if properties[0].name == name then Some(properties[0].schema)
    else
      var found := FindProperty(properties[1..], name);
      assert forall i :: 0 <= i < |properties[1..]| ==> properties[1..][i] == properties[i + 1];
      found
  }

  // ----- what the checker reports

  function Missing(fields: seq<Field>, required: seq<string>, path: Path): seq<Problem> {
    if required == [] then []
    else
      var last := required[|required| - 1];
      Missing(fields, required[..|required| - 1], path) + if HasKey(fields, last) then [] else [MissingKey(path, last)]
  }

  function Extra(fields: seq<Field>, properties: seq<Property>, path: Path): seq<Problem> {
    if fields == [] then []
    else
      var last := fields[|fields| - 1].key;
      Extra(fields[..|fields| - 1], properties, path)
      + if FindProperty(properties, last).Some? then [] else [ExtraKey(path, last)]
  }

  function InField(f: Field, properties: seq<Property>, path: Path): seq<Problem>
    decreases f
  {
    var schema := FindProperty(properties, f.key);
    if schema.Some? then Problems(f.value, schema.value, path + [Key(f.key)]) else []
  }

  /** The problems inside the first `n` fields. */
  function InFields(inst: Json, properties: seq<Property>, path: Path, n: nat): seq<Problem>
    requires inst.Obj? && n <= |inst.fields|
    decreases inst, n
  {
    if n == 0 then []
    else InFields(inst, properties, path, n - 1) + InField(inst.fields[n - 1], properties, path)
  }

  /** The problems inside the first `n` items. */
  function InItems(inst: Json, schema: Schema, path: Path, n: nat): seq<Problem>
    requires inst.Arr? && n <= |inst.items|
    decreases inst, n
  {
    if n == 0 then []
    else InItems(inst, schema, path, n - 1) + Problems(inst.items[n - 1], schema, path + [Index(n - 1)])
  }

  predicate Among(inst: Json, allowed: seq<Json>, lax: bool) {
    exists i :: 0 <= i < |allowed| && Same(inst, allowed[i], lax)
  }

  function ByEnum(inst: Json, schema: Schema, path: Path): seq<Problem> {
    if schema.allowed.Some? && !Among(inst, schema.allowed.value, true) then [NotAllowed(path)] else []
  }

  function InObject(inst: Json, schema: Schema, path: Path): seq<Problem>
    requires inst.Obj?
    decreases inst, |inst.fields| + 1
  {
    Missing(inst.fields, schema.required, path)
    + (if schema.additional then [] else Extra(inst.fields, schema.properties, path))
    + InFields(inst, schema.properties, path, |inst.fields|)
  }

  function InArray(inst: Json, schema: Schema, path: Path): seq<Problem>
    requires inst.Arr?
    decreases inst, |inst.items| + 1
  {
    if schema.items.Some? then InItems(inst, schema.items.value, path, |inst.items|) else []
  }

  function Problems(inst: Json, schema: Schema, path: Path): seq<Problem>
    decreases inst
  {
    if schema.typeName == Some("object") then
      if !inst.Obj? then [NotObject(path)] else InObject(inst, schema, path) + ByEnum(inst, schema, path)
    else if schema.typeName == Some("array") then
      if !inst.Arr? then [NotArray(path)] else InArray(inst, schema, path) + ByEnum(inst, schema, path)
    else if schema.typeName == Some("string") then
      (if inst.Str? then [] else [NotString(path)]) + ByEnum(inst, schema, path)
    else ByEnum(inst, schema, path)
  }

  lemma Joined(a: seq<Problem>, b: seq<Problem>, c: seq<Problem>, d: seq<Problem>)
    ensures a + b + c + d == a + (b + c + d)
  {
  }

  lemma ItemsSnoc(inst: Json, schema: Schema, path: Path, n: nat)
    requires inst.Arr? && n < |inst.items|
    ensures InItems(inst, schema, path, n + 1)
            == InItems(inst, schema, path, n) + Problems(inst.items[n], schema, path + [Index(n)])
  {
  }

  /** The module-level error list and the recursive routine that appends to it. */
  class Checker {
    var errors: seq<Problem>

    constructor ()
      ensures errors == []
    {
      errors := [];
    }

    /** Only ever appends, and appends exactly the problems of the instance. */
    method Check(inst: Json, schema: Schema, path: Path)
      modifies this
      ensures errors == old(errors) + Problems(inst, schema, path)
      decreases inst, 2
    {
      if schema.typeName == Some("object") {
        if !inst.Obj? {
          errors := errors + [NotObject(path)];
          return;
        }
        CheckObject(inst, schema, path);
      } else if schema.typeName == Some("array") {
        if !inst.Arr? {
          errors := errors + [NotArray(path)];
          return;
        }
        if schema.items.Some? {
          CheckItems(inst, schema.items.value, path);
        }
      } else if schema.typeName == Some("string") {
        if !inst.Str? {
          errors := errors + [NotString(path)];
        }
      }
      CheckEnum(inst, schema, path);
    }

    method CheckEnum(inst: Json, schema: Schema, path: Path)
      modifies this
      ensures errors == old(errors) + ByEnum(inst, schema, path)
    {
      if schema.allowed.Some? && !Among(inst, schema.allowed.value, true) {
        errors := errors + [NotAllowed(path)];
      }
    }

    method CheckObject(inst: Json, schema: Schema, path: Path)
      requires inst.Obj?
      modifies this
      ensures errors == old(errors) + InObject(inst, schema, path)
      decreases inst, 1
    {
      ghost var missing := Missing(inst.fields, schema.required, path);
      ghost var extra := if schema.additional then [] else Extra(inst.fields, schema.properties, path);
      ghost var inside := InFields(inst, schema.properties, path, |inst.fields|);
      CheckRequired(inst.fields, schema.required, path);
      if !schema.additional {
        CheckExtra(inst.fields, schema.properties, path);
      }
      assert errors == old(errors) + missing + extra;
      CheckFields(inst, schema.properties, path);
      Joined(old(errors), missing, extra, inside);
    }

    method CheckFields(inst: Json, properties: seq<Property>, path: Path)
      requires inst.Obj?
      modifies this
      ensures errors == old(errors) + InFields(inst, properties, path, |inst.fields|)
      decreases inst, 0
    {
      for n := 0 to |inst.fields|
        invariant errors == old(errors) + InFields(inst, properties, path, n)
      {
        CheckField(inst.fields[n], properties, path);
      }
    }

    method CheckField(f: Field, properties: seq<Property>, path: Path)
      modifies this
      ensures errors == old(errors) + InField(f, properties, path)
      decreases f
    {
      var sub := FindProperty(properties, f.key);
      if sub.Some? {
        Check(f.value, sub.value, path + [Key(f.key)]);
      }
    }

    method CheckItems(inst: Json, schema: Schema, path: Path)
      requires inst.Arr?
      modifies this
      ensures errors == old(errors) + InItems(inst, schema, path, |inst.items|)
      decreases inst, 0
    {
      for n := 0 to |inst.items|
        invariant errors == old(errors) + InItems(inst, schema, path, n)
      {
        ItemsSnoc(inst, schema, path, n);
        Check(inst.items[n], schema, path + [Index(n)]);
      }
    }

    method CheckRequired(fields: seq<Field>, required: seq<string>, path: Path)
      modifies this
      ensures errors == old(errors) + Missing(fields, required, path)
    {
      for i := 0 to |required|
        invariant errors == old(errors) + Missing(fields, required[..i], path)
      {
        assert required[..i + 1][..i] == required[..i];
        if !HasKey(fields, required[i]) {
          errors := errors + [MissingKey(path, required[i])];
        }
      }
      assert required[..|required|] == required;
    }

    method CheckExtra(fields: seq<Field>, properties: seq<Property>, path: Path)
      modifies this
      ensures errors == old(errors) + Extra(fields, properties, path)
    {
      for i := 0 to |fields|
        invariant errors == old(errors) + Extra(fields[..i], properties, path)
      {
        assert fields[..i + 1][..i] == fields[..i];
        if FindProperty(properties, fields[i].key).None? {
          errors := errors + [ExtraKey(path, fields[i].key)];
        }
      }
      assert fields[..|fields|] == fields;
    }
  }

  // ----- what draft-07 says

  predicate HasType(inst: Json, name: string) {
    match inst
    case Null => name == "null"
    case Bool(_) => name == "boolean"
    case Num(x, _) => name == "number" || (name == "integer" && x == x.Floor as real)
    case Str(_) => name == "string"
    case Arr(_) => name == "array"
    case Obj(_) => name == "object"
  }

  /** Sections 6.1.1 (type), 6.1.2 (enum), 6.4.1 (items), 6.5.3 (required), 6.5.4 (properties)
      and 6.5.6 (additionalProperties) of JSON Schema Validation draft-07. */
  predicate Satisfies(inst: Json, schema: Schema)
    decreases inst
  {
    && (schema.typeName.Some? ==> HasType(inst, schema.typeName.value))
    && (schema.allowed.Some? ==> Among(inst, schema.allowed.value, false))
    && (inst.Arr? && schema.items.Some? ==>
          forall i :: 0 <= i < |inst.items| ==> Satisfies(inst.items[i], schema.items.value))
    && (inst.Obj? ==>
          && (forall k :: 0 <= k < |schema.required| ==> HasKey(inst.fields, schema.required[k]))
          && (forall i :: 0 <= i < |inst.fields| ==>
                var sub := FindProperty(schema.properties, inst.fields[i].key);
                if sub.Some? then Satisfies(inst.fields[i].value, sub.value) else schema.additional))
  }

  /** Schemas of the subset: only the three types, object and array keywords only where there is a
      type, and allowed values that Python compares as JSON does. */
  predicate InSubset(schema: Schema)
    decreases schema
  {
    && (schema.typeName.Some? ==> schema.typeName.value in {"object", "array", "string"})
    && (schema.typeName.None? ==>
          schema.required == [] && schema.properties == [] && schema.additional && schema.items.None?)
    && (schema.typeName == Some("array") && schema.items.Some? ==> InSubset(schema.items.value))
    && (schema.typeName == Some("object") ==>
          forall i :: 0 <= i < |schema.properties| ==> InSubset(schema.properties[i].schema))
    && (schema.allowed.Some? ==> forall i :: 0 <= i < |schema.allowed.value| ==> Unambiguous(schema.allowed.value[i]))
  }

  lemma {:induction false} MissingNone(fields: seq<Field>, required: seq<string>, path: Path)
    ensures Missing(fields, required, path) == [] <==> forall k :: 0 <= k < |required| ==> HasKey(fields, required[k])
  {
    if required != [] {
      MissingNone(fields, required[..|required| - 1], path);
    }
  }

  lemma {:induction false} ExtraNone(fields: seq<Field>, properties: seq<Property>, path: Path)
    ensures Extra(fields, properties, path) == []
            <==> forall i :: 0 <= i < |fields| ==> FindProperty(properties, fields[i].key).Some?
  {
    if fields != [] {
      ExtraNone(fields[..|fields| - 1], properties, path);
    }
  }

  lemma AmongLax(inst: Json, allowed: seq<Json>)
    ensures Among(inst, allowed, false) ==> Among(inst, allowed, true)
    ensures (forall i :: 0 <= i < |allowed| ==> Unambiguous(allowed[i])) && Among(inst, allowed, true)
            ==> Among(inst, allowed, false)
  {
    if i :| 0 <= i < |allowed| && Same(inst, allowed[i], false) {
      StrictIsLax(inst, allowed[i]);
    }
    if (forall i :: 0 <= i < |allowed| ==> Unambiguous(allowed[i])) && Among(inst, allowed, true) {
      var i :| 0 <= i < |allowed| && Same(inst, allowed[i], true);
      UnambiguousIsStrict(inst, allowed[i]);
    }
  }

  /** No false alarms, whatever the schema: a valid instance gets no problem. */
  lemma {:induction false} NoFalseAlarms(inst: Json, schema: Schema, path: Path)
    requires Satisfies(inst, schema)
    ensures Problems(inst, schema, path) == []
    decreases inst
  {
    if schema.allowed.Some? {
      AmongLax(inst, schema.allowed.value);
    }
    if schema.typeName == Some("object") {
      MissingNone(inst.fields, schema.required, path);
      ExtraNone(inst.fields, schema.properties, path);
      QuietFields(inst, schema, path, |inst.fields|);
    } else if schema.typeName == Some("array") && schema.items.Some? {
      QuietItems(inst, schema, path, |inst.items|);
    }
  }

  lemma {:induction false} QuietFields(inst: Json, schema: Schema, path: Path, n: nat)
    requires inst.Obj? && n <= |inst.fields| && Satisfies(inst, schema)
    ensures InFields(inst, schema.properties, path, n) == []
    decreases inst, n
  {
    if n > 0 {
      QuietFields(inst, schema, path, n - 1);
      var f := inst.fields[n - 1];
      var sub := FindProperty(schema.properties, f.key);
      if sub.Some? {
        NoFalseAlarms(f.value, sub.value, path + [Key(f.key)]);
      }
    }
  }

  lemma {:induction false} QuietItems(inst: Json, schema: Schema, path: Path, n: nat)
    requires inst.Arr? && n <= |inst.items| && Satisfies(inst, schema) && schema.items.Some?
    ensures InItems(inst, schema.items.value, path, n) == []
    decreases inst, n
  {
    if n > 0 {
      QuietItems(inst, schema, path, n - 1);
      NoFalseAlarms(inst.items[n - 1], schema.items.value, path + [Index(n - 1)]);
    }
  }

  /** No missed violation on schemas of the subset. */
  lemma {:induction false} NothingMissed(inst: Json, schema: Schema, path: Path)
    requires InSubset(schema) && Problems(inst, schema, path) == []
    ensures Satisfies(inst, schema)
    decreases inst
  {
    if schema.allowed.Some? {
      AmongLax(inst, schema.allowed.value);
    }
    if schema.typeName == Some("object") {
      MissingNone(inst.fields, schema.required, path);
      ExtraNone(inst.fields, schema.properties, path);
      forall i | 0 <= i < |inst.fields|
        ensures FieldSatisfies(inst.fields[i], schema.properties)
      {
        FieldQuiet(inst, schema.properties, path, |inst.fields|, i);
        FieldMissesNothing(inst.fields[i], schema.properties, path);
      }
    } else if schema.typeName == Some("array") {
      if schema.items.Some? {
        forall i | 0 <= i < |inst.items|
          ensures Satisfies(inst.items[i], schema.items.value)
        {
          ItemQuiet(inst, schema.items.value, path, |inst.items|, i);
          NothingMissed(inst.items[i], schema.items.value, path + [Index(i)]);
        }
      }
    } else {
      assert inst.Obj? ==> forall i :: 0 <= i < |inst.fields| ==> FindProperty([], inst.fields[i].key).None?;
    }
  }

  ghost predicate FieldSatisfies(f: Field, properties: seq<Property>) {
    var sub := FindProperty(properties, f.key);
    sub.Some? ==> Satisfies(f.value, sub.value)
  }

  lemma {:induction false} FieldQuiet(inst: Json, properties: seq<Property>, path: Path, n: nat, i: nat)
    requires inst.Obj? && i < n <= |inst.fields| && InFields(inst, properties, path, n) == []
    ensures InField(inst.fields[i], properties, path) == []
    decreases n
  {
    if i < n - 1 {
      FieldQuiet(inst, properties, path, n - 1, i);
    }
  }

  lemma {:induction false} FieldMissesNothing(f: Field, properties: seq<Property>, path: Path)
    requires InField(f, properties, path) == []
    requires forall i :: 0 <= i < |properties| ==> InSubset(properties[i].schema)
    ensures FieldSatisfies(f, properties)
    decreases f
  {
    var sub := FindProperty(properties, f.key);
    if sub.Some? {
      NothingMissed(f.value, sub.value, path + [Key(f.key)]);
    }
  }

  lemma {:induction false} ItemQuiet(inst: Json, schema: Schema, path: Path, n: nat, i: nat)
    requires inst.Arr? && i < n <= |inst.items| && InItems(inst, schema, path, n) == []
    ensures Problems(inst.items[i], schema, path + [Index(i)]) == []
    decreases n
  {
    if i < n - 1 {
      ItemQuiet(inst, schema, path, n - 1, i);
    }
  }

  /** The checker is silent on exactly the valid instances. */
  ghost predicate Exact(schema: Schema) {
    forall inst: Json, path: Path :: Problems(inst, schema, path) == [] <==> Satisfies(inst, schema)
  }

  lemma SilentIffValid(schema: Schema)
    requires InSubset(schema)
    ensures Exact(schema)
  {
    forall inst: Json, path: Path
      ensures Problems(inst, schema, path) == [] <==> Satisfies(inst, schema)
    {
      if Problems(inst, schema, path) == [] {
        NothingMissed(inst, schema, path);
      } else if Satisfies(inst, schema) {
        NoFalseAlarms(inst, schema, path);
      }
    }
  }

  const Anything := Schema(None, [], [], true, None, None)

  /** A type keyword alone is checked exactly for the three supported types. */
  lemma TypeExactIff(name: string)
    ensures Exact(Anything.(typeName := Some(name))) <==> name in {"object", "array", "string"}
  {
    var schema := Anything.(typeName := Some(name));
    if name in {"object", "array", "string"} {
      SilentIffValid(schema);
    } else {
      var inst := if name == "null" then Bool(true) else Null;
      assert Problems(inst, schema, []) == [] && !Satisfies(inst, schema);
    }
  }

  /** Without a type, required keys and closed objects go unchecked. */
  lemma UntypedObjectExactIff(required: seq<string>, additional: bool)
    ensures Exact(Anything.(required := required, additional := additional)) <==> required == [] && additional
  {
    var schema := Anything.(required := required, additional := additional);
    if required == [] && additional {
      SilentIffValid(schema);
    } else if required != [] {
      assert !HasKey([], required[0]);
      assert Problems(Obj([]), schema, []) == [] && !Satisfies(Obj([]), schema);
    } else {
      var inst := Obj([Field("", Null)]);
      assert FindProperty([], inst.fields[0].key).None?;
      assert Problems(inst, schema, []) == [] && !Satisfies(inst, schema);
    }
  }

  ghost predicate AcceptsAll(schema: Schema) {
    forall inst: Json :: Satisfies(inst, schema)
  }

  ghost predicate PropertyAcceptsAll(properties: seq<Property>, name: string) {
    FindProperty(properties, name).Some? ==> AcceptsAll(FindProperty(properties, name).value)
  }

  /** Without a type, property schemas go unchecked. */
  lemma UntypedPropertiesExactIff(properties: seq<Property>)
    ensures Exact(Anything.(properties := properties)) <==> forall name :: PropertyAcceptsAll(properties, name)
  {
    var schema := Anything.(properties := properties);
    if forall name :: PropertyAcceptsAll(properties, name) {
      forall inst: Json, path: Path
        ensures Problems(inst, schema, path) == [] <==> Satisfies(inst, schema)
      {
        assert inst.Obj? ==> forall i :: 0 <= i < |inst.fields| ==> PropertyAcceptsAll(properties, inst.fields[i].key);
      }
    } else {
      var name :| !PropertyAcceptsAll(properties, name);
      var sub := FindProperty(properties, name).value;
      var value :| !Satisfies(value, sub);
      var inst := Obj([Field(name, value)]);
      assert inst.fields[0] == Field(name, value);
      assert Problems(inst, schema, []) == [] && !Satisfies(inst, schema);
    }
  }

  /** Without a type, an item schema goes unchecked. */
  lemma UntypedArrayExactIff(items: Schema)
    ensures Exact(Anything.(items := Some(items))) <==> AcceptsAll(items)
  {
    var schema := Anything.(items := Some(items));
    if AcceptsAll(items) {
      forall inst: Json, path: Path
        ensures Problems(inst, schema, path) == [] <==> Satisfies(inst, schema)
      {
        assert inst.Obj? ==> forall i :: 0 <= i < |inst.fields| ==> FindProperty([], inst.fields[i].key).None?;
      }
    } else {
      var item :| !Satisfies(item, items);
      assert Arr([item]).items[0] == item;
      assert Problems(Arr([item]), schema, []) == [] && !Satisfies(Arr([item]), schema);
    }
  }

  /** An allowed value is matched as JSON matches it exactly if Python confuses it with no other. */
  lemma EnumExactIff(allowed: Json)
    requires DistinctKeys(allowed)
    ensures Exact(Anything.(allowed := Some([allowed]))) <==> Unambiguous(allowed)
  {
    var schema := Anything.(allowed := Some([allowed]));
    if Unambiguous(allowed) {
      SilentIffValid(schema);
    } else {
      var twin := Twin(allowed);
      assert Same(twin, [allowed][0], true);
      assert Among(twin, [allowed], true) && !Among(twin, [allowed], false);
      assert Problems(twin, schema, []) == [] && !Satisfies(twin, schema);
    }
  }

  // ----- which problems are reported

  /** The step leads from a value and its schema to a value inside and the schema for it. */
  ghost predicate Leads(inst: Json, schema: Schema, step: Step, inner: Json, sub: Schema) {
    match step
    case Key(name) =>
      && schema.typeName == Some("object") && inst.Obj? && Field(name, inner) in inst.fields
      && FindProperty(schema.properties, name) == Some(sub)
    case Index(at) =>
      && schema.typeName == Some("array") && inst.Arr? && at < |inst.items| && inst.items[at] == inner
      && schema.items == Some(sub)
  }

  /** The steps lead there one after the other. */
  ghost predicate Reaches(inst: Json, schema: Schema, way: Path, value: Json, sub: Schema)
    decreases |way|
  {
    if way == [] then inst == value && schema == sub
    else exists inner, between :: Leads(inst, schema, way[0], inner, between)
                                  && Reaches(inner, between, way[1..], value, sub)
  }

  /** The problem is one of this value under this schema itself. */
  ghost predicate Own(p: Problem, value: Json, schema: Schema, at: Path) {
    match p
    case NotObject(path) => path == at && schema.typeName == Some("object") && !value.Obj?
    case NotArray(path) => path == at && schema.typeName == Some("array") && !value.Arr?
    case NotString(path) => path == at && schema.typeName == Some("string") && !value.Str?
    case MissingKey(path, key) =>
      path == at && schema.typeName == Some("object") && value.Obj? && key in schema.required
      && !HasKey(value.fields, key)
    case ExtraKey(path, key) =>
      path == at && schema.typeName == Some("object") && value.Obj? && !schema.additional
      && HasKey(value.fields, key) && FindProperty(schema.properties, key).None?
    case NotAllowed(path) =>
      path == at && schema.allowed.Some? && !Among(value, schema.allowed.value, true)
      && (schema.typeName == Some("object") ==> value.Obj?) && (schema.typeName == Some("array") ==> value.Arr?)
  }

  lemma {:induction false} MissingExactly(fields: seq<Field>, required: seq<string>, path: Path, p: Problem)
    ensures p in Missing(fields, required, path)
            <==> p.MissingKey? && p.path == path && p.key in required && !HasKey(fields, p.key)
  {
    if required != [] {
      MissingExactly(fields, required[..|required| - 1], path, p);
      assert required == required[..|required| - 1] + [required[|required| - 1]];
    }
  }

  lemma {:induction false} ExtraExactly(fields: seq<Field>, properties: seq<Property>, path: Path, p: Problem)
    ensures p in Extra(fields, properties, path)
            <==> p.ExtraKey? && p.path == path && HasKey(fields, p.key) && FindProperty(properties, p.key).None?
  {
    if fields != [] {
      var front := fields[..|fields| - 1];
      ExtraExactly(front, properties, path, p);
      if p.ExtraKey? {
        HasKeySnoc(front, fields[|fields| - 1], p.key);
        assert fields == front + [fields[|fields| - 1]];
      }
    }
  }

  lemma HasKeySnoc(fields: seq<Field>, f: Field, key: string)
    ensures HasKey(fields + [f], key) <==> HasKey(fields, key) || f.key == key
  {
    if i :| 0 <= i < |fields| && fields[i].key == key {
      assert (fields + [f])[i].key == key;
    }
    assert (fields + [f])[|fields|] == f;
  }

  ghost predicate FieldHas(p: Problem, inst: Json, properties: seq<Property>, path: Path, n: nat)
    requires inst.Obj? && n <= |inst.fields|
  {
    exists i :: 0 <= i < n && p in InField(inst.fields[i], properties, path)
  }

  lemma FieldHasSnoc(p: Problem, inst: Json, properties: seq<Property>, path: Path, n: nat)
    requires inst.Obj? && n < |inst.fields|
    ensures FieldHas(p, inst, properties, path, n + 1)
            <==> FieldHas(p, inst, properties, path, n) || p in InField(inst.fields[n], properties, path)
  {
  }

  lemma {:induction false} InFieldsExactly(inst: Json, properties: seq<Property>, path: Path, n: nat, p: Problem)
    requires inst.Obj? && n <= |inst.fields|
    ensures p in InFields(inst, properties, path, n) <==> FieldHas(p, inst, properties, path, n)
    decreases n
  {
    if n > 0 {
      InFieldsExactly(inst, properties, path, n - 1, p);
      FieldHasSnoc(p, inst, properties, path, n - 1);
    }
  }

  ghost predicate ItemHas(p: Problem, inst: Json, schema: Schema, path: Path, n: nat)
    requires inst.Arr? && n <= |inst.items|
  {
    exists i: nat :: i < n && p in Problems(inst.items[i], schema, path + [Index(i)])
  }

  lemma ItemHasSnoc(p: Problem, inst: Json, schema: Schema, path: Path, n: nat)
    requires inst.Arr? && n < |inst.items|
    ensures ItemHas(p, inst, schema, path, n + 1)
            <==> ItemHas(p, inst, schema, path, n) || p in Problems(inst.items[n], schema, path + [Index(n)])
  {
  }

  predicate ItemReported(p: Problem, inst: Json, schema: Schema, path: Path, n: nat)
    requires inst.Arr? && n <= |inst.items|
  {
    p in InItems(inst, schema, path, n)
  }

  lemma LastItemReported(p: Problem, inst: Json, schema: Schema, path: Path, n: nat)
    requires inst.Arr? && n < |inst.items|
    ensures ItemReported(p, inst, schema, path, n + 1)
            <==> ItemReported(p, inst, schema, path, n) || p in Problems(inst.items[n], schema, path + [Index(n)])
  {
    ItemsSnoc(inst, schema, path, n);
  }

  lemma NoItemReported(p: Problem, inst: Json, schema: Schema, path: Path)
    requires inst.Arr?
    ensures !ItemReported(p, inst, schema, path, 0)
  {
  }

  lemma {:induction false} InItemsExactly(inst: Json, schema: Schema, path: Path, n: nat, p: Problem)
    requires inst.Arr? && n <= |inst.items|
    ensures ItemReported(p, inst, schema, path, n) <==> ItemHas(p, inst, schema, path, n)
    decreases n
  {
    if n == 0 {
      NoItemReported(p, inst, schema, path);
    } else {
      var before := n - 1;
      InItemsExactly(inst, schema, path, before, p);
      LastItemReported(p, inst, schema, path, before);
      ItemHasSnoc(p, inst, schema, path, before);
    }
  }

  /** A problem one step further in. */
  ghost predicate Deeper(p: Problem, inst: Json, schema: Schema, path: Path) {
    exists step, inner, sub :: Leads(inst, schema, step, inner, sub) && p in Problems(inner, sub, path + [step])
  }

  lemma OwnOrDeeper(inst: Json, schema: Schema, path: Path, p: Problem)
    ensures p in Problems(inst, schema, path) <==> Own(p, inst, schema, path) || Deeper(p, inst, schema, path)
  {
    if schema.typeName == Some("object") && inst.Obj? {
      MissingExactly(inst.fields, schema.required, path, p);
      ExtraExactly(inst.fields, schema.properties, path, p);
      FieldsAreDeeper(inst, schema, path, p);
    } else if schema.typeName == Some("array") && inst.Arr? {
      ItemsAreDeeper(inst, schema, path, p);
    }
  }

  lemma FieldsAreDeeper(inst: Json, schema: Schema, path: Path, p: Problem)
    requires schema.typeName == Some("object") && inst.Obj?
    ensures p in InFields(inst, schema.properties, path, |inst.fields|) <==> Deeper(p, inst, schema, path)
  {
    InFieldsExactly(inst, schema.properties, path, |inst.fields|, p);
    if i :| 0 <= i < |inst.fields| && p in InField(inst.fields[i], schema.properties, path) {
      var f := inst.fields[i];
      var sub := FindProperty(schema.properties, f.key).value;
      assert f == Field(f.key, f.value);
      assert Leads(inst, schema, Key(f.key), f.value, sub);
    }
    if step, inner, sub :| Leads(inst, schema, step, inner, sub) && p in Problems(inner, sub, path + [step]) {
      var i :| 0 <= i < |inst.fields| && inst.fields[i] == Field(step.name, inner);
      assert p in InField(inst.fields[i], schema.properties, path);
    }
  }

  lemma ItemsAreDeeper(inst: Json, schema: Schema, path: Path, p: Problem)
    requires schema.typeName == Some("array") && inst.Arr?
    ensures p in InArray(inst, schema, path) <==> Deeper(p, inst, schema, path)
  {
    if schema.items.Some? {
      InItemsExactly(inst, schema.items.value, path, |inst.items|, p);
      if i: nat :| i < |inst.items| && p in Problems(inst.items[i], schema.items.value, path + [Index(i)]) {
        assert Leads(inst, schema, Index(i), inst.items[i], schema.items.value);
      }
    }
  }

  /** Some place in the instance that the schema reaches has the problem. */
  ghost predicate Somewhere(p: Problem, inst: Json, schema: Schema, path: Path) {
    exists way, value, sub :: Reaches(inst, schema, way, value, sub) && Own(p, value, sub, path + way)
  }

  lemma Smaller(inst: Json, schema: Schema, step: Step, inner: Json, sub: Schema)
    requires Leads(inst, schema, step, inner, sub)
    ensures inner < inst
  {
    if step.Key? {
      var i :| 0 <= i < |inst.fields| && inst.fields[i] == Field(step.name, inner);
      assert inst.fields[i].value < inst;
    }
  }

  /** Exactly the problems that some reachable place has are reported, with the path to it. */
  lemma {:induction false} ReportsExactly(inst: Json, schema: Schema, path: Path, p: Problem)
    ensures p in Problems(inst, schema, path) <==> Somewhere(p, inst, schema, path)
    decreases inst, 1
  {
    OwnOrDeeper(inst, schema, path, p);
    if Deeper(p, inst, schema, path) {
      ReportedIsSomewhere(inst, schema, path, p);
    }
    if Own(p, inst, schema, path) {
      OwnIsSomewhere(inst, schema, path, p);
    }
    if Somewhere(p, inst, schema, path) {
      SomewhereIsReported(inst, schema, path, p);
    }
  }

  lemma OwnIsSomewhere(inst: Json, schema: Schema, path: Path, p: Problem)
    requires Own(p, inst, schema, path)
    ensures Somewhere(p, inst, schema, path)
  {
    assert Reaches(inst, schema, [], inst, schema) && path + [] == path;
  }

  lemma {:induction false} ReportedIsSomewhere(inst: Json, schema: Schema, path: Path, p: Problem)
    requires Deeper(p, inst, schema, path)
    ensures Somewhere(p, inst, schema, path)
    decreases inst, 0
  {
    var step, inner, sub :| Leads(inst, schema, step, inner, sub) && p in Problems(inner, sub, path + [step]);
    Smaller(inst, schema, step, inner, sub);
    ReportsExactly(inner, sub, path + [step], p);
    var way, value, last :| Reaches(inner, sub, way, value, last) && Own(p, value, last, path + [step] + way);
    Further(inst, schema, path, step, inner, sub, way, value, last, p);
  }

  lemma {:induction false} SomewhereIsReported(inst: Json, schema: Schema, path: Path, p: Problem)
    requires Somewhere(p, inst, schema, path)
    ensures Own(p, inst, schema, path) || Deeper(p, inst, schema, path)
    decreases inst, 0
  {
    var way, value, last :| Reaches(inst, schema, way, value, last) && Own(p, value, last, path + way);
    if way == [] {
      assert path + [] == path;
    } else {
      var inner, sub :| Leads(inst, schema, way[0], inner, sub) && Reaches(inner, sub, way[1..], value, last);
      Smaller(inst, schema, way[0], inner, sub);
      StepOnPath(path, way);
      ReachedFurther(inner, sub, path + [way[0]], way[1..], value, last, p);
      ReportsExactly(inner, sub, path + [way[0]], p);
    }
  }

  lemma StepOnPath(path: Path, way: Path)
    requires way != []
    ensures path + [way[0]] + way[1..] == path + way
  {
  }

  lemma ReachedFurther(inst: Json, schema: Schema, path: Path, way: Path, value: Json, last: Schema, p: Problem)
    requires Reaches(inst, schema, way, value, last) && Own(p, value, last, path + way)
    ensures Somewhere(p, inst, schema, path)
  {
  }

  lemma ReachFurther(inst: Json, schema: Schema, step: Step, inner: Json, sub: Schema,
                     way: Path, value: Json, last: Schema)
    requires Leads(inst, schema, step, inner, sub) && Reaches(inner, sub, way, value, last)
    ensures Reaches(inst, schema, [step] + way, value, last)
  {
    var whole := [step] + way;
    assert whole[0] == step && whole[1..] == way;
  }

  lemma Further(inst: Json, schema: Schema, path: Path, step: Step, inner: Json, sub: Schema,
                way: Path, value: Json, last: Schema, p: Problem)
    requires Leads(inst, schema, step, inner, sub) && Reaches(inner, sub, way, value, last)
    requires Own(p, value, last, path + [step] + way)
    ensures Somewhere(p, inst, schema, path)
  {
    ReachFurther(inst, schema, step, inner, sub, way, value, last);
    assert path + ([step] + way) == path + [step] + way;
    ReachedFurther(inst, schema, path, [step] + way, value, last, p);
  }

  function MissingAt(fields: seq<Field>, required: seq<string>): set<nat> {
    set k: nat | k < |required| && !HasKey(fields, required[k])
  }

  function ExtraAt(fields: seq<Field>, properties: seq<Property>): set<nat> {
    set k: nat | k < |fields| && FindProperty(properties, fields[k].key).None?
  }

  /** One problem for each required key that is missing. */
  lemma {:induction false} MissingCount(fields: seq<Field>, required: seq<string>, path: Path)
    ensures |Missing(fields, required, path)| == |MissingAt(fields, required)|
  {
    if required != [] {
      var n := |required| - 1;
      MissingCount(fields, required[..n], path);
      var earlier := MissingAt(fields, required[..n]);
      assert MissingAt(fields, required) == if HasKey(fields, required[n]) then earlier else earlier + {n};
    }
  }

  /** One problem for each field that a closed schema does not name. */
  lemma {:induction false} ExtraCount(fields: seq<Field>, properties: seq<Property>, path: Path)
    ensures |Extra(fields, properties, path)| == |ExtraAt(fields, properties)|
  {
    if fields != [] {
      var n := |fields| - 1;
      ExtraCount(fields[..n], properties, path);
      var earlier, known := ExtraAt(fields[..n], properties), FindProperty(properties, fields[n].key).Some?;
      assert ExtraAt(fields, properties) == if known then earlier else earlier + {n};
    }
  }
}
