/**
 What flattening means to someone who asks for a dotted path (crates/flatten-serde-json/src/lib.rs):
 the result holds at a path what is found by following the path through the nested document.

 The traversal does not occur here; keys may contain dots themselves, so that several ways through
 the document can have the same path.
 */
module FlattenPaths {
  import opened Basics
  import opened Json
  import opened Flatten

  /** A scalar and whether it is an element of an array rather than the value of a field. */
  datatype Found = Found(value: Value, inArray: bool)

  /** The path that is left below a key. */
  predicate Below(key: string, path: string) {
    key + "." <= path
  }

  function Rest(key: string, path: string): string
    requires Below(key, path)
  {
    path[|key| + 1..]
  }

  /** The scalars found by following the path, in document order; arrays are looked through. */
  function FindInFields(fields: seq<Field>, path: string): seq<Found>
    decreases fields, 0
  {
    if fields == [] then []
    else
      var key, value := fields[0].key, fields[0].value;
      (if key == path then FindHere(value, false)
       else if Below(key, path) then FindBelow(value, Rest(key, path))
       else []) + FindInFields(fields[1..], path)
  }

  /** The scalars at the end of the path: the value itself, or the elements of arrays of any depth. */
  function FindHere(v: Value, inArray: bool): seq<Found>
    decreases v, 1
  {
    match v
    case Array(vs) => FindHereInAll(vs)
    case Object(_) => []
    case _ => [Found(v, inArray)]
  }

  function FindHereInAll(vs: seq<Value>): seq<Found>
    decreases vs, 0
  {
    if vs == [] then [] else FindHere(vs[0], true) + FindHereInAll(vs[1..])
  }

  function FindBelow(v: Value, path: string): seq<Found>
    decreases v, 1
  {
    match v
    case Array(vs) => FindBelowInAll(vs, path)
    case Object(fs) => FindInFields(fs, path)
    case _ => []
  }

  function FindBelowInAll(vs: seq<Value>, path: string): seq<Found>
    decreases vs, 0
  {
    if vs == [] then [] else FindBelow(vs[0], path) + FindBelowInAll(vs[1..], path)
  }

  /** The first field value the path leads to. */
  function FieldInFields(fields: seq<Field>, path: string): Option<Value>
    decreases fields, 0
  {
    if fields == [] then None
    else
      var key, value := fields[0].key, fields[0].value;
      if key == path then Some(value)
      else
        var below := if Below(key, path) then FieldBelow(value, Rest(key, path)) else None;
        if below.Some? then below else FieldInFields(fields[1..], path)
  }

  function FieldBelow(v: Value, path: string): Option<Value>
    decreases v, 1
  {
    match v
    case Array(vs) => FieldBelowInAll(vs, path)
    case Object(fs) => FieldInFields(fs, path)
    case _ => None
  }

  function FieldBelowInAll(vs: seq<Value>, path: string): Option<Value>
    decreases vs, 0
  {
    if vs == [] then None
    else
      var first := FieldBelow(vs[0], path);
      if first.Some? then first else FieldBelowInAll(vs[1..], path)
  }

  function FoundValues(found: seq<Found>): seq<Value> {
    seq(|found|, i requires 0 <= i < |found| => found[i].value)
  }

  /** The value at a path of the flattened document, none if no field is there. */
  function Resolve(document: seq<Field>, path: string): Option<Value> {
    var field := FieldInFields(document, path);
    if field.None? then None
    else
      var found := FindInFields(document, path);
      if found == [] then field
      else if |found| == 1 && !found[0].inArray then Some(found[0].value)
      else Some(Array(FoundValues(found)))
  }

  // ---------- Strings ----------

  lemma LongerKey(base: string, key: string, path: string)
    ensures base + "." + key == path <==> Below(base, path) && key == Rest(base, path)
    ensures Below(base + "." + key, path) <==> Below(base, path) && Below(key, Rest(base, path))
    ensures Below(base + "." + key, path) ==> Rest(base + "." + key, path) == Rest(key, Rest(base, path))
  {
    var dotted := base + ".";
    if dotted <= path {
      assert path == dotted + Rest(base, path);
      PrefixOfRest(dotted, key + ".", path);
      assert dotted + (key + ".") == base + "." + key + ".";
    }
    if Below(base + "." + key, path) {
      assert (base + "." + key + ".")[..|dotted|] == dotted;
      assert path[..|dotted|] == dotted;
    }
  }

  lemma PrefixOfRest(a: string, b: string, path: string)
    requires a <= path
    ensures a + b <= path <==> b <= path[|a|..]
  {
    assert path == a + path[|a|..];
    if b <= path[|a|..] {
      assert path == a + b + path[|a| + |b|..];
    }
    if a + b <= path {
      assert path[|a|..] == b + path[|a| + |b|..];
    }
  }

  lemma NotBelowItself(key: string)
    ensures !Below(key, key)
  {
  }

  // ---------- The traversal meets what following the path finds ----------

  function AsVisits(path: string, found: seq<Found>): seq<Visit> {
    seq(|found|, i requires 0 <= i < |found| => Reached(path, found[i].value, found[i].inArray))
  }

  lemma AsVisitsConcat(path: string, a: seq<Found>, b: seq<Found>)
    ensures AsVisits(path, a + b) == AsVisits(path, a) + AsVisits(path, b)
  {
  }

  /** What is found in a value under a key. */
  function FindUnder(key: string, v: Value, inArray: bool, path: string): seq<Found> {
    if key == path then FindHere(v, inArray) else if Below(key, path) then FindBelow(v, Rest(key, path)) else []
  }

  function FindUnderAll(key: string, vs: seq<Value>, path: string): seq<Found> {
    if key == path then FindHereInAll(vs) else if Below(key, path) then FindBelowInAll(vs, Rest(key, path)) else []
  }

  function FindUnderBase(base: Option<string>, fields: seq<Field>, path: string): seq<Found> {
    match base
    case None => FindInFields(fields, path)
    case Some(b) => if Below(b, path) then FindInFields(fields, Rest(b, path)) else []
  }

  lemma FindUnderBaseStep(base: Option<string>, fields: seq<Field>, path: string)
    requires fields != []
    ensures FindUnderBase(base, fields, path) ==
            FindUnder(FullKey(base, fields[0].key), fields[0].value, false, path) +
            FindUnderBase(base, fields[1..], path)
  {
    if base.Some? {
      LongerKey(base.value, fields[0].key, path);
    }
    hide FindHere, FindBelow;
  }

  lemma EnteredFirst(key: string, v: Value, path: string)
    ensures ReachedAt([Entered(key, v)], path) == []
  {
  }

  lemma {:induction false} ObjectFinds(base: Option<string>, fields: seq<Field>, path: string)
    ensures ReachedAt(TraceObject(base, fields), path) == AsVisits(path, FindUnderBase(base, fields, path))
    decreases fields, 0
  {
    if fields != [] {
      var key, v := FullKey(base, fields[0].key), fields[0].value;
      var first, value, more := [Entered(key, v)], TraceValue(key, v, false), TraceObject(base, fields[1..]);
      assert TraceObject(base, fields) == first + value + more;
      hide TraceObject, TraceValue, ReachedAt, FindUnder, FindUnderBase, AsVisits;
      ReachedAtConcat(first, value, path);
      ReachedAtConcat(first + value, more, path);
      EnteredFirst(key, v, path);
      ValueFinds(key, v, false, path);
      ObjectFinds(base, fields[1..], path);
      FindUnderBaseStep(base, fields, path);
      AsVisitsConcat(path, FindUnder(key, v, false, path), FindUnderBase(base, fields[1..], path));
    }
  }

  lemma {:induction false} ArrayFinds(key: string, vs: seq<Value>, path: string)
    ensures ReachedAt(TraceArray(key, vs), path) == AsVisits(path, FindUnderAll(key, vs, path))
    decreases vs, 0
  {
    if vs != [] {
      ReachedAtConcat(TraceValue(key, vs[0], true), TraceArray(key, vs[1..]), path);
      ValueFinds(key, vs[0], true, path);
      ArrayFinds(key, vs[1..], path);
      hide TraceValue, ReachedAt, AsVisits;
      FindUnderAllStep(key, vs, path);
      AsVisitsConcat(path, FindUnder(key, vs[0], true, path), FindUnderAll(key, vs[1..], path));
    }
  }

  lemma FindUnderAllStep(key: string, vs: seq<Value>, path: string)
    requires vs != []
    ensures FindUnderAll(key, vs, path) == FindUnder(key, vs[0], true, path) + FindUnderAll(key, vs[1..], path)
  {
    hide FindHere, FindBelow;
  }

  lemma {:induction false} ValueFinds(key: string, v: Value, fromArray: bool, path: string)
    ensures ReachedAt(TraceValue(key, v, fromArray), path) == AsVisits(path, FindUnder(key, v, fromArray, path))
    decreases v, 1
  {
    match v
    case Array(vs) => ArrayFinds(key, vs, path);
    case Object(fs) =>
      ObjectFinds(Some(key), fs, path);
      NotBelowItself(key);
    case _ =>
      var only := [Reached(key, v, fromArray)];
      assert only[..0] == [];
      assert ReachedAt(only[..0], path) == [];
  }

  // ---------- The fields ----------

  function FieldUnder(key: string, v: Value, path: string): Option<Value> {
    if Below(key, path) then FieldBelow(v, Rest(key, path)) else None
  }

  function FieldUnderAll(key: string, vs: seq<Value>, path: string): Option<Value> {
    if Below(key, path) then FieldBelowInAll(vs, Rest(key, path)) else None
  }

  function FieldUnderBase(base: Option<string>, fields: seq<Field>, path: string): Option<Value> {
    match base
    case None => FieldInFields(fields, path)
    case Some(b) => if Below(b, path) then FieldInFields(fields, Rest(b, path)) else None
  }

  function OrElse(a: Option<Value>, b: Option<Value>): Option<Value> {
    if a.Some? then a else b
  }

  lemma FieldUnderBaseStep(base: Option<string>, fields: seq<Field>, path: string)
    requires fields != []
    ensures var key := FullKey(base, fields[0].key);
            FieldUnderBase(base, fields, path) ==
            if key == path then Some(fields[0].value)
            else OrElse(FieldUnder(key, fields[0].value, path), FieldUnderBase(base, fields[1..], path))
  {
    if base.Some? {
      LongerKey(base.value, fields[0].key, path);
    }
    hide FieldBelow;
  }

  lemma {:induction false} FirstEnteredConcat(a: seq<Visit>, b: seq<Visit>, path: string)
    ensures FirstEntered(a + b, path) == OrElse(FirstEntered(a, path), FirstEntered(b, path))
    decreases |a|
  {
    if a == [] {
      assert a + b == b;
    } else {
      assert (a + b)[1..] == a[1..] + b;
      FirstEnteredConcat(a[1..], b, path);
    }
  }

  lemma {:induction false} ObjectFields(base: Option<string>, fields: seq<Field>, path: string)
    ensures FirstEntered(TraceObject(base, fields), path) == FieldUnderBase(base, fields, path)
    decreases fields, 0
  {
    if fields != [] {
      var key, v := FullKey(base, fields[0].key), fields[0].value;
      var first, value, more := [Entered(key, v)], TraceValue(key, v, false), TraceObject(base, fields[1..]);
      assert TraceObject(base, fields) == first + value + more;
      hide TraceObject, TraceValue, FieldUnder, FieldUnderBase;
      FirstEnteredConcat(first, value, path);
      FirstEnteredConcat(first + value, more, path);
      assert first[1..] == [] && FirstEntered(first, path) == if key == path then Some(v) else None;
      ValueFields(key, v, false, path);
      ObjectFields(base, fields[1..], path);
      FieldUnderBaseStep(base, fields, path);
    }
  }

  lemma {:induction false} ArrayFields(key: string, vs: seq<Value>, path: string)
    ensures FirstEntered(TraceArray(key, vs), path) == FieldUnderAll(key, vs, path)
    decreases vs, 0
  {
    if vs != [] {
      FirstEnteredConcat(TraceValue(key, vs[0], true), TraceArray(key, vs[1..]), path);
      ValueFields(key, vs[0], true, path);
      ArrayFields(key, vs[1..], path);
    }
  }

  lemma {:induction false} ValueFields(key: string, v: Value, fromArray: bool, path: string)
    ensures FirstEntered(TraceValue(key, v, fromArray), path) == FieldUnder(key, v, path)
    decreases v, 1
  {
    match v
    case Array(vs) => ArrayFields(key, vs, path);
    case Object(fs) => ObjectFields(Some(key), fs, path);
    case _ =>
      var only := [Reached(key, v, fromArray)];
      assert only[1..] == [];
  }

  // ---------- The result ----------

  /**
   Flattening answers every path in advance: a path is a key of the result exactly if it leads to a
   field, and the value there is what following the path finds.
   */
  lemma FlattenResolves(document: seq<Field>, out: map<string, Value>, path: string)
    requires IsFlattening(document, out)
    ensures Resolve(document, path) == if path in out then Some(out[path]) else None
  {
    var trace := TraceObject(None, document);
    ObjectFinds(None, document, path);
    ObjectFields(None, document, path);
    FirstEnteredIs(trace, path);
    var found := FindInFields(document, path);
    assert Values(AsVisits(path, found)) == FoundValues(found);
    hide TraceObject, ReachedAt, FirstEntered, FindInFields, FieldInFields;
  }
}
