/**
 Flattening of documents (crates/flatten-serde-json/src/lib.rs): the traversal that accumulates
 values in place, and what its result is in terms of the scalars reached at each path.
 */
module Flatten {
  import opened Basics
  import opened Json
  import opened DepthChecker

  // ---------- What the traversal meets, in order ----------

  /** A field is entered under its full path, or a scalar is reached at a path. */
  datatype Visit = Entered(path: string, value: Value) | Reached(path: string, value: Value, fromArray: bool)

  function FullKey(base: Option<string>, key: string): string {
    match base
    case None => key
    case Some(b) => b + "." + key
  }

  function TraceObject(base: Option<string>, fields: seq<Field>): seq<Visit>
    decreases fields, 0
  {
    if fields == [] then []
    else
      var key := FullKey(base, fields[0].key);
      [Entered(key, fields[0].value)] + TraceValue(key, fields[0].value, false) + TraceObject(base, fields[1..])
  }

  function TraceArray(key: string, values: seq<Value>): seq<Visit>
    decreases values, 0
  {
    if values == [] then [] else TraceValue(key, values[0], true) + TraceArray(key, values[1..])
  }

  function TraceValue(key: string, v: Value, fromArray: bool): seq<Visit>
    decreases v, 1
  {
    match v
    case Array(vs) => TraceArray(key, vs)
    case Object(fs) => TraceObject(Some(key), fs)
    case _ => [Reached(key, v, fromArray)]
  }

  // ---------- The code ----------

  /** `insert_value`: the new content of the map. */
  function Insert(base: map<string, Value>, key: string, v: Value, fromArray: bool): map<string, Value> {
    if key in base then
      if base[key].Array? then base[key := Array(base[key].elements + [v])]
      else base[key := Array([base[key], v])]
    else if fromArray then base[key := Array([v])]
    else base[key := v]
  }

  /** The effect of a trace on the map and on the list of entries. */
  function Replay(base: map<string, Value>, trace: seq<Visit>): map<string, Value>
    decreases |trace|
  {
    if trace == [] then base
    else match trace[0]
      case Entered(_, _) => Replay(base, trace[1..])
      case Reached(path, v, fromArray) => Replay(Insert(base, path, v, fromArray), trace[1..])
  }

  function EntriesOf(trace: seq<Visit>): seq<Field> {
    if trace == [] then []
    else match trace[0]
      case Entered(path, v) => [Field(path, v)] + EntriesOf(trace[1..])
      case Reached(_, _, _) => EntriesOf(trace[1..])
  }

  lemma {:induction false} ReplayConcat(base: map<string, Value>, a: seq<Visit>, b: seq<Visit>)
    ensures Replay(base, a + b) == Replay(Replay(base, a), b)
    ensures EntriesOf(a + b) == EntriesOf(a) + EntriesOf(b)
    decreases |a|
  {
    if a == [] {
      assert a + b == b;
    } else {
      assert (a + b)[1..] == a[1..] + b;
      var next := if a[0].Entered? then base else Insert(base, a[0].path, a[0].value, a[0].fromArray);
      ReplayConcat(next, a[1..], b);
    }
  }

  lemma ObjectStep(base: map<string, Value>, baseKey: Option<string>, fields: seq<Field>)
    requires fields != []
    ensures var key := FullKey(baseKey, fields[0].key);
            var value := TraceValue(key, fields[0].value, false);
            var rest := TraceObject(baseKey, fields[1..]);
            && Replay(base, TraceObject(baseKey, fields)) == Replay(Replay(base, value), rest)
            && EntriesOf(TraceObject(baseKey, fields)) ==
               [Field(key, fields[0].value)] + EntriesOf(value) + EntriesOf(rest)
  {
    var key := FullKey(baseKey, fields[0].key);
    var first, value := [Entered(key, fields[0].value)], TraceValue(key, fields[0].value, false);
    ReplayConcat(base, first, value);
    ReplayConcat(base, first + value, TraceObject(baseKey, fields[1..]));
    assert first[1..] == [];
    assert Replay(base, first) == base && EntriesOf(first) == [Field(key, fields[0].value)];
    hide Replay, EntriesOf, TraceValue;
  }

  lemma ArrayStep(base: map<string, Value>, key: string, values: seq<Value>)
    requires values != []
    ensures var value, rest := TraceValue(key, values[0], true), TraceArray(key, values[1..]);
            && Replay(base, TraceArray(key, values)) == Replay(Replay(base, value), rest)
            && EntriesOf(TraceArray(key, values)) == EntriesOf(value) + EntriesOf(rest)
  {
    ReplayConcat(base, TraceValue(key, values[0], true), TraceArray(key, values[1..]));
  }

  lemma NothingLeft(base: map<string, Value>, baseKey: Option<string>, key: string)
    ensures Replay(base, TraceObject(baseKey, [])) == base && EntriesOf(TraceObject(baseKey, [])) == []
    ensures Replay(base, TraceArray(key, [])) == base && EntriesOf(TraceArray(key, [])) == []
  {
  }

  lemma Assoc(a: seq<Field>, b: seq<Field>, c: seq<Field>, d: seq<Field>)
    ensures a + (b + c + d) == a + b + c + d
  {
  }

  class Flattener {
    var baseJson: map<string, Value>
    var allEntries: seq<Field>

    constructor ()
      ensures baseJson == map[] && allEntries == []
    {
      baseJson, allEntries := map[], [];
    }

    method InsertObject(baseKey: Option<string>, fields: seq<Field>)
      modifies this
      ensures baseJson == Replay(old(baseJson), TraceObject(baseKey, fields))
      ensures allEntries == old(allEntries) + EntriesOf(TraceObject(baseKey, fields))
      decreases fields, 0
    {
      hide Replay, EntriesOf, TraceObject, TraceValue, Insert, Holds, AllScalars;
      ghost var all := TraceObject(baseKey, fields);
      assert fields[0..] == fields;
      var i := 0;
      while i < |fields|
        invariant 0 <= i <= |fields|
        invariant Replay(old(baseJson), all) == Replay(baseJson, TraceObject(baseKey, fields[i..]))
        invariant old(allEntries) + EntriesOf(all) == allEntries + EntriesOf(TraceObject(baseKey, fields[i..]))
      {
        var newKey := FullKey(baseKey, fields[i].key);
        ObjectStep(baseJson, baseKey, fields[i..]);
        assert fields[i..][1..] == fields[i + 1..];
        Assoc(allEntries, [Field(newKey, fields[i].value)], EntriesOf(TraceValue(newKey, fields[i].value, false)),
              EntriesOf(TraceObject(baseKey, fields[i + 1..])));
        allEntries := allEntries + [Field(newKey, fields[i].value)];
        InsertOne(newKey, fields[i].value, false);
        i := i + 1;
      }
      assert fields[i..] == [];
      NothingLeft(baseJson, baseKey, "");
    }

    method InsertArray(baseKey: string, values: seq<Value>)
      modifies this
      ensures baseJson == Replay(old(baseJson), TraceArray(baseKey, values))
      ensures allEntries == old(allEntries) + EntriesOf(TraceArray(baseKey, values))
      decreases values, 0
    {
      hide Replay, EntriesOf, TraceArray, TraceValue, Insert, Holds, AllScalars;
      ghost var all := TraceArray(baseKey, values);
      assert values[0..] == values;
      var i := 0;
      while i < |values|
        invariant 0 <= i <= |values|
        invariant Replay(old(baseJson), all) == Replay(baseJson, TraceArray(baseKey, values[i..]))
        invariant old(allEntries) + EntriesOf(all) == allEntries + EntriesOf(TraceArray(baseKey, values[i..]))
      {
        ArrayStep(baseJson, baseKey, values[i..]);
        assert values[i..][1..] == values[i + 1..];
        Assoc(allEntries, [], EntriesOf(TraceValue(baseKey, values[i], true)),
              EntriesOf(TraceArray(baseKey, values[i + 1..])));
        InsertOne(baseKey, values[i], true);
        i := i + 1;
      }
      assert values[i..] == [];
      NothingLeft(baseJson, None, baseKey);
    }

    /** The dispatch on the kind of value that both loops make. */
    method InsertOne(key: string, value: Value, cameFromArray: bool)
      modifies this
      ensures baseJson == Replay(old(baseJson), TraceValue(key, value, cameFromArray))
      ensures allEntries == old(allEntries) + EntriesOf(TraceValue(key, value, cameFromArray))
      decreases value, 1
    {
      match value {
        case Array(vs) => InsertArray(key, vs);
        case Object(fs) => InsertObject(Some(key), fs);
        case _ =>
          InsertValue(key, value, cameFromArray);
          assert Replay(old(baseJson), [Reached(key, value, cameFromArray)]) == baseJson;
      }
    }

    /**
     The map goes on holding, at this path, all scalars that have reached it, the new one last, and
     keeps what it has at every other path.
     */
    method InsertValue(key: string, toInsert: Value, cameFromArray: bool)
      requires IsScalar(toInsert)
      modifies this`baseJson
      ensures baseJson == Insert(old(baseJson), key, toInsert, cameFromArray)
      ensures forall visits :: AllScalars(visits) && Holds(old(baseJson), visits, key) ==>
                Holds(baseJson, visits + [Reached(key, toInsert, cameFromArray)], key)
      ensures forall path, visits :: path != key && Holds(old(baseJson), visits, path) ==>
                Holds(baseJson, visits, path)
    {
      if key in baseJson {
        if baseJson[key].Array? {
          baseJson := baseJson[key := Array(baseJson[key].elements + [toInsert])];
        } else {
          baseJson := baseJson[key := Array([baseJson[key], toInsert])];
        }
      } else if cameFromArray {
        baseJson := baseJson[key := Array([toInsert])];
      } else {
        baseJson := baseJson[key := toInsert];
      }
      forall visits | AllScalars(visits) && Holds(old(baseJson), visits, key)
        ensures Holds(baseJson, visits + [Reached(key, toInsert, cameFromArray)], key)
      {
        InsertHolds(old(baseJson), visits, Reached(key, toInsert, cameFromArray));
      }
    }
  }

  // ---------- The specification ----------

  /** The scalars that reach a path, in traversal order. */
  function ReachedAt(trace: seq<Visit>, path: string): seq<Visit> {
    if trace == [] then []
    else
      var before := ReachedAt(trace[..|trace| - 1], path);
      var last := trace[|trace| - 1];
      if last.Reached? && last.path == path then before + [last] else before
  }

  function Values(visits: seq<Visit>): seq<Value> {
    seq(|visits|, i requires 0 <= i < |visits| => visits[i].value)
  }

  /** A bare scalar if there is one and it did not come from an array, else the array of all of them. */
  function Gathered(visits: seq<Visit>): Value
    requires visits != [] && visits[0].Reached?
  {
    if |visits| == 1 && !visits[0].fromArray then visits[0].value else Array(Values(visits))
  }

  /** The value under which a path was entered first. */
  function FirstEntered(trace: seq<Visit>, path: string): Option<Value> {
    if trace == [] then None
    else if trace[0].Entered? && trace[0].path == path then Some(trace[0].value)
    else FirstEntered(trace[1..], path)
  }

  lemma ReachedAtFacts(trace: seq<Visit>, path: string)
    ensures forall i :: 0 <= i < |ReachedAt(trace, path)| ==>
              var x := ReachedAt(trace, path)[i]; x.Reached? && x.path == path && x in trace
    decreases |trace|
  {
  }

  predicate ScalarsOnly(trace: seq<Visit>) {
    forall i :: 0 <= i < |trace| && trace[i].Reached? ==> IsScalar(trace[i].value)
  }

  /** What the accumulating map holds at a path is determined by the scalars that reached it. */
  ghost predicate Holds(m: map<string, Value>, visits: seq<Visit>, path: string) {
    if visits == [] then path !in m
    else visits[0].Reached? && path in m && m[path] == Gathered(visits)
  }

  predicate AllScalars(visits: seq<Visit>) {
    forall i :: 0 <= i < |visits| ==> visits[i].Reached? && IsScalar(visits[i].value)
  }

  lemma InsertHolds(m: map<string, Value>, visits: seq<Visit>, x: Visit)
    requires x.Reached? && IsScalar(x.value)
    requires AllScalars(visits)
    requires Holds(m, visits, x.path)
    ensures Holds(Insert(m, x.path, x.value, x.fromArray), visits + [x], x.path)
  {
  }

  lemma ReachedScalars(trace: seq<Visit>, path: string)
    requires ScalarsOnly(trace)
    ensures AllScalars(ReachedAt(trace, path))
  {
    ReachedAtFacts(trace, path);
  }

  /** The in-place accumulation gathers the scalars path by path. */
  lemma {:induction false} ReplayGathers(trace: seq<Visit>, path: string)
    requires ScalarsOnly(trace)
    ensures Holds(Replay(map[], trace), ReachedAt(trace, path), path)
    decreases |trace|
  {
    if trace != [] {
      var before, last := trace[..|trace| - 1], trace[|trace| - 1];
      assert trace == before + [last];
      ReplayConcat(map[], before, [last]);
      ReplayGathers(before, path);
      ReachedScalars(before, path);
      var m := Replay(map[], before);
      if last.Reached? {
        assert Replay(m, [last]) == Insert(m, last.path, last.value, last.fromArray);
        hide Replay, AllScalars, Gathered;
        if last.path == path {
          InsertHolds(m, ReachedAt(before, path), last);
        }
      }
    }
  }

  // ---------- Facts about the trace ----------

  function EnteredPaths(trace: seq<Visit>): set<string> {
    set i | 0 <= i < |trace| && trace[i].Entered? :: trace[i].path
  }

  /** Scalars only, and every path reached has been entered, except possibly the given one. */
  predicate ProperTrace(trace: seq<Visit>, key: Option<string>) {
    && ScalarsOnly(trace)
    && forall i :: 0 <= i < |trace| && trace[i].Reached? ==>
         trace[i].path in EnteredPaths(trace) || key == Some(trace[i].path)
  }

  lemma EnteredPathsConcat(a: seq<Visit>, b: seq<Visit>)
    ensures EnteredPaths(a + b) == EnteredPaths(a) + EnteredPaths(b)
  {
    var t := a + b;
    forall p | p in EnteredPaths(a) ensures p in EnteredPaths(t) {
      var i :| 0 <= i < |a| && a[i].Entered? && a[i].path == p;
      assert t[i] == a[i];
    }
    forall p | p in EnteredPaths(b) ensures p in EnteredPaths(t) {
      var i :| 0 <= i < |b| && b[i].Entered? && b[i].path == p;
      assert t[|a| + i] == b[i];
    }
  }

  lemma ProperConcat(a: seq<Visit>, b: seq<Visit>, key: Option<string>)
    requires ProperTrace(a, key) && ProperTrace(b, key)
    ensures ProperTrace(a + b, key)
  {
    EnteredPathsConcat(a, b);
  }

  lemma {:induction false} ObjectTraceIsProper(base: Option<string>, fields: seq<Field>)
    ensures ProperTrace(TraceObject(base, fields), None)
    decreases fields, 0
  {
    if fields != [] {
      var key := FullKey(base, fields[0].key);
      var first := [Entered(key, fields[0].value)];
      var value := TraceValue(key, fields[0].value, false);
      ValueTraceIsProper(key, fields[0].value, false);
      EnteredPathsConcat(first, value);
      assert key in EnteredPaths(first) by { assert first[0].path == key; }
      assert ProperTrace(first + value, None);
      ObjectTraceIsProper(base, fields[1..]);
      ProperConcat(first + value, TraceObject(base, fields[1..]), None);
    }
  }

  lemma {:induction false} ArrayTraceIsProper(key: string, values: seq<Value>)
    ensures ProperTrace(TraceArray(key, values), Some(key))
    decreases values, 0
  {
    if values != [] {
      ValueTraceIsProper(key, values[0], true);
      ArrayTraceIsProper(key, values[1..]);
      ProperConcat(TraceValue(key, values[0], true), TraceArray(key, values[1..]), Some(key));
    }
  }

  lemma {:induction false} ValueTraceIsProper(key: string, v: Value, fromArray: bool)
    ensures ProperTrace(TraceValue(key, v, fromArray), Some(key))
    decreases v, 1
  {
    match v
    case Array(vs) => ArrayTraceIsProper(key, vs);
    case Object(fs) => ObjectTraceIsProper(Some(key), fs);
    case _ =>
  }

  // ---------- The result ----------

  /**
   What flattening a document means: the keys are exactly the paths of its fields; a path reached
   by scalars holds all of them in order, any other path holds the value it was first entered with.
   */
  ghost predicate IsFlattening(document: seq<Field>, out: map<string, Value>) {
    var trace := TraceObject(None, document);
    && out.Keys == EnteredPaths(trace)
    && forall path :: path in out ==>
         var visits := ReachedAt(trace, path);
         if visits != [] then visits[0].Reached? && out[path] == Gathered(visits)
         else FirstEntered(trace, path) == Some(out[path])
  }

  lemma {:induction false} FirstEnteredIs(trace: seq<Visit>, path: string)
    ensures FirstEntered(trace, path) ==
            FirstField(EntriesOf(trace), path)
    ensures path in EnteredPaths(trace) <==> FirstEntered(trace, path).Some?
    decreases |trace|
  {
    if trace != [] {
      FirstEnteredIs(trace[1..], path);
      assert [trace[0]] + trace[1..] == trace;
      EnteredPathsConcat([trace[0]], trace[1..]);
      assert path in EnteredPaths([trace[0]]) <==> trace[0].Entered? && trace[0].path == path by {
        assert [trace[0]][0] == trace[0];
      }
      if trace[0].Entered? {
        assert EntriesOf(trace)[1..] == EntriesOf(trace[1..]);
      }
    }
  }

  /** The value of the first field with the key. */
  function FirstField(fields: seq<Field>, key: string): Option<Value> {
    if fields == [] then None
    else if fields[0].key == key then Some(fields[0].value)
    else FirstField(fields[1..], key)
  }

  /** The map completed by the fields whose keys are missing; earlier fields win. */
  function Complete(base: map<string, Value>, fields: seq<Field>): map<string, Value>
    decreases |fields|
  {
    if fields == [] then base
    else Complete(if fields[0].key in base then base else base[fields[0].key := fields[0].value], fields[1..])
  }

  lemma {:induction false} CompleteFacts(base: map<string, Value>, fields: seq<Field>, key: string)
    ensures key in Complete(base, fields) <==> key in base || FirstField(fields, key).Some?
    ensures key in Complete(base, fields) ==>
              Complete(base, fields)[key] == if key in base then base[key] else FirstField(fields, key).value
    decreases |fields|
  {
    if fields != [] {
      CompleteFacts(if fields[0].key in base then base else base[fields[0].key := fields[0].value], fields[1..], key);
    }
  }

  /** `flatten`. */
  method FlattenDocument(json: seq<Field>) returns (obj: map<string, Value>)
    ensures IsFlattening(json, obj)
  {
    var state := new Flattener();
    state.InsertObject(None, json);
    obj := state.baseJson;
    var entries := state.allEntries;
    var i := 0;
    while i < |entries|
      invariant 0 <= i <= |entries|
      invariant Complete(state.baseJson, entries) == Complete(obj, entries[i..])
    {
      assert entries[i..][1..] == entries[i + 1..];
      if entries[i].key !in obj {
        obj := obj[entries[i].key := entries[i].value];
      }
      i := i + 1;
    }
    FlattenResult(json, obj);
  }

  lemma FlattenResult(json: seq<Field>, obj: map<string, Value>)
    requires var trace := TraceObject(None, json); obj == Complete(Replay(map[], trace), EntriesOf(trace))
    ensures IsFlattening(json, obj)
  {
    var trace := TraceObject(None, json);
    ObjectTraceIsProper(None, json);
    forall path
      ensures path in obj <==> path in EnteredPaths(trace)
      ensures path in obj ==>
                var visits := ReachedAt(trace, path);
                if visits != [] then visits[0].Reached? && obj[path] == Gathered(visits)
                else FirstEntered(trace, path) == Some(obj[path])
    {
      CompleteFacts(Replay(map[], trace), EntriesOf(trace), path);
      FirstEnteredIs(trace, path);
      ReplayGathers(trace, path);
      ReachedAtFacts(trace, path);
      var visits := ReachedAt(trace, path);
      if visits != [] {
        assert visits[0] in trace && visits[0].path == path;
      }
    }
  }

  // ---------- Conservation ----------

  /** The scalars of a value in document order, without any path. */
  function Scalars(v: Value): seq<Value>
    decreases v, 1
  {
    match v
    case Array(vs) => ScalarsOfAll(vs)
    case Object(fs) => ScalarsOfFields(fs)
    case _ => [v]
  }

  function ScalarsOfAll(vs: seq<Value>): seq<Value>
    decreases vs, 0
  {
    if vs == [] then [] else Scalars(vs[0]) + ScalarsOfAll(vs[1..])
  }

  function ScalarsOfFields(fs: seq<Field>): seq<Value>
    decreases fs, 0
  {
    if fs == [] then [] else Scalars(fs[0].value) + ScalarsOfFields(fs[1..])
  }

  function ReachedValues(trace: seq<Visit>): seq<Value> {
    if trace == [] then []
    else (if trace[0].Reached? then [trace[0].value] else []) + ReachedValues(trace[1..])
  }

  lemma {:induction false} ReachedValuesConcat(a: seq<Visit>, b: seq<Visit>)
    ensures ReachedValues(a + b) == ReachedValues(a) + ReachedValues(b)
    decreases |a|
  {
    if a == [] {
      assert a + b == b;
    } else {
      var first := if a[0].Reached? then [a[0].value] else [];
      assert (a + b)[1..] == a[1..] + b;
      ReachedValuesConcat(a[1..], b);
      assert ReachedValues(a) == first + ReachedValues(a[1..]);
      assert ReachedValues(a + b) == first + ReachedValues(a[1..] + b);
      hide ReachedValues;
    }
  }

  /** No scalar is lost, duplicated or reordered on the way to its path. */
  lemma {:induction false} ObjectScalarsConserved(base: Option<string>, fields: seq<Field>)
    ensures ReachedValues(TraceObject(base, fields)) == ScalarsOfFields(fields)
    decreases fields, 0
  {
    if fields != [] {
      var key := FullKey(base, fields[0].key);
      var first, value := [Entered(key, fields[0].value)], TraceValue(key, fields[0].value, false);
      ValueScalarsConserved(key, fields[0].value, false);
      ObjectScalarsConserved(base, fields[1..]);
      ReachedValuesConcat(first, value);
      ReachedValuesConcat(first + value, TraceObject(base, fields[1..]));
    }
  }

  lemma {:induction false} ArrayScalarsConserved(key: string, values: seq<Value>)
    ensures ReachedValues(TraceArray(key, values)) == ScalarsOfAll(values)
    decreases values, 0
  {
    if values != [] {
      ValueScalarsConserved(key, values[0], true);
      ArrayScalarsConserved(key, values[1..]);
      ReachedValuesConcat(TraceValue(key, values[0], true), TraceArray(key, values[1..]));
    }
  }

  lemma {:induction false} ValueScalarsConserved(key: string, v: Value, fromArray: bool)
    ensures ReachedValues(TraceValue(key, v, fromArray)) == Scalars(v)
    decreases v, 1
  {
    match v
    case Array(vs) => ArrayScalarsConserved(key, vs);
    case Object(fs) => ObjectScalarsConserved(Some(key), fs);
    case _ =>
  }

  lemma {:induction false} ReachedAtConcat(a: seq<Visit>, b: seq<Visit>, path: string)
    ensures ReachedAt(a + b, path) == ReachedAt(a, path) + ReachedAt(b, path)
    decreases |b|
  {
    if b == [] {
      assert a + b == a;
    } else {
      assert (a + b)[..|a + b| - 1] == a + b[..|b| - 1];
      ReachedAtConcat(a, b[..|b| - 1], path);
    }
  }

  /** The scalars found in the result, at the paths that scalars have reached. */
  function HeldScalars(trace: seq<Visit>, out: map<string, Value>, keys: seq<string>): multiset<Value>
    requires forall i :: 0 <= i < |keys| ==> keys[i] in out
  {
    if keys == [] then multiset{}
    else
      (if ReachedAt(trace, keys[0]) == [] then multiset{} else multiset(Scalars(out[keys[0]]))) +
      HeldScalars(trace, out, keys[1..])
  }

  function GatherAt(trace: seq<Visit>, keys: seq<string>): multiset<Value> {
    if keys == [] then multiset{} else multiset(Values(ReachedAt(trace, keys[0]))) + GatherAt(trace, keys[1..])
  }

  lemma ReachedOne(trace: seq<Visit>, x: Visit, path: string)
    ensures ReachedAt(trace + [x], path) ==
            if x.Reached? && x.path == path then ReachedAt(trace, path) + [x] else ReachedAt(trace, path)
  {
    assert (trace + [x])[..|trace|] == trace;
  }

  lemma ValuesOne(visits: seq<Visit>, x: Visit)
    ensures multiset(Values(visits + [x])) == multiset(Values(visits)) + multiset{x.value}
  {
    assert Values(visits + [x]) == Values(visits) + [x.value];
  }

  lemma FirstIsNotLater(keys: seq<string>, key: string)
    requires NoDuplicates(keys) && keys != []
    ensures NoDuplicates(keys[1..]) && keys[0] !in keys[1..]
    ensures key in keys <==> key == keys[0] || key in keys[1..]
  {
  }

  lemma GatherStep(trace: seq<Visit>, keys: seq<string>)
    requires keys != []
    ensures GatherAt(trace, keys) == multiset(Values(ReachedAt(trace, keys[0]))) + GatherAt(trace, keys[1..])
  {
  }

  lemma Shift(a: multiset<Value>, b: multiset<Value>, c: multiset<Value>)
    ensures a + c + b == a + b + c == a + (b + c)
  {
  }

  lemma {:induction false} GatherOne(trace: seq<Visit>, x: Visit, keys: seq<string>)
    requires NoDuplicates(keys)
    ensures GatherAt(trace + [x], keys) ==
            GatherAt(trace, keys) + if x.Reached? && x.path in keys then multiset{x.value} else multiset{}
    decreases |keys|
  {
    if keys != [] {
      hide ReachedAt, Values, NoDuplicates;
      ReachedOne(trace, x, keys[0]);
      ValuesOne(ReachedAt(trace, keys[0]), x);
      FirstIsNotLater(keys, x.path);
      GatherOne(trace, x, keys[1..]);
      GatherStep(trace, keys);
      GatherStep(trace + [x], keys);
      hide GatherAt;
      var here, later := multiset(Values(ReachedAt(trace, keys[0]))), GatherAt(trace, keys[1..]);
      if x.Reached? && x.path in keys {
        Shift(here, later, multiset{x.value});
      }
    }
  }

  lemma ReachedValuesOne(trace: seq<Visit>, x: Visit)
    ensures ReachedValues(trace + [x]) == ReachedValues(trace) + if x.Reached? then [x.value] else []
  {
    ReachedValuesConcat(trace, [x]);
    assert [x][1..] == [];
  }

  lemma {:induction false} GatherAll(trace: seq<Visit>, keys: seq<string>)
    requires NoDuplicates(keys)
    requires forall i :: 0 <= i < |trace| && trace[i].Reached? ==> trace[i].path in keys
    ensures GatherAt(trace, keys) == multiset(ReachedValues(trace))
    decreases |trace|
  {
    if trace == [] {
      GatherNothing(keys);
    } else {
      var before, last := trace[..|trace| - 1], trace[|trace| - 1];
      GatherAll(before, keys);
      assert trace == before + [last];
      GatherOne(before, last, keys);
      ReachedValuesOne(before, last);
    }
  }

  lemma GatherNothing(keys: seq<string>)
    ensures GatherAt([], keys) == multiset{}
  {
  }

  lemma {:induction false} ScalarsOfScalars(vs: seq<Value>)
    requires forall i :: 0 <= i < |vs| ==> IsScalar(vs[i])
    ensures ScalarsOfAll(vs) == vs
    decreases |vs|
  {
    if vs != [] {
      ScalarsOfScalars(vs[1..]);
      assert Scalars(vs[0]) == [vs[0]];
      assert ScalarsOfAll(vs) == Scalars(vs[0]) + ScalarsOfAll(vs[1..]);
      hide Scalars, ScalarsOfAll;
      assert [vs[0]] + vs[1..] == vs;
    }
  }

  /** What is gathered at a path needs no further flattening, and its scalars are those that came. */
  lemma GatheredScalars(visits: seq<Visit>)
    requires visits != [] && AllScalars(visits)
    ensures Scalars(Gathered(visits)) == Values(visits)
    ensures !ShouldFlattenValue(Gathered(visits))
  {
    ScalarsOfScalars(Values(visits));
    assert |visits| == 1 ==> Values(visits) == [visits[0].value];
  }

  lemma {:induction false} HeldIsGathered(trace: seq<Visit>, out: map<string, Value>, keys: seq<string>)
    requires ScalarsOnly(trace)
    requires forall i :: 0 <= i < |keys| ==>
               && keys[i] in out
               && var visits := ReachedAt(trace, keys[i]);
                  visits != [] ==> visits[0].Reached? && out[keys[i]] == Gathered(visits)
    ensures HeldScalars(trace, out, keys) == GatherAt(trace, keys)
    decreases |keys|
  {
    if keys != [] {
      var visits := ReachedAt(trace, keys[0]);
      ReachedScalars(trace, keys[0]);
      HeldIsGathered(trace, out, keys[1..]);
      hide ReachedAt, Gathered, Scalars;
      if visits != [] {
        GatheredScalars(visits);
      }
    }
  }

  /**
   No scalar is lost or duplicated: over any listing of the keys of the result, the scalars held at
   the paths that scalars reach are together exactly the scalars of the document.
   */
  lemma ScalarsConserved(document: seq<Field>, out: map<string, Value>, keys: seq<string>)
    requires IsFlattening(document, out) && NoDuplicates(keys) && Elements(keys) == out.Keys
    ensures forall i :: 0 <= i < |keys| ==> keys[i] in Elements(keys)
    ensures HeldScalars(TraceObject(None, document), out, keys) == multiset(ScalarsOfFields(document))
  {
    var trace := TraceObject(None, document);
    ObjectTraceIsProper(None, document);
    ObjectScalarsConserved(None, document);
    forall i | 0 <= i < |trace| && trace[i].Reached? ensures trace[i].path in keys {
      assert trace[i].path in Elements(keys);
    }
    forall i | 0 <= i < |keys| ensures keys[i] in out {
      assert keys[i] in Elements(keys);
    }
    hide TraceObject, ScalarsOfFields, ReachedAt, Gathered;
    GatherAll(trace, keys);
    HeldIsGathered(trace, out, keys);
  }
}
