/**
 When flattening changes nothing (crates/flatten-serde-json/src/lib.rs with
 crates/json-depth-checker/src/lib.rs): the exact condition on a document, the licence to skip the
 flattening that the fast check gives, and the exact condition for flattening to be idempotent.
 */
module FlattenUnchanged {
  import opened Basics
  import opened Json
  import opened DepthChecker
  import opened Flatten

  predicate DistinctKeys(fields: seq<Field>) {
    forall i, j :: 0 <= i < j < |fields| ==> fields[i].key != fields[j].key
  }

  function KeySet(fields: seq<Field>): set<string> {
    set i | 0 <= i < |fields| :: fields[i].key
  }

  /** The map has exactly the fields of the document. */
  ghost predicate Unchanged(document: seq<Field>, out: map<string, Value>) {
    && out.Keys == KeySet(document)
    && forall i :: 0 <= i < |document| ==> document[i].key in out && out[document[i].key] == document[i].value
  }

  // ---------- Values that reach nothing but their own path ----------

  /** Nothing but scalars reaching the path. */
  predicate AllAt(visits: seq<Visit>, key: string) {
    forall i :: 0 <= i < |visits| ==> visits[i].Reached? && visits[i].path == key
  }

  lemma {:induction false} ReachedAtAll(visits: seq<Visit>, key: string, path: string)
    requires AllAt(visits, key)
    ensures ReachedAt(visits, path) == if path == key then visits else []
    decreases |visits|
  {
    if visits != [] {
      var before := visits[..|visits| - 1];
      ReachedAtAll(before, key, path);
      assert before + [visits[|visits| - 1]] == visits;
    }
  }

  lemma {:induction false} FlatArrayTrace(key: string, vs: seq<Value>)
    requires forall i :: 0 <= i < |vs| ==> IsScalar(vs[i])
    ensures |TraceArray(key, vs)| == |vs|
    ensures forall i :: 0 <= i < |vs| ==> TraceArray(key, vs)[i] == Reached(key, vs[i], true)
    decreases |vs|
  {
    if vs != [] {
      FlatArrayTrace(key, vs[1..]);
      assert TraceValue(key, vs[0], true) == [Reached(key, vs[0], true)];
    }
  }

  /** A value that need not be flattened is gathered into itself. */
  lemma FlatValue(key: string, v: Value)
    requires !ShouldFlattenValue(v)
    ensures var visits := TraceValue(key, v, false);
            && AllAt(visits, key)
            && (if visits == [] then v == Array([]) else Gathered(visits) == v)
  {
    if v.Array? {
      FlatArrayTrace(key, v.elements);
      assert Values(TraceArray(key, v.elements)) == v.elements;
    }
  }

  lemma {:induction false} NothingReached(trace: seq<Visit>, path: string)
    requires forall i :: 0 <= i < |trace| ==> !trace[i].Reached?
    ensures ReachedAt(trace, path) == []
    decreases |trace|
  {
    if trace != [] {
      NothingReached(trace[..|trace| - 1], path);
    }
  }

  lemma {:induction false} NoReachedVisit(trace: seq<Visit>)
    requires ReachedValues(trace) == []
    ensures forall i :: 0 <= i < |trace| ==> !trace[i].Reached?
    decreases |trace|
  {
    if trace != [] {
      NoReachedVisit(trace[1..]);
    }
  }

  /** No flattening needed, or no scalar to move. */
  predicate Steady(v: Value) {
    !ShouldFlattenValue(v) || Scalars(v) == []
  }

  lemma SteadyReaches(key: string, v: Value, path: string)
    requires Steady(v)
    ensures ReachedAt(TraceValue(key, v, false), path) ==
            if path == key && !ShouldFlattenValue(v) then TraceValue(key, v, false) else []
  {
    if ShouldFlattenValue(v) {
      ValueScalarsConserved(key, v, false);
      NoReachedVisit(TraceValue(key, v, false));
      NothingReached(TraceValue(key, v, false), path);
    } else {
      FlatValue(key, v);
      ReachedAtAll(TraceValue(key, v, false), key, path);
    }
  }

  lemma EnteredReachesNothing(key: string, v: Value, path: string)
    ensures ReachedAt([Entered(key, v)], path) == []
  {
  }

  lemma ReachedStep(fields: seq<Field>, path: string)
    requires fields != []
    ensures var key := fields[0].key;
            ReachedAt(TraceObject(None, fields), path) ==
            ReachedAt(TraceValue(key, fields[0].value, false), path) + ReachedAt(TraceObject(None, fields[1..]), path)
  {
    hide ReachedAt, TraceValue;
    var key := fields[0].key;
    var first, value, more := [Entered(key, fields[0].value)], TraceValue(key, fields[0].value, false),
      TraceObject(None, fields[1..]);
    assert TraceObject(None, fields) == first + value + more;
    hide TraceObject;
    ReachedAtConcat(first, value, path);
    ReachedAtConcat(first + value, more, path);
    EnteredReachesNothing(key, fields[0].value, path);
  }

  lemma {:induction false} AbsentFromTrace(fields: seq<Field>, path: string)
    requires forall i :: 0 <= i < |fields| ==> fields[i].key != path && Steady(fields[i].value)
    ensures ReachedAt(TraceObject(None, fields), path) == []
    decreases |fields|
  {
    if fields != [] {
      ReachedStep(fields, path);
      SteadyReaches(fields[0].key, fields[0].value, path);
      AbsentFromTrace(fields[1..], path);
    }
  }

  /** If every value is steady, a key is reached by nothing but its own value. */
  lemma {:induction false} SteadyObject(fields: seq<Field>, k: nat)
    requires DistinctKeys(fields) && k < |fields|
    requires forall i :: 0 <= i < |fields| ==> Steady(fields[i].value)
    ensures var v := fields[k].value;
            ReachedAt(TraceObject(None, fields), fields[k].key) ==
            if ShouldFlattenValue(v) then [] else TraceValue(fields[k].key, v, false)
    decreases |fields|
  {
    hide TraceValue, TraceObject, ReachedAt, Steady;
    ReachedStep(fields, fields[k].key);
    SteadyReaches(fields[0].key, fields[0].value, fields[k].key);
    if k == 0 {
      AbsentFromTrace(fields[1..], fields[0].key);
    } else {
      SteadyObject(fields[1..], k - 1);
    }
  }

  // ---------- The exact condition ----------

  /** The value at hand is also the one the path was first entered with. */
  predicate FirstAtKey(fields: seq<Field>, i: nat)
    requires i < |fields|
  {
    FirstEntered(TraceObject(None, fields), fields[i].key) == Some(fields[i].value)
  }

  /**
   A document that stays as it is: no scalar has to move, no field is found below that is not also
   listed at the top, and where there are no scalars the listed value is the first one found.
   */
  predicate StaysPut(document: seq<Field>) {
    && (forall i :: 0 <= i < |document| ==> Steady(document[i].value))
    && EnteredPaths(TraceObject(None, document)) <= KeySet(document)
    && (forall i :: 0 <= i < |document| && Scalars(document[i].value) == [] ==> FirstAtKey(document, i))
  }

  lemma {:induction false} KeysAreEntered(fields: seq<Field>)
    ensures KeySet(fields) <= EnteredPaths(TraceObject(None, fields))
    decreases |fields|
  {
    if fields != [] {
      var key := fields[0].key;
      var first, value := [Entered(key, fields[0].value)], TraceValue(key, fields[0].value, false);
      EnteredPathsConcat(first, value);
      EnteredPathsConcat(first + value, TraceObject(None, fields[1..]));
      assert key in EnteredPaths(first) by { assert first[0].path == key; }
      KeysAreEntered(fields[1..]);
      hide EnteredPaths, TraceObject, TraceValue;
      forall i | 0 < i < |fields| ensures fields[i].key in KeySet(fields[1..]) {
        assert fields[1..][i - 1].key == fields[i].key;
      }
    }
  }

  lemma StaysPutIsKept(document: seq<Field>, out: map<string, Value>)
    requires DistinctKeys(document) && IsFlattening(document, out) && StaysPut(document)
    ensures Unchanged(document, out)
  {
    KeysAreEntered(document);
    forall i | 0 <= i < |document|
      ensures document[i].key in out && out[document[i].key] == document[i].value
    {
      var key, v := document[i].key, document[i].value;
      assert key in KeySet(document);
      SteadyObject(document, i);
      if !ShouldFlattenValue(v) {
        FlatValue(key, v);
        ScalarlessTrace(key, v);
      }
      hide TraceValue, TraceObject, Gathered, ReachedAt, Scalars, FirstEntered, ShouldFlattenValue;
    }
  }

  lemma ScalarlessTrace(key: string, v: Value)
    requires !ShouldFlattenValue(v)
    ensures TraceValue(key, v, false) == [] <==> Scalars(v) == []
  {
    ValueScalarsConserved(key, v, false);
    FlatValue(key, v);
    hide Scalars, TraceValue;
  }

  function KeysOf(fields: seq<Field>): (keys: seq<string>)
    ensures |keys| == |fields| && forall i :: 0 <= i < |keys| ==> keys[i] == fields[i].key
  {
    seq(|fields|, i requires 0 <= i < |fields| => fields[i].key)
  }

  /** The values keep their scalars where their keys are reached, and have none where they are not. */
  ghost predicate NoneAside(trace: seq<Visit>, fields: seq<Field>) {
    forall i :: 0 <= i < |fields| && ReachedAt(trace, fields[i].key) == [] ==> Scalars(fields[i].value) == []
  }

  lemma HeldStep(trace: seq<Visit>, out: map<string, Value>, fields: seq<Field>)
    requires fields != []
    requires forall i :: 0 <= i < |fields| ==> fields[i].key in out && out[fields[i].key] == fields[i].value
    ensures |HeldScalars(trace, out, KeysOf(fields))| ==
            |HeldScalars(trace, out, KeysOf(fields[1..]))| +
            if ReachedAt(trace, fields[0].key) == [] then 0 else |Scalars(fields[0].value)|
  {
    hide ReachedAt, Scalars;
    assert KeysOf(fields)[1..] == KeysOf(fields[1..]);
  }

  /** The listed values hold at least what has reached their keys; if no more, the others have no scalars. */
  lemma {:induction false} CountScalars(trace: seq<Visit>, out: map<string, Value>, fields: seq<Field>)
    requires forall i :: 0 <= i < |fields| ==> fields[i].key in out && out[fields[i].key] == fields[i].value
    ensures var held := |HeldScalars(trace, out, KeysOf(fields))|;
            held <= |ScalarsOfFields(fields)| && (held == |ScalarsOfFields(fields)| ==> NoneAside(trace, fields))
    decreases |fields|
  {
    if fields != [] {
      CountScalars(trace, out, fields[1..]);
      HeldStep(trace, out, fields);
      hide ReachedAt, Scalars, HeldScalars, KeysOf;
      assert |ScalarsOfFields(fields)| == |Scalars(fields[0].value)| + |ScalarsOfFields(fields[1..])|;
      hide ScalarsOfFields;
      if NoneAside(trace, fields[1..]) && (ReachedAt(trace, fields[0].key) == [] ==> Scalars(fields[0].value) == []) {
        assert forall i :: 0 < i < |fields| ==> fields[i] == fields[1..][i - 1];
      }
    }
  }

  lemma KeptScalars(document: seq<Field>, out: map<string, Value>, i: nat)
    requires DistinctKeys(document) && IsFlattening(document, out) && Unchanged(document, out) && i < |document|
    ensures ReachedAt(TraceObject(None, document), document[i].key) == [] ==> Scalars(document[i].value) == []
  {
    var trace, keys := TraceObject(None, document), KeysOf(document);
    hide TraceObject, ScalarsOfFields, Scalars, IsFlattening;
    assert Elements(keys) == out.Keys by {
      forall k | k in KeySet(document) ensures k in keys {
        var j :| 0 <= j < |document| && document[j].key == k;
        assert keys[j] == k;
      }
    }
    ScalarsConserved(document, out, keys);
    CountScalars(trace, out, document);
  }

  lemma KeptStaysPut(document: seq<Field>, out: map<string, Value>)
    requires DistinctKeys(document) && IsFlattening(document, out) && Unchanged(document, out)
    ensures StaysPut(document)
  {
    var trace := TraceObject(None, document);
    ObjectTraceIsProper(None, document);
    forall i | 0 <= i < |document|
      ensures Steady(document[i].value)
      ensures Scalars(document[i].value) == [] ==> FirstAtKey(document, i)
    {
      var visits := ReachedAt(trace, document[i].key);
      KeptScalars(document, out, i);
      ReachedScalars(trace, document[i].key);
      hide TraceObject, Gathered, ReachedAt, Scalars, FirstEntered, ShouldFlattenValue;
      if visits != [] {
        GatheredScalars(visits);
      }
    }
  }

  /**
   Exactly when flattening changes nothing, for every document.  That a value with scalars must be
   flat follows by counting: the scalars gathered at the keys are all the scalars there are.
   */
  lemma UnchangedIff(document: seq<Field>, out: map<string, Value>)
    requires DistinctKeys(document) && IsFlattening(document, out)
    ensures Unchanged(document, out) <==> StaysPut(document)
  {
    hide StaysPut, Unchanged, IsFlattening;
    if Unchanged(document, out) {
      KeptStaysPut(document, out);
    } else if StaysPut(document) {
      StaysPutIsKept(document, out);
    }
  }

  // ---------- Documents whose keys are independent ----------

  /** No field occurs in the value, so nothing below it is entered. */
  predicate Fieldless(v: Value) {
    match v
    case Array(vs) => forall i :: 0 <= i < |vs| ==> Fieldless(vs[i])
    case Object(fs) => fs == []
    case _ => true
  }

  lemma {:induction false} FieldlessTrace(key: string, v: Value, fromArray: bool)
    requires Fieldless(v)
    ensures AllAt(TraceValue(key, v, fromArray), key)
    decreases v, 1
  {
    if v.Array? {
      FieldlessArrayTrace(key, v.elements);
    }
  }

  lemma {:induction false} FieldlessArrayTrace(key: string, vs: seq<Value>)
    requires forall i :: 0 <= i < |vs| ==> Fieldless(vs[i])
    ensures AllAt(TraceArray(key, vs), key)
    decreases vs, 0
  {
    if vs != [] {
      FieldlessTrace(key, vs[0], true);
      FieldlessArrayTrace(key, vs[1..]);
    }
  }

  lemma {:induction false} SkipToEntered(a: seq<Visit>, b: seq<Visit>, path: string)
    requires forall i :: 0 <= i < |a| && a[i].Entered? ==> a[i].path != path
    ensures FirstEntered(a + b, path) == FirstEntered(b, path)
    decreases |a|
  {
    if a == [] {
      assert a + b == b;
    } else {
      assert (a + b)[1..] == a[1..] + b;
      SkipToEntered(a[1..], b, path);
    }
  }

  lemma {:induction false} FieldlessFirst(fields: seq<Field>, k: nat)
    requires DistinctKeys(fields) && k < |fields|
    requires forall i :: 0 <= i < |fields| ==> Fieldless(fields[i].value)
    ensures FirstAtKey(fields, k)
    decreases |fields|
  {
    if k > 0 {
      var key, path := fields[0].key, fields[k].key;
      var first, value, more := [Entered(key, fields[0].value)], TraceValue(key, fields[0].value, false),
        TraceObject(None, fields[1..]);
      FieldlessTrace(key, fields[0].value, false);
      FieldlessFirst(fields[1..], k - 1);
      SkipToEntered(first + value, more, path);
    }
  }

  lemma {:induction false} FieldlessKeys(fields: seq<Field>)
    requires forall i :: 0 <= i < |fields| ==> Fieldless(fields[i].value)
    ensures EnteredPaths(TraceObject(None, fields)) <= KeySet(fields)
    decreases |fields|
  {
    if fields != [] {
      var key := fields[0].key;
      var first, value := [Entered(key, fields[0].value)], TraceValue(key, fields[0].value, false);
      FieldlessTrace(key, fields[0].value, false);
      EnteredPathsConcat(first, value);
      EnteredPathsConcat(first + value, TraceObject(None, fields[1..]));
      assert EnteredPaths(first) == {key} by { assert first[0].path == key; }
      assert EnteredPaths(value) == {};
      FieldlessKeys(fields[1..]);
      hide EnteredPaths, TraceObject, TraceValue;
      forall k | k in KeySet(fields[1..]) ensures k in KeySet(fields) {
        var i :| 0 <= i < |fields[1..]| && fields[1..][i].key == k;
        assert fields[i + 1].key == k;
      }
    }
  }

  lemma FieldlessStaysPut(document: seq<Field>)
    requires DistinctKeys(document)
    requires forall i :: 0 <= i < |document| ==> Fieldless(document[i].value) && Steady(document[i].value)
    ensures StaysPut(document)
  {
    FieldlessKeys(document);
    forall i | 0 <= i < |document| ensures FirstAtKey(document, i) {
      FieldlessFirst(document, i);
    }
  }

  /** No key of the document extends another one by a dot. */
  predicate Independent(document: seq<Field>) {
    forall i, j :: 0 <= i < |document| && 0 <= j < |document| ==> !(document[i].key + "." <= document[j].key)
  }

  /** A field inside a value is entered under a path below that of the value. */
  lemma {:induction false} NestedField(key: string, v: Value, fromArray: bool) returns (path: string)
    requires !Fieldless(v)
    ensures key + "." <= path && path in EnteredPaths(TraceValue(key, v, fromArray))
    decreases v, 1
  {
    if v.Array? {
      path := NestedFieldInArray(key, v.elements);
    } else {
      path := FullKey(Some(key), v.entries[0].key);
      var trace := TraceObject(Some(key), v.entries);
      assert trace[0] == Entered(path, v.entries[0].value);
    }
  }

  lemma {:induction false} NestedFieldInArray(key: string, vs: seq<Value>) returns (path: string)
    requires exists i :: 0 <= i < |vs| && !Fieldless(vs[i])
    ensures key + "." <= path && path in EnteredPaths(TraceArray(key, vs))
    decreases vs, 0
  {
    EnteredPathsConcat(TraceValue(key, vs[0], true), TraceArray(key, vs[1..]));
    if Fieldless(vs[0]) {
      var i :| 0 <= i < |vs| && !Fieldless(vs[i]);
      assert !Fieldless(vs[1..][i - 1]);
      path := NestedFieldInArray(key, vs[1..]);
    } else {
      path := NestedField(key, vs[0], true);
    }
  }

  lemma {:induction false} PathsOfField(fields: seq<Field>, k: nat)
    requires k < |fields|
    ensures EnteredPaths(TraceValue(fields[k].key, fields[k].value, false)) <=
            EnteredPaths(TraceObject(None, fields))
    decreases |fields|
  {
    var key := fields[0].key;
    var first, value, more := [Entered(key, fields[0].value)], TraceValue(key, fields[0].value, false),
      TraceObject(None, fields[1..]);
    EnteredPathsConcat(first, value);
    EnteredPathsConcat(first + value, more);
    if k > 0 {
      PathsOfField(fields[1..], k - 1);
    }
  }

  lemma ListedIsFieldless(document: seq<Field>, i: nat)
    requires Independent(document) && i < |document|
    requires EnteredPaths(TraceObject(None, document)) <= KeySet(document)
    ensures Fieldless(document[i].value)
  {
    if !Fieldless(document[i].value) {
      var path := NestedField(document[i].key, document[i].value, false);
      PathsOfField(document, i);
      hide TraceValue, TraceObject, EnteredPaths;
      assert false;
    }
  }

  /**
   If no key extends another by a dot, flattening changes nothing exactly when every value is
   without fields and either needs no flattening or has no scalars.
   */
  lemma IndependentUnchangedIff(document: seq<Field>, out: map<string, Value>)
    requires DistinctKeys(document) && Independent(document) && IsFlattening(document, out)
    ensures Unchanged(document, out) <==>
            forall i :: 0 <= i < |document| ==> Fieldless(document[i].value) && Steady(document[i].value)
  {
    UnchangedIff(document, out);
    hide Unchanged, IsFlattening, Steady, Fieldless;
    if StaysPut(document) {
      forall i | 0 <= i < |document| ensures Fieldless(document[i].value) {
        ListedIsFieldless(document, i);
      }
    } else if forall i :: 0 <= i < |document| ==> Fieldless(document[i].value) && Steady(document[i].value) {
      FieldlessStaysPut(document);
    }
  }

  /** A document with a field inside a field, and what it is traced to. */
  lemma NestedTrace(outer: string, inner: string, v: Value, more: seq<Field>)
    ensures TraceObject(None, [Field(outer, Object([Field(inner, v)]))] + more) ==
            [Entered(outer, Object([Field(inner, v)])), Entered(outer + "." + inner, v)] +
            TraceValue(outer + "." + inner, v, false) + TraceObject(None, more)
  {
    var fields := [Field(inner, v)];
    var path := outer + "." + inner;
    assert fields[1..] == [] && ([Field(outer, Object(fields))] + more)[1..] == more;
    assert TraceObject(Some(outer), fields) == [Entered(path, v)] + TraceValue(path, v, false);
  }

  /** A nested field may be listed in the document under its full path too, and then nothing changes. */
  lemma DependentKeys(out: map<string, Value>)
    requires IsFlattening([Field("a", Object([Field("b", Array([]))])), Field("a.b", Array([]))], out)
    ensures Unchanged([Field("a", Object([Field("b", Array([]))])), Field("a.b", Array([]))], out)
    ensures !Fieldless(Object([Field("b", Array([]))]))
  {
    var empty := Array([]);
    var nested := Object([Field("b", empty)]);
    var document := [Field("a", nested), Field("a.b", empty)];
    NestedTrace("a", "b", empty, [Field("a.b", empty)]);
    assert document == [Field("a", nested)] + [Field("a.b", empty)] && "a" + "." + "b" == "a.b";
    assert TraceObject(None, [Field("a.b", empty)]) == [Entered("a.b", empty)];
    var trace := [Entered("a", nested), Entered("a.b", empty), Entered("a.b", empty)];
    assert TraceObject(None, document) == trace;
    DependentStaysPut(document, nested);
    UnchangedIff(document, out);
  }

  lemma DependentStaysPut(document: seq<Field>, nested: Value)
    requires var empty := Array([]);
             && nested == Object([Field("b", empty)])
             && document == [Field("a", nested), Field("a.b", empty)]
             && TraceObject(None, document) == [Entered("a", nested), Entered("a.b", empty), Entered("a.b", empty)]
    ensures DistinctKeys(document) && StaysPut(document)
  {
    hide TraceObject;
    var trace := TraceObject(None, document);
    assert document[0].key == "a" && document[1].key == "a.b" && "a.b"[..1] == "a";
    assert Scalars(nested) == [];
    assert FirstEntered(trace, "a.b") == FirstEntered(trace[1..], "a.b");
  }

  /**
   Skipping is sound: if the fast check answers false on the serialization of every field of a
   document, flattening returns the document unchanged, empty arrays included.
   */
  lemma SkippingIsSound(document: seq<Field>, out: map<string, Value>)
    requires DistinctKeys(document) && IsFlattening(document, out)
    requires forall i :: 0 <= i < |document| ==> !FastCheck(Serialize(document[i].value))
    ensures Unchanged(document, out)
  {
    forall i | 0 <= i < |document| ensures Fieldless(document[i].value) && Steady(document[i].value) {
      FastCheckIsExact(document[i].value);
    }
    FieldlessStaysPut(document);
    UnchangedIff(document, out);
  }

  // ---------- Flattening twice ----------

  /** The fields of the result in some order. */
  ghost predicate Listing(fields: seq<Field>, out: map<string, Value>) {
    DistinctKeys(fields) && Unchanged(fields, out)
  }

  /** The path has a scalar of its own, or was first entered with a value without scalars. */
  predicate SettledAt(trace: seq<Visit>, path: string) {
    || ReachedAt(trace, path) != []
    || (FirstEntered(trace, path).Some? && Scalars(FirstEntered(trace, path).value) == [])
  }

  ghost predicate Settled(document: seq<Field>) {
    var trace := TraceObject(None, document);
    forall path :: path in EnteredPaths(trace) ==> SettledAt(trace, path)
  }

  /** Where a listed value has no scalars, it is the first one found when the listing is flattened. */
  predicate FirstListed(fields: seq<Field>) {
    forall i :: 0 <= i < |fields| && Scalars(fields[i].value) == [] ==> FirstAtKey(fields, i)
  }

  lemma FlatteningIsUnique(document: seq<Field>, a: map<string, Value>, b: map<string, Value>)
    requires IsFlattening(document, a) && IsFlattening(document, b)
    ensures a == b
  {
    hide Gathered, ReachedAt, FirstEntered;
  }

  /** A listing flattens to the map it lists exactly when it stays as it is. */
  lemma ListingStays(fields: seq<Field>, out: map<string, Value>)
    requires Listing(fields, out)
    ensures IsFlattening(fields, out) <==> StaysPut(fields)
  {
    var trace := TraceObject(None, fields);
    var flat := Complete(Replay(map[], trace), EntriesOf(trace));
    FlattenResult(fields, flat);
    hide IsFlattening, StaysPut, TraceObject, Complete, Replay, EntriesOf;
    UnchangedIff(fields, flat);
    if StaysPut(fields) {
      SameListing(fields, flat, out);
    } else if IsFlattening(fields, out) {
      FlatteningIsUnique(fields, flat, out);
    }
  }

  lemma SameListing(fields: seq<Field>, a: map<string, Value>, b: map<string, Value>)
    requires Unchanged(fields, a) && Unchanged(fields, b)
    ensures a == b
  {
    forall k | k in a ensures a[k] == b[k] {
      var i :| 0 <= i < |fields| && fields[i].key == k;
    }
  }

  // What is traced below a value entered somewhere has been traced there already.

  lemma {:induction false} BelowObject(base: Option<string>, fields: seq<Field>, path: string, v: Value, x: Visit)
    requires Entered(path, v) in TraceObject(base, fields) && x in TraceValue(path, v, false)
    ensures x in TraceObject(base, fields)
    decreases fields, 0
  {
    var key := FullKey(base, fields[0].key);
    var value, more := TraceValue(key, fields[0].value, false), TraceObject(base, fields[1..]);
    assert TraceObject(base, fields) == [Entered(key, fields[0].value)] + value + more;
    if Entered(path, v) in value {
      BelowValue(key, fields[0].value, false, path, v, x);
    } else if Entered(path, v) in more {
      BelowObject(base, fields[1..], path, v, x);
    }
  }

  lemma {:induction false} BelowArray(key: string, vs: seq<Value>, path: string, v: Value, x: Visit)
    requires Entered(path, v) in TraceArray(key, vs) && x in TraceValue(path, v, false)
    ensures x in TraceArray(key, vs)
    decreases vs, 0
  {
    if Entered(path, v) in TraceValue(key, vs[0], true) {
      BelowValue(key, vs[0], true, path, v, x);
    } else {
      BelowArray(key, vs[1..], path, v, x);
    }
  }

  lemma {:induction false} BelowValue(key: string, value: Value, fromArray: bool, path: string, v: Value, x: Visit)
    requires Entered(path, v) in TraceValue(key, value, fromArray) && x in TraceValue(path, v, false)
    ensures x in TraceValue(key, value, fromArray)
    decreases value, 1
  {
    match value
    case Array(vs) => BelowArray(key, vs, path, v, x);
    case Object(fs) => BelowObject(Some(key), fs, path, v, x);
    case _ =>
  }

  lemma {:induction false} ReachedCounts(trace: seq<Visit>, x: Visit)
    requires x in trace && x.Reached?
    ensures ReachedAt(trace, x.path) != []
    decreases |trace|
  {
    var before := trace[..|trace| - 1];
    if x != trace[|trace| - 1] {
      assert x in before;
      ReachedCounts(before, x);
    }
  }

  /** A steady value whose path is reached by nothing has no scalars. */
  lemma SteadyUnreached(document: seq<Field>, path: string, v: Value)
    requires var trace := TraceObject(None, document);
             Entered(path, v) in trace && ReachedAt(trace, path) == [] && Steady(v)
    ensures Scalars(v) == []
  {
    if !ShouldFlattenValue(v) {
      FlatValue(path, v);
      ScalarlessTrace(path, v);
      var visits := TraceValue(path, v, false);
      hide TraceObject, TraceValue, ReachedAt, Scalars, ShouldFlattenValue;
      if visits != [] {
        BelowObject(None, document, path, v, visits[0]);
        ReachedCounts(TraceObject(None, document), visits[0]);
      }
    }
  }

  lemma {:induction false} FirstEnteredOccurs(trace: seq<Visit>, path: string)
    ensures FirstEntered(trace, path).Some? ==> Entered(path, FirstEntered(trace, path).value) in trace
    decreases |trace|
  {
    if trace != [] {
      FirstEnteredOccurs(trace[1..], path);
    }
  }

  /** A value of the result was gathered, and is flat, or was entered in the document. */
  lemma ResultValue(document: seq<Field>, out: map<string, Value>, path: string)
    requires IsFlattening(document, out) && path in out
    ensures var trace := TraceObject(None, document);
            if ReachedAt(trace, path) != [] then !ShouldFlattenValue(out[path]) && Scalars(out[path]) != []
            else FirstEntered(trace, path) == Some(out[path]) && Entered(path, out[path]) in trace
  {
    var trace := TraceObject(None, document);
    ObjectTraceIsProper(None, document);
    ReachedScalars(trace, path);
    FirstEnteredOccurs(trace, path);
    var visits := ReachedAt(trace, path);
    hide TraceObject, Gathered, ReachedAt, Scalars, FirstEntered, ShouldFlattenValue;
    if visits != [] {
      GatheredScalars(visits);
    }
  }

  lemma SettledIsSteady(document: seq<Field>, out: map<string, Value>, path: string)
    requires IsFlattening(document, out) && path in out
    ensures Steady(out[path]) <==> SettledAt(TraceObject(None, document), path)
  {
    ResultValue(document, out, path);
    var trace := TraceObject(None, document);
    hide TraceObject, ReachedAt, Scalars, FirstEntered, ShouldFlattenValue, IsFlattening;
    if ReachedAt(trace, path) == [] && Steady(out[path]) {
      SteadyUnreached(document, path, out[path]);
    }
  }

  lemma SettledIff(document: seq<Field>, out: map<string, Value>, fields: seq<Field>)
    requires IsFlattening(document, out) && Listing(fields, out)
    ensures Settled(document) <==> forall i :: 0 <= i < |fields| ==> Steady(fields[i].value)
  {
    var trace := TraceObject(None, document);
    assert out.Keys == EnteredPaths(trace);
    forall path | path in out
      ensures Steady(out[path]) <==> SettledAt(trace, path)
    {
      SettledIsSteady(document, out, path);
    }
    hide TraceObject, SettledAt, IsFlattening, Steady, EnteredPaths;
    forall path | path in out
      ensures exists i :: 0 <= i < |fields| && fields[i].key == path && fields[i].value == out[path]
    {
      var i :| 0 <= i < |fields| && fields[i].key == path;
    }
  }

  // ---------- What the listing is traced to ----------

  /** An entered visit is that of a field or lies below one. */
  lemma {:induction false} EnteredBelow(fields: seq<Field>, x: Visit) returns (k: nat)
    requires x in TraceObject(None, fields)
    ensures k < |fields|
    ensures x == Entered(fields[k].key, fields[k].value) || x in TraceValue(fields[k].key, fields[k].value, false)
    decreases |fields|
  {
    var key := fields[0].key;
    var value, more := TraceValue(key, fields[0].value, false), TraceObject(None, fields[1..]);
    assert TraceObject(None, fields) == [Entered(key, fields[0].value)] + value + more;
    if x == Entered(key, fields[0].value) || x in value {
      k := 0;
    } else {
      k := EnteredBelow(fields[1..], x);
      k := k + 1;
    }
  }

  /** What is entered below a listed value has been entered in the document. */
  lemma ListedBelow(document: seq<Field>, out: map<string, Value>, fields: seq<Field>, x: Visit, k: nat)
    requires IsFlattening(document, out) && Listing(fields, out) && k < |fields|
    requires x.Entered? && x in TraceValue(fields[k].key, fields[k].value, false)
    ensures x in TraceObject(None, document)
  {
    var path, v := fields[k].key, fields[k].value;
    ResultValue(document, out, path);
    if !ShouldFlattenValue(v) {
      FlatValue(path, v);
      assert false;
    } else {
      BelowObject(None, document, path, v, x);
    }
  }

  lemma ListingPaths(document: seq<Field>, out: map<string, Value>, fields: seq<Field>)
    requires IsFlattening(document, out) && Listing(fields, out)
    ensures EnteredPaths(TraceObject(None, fields)) <= KeySet(fields)
  {
    var trace, below := TraceObject(None, document), TraceObject(None, fields);
    hide TraceObject, TraceValue;
    forall path | path in EnteredPaths(below) ensures path in KeySet(fields) {
      var i :| 0 <= i < |below| && below[i].Entered? && below[i].path == path;
      var k := EnteredBelow(fields, below[i]);
      if below[i] in TraceValue(fields[k].key, fields[k].value, false) {
        ListedBelow(document, out, fields, below[i], k);
        assert path in EnteredPaths(trace);
      }
    }
  }

  /**
   Exactly when flattening is idempotent, for every document and every order in which the result
   may be listed.
   */
  lemma IdempotentIff(document: seq<Field>, out: map<string, Value>, fields: seq<Field>)
    requires IsFlattening(document, out) && Listing(fields, out)
    ensures IsFlattening(fields, out) <==> Settled(document) && FirstListed(fields)
  {
    ListingStays(fields, out);
    SettledIff(document, out, fields);
    ListingPaths(document, out, fields);
  }

  /** No path is entered with two different values. */
  predicate EnteredAlike(trace: seq<Visit>) {
    forall i, j :: 0 <= i < |trace| && 0 <= j < |trace| && trace[i].Entered? && trace[j].Entered? ==>
      trace[i].path == trace[j].path ==> trace[i].value == trace[j].value
  }

  lemma AlikeIsFirst(document: seq<Field>, out: map<string, Value>, fields: seq<Field>, k: nat)
    requires IsFlattening(document, out) && Listing(fields, out) && EnteredAlike(TraceObject(None, document))
    requires k < |fields| && Scalars(fields[k].value) == []
    ensures FirstAtKey(fields, k)
  {
    var trace, below := TraceObject(None, document), TraceObject(None, fields);
    var path := fields[k].key;
    ResultValue(document, out, path);
    KeysAreEntered(fields);
    FirstEnteredIs(below, path);
    FirstEnteredOccurs(below, path);
    hide TraceObject, TraceValue, ReachedAt, Scalars, FirstEntered, EnteredPaths, IsFlattening;
    assert path in KeySet(fields);
    var x := Entered(path, FirstEntered(below, path).value);
    var j := EnteredBelow(fields, x);
    if x in TraceValue(fields[j].key, fields[j].value, false) {
      ListedBelow(document, out, fields, x, j);
      assert x in trace && Entered(path, fields[k].value) in trace;
    }
  }

  /**
   Where no path is entered with two different values, flattening is idempotent exactly when every
   field value, at any depth, has a scalar at its own path or no scalar at all.
   */
  lemma IdempotentAlikeIff(document: seq<Field>, out: map<string, Value>, fields: seq<Field>)
    requires IsFlattening(document, out) && Listing(fields, out) && EnteredAlike(TraceObject(None, document))
    ensures IsFlattening(fields, out) <==>
            var trace := TraceObject(None, document);
            forall i :: 0 <= i < |trace| && trace[i].Entered? ==>
              ReachedAt(trace, trace[i].path) != [] || Scalars(trace[i].value) == []
  {
    IdempotentIff(document, out, fields);
    forall k | 0 <= k < |fields| && Scalars(fields[k].value) == [] ensures FirstAtKey(fields, k) {
      AlikeIsFirst(document, out, fields, k);
    }
    var trace := TraceObject(None, document);
    hide TraceObject, ReachedAt, Scalars, FirstEntered, IsFlattening, Listing, FirstAtKey, EnteredAlike;
    forall i | 0 <= i < |trace| && trace[i].Entered?
      ensures trace[i].path in EnteredPaths(trace) && FirstEntered(trace, trace[i].path) == Some(trace[i].value)
    {
      AlikeFirst(trace, i);
    }
  }

  lemma AlikeFirst(trace: seq<Visit>, i: nat)
    requires EnteredAlike(trace) && i < |trace| && trace[i].Entered?
    ensures trace[i].path in EnteredPaths(trace) && FirstEntered(trace, trace[i].path) == Some(trace[i].value)
  {
    FirstEnteredIs(trace, trace[i].path);
    FirstEnteredOccurs(trace, trace[i].path);
    hide FirstEntered;
  }

  /** One field inside a field is enough: however the result is listed, flattening it again changes it. */
  lemma NotIdempotent(out: map<string, Value>, fields: seq<Field>)
    requires IsFlattening([Field("a", Object([Field("b", String("c"))]))], out) && Listing(fields, out)
    ensures !IsFlattening(fields, out)
  {
    var v := String("c");
    var nested := Object([Field("b", v)]);
    var document := [Field("a", nested)];
    NestedTrace("a", "b", v, []);
    assert document == document + [] && "a" + "." + "b" == "a.b";
    var trace := [Entered("a", nested), Entered("a.b", v), Reached("a.b", v, false)];
    assert TraceObject(None, document) == trace;
    NestedUnsettled(trace, nested);
    hide TraceObject, SettledAt, IsFlattening, Listing;
    assert trace[0].path == "a";
    IdempotentIff(document, out, fields);
  }

  lemma NestedUnsettled(trace: seq<Visit>, nested: Value)
    requires nested == Object([Field("b", String("c"))])
    requires trace == [Entered("a", nested), Entered("a.b", String("c")), Reached("a.b", String("c"), false)]
    ensures !SettledAt(trace, "a")
  {
    assert trace[..2] == [trace[0], trace[1]] && |"a.b"| != |"a"|;
    NothingReached(trace[..2], "a");
    assert ReachedAt(trace, "a") == [];
    var fields := nested.entries;
    assert Scalars(fields[0].value) == [String("c")];
    assert ScalarsOfFields(fields) == [String("c")] + ScalarsOfFields(fields[1..]);
  }
}
