/**
 The inverted index from timestamps to task ids (crates/index-scheduler/src/utils.rs).
 */
module TaskDatetimes {
  import opened Basics

  type TaskId = nat
  type Database = map<int, set<TaskId>>

  /** The relation the database stands for. */
  predicate Has(db: Database, time: int, id: TaskId) {
    time in db && id in db[time]
  }

  predicate Inside(time: int, after: Option<int>, before: Option<int>) {
    (after.Some? ==> after.value < time) && (before.Some? ==> time < before.value)
  }

  /** The timestamps before `bound` at which the id is recorded. */
  function Available(db: Database, bound: int, id: TaskId): set<int> {
    set t | t in db && t < bound && id in db[t]
  }

  function Min(a: nat, b: nat): nat {
    if a < b then a else b
  }

  /** The next key of a reverse iteration that has reached `cursor`. */
  predicate IsLatestBefore(db: Database, cursor: int, r: Option<int>) {
    match r
    case None => forall t :: t in db ==> t >= cursor
    case Some(k) => k in db && k < cursor && forall t :: t in db && t < cursor ==> t <= k
  }

  /** The latest entry before the bound has the id. */
  ghost predicate LatestHas(db: Database, bound: int, id: TaskId) {
    exists t :: IsLatestBefore(db, bound, Some(t)) && id in db[t]
  }

  lemma LatestIs(db: Database, bound: int, id: TaskId, r: Option<int>)
    requires IsLatestBefore(db, bound, r)
    ensures LatestHas(db, bound, id) <==> r.Some? && id in db[r.value]
  {
    if LatestHas(db, bound, id) {
      var t :| IsLatestBefore(db, bound, Some(t)) && id in db[t];
      assert r == Some(t);
    }
  }

  method LatestBefore(db: Database, cursor: int) returns (r: Option<int>)
    ensures IsLatestBefore(db, cursor, r)
  {
    r := None;
    var rest := db.Keys;
    while rest != {}
      invariant rest <= db.Keys
      invariant match r
                case None => forall t :: t in db && t !in rest ==> t >= cursor
                case Some(k) => k in db && k < cursor && forall t :: t in db && t !in rest && t < cursor ==> t <= k
      decreases |rest|
    {
      ghost var some := SomeElement(rest);
      var t :| t in rest;
      if t < cursor && (r.None? || r.value < t) {
        r := Some(t);
      }
      rest := rest - {t};
    }
  }

  /** No timestamp is kept without a task. */
  predicate NoEmptySets(db: Database) {
    forall t :: t in db ==> db[t] != {}
  }

  /** The id is taken out of one entry, and the entry is dropped if nothing is left. */
  function RemoveAt(db: Database, time: int, id: TaskId): Database
    requires time in db
  {
    if db[time] - {id} == {} then db - {time} else db[time := db[time] - {id}]
  }

  lemma RemoveAtFacts(db: Database, time: int, id: TaskId)
    requires time in db && NoEmptySets(db)
    ensures NoEmptySets(RemoveAt(db, time, id))
    ensures forall t, i :: Has(RemoveAt(db, time, id), t, i) <==> Has(db, t, i) && !(t == time && i == id)
    ensures forall t :: t != time ==> (t in RemoveAt(db, time, id) <==> t in db)
  {
    forall i | i in db[time] && i != id ensures i in db[time] - {id} {}
  }

  /** The id has been removed from the timestamps from `cut` on, and nothing else has changed. */
  ghost predicate RemovedFrom(before: Database, db: Database, cut: int, bound: int, id: TaskId) {
    && (forall t, i :: Has(db, t, i) <==> Has(before, t, i) && !(i == id && cut <= t < bound))
    && (forall t :: t < cut ==> (t in db <==> t in before))
  }

  function From(times: set<int>, cut: int): set<int> {
    set t | t in times && cut <= t
  }

  /** One more entry of the reverse iteration is processed. */
  lemma RemoveStep(before: Database, db: Database, cursor: int, current: int, bound: int, id: TaskId)
    requires RemovedFrom(before, db, cursor, bound, id) && NoEmptySets(db) && cursor <= bound
    requires IsLatestBefore(db, cursor, Some(current))
    ensures NoEmptySets(RemoveAt(db, current, id))
    ensures RemovedFrom(before, RemoveAt(db, current, id), current, bound, id)
    ensures var available := Available(before, bound, id);
            From(available, current) ==
            if id in db[current] then From(available, cursor) + {current} else From(available, cursor)
    ensures current !in From(Available(before, bound, id), cursor)
    ensures current in before
  {
    RemoveAtFacts(db, current, id);
    var available := Available(before, bound, id);
    assert Has(db, current, id) <==> Has(before, current, id);
    forall t | t in From(available, current) && t != current ensures cursor <= t {
      assert t < cursor ==> t in db;
    }
    var after := RemoveAt(db, current, id);
    forall t, i ensures Has(after, t, i) <==> Has(before, t, i) && !(i == id && current <= t < bound) {
      assert current < t < cursor ==> t !in db;
    }
  }

  class DatetimeIndex {
    var db: Database

    ghost predicate Valid()
      reads this
    {
      NoEmptySets(db)
    }

    method InsertTaskDatetime(time: int, id: TaskId)
      requires Valid()
      modifies this
      ensures Valid()
      ensures forall t, i :: Has(db, t, i) <==> Has(old(db), t, i) || (t == time && i == id)
    {
      var ids := if time in db then db[time] else {};
      db := db[time := ids + {id}];
    }

    method RemoveTaskDatetime(time: int, id: TaskId)
      requires Valid()
      modifies this
      ensures Valid()
      ensures forall t, i :: Has(db, t, i) <==> Has(old(db), t, i) && !(t == time && i == id)
    {
      if time in db {
        RemoveAtFacts(db, time, id);
        db := RemoveAt(db, time, id);
      }
    }

    /**
     `remove_n_tasks_datetime_earlier_than`: the id is removed from the latest `count` timestamps
     before `earlierThan` that have it, or from all of them if there are fewer; they are the ones
     from `cut` on.  Nothing else changes.  With a count of zero the subtraction underflows exactly
     when the latest entry before `earlierThan` has the id.
     */
    method RemoveNEarlierThan(earlierThan: int, count: nat, id: TaskId) returns (ok: bool, ghost cut: int)
      requires Valid()
      modifies this
      ensures Valid()
      ensures !ok <==> count == 0 && LatestHas(old(db), earlierThan, id)
      ensures !ok ==> db == old(db)
      ensures ok ==> forall t, i :: Has(db, t, i) <==> Has(old(db), t, i) && !(i == id && cut <= t < earlierThan)
      ensures ok ==> var available := old(Available(db, earlierThan, id));
                     |From(available, cut)| == Min(count, |available|)
    {
      hide NoEmptySets, Has, Available;
      ghost var before := db;
      ghost var available := Available(before, earlierThan, id);
      ok := true;
      var left: nat := count;
      var cursor := earlierThan;
      Nothing(before, earlierThan, id);
      var next := LatestBefore(db, cursor);
      LatestIs(before, earlierThan, id, next);
      ghost var first := next;
      while next.Some?
        invariant Valid() && cursor <= earlierThan && ok
        invariant left == 0 ==> count == 0 && db == before && next == first
        invariant count == 0 ==> left == 0
        invariant RemovedFrom(before, db, cursor, earlierThan, id)
        invariant left + |From(available, cursor)| == count
        invariant IsLatestBefore(db, cursor, next)
        decreases next.Some?, set t | t in before && t < cursor
      {
        var current := next.value;
        RemoveStep(before, db, cursor, current, earlierThan, id);
        ghost var earlier := set t | t in before && t < cursor;
        assert current in earlier;
        if id in db[current] {
          if left == 0 {
            ok, cut := false, cursor;
            return;
          }
          left := left - 1;
        }
        db := RemoveAt(db, current, id);
        cursor := current;
        if left == 0 {
          SubsetSize(From(available, cursor), available);
          cut := cursor;
          return;
        }
        next := LatestBefore(db, cursor);
      }
      Exhausted(before, db, cursor, earlierThan, id);
      assert From(available, cursor) == available;
      cut := cursor;
    }

    /** `keep_ids_within_datetimes`; without any bound the ids are not looked up at all. */
    method KeepIdsWithin(ids: set<TaskId>, after: Option<int>, before: Option<int>) returns (kept: set<TaskId>)
      ensures after.None? && before.None? ==> kept == ids
      ensures after.Some? || before.Some? ==>
                forall i :: i in kept <==>
                  && i in ids
                  && exists t ::
                       Has(db, t, i) && (after.Some? ==> after.value < t) && (before.Some? ==> t < before.value)
    {
      if after.None? && before.None? {
        return ids;
      }
      var collected: set<TaskId> := {};
      var rest := set t | t in db && Inside(t, after, before);
      while rest != {}
        invariant forall t :: t in rest ==> t in db && Inside(t, after, before)
        invariant forall i :: i in collected ==> exists t :: Has(db, t, i) && Inside(t, after, before)
        invariant forall t, i :: Has(db, t, i) && Inside(t, after, before) ==> t in rest || i in collected
        decreases |rest|
      {
        ghost var some := SomeElement(rest);
        var t :| t in rest;
        forall i | i in db[t] ensures exists u :: Has(db, u, i) && Inside(u, after, before) {
          assert Has(db, t, i);
        }
        collected := collected + db[t];
        rest := rest - {t};
      }
      kept := ids * collected;
    }
  }

  lemma Nothing(db: Database, bound: int, id: TaskId)
    ensures RemovedFrom(db, db, bound, bound, id) && From(Available(db, bound, id), bound) == {}
  {
  }

  lemma Exhausted(before: Database, db: Database, cursor: int, bound: int, id: TaskId)
    requires RemovedFrom(before, db, cursor, bound, id) && IsLatestBefore(db, cursor, None)
    ensures From(Available(before, bound, id), cursor) == Available(before, bound, id)
  {
  }
}
