/**
 The vector-backed LRU cache with atomic generations (crates/index-scheduler/src/lru.rs).

 `LruMap` keeps unordered cells stamped with generations; it is shown to behave like a list of
 entries ordered from the least to the most recently used.  The second part follows concurrent
 `get`s, in which taking a ticket and storing it in the cell are two separate steps.
 */
module Lru {
  import opened Basics

  /** One slot of the vector. */
  datatype Cell<K, V> = Cell(generation: nat, key: K, value: V)

  datatype Entry<K, V> = Entry(key: K, value: V)

  datatype InsertionOutcome<K, V> = InsertedNew | Evicted(key: K, value: V) | Replaced(value: V)

  // ---------- The abstract cache: entries from least to most recently used ----------

  type Recency<K, V> = seq<Entry<K, V>>

  function KeyIndex<K(==), V>(list: Recency<K, V>, key: K): (i: nat)
    ensures i <= |list|
    ensures i < |list| ==> list[i].key == key
    ensures forall j :: 0 <= j < i ==> list[j].key != key
  {
    if list == [] || list[0].key == key then 0 else 1 + KeyIndex(list[1..], key)
  }

  function Without<T>(s: seq<T>, i: nat): (r: seq<T>)
    requires i < |s|
    ensures |r| == |s| - 1
  {
    s[..i] + s[i + 1..]
  }

  function SpecGet<K(==), V>(list: Recency<K, V>, key: K): (Recency<K, V>, Option<V>) {
    var i := KeyIndex(list, key);
    if i == |list| then (list, None) else (Without(list, i) + [list[i]], Some(list[i].value))
  }

  function SpecUpdate<K(==), V>(list: Recency<K, V>, key: K, value: V): (Recency<K, V>, Option<V>) {
    var i := KeyIndex(list, key);
    if i == |list| then (list, None) else (Without(list, i) + [Entry(key, value)], Some(list[i].value))
  }

  function SpecInsert<K(==), V>(list: Recency<K, V>, cap: nat, key: K, value: V):
    (Recency<K, V>, InsertionOutcome<K, V>)
    requires cap > 0
  {
    var i := KeyIndex(list, key);
    if i < |list| then (Without(list, i) + [Entry(key, value)], Replaced(list[i].value))
    else if |list| < cap then (list + [Entry(key, value)], InsertedNew)
    else (list[1..] + [Entry(key, value)], Evicted(list[0].key, list[0].value))
  }

  function SpecRemove<K(==), V>(list: Recency<K, V>, key: K): (Recency<K, V>, Option<V>) {
    var i := KeyIndex(list, key);
    if i == |list| then (list, None) else (Without(list, i), Some(list[i].value))
  }

  predicate UniqueKeys<K(==), V>(list: Recency<K, V>) {
    forall i, j :: 0 <= i < j < |list| ==> list[i].key != list[j].key
  }

  lemma KeyIndexIs<K, V>(list: Recency<K, V>, key: K, i: nat)
    requires UniqueKeys(list) && i < |list| && list[i].key == key
    ensures KeyIndex(list, key) == i
  {
  }

  lemma KeyIndexNone<K, V>(list: Recency<K, V>, key: K)
    requires forall i :: 0 <= i < |list| ==> list[i].key != key
    ensures KeyIndex(list, key) == |list|
  {
  }

  // ---------- From cells to entries ----------

  predicate DistinctKeys<K(==), V>(data: seq<Cell<K, V>>) {
    forall i, j :: 0 <= i < j < |data| ==> data[i].key != data[j].key
  }

  /** Ordered by stamps. */
  predicate Sorted<K, V>(cells: seq<Cell<K, V>>) {
    forall i, j :: 0 <= i < j < |cells| ==> cells[i].generation < cells[j].generation
  }

  /** The same cells in the order of their stamps; the position in the vector does not matter. */
  ghost predicate Ordered<K, V>(data: seq<Cell<K, V>>, order: seq<Cell<K, V>>) {
    && |order| == |data|
    && Elements(order) == Elements(data)
    && Sorted(order)
  }

  function Entries<K, V>(order: seq<Cell<K, V>>): (r: Recency<K, V>)
    ensures |r| == |order|
    ensures forall i :: 0 <= i < |r| ==> r[i] == Entry(order[i].key, order[i].value)
  {
    seq(|order|, i requires 0 <= i < |order| => Entry(order[i].key, order[i].value))
  }

  /** The sorted arrangement is determined by the cells, so the abstract cache is a function of the concrete one. */
  lemma {:induction false} OrderIsUnique<K, V>(data: seq<Cell<K, V>>, a: seq<Cell<K, V>>, b: seq<Cell<K, V>>)
    requires Ordered(data, a) && Ordered(data, b)
    ensures a == b
  {
    SortedIsUnique(a, b);
  }

  lemma {:induction false} SortedIsUnique<K, V>(a: seq<Cell<K, V>>, b: seq<Cell<K, V>>)
    requires Elements(a) == Elements(b) && Sorted(a) && Sorted(b)
    ensures a == b
  {
    SomethingIsThere(b);
    if a != [] {
      assert a[0] in Elements(a);
      assert a[0] in Elements(b) && b[0] in Elements(a);
      assert a[0] == b[0];
      forall x | x in a[1..] ensures x in b[1..] {
        assert x in Elements(b) && x != b[0];
        var k :| 0 <= k < |b| && b[k] == x;
        assert b[1..][k - 1] == x;
      }
      forall x | x in b[1..] ensures x in a[1..] {
        assert x in Elements(a) && x != a[0];
        var k :| 0 <= k < |a| && a[k] == x;
        assert a[1..][k - 1] == x;
      }
      SortedIsUnique(a[1..], b[1..]);
    }
  }

  lemma PlaceInOrder<K, V>(data: seq<Cell<K, V>>, order: seq<Cell<K, V>>, i: nat) returns (j: nat)
    requires Ordered(data, order) && i < |data|
    ensures j < |order| && order[j] == data[i]
  {
    assert data[i] in Elements(order);
    j :| j < |order| && order[j] == data[i];
  }

  lemma EntriesHaveUniqueKeys<K, V>(data: seq<Cell<K, V>>, order: seq<Cell<K, V>>)
    requires Ordered(data, order) && DistinctKeys(data)
    ensures UniqueKeys(Entries(order))
  {
    forall i, j | 0 <= i < j < |order| ensures order[i].key != order[j].key {
      assert order[i] in Elements(data) && order[j] in Elements(data);
      var k :| 0 <= k < |data| && data[k] == order[i];
      var l :| 0 <= l < |data| && data[l] == order[j];
    }
  }

  /** Taking a cell out of the vector by `swap_remove` takes its entry out of the list. */
  lemma OrderedRemove<K, V>(data: seq<Cell<K, V>>, order: seq<Cell<K, V>>, i: nat, j: nat)
    requires Ordered(data, order) && DistinctKeys(data)
    requires i < |data| && j < |order| && data[i] == order[j]
    ensures Ordered(SwapRemove(data, i), Without(order, j)) && DistinctKeys(SwapRemove(data, i))
  {
    SwapRemoveElements(data, i);
    WithoutElements(order, j);
  }

  lemma WithoutElements<K, V>(order: seq<Cell<K, V>>, j: nat)
    requires j < |order|
    requires Sorted(order)
    ensures Elements(Without(order, j)) == Elements(order) - {order[j]}
  {
  }

  lemma OrderedAppend<K, V>(data: seq<Cell<K, V>>, order: seq<Cell<K, V>>, c: Cell<K, V>)
    requires Ordered(data, order)
    requires forall x :: x in data ==> x.generation < c.generation
    ensures Ordered(data + [c], order + [c])
  {
    forall i | 0 <= i < |order| ensures order[i].generation < c.generation {
      assert order[i] in Elements(data);
    }
    assert Elements(data + [c]) == Elements(data) + {c};
    assert Elements(order + [c]) == Elements(order) + {c};
  }

  /** Giving a cell the latest stamp moves its entry to the end of the list. */
  lemma OrderedTouch<K, V>(data: seq<Cell<K, V>>, order: seq<Cell<K, V>>, i: nat, j: nat, c: Cell<K, V>)
    requires Ordered(data, order) && DistinctKeys(data)
    requires i < |data| && j < |order| && data[i] == order[j] && c.key == data[i].key
    requires forall x :: x in data && x != data[i] ==> x.generation < c.generation
    ensures Ordered(data[i := c], Without(order, j) + [c]) && DistinctKeys(data[i := c])
  {
    var rest := SwapRemove(data, i);
    OrderedRemove(data, order, i, j);
    SwapRemoveElements(data, i);
    forall x | x in rest ensures x.generation < c.generation {
      assert x in Elements(rest);
    }
    OrderedAppend(rest, Without(order, j), c);
    assert Elements(data[i := c]) == Elements(rest + [c]) by {
      assert Elements(rest + [c]) == Elements(rest) + {c};
      var d := data[i := c];
      forall x | x in d && x != c ensures x in Elements(rest) {
        var k :| 0 <= k < |d| && d[k] == x;
      }
      assert d[i] == c;
      forall x | x in Elements(rest) ensures x in d {
        var k :| 0 <= k < |data| && data[k] == x;
        assert k != i;
        assert d[k] == x;
      }
    }
  }

  // ---------- The cache ----------

  class LruMap<K(==), V> {
    var data: seq<Cell<K, V>>
    var generation: nat
    const cap: nat
    /** The cells in the order of their stamps. */
    ghost var order: seq<Cell<K, V>>

    ghost predicate Valid()
      reads this
    {
      && 0 < cap && |data| <= cap
      && DistinctKeys(data)
      && Ordered(data, order)
      && (forall c :: c in data ==> c.generation <= generation)
    }

    /** The abstract cache. */
    ghost function Contents(): Recency<K, V>
      reads this
    {
      Entries(order)
    }

    constructor (cap: nat)
      requires cap != 0
      ensures Valid() && this.cap == cap && Contents() == []
    {
      this.cap := cap;
      data, generation, order := [], 0, [];
    }

    /** The linear scan all operations share. */
    method Find(key: K) returns (slot: nat)
      requires Valid()
      ensures slot <= |data|
      ensures slot < |data| ==> data[slot].key == key
      ensures slot == |data| ==> forall c :: c in data ==> c.key != key
      ensures slot < |data| <==> KeyIndex(Contents(), key) < |Contents()|
    {
      slot := 0;
      while slot < |data|
        invariant slot <= |data|
        invariant forall k :: 0 <= k < slot ==> data[k].key != key
      {
        if data[slot].key == key {
          ghost var j := PlaceInOrder(data, order, slot);
          EntriesHaveUniqueKeys(data, order);
          KeyIndexIs(Contents(), key, j);
          return;
        }
        slot := slot + 1;
      }
      forall i | 0 <= i < |order| ensures order[i].key != key {
        assert order[i] in Elements(data);
      }
      KeyIndexNone(Contents(), key);
    }

    /** The cell gets a fresh stamp and the value. */
    method Touch(slot: nat, value: V)
      requires Valid() && slot < |data|
      modifies this
      ensures Valid() && |data| == old(|data|)
      ensures var i := KeyIndex(old(Contents()), old(data[slot].key));
              && i < |old(Contents())|
              && old(Contents()[i] == Entry(data[slot].key, data[slot].value))
              && Contents() == Without(old(Contents()), i) + [Entry(old(data[slot].key), value)]
    {
      ghost var before := Contents();
      var c := Cell(generation + 1, data[slot].key, value);
      ghost var j := PlaceInOrder(data, order, slot);
      EntriesHaveUniqueKeys(data, order);
      KeyIndexIs(before, c.key, j);
      OrderedTouch(data, order, slot, j, c);
      order := Without(order, j) + [c];
      generation := generation + 1;
      data := data[slot := c];
      assert Contents() == Without(before, j) + [Entry(c.key, value)];
    }

    method Get(key: K) returns (r: Option<V>)
      requires Valid()
      modifies this
      ensures Valid()
      ensures (Contents(), r) == SpecGet(old(Contents()), key)
    {
      var slot := Find(key);
      if slot == |data| {
        return None;
      }
      r := Some(data[slot].value);
      Touch(slot, data[slot].value);
    }

    /** `get_mut` followed by a write through the reference it returns; the old value is returned. */
    method Update(key: K, value: V) returns (r: Option<V>)
      requires Valid()
      modifies this
      ensures Valid()
      ensures (Contents(), r) == SpecUpdate(old(Contents()), key, value)
    {
      var slot := Find(key);
      if slot == |data| {
        // the generation is taken before the scan
        generation := generation + 1;
        return None;
      }
      r := Some(data[slot].value);
      Touch(slot, value);
    }

    method Pop() returns (r: Option<Entry<K, V>>)
      requires Valid()
      modifies this`data, this`order
      ensures Valid()
      ensures if old(Contents()) == [] then r == None && Contents() == []
              else r == Some(old(Contents())[0]) && Contents() == old(Contents())[1..]
      ensures forall c :: c in data ==> c in old(data)
    {
      if data == [] {
        return None;
      }
      var oldest := 0;
      var i := 1;
      while i < |data|
        invariant 1 <= i <= |data| && oldest < i
        invariant forall k :: 0 <= k < i ==> data[oldest].generation <= data[k].generation
      {
        if data[oldest].generation > data[i].generation {
          oldest := i;
        }
        i := i + 1;
      }
      assert order[0] in Elements(data);
      ghost var j := PlaceInOrder(data, order, oldest);
      assert j == 0;
      OrderedRemove(data, order, oldest, 0);
      SwapRemoveElements(data, oldest);
      r := Some(Entry(data[oldest].key, data[oldest].value));
      ghost var before := data;
      data := SwapRemove(data, oldest);
      order := Without(order, 0);
      forall c | c in data ensures c in before {
        assert c in Elements(data);
      }
    }

    /** `data.push` of a cell with a stamp of its own. */
    method Push(stamp: nat, key: K, value: V)
      requires Valid() && |data| < cap && stamp <= generation
      requires forall c :: c in data ==> c.generation < stamp
      requires forall i :: 0 <= i < |Contents()| ==> Contents()[i].key != key
      modifies this`data, this`order
      ensures Valid()
      ensures Contents() == old(Contents()) + [Entry(key, value)]
    {
      ghost var before := Contents();
      var c := Cell(stamp, key, value);
      forall x | x in data ensures x.key != key {
        assert x in Elements(order);
        var k :| 0 <= k < |order| && order[k] == x;
        assert before[k].key == x.key;
      }
      OrderedAppend(data, order, c);
      order := order + [c];
      data := data + [c];
      assert Contents() == before + [Entry(key, value)];
    }

    method Put(key: K, value: V) returns (evicted: Option<Entry<K, V>>)
      requires Valid() && KeyIndex(Contents(), key) == |Contents()|
      modifies this
      ensures Valid()
      ensures if |old(Contents())| < cap then evicted == None && Contents() == old(Contents()) + [Entry(key, value)]
              else evicted == Some(old(Contents())[0]) && Contents() == old(Contents())[1..] + [Entry(key, value)]
    {
      generation := generation + 1;
      evicted := None;
      if |data| == cap {
        evicted := Pop();
      }
      Push(generation, key, value);
    }

    method Insert(key: K, value: V) returns (outcome: InsertionOutcome<K, V>)
      requires Valid()
      modifies this
      ensures Valid()
      ensures (Contents(), outcome) == SpecInsert(old(Contents()), cap, key, value)
    {
      var replaced := Update(key, value);
      match replaced
      case Some(old_value) => outcome := Replaced(old_value);
      case None =>
        var evicted := Put(key, value);
        outcome := if evicted.None? then InsertedNew else Evicted(evicted.value.key, evicted.value.value);
    }

    method Remove(key: K) returns (r: Option<V>)
      requires Valid()
      modifies this
      ensures Valid()
      ensures (Contents(), r) == SpecRemove(old(Contents()), key)
    {
      var slot := Find(key);
      if slot == |data| {
        return None;
      }
      ghost var before, cells := Contents(), data;
      ghost var j := PlaceInOrder(data, order, slot);
      EntriesHaveUniqueKeys(data, order);
      KeyIndexIs(before, key, j);
      OrderedRemove(data, order, slot, j);
      SwapRemoveElements(data, slot);
      r := Some(data[slot].value);
      data := SwapRemove(data, slot);
      order := Without(order, j);
      forall c | c in data ensures c in cells {
        assert c in Elements(data);
      }
      assert Contents() == Without(before, j);
    }

    /** The state a phase of concurrent reads starts from. */
    ghost function Phase(): Readers
      reads this
    {
      Readers(Stamps(data), generation, map[], {})
    }

    /**
     Concurrent `get`s, given by the order in which their steps happen: each takes the next
     generation as its ticket and stores it later.  Only stamps change; the entries that are not
     read keep their order and become less recent than those that are.
     */
    method ReadConcurrently(steps: seq<ReadStep>)
      requires Valid() && CanReadAll(Phase(), steps) && ReadAll(Phase(), steps).pending == map[]
      modifies this
      ensures Valid() && SameEntries(old(data), data)
      ensures ReadLast(old(Contents()), Contents(), KeysAt(old(data), ReadAll(old(Phase()), steps).touched))
      ensures ReadAll(old(Phase()), steps) ==
              Readers(Stamps(data), generation, map[], ReadAll(old(Phase()), steps).touched)
    {
      ghost var start, cells := Phase(), data;
      ghost var touched: set<nat> := {};
      var pending: map<nat, nat> := map[];
      var i := 0;
      while i < |steps|
        invariant 0 <= i <= |steps|
        invariant SameEntries(cells, data)
        invariant var r := Readers(Stamps(data), generation, pending, touched);
                  CanReadAll(r, steps[i..]) && ReadAll(r, steps[i..]) == ReadAll(start, steps)
      {
        assert steps[i..][1..] == steps[i + 1..];
        ghost var r := Readers(Stamps(data), generation, pending, touched);
        match steps[i] {
          case TakeTicket(cell) =>
            generation := generation + 1;
            pending := pending[generation := cell];
            touched := touched + {cell};
          case StoreTicket(ticket) =>
            var cell := pending[ticket];
            data := data[cell := data[cell].(generation := ticket)];
            pending := pending - {ticket};
        }
        assert Readers(Stamps(data), generation, pending, touched) == ReadOnce(r, steps[i]);
        i := i + 1;
      }
      PhaseStartOf(cells, old(order), start.counter);
      ConcurrentReadsKeepRecency(start, steps);
      order := SortCells(data);
      ReadEntriesAreLast(cells, old(order), data, order, ReadAll(start, steps).touched);
    }

    /** The same for readers given by keys; a reader whose key is missing takes no ticket. */
    method ReadPhase(steps: seq<ReaderStep<K>>)
      requires Valid() && Balanced(steps, {})
      modifies this
      ensures Valid()
      ensures ReadLast(old(Contents()), Contents(), BegunKeys(steps))
    {
      ghost var start, cells, before := Phase(), data, Contents();
      var run := Translate(data, steps, generation, map[]);
      TranslatedReads(cells, steps, start, map[], {});
      ghost var touched := ReadAll(start, run).touched;
      ReadConcurrently(run);
      forall e | e in before ensures e.key in KeysAt(cells, touched) <==> e.key in BegunKeys(steps) {
        TouchedAreBegun(cells, old(order), touched, BegunKeys(steps), e);
      }
      SameReads(before, Contents(), KeysAt(cells, touched), BegunKeys(steps));
    }

    /** After any concurrent reads that leave some entry unread, the least recently used unread one goes. */
    method PopAfterReads(steps: seq<ReadStep>) returns (r: Option<Entry<K, V>>)
      requires Valid() && CanReadAll(Phase(), steps) && ReadAll(Phase(), steps).pending == map[]
      modifies this
      ensures Valid()
      ensures var unread := Unread(old(Contents()), KeysAt(old(data), ReadAll(old(Phase()), steps).touched));
              unread != [] ==> r == Some(unread[0])
    {
      ReadConcurrently(steps);
      r := Pop();
    }

    method Perform(op: Operation<K, V>) returns (answer: Answer<K, V>)
      requires Valid()
      modifies this
      ensures Valid()
      ensures (Contents(), answer) == SpecStep(old(Contents()), cap, op)
    {
      match op {
        case Get(k) => var r := Get(k); answer := Value(r);
        case Update(k, v) => var r := Update(k, v); answer := Value(r);
        case Insert(k, v) => var r := Insert(k, v); answer := Inserted(r);
        case Remove(k) => var r := Remove(k); answer := Value(r);
      }
    }
  }

  // ---------- Whole histories ----------

  datatype Operation<K, V> = Get(key: K) | Update(key: K, value: V) | Insert(key: K, value: V) | Remove(key: K)

  datatype Answer<K, V> = Value(value: Option<V>) | Inserted(outcome: InsertionOutcome<K, V>)

  function SpecStep<K(==), V>(list: Recency<K, V>, cap: nat, op: Operation<K, V>): (Recency<K, V>, Answer<K, V>)
    requires cap > 0
  {
    match op
    case Get(k) => var (l, r) := SpecGet(list, k); (l, Value(r))
    case Update(k, v) => var (l, r) := SpecUpdate(list, k, v); (l, Value(r))
    case Insert(k, v) => var (l, r) := SpecInsert(list, cap, k, v); (l, Inserted(r))
    case Remove(k) => var (l, r) := SpecRemove(list, k); (l, Value(r))
  }

  function SpecRun<K(==), V>(list: Recency<K, V>, cap: nat, ops: seq<Operation<K, V>>):
    (r: (Recency<K, V>, seq<Answer<K, V>>))
    requires cap > 0
  {
    if ops == [] then (list, [])
    else
      var (before, answers) := SpecRun(list, cap, ops[..|ops| - 1]);
      var (after, answer) := SpecStep(before, cap, ops[|ops| - 1]);
      (after, answers + [answer])
  }

  /** Every sequence of operations on a new cache is answered like by the recency list. */
  method RunHistory<K(==), V>(cap: nat, ops: seq<Operation<K, V>>) returns (answers: seq<Answer<K, V>>)
    requires cap > 0
    ensures answers == SpecRun([], cap, ops).1
  {
    var cache := new LruMap<K, V>(cap);
    answers := [];
    var i := 0;
    while i < |ops|
      invariant 0 <= i <= |ops|
      invariant cache.Valid() && cache.cap == cap && fresh(cache)
      invariant (cache.Contents(), answers) == SpecRun([], cap, ops[..i])
    {
      assert ops[..i + 1][..i] == ops[..i];
      var answer := cache.Perform(ops[i]);
      answers := answers + [answer];
      i := i + 1;
    }
    assert ops[..i] == ops;
  }

  lemma MoveToEndKeepsKeysUnique<K, V>(list: Recency<K, V>, i: nat, e: Entry<K, V>)
    requires UniqueKeys(list) && i < |list| && e.key == list[i].key
    ensures UniqueKeys(Without(list, i)) && UniqueKeys(Without(list, i) + [e])
  {
  }

  lemma SpecStepIsBounded<K, V>(list: Recency<K, V>, cap: nat, op: Operation<K, V>)
    requires cap > 0 && UniqueKeys(list) && |list| <= cap
    ensures var l := SpecStep(list, cap, op).0; UniqueKeys(l) && |l| <= cap
  {
    var i := KeyIndex(list, op.key);
    if i < |list| {
      MoveToEndKeepsKeysUnique(list, i, list[i]);
      if op.Update? || op.Insert? {
        MoveToEndKeepsKeysUnique(list, i, Entry(op.key, op.value));
      }
    }
  }

  /** The recency list never holds a key twice nor exceeds its capacity. */
  lemma {:induction false} SpecRunIsBounded<K, V>(list: Recency<K, V>, cap: nat, ops: seq<Operation<K, V>>)
    requires cap > 0 && UniqueKeys(list) && |list| <= cap
    ensures var l := SpecRun(list, cap, ops).0; UniqueKeys(l) && |l| <= cap
    decreases |ops|
  {
    if ops != [] {
      var before := ops[..|ops| - 1];
      SpecRunIsBounded(list, cap, before);
      SpecStepIsBounded(SpecRun(list, cap, before).0, cap, ops[|ops| - 1]);
      hide SpecStep, UniqueKeys;
    }
  }

  // ---------- What the recency list means, in terms of the history ----------

  /** The position of the last operation that used the key, -1 if there is none. */
  function LastUse<K(==), V>(ops: seq<Operation<K, V>>, key: K): (n: int)
    ensures -1 <= n < |ops|
    ensures n >= 0 ==> ops[n].key == key && !ops[n].Remove?
    ensures forall i :: n < i < |ops| ==> ops[i].key != key || ops[i].Remove?
  {
    if ops == [] then -1
    else
      var last := ops[|ops| - 1];
      if last.key == key && !last.Remove? then |ops| - 1 else LastUse(ops[..|ops| - 1], key)
  }

  /** The position of the last operation that wrote the key, -1 if there is none. */
  function LastWrite<K(==), V>(ops: seq<Operation<K, V>>, key: K): (n: int)
    ensures -1 <= n < |ops|
    ensures n >= 0 ==> ops[n].key == key && (ops[n].Update? || ops[n].Insert?)
    ensures forall i :: n < i < |ops| ==> ops[i].key != key || ops[i].Get? || ops[i].Remove?
  {
    if ops == [] then -1
    else
      var last := ops[|ops| - 1];
      if last.key == key && (last.Update? || last.Insert?) then |ops| - 1 else LastWrite(ops[..|ops| - 1], key)
  }

  /** The entry has been used and written, and holds what was last written. */
  predicate EntryMeets<K(==), V(==)>(e: Entry<K, V>, ops: seq<Operation<K, V>>) {
    && LastUse(ops, e.key) >= 0
    && LastWrite(ops, e.key) >= 0
    && e.value == ops[LastWrite(ops, e.key)].value
  }

  /** The entries are ordered by their last use and hold the values last written. */
  predicate MeetsHistory<K(==), V(==)>(list: Recency<K, V>, ops: seq<Operation<K, V>>) {
    && (forall i :: 0 <= i < |list| ==> EntryMeets(list[i], ops))
    && (forall i, j :: 0 <= i < j < |list| ==> LastUse(ops, list[i].key) < LastUse(ops, list[j].key))
  }

  lemma OtherOperation<K, V>(e: Entry<K, V>, ops: seq<Operation<K, V>>, op: Operation<K, V>)
    requires e.key != op.key
    ensures LastUse(ops + [op], e.key) == LastUse(ops, e.key)
    ensures EntryMeets(e, ops) ==> EntryMeets(e, ops + [op])
  {
    assert (ops + [op])[..|ops|] == ops;
  }

  lemma OwnOperation<K, V>(e: Entry<K, V>, ops: seq<Operation<K, V>>, op: Operation<K, V>)
    requires e.key == op.key && !op.Remove?
    requires if op.Get? then EntryMeets(e, ops) else e.value == op.value
    ensures LastUse(ops + [op], e.key) == |ops| && EntryMeets(e, ops + [op])
  {
    var more := ops + [op];
    assert more[..|ops|] == ops && more[|ops|] == op;
    if op.Get? {
      assert LastWrite(more, e.key) == LastWrite(ops, e.key);
    } else {
      assert LastWrite(more, e.key) == |ops|;
    }
  }

  lemma UntouchedMeets<K, V>(list: Recency<K, V>, ops: seq<Operation<K, V>>, op: Operation<K, V>)
    requires MeetsHistory(list, ops) && forall i :: 0 <= i < |list| ==> list[i].key != op.key
    ensures MeetsHistory(list, ops + [op])
  {
    forall i | 0 <= i < |list|
      ensures LastUse(ops + [op], list[i].key) == LastUse(ops, list[i].key) && EntryMeets(list[i], ops + [op])
    {
      OtherOperation(list[i], ops, op);
    }
    hide EntryMeets, LastUse;
  }

  lemma WithoutAt<T>(s: seq<T>, i: nat, j: nat)
    requires i < |s| && j < |s| - 1
    ensures Without(s, i)[j] == s[if j < i then j else j + 1]
  {
  }

  lemma WithoutMeets<K, V>(list: Recency<K, V>, ops: seq<Operation<K, V>>, i: nat)
    requires MeetsHistory(list, ops) && UniqueKeys(list) && i < |list|
    ensures MeetsHistory(Without(list, i), ops)
    ensures forall j :: 0 <= j < |list| - 1 ==> Without(list, i)[j].key != list[i].key
  {
    hide EntryMeets, LastUse, Without;
    forall j | 0 <= j < |list| - 1 ensures Without(list, i)[j] == list[if j < i then j else j + 1] {
      WithoutAt(list, i, j);
    }
  }

  lemma AppendMeets<K, V>(list: Recency<K, V>, ops: seq<Operation<K, V>>, op: Operation<K, V>, e: Entry<K, V>)
    requires MeetsHistory(list, ops) && forall i :: 0 <= i < |list| ==> list[i].key != op.key
    requires e.key == op.key && !op.Remove?
    requires if op.Get? then EntryMeets(e, ops) else e.value == op.value
    ensures MeetsHistory(list + [e], ops + [op])
  {
    UntouchedMeets(list, ops, op);
    OwnOperation(e, ops, op);
    forall i | 0 <= i < |list| ensures LastUse(ops + [op], list[i].key) < |ops| {
      OtherOperation(list[i], ops, op);
    }
    hide EntryMeets, LastUse;
  }

  lemma StepMeetsHistory<K, V>(list: Recency<K, V>, cap: nat, ops: seq<Operation<K, V>>, op: Operation<K, V>)
    requires cap > 0 && UniqueKeys(list) && |list| <= cap && MeetsHistory(list, ops)
    ensures MeetsHistory(SpecStep(list, cap, op).0, ops + [op])
  {
    var i := KeyIndex(list, op.key);
    if i < |list| {
      WithoutMeets(list, ops, i);
      var e := if op.Update? || op.Insert? then Entry(op.key, op.value) else list[i];
      if op.Remove? {
        UntouchedMeets(Without(list, i), ops, op);
      } else {
        AppendMeets(Without(list, i), ops, op, e);
      }
    } else {
      hide MeetsHistory, UniqueKeys;
      if op.Insert? {
        if |list| < cap {
          AppendMeets(list, ops, op, Entry(op.key, op.value));
        } else {
          WithoutMeets(list, ops, 0);
          assert Without(list, 0) == list[1..];
          AppendMeets(list[1..], ops, op, Entry(op.key, op.value));
        }
      } else {
        UntouchedMeets(list, ops, op);
      }
    }
  }

  /** On every history the recency list is ordered by last use and holds what was last written. */
  lemma {:induction false} RunMeetsHistory<K, V>(cap: nat, ops: seq<Operation<K, V>>)
    requires cap > 0
    ensures MeetsHistory(SpecRun([], cap, ops).0, ops)
    decreases |ops|
  {
    if ops != [] {
      var before, op := ops[..|ops| - 1], ops[|ops| - 1];
      RunMeetsHistory(cap, before);
      SpecRunIsBounded([], cap, before);
      assert before + [op] == ops;
      StepMeetsHistory(SpecRun([], cap, before).0, cap, before, op);
    }
  }

  function KeySet<K, V>(list: Recency<K, V>): set<K> {
    set i | 0 <= i < |list| :: list[i].key
  }

  /**
   Which keys come and go: a key enters by its insertion and leaves by its removal or, when a new
   key is inserted into a full cache, as the least recently used one.
   */
  lemma StepKeys<K, V>(list: Recency<K, V>, cap: nat, op: Operation<K, V>)
    requires cap > 0 && UniqueKeys(list) && |list| <= cap
    ensures var after := SpecStep(list, cap, op).0;
            if op.Remove? then KeySet(after) == KeySet(list) - {op.key}
            else if !op.Insert? || op.key in KeySet(list) then KeySet(after) == KeySet(list)
            else if |list| < cap then KeySet(after) == KeySet(list) + {op.key}
            else list != [] && KeySet(after) == KeySet(list) - {list[0].key} + {op.key}
  {
    var i := KeyIndex(list, op.key);
    if i < |list| {
      assert list[i].key in KeySet(list);
      KeysWithout(list, i);
      if op.Remove? {
      } else {
        KeysWith(Without(list, i), if op.Update? || op.Insert? then Entry(op.key, op.value) else list[i]);
      }
    } else {
      assert op.key !in KeySet(list);
      if op.Insert? {
        if |list| < cap {
          KeysWith(list, Entry(op.key, op.value));
        } else {
          KeysWithout(list, 0);
          assert Without(list, 0) == list[1..];
          KeysWith(list[1..], Entry(op.key, op.value));
        }
      }
    }
  }

  lemma KeysWithout<K, V>(list: Recency<K, V>, i: nat)
    requires UniqueKeys(list) && i < |list|
    ensures KeySet(Without(list, i)) == KeySet(list) - {list[i].key}
  {
    var fewer := Without(list, i);
    forall j | 0 <= j < |list| && j != i ensures list[j].key in KeySet(fewer) {
      assert fewer[if j < i then j else j - 1] == list[j];
    }
    forall j | 0 <= j < |fewer| ensures fewer[j].key in KeySet(list) - {list[i].key} {
      assert fewer[j] == list[if j < i then j else j + 1];
    }
  }

  lemma KeysWith<K, V>(list: Recency<K, V>, e: Entry<K, V>)
    ensures KeySet(list + [e]) == KeySet(list) + {e.key}
  {
    var more := list + [e];
    assert more[|list|] == e;
    forall j | 0 <= j < |list| ensures list[j].key in KeySet(more) {
      assert more[j] == list[j];
    }
  }

  /** What is answered: the value held for the key, if any, and for an insertion what it displaced. */
  lemma StepAnswer<K, V>(list: Recency<K, V>, cap: nat, op: Operation<K, V>)
    requires cap > 0 && UniqueKeys(list) && |list| <= cap
    ensures var answer := SpecStep(list, cap, op).1;
            && (forall i :: 0 <= i < |list| && list[i].key == op.key ==>
                 answer == if op.Insert? then Inserted(Replaced(list[i].value)) else Value(Some(list[i].value)))
            && (op.key !in KeySet(list) ==>
                 answer == if !op.Insert? then Value(None)
                           else if |list| < cap then Inserted(InsertedNew)
                           else Inserted(Evicted(list[0].key, list[0].value)))
  {
    var i := KeyIndex(list, op.key);
    if i < |list| {
      assert list[i].key in KeySet(list);
      forall j | 0 <= j < |list| && list[j].key == op.key ensures j == i {
        KeyIndexIs(list, op.key, j);
      }
    }
  }

  // ---------- Concurrent reads ----------

  /**
   Several `get`s share the cache: each takes the next generation as its ticket and later stores
   it in the cell it found.  `pending` maps the tickets taken and not yet stored to their cells.
   */
  datatype Readers = Readers(stamps: seq<nat>, counter: nat, pending: map<nat, nat>, touched: set<nat>)

  datatype ReadStep = TakeTicket(cell: nat) | StoreTicket(ticket: nat)

  predicate CanRead(r: Readers, step: ReadStep) {
    match step
    case TakeTicket(cell) => cell < |r.stamps|
    case StoreTicket(ticket) => ticket in r.pending && r.pending[ticket] < |r.stamps|
  }

  function ReadOnce(r: Readers, step: ReadStep): Readers
    requires CanRead(r, step)
  {
    match step
    case TakeTicket(cell) =>
      r.(counter := r.counter + 1, pending := r.pending[r.counter + 1 := cell], touched := r.touched + {cell})
    case StoreTicket(ticket) =>
      r.(stamps := r.stamps[r.pending[ticket] := ticket], pending := r.pending - {ticket})
  }

  predicate CanReadAll(r: Readers, steps: seq<ReadStep>)
    decreases |steps|
  {
    steps == [] || (CanRead(r, steps[0]) && CanReadAll(ReadOnce(r, steps[0]), steps[1..]))
  }

  function ReadAll(r: Readers, steps: seq<ReadStep>): Readers
    requires CanReadAll(r, steps)
    decreases |steps|
  {
    if steps == [] then r else ReadAll(ReadOnce(r, steps[0]), steps[1..])
  }

  /** All stamps and pending tickets are pairwise distinct and at most the counter. */
  predicate Stamped(r: Readers) {
    && NoDuplicates(r.stamps)
    && (forall i :: 0 <= i < |r.stamps| ==> r.stamps[i] <= r.counter)
    && (forall t :: t in r.pending ==> t <= r.counter && r.pending[t] < |r.stamps| && t !in r.stamps)
  }

  /** How far the phase that started in `start` has come. */
  predicate InPhase(start: Readers, r: Readers) {
    && |r.stamps| == |start.stamps|
    && (forall t :: t in r.pending ==> start.counter < t && r.pending[t] in r.touched)
    && (forall i :: 0 <= i < |r.stamps| && i !in r.touched ==> r.stamps[i] == start.stamps[i])
    && (forall i :: 0 <= i < |r.stamps| && i in r.touched ==>
         start.counter < r.stamps[i] || i in r.pending.Values)
  }

  predicate PhaseStart(start: Readers) {
    Stamped(start) && start.pending == map[] && start.touched == {}
  }

  lemma TakeKeeps(start: Readers, r: Readers, cell: nat)
    requires PhaseStart(start) && start.counter <= r.counter && Stamped(r) && InPhase(start, r) && cell < |r.stamps|
    ensures var r' := ReadOnce(r, TakeTicket(cell)); Stamped(r') && InPhase(start, r') && start.counter <= r'.counter
  {
    var r' := ReadOnce(r, TakeTicket(cell));
    assert r'.pending[r.counter + 1] == cell;
    forall i | 0 <= i < |r'.stamps| && i in r'.touched && !(start.counter < r'.stamps[i])
      ensures i in r'.pending.Values
    {
      if i != cell {
        var t :| t in r.pending && r.pending[t] == i;
        assert t in r'.pending && r'.pending[t] == i;
      }
    }
  }

  lemma StoreKeeps(start: Readers, r: Readers, ticket: nat)
    requires PhaseStart(start) && start.counter <= r.counter && Stamped(r) && InPhase(start, r)
    requires CanRead(r, StoreTicket(ticket))
    ensures var r' := ReadOnce(r, StoreTicket(ticket)); Stamped(r') && InPhase(start, r') && start.counter <= r'.counter
  {
    var r' := ReadOnce(r, StoreTicket(ticket));
    var cell := r.pending[ticket];
    forall i | 0 <= i < |r'.stamps| && i in r'.touched && !(start.counter < r'.stamps[i])
      ensures i in r'.pending.Values
    {
      var t :| t in r.pending && r.pending[t] == i;
      assert i != cell;
      assert t in r'.pending && r'.pending[t] == i;
    }
  }

  lemma ReadStepKeeps(start: Readers, r: Readers, step: ReadStep)
    requires PhaseStart(start) && start.counter <= r.counter && Stamped(r) && InPhase(start, r) && CanRead(r, step)
    ensures var r' := ReadOnce(r, step); Stamped(r') && InPhase(start, r') && start.counter <= r'.counter
  {
    hide Stamped, InPhase;
    match step
    case TakeTicket(cell) => TakeKeeps(start, r, cell);
    case StoreTicket(ticket) => StoreKeeps(start, r, ticket);
  }

  lemma {:induction false} ReadsKeep(start: Readers, r: Readers, steps: seq<ReadStep>)
    requires PhaseStart(start) && start.counter <= r.counter && Stamped(r) && InPhase(start, r) && CanReadAll(r, steps)
    ensures var r' := ReadAll(r, steps); Stamped(r') && InPhase(start, r')
    decreases |steps|
  {
    if steps != [] {
      ReadStepKeeps(start, r, steps[0]);
      ReadsKeep(start, ReadOnce(r, steps[0]), steps[1..]);
    }
  }

  /** The choice made by `pop`: a cell with the smallest stamp. */
  predicate IsOldest(stamps: seq<nat>, i: nat) {
    i < |stamps| && forall k :: 0 <= k < |stamps| ==> stamps[i] <= stamps[k]
  }

  /**
   For every interleaving of any number of concurrent reads: stamps and tickets stay distinct and
   at most the counter; once every ticket is stored, each cell read in the phase is stamped later
   than each cell not read, whose stamps have not changed, so the next eviction takes a cell that
   was not read if there is one.
   */
  lemma ConcurrentReadsKeepRecency(start: Readers, steps: seq<ReadStep>)
    requires PhaseStart(start) && CanReadAll(start, steps)
    ensures var r := ReadAll(start, steps);
            && Stamped(r) && |r.stamps| == |start.stamps|
            && (forall j :: 0 <= j < |r.stamps| && j !in r.touched ==> r.stamps[j] == start.stamps[j])
            && (r.pending == map[] ==>
              && (forall i, j :: 0 <= i < |r.stamps| && 0 <= j < |r.stamps| && i in r.touched && j !in r.touched ==>
                   r.stamps[j] == start.stamps[j] < r.stamps[i])
              && (forall m, j :: IsOldest(r.stamps, m) && 0 <= j < |r.stamps| && j !in r.touched ==> m !in r.touched))
  {
    ReadsKeep(start, start, steps);
  }

  // ---------- Concurrent reads of the cache ----------

  function Stamps<K, V>(data: seq<Cell<K, V>>): (r: seq<nat>)
    ensures |r| == |data| && forall i :: 0 <= i < |r| ==> r[i] == data[i].generation
  {
    seq(|data|, i requires 0 <= i < |data| => data[i].generation)
  }

  /** The vectors differ in their stamps only. */
  predicate SameEntries<K(==), V(==)>(a: seq<Cell<K, V>>, b: seq<Cell<K, V>>) {
    |a| == |b| && forall i :: 0 <= i < |a| ==> a[i].key == b[i].key && a[i].value == b[i].value
  }

  function KeysAt<K, V>(data: seq<Cell<K, V>>, cells: set<nat>): set<K> {
    set i | i in cells && i < |data| :: data[i].key
  }

  /** The entries whose keys are not among those given, in their order. */
  function Unread<K, V>(list: Recency<K, V>, read: set<K>): Recency<K, V> {
    if list == [] then []
    else (if list[0].key in read then [] else [list[0]]) + Unread(list[1..], read)
  }

  /** The entries not read come first, in the order they had; those read come last, in some order. */
  ghost predicate ReadLast<K, V>(before: Recency<K, V>, after: Recency<K, V>, read: set<K>) {
    var unread := Unread(before, read);
    && Elements(after) == Elements(before) && |after| == |before|
    && |unread| <= |after| && after[..|unread|] == unread
    && forall i :: |unread| <= i < |after| ==> after[i].key in read
  }

  /** The stamps of a valid cache can start a phase of concurrent reads. */
  lemma PhaseStartOf<K, V>(data: seq<Cell<K, V>>, order: seq<Cell<K, V>>, generation: nat)
    requires DistinctKeys(data) && Ordered(data, order) && forall c :: c in data ==> c.generation <= generation
    ensures PhaseStart(Readers(Stamps(data), generation, map[], {}))
  {
    forall i, j | 0 <= i < j < |data| ensures data[i].generation != data[j].generation {
      var k := PlaceInOrder(data, order, i);
      var l := PlaceInOrder(data, order, j);
      assert data[i].key != data[j].key;
    }
  }

  /** Cells with distinct stamps can be put in the order of their stamps. */
  lemma {:induction false} SortCells<K, V>(data: seq<Cell<K, V>>) returns (order: seq<Cell<K, V>>)
    requires NoDuplicates(Stamps(data))
    ensures Ordered(data, order)
    decreases |data|
  {
    if data == [] {
      order := [];
    } else {
      var before, c := data[..|data| - 1], data[|data| - 1];
      assert Stamps(before) == Stamps(data)[..|before|];
      var sorted := SortCells(before);
      forall x | x in before ensures x.generation != c.generation {
        var i :| 0 <= i < |before| && before[i] == x;
        assert Stamps(data)[i] != Stamps(data)[|before|];
      }
      order := InsertSorted(before, sorted, c);
      assert before + [c] == data;
    }
  }

  lemma InsertSorted<K, V>(data: seq<Cell<K, V>>, order: seq<Cell<K, V>>, c: Cell<K, V>) returns (r: seq<Cell<K, V>>)
    requires Ordered(data, order) && forall x :: x in data ==> x.generation != c.generation
    ensures Ordered(data + [c], r)
  {
    forall i | 0 <= i < |order| ensures order[i].generation != c.generation {
      assert order[i] in Elements(data);
    }
    var p := 0;
    while p < |order| && order[p].generation < c.generation
      invariant p <= |order| && forall i :: 0 <= i < p ==> order[i].generation < c.generation
    {
      p := p + 1;
    }
    r := order[..p] + [c] + order[p..];
    assert Elements(data + [c]) == Elements(data) + {c};
    assert Elements(r) == Elements(order) + {c} by {
      assert order == order[..p] + order[p..];
    }
  }

  function UnreadCells<K, V>(cells: seq<Cell<K, V>>, read: set<K>): seq<Cell<K, V>> {
    if cells == [] then []
    else (if cells[0].key in read then [] else [cells[0]]) + UnreadCells(cells[1..], read)
  }

  lemma {:induction false} UnreadCellsAre<K, V>(cells: seq<Cell<K, V>>, read: set<K>, c: Cell<K, V>)
    ensures c in UnreadCells(cells, read) <==> c in cells && c.key !in read
    decreases |cells|
  {
    if cells != [] {
      UnreadCellsAre(cells[1..], read, c);
    }
  }

  lemma {:induction false} UnreadCellsAreSorted<K, V>(cells: seq<Cell<K, V>>, read: set<K>)
    requires Sorted(cells)
    ensures Sorted(UnreadCells(cells, read))
    decreases |cells|
  {
    if cells != [] {
      UnreadCellsAreSorted(cells[1..], read);
      var more := UnreadCells(cells[1..], read);
      forall i | 0 <= i < |more| ensures more[i] in cells[1..] {
        UnreadCellsAre(cells[1..], read, more[i]);
      }
    }
  }

  lemma {:induction false} UnreadEntries<K, V>(cells: seq<Cell<K, V>>, read: set<K>)
    ensures Unread(Entries(cells), read) == Entries(UnreadCells(cells, read))
    decreases |cells|
  {
    if cells != [] {
      assert Entries(cells)[1..] == Entries(cells[1..]);
      UnreadEntries(cells[1..], read);
    }
  }

  /** If no read cell comes before an unread one, the unread cells are a prefix. */
  lemma {:induction false} UnreadIsPrefix<K, V>(cells: seq<Cell<K, V>>, read: set<K>)
    requires forall i, j :: 0 <= i < j < |cells| && cells[i].key in read ==> cells[j].key in read
    ensures var u := UnreadCells(cells, read);
            && |u| <= |cells| && cells[..|u|] == u
            && forall i :: |u| <= i < |cells| ==> cells[i].key in read
    decreases |cells|
  {
    if cells != [] {
      UnreadIsPrefix(cells[1..], read);
      var u, more := UnreadCells(cells, read), UnreadCells(cells[1..], read);
      if cells[0].key in read {
        forall i | 0 <= i < |more| ensures more[i].key in read {
          UnreadCellsAre(cells[1..], read, more[i]);
        }
        forall i | 0 <= i < |more| ensures more[i].key !in read {
          UnreadCellsAre(cells[1..], read, more[i]);
        }
        assert more == [];
      } else {
        assert u == [cells[0]] + more;
        forall i | |u| <= i < |cells| ensures cells[i].key in read {
          assert cells[i] == cells[1..][i - 1];
        }
      }
    }
  }

  lemma KeyIsRead<K, V>(cells: seq<Cell<K, V>>, touched: set<nat>, i: nat)
    requires DistinctKeys(cells) && i < |cells|
    ensures cells[i].key in KeysAt(cells, touched) <==> i in touched
  {
  }

  /** The cells that were not read are the same before and after. */
  lemma SameUnreadCells<K, V>(cells: seq<Cell<K, V>>, data: seq<Cell<K, V>>, touched: set<nat>, c: Cell<K, V>)
    requires DistinctKeys(cells) && SameEntries(cells, data)
    requires forall j :: 0 <= j < |data| && j !in touched ==> data[j].generation == cells[j].generation
    requires c.key !in KeysAt(cells, touched)
    ensures c in cells <==> c in data
  {
    if c in cells {
      var i :| 0 <= i < |cells| && cells[i] == c;
      KeyIsRead(cells, touched, i);
      assert data[i] == c;
    }
    if c in data {
      var i :| 0 <= i < |data| && data[i] == c;
      KeyIsRead(cells, touched, i);
      assert cells[i] == c;
    }
  }

  lemma SameEntrySet<K, V>(cells: seq<Cell<K, V>>, before: seq<Cell<K, V>>, data: seq<Cell<K, V>>,
                           order: seq<Cell<K, V>>, e: Entry<K, V>)
    requires Ordered(cells, before) && SameEntries(cells, data) && Ordered(data, order) && e in Entries(before)
    ensures e in Entries(order)
  {
    var p :| 0 <= p < |before| && Entries(before)[p] == e;
    assert before[p] in Elements(cells);
    var i :| 0 <= i < |cells| && cells[i] == before[p];
    var q := PlaceInOrder(data, order, i);
    assert Entries(order)[q] == e;
  }

  lemma SameEntriesBack<K, V>(a: seq<Cell<K, V>>, b: seq<Cell<K, V>>)
    requires SameEntries(a, b)
    ensures SameEntries(b, a)
  {
  }

  /** In the order of the new stamps, every read cell comes after every unread one. */
  lemma ReadCellsComeLast<K, V>(cells: seq<Cell<K, V>>, data: seq<Cell<K, V>>, order: seq<Cell<K, V>>,
                                touched: set<nat>, p: nat, q: nat)
    requires DistinctKeys(cells) && SameEntries(cells, data) && Ordered(data, order) && p < q < |order|
    requires forall i, j :: 0 <= i < |data| && 0 <= j < |data| && i in touched && j !in touched ==>
               Stamps(data)[j] < Stamps(data)[i]
    requires order[p].key in KeysAt(cells, touched)
    ensures order[q].key in KeysAt(cells, touched)
  {
    assert order[p] in Elements(data) && order[q] in Elements(data);
    var i :| 0 <= i < |data| && data[i] == order[p];
    var j :| 0 <= j < |data| && data[j] == order[q];
    KeyIsRead(cells, touched, i);
    KeyIsRead(cells, touched, j);
    assert data[i].generation < data[j].generation;
  }

  /** The unread cells keep their order. */
  lemma UnreadOrderKept<K, V>(cells: seq<Cell<K, V>>, before: seq<Cell<K, V>>, data: seq<Cell<K, V>>,
                              order: seq<Cell<K, V>>, touched: set<nat>)
    requires DistinctKeys(cells) && Ordered(cells, before) && SameEntries(cells, data) && Ordered(data, order)
    requires forall j :: 0 <= j < |data| && j !in touched ==> data[j].generation == cells[j].generation
    ensures var read := KeysAt(cells, touched); UnreadCells(before, read) == UnreadCells(order, read)
  {
    var read := KeysAt(cells, touched);
    var was, now := UnreadCells(before, read), UnreadCells(order, read);
    UnreadCellsAreSorted(before, read);
    UnreadCellsAreSorted(order, read);
    forall c ensures c in was <==> c in now {
      UnreadCellsAre(before, read, c);
      UnreadCellsAre(order, read, c);
      if c.key !in read {
        SameUnreadCells(cells, data, touched, c);
        assert (c in before <==> c in Elements(before)) && (c in order <==> c in Elements(order));
        assert (c in cells <==> c in Elements(cells)) && (c in data <==> c in Elements(data));
      }
    }
    hide UnreadCells, KeysAt, Ordered, Sorted;
    assert Elements(was) == Elements(now);
    SortedIsUnique(was, now);
  }

  lemma SameContents<K, V>(cells: seq<Cell<K, V>>, before: seq<Cell<K, V>>, data: seq<Cell<K, V>>,
                           order: seq<Cell<K, V>>)
    requires Ordered(cells, before) && SameEntries(cells, data) && Ordered(data, order)
    ensures Elements(Entries(before)) == Elements(Entries(order))
  {
    SameEntriesBack(cells, data);
    hide Ordered, SameEntries;
    forall e ensures e in Entries(before) <==> e in Entries(order) {
      if e in Entries(before) {
        SameEntrySet(cells, before, data, order, e);
      }
      if e in Entries(order) {
        SameEntrySet(data, order, cells, before, e);
      }
    }
  }

  /** Re-stamping the cells that were read moves their entries to the end. */
  lemma ReadEntriesAreLast<K, V>(cells: seq<Cell<K, V>>, before: seq<Cell<K, V>>, data: seq<Cell<K, V>>,
                                 order: seq<Cell<K, V>>, touched: set<nat>)
    requires DistinctKeys(cells) && Ordered(cells, before) && SameEntries(cells, data) && Ordered(data, order)
    requires forall i, j :: 0 <= i < |data| && 0 <= j < |data| && i in touched && j !in touched ==>
               Stamps(data)[j] < Stamps(data)[i]
    requires forall j :: 0 <= j < |data| && j !in touched ==> data[j].generation == cells[j].generation
    ensures ReadLast(Entries(before), Entries(order), KeysAt(cells, touched))
  {
    var read := KeysAt(cells, touched);
    assert |order| == |before|;
    UnreadOrderKept(cells, before, data, order, touched);
    UnreadEntries(before, read);
    SameContents(cells, before, data, order);
    forall p, q | 0 <= p < q < |order| && order[p].key in read ensures order[q].key in read {
      ReadCellsComeLast(cells, data, order, touched, p, q);
    }
    hide Ordered, SameEntries, DistinctKeys, KeysAt, UnreadCells, Unread, Elements;
    UnreadIsPrefix(order, read);
    var u := UnreadCells(order, read);
    assert Entries(order)[..|u|] == Entries(u);
  }

  // ---------- Readers given by keys ----------

  /** A concurrent `get` finds its cell and takes its ticket when it begins, and stores it when it finishes. */
  datatype ReaderStep<K> = Begin(reader: nat, key: K) | Finish(reader: nat)

  /** Every reader begins before it finishes, and none is left; `open` are those under way. */
  predicate Balanced<K>(steps: seq<ReaderStep<K>>, open: set<nat>)
    decreases |steps|
  {
    if steps == [] then open == {}
    else match steps[0]
      case Begin(reader, _) => reader !in open && Balanced(steps[1..], open + {reader})
      case Finish(reader) => reader in open && Balanced(steps[1..], open - {reader})
  }

  function BegunKeys<K>(steps: seq<ReaderStep<K>>): set<K> {
    set i | 0 <= i < |steps| && steps[i].Begin? :: steps[i].key
  }

  function CellIndex<K(==), V>(data: seq<Cell<K, V>>, key: K): (i: nat)
    ensures i <= |data|
    ensures i < |data| ==> data[i].key == key
    ensures forall j :: 0 <= j < i ==> data[j].key != key
  {
    if data == [] || data[0].key == key then 0 else 1 + CellIndex(data[1..], key)
  }

  /** The tickets taken and stored, from the tickets of the readers under way. */
  function Translate<K(==), V>(data: seq<Cell<K, V>>, steps: seq<ReaderStep<K>>, counter: nat, tickets: map<nat, nat>):
    seq<ReadStep>
    decreases |steps|
  {
    if steps == [] then []
    else match steps[0]
      case Begin(reader, key) =>
        var i := CellIndex(data, key);
        if i == |data| then Translate(data, steps[1..], counter, tickets)
        else [TakeTicket(i)] + Translate(data, steps[1..], counter + 1, tickets[reader := counter + 1])
      case Finish(reader) =>
        if reader !in tickets then Translate(data, steps[1..], counter, tickets)
        else [StoreTicket(tickets[reader])] + Translate(data, steps[1..], counter, tickets - {reader})
  }

  /** The pending tickets are those of the readers under way. */
  ghost predicate TicketsOfReaders(r: Readers, tickets: map<nat, nat>, open: set<nat>) {
    && tickets.Keys <= open && tickets.Values == r.pending.Keys
    && (forall a, b :: a in tickets && b in tickets && a != b ==> tickets[a] != tickets[b])
    && (forall t :: t in r.pending ==> t <= r.counter && r.pending[t] < |r.stamps|)
  }

  lemma TakenByReader(r: Readers, tickets: map<nat, nat>, open: set<nat>, reader: nat, cell: nat)
    requires TicketsOfReaders(r, tickets, open) && reader !in open && cell < |r.stamps|
    ensures TicketsOfReaders(ReadOnce(r, TakeTicket(cell)), tickets[reader := r.counter + 1], open + {reader})
  {
    var t, more := r.counter + 1, tickets[reader := r.counter + 1];
    forall a | a in tickets ensures tickets[a] <= r.counter {
      assert tickets[a] in tickets.Values;
    }
    forall x ensures x in more.Values <==> x in r.pending || x == t {
      if x in more.Values && x != t {
        assert x in tickets.Values;
      }
      if x in r.pending {
        var a :| a in tickets && tickets[a] == x;
        assert more[a] == x;
      }
      if x == t {
        assert more[reader] == x;
      }
    }
  }

  lemma StoredByReader(r: Readers, tickets: map<nat, nat>, open: set<nat>, reader: nat)
    requires TicketsOfReaders(r, tickets, open) && reader in tickets
    ensures CanRead(r, StoreTicket(tickets[reader]))
    ensures TicketsOfReaders(ReadOnce(r, StoreTicket(tickets[reader])), tickets - {reader}, open - {reader})
  {
    var t, fewer := tickets[reader], tickets - {reader};
    assert t in tickets.Values;
    forall x ensures x in fewer.Values <==> x in r.pending && x != t {
      if x in r.pending && x != t {
        var a :| a in tickets && tickets[a] == x;
        assert fewer[a] == x;
      }
    }
  }

  lemma MissedByReader(r: Readers, tickets: map<nat, nat>, open: set<nat>, reader: nat)
    requires TicketsOfReaders(r, tickets, open) && reader !in tickets
    ensures TicketsOfReaders(r, tickets, open + {reader}) && TicketsOfReaders(r, tickets, open - {reader})
  {
  }

  lemma ConsReads(r: Readers, step: ReadStep, rest: seq<ReadStep>)
    requires CanRead(r, step) && CanReadAll(ReadOnce(r, step), rest)
    ensures CanReadAll(r, [step] + rest) && ReadAll(r, [step] + rest) == ReadAll(ReadOnce(r, step), rest)
  {
    assert ([step] + rest)[1..] == rest;
  }

  lemma BegunStep<K>(steps: seq<ReaderStep<K>>)
    requires steps != []
    ensures BegunKeys(steps) == BegunKeys(steps[1..]) + if steps[0].Begin? then {steps[0].key} else {}
  {
    forall k | k in BegunKeys(steps[1..]) ensures k in BegunKeys(steps) {
      var i :| 0 <= i < |steps[1..]| && steps[1..][i].Begin? && steps[1..][i].key == k;
      assert steps[i + 1].key == k;
    }
    forall i | 1 <= i < |steps| && steps[i].Begin? ensures steps[i].key in BegunKeys(steps[1..]) {
      assert steps[1..][i - 1].key == steps[i].key;
    }
  }

  /** The cells touched are those of the keys asked for. */
  ghost predicate TouchesKeys<K, V>(data: seq<Cell<K, V>>, before: set<nat>, after: set<nat>, keys: set<K>) {
    forall i :: i in after <==> i in before || (0 <= i < |data| && data[i].key in keys)
  }

  lemma TouchesNone<K, V>(data: seq<Cell<K, V>>, before: set<nat>, after: set<nat>, keys: set<K>, key: K)
    requires TouchesKeys(data, before, after, keys) && CellIndex(data, key) == |data|
    ensures TouchesKeys(data, before, after, keys + {key})
  {
  }

  lemma TouchesOneMore<K, V>(data: seq<Cell<K, V>>, before: set<nat>, cell: nat, after: set<nat>, keys: set<K>)
    requires DistinctKeys(data) && cell < |data| && TouchesKeys(data, before + {cell}, after, keys)
    ensures TouchesKeys(data, before, after, keys + {data[cell].key})
  {
  }

  /** A balanced schedule of readers is a run of tickets and stores that leaves none pending. */
  lemma {:induction false} TranslatedReads<K, V>(data: seq<Cell<K, V>>, steps: seq<ReaderStep<K>>, r: Readers,
                                                 tickets: map<nat, nat>, open: set<nat>)
    requires DistinctKeys(data) && |r.stamps| == |data| && TicketsOfReaders(r, tickets, open) && Balanced(steps, open)
    ensures var run := Translate(data, steps, r.counter, tickets);
            && CanReadAll(r, run) && ReadAll(r, run).pending == map[]
            && TouchesKeys(data, r.touched, ReadAll(r, run).touched, BegunKeys(steps))
    decreases |steps|
  {
    if steps == [] {
      assert tickets == map[] && r.pending.Keys == {};
    } else {
      BegunStep(steps);
      hide TicketsOfReaders, BegunKeys, TouchesKeys, DistinctKeys, CanReadAll, ReadAll;
      match steps[0]
      case Begin(reader, key) =>
        var i := CellIndex(data, key);
        if i == |data| {
          assert reader !in tickets by { ReadersAreOpen(r, tickets, open); }
          MissedByReader(r, tickets, open, reader);
          TranslatedReads(data, steps[1..], r, tickets, open + {reader});
          var run := Translate(data, steps[1..], r.counter, tickets);
          TouchesNone(data, r.touched, ReadAll(r, run).touched, BegunKeys(steps[1..]), key);
        } else {
          var more := tickets[reader := r.counter + 1];
          TakenByReader(r, tickets, open, reader, i);
          TranslatedReads(data, steps[1..], ReadOnce(r, TakeTicket(i)), more, open + {reader});
          var run := Translate(data, steps[1..], r.counter + 1, more);
          ConsReads(r, TakeTicket(i), run);
          TouchesOneMore(data, r.touched, i, ReadAll(r, [TakeTicket(i)] + run).touched, BegunKeys(steps[1..]));
        }
      case Finish(reader) =>
        if reader !in tickets {
          MissedByReader(r, tickets, open, reader);
          TranslatedReads(data, steps[1..], r, tickets, open - {reader});
        } else {
          var step, fewer := StoreTicket(tickets[reader]), tickets - {reader};
          StoredByReader(r, tickets, open, reader);
          TranslatedReads(data, steps[1..], ReadOnce(r, step), fewer, open - {reader});
          ConsReads(r, step, Translate(data, steps[1..], r.counter, fewer));
        }
    }
  }

  lemma ReadersAreOpen(r: Readers, tickets: map<nat, nat>, open: set<nat>)
    requires TicketsOfReaders(r, tickets, open)
    ensures tickets.Keys <= open
  {
  }

  lemma TouchedAreBegun<K, V>(data: seq<Cell<K, V>>, order: seq<Cell<K, V>>, touched: set<nat>, keys: set<K>,
                              e: Entry<K, V>)
    requires DistinctKeys(data) && Ordered(data, order) && e in Entries(order) && TouchesKeys(data, {}, touched, keys)
    ensures e.key in KeysAt(data, touched) <==> e.key in keys
  {
    var p :| 0 <= p < |order| && Entries(order)[p] == e;
    assert order[p] in Elements(data);
    var i :| 0 <= i < |data| && data[i] == order[p];
    KeyIsRead(data, touched, i);
  }

  lemma {:induction false} SameUnread<K, V>(list: Recency<K, V>, a: set<K>, b: set<K>)
    requires forall e :: e in list ==> (e.key in a <==> e.key in b)
    ensures Unread(list, a) == Unread(list, b)
    decreases |list|
  {
    if list != [] {
      assert list[0] in list;
      SameUnread(list[1..], a, b);
    }
  }

  lemma SameReads<K, V>(before: Recency<K, V>, after: Recency<K, V>, a: set<K>, b: set<K>)
    requires ReadLast(before, after, a) && forall e :: e in before ==> (e.key in a <==> e.key in b)
    ensures ReadLast(before, after, b)
  {
    SameUnread(before, a, b);
    forall i | |Unread(before, a)| <= i < |after| ensures after[i].key in b {
      assert after[i] in Elements(after) && after[i] in Elements(before);
    }
  }

  /** A phase with a single reader is a `get`. */
  lemma LonePhaseIsGet<K, V>(before: Recency<K, V>, after: Recency<K, V>, key: K)
    requires UniqueKeys(before) && UniqueKeys(after)
    requires ReadLast(before, after, BegunKeys([Begin(0, key), Finish(0)]))
    ensures after == SpecGet(before, key).0
  {
    var steps := [Begin(0, key), Finish(0)];
    assert steps[0].Begin? && !steps[1].Begin?;
    assert BegunKeys(steps) == {key};
    var i := KeyIndex(before, key);
    UnreadIsWithout(before, key);
    if i < |before| {
      var n := |before| - 1;
      assert |Unread(before, {key})| == n;
      assert before[i] in Elements(before) && before[i] in Elements(after);
      var j :| 0 <= j < |after| && after[j] == before[i];
      assert after[n].key == key;
      assert j == n;
      assert after == after[..n] + [after[n]];
    } else {
      assert after[..|before|] == after;
    }
  }

  lemma {:induction false} UnreadIsWithout<K, V>(list: Recency<K, V>, key: K)
    requires UniqueKeys(list)
    ensures var i := KeyIndex(list, key);
            Unread(list, {key}) == if i < |list| then Without(list, i) else list
    decreases |list|
  {
    if list != [] {
      UnreadIsWithout(list[1..], key);
      if list[0].key == key {
        KeyIndexNone(list[1..], key);
        assert Without(list, 0) == list[1..];
      } else {
        var i := KeyIndex(list[1..], key);
        if i < |list| - 1 {
          assert Without(list, i + 1) == [list[0]] + Without(list[1..], i);
        } else {
          assert [list[0]] + list[1..] == list;
        }
      }
    }
  }

  // ---------- Histories with concurrent phases ----------

  /** One operation with exclusive access, or a phase of concurrent reads. */
  datatype Event<K, V> = Exclusive(op: Operation<K, V>) | Concurrent(steps: seq<ReaderStep<K>>)

  /** What an event does to the recency list, and what it answers. */
  ghost predicate Explains<K, V>(cap: nat, event: Event<K, V>, before: Recency<K, V>, after: Recency<K, V>,
                                 answer: Option<Answer<K, V>>)
    requires cap > 0
  {
    match event
    case Exclusive(op) => answer == Some(SpecStep(before, cap, op).1) && after == SpecStep(before, cap, op).0
    case Concurrent(steps) => answer == None && ReadLast(before, after, BegunKeys(steps))
  }

  /**
   Any mixture of operations and phases of concurrent reads goes through recency lists without
   duplicate keys and within the capacity, each of which follows from the one before.
   */
  method RunEvents<K(==), V>(cap: nat, events: seq<Event<K, V>>)
    returns (answers: seq<Option<Answer<K, V>>>, ghost lists: seq<Recency<K, V>>)
    requires cap > 0
    requires forall i :: 0 <= i < |events| && events[i].Concurrent? ==> Balanced(events[i].steps, {})
    ensures |answers| == |events| && |lists| == |events| + 1 && lists[0] == []
    ensures forall i :: 0 <= i < |events| ==> Explains(cap, events[i], lists[i], lists[i + 1], answers[i])
    ensures forall i :: 0 <= i < |lists| ==> UniqueKeys(lists[i]) && |lists[i]| <= cap
  {
    var cache := new LruMap<K, V>(cap);
    answers, lists := [], [[]];
    while |answers| < |events|
      invariant cache.Valid() && cache.cap == cap && fresh(cache)
      invariant |answers| <= |events| && |lists| == |answers| + 1
      invariant lists[0] == [] && lists[|answers|] == cache.Contents()
      invariant forall i :: 0 <= i < |answers| ==> Explains(cap, events[i], lists[i], lists[i + 1], answers[i])
      invariant forall i :: 0 <= i < |lists| ==> UniqueKeys(lists[i]) && |lists[i]| <= cap
    {
      hide UniqueKeys, SpecStep, ReadLast, BegunKeys;
      var answer: Option<Answer<K, V>> := None;
      match events[|answers|] {
        case Exclusive(op) =>
          var single := cache.Perform(op);
          answer := Some(single);
        case Concurrent(steps) =>
          cache.ReadPhase(steps);
      }
      EntriesHaveUniqueKeys(cache.data, cache.order);
      answers, lists := answers + [answer], lists + [cache.Contents()];
    }
  }

  // ---------- Stamps of one cell ----------

  /** No store of the run lowers the stamp of its cell. */
  predicate NeverLowers(r: Readers, steps: seq<ReadStep>)
    requires CanReadAll(r, steps)
    decreases |steps|
  {
    steps == [] ||
    (&& (steps[0].StoreTicket? ==> r.stamps[r.pending[steps[0].ticket]] <= steps[0].ticket)
     && NeverLowers(ReadOnce(r, steps[0]), steps[1..]))
  }

  function TicketsOf(r: Readers, cell: nat): set<nat> {
    set t | t in r.pending && r.pending[t] == cell
  }

  /** All along the run, at most `k` tickets of any one cell are pending. */
  predicate PendingAtMost(k: nat, r: Readers, steps: seq<ReadStep>)
    requires CanReadAll(r, steps)
    decreases |steps|
  {
    && (forall cell :: 0 <= cell < |r.stamps| ==> |TicketsOf(r, cell)| <= k)
    && (steps == [] || PendingAtMost(k, ReadOnce(r, steps[0]), steps[1..]))
  }

  /** Every pending ticket is later than the stamp it will replace. */
  predicate TicketsAreLater(r: Readers) {
    && (forall i :: 0 <= i < |r.stamps| ==> r.stamps[i] <= r.counter)
    && (forall t :: t in r.pending ==> t <= r.counter && r.pending[t] < |r.stamps| && r.stamps[r.pending[t]] < t)
  }

  lemma OneTicket(r: Readers, cell: nat, t: nat, u: nat)
    requires |TicketsOf(r, cell)| <= 1 && t in TicketsOf(r, cell) && u in TicketsOf(r, cell)
    ensures t == u
  {
    SubsetSize({t, u}, TicketsOf(r, cell));
    assert t != u ==> |{t, u}| == 2;
  }

  lemma {:induction false} OneTicketRises(r: Readers, steps: seq<ReadStep>)
    requires CanReadAll(r, steps) && TicketsAreLater(r) && PendingAtMost(1, r, steps)
    ensures NeverLowers(r, steps)
    decreases |steps|
  {
    if steps != [] {
      var next := ReadOnce(r, steps[0]);
      if steps[0].StoreTicket? {
        var cell := r.pending[steps[0].ticket];
        forall t | t in next.pending && next.pending[t] == cell ensures false {
          OneTicket(r, cell, t, steps[0].ticket);
        }
      }
      OneTicketRises(next, steps[1..]);
    }
  }

  lemma {:induction false} FewerPending(k: nat, m: nat, r: Readers, steps: seq<ReadStep>)
    requires k <= m && CanReadAll(r, steps) && PendingAtMost(k, r, steps)
    ensures PendingAtMost(m, r, steps)
    decreases |steps|
  {
    if steps != [] {
      FewerPending(k, m, ReadOnce(r, steps[0]), steps[1..]);
    }
  }

  /** Two reads of one cell whose stores happen in the other order than their tickets. */
  function CrossedReads(counter: nat): seq<ReadStep> {
    [TakeTicket(0), TakeTicket(0), StoreTicket(counter + 2), StoreTicket(counter + 1)]
  }

  lemma CrossedReadsLower(start: Readers)
    requires PhaseStart(start) && start.stamps != []
    ensures var steps := CrossedReads(start.counter);
            && CanReadAll(start, steps) && PendingAtMost(2, start, steps) && !NeverLowers(start, steps)
            && ReadAll(start, steps) == Readers(start.stamps[0 := start.counter + 1], start.counter + 2, map[], {0})
  {
    hide TicketsOf, CanRead, ReadOnce, CanReadAll, ReadAll, PendingAtMost, NeverLowers;
    var c := start.counter;
    var r1, r2, r3, r4 := CrossedStates(start);
    FourReads(start, r1, r2, r3, r4, TakeTicket(0), TakeTicket(0), StoreTicket(c + 2), StoreTicket(c + 1));
  }

  /** The states the crossed reads go through. */
  lemma CrossedStates(start: Readers) returns (r1: Readers, r2: Readers, r3: Readers, r4: Readers)
    requires PhaseStart(start) && start.stamps != []
    ensures var c := start.counter;
            && CanRead(start, TakeTicket(0)) && ReadOnce(start, TakeTicket(0)) == r1
            && CanRead(r1, TakeTicket(0)) && ReadOnce(r1, TakeTicket(0)) == r2
            && CanRead(r2, StoreTicket(c + 2)) && ReadOnce(r2, StoreTicket(c + 2)) == r3
            && CanRead(r3, StoreTicket(c + 1)) && ReadOnce(r3, StoreTicket(c + 1)) == r4
            && c + 1 in r3.pending && r3.pending[c + 1] == 0 && r3.stamps != [] && r3.stamps[0] == c + 2
    ensures r4 == Readers(start.stamps[0 := start.counter + 1], start.counter + 2, map[], {0})
    ensures forall cell :: |TicketsOf(start, cell)| <= 2 && |TicketsOf(r1, cell)| <= 2
    ensures forall cell :: |TicketsOf(r2, cell)| <= 2 && |TicketsOf(r3, cell)| <= 2
    ensures forall cell :: |TicketsOf(r4, cell)| <= 2
  {
    var c := start.counter;
    r1 := Readers(start.stamps, c + 1, map[c + 1 := 0], {0});
    r2 := Readers(start.stamps, c + 2, map[c + 1 := 0, c + 2 := 0], {0});
    r3 := Readers(start.stamps[0 := c + 2], c + 2, map[c + 1 := 0], {0});
    r4 := Readers(start.stamps[0 := c + 1], c + 2, map[], {0});
    TakeFirst(start);
    StoreSecond(start.stamps, c);
    FewTickets(start, r1, r2, r3);
    AtMostTwo(r4, {});
    hide TicketsOf, CanRead, ReadOnce;
  }

  lemma FourReads(r0: Readers, r1: Readers, r2: Readers, r3: Readers, r4: Readers,
                  a: ReadStep, b: ReadStep, c: ReadStep, d: ReadStep)
    requires CanRead(r0, a) && ReadOnce(r0, a) == r1 && CanRead(r1, b) && ReadOnce(r1, b) == r2
    requires CanRead(r2, c) && ReadOnce(r2, c) == r3 && CanRead(r3, d) && ReadOnce(r3, d) == r4
    requires forall cell :: |TicketsOf(r0, cell)| <= 2 && |TicketsOf(r1, cell)| <= 2
    requires forall cell :: |TicketsOf(r2, cell)| <= 2 && |TicketsOf(r3, cell)| <= 2
    requires forall cell :: |TicketsOf(r4, cell)| <= 2
    ensures var steps := [a, b, c, d];
            && CanReadAll(r0, steps) && ReadAll(r0, steps) == r4 && PendingAtMost(2, r0, steps)
            && (NeverLowers(r0, steps) ==> d.StoreTicket? ==> r3.stamps[r3.pending[d.ticket]] <= d.ticket)
  {
    assert CanReadAll(r4, []) && ReadAll(r4, []) == r4 && PendingAtMost(2, r4, []);
    hide TicketsOf, ReadOnce, CanReadAll, ReadAll, PendingAtMost, NeverLowers;
    Joined(a, b, c, d);
    Prepend(2, r3, d, []);
    Prepend(2, r2, c, [d]);
    Prepend(2, r1, b, [c, d]);
    Prepend(2, r0, a, [b, c, d]);
  }

  lemma TakeFirst(start: Readers)
    requires PhaseStart(start) && start.stamps != []
    ensures var c := start.counter;
            var r1 := Readers(start.stamps, c + 1, map[c + 1 := 0], {0});
            && CanRead(start, TakeTicket(0)) && ReadOnce(start, TakeTicket(0)) == r1
            && CanRead(r1, TakeTicket(0))
            && ReadOnce(r1, TakeTicket(0)) == Readers(start.stamps, c + 2, map[c + 1 := 0, c + 2 := 0], {0})
  {
  }

  lemma StoreSecond(stamps: seq<nat>, c: nat)
    requires stamps != []
    ensures var r2 := Readers(stamps, c + 2, map[c + 1 := 0, c + 2 := 0], {0});
            var r3 := Readers(stamps[0 := c + 2], c + 2, map[c + 1 := 0], {0});
            && CanRead(r2, StoreTicket(c + 2)) && ReadOnce(r2, StoreTicket(c + 2)) == r3
            && CanRead(r3, StoreTicket(c + 1))
            && ReadOnce(r3, StoreTicket(c + 1)) == Readers(stamps[0 := c + 1], c + 2, map[], {0})
  {
    var pending: map<nat, nat> := map[c + 1 := 0, c + 2 := 0];
    assert pending - {c + 2} == map[c + 1 := 0];
    var left: map<nat, nat> := map[c + 1 := 0];
    assert left - {c + 1} == map[];
  }

  lemma FewTickets(start: Readers, r1: Readers, r2: Readers, r3: Readers)
    requires var c := start.counter;
             && start.pending == map[] && r1.pending == r3.pending == map[c + 1 := 0]
             && r2.pending == map[c + 1 := 0, c + 2 := 0]
    ensures forall cell :: |TicketsOf(start, cell)| <= 2 && |TicketsOf(r1, cell)| <= 2
    ensures forall cell :: |TicketsOf(r2, cell)| <= 2 && |TicketsOf(r3, cell)| <= 2
  {
    var c := start.counter;
    AtMostTwo(start, {});
    AtMostTwo(r1, {c + 1});
    AtMostTwo(r2, {c + 1, c + 2});
    AtMostTwo(r3, {c + 1});
  }

  lemma Joined(a: ReadStep, b: ReadStep, c: ReadStep, d: ReadStep)
    ensures [d] + [] == [d] && [c] + [d] == [c, d] && [b] + [c, d] == [b, c, d] && [a] + [b, c, d] == [a, b, c, d]
  {
  }

  lemma Prepend(k: nat, r: Readers, step: ReadStep, rest: seq<ReadStep>)
    requires CanRead(r, step) && CanReadAll(ReadOnce(r, step), rest)
    requires forall cell :: |TicketsOf(r, cell)| <= k
    ensures var steps := [step] + rest;
            && CanReadAll(r, steps) && ReadAll(r, steps) == ReadAll(ReadOnce(r, step), rest)
            && (PendingAtMost(k, ReadOnce(r, step), rest) ==> PendingAtMost(k, r, steps))
            && (NeverLowers(r, steps) ==>
                 && (step.StoreTicket? ==> r.stamps[r.pending[step.ticket]] <= step.ticket)
                 && NeverLowers(ReadOnce(r, step), rest))
  {
    assert ([step] + rest)[1..] == rest;
  }

  lemma AtMostTwo(r: Readers, tickets: set<nat>)
    requires r.pending.Keys == tickets && |tickets| <= 2
    ensures forall cell :: |TicketsOf(r, cell)| <= 2
  {
    forall cell ensures |TicketsOf(r, cell)| <= 2 {
      SubsetSize(TicketsOf(r, cell), tickets);
    }
  }

  /** With one cell and no reads before, the later ticket 2 is overwritten by the earlier 1. */
  lemma StampGoesBack()
    ensures var start := Readers([0], 0, map[], {});
            var steps := [TakeTicket(0), TakeTicket(0), StoreTicket(2), StoreTicket(1)];
            && CanReadAll(start, steps) && !NeverLowers(start, steps) && ReadAll(start, steps).stamps == [1]
  {
    CrossedReadsLower(Readers([0], 0, map[], {}));
  }

  /**
   The stamp of a cell never goes back, on any run with at most `k` pending tickets of one cell at
   a time, exactly when `k` is at most one.
   */
  lemma StampsNeverGoBackIff(start: Readers, k: nat)
    requires PhaseStart(start) && start.stamps != []
    ensures k <= 1 <==>
            forall steps :: CanReadAll(start, steps) && PendingAtMost(k, start, steps) ==> NeverLowers(start, steps)
  {
    if k <= 1 {
      forall steps | CanReadAll(start, steps) && PendingAtMost(k, start, steps) ensures NeverLowers(start, steps) {
        FewerPending(k, 1, start, steps);
        OneTicketRises(start, steps);
      }
    } else {
      CrossedReadsLower(start);
      FewerPending(2, k, start, CrossedReads(start.counter));
    }
  }

  /** A `get` that runs alone is a ticket followed at once by its store. */
  lemma LoneRead(start: Readers, cell: nat)
    requires PhaseStart(start) && cell < |start.stamps|
    ensures var steps := [TakeTicket(cell), StoreTicket(start.counter + 1)];
            && CanReadAll(start, steps)
            && ReadAll(start, steps) ==
               Readers(start.stamps[cell := start.counter + 1], start.counter + 1, map[], {cell})
  {
    var steps := [TakeTicket(cell), StoreTicket(start.counter + 1)];
    var r := ReadOnce(start, steps[0]);
    assert steps[1..] == [StoreTicket(start.counter + 1)];
    assert CanReadAll(r, steps[1..]);
    var done := ReadOnce(r, StoreTicket(start.counter + 1));
    assert r.pending - {start.counter + 1} == map[];
    assert steps[1..][1..] == [];
    assert ReadAll(done, []) == done;
  }
}
