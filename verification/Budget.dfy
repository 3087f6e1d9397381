/**
 Virtual-memory budgeting (crates/index-scheduler/src/utils.rs and lib.rs): the search for the
 largest size that can be opened, and the split of that size between databases.

 Sizes are natural numbers; the machine's word size does not appear because every size computed
 is bounded by twice a size that could be opened or by the starting point.
 */
module Budget {
  import opened Basics

  /** Everything up to a good size is good. */
  ghost predicate DownwardClosed(good: nat -> bool) {
    forall x: nat, y: nat :: 1 <= x <= y && good(y) ==> good(x)
  }

  /** A probe is at most the starting point or twice a good size. */
  ghost predicate ModestProbe(good: nat -> bool, start: nat, probe: nat) {
    probe <= start || exists g: nat :: good(g) && probe <= 2 * g
  }

  lemma ModestUnder(good: nat -> bool, start: nat, probe: nat, smaller: nat)
    requires ModestProbe(good, start, probe) && smaller <= probe
    ensures ModestProbe(good, start, smaller)
  {
  }

  lemma ModestDouble(good: nat -> bool, start: nat, g: nat)
    requires good(g)
    ensures ModestProbe(good, start, 2 * g)
  {
  }

  /** `r` is good and its successor is not, or 1 is not good and `r` is 0. */
  predicate Boundary(good: nat -> bool, r: nat) {
    if r == 0 then !good(1) else good(r) && !good(r + 1)
  }

  /** For a downward-closed predicate a boundary is the largest good size. */
  lemma BoundaryIsLargest(good: nat -> bool, r: nat, x: nat)
    requires DownwardClosed(good) && Boundary(good, r) && x >= 1
    ensures good(x) <==> x <= r
  {
  }

  /** What the search knows: a good size below, a bad size above, and where it looks next. */
  ghost predicate Searching(good: nat -> bool, start: nat, best: Option<nat>, bad: Option<nat>, current: nat) {
    && (best.Some? ==> best.value >= 1 && good(best.value))
    && (bad.Some? ==> !good(bad.value) && ModestProbe(good, start, bad.value))
    && current >= 1 && ModestProbe(good, start, current)
    && match (best, bad)
       case (None, None) => current == start
       case (Some(g), None) => current == 2 * g
       case (None, Some(b)) => current == b / 2
       case (Some(g), Some(b)) => g < current < b
  }

  /** The eight transitions. */
  function NextProbe(best: Option<nat>, bad: Option<nat>, current: nat, isGood: bool): (Option<nat>, Option<nat>, nat) {
    match (best, bad, isGood)
    case (None, None, false) => (None, Some(current), current / 2)
    case (None, None, true) => (Some(current), None, current * 2)
    case (None, Some(b), true) => (Some(current), Some(b), (current + b) / 2)
    case (None, Some(_), false) => (None, Some(current), current / 2)
    case (Some(_), None, true) => (Some(current), None, current * 2)
    case (Some(g), None, false) => (Some(g), Some(current), (g + current) / 2)
    case (Some(_), Some(b), true) => (Some(current), Some(b), (b + current) / 2)
    case (Some(g), Some(_), false) => (Some(g), Some(current), (g + current) / 2)
  }

  predicate Stops(best: Option<nat>, bad: Option<nat>, current: nat) {
    current == 0 || (bad.Some? && best.Some? && best.value >= current)
  }

  /** A transition either ends at a boundary or keeps what the search knows. */
  lemma NextProbeIsSound(good: nat -> bool, start: nat, best: Option<nat>, bad: Option<nat>, current: nat)
    requires start >= 1 && Searching(good, start, best, bad, current)
    ensures var (best', bad', current') := NextProbe(best, bad, current, good(current));
            if Stops(best', bad', current') then Boundary(good, current')
            else Searching(good, start, best', bad', current')
  {
    hide ModestProbe, Boundary;
    var (best', bad', current') := NextProbe(best, bad, current, good(current));
    if good(current) {
      ModestDouble(good, start, current);
    } else {
      ModestUnder(good, start, current, current / 2);
    }
    if Stops(best', bad', current') {
      BoundaryReached(good, best', bad', current');
    } else if best'.Some? && bad'.Some? {
      ModestUnder(good, start, bad'.value, current');
    }
  }

  lemma BoundaryReached(good: nat -> bool, best: Option<nat>, bad: Option<nat>, current: nat)
    requires Stops(best, bad, current)
    requires best.Some? ==> best.value >= 1 && good(best.value)
    requires bad.Some? ==> !good(bad.value)
    requires match (best, bad)
             case (Some(g), None) => current == 2 * g
             case (None, Some(b)) => current == b / 2 && b >= 1
             case (Some(g), Some(b)) => g < b && current == (g + b) / 2
             case (None, None) => false
    ensures Boundary(good, current)
  {
  }

  /** Decreases with every probe; no size from `limit` on is good. */
  ghost function Distance(limit: nat, best: Option<nat>, bad: Option<nat>, current: nat): int {
    match (best, bad)
    case (None, None) => 0
    case (Some(_), None) => limit as int - current as int
    case (None, Some(_)) => current
    case (Some(g), Some(b)) => b as int - g as int
  }

  ghost function Phase(best: Option<nat>, bad: Option<nat>): nat {
    if best.None? && bad.None? then 2 else if best.Some? && bad.Some? then 0 else 1
  }

  /**
   `dichotomic_search`, for sizes of which none from `limit` on is good.  It ends at a boundary,
   which is the largest good size if everything below a good size is good, and it never probes
   beyond the starting point or twice a good size.
   */
  method DichotomicSearch(startPoint: nat, good: nat -> bool, ghost limit: nat)
    returns (r: nat, ghost probes: seq<nat>)
    requires forall x: nat :: x >= limit ==> !good(x)
    ensures if startPoint == 0 then r == 0 else Boundary(good, r)
    ensures startPoint >= 1 && DownwardClosed(good) ==> forall x: nat :: x >= 1 ==> (good(x) <==> x <= r)
    ensures forall p :: p in probes ==> ModestProbe(good, startPoint, p)
    ensures startPoint >= 1 && DownwardClosed(good) ==> forall p :: p in probes ==> p <= startPoint || p <= 2 * r
  {
    hide Boundary, ModestProbe;
    var biggestGood: Option<nat> := None;
    var smallestBad: Option<nat> := None;
    var current := startPoint;
    probes := [];
    assert ModestProbe(good, startPoint, startPoint) by { ModestStart(good, startPoint); }
    while true
      invariant if startPoint == 0 then current == 0 && biggestGood.None? && smallestBad.None?
                else Searching(good, startPoint, biggestGood, smallestBad, current)
      invariant forall p :: p in probes ==> ModestProbe(good, startPoint, p)
      invariant ModestProbe(good, startPoint, current)
      decreases Phase(biggestGood, smallestBad), Distance(limit, biggestGood, smallestBad, current)
    {
      var isGood := good(current);
      probes := probes + [current];
      if startPoint >= 1 {
        NextProbeIsSound(good, startPoint, biggestGood, smallestBad, current);
      }
      var next := NextProbe(biggestGood, smallestBad, current, isGood);
      biggestGood, smallestBad, current := next.0, next.1, next.2;
      if current == 0 {
        break;
      }
      if smallestBad.Some? && biggestGood.Some? && biggestGood.value >= current {
        break;
      }
    }
    r := current;
    if startPoint >= 1 && DownwardClosed(good) {
      forall x: nat | x >= 1 ensures good(x) <==> x <= r {
        BoundaryIsLargest(good, r, x);
      }
      forall p | p in probes ensures p <= startPoint || p <= 2 * r {
        ModestUnderBoundary(good, startPoint, r, p);
      }
    }
  }

  lemma ModestUnderBoundary(good: nat -> bool, start: nat, r: nat, probe: nat)
    requires DownwardClosed(good) && Boundary(good, r) && ModestProbe(good, start, probe)
    ensures probe <= start || probe <= 2 * r
  {
  }

  lemma ModestStart(good: nat -> bool, start: nat)
    ensures ModestProbe(good, start, start)
  {
  }

  // ---------- Splitting the budget ----------

  /** `clamp_to_page_size`: the largest multiple of the page size that fits. */
  function ClampToPageSize(size: nat, page: nat): (r: nat)
    requires page > 0
    ensures r % page == 0 && r <= size < r + page
  {
    ClampFacts(size, page);
    size / page * page
  }

  lemma ClampFacts(size: nat, page: nat)
    requires page > 0
    ensures var r := size / page * page; r % page == 0 && 0 <= r <= size < r + page
  {
    var q := size / page;
    assert size == q * page + size % page;
    MultipleHasNoRemainder(q, page);
  }

  lemma MultipleHasNoRemainder(q: nat, page: nat)
    requires page > 0
    ensures q * page % page == 0
  {
    var m := q * page;
    var d, r := m / page, m % page;
    assert m == d * page + r;
    SmallMultiple(q - d, page, r);
  }

  lemma SmallMultiple(k: int, page: nat, r: nat)
    requires k * page == r < page
    ensures r == 0
  {
  }

  const DEFAULT_BUDGET: nat := 80 * 1024 * 1024 * 1024 * 1024

  datatype IndexBudget = IndexBudget(mapSize: nat, indexCount: nat, taskDbSize: nat) {
    /** The task database, the indexes in the cache and the one being opened when it is full. */
    function Total(): nat {
      taskDbSize + (indexCount + 1) * mapSize
    }
  }

  /** The arithmetic of `index_budget`, once the size that can be opened is known. */
  method SplitBudget(size: nat, baseMapSize: nat, requestedTaskDbSize: nat, maxIndexCount: nat, page: nat)
    returns (r: IndexBudget)
    requires baseMapSize > 0 && page > 0
    ensures r.Total() <= size / 2
    ensures r.mapSize <= baseMapSize
    ensures r.taskDbSize <= requestedTaskDbSize
    ensures requestedTaskDbSize % page == 0 ==> r.taskDbSize % page == 0
    ensures maxIndexCount >= 1 ==> 1 <= r.indexCount <= maxIndexCount
    ensures r.taskDbSize == if requestedTaskDbSize <= size / 2 / 2 then requestedTaskDbSize
                            else ClampToPageSize(size / 2 * 2 / 5, page)
    ensures if size / 2 - r.taskDbSize < 2 * baseMapSize
            then r.indexCount == 1 && r.mapSize == (size / 2 - r.taskDbSize) * 2 / 5
            else r.mapSize == baseMapSize && r.indexCount <= maxIndexCount &&
                 (r.indexCount == maxIndexCount || r.Total() + baseMapSize > size / 2)
  {
    var budget := size / 2;
    var taskDbSize := requestedTaskDbSize;
    if taskDbSize > budget / 2 {
      taskDbSize := ClampToPageSize(budget * 2 / 5, page);
    }
    // does not underflow
    assert taskDbSize <= budget;
    r := SplitRest(budget - taskDbSize, baseMapSize, taskDbSize, maxIndexCount);
  }

  /** What remains for the indexes. */
  method SplitRest(budget: nat, baseMapSize: nat, taskDbSize: nat, maxIndexCount: nat) returns (r: IndexBudget)
    requires baseMapSize > 0
    ensures r.taskDbSize == taskDbSize && r.Total() <= taskDbSize + budget && r.mapSize <= baseMapSize
    ensures maxIndexCount >= 1 ==> 1 <= r.indexCount <= maxIndexCount
    ensures if budget < 2 * baseMapSize then r.indexCount == 1 && r.mapSize == budget * 2 / 5
            else r.mapSize == baseMapSize && r.indexCount <= maxIndexCount &&
                 (r.indexCount == maxIndexCount || r.Total() + baseMapSize > taskDbSize + budget)
  {
    var indexCount := budget / baseMapSize;
    QuotientFits(budget, baseMapSize);
    if indexCount < 2 {
      var mapSize := budget * 2 / 5;
      return IndexBudget(mapSize, 1, taskDbSize);
    }
    ghost var affordable := indexCount;
    indexCount := indexCount - 1;
    if indexCount > maxIndexCount {
      indexCount := maxIndexCount;
    }
    FewerFit(indexCount + 1, affordable, baseMapSize);
    r := IndexBudget(baseMapSize, indexCount, taskDbSize);
  }

  lemma QuotientFits(budget: nat, size: nat)
    requires size > 0
    ensures budget / size * size <= budget
    ensures budget < budget / size * size + size
    ensures budget / size < 2 <==> budget < 2 * size
  {
  }

  lemma FewerFit(n: nat, m: nat, size: nat)
    requires n <= m
    ensures n * size <= m * size
  {
  }

  /** The sizes that can be opened, once clamped to the page size. */
  function Openable(opens: nat -> bool, page: nat): nat -> bool
    requires page > 0
  {
    (x: nat) => opens(ClampToPageSize(x, page))
  }

  /**
   `index_budget`: `opens` tells which page-aligned map sizes can be opened, none of them from
   `limit` on.  The result fits in half of the size found: the default, or a size that can be opened
   while the next one cannot, or 0 if not even 1 can.  If everything below a size that can be opened
   can be opened, it is the largest such size up to the default.  Beyond the default of 80 TiB only
   sizes up to half of it or twice a size that can be opened are tried.
   */
  method ComputeIndexBudget(opens: nat -> bool, ghost limit: nat,
                            baseMapSize: nat, taskDbSize: nat, maxIndexCount: nat, page: nat)
    returns (r: IndexBudget, size: nat, ghost probes: seq<nat>)
    requires baseMapSize > 0 && page > 0
    requires forall x: nat :: x >= limit ==> !Openable(opens, page)(x)
    ensures var good, tebibyte := Openable(opens, page), 0x100_0000_0000;
            && (if good(80 * tebibyte) then size == 80 * tebibyte else Boundary(good, size))
            && (DownwardClosed(good) ==>
                 size <= 80 * tebibyte && forall x: nat :: 1 <= x <= 80 * tebibyte ==> (good(x) <==> x <= size))
            && (forall p :: p in probes ==> p == 80 * tebibyte || ModestProbe(good, 40 * tebibyte, p))
    ensures r.Total() <= size / 2
    ensures r.mapSize <= baseMapSize
    ensures r.taskDbSize <= taskDbSize
    ensures taskDbSize % page == 0 ==> r.taskDbSize % page == 0
    ensures maxIndexCount >= 1 ==> 1 <= r.indexCount <= maxIndexCount
    ensures r.taskDbSize == if taskDbSize <= size / 2 / 2 then taskDbSize else ClampToPageSize(size / 2 * 2 / 5, page)
    ensures if size / 2 - r.taskDbSize < 2 * baseMapSize
            then r.indexCount == 1 && r.mapSize == (size / 2 - r.taskDbSize) * 2 / 5
            else r.mapSize == baseMapSize && r.indexCount <= maxIndexCount &&
                 (r.indexCount == maxIndexCount || r.Total() + baseMapSize > size / 2)
  {
    var good := Openable(opens, page);
    probes := [DEFAULT_BUDGET];
    if good(DEFAULT_BUDGET) {
      size := DEFAULT_BUDGET;
    } else {
      ghost var more;
      size, more := DichotomicSearch(DEFAULT_BUDGET / 2, good, limit);
      probes := probes + more;
    }
    hide ModestProbe, Boundary;
    r := SplitBudget(size, baseMapSize, taskDbSize, maxIndexCount, page);
  }
}
