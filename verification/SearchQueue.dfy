/**
 The search permit queue (crates/meilisearch/src/search_queue.rs): the loop that owns the queue,
 the permits held by searches, and the release messages travelling back to the loop.

 A request is identified by a number.  The random choice of a queue position is a parameter.
 */
module SearchQueue {
  import opened Basics

  type Request = nat

  datatype Config = Config(capacity: nat, parallelism: nat) {
    /** `parallelism` is a `NonZeroUsize`. */
    predicate Valid() {
      parallelism >= 1
    }
  }

  /** The local variables of the loop. */
  datatype Loop = Loop(queue: seq<Request>, searchesRunning: nat)

  /** What one turn of the loop did. */
  datatype Turn = Turn(loop: Loop, granted: Option<Request>, refused: Option<Request>)

  /** The random position is meaningful when a position has to be chosen. */
  predicate Choosable(queue: seq<Request>, remove: nat) {
    queue == [] || remove < |queue|
  }

  function OnSearchFinished(loop: Loop, remove: nat): Turn
    requires Choosable(loop.queue, remove)
  {
    var running := if loop.searchesRunning == 0 then 0 else loop.searchesRunning - 1;
    if loop.queue == [] then Turn(Loop([], running), None, None)
    else Turn(Loop(SwapRemove(loop.queue, remove), running), Some(loop.queue[remove]), None)
  }

  function OnSearchRequest(config: Config, loop: Loop, request: Request, remove: nat): Turn
    requires Choosable(loop.queue, remove)
  {
    if loop.searchesRunning < config.parallelism && loop.queue == [] then
      Turn(Loop([], loop.searchesRunning + 1), Some(request), None)
    else if config.capacity == 0 then
      Turn(loop, None, Some(request))
    else if |loop.queue| >= config.capacity then
      Turn(Loop(SwapRemove(loop.queue, remove) + [request], loop.searchesRunning), None, Some(loop.queue[remove]))
    else
      Turn(Loop(loop.queue + [request], loop.searchesRunning), None, None)
  }

  /** A request that is granted at once, or refused for want of any capacity, skips the end of the turn. */
  predicate RequestPublishes(config: Config, turn: Turn) {
    turn.granted.None? && config.capacity > 0
  }

  /** The loop itself, with the two metrics it publishes. */
  class SearchLoop {
    const config: Config
    var queue: seq<Request>
    var searchesRunning: nat
    var metricSearchesRunning: nat
    var metricSearchesWaiting: nat

    ghost function View(): Loop
      reads this
    {
      Loop(queue, searchesRunning)
    }

    /** The published queue length is never stale, although some turns publish nothing. */
    ghost predicate Valid()
      reads this
    {
      config.Valid() && |queue| <= config.capacity && metricSearchesWaiting == |queue|
    }

    constructor (config: Config)
      requires config.Valid()
      ensures Valid() && this.config == config && View() == Loop([], 0) && metricSearchesRunning == 0
    {
      this.config := config;
      queue, searchesRunning := [], 0;
      metricSearchesRunning, metricSearchesWaiting := 0, 0;
    }

    method SearchFinished(remove: nat) returns (granted: Option<Request>)
      requires Valid() && Choosable(queue, remove)
      modifies this
      ensures Valid()
      ensures View() == old(OnSearchFinished(View(), remove).loop)
      ensures granted == old(OnSearchFinished(View(), remove).granted)
      ensures metricSearchesRunning == searchesRunning
    {
      searchesRunning := if searchesRunning == 0 then 0 else searchesRunning - 1;
      granted := None;
      if queue != [] {
        var channel := queue[remove];
        queue := SwapRemove(queue, remove);
        granted := Some(channel);
      }
      metricSearchesRunning, metricSearchesWaiting := searchesRunning, |queue|;
    }

    method SearchRequested(request: Request, remove: nat) returns (granted: Option<Request>, refused: Option<Request>)
      requires Valid() && Choosable(queue, remove)
      modifies this
      ensures Valid()
      ensures View() == old(OnSearchRequest(config, View(), request, remove).loop)
      ensures granted == old(OnSearchRequest(config, View(), request, remove).granted)
      ensures refused == old(OnSearchRequest(config, View(), request, remove).refused)
      ensures metricSearchesRunning ==
              if old(RequestPublishes(config, OnSearchRequest(config, View(), request, remove))) then searchesRunning
              else old(metricSearchesRunning)
    {
      granted, refused := None, None;
      if searchesRunning < config.parallelism && queue == [] {
        searchesRunning := searchesRunning + 1;
        granted := Some(request);
        return;
      } else if config.capacity == 0 {
        refused := Some(request);
        return;
      } else if |queue| >= config.capacity {
        var thing := queue[remove];
        queue := SwapRemove(queue, remove);
        refused := Some(thing);
      }
      queue := queue + [request];
      metricSearchesRunning, metricSearchesWaiting := searchesRunning, |queue|;
    }
  }

  // ---------- The protocol around the loop ----------

  /**
   `held` permits are with a search; `closing` ones have sent the release of the explicit `drop`
   and will send the release of the implicit one when that call returns; `inFlight` counts the
   releases sent and not yet received by the loop, `processed` those it has received; `published` is
   the metric of running searches.
   */
  datatype State = State(
    loop: Loop,
    held: nat,
    closing: nat,
    inFlight: nat,
    processed: nat,
    published: nat,
    received: set<Request>,
    granted: set<Request>,
    refused: set<Request>)
  {
    function LivePermits(): nat {
      held + closing
    }

    function Waiting(): set<Request> {
      Elements(loop.queue)
    }
  }

  datatype Step =
    | Receive(request: Request, remove: nat)
    | Process(remove: nat)
    | ExplicitDrop
    | ImplicitDrop
    | ImplicitDropAfterExplicit

  const INITIAL := State(Loop([], 0), 0, 0, 0, 0, 0, {}, {}, {})

  predicate Enabled(s: State, step: Step) {
    match step
    case Receive(request, remove) => request !in s.received && Choosable(s.loop.queue, remove)
    case Process(remove) => s.inFlight > 0 && Choosable(s.loop.queue, remove)
    case ExplicitDrop => s.held > 0
    case ImplicitDrop => s.held > 0
    case ImplicitDropAfterExplicit => s.closing > 0
  }

  function Add(requests: set<Request>, r: Option<Request>): set<Request> {
    if r.Some? then requests + {r.value} else requests
  }

  /** The outcomes of a turn: a granted permit is live from the moment it is sent. */
  function Record(s: State, turn: Turn): State {
    s.(loop := turn.loop,
       held := s.held + if turn.granted.Some? then 1 else 0,
       granted := Add(s.granted, turn.granted),
       refused := Add(s.refused, turn.refused))
  }

  function Apply(config: Config, s: State, step: Step): State
    requires Enabled(s, step)
  {
    match step
    case Receive(request, remove) =>
      var turn := OnSearchRequest(config, s.loop, request, remove);
      var published := if RequestPublishes(config, turn) then turn.loop.searchesRunning else s.published;
      Record(s.(received := s.received + {request}, published := published), turn)
    case Process(remove) =>
      var turn := OnSearchFinished(s.loop, remove);
      Record(s.(inFlight := s.inFlight - 1, processed := s.processed + 1, published := turn.loop.searchesRunning), turn)
    case ExplicitDrop => s.(held := s.held - 1, closing := s.closing + 1, inFlight := s.inFlight + 1)
    case ImplicitDrop => s.(held := s.held - 1, inFlight := s.inFlight + 1)
    case ImplicitDropAfterExplicit => s.(closing := s.closing - 1, inFlight := s.inFlight + 1)
  }

  predicate Runs(config: Config, s: State, steps: seq<Step>)
    decreases |steps|
  {
    steps == [] || (Enabled(s, steps[0]) && Runs(config, Apply(config, s, steps[0]), steps[1..]))
  }

  function Run(config: Config, s: State, steps: seq<Step>): State
    requires Runs(config, s, steps)
    decreases |steps|
  {
    if steps == [] then s else Run(config, Apply(config, s, steps[0]), steps[1..])
  }

  // ---------- Safety ----------

  /** Every request received is in exactly one of granted, refused and waiting. */
  predicate Conserved(s: State) {
    && NoDuplicates(s.loop.queue)
    && s.received == s.granted + s.refused + s.Waiting()
    && s.granted !! s.refused && s.granted !! s.Waiting() && s.refused !! s.Waiting()
  }

  predicate Bounded(config: Config, s: State) {
    s.loop.searchesRunning <= config.parallelism && |s.loop.queue| <= config.capacity
  }

  /** The counter is covered by permits and releases, and so is a waiting request. */
  predicate Covered(s: State) {
    && s.loop.searchesRunning <= s.LivePermits() + s.inFlight
    && (s.loop.queue != [] ==> s.LivePermits() + s.inFlight >= 1)
  }

  predicate Invariant(config: Config, s: State) {
    Conserved(s) && Bounded(config, s) && Covered(s)
  }

  lemma ReceiveConserves(config: Config, s: State, request: Request, remove: nat)
    requires Conserved(s) && Enabled(s, Receive(request, remove))
    ensures Conserved(Apply(config, s, Receive(request, remove)))
  {
    var s' := Apply(config, s, Receive(request, remove));
    var queue := s.loop.queue;
    assert request !in Elements(queue);
    if !(s.loop.searchesRunning < config.parallelism && queue == []) && config.capacity != 0 {
      if |queue| >= config.capacity {
        var kept := SwapRemove(queue, remove);
        SwapRemoveElements(queue, remove);
        assert Elements(kept + [request]) == Elements(kept) + {request};
        assert request !in kept by { assert forall x :: x in kept ==> x in Elements(kept); }
      } else {
        assert Elements(queue + [request]) == Elements(queue) + {request};
        assert forall x :: x in queue ==> x in Elements(queue);
      }
    }
  }

  lemma ProcessConserves(config: Config, s: State, remove: nat)
    requires Conserved(s) && Enabled(s, Process(remove))
    ensures Conserved(Apply(config, s, Process(remove)))
  {
  }

  lemma StepKeepsInvariant(config: Config, s: State, step: Step)
    requires config.Valid() && Invariant(config, s) && Enabled(s, step)
    ensures Invariant(config, Apply(config, s, step))
  {
    match step
    case Receive(request, remove) => ReceiveConserves(config, s, request, remove);
    case Process(remove) => ProcessConserves(config, s, remove);
    case _ =>
  }

  lemma {:induction false} RunKeepsInvariant(config: Config, s: State, steps: seq<Step>)
    requires config.Valid() && Invariant(config, s) && Runs(config, s, steps)
    ensures Invariant(config, Run(config, s, steps))
    decreases |steps|
  {
    if steps != [] {
      StepKeepsInvariant(config, s, steps[0]);
      RunKeepsInvariant(config, Apply(config, s, steps[0]), steps[1..]);
    }
  }

  /**
   In every reachable state: every request has exactly one status, the queue and the counter are
   within their bounds, and a waiting request is covered by a live permit or a release in flight.
   */
  lemma ReachableStatesAreSafe(config: Config, steps: seq<Step>)
    requires config.Valid() && Runs(config, INITIAL, steps)
    ensures Invariant(config, Run(config, INITIAL, steps))
  {
    RunKeepsInvariant(config, INITIAL, steps);
  }

  // ---------- Outcomes ----------

  /** Outcomes are final: what was granted or refused stays so, along every run. */
  lemma {:induction false} OutcomesAreFinal(config: Config, s: State, steps: seq<Step>)
    requires Runs(config, s, steps)
    ensures var t := Run(config, s, steps);
            s.granted <= t.granted && s.refused <= t.refused && s.received <= t.received
    decreases |steps|
  {
    if steps != [] {
      OutcomesAreFinal(config, Apply(config, s, steps[0]), steps[1..]);
    }
  }

  /**
   A request is refused only by the arrival of another one at a full queue, or by a queue of
   capacity zero; in the first case the victim is one of the waiting requests and the new request
   is waiting.
   */
  lemma RefusedOnlyWhenFull(config: Config, s: State, step: Step)
    requires config.Valid() && Invariant(config, s) && Enabled(s, step)
    requires Apply(config, s, step).refused != s.refused
    ensures step.Receive? && |s.loop.queue| == config.capacity
    ensures s.loop.searchesRunning == config.parallelism || s.loop.queue != []
    ensures var s' := Apply(config, s, step);
            if config.capacity == 0 then s'.refused == s.refused + {step.request}
            else
              && step.request in s'.Waiting()
              && (exists victim :: victim in s.Waiting() && s'.refused == s.refused + {victim} &&
                                   s'.Waiting() == s.Waiting() - {victim} + {step.request})
  {
  }

  /**
   What becomes of a request on arrival: granted exactly if nobody waits and the counter is below the
   parallelism, refused exactly if it is not granted and there is no queue, else waiting; the others
   keep waiting unless the queue is full, in which case one of them is refused.
   */
  lemma ArrivalOutcome(config: Config, s: State, request: Request, remove: nat)
    requires config.Valid() && Invariant(config, s) && Enabled(s, Receive(request, remove))
    ensures var s' := Apply(config, s, Receive(request, remove));
            var atOnce := s.Waiting() == {} && s.loop.searchesRunning < config.parallelism;
            && (request in s'.granted <==> atOnce)
            && (request in s'.refused <==> !atOnce && config.capacity == 0)
            && (request in s'.Waiting() <==> !atOnce && config.capacity > 0)
            && s'.granted == (if atOnce then s.granted + {request} else s.granted)
            && s'.loop.searchesRunning == s.loop.searchesRunning + (if atOnce then 1 else 0)
            && (|s.loop.queue| < config.capacity ==> s'.refused == s.refused && s.Waiting() <= s'.Waiting())
  {
    var s' := Apply(config, s, Receive(request, remove));
    ReceiveConserves(config, s, request, remove);
    SomethingIsThere(s.loop.queue);
    var queue := s.loop.queue;
    assert request !in s.granted && request !in s.refused && request !in s.Waiting();
    assert forall x :: x in queue <==> x in s.Waiting();
    var atOnce := queue == [] && s.loop.searchesRunning < config.parallelism;
    if !atOnce && config.capacity > 0 {
      var kept := if |queue| >= config.capacity then SwapRemove(queue, remove) else queue;
      assert s'.loop.queue == kept + [request];
      assert s'.loop.queue[|kept|] == request;
      assert request in s'.Waiting();
      if |queue| < config.capacity {
        forall x | x in s.Waiting() ensures x in s'.Waiting() {
          var i :| 0 <= i < |queue| && queue[i] == x;
          assert s'.loop.queue[i] == x;
        }
      }
    }
  }

  /** What becomes of the others when a release is processed: the counter goes down, one waiter is granted. */
  lemma ReleaseOutcome(config: Config, s: State, remove: nat)
    requires Conserved(s) && Enabled(s, Process(remove))
    ensures var s' := Apply(config, s, Process(remove));
            && s'.loop.searchesRunning == (if s.loop.searchesRunning > 0 then s.loop.searchesRunning - 1 else 0)
            && s'.refused == s.refused && s'.received == s.received
            && (if s.Waiting() == {} then s'.granted == s.granted && s'.Waiting() == {}
                else exists x :: x in s.Waiting() && s'.granted == s.granted + {x} && s'.Waiting() == s.Waiting() - {x})
  {
    SomethingIsThere(s.loop.queue);
    if s.loop.queue != [] {
      SwapRemoveElements(s.loop.queue, remove);
      assert s.loop.queue[remove] in s.Waiting();
    }
  }

  /** The choice is free: a release may serve any waiter, and a full queue may lose any of them. */
  lemma AnyWaiterMayBeChosen(config: Config, s: State, x: Request, request: Request) returns (remove: nat)
    requires config.Valid() && Invariant(config, s) && x in s.Waiting()
    ensures Choosable(s.loop.queue, remove)
    ensures s.inFlight > 0 ==> Apply(config, s, Process(remove)).granted == s.granted + {x}
    ensures request !in s.received && |s.loop.queue| == config.capacity ==>
              Apply(config, s, Receive(request, remove)).refused == s.refused + {x}
  {
    remove :| 0 <= remove < |s.loop.queue| && s.loop.queue[remove] == x;
  }

  /** While requests wait, every grant goes to one of them: no newcomer overtakes. */
  lemma NobodyOvertakes(config: Config, steps: seq<Step>, i: nat, x: Request)
    requires config.Valid() && Runs(config, INITIAL, steps) && i < |steps|
    ensures Runs(config, INITIAL, steps[..i]) && Runs(config, INITIAL, steps[..i + 1])
    ensures var s, s' := Run(config, INITIAL, steps[..i]), Run(config, INITIAL, steps[..i + 1]);
            s.Waiting() != {} && x in s'.granted && x !in s.granted ==> x in s.Waiting()
  {
    PrefixRuns(config, INITIAL, steps, i);
    var s := Run(config, INITIAL, steps[..i]);
    ReachableStatesAreSafe(config, steps[..i]);
    match steps[i]
    case Receive(request, remove) => ArrivalOutcome(config, s, request, remove);
    case Process(remove) => ReleaseOutcome(config, s, remove);
    case _ =>
  }

  lemma {:induction false} PrefixRuns(config: Config, s: State, steps: seq<Step>, i: nat)
    requires Runs(config, s, steps) && i < |steps|
    ensures Runs(config, s, steps[..i]) && Runs(config, s, steps[..i + 1])
    ensures var t := Run(config, s, steps[..i]);
            Enabled(t, steps[i]) && Run(config, s, steps[..i + 1]) == Apply(config, t, steps[i])
    decreases i
  {
    var next := Apply(config, s, steps[0]);
    assert steps[..i + 1][1..] == steps[1..][..i];
    if i == 0 {
      assert Run(config, next, []) == next;
    } else {
      assert steps[..i][1..] == steps[1..][..i - 1];
      PrefixRuns(config, next, steps[1..], i - 1);
    }
  }

  /** A processed release serves exactly one waiter if there is one. */
  lemma ReleaseServesOne(config: Config, s: State, remove: nat)
    requires Conserved(s) && Enabled(s, Process(remove)) && s.loop.queue != []
    ensures var s' := Apply(config, s, Process(remove));
            && |s'.loop.queue| == |s.loop.queue| - 1
            && |s'.granted| == |s.granted| + 1
            && s'.granted + s'.Waiting() == s.granted + s.Waiting()
            && s'.refused == s.refused
  {
    var queue := s.loop.queue;
    assert queue[remove] in s.Waiting();
    SwapRemoveElements(queue, remove);
  }

  // ---------- No waiter is stranded ----------

  /** Steps other than the arrival of a request. */
  predicate Quiet(steps: seq<Step>) {
    forall i :: 0 <= i < |steps| ==> !steps[i].Receive?
  }

  /** Decreases with every step that is not an arrival. */
  function Weight(s: State): nat {
    4 * |s.loop.queue| + 4 * s.held + 2 * s.closing + s.inFlight
  }

  /** No step is possible until a new request arrives. */
  ghost predicate Quiescent(s: State) {
    forall step: Step :: Enabled(s, step) ==> step.Receive?
  }

  lemma QuietStep(config: Config, s: State, step: Step)
    requires Conserved(s) && Enabled(s, step) && !step.Receive?
    ensures Weight(Apply(config, s, step)) < Weight(s)
    ensures var s' := Apply(config, s, step);
            s'.granted + s'.Waiting() == s.granted + s.Waiting() && s'.refused == s.refused
  {
  }

  /** With no new arrivals the protocol runs out of steps: no run is longer than the weight. */
  lemma {:induction false} QuietRun(config: Config, s: State, steps: seq<Step>)
    requires config.Valid() && Invariant(config, s) && Runs(config, s, steps) && Quiet(steps)
    ensures |steps| + Weight(Run(config, s, steps)) <= Weight(s)
    ensures var t := Run(config, s, steps);
            t.granted + t.Waiting() == s.granted + s.Waiting() && t.refused == s.refused
    decreases |steps|
  {
    if steps != [] {
      QuietStep(config, s, steps[0]);
      StepKeepsInvariant(config, s, steps[0]);
      QuietRun(config, Apply(config, s, steps[0]), steps[1..]);
    }
  }

  /** A safe state with a waiting request is never stuck. */
  lemma WaitingMeansProgress(config: Config, s: State)
    requires Invariant(config, s) && s.loop.queue != []
    ensures !Quiescent(s)
  {
    if s.inFlight > 0 {
      assert Enabled(s, Process(0));
    } else if s.held > 0 {
      assert Enabled(s, ImplicitDrop);
    } else {
      assert Enabled(s, ImplicitDropAfterExplicit);
    }
  }

  /**
   No waiter is stranded: from any reachable state, every run without new arrivals is finite, and
   once it can go no further every request that was waiting has been granted.
   */
  lemma NoWaiterIsStranded(config: Config, history: seq<Step>, steps: seq<Step>)
    requires config.Valid() && Runs(config, INITIAL, history)
    requires Runs(config, Run(config, INITIAL, history), steps) && Quiet(steps)
    ensures var s := Run(config, INITIAL, history);
            var t := Run(config, s, steps);
            && |steps| <= Weight(s)
            && (Quiescent(t) ==> t.loop.queue == [] && s.Waiting() <= t.granted)
  {
    var s := Run(config, INITIAL, history);
    ReachableStatesAreSafe(config, history);
    QuietRun(config, s, steps);
    RunKeepsInvariant(config, s, steps);
    var t := Run(config, s, steps);
    if Quiescent(t) && t.loop.queue != [] {
      WaitingMeansProgress(config, t);
      assert false;
    }
  }

  // ---------- How many permits there can be ----------

  /** Every grant is paid for by the counter or by a release, each release paying for two at most. */
  predicate PaidFor(s: State) {
    |s.granted| <= s.loop.searchesRunning + 2 * s.processed
  }

  lemma {:induction false} RunKeepsPaidFor(config: Config, s: State, steps: seq<Step>)
    requires PaidFor(s) && Runs(config, s, steps)
    ensures PaidFor(Run(config, s, steps))
    decreases |steps|
  {
    if steps != [] {
      RunKeepsPaidFor(config, Apply(config, s, steps[0]), steps[1..]);
    }
  }

  /** In every reachable state at most parallelism plus twice the processed releases have been granted. */
  lemma GrantsAreBounded(config: Config, steps: seq<Step>)
    requires config.Valid() && Runs(config, INITIAL, steps)
    ensures var s := Run(config, INITIAL, steps); |s.granted| <= config.parallelism + 2 * s.processed
  {
    RunKeepsPaidFor(config, INITIAL, steps);
    ReachableStatesAreSafe(config, steps);
  }

  predicate NoExplicitDrop(steps: seq<Step>) {
    forall i :: 0 <= i < |steps| ==> !steps[i].ExplicitDrop?
  }

  /** The `select!` is biased: a request is received only when no release is waiting to be processed. */
  predicate Biased(config: Config, s: State, steps: seq<Step>)
    requires Runs(config, s, steps)
    decreases |steps|
  {
    steps == [] ||
    ((steps[0].Receive? ==> s.inFlight == 0) && Biased(config, Apply(config, s, steps[0]), steps[1..]))
  }

  /** Without a queue and without explicit drops the counter is exact. */
  predicate Exact(s: State) {
    s.loop.queue == [] && s.closing == 0 && s.loop.searchesRunning == s.held + s.inFlight
  }

  lemma {:induction false} RunKeepsExact(config: Config, s: State, steps: seq<Step>)
    requires config.capacity == 0 && Exact(s) && Runs(config, s, steps) && NoExplicitDrop(steps)
    ensures Exact(Run(config, s, steps))
    decreases |steps|
  {
    if steps != [] {
      assert !steps[0].ExplicitDrop?;
      RunKeepsExact(config, Apply(config, s, steps[0]), steps[1..]);
    }
  }

  /** The given number of requests, numbered from `from` on. */
  function Arrivals(from: nat, count: nat): seq<Step>
    decreases count
  {
    if count == 0 then [] else [Receive(from, 0)] + Arrivals(from + 1, count - 1)
  }

  /** As many requests as the parallelism allows are granted at once. */
  lemma {:induction false} Saturate(config: Config, s: State, from: nat)
    requires from <= config.parallelism && s.loop == Loop([], from) && s.held == from && s.inFlight == 0
    requires forall r :: r in s.received ==> r < from
    ensures var steps := Arrivals(from, config.parallelism - from);
            && Runs(config, s, steps) && Biased(config, s, steps) && NoExplicitDrop(steps)
            && var t := Run(config, s, steps);
               && t.loop == Loop([], config.parallelism) && t.held == config.parallelism
               && t.closing == s.closing && t.inFlight == 0
               && forall r :: r in t.received ==> r < config.parallelism
    decreases config.parallelism - from
  {
    if from < config.parallelism {
      Saturate(config, Apply(config, s, Receive(from, 0)), from + 1);
    }
  }

  lemma {:induction false} RunsConcat(config: Config, s: State, a: seq<Step>, b: seq<Step>)
    requires Runs(config, s, a) && Runs(config, Run(config, s, a), b)
    ensures Runs(config, s, a + b) && Run(config, s, a + b) == Run(config, Run(config, s, a), b)
    ensures Biased(config, s, a) && Biased(config, Run(config, s, a), b) ==> Biased(config, s, a + b)
    decreases |a|
  {
    if a == [] {
      assert a + b == b;
    } else {
      assert (a + b)[1..] == a[1..] + b;
      RunsConcat(config, Apply(config, s, a[0]), a[1..], b);
    }
  }

  /** With a queue, a release both lowers the counter and serves a waiter, so one more permit fits in. */
  lemma QueueExceedsParallelism(config: Config) returns (steps: seq<Step>)
    requires config.Valid() && config.capacity >= 1
    ensures Runs(config, INITIAL, steps) && Biased(config, INITIAL, steps) && NoExplicitDrop(steps)
    ensures Run(config, INITIAL, steps).LivePermits() > config.parallelism
  {
    var p := config.parallelism;
    Saturate(config, INITIAL, 0);
    var full := Run(config, INITIAL, Arrivals(0, p));
    var s1 := Apply(config, full, Receive(p, 0));
    var s2 := Apply(config, s1, ImplicitDrop);
    var s3 := Apply(config, s2, Process(0));
    var s4 := Apply(config, s3, Receive(p + 1, 0));
    var more := [Receive(p, 0), ImplicitDrop, Process(0), Receive(p + 1, 0)];
    Unroll4(config, full, more[0], more[1], more[2], more[3]);
    RunsConcat(config, INITIAL, Arrivals(0, p), more);
    steps := Arrivals(0, p) + more;
  }

  /** An explicit drop sends two releases, so one more permit fits in even without a queue. */
  lemma ExplicitDropExceedsParallelism(config: Config) returns (steps: seq<Step>)
    requires config.Valid() && config.capacity == 0
    ensures Runs(config, INITIAL, steps) && Biased(config, INITIAL, steps)
    ensures Run(config, INITIAL, steps).LivePermits() > config.parallelism
  {
    var p := config.parallelism;
    Saturate(config, INITIAL, 0);
    var full := Run(config, INITIAL, Arrivals(0, p));
    var first := [ExplicitDrop, Process(0), Receive(p, 0), ImplicitDropAfterExplicit];
    Unroll4(config, full, first[0], first[1], first[2], first[3]);
    var again := Run(config, full, first);
    var second := [Process(0), Receive(p + 1, 0)];
    var s1 := Apply(config, again, Process(0));
    assert second == [Process(0)] + [Receive(p + 1, 0)] && [Receive(p + 1, 0)] == [Receive(p + 1, 0)] + [];
    OneStep(config, s1, Receive(p + 1, 0), []);
    OneStep(config, again, Process(0), [Receive(p + 1, 0)]);
    RunsConcat(config, full, first, second);
    RunsConcat(config, INITIAL, Arrivals(0, p), first + second);
    steps := Arrivals(0, p) + (first + second);
  }

  lemma Unroll4(config: Config, s: State, a: Step, b: Step, c: Step, d: Step)
    requires Enabled(s, a) && Enabled(Apply(config, s, a), b)
    requires Enabled(Apply(config, Apply(config, s, a), b), c)
    requires Enabled(Apply(config, Apply(config, Apply(config, s, a), b), c), d)
    ensures Runs(config, s, [a, b, c, d])
    ensures Run(config, s, [a, b, c, d]) ==
            Apply(config, Apply(config, Apply(config, Apply(config, s, a), b), c), d)
    ensures (a.Receive? ==> s.inFlight == 0) && (b.Receive? ==> Apply(config, s, a).inFlight == 0) &&
            (c.Receive? ==> Apply(config, Apply(config, s, a), b).inFlight == 0) &&
            (d.Receive? ==> Apply(config, Apply(config, Apply(config, s, a), b), c).inFlight == 0) ==>
              Biased(config, s, [a, b, c, d])
  {
    hide Enabled, Apply;
    var s1 := Apply(config, s, a);
    var s2 := Apply(config, s1, b);
    var s3 := Apply(config, s2, c);
    var s4 := Apply(config, s3, d);
    assert [d] == [d] + [] && [c, d] == [c] + [d] && [b, c, d] == [b] + [c, d] && [a, b, c, d] == [a] + [b, c, d];
    assert Runs(config, s4, []) && Run(config, s4, []) == s4 && Biased(config, s4, []);
    hide Runs, Run, Biased;
    OneStep(config, s3, d, []);
    OneStep(config, s2, c, [d]);
    OneStep(config, s1, b, [c, d]);
    OneStep(config, s, a, [b, c, d]);
  }

  lemma OneStep(config: Config, s: State, a: Step, rest: seq<Step>)
    requires Enabled(s, a) && Runs(config, Apply(config, s, a), rest)
    ensures var steps := [a] + rest;
            && Runs(config, s, steps) && Run(config, s, steps) == Run(config, Apply(config, s, a), rest)
            && (Biased(config, s, steps) <==>
                 (a.Receive? ==> s.inFlight == 0) && Biased(config, Apply(config, s, a), rest))
  {
    assert ([a] + rest)[1..] == rest;
  }

  /** The live permits stay within the parallelism along the run. */
  ghost predicate Within(config: Config, steps: seq<Step>) {
    Runs(config, INITIAL, steps) ==> Run(config, INITIAL, steps).LivePermits() <= config.parallelism
  }

  predicate RespectsBias(config: Config, steps: seq<Step>) {
    Runs(config, INITIAL, steps) ==> Biased(config, INITIAL, steps)
  }

  /** The runs in question: with or without explicit drops, in any order or in the order of the bias. */
  predicate Considered(config: Config, explicitDrops: bool, biased: bool, steps: seq<Step>) {
    (explicitDrops || NoExplicitDrop(steps)) && (biased ==> RespectsBias(config, steps))
  }

  /**
   The parallelism bounds the number of live permits on every run exactly when requests cannot wait
   and permits are never dropped explicitly; the bias of the loop makes no difference.
   */
  lemma ParallelismBoundsPermitsIff(config: Config, explicitDrops: bool, biased: bool)
    requires config.Valid()
    ensures (forall steps :: Considered(config, explicitDrops, biased, steps) ==> Within(config, steps)) <==>
            config.capacity == 0 && !explicitDrops
  {
    if config.capacity == 0 && !explicitDrops {
      forall steps | NoExplicitDrop(steps) && Runs(config, INITIAL, steps) ensures Within(config, steps) {
        RunKeepsExact(config, INITIAL, steps);
        ReachableStatesAreSafe(config, steps);
      }
    } else if config.capacity >= 1 {
      var steps := QueueExceedsParallelism(config);
      assert Considered(config, explicitDrops, biased, steps) && !Within(config, steps);
    } else {
      var steps := ExplicitDropExceedsParallelism(config);
      assert Considered(config, explicitDrops, biased, steps) && !Within(config, steps);
    }
  }

  // ---------- The published number of running searches ----------

  predicate GrantsAtOnce(config: Config, s: State, step: Step)
    requires Enabled(s, step)
  {
    step.Receive? && OnSearchRequest(config, s.loop, step.request, step.remove).granted.Some?
  }

  predicate Publishes(config: Config, s: State, step: Step)
    requires Enabled(s, step)
  {
    match step
    case Receive(request, remove) => RequestPublishes(config, OnSearchRequest(config, s.loop, request, remove))
    case Process(_) => true
    case _ => false
  }

  /** How many requests have been granted at once since the last turn that published, after `n` before the run. */
  function GrantedSincePublished(config: Config, s: State, steps: seq<Step>, n: nat): nat
    requires Runs(config, s, steps)
    decreases |steps|
  {
    if steps == [] then n
    else
      var m := if Publishes(config, s, steps[0]) then 0 else if GrantsAtOnce(config, s, steps[0]) then n + 1 else n;
      GrantedSincePublished(config, Apply(config, s, steps[0]), steps[1..], m)
  }

  lemma {:induction false} RunLags(config: Config, s: State, steps: seq<Step>, n: nat)
    requires Runs(config, s, steps) && s.loop.searchesRunning == s.published + n
    ensures var t := Run(config, s, steps);
            t.loop.searchesRunning == t.published + GrantedSincePublished(config, s, steps, n)
    decreases |steps|
  {
    if steps != [] {
      var m := if Publishes(config, s, steps[0]) then 0 else if GrantsAtOnce(config, s, steps[0]) then n + 1 else n;
      RunLags(config, Apply(config, s, steps[0]), steps[1..], m);
    }
  }

  /**
   On every run the published number lags behind the counter by the requests granted at once since
   the last turn that published; the two agree exactly when there are none.
   */
  lemma PublishedLags(config: Config, steps: seq<Step>)
    requires Runs(config, INITIAL, steps)
    ensures var s, since := Run(config, INITIAL, steps), GrantedSincePublished(config, INITIAL, steps, 0);
            && s.loop.searchesRunning == s.published + since
            && (s.published == s.loop.searchesRunning <==> since == 0)
  {
    RunLags(config, INITIAL, steps, 0);
  }

  /** The very first request is granted at once, and the published number stays at zero. */
  lemma FirstSearchIsNotPublished(config: Config)
    requires config.Valid()
    ensures var steps := [Receive(0, 0)];
            && Runs(config, INITIAL, steps)
            && var s := Run(config, INITIAL, steps); s.loop.searchesRunning == 1 && s.published == 0
  {
    var s := Apply(config, INITIAL, Receive(0, 0));
    assert [Receive(0, 0)][1..] == [] && Run(config, s, []) == s;
  }
}
