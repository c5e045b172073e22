/** What callers of Walk may rely on, for every tree, every walkFn and every interleaving. */
module WalkTheorems {
  import opened Common
  import opened Walk
  import opened WalkProof

  /** The whole tree, as first put into the channel. */
  ghost function Root(cfg: Config): (f: Item) {
    Item([], cfg.root)
  }

  /** WaitGroup accounting: the counter is the queued items plus what workers hold; it is never taken
      below zero and nothing is sent after the close. At zero the queue is empty and no worker is
      inside visitFile. */
  lemma Accounting(cfg: Config, schedule: seq<Actor>)
    requires Run(cfg, schedule).Some?
    ensures var s := Run(cfg, schedule).value;
      && !s.panicked
      && s.active == |s.queue| + Sum(s.workers, Held)
      && (s.active == 0 ==> s.queue == [] && forall i :: 0 <= i < |s.workers| ==> !s.workers[i].Busy?)
      && (!s.main.Waiting? ==> s.active == 0)
  {
    hide Run;
    RunInv(cfg, schedule);
    var s := Run(cfg, schedule).value;
    if s.active == 0 {
      NothingPending(cfg, s.workers);
    }
  }

  /** However a run goes, and even if it fails, walkFn is called at most once on each node, and only
      on nodes with no skipped or failed proper ancestor. */
  lemma CalledAtMostOnce(cfg: Config, schedule: seq<Actor>, p: Path)
    requires Run(cfg, schedule).Some?
    ensures multiset(Run(cfg, schedule).value.calls)[p] <= if Visible(cfg, Root(cfg), p) then 1 else 0
  {
    hide Run, Visible, Expected, PendingWorkers, PendingQueue;
    RunInv(cfg, schedule);
    var s := Run(cfg, schedule).value;
    ExpectedIsVisible(cfg, Root(cfg), p);
    assert multiset(s.calls)[p] <= Owed(cfg, s)[p];
  }

  /** When Walk returns nil, walkFn has been called exactly once on each such node. */
  lemma NilMeansAllVisited(cfg: Config, schedule: seq<Actor>, p: Path)
    requires Run(cfg, schedule).Some? && !Run(cfg, schedule).value.main.Waiting?
    requires Run(cfg, schedule).value.main.result == None
    ensures multiset(Run(cfg, schedule).value.calls)[p] == if Visible(cfg, Root(cfg), p) then 1 else 0
  {
    hide Run, Visible, Expected;
    RunInv(cfg, schedule);
    var s := Run(cfg, schedule).value;
    Accounting(cfg, schedule);
    NothingPending(cfg, s.workers);
    ExpectedIsVisible(cfg, Root(cfg), p);
    assert Unfailed(s);
    assert Owed(cfg, s) == multiset(s.calls);
  }

  /** When Walk returns an error, it is a fatal answer of walkFn to a node that was visited. */
  lemma ErrorWasAnswered(cfg: Config, schedule: seq<Actor>)
    requires Run(cfg, schedule).Some? && !Run(cfg, schedule).value.main.Waiting?
    requires Run(cfg, schedule).value.main.result.Some?
    ensures var s := Run(cfg, schedule).value; Reported(cfg, s.calls, s.main.result.value)
  {
    hide Run;
    RunInv(cfg, schedule);
  }

  /** Walk returns nil if and only if walkFn answered every call with nil, or with SkipDir for a
      directory: no error is swallowed and none is made up. */
  lemma NilIffNoError(cfg: Config, schedule: seq<Actor>)
    requires Run(cfg, schedule).Some? && !Run(cfg, schedule).value.main.Waiting?
    ensures var s := Run(cfg, schedule).value;
      s.main.result == None <==>
      forall p :: p in s.calls ==>
        || cfg.walkFn(p) == Nil
        || (cfg.walkFn(p) == SkipDir && At(cfg.root, p).Some? && At(cfg.root, p).value.Dir?)
  {
    hide Run, At;
    RunInv(cfg, schedule);
    var s := Run(cfg, schedule).value;
    if s.main.result == None {
      Accounting(cfg, schedule);
      assert Unfailed(s);
      forall p | p in s.calls
        ensures cfg.walkFn(p) == Nil || (cfg.walkFn(p) == SkipDir && At(cfg.root, p).Some? && At(cfg.root, p).value.Dir?)
      {
        assert Harmless(cfg, p);
      }
    } else {
      var p :| p in s.calls && FatalAt(cfg, p) && cfg.walkFn(p) == s.main.result.value;
      assert p in s.calls;
    }
  }

  /** If walkFn answers no visible node fatally, Walk returns nil having called it exactly once on
      each visible node and on no other. */
  lemma VisitsExactlyOnce(cfg: Config, schedule: seq<Actor>)
    requires Run(cfg, schedule).Some? && Run(cfg, schedule).value.main.Done?
    requires forall p :: Visible(cfg, Root(cfg), p) ==> !FatalAt(cfg, p)
    ensures var s := Run(cfg, schedule).value;
      && s.main.result == None
      && forall p :: multiset(s.calls)[p] == if Visible(cfg, Root(cfg), p) then 1 else 0
  {
    hide Run, Visible, FatalAt;
    var s := Run(cfg, schedule).value;
    if s.main.result.Some? {
      ErrorWasAnswered(cfg, schedule);
      var p :| p in s.calls && FatalAt(cfg, p) && cfg.walkFn(p) == s.main.result.value;
      assert p in multiset(s.calls);
      CalledAtMostOnce(cfg, schedule, p);
    }
    forall p ensures multiset(s.calls)[p] == if Visible(cfg, Root(cfg), p) then 1 else 0 {
      NilMeansAllVisited(cfg, schedule, p);
    }
  }

  /** `firstError`, once set, never changes. */
  lemma FirstErrorStable(cfg: Config, s: State, a: Actor)
    requires s.firstError.Some? && Step(cfg, s, a).Some?
    ensures Step(cfg, s, a).value.firstError == s.firstError
  {}

  lemma {:induction false} FirstErrorStableInRuns(cfg: Config, schedule: seq<Actor>, k: nat)
    requires k <= |schedule| && Run(cfg, schedule).Some?
    ensures Run(cfg, schedule[..k]).Some?
    ensures Run(cfg, schedule[..k]).value.firstError.Some? ==>
      Run(cfg, schedule).value.firstError == Run(cfg, schedule[..k]).value.firstError
    decreases |schedule|
  {
    hide Step;
    if k == |schedule| {
      assert schedule[..k] == schedule;
    } else {
      var before := schedule[..|schedule| - 1];
      assert before[..k] == schedule[..k];
      FirstErrorStableInRuns(cfg, before, k);
      var s := Run(cfg, before).value;
      if s.firstError.Some? {
        FirstErrorStable(cfg, s, schedule[|schedule| - 1]);
      }
    }
  }

  /** The channel never holds more than its capacity. */
  lemma {:induction false} ChannelBounded(cfg: Config, schedule: seq<Actor>)
    requires cfg.capacity >= 1 && Run(cfg, schedule).Some?
    ensures |Run(cfg, schedule).value.queue| <= cfg.capacity
    decreases |schedule|
  {
    hide Step;
    if schedule != [] {
      ChannelBounded(cfg, schedule[..|schedule| - 1]);
      StepBounded(cfg, Run(cfg, schedule[..|schedule| - 1]).value, schedule[|schedule| - 1]);
    }
  }

  lemma StepBounded(cfg: Config, s: State, a: Actor)
    requires |s.queue| <= cfg.capacity && Step(cfg, s, a).Some?
    ensures |Step(cfg, s, a).value.queue| <= cfg.capacity
  {
    hide FrameStep;
    if a.Walker? && s.workers[a.i].Busy? && s.workers[a.i].stack != [] {
      var stack := s.workers[a.i].stack;
      FrameBounded(cfg, s, a.i, stack[..|stack| - 1], stack[|stack| - 1]);
    }
  }

  lemma FrameBounded(cfg: Config, s: State, i: nat, below: seq<Frame>, top: Frame)
    requires |s.queue| <= cfg.capacity && i < |s.workers| && FrameStep(cfg, s, i, below, top).Some?
    ensures |FrameStep(cfg, s, i, below, top).value.queue| <= cfg.capacity
  {}

  // ---------- every run is finite

  /** Steps that visiting a subtree can still take, entry by entry. */
  ghost function Cost(tree: Tree): (n: nat)
    decreases tree, 1
  {
    if tree.Dir? then CostFrom(tree.entries, 0) else 0
  }

  ghost function CostFrom(entries: seq<Tree>, n: nat): (c: nat)
    decreases entries, 0, |entries| - n
  {
    if n >= |entries| then 0
    else (if entries[n].Dir? then 8 + Cost(entries[n]) else 1) + CostFrom(entries, n + 1)
  }

  ghost function Rest(f: Item, n: nat): (c: nat) {
    if f.tree.Dir? then CostFrom(f.tree.entries, n) else 0
  }

  ghost function FrameCost(fr: Frame): (c: nat) {
    match fr
    case Check(f) => 3 + Cost(f.tree)
    case Call(f) => 2 + Cost(f.tree)
    case Stop(_) => 1
    case List(f, n) => 1 + Rest(f, n)
    case Presumed(f, n) => Rest(f, n)
    case Undo(f, n) => if Rest(f, n) > 0 then Rest(f, n) - 1 else 0
  }

  ghost function StackCost(stack: seq<Frame>): (c: nat) {
    if stack == [] then 0 else StackCost(stack[..|stack| - 1]) + FrameCost(stack[|stack| - 1])
  }

  ghost function WorkerCost(w: Worker): (c: nat) {
    match w
    case Idle => 1
    case Busy(stack) => 2 + StackCost(stack)
    case Exited => 0
  }

  ghost function QueueCost(q: seq<Item>): (c: nat) {
    if q == [] then 0 else QueueCost(q[..|q| - 1]) + 5 + Cost(q[|q| - 1].tree)
  }

  ghost function MainCost(m: Main): (c: nat) {
    match m
    case Waiting => 2
    case Closing(_) => 1
    case Done(_) => 0
  }

  /** A bound on the steps still to come. */
  ghost function Measure(s: State): (c: nat) {
    QueueCost(s.queue) + Sum(s.workers, WorkerCost) + MainCost(s.main)
  }

  lemma StackCostPush(stack: seq<Frame>, fr: Frame)
    ensures StackCost(stack + [fr]) == StackCost(stack) + FrameCost(fr)
  {
    assert (stack + [fr])[..|stack|] == stack;
  }

  lemma {:induction false} QueueCostTake(q: seq<Item>)
    requires q != []
    ensures QueueCost(q) == 5 + Cost(q[0].tree) + QueueCost(q[1..])
    decreases |q|
  {
    if |q| > 1 {
      var front := q[..|q| - 1];
      QueueCostTake(front);
      assert front[1..] == q[1..][..|q| - 2];
    } else {
      assert q[..0] == [] && q[1..] == [];
    }
  }

  lemma QueueCostPut(q: seq<Item>, f: Item)
    ensures QueueCost(q + [f]) == QueueCost(q) + 5 + Cost(f.tree)
  {
    assert (q + [f])[..|q|] == q;
  }

  /** A frame's step costs something. */
  lemma FrameStepDecreases(cfg: Config, s: State, i: nat, below: seq<Frame>, top: Frame)
    requires Running(cfg, s, i, below, top) && FrameStep(cfg, s, i, below, top).Some?
    ensures Measure(FrameStep(cfg, s, i, below, top).value) < Measure(s)
  {
    hide Inv, Sum, QueueCost, StackCost, FrameStep, FrameOk, PendingWorker, PendingStack, PendingFrame, Held;
    RunningFacts(cfg, s, i, below, top);
    StackCostPush(below, top);
    FrameCostDecreases(cfg, s, i, below, top);
    var w' := FrameStep(cfg, s, i, below, top).value.workers[i];
    SumUpdate(s.workers, WorkerCost, i, w');
  }

  /** A step of worker `i`, which cost `c` before, has made the state cheaper. */
  ghost predicate Cheaper(s: State, s': State, i: nat, c: nat)
    requires i < |s.workers|
  {
    && |s'.workers| == |s.workers| && s'.workers == s.workers[i := s'.workers[i]] && s'.main == s.main
    && QueueCost(s'.queue) + WorkerCost(s'.workers[i]) < QueueCost(s.queue) + c
  }

  lemma FrameCostDecreases(cfg: Config, s: State, i: nat, below: seq<Frame>, top: Frame)
    requires i < |s.workers| && FrameOk(cfg, s.calls, top) && s.main.Waiting? && FrameStep(cfg, s, i, below, top).Some?
    ensures var s' := FrameStep(cfg, s, i, below, top).value;
      Cheaper(s, s', i, 2 + StackCost(below) + FrameCost(top))
  {
    hide QueueCost, StackCost, At, Reported, Cost, Rest;
    match top {
      case Check(f) => StackCostPush(below, Call(f));
      case Call(f) =>
        StackCostPush(below, Stop(cfg.walkFn(f.path)));
        StackCostPush(below, List(f, 0));
        RestFromStart(f);
      case Stop(_) =>
      case List(f, n) => ListCostDecreases(cfg, s, i, below, f, n);
      case Presumed(f, n) => SendCostDecreases(cfg, s, i, below, f, n);
      case Undo(f, n) => UndoCostDecreases(cfg, s, i, below, f, n);
    }
  }

  lemma UndoCostDecreases(cfg: Config, s: State, i: nat, below: seq<Frame>, f: Item, n: nat)
    requires i < |s.workers| && f.tree.Dir? && n < |f.tree.entries| && f.tree.entries[n].Dir?
    requires FrameStep(cfg, s, i, below, Undo(f, n)).Some?
    ensures var s' := FrameStep(cfg, s, i, below, Undo(f, n)).value;
      Cheaper(s, s', i, 2 + StackCost(below) + FrameCost(Undo(f, n)))
  {
    hide QueueCost, StackCost, Cost, Rest;
    RestStep(f, n);
    var lower := below + [List(f, n + 1)];
    StackCostPush(below, List(f, n + 1));
    StackCostPush(lower, Check(Entry(f, n)));
    assert below + [List(f, n + 1), Check(Entry(f, n))] == lower + [Check(Entry(f, n))];
  }

  lemma RestFromStart(f: Item)
    ensures Rest(f, 0) == Cost(f.tree)
  {}

  lemma RestStep(f: Item, n: nat)
    requires f.tree.Dir? && n < |f.tree.entries|
    ensures Rest(f, n) == (if f.tree.entries[n].Dir? then 8 + Cost(f.tree.entries[n]) else 1) + Rest(f, n + 1)
  {}

  lemma ListCostDecreases(cfg: Config, s: State, i: nat, below: seq<Frame>, f: Item, n: nat)
    requires i < |s.workers| && f.tree.Dir? && FrameStep(cfg, s, i, below, List(f, n)).Some?
    ensures var s' := FrameStep(cfg, s, i, below, List(f, n)).value;
      Cheaper(s, s', i, 2 + StackCost(below) + FrameCost(List(f, n)))
  {
    hide QueueCost, StackCost, Cost, Rest;
    if n < |f.tree.entries| {
      RestStep(f, n);
      StackCostPush(below, Presumed(f, n));
      StackCostPush(below, List(f, n + 1));
      StackCostPush(below, Stop(cfg.walkFn(Entry(f, n).path)));
    }
  }

  lemma SendCostDecreases(cfg: Config, s: State, i: nat, below: seq<Frame>, f: Item, n: nat)
    requires i < |s.workers| && s.main.Waiting? && f.tree.Dir? && n < |f.tree.entries| && f.tree.entries[n].Dir?
    requires FrameStep(cfg, s, i, below, Presumed(f, n)).Some?
    ensures var s' := FrameStep(cfg, s, i, below, Presumed(f, n)).value;
      Cheaper(s, s', i, 2 + StackCost(below) + FrameCost(Presumed(f, n)))
  {
    hide QueueCost, StackCost, Cost, Rest;
    RestStep(f, n);
    QueueCostPut(s.queue, Entry(f, n));
    StackCostPush(below, List(f, n + 1));
    StackCostPush(below, Undo(f, n));
  }

  /** Every step of every run uses the bound up. */
  lemma StepDecreases(cfg: Config, s: State, a: Actor)
    requires Inv(cfg, s) && Step(cfg, s, a).Some?
    ensures Measure(Step(cfg, s, a).value) < Measure(s)
  {
    hide Inv, FrameStep, QueueCost, Cost;
    if a.Walker? {
      var s' := Step(cfg, s, a).value;
      match s.workers[a.i] {
        case Idle =>
          if s.queue != [] {
            var f := s.queue[0];
            QueueCostTake(s.queue);
            StackCostPush([], Check(f));
            assert [] + [Check(f)] == [Check(f)];
            SumUpdate(s.workers, WorkerCost, a.i, Busy([Check(f)]));
          } else {
            SumUpdate(s.workers, WorkerCost, a.i, Exited);
          }
        case Busy(stack) =>
          if stack == [] {
            SumUpdate(s.workers, WorkerCost, a.i, Idle);
          } else {
            var below, top := stack[..|stack| - 1], stack[|stack| - 1];
            assert stack == below + [top];
            FrameStepDecreases(cfg, s, a.i, below, top);
          }
        case Exited =>
      }
    }
  }

  /** Every run is finite: no schedule is longer than a bound given by the tree and the workers. */
  lemma {:induction false} RunsAreFinite(cfg: Config, schedule: seq<Actor>)
    requires Run(cfg, schedule).Some?
    ensures |schedule| + Measure(Run(cfg, schedule).value) <= Measure(Init(cfg))
    decreases |schedule|
  {
    hide Measure, Step, Inv;
    if schedule != [] {
      var before := schedule[..|schedule| - 1];
      RunsAreFinite(cfg, before);
      RunInv(cfg, before);
      StepDecreases(cfg, Run(cfg, before).value, schedule[|schedule| - 1]);
    }
  }

  /** A busy worker is never blocked: the send in visitFile does not wait. */
  lemma BusyCanStep(cfg: Config, s: State, i: nat)
    requires Inv(cfg, s) && i < |s.workers| && s.workers[i].Busy?
    ensures Step(cfg, s, Walker(i)).Some?
  {
    hide Owed, At, Reported;
    var stack := s.workers[i].stack;
    if stack != [] {
      assert WorkerOk(cfg, s.calls, s.workers[i], Closed(s));
      assert FrameOk(cfg, s.calls, stack[|stack| - 1]);
    }
  }

  /** No deadlock: with at least one worker, until Walk has returned somebody can move. Together with
      RunsAreFinite, every run that is not cut short ends with Walk returning. */
  lemma SomebodyCanMove(cfg: Config, schedule: seq<Actor>) returns (a: Actor)
    requires cfg.walkers > 0
    requires Run(cfg, schedule).Some? && !Run(cfg, schedule).value.main.Done?
    ensures Run(cfg, schedule + [a]).Some?
  {
    hide Owed, WorkerOk, Reported, FrameStep;
    RunInv(cfg, schedule);
    var s := Run(cfg, schedule).value;
    if s.active == 0 {
      a := Caller;
    } else if Sum(s.workers, Held) > 0 {
      var i := SumPositive(s.workers, Held);
      BusyCanStep(cfg, s, i);
      a := Walker(i);
    } else {
      NothingPending(cfg, s.workers);
      NotExited(cfg, s, 0);
      a := Walker(0);
    }
    assert (schedule + [a])[..|schedule|] == schedule;
  }

  /** A run that cannot go on has ended with Walk returning. */
  lemma StuckMeansReturned(cfg: Config, schedule: seq<Actor>)
    requires cfg.walkers > 0 && Run(cfg, schedule).Some?
    requires forall a: Actor :: Run(cfg, schedule + [a]).None?
    ensures Run(cfg, schedule).value.main.Done?
  {
    hide Run;
    if !Run(cfg, schedule).value.main.Done? {
      var a := SomebodyCanMove(cfg, schedule);
    }
  }

  lemma NotExited(cfg: Config, s: State, i: nat)
    requires Inv(cfg, s) && i < |s.workers| && !s.main.Done?
    ensures !s.workers[i].Exited?
  {
    hide Owed, Reported;
    assert WorkerOk(cfg, s.calls, s.workers[i], Closed(s));
  }
}
