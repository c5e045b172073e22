/** In which order the walk calls walkFn, and what it still calls once an error has been recorded. */
module WalkOrder {
  import opened Common
  import opened Walk
  import opened WalkProof

  // ---------- the order of calls

  /** The plain files among the first `n` entries of `d` have been called, and answered nil. */
  ghost predicate FilesDone(cfg: Config, calls: seq<Path>, d: Path, n: nat) {
    forall k :: 0 <= k < n && At(cfg.root, d + [k]) == Some(File) ==> d + [k] in calls && cfg.walkFn(d + [k]) == Nil
  }

  /** Its directory has been called and answered nil, and so have the plain files listed before it. */
  ghost predicate Ready(cfg: Config, calls: seq<Path>, p: Path) {
    p == [] ||
    (var d, n := p[..|p| - 1], p[|p| - 1];
     d in calls && cfg.walkFn(d) == Nil && FilesDone(cfg, calls, d, n))
  }

  ghost predicate FrameReady(cfg: Config, calls: seq<Path>, fr: Frame) {
    match fr
    case Check(f) => Ready(cfg, calls, f.path)
    case Call(f) => Ready(cfg, calls, f.path)
    case Stop(_) => true
    case _ => fr.file.path in calls && cfg.walkFn(fr.file.path) == Nil && FilesDone(cfg, calls, fr.file.path, fr.next)
  }

  ghost predicate WorkerReady(cfg: Config, calls: seq<Path>, w: Worker) {
    w.Busy? ==> forall j :: 0 <= j < |w.stack| ==> FrameReady(cfg, calls, w.stack[j])
  }

  ghost predicate CallsReady(cfg: Config, calls: seq<Path>) {
    forall i :: 0 <= i < |calls| ==> Ready(cfg, calls[..i], calls[i])
  }

  ghost predicate OrderInv(cfg: Config, s: State) {
    && CallsReady(cfg, s.calls)
    && (forall j :: 0 <= j < |s.queue| ==> Ready(cfg, s.calls, s.queue[j].path))
    && (forall i :: 0 <= i < |s.workers| ==> WorkerReady(cfg, s.calls, s.workers[i]))
  }

  lemma ReadyLater(cfg: Config, calls: seq<Path>, more: seq<Path>, p: Path)
    requires Ready(cfg, calls, p)
    ensures Ready(cfg, calls + more, p)
  {}

  lemma FrameReadyLater(cfg: Config, calls: seq<Path>, more: seq<Path>, fr: Frame)
    requires FrameReady(cfg, calls, fr)
    ensures FrameReady(cfg, calls + more, fr)
  {}

  lemma CallsReadySnoc(cfg: Config, calls: seq<Path>, p: Path)
    requires CallsReady(cfg, calls) && Ready(cfg, calls, p)
    ensures CallsReady(cfg, calls + [p])
  {
    hide Ready;
    var all := calls + [p];
    forall i | 0 <= i < |all| ensures Ready(cfg, all[..i], all[i]) {
      assert all[..i] == calls[..i];
      assert i == |calls| ==> calls[..i] == calls;
    }
  }

  /** A worker's step that makes at most the call `called` keeps the order when that call, what it puts
      into the queue and its own frames are ready. */
  lemma OrderStep(cfg: Config, s: State, s': State, i: nat, w': Worker, called: seq<Path>)
    requires OrderInv(cfg, s) && i < |s.workers| && s'.workers == s.workers[i := w']
    requires s'.calls == s.calls + called && |called| <= 1
    requires called != [] ==> Ready(cfg, s.calls, called[0])
    requires forall j :: 0 <= j < |s'.queue| ==> s'.queue[j] in s.queue || Ready(cfg, s'.calls, s'.queue[j].path)
    requires WorkerReady(cfg, s'.calls, w')
    ensures OrderInv(cfg, s')
  {
    hide Ready, FrameReady;
    if called == [] {
      assert s.calls + called == s.calls;
    } else {
      CallsReadySnoc(cfg, s.calls, called[0]);
      assert called == [called[0]];
    }
    assert CallsReady(cfg, s'.calls);
    forall j | 0 <= j < |s'.queue| ensures Ready(cfg, s'.calls, s'.queue[j].path) {
      if s'.queue[j] in s.queue {
        ReadyLater(cfg, s.calls, called, s'.queue[j].path);
      }
    }
    forall j | 0 <= j < |s'.workers| ensures WorkerReady(cfg, s'.calls, s'.workers[j]) {
      if j != i && s.workers[j].Busy? {
        assert WorkerReady(cfg, s.calls, s.workers[j]);
        forall k | 0 <= k < |s.workers[j].stack| ensures FrameReady(cfg, s'.calls, s.workers[j].stack[k]) {
          FrameReadyLater(cfg, s.calls, called, s.workers[j].stack[k]);
        }
      }
    }
  }

  /** Frames that stay are ready, and so is one pushed above them. */
  lemma PushReady(cfg: Config, calls: seq<Path>, called: seq<Path>, below: seq<Frame>, pushed: seq<Frame>)
    requires forall j :: 0 <= j < |below| ==> FrameReady(cfg, calls, below[j])
    requires forall j :: 0 <= j < |pushed| ==> FrameReady(cfg, calls + called, pushed[j])
    ensures WorkerReady(cfg, calls + called, Busy(below + pushed))
  {
    hide FrameReady;
    var stack := below + pushed;
    forall j | 0 <= j < |stack| ensures FrameReady(cfg, calls + called, stack[j]) {
      if j < |below| {
        FrameReadyLater(cfg, calls, called, below[j]);
      } else {
        assert stack[j] == pushed[j - |below|];
      }
    }
  }

  /** An entry that is a directory adds nothing to the files to be done; one that is a file, itself. */
  lemma NextEntry(cfg: Config, calls: seq<Path>, f: Item, n: nat)
    requires ItemOk(cfg, f) && f.tree.Dir? && n < |f.tree.entries|
    requires f.path in calls && cfg.walkFn(f.path) == Nil && FilesDone(cfg, calls, f.path, n)
    ensures Ready(cfg, calls, Entry(f, n).path)
    ensures f.tree.entries[n].Dir? ==> FilesDone(cfg, calls, f.path, n + 1)
    ensures f.tree.entries[n].File? && cfg.walkFn(Entry(f, n).path) == Nil ==>
      FilesDone(cfg, calls + [Entry(f, n).path], f.path, n + 1)
  {
    hide At;
    var p := f.path + [n];
    assert p[..|p| - 1] == f.path && p[|p| - 1] == n;
    AtEntry(cfg.root, f.path, n);
  }

  lemma FrameKeepsOrder(cfg: Config, s: State, i: nat, below: seq<Frame>, top: Frame)
    requires Running(cfg, s, i, below, top) && OrderInv(cfg, s) && FrameStep(cfg, s, i, below, top).Some?
    ensures OrderInv(cfg, FrameStep(cfg, s, i, below, top).value)
  {
    hide Inv, At, Ready, FilesDone, OrderInv, Reported;
    RunningFacts(cfg, s, i, below, top);
    StackReady(cfg, s, i, below, top);
    var s' := FrameStep(cfg, s, i, below, top).value;
    assert s.calls + [] == s.calls && below + [] == below;
    match top {
      case Check(f) =>
        var pushed := if s.firstError.Some? then [] else [Call(f)];
        PushReady(cfg, s.calls, [], below, pushed);
        OrderStep(cfg, s, s', i, Busy(below + pushed), []);
      case Call(f) => CallKeepsOrder(cfg, s, i, below, f);
      case Stop(_) =>
        PushReady(cfg, s.calls, [], below, []);
        OrderStep(cfg, s, s', i, Busy(below), []);
      case List(f, n) => ListKeepsOrder(cfg, s, i, below, f, n);
      case Presumed(f, n) => PresumedKeepsOrder(cfg, s, i, below, f, n);
      case Undo(f, n) =>
        NextEntry(cfg, s.calls, f, n);
        var pushed := [List(f, n + 1), Check(Entry(f, n))];
        PushReady(cfg, s.calls, [], below, pushed);
        OrderStep(cfg, s, s', i, Busy(below + pushed), []);
    }
  }

  lemma PresumedKeepsOrder(cfg: Config, s: State, i: nat, below: seq<Frame>, f: Item, n: nat)
    requires Running(cfg, s, i, below, Presumed(f, n)) && OrderInv(cfg, s)
    requires FrameStep(cfg, s, i, below, Presumed(f, n)).Some?
    ensures OrderInv(cfg, FrameStep(cfg, s, i, below, Presumed(f, n)).value)
  {
    hide Inv, At, Ready, FilesDone, OrderInv, Reported;
    RunningFacts(cfg, s, i, below, Presumed(f, n));
    StackReady(cfg, s, i, below, Presumed(f, n));
    var s' := FrameStep(cfg, s, i, below, Presumed(f, n)).value;
    assert s.calls + [] == s.calls;
    NextEntry(cfg, s.calls, f, n);
    var fr := if |s.queue| < cfg.capacity then List(f, n + 1) else Undo(f, n);
    PushReady(cfg, s.calls, [], below, [fr]);
    OrderStep(cfg, s, s', i, Busy(below + [fr]), []);
  }

  lemma StackReady(cfg: Config, s: State, i: nat, below: seq<Frame>, top: Frame)
    requires OrderInv(cfg, s) && i < |s.workers| && s.workers[i] == Busy(below + [top])
    ensures FrameReady(cfg, s.calls, top) && forall j :: 0 <= j < |below| ==> FrameReady(cfg, s.calls, below[j])
  {
    hide FrameReady, Ready;
    var stack := below + [top];
    assert WorkerReady(cfg, s.calls, s.workers[i]);
    assert stack[|below|] == top && forall j :: 0 <= j < |below| ==> stack[j] == below[j];
  }

  lemma CallKeepsOrder(cfg: Config, s: State, i: nat, below: seq<Frame>, f: Item)
    requires Running(cfg, s, i, below, Call(f)) && OrderInv(cfg, s)
    ensures OrderInv(cfg, FrameStep(cfg, s, i, below, Call(f)).value)
  {
    hide Inv, At, Ready, OrderInv;
    StackReady(cfg, s, i, below, Call(f));
    var s' := FrameStep(cfg, s, i, below, Call(f)).value;
    var reply := cfg.walkFn(f.path);
    var pushed := if Fatal(reply, f.tree.Dir?) then [Stop(reply)]
                  else if reply == Nil && f.tree.Dir? then [List(f, 0)] else [];
    assert below + [] == below;
    assert f.path in s.calls + [f.path];
    PushReady(cfg, s.calls, [f.path], below, pushed);
    OrderStep(cfg, s, s', i, Busy(below + pushed), [f.path]);
  }

  lemma ListKeepsOrder(cfg: Config, s: State, i: nat, below: seq<Frame>, f: Item, n: nat)
    requires Running(cfg, s, i, below, List(f, n)) && OrderInv(cfg, s) && FrameStep(cfg, s, i, below, List(f, n)).Some?
    ensures OrderInv(cfg, FrameStep(cfg, s, i, below, List(f, n)).value)
  {
    hide Inv, At, Ready, FilesDone, OrderInv, Reported;
    RunningFacts(cfg, s, i, below, List(f, n));
    StackReady(cfg, s, i, below, List(f, n));
    var s' := FrameStep(cfg, s, i, below, List(f, n)).value;
    assert s.calls + [] == s.calls && below + [] == below;
    if n >= |f.tree.entries| {
      PushReady(cfg, s.calls, [], below, []);
      OrderStep(cfg, s, s', i, Busy(below), []);
    } else if f.tree.entries[n].Dir? {
      PushReady(cfg, s.calls, [], below, [Presumed(f, n)]);
      OrderStep(cfg, s, s', i, Busy(below + [Presumed(f, n)]), []);
    } else {
      NextEntry(cfg, s.calls, f, n);
      var p := Entry(f, n).path;
      var fr := if Fatal(cfg.walkFn(p), false) then Stop(cfg.walkFn(p)) else List(f, n + 1);
      assert f.path in s.calls + [p];
      PushReady(cfg, s.calls, [p], below, [fr]);
      OrderStep(cfg, s, s', i, Busy(below + [fr]), [p]);
    }
  }

  lemma StepKeepsOrder(cfg: Config, s: State, a: Actor)
    requires Inv(cfg, s) && OrderInv(cfg, s) && Step(cfg, s, a).Some?
    ensures OrderInv(cfg, Step(cfg, s, a).value)
  {
    hide Inv, FrameStep, Ready;
    if a.Walker? {
      var s' := Step(cfg, s, a).value;
      assert s.calls + [] == s.calls;
      match s.workers[a.i] {
        case Exited =>
        case Idle =>
          if s.queue != [] {
            OrderStep(cfg, s, s', a.i, Busy([Check(s.queue[0])]), []);
          } else {
            OrderStep(cfg, s, s', a.i, Exited, []);
          }
        case Busy(stack) =>
          if stack == [] {
            OrderStep(cfg, s, s', a.i, Idle, []);
          } else {
            var below, top := stack[..|stack| - 1], stack[|stack| - 1];
            assert stack == below + [top];
            FrameKeepsOrder(cfg, s, a.i, below, top);
          }
      }
    }
  }

  lemma {:induction false} RunKeepsOrder(cfg: Config, schedule: seq<Actor>)
    requires Run(cfg, schedule).Some?
    ensures OrderInv(cfg, Run(cfg, schedule).value)
    decreases |schedule|
  {
    hide Inv, Step;
    if schedule != [] {
      var before := schedule[..|schedule| - 1];
      RunInv(cfg, before);
      RunKeepsOrder(cfg, before);
      StepKeepsOrder(cfg, Run(cfg, before).value, schedule[|schedule| - 1]);
    }
  }

  /** In every run, a call on a node in a directory comes after the call on the directory, which was
      answered nil, and after the calls on all plain files listed before the node, which were all
      answered nil: a directory is called before its contents, and after an error for a plain file
      nothing listed behind it is visited. */
  lemma CallsInOrder(cfg: Config, schedule: seq<Actor>, i: nat)
    requires Run(cfg, schedule).Some? && i < |Run(cfg, schedule).value.calls|
    requires Run(cfg, schedule).value.calls[i] != []
    ensures var calls := Run(cfg, schedule).value.calls;
      var d, n := calls[i][..|calls[i]| - 1], calls[i][|calls[i]| - 1];
      && d in calls[..i] && cfg.walkFn(d) == Nil
      && forall k :: 0 <= k < n && At(cfg.root, d + [k]) == Some(File) ==>
           d + [k] in calls[..i] && cfg.walkFn(d + [k]) == Nil
  {
    hide Run;
    RunKeepsOrder(cfg, schedule);
    var calls := Run(cfg, schedule).value.calls;
    assert Ready(cfg, calls[..i], calls[i]);
  }

  // ---------- after an error

  /** A frame that will still call walkFn on `p` without asking terminated() again. */
  ghost predicate FrameCommits(fr: Frame, p: Path) {
    match fr
    case Check(_) => false
    case Call(f) => p == f.path || FileIn(f, 0, p)
    case Stop(_) => false
    case _ => FileIn(fr.file, fr.next, p)
  }

  /** `p` is a plain file among the entries of `f` from the `n`-th on. */
  ghost predicate FileIn(f: Item, n: nat, p: Path) {
    && f.tree.Dir? && |p| == |f.path| + 1 && p[..|f.path|] == f.path
    && n <= p[|f.path|] < |f.tree.entries| && f.tree.entries[p[|f.path|]].File?
  }

  ghost predicate Committed(w: Worker, p: Path) {
    w.Busy? && exists j :: 0 <= j < |w.stack| && FrameCommits(w.stack[j], p)
  }

  lemma CommittedSplit(below: seq<Frame>, top: Frame, p: Path)
    ensures Committed(Busy(below + [top]), p) <==> Committed(Busy(below), p) || FrameCommits(top, p)
  {
    hide FrameCommits;
    var stack := below + [top];
    assert stack[|below|] == top && forall j :: 0 <= j < |below| ==> stack[j] == below[j];
  }

  /** Once an error is recorded, a step commits no worker to more calls, and makes only a call that the
      worker was committed to. */
  lemma StepCommitsNothing(cfg: Config, s: State, a: Actor, i: nat, p: Path)
    requires s.firstError.Some? && Step(cfg, s, a).Some? && i < |s.workers|
    ensures var s' := Step(cfg, s, a).value;
      && |s'.workers| == |s.workers|
      && (Committed(s'.workers[i], p) ==> Committed(s.workers[i], p))
  {
    hide Committed, FrameCommits;
    if a == Walker(i) {
      match s.workers[i] {
        case Exited => NotCommitted(p);
        case Idle =>
          NotCommitted(p);
          if s.queue != [] {
            CheckCommits(s.queue[0], p);
          }
        case Busy(stack) =>
          NotCommitted(p);
          if stack != [] {
            var below, top := stack[..|stack| - 1], stack[|stack| - 1];
            assert stack == below + [top];
            FrameCommitsNothing(cfg, s, i, below, top, p);
          }
      }
    }
  }

  lemma NotCommitted(p: Path)
    ensures !Committed(Idle, p) && !Committed(Exited, p) && !Committed(Busy([]), p)
  {}

  lemma CheckCommits(f: Item, p: Path)
    ensures !Committed(Busy([Check(f)]), p)
  {}

  lemma FrameCommitsNothing(cfg: Config, s: State, i: nat, below: seq<Frame>, top: Frame, p: Path)
    requires s.firstError.Some? && i < |s.workers| && s.workers[i] == Busy(below + [top])
    requires FrameStep(cfg, s, i, below, top).Some?
    ensures Committed(FrameStep(cfg, s, i, below, top).value.workers[i], p) ==> Committed(s.workers[i], p)
  {
    hide Committed;
    CommittedSplit(below, top, p);
    match top {
      case Check(f) =>
      case Call(f) =>
        CommittedSplit(below, Stop(cfg.walkFn(f.path)), p);
        CommittedSplit(below, List(f, 0), p);
      case Stop(_) =>
      case List(f, n) =>
        if f.tree.Dir? && n < |f.tree.entries| {
          CommittedSplit(below, Presumed(f, n), p);
          CommittedSplit(below, List(f, n + 1), p);
          CommittedSplit(below, Stop(cfg.walkFn(Entry(f, n).path)), p);
        }
      case Presumed(f, n) =>
        CommittedSplit(below, List(f, n + 1), p);
        CommittedSplit(below, Undo(f, n), p);
      case Undo(f, n) =>
        if f.tree.Dir? && n < |f.tree.entries| {
          var lower := below + [List(f, n + 1)];
          CommittedSplit(below, List(f, n + 1), p);
          CommittedSplit(lower, Check(Entry(f, n)), p);
          assert below + [List(f, n + 1), Check(Entry(f, n))] == lower + [Check(Entry(f, n))];
        }
    }
  }

  lemma StepCallsCommitted(cfg: Config, s: State, a: Actor)
    requires s.firstError.Some? && Step(cfg, s, a).Some?
    ensures var s' := Step(cfg, s, a).value;
      || s'.calls == s.calls
      || (&& |s'.calls| == |s.calls| + 1 && s'.calls[..|s.calls|] == s.calls
          && exists i :: 0 <= i < |s.workers| && Committed(s.workers[i], s'.calls[|s.calls|]))
  {
    hide Committed, FrameStep;
    if a.Walker? && s.workers[a.i].Busy? && s.workers[a.i].stack != [] {
      var stack := s.workers[a.i].stack;
      var below, top := stack[..|stack| - 1], stack[|stack| - 1];
      assert stack == below + [top];
      FrameCallsCommitted(cfg, s, a.i, below, top);
    }
  }

  lemma FrameCallsCommitted(cfg: Config, s: State, i: nat, below: seq<Frame>, top: Frame)
    requires i < |s.workers| && s.workers[i] == Busy(below + [top]) && FrameStep(cfg, s, i, below, top).Some?
    ensures var s' := FrameStep(cfg, s, i, below, top).value;
      || s'.calls == s.calls
      || (&& |s'.calls| == |s.calls| + 1 && s'.calls[..|s.calls|] == s.calls
          && Committed(s.workers[i], s'.calls[|s.calls|]))
  {
    hide Committed;
    if top.Call? {
      CommittedSplit(below, top, top.file.path);
    } else if top.List? && top.file.tree.Dir? && top.next < |top.file.tree.entries| {
      CommittedSplit(below, top, Entry(top.file, top.next).path);
    }
  }

  /** Processing stops: once an error is recorded, walkFn is called only where a worker is already past
      the test for termination, that is on the node it is about to call, and on the plain files in the
      directories it is listing. No further directory is entered. */
  lemma {:induction false} StopsAfterError(cfg: Config, schedule: seq<Actor>, k: nat, j: nat)
    requires k <= |schedule| && Run(cfg, schedule).Some? && Run(cfg, schedule[..k]).Some?
    requires Run(cfg, schedule[..k]).value.firstError.Some?
    requires |Run(cfg, schedule[..k]).value.calls| <= j < |Run(cfg, schedule).value.calls|
    ensures var s := Run(cfg, schedule[..k]).value;
      exists i :: 0 <= i < |s.workers| && Committed(s.workers[i], Run(cfg, schedule).value.calls[j])
    decreases |schedule|
  {
    hide Step, Committed;
    assert schedule[..|schedule|] == schedule;
    if k < |schedule| {
      var before := schedule[..|schedule| - 1];
      assert before[..k] == schedule[..k];
      var s, t, t' := Run(cfg, schedule[..k]).value, Run(cfg, before).value, Run(cfg, schedule).value;
      StillCommitted(cfg, before, k);
      StepCallsCommitted(cfg, t, schedule[|schedule| - 1]);
      if j < |t.calls| {
        assert t'.calls[j] == t.calls[j];
        StopsAfterError(cfg, before, k, j);
      } else {
        var i :| 0 <= i < |t.workers| && Committed(t.workers[i], t'.calls[|t.calls|]);
        assert Committed(s.workers[i], t'.calls[j]);
      }
    }
  }

  lemma {:induction false} StillCommitted(cfg: Config, schedule: seq<Actor>, k: nat)
    requires k <= |schedule| && Run(cfg, schedule).Some? && Run(cfg, schedule[..k]).Some?
    requires Run(cfg, schedule[..k]).value.firstError.Some?
    ensures var s, t := Run(cfg, schedule[..k]).value, Run(cfg, schedule).value;
      && t.firstError.Some? && |t.workers| == |s.workers|
      && forall i, p :: 0 <= i < |t.workers| && Committed(t.workers[i], p) ==> Committed(s.workers[i], p)
    decreases |schedule|
  {
    hide Step, Committed;
    assert schedule[..|schedule|] == schedule;
    if k < |schedule| {
      var before, a := schedule[..|schedule| - 1], schedule[|schedule| - 1];
      assert before[..k] == schedule[..k];
      StillCommitted(cfg, before, k);
      var s, t := Run(cfg, schedule[..k]).value, Run(cfg, before).value;
      ErrorKept(cfg, t, a);
      var t' := Run(cfg, schedule).value;
      forall i, p | 0 <= i < |t.workers| && Committed(t'.workers[i], p) ensures Committed(s.workers[i], p) {
        StepCommitsNothing(cfg, t, a, i, p);
      }
    }
  }

  lemma ErrorKept(cfg: Config, s: State, a: Actor)
    requires s.firstError.Some? && Step(cfg, s, a).Some?
    ensures Step(cfg, s, a).value.firstError.Some? && |Step(cfg, s, a).value.workers| == |s.workers|
  {}
}
