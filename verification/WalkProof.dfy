/** What every step of the walk keeps, and what follows for whole runs. */
module WalkProof {
  import opened Common
  import opened Walk

  // ---------- sums over workers

  ghost function Sum(ws: seq<Worker>, f: Worker -> nat): (n: nat) {
    if ws == [] then 0 else f(ws[0]) + Sum(ws[1..], f)
  }

  lemma {:induction false} SumUpdate(ws: seq<Worker>, f: Worker -> nat, i: nat, w: Worker)
    requires i < |ws|
    ensures Sum(ws[i := w], f) + f(ws[i]) == Sum(ws, f) + f(w)
    decreases |ws|
  {
    if i == 0 {
      assert ws[i := w][1..] == ws[1..];
    } else {
      assert ws[i := w][1..] == ws[1..][i - 1 := w];
      SumUpdate(ws[1..], f, i - 1, w);
    }
  }

  lemma {:induction false} SumPositive(ws: seq<Worker>, f: Worker -> nat) returns (i: nat)
    requires Sum(ws, f) > 0
    ensures i < |ws| && f(ws[i]) > 0
  {
    if f(ws[0]) > 0 {
      i := 0;
    } else {
      var j := SumPositive(ws[1..], f);
      i := j + 1;
    }
  }

  lemma {:induction false} SumAtLeast(ws: seq<Worker>, f: Worker -> nat, i: nat)
    requires i < |ws|
    ensures Sum(ws, f) >= f(ws[i])
  {
    if i > 0 {
      SumAtLeast(ws[1..], f, i - 1);
    }
  }

  // ---------- multiset arithmetic

  lemma AddFirst<T>(h: multiset<T>, a: multiset<T>, b: multiset<T>, c: multiset<T>, d: multiset<T>)
    requires a + b == c + d
    ensures (h + a) + b == (h + c) + d
  {
    forall x | x in (h + a) + b || x in (h + c) + d ensures ((h + a) + b)[x] == ((h + c) + d)[x] {
      assert (a + b)[x] == (c + d)[x];
    }
  }

  /** Replacing a part by no more of it gives no more of the whole; by as much, as much. */
  lemma Replace<T>(c: multiset<T>, ws: multiset<T>, w: multiset<T>, q: multiset<T>,
                   c': multiset<T>, ws': multiset<T>, w': multiset<T>, q': multiset<T>)
    requires ws' + w == ws + w'
    requires c' + w' + q' <= c + w + q
    ensures c' + ws' + q' <= c + ws + q
    ensures c' + w' + q' == c + w + q ==> c' + ws' + q' == c + ws + q
  {
    forall x | x in c' + ws' + q' ensures (c' + ws' + q')[x] <= (c + ws + q)[x] {
      assert (ws' + w)[x] == (ws + w')[x];
      assert (c' + w' + q')[x] <= (c + w + q)[x];
    }
    if c' + w' + q' == c + w + q {
      forall x | x in c' + ws' + q' || x in c + ws + q ensures (c' + ws' + q')[x] == (c + ws + q)[x] {
        assert (ws' + w)[x] == (ws + w')[x];
        assert (c' + w' + q')[x] == (c + w + q)[x];
      }
    }
  }

  // ---------- what is owed: counter units and calls

  /** Units of `active` that a worker holds: its item, and a presumed send. */
  ghost function Held(w: Worker): (n: nat) {
    match w
    case Busy(stack) =>
      1 + if stack != [] && (stack[|stack| - 1].Presumed? || stack[|stack| - 1].Undo?) then 1 else 0
    case _ => 0
  }

  ghost function PendingFrame(cfg: Config, fr: Frame): (m: multiset<Path>) {
    match fr
    case Check(f) => Expected(cfg, f)
    case Call(f) => Expected(cfg, f)
    case Stop(_) => multiset{}
    case _ => if fr.file.tree.Dir? then ExpectedFrom(cfg, fr.file.path, fr.file.tree.entries, fr.next) else multiset{}
  }

  ghost function PendingStack(cfg: Config, stack: seq<Frame>): (m: multiset<Path>) {
    if stack == [] then multiset{}
    else PendingStack(cfg, stack[..|stack| - 1]) + PendingFrame(cfg, stack[|stack| - 1])
  }

  ghost function PendingWorker(cfg: Config, w: Worker): (m: multiset<Path>) {
    if w.Busy? then PendingStack(cfg, w.stack) else multiset{}
  }

  ghost function PendingWorkers(cfg: Config, ws: seq<Worker>): (m: multiset<Path>) {
    if ws == [] then multiset{} else PendingWorker(cfg, ws[0]) + PendingWorkers(cfg, ws[1..])
  }

  ghost function PendingQueue(cfg: Config, q: seq<Item>): (m: multiset<Path>) {
    if q == [] then multiset{} else PendingQueue(cfg, q[..|q| - 1]) + Expected(cfg, q[|q| - 1])
  }

  lemma PendingPush(cfg: Config, stack: seq<Frame>, fr: Frame)
    ensures PendingStack(cfg, stack + [fr]) == PendingStack(cfg, stack) + PendingFrame(cfg, fr)
  {
    assert (stack + [fr])[..|stack|] == stack;
  }

  lemma {:induction false} PendingUpdate(cfg: Config, ws: seq<Worker>, i: nat, w: Worker)
    requires i < |ws|
    ensures PendingWorkers(cfg, ws[i := w]) + PendingWorker(cfg, ws[i]) == PendingWorkers(cfg, ws) + PendingWorker(cfg, w)
    decreases |ws|
  {
    if i == 0 {
      assert ws[i := w][1..] == ws[1..];
    } else {
      assert ws[i := w][1..] == ws[1..][i - 1 := w];
      PendingUpdate(cfg, ws[1..], i - 1, w);
      AddFirst(PendingWorker(cfg, ws[0]), PendingWorkers(cfg, ws[1..][i - 1 := w]), PendingWorker(cfg, ws[i]),
               PendingWorkers(cfg, ws[1..]), PendingWorker(cfg, w));
    }
  }

  lemma {:induction false} PendingTake(cfg: Config, q: seq<Item>)
    requires q != []
    ensures PendingQueue(cfg, q) == Expected(cfg, q[0]) + PendingQueue(cfg, q[1..])
    decreases |q|
  {
    hide Expected;
    if |q| > 1 {
      var front, last := q[..|q| - 1], q[|q| - 1];
      PendingTake(cfg, front);
      assert front[1..] == q[1..][..|q| - 2];
      assert PendingQueue(cfg, q[1..]) == PendingQueue(cfg, front[1..]) + Expected(cfg, last);
    } else {
      assert q[..0] == [] && q[1..] == [];
    }
  }

  lemma PendingPut(cfg: Config, q: seq<Item>, f: Item)
    ensures PendingQueue(cfg, q + [f]) == PendingQueue(cfg, q) + Expected(cfg, f)
  {
    assert (q + [f])[..|q|] == q;
  }

  lemma {:induction false} NothingPending(cfg: Config, ws: seq<Worker>)
    requires Sum(ws, Held) == 0
    ensures PendingWorkers(cfg, ws) == multiset{}
    ensures forall i :: 0 <= i < |ws| ==> !ws[i].Busy?
    decreases |ws|
  {
    if ws != [] {
      NothingPending(cfg, ws[1..]);
      forall i | 0 <= i < |ws| ensures !ws[i].Busy? {
        if i > 0 {
          assert ws[i] == ws[1..][i - 1];
        }
      }
    }
  }

  // ---------- the invariant

  /** The node that a path names. */
  ghost function At(tree: Tree, p: Path): (t: Option<Tree>) {
    if p == [] then Some(tree)
    else if tree.Dir? && p[0] < |tree.entries| then At(tree.entries[p[0]], p[1..])
    else None
  }

  ghost predicate ItemOk(cfg: Config, f: Item) {
    At(cfg.root, f.path) == Some(f.tree)
  }

  lemma {:induction false} AtEntry(tree: Tree, p: Path, n: nat)
    requires At(tree, p).Some? && At(tree, p).value.Dir? && n < |At(tree, p).value.entries|
    ensures At(tree, p + [n]) == Some(At(tree, p).value.entries[n])
    decreases p
  {
    if p == [] {
      assert p + [n] == [n] && [n][1..] == [];
    } else {
      assert (p + [n])[1..] == p[1..] + [n];
      AtEntry(tree.entries[p[0]], p[1..], n);
    }
  }

  /** `e` is a fatal answer that walkFn gave to one of the calls. */
  ghost predicate Reported(cfg: Config, calls: seq<Path>, e: Reply) {
    exists p :: p in calls && FatalAt(cfg, p) && cfg.walkFn(p) == e
  }

  ghost predicate FatalAt(cfg: Config, p: Path) {
    At(cfg.root, p).Some? && Fatal(cfg.walkFn(p), At(cfg.root, p).value.Dir?)
  }

  ghost predicate FrameOk(cfg: Config, calls: seq<Path>, fr: Frame) {
    match fr
    case Check(f) => ItemOk(cfg, f)
    case Call(f) => ItemOk(cfg, f)
    case Stop(err) => Reported(cfg, calls, err)
    case List(f, n) => ItemOk(cfg, f) && f.tree.Dir?
    case Presumed(f, n) => ItemOk(cfg, f) && f.tree.Dir? && n < |f.tree.entries| && f.tree.entries[n].Dir?
    case Undo(f, n) => ItemOk(cfg, f) && f.tree.Dir? && n < |f.tree.entries| && f.tree.entries[n].Dir?
  }

  /** Only the innermost frame can be anywhere but in its list of entries. */
  ghost predicate WorkerOk(cfg: Config, calls: seq<Path>, w: Worker, closed: bool) {
    match w
    case Idle => true
    case Exited => closed
    case Busy(stack) =>
      && (forall j :: 0 <= j < |stack| ==> FrameOk(cfg, calls, stack[j]))
      && (forall j :: 0 <= j < |stack| - 1 ==> stack[j].List?)
  }

  ghost predicate Stopping(w: Worker) {
    w.Busy? && w.stack != [] && w.stack[|w.stack| - 1].Stop?
  }

  ghost function Owed(cfg: Config, s: State): (m: multiset<Path>) {
    multiset(s.calls) + PendingWorkers(cfg, s.workers) + PendingQueue(cfg, s.queue)
  }

  /** No error has been recorded or is about to be. */
  ghost predicate Unfailed(s: State) {
    s.firstError.None? && forall i :: 0 <= i < |s.workers| ==> !Stopping(s.workers[i])
  }

  /** An answer that does not end the walk: nil, or SkipDir for a directory. */
  ghost predicate Harmless(cfg: Config, p: Path) {
    cfg.walkFn(p) == Nil || (cfg.walkFn(p) == SkipDir && At(cfg.root, p).Some? && At(cfg.root, p).value.Dir?)
  }

  ghost predicate Inv(cfg: Config, s: State) {
    && !s.panicked && |s.workers| == cfg.walkers
    // the counter
    && s.active == |s.queue| + Sum(s.workers, Held)
    && (!s.main.Waiting? ==> s.active == 0 && s.main.result == s.firstError)
    // the nodes
    && (forall j :: 0 <= j < |s.queue| ==> ItemOk(cfg, s.queue[j]))
    && (forall i :: 0 <= i < |s.workers| ==> WorkerOk(cfg, s.calls, s.workers[i], Closed(s)))
    // the calls
    && Owed(cfg, s) <= Expected(cfg, Item([], cfg.root))
    && (Unfailed(s) ==> Owed(cfg, s) == Expected(cfg, Item([], cfg.root)))
    // the answers
    && (Unfailed(s) ==> forall p :: p in s.calls ==> Harmless(cfg, p))
    && (s.firstError.Some? ==> Reported(cfg, s.calls, s.firstError.value))
  }

  lemma {:induction false} AllIdle(ws: seq<Worker>)
    requires forall i :: 0 <= i < |ws| ==> ws[i] == Idle
    ensures Sum(ws, Held) == 0
    decreases |ws|
  {
    if ws != [] {
      AllIdle(ws[1..]);
    }
  }

  lemma InitInv(cfg: Config)
    ensures Inv(cfg, Init(cfg))
  {
    hide Expected;
    var s := Init(cfg);
    AllIdle(s.workers);
    NothingPending(cfg, s.workers);
    PendingPut(cfg, [], Item([], cfg.root));
    assert [] + [Item([], cfg.root)] == s.queue;
  }

  // ---------- one step

  /** A worker's step keeps the invariant when its own part of the accounts balances. */
  lemma WorkerStep(cfg: Config, s: State, s': State, i: nat, w': Worker)
    requires Inv(cfg, s) && i < |s.workers|
    requires s'.workers == s.workers[i := w'] && s'.main == s.main && s'.panicked == (s'.active < 0)
    requires s.calls <= s'.calls
    requires forall j :: 0 <= j < |s'.queue| ==> ItemOk(cfg, s'.queue[j])
    requires WorkerOk(cfg, s'.calls, w', Closed(s))
    requires s'.active - |s'.queue| - Held(w') == s.active - |s.queue| - Held(s.workers[i])
    requires !s.main.Waiting? ==> s'.active == 0 && s'.firstError == s.firstError
    requires var before := multiset(s.calls) + PendingWorker(cfg, s.workers[i]) + PendingQueue(cfg, s.queue);
      var after := multiset(s'.calls) + PendingWorker(cfg, w') + PendingQueue(cfg, s'.queue);
      && after <= before
      && (s'.firstError.None? && !Stopping(w') ==> after == before && s.firstError.None? && !Stopping(s.workers[i]))
    requires s'.firstError.None? && !Stopping(w') ==> forall p :: p in s'.calls && p !in s.calls ==> Harmless(cfg, p)
    requires s'.firstError.Some? ==> Reported(cfg, s'.calls, s'.firstError.value)
    ensures Inv(cfg, s')
  {
    hide Expected, PendingWorker, PendingQueue, PendingWorkers, At, Harmless;
    var ws, ws' := s.workers, s'.workers;
    SumUpdate(ws, Held, i, w');
    PendingUpdate(cfg, ws, i, w');
    forall j | 0 <= j < |ws'| ensures WorkerOk(cfg, s'.calls, ws'[j], Closed(s')) {
      if j != i {
        LaterOk(cfg, s.calls, s'.calls, ws[j], Closed(s));
      }
    }
    Replace(multiset(s.calls), PendingWorkers(cfg, ws), PendingWorker(cfg, ws[i]), PendingQueue(cfg, s.queue),
            multiset(s'.calls), PendingWorkers(cfg, ws'), PendingWorker(cfg, w'), PendingQueue(cfg, s'.queue));
    if Unfailed(s') {
      assert ws'[i] == w';
      assert forall j :: 0 <= j < |ws| && j != i ==> ws'[j] == ws[j];
      assert Unfailed(s);
    }
  }

  lemma LaterOk(cfg: Config, calls: seq<Path>, calls': seq<Path>, w: Worker, closed: bool)
    requires calls <= calls' && WorkerOk(cfg, calls, w, closed)
    ensures WorkerOk(cfg, calls', w, closed)
  {
    hide At;
    if w.Busy? {
      forall j | 0 <= j < |w.stack| ensures FrameOk(cfg, calls', w.stack[j]) {
        if w.stack[j].Stop? {
          ReportedLater(cfg, calls, calls', w.stack[j].err);
        }
      }
    }
  }

  lemma ReportedLater(cfg: Config, calls: seq<Path>, calls': seq<Path>, e: Reply)
    requires calls <= calls' && Reported(cfg, calls, e)
    ensures Reported(cfg, calls', e)
  {
    var p :| p in calls && FatalAt(cfg, p) && cfg.walkFn(p) == e;
    assert p in calls';
  }

  /** While a worker holds anything, the caller waits. */
  lemma BusyMeansWaiting(cfg: Config, s: State, i: nat)
    requires Inv(cfg, s) && i < |s.workers| && s.workers[i].Busy?
    ensures s.main.Waiting? && s.active >= |s.queue| + Held(s.workers[i])
  {
    hide Owed, Reported, WorkerOk;
    SumAtLeast(s.workers, Held, i);
  }

  /** Worker `i` is busy with `top` above `below`. */
  ghost predicate Running(cfg: Config, s: State, i: nat, below: seq<Frame>, top: Frame) {
    Inv(cfg, s) && i < |s.workers| && s.workers[i] == Busy(below + [top])
  }

  lemma RunningFacts(cfg: Config, s: State, i: nat, below: seq<Frame>, top: Frame)
    requires Running(cfg, s, i, below, top)
    ensures s.main.Waiting? && s.active >= |s.queue| + Held(s.workers[i])
    ensures FrameOk(cfg, s.calls, top)
    ensures forall j :: 0 <= j < |below| ==> below[j].List? && FrameOk(cfg, s.calls, below[j])
    ensures PendingWorker(cfg, s.workers[i]) == PendingStack(cfg, below) + PendingFrame(cfg, top)
    ensures Held(s.workers[i]) == 1 + if top.Presumed? || top.Undo? then 1 else 0
    ensures Stopping(s.workers[i]) <==> top.Stop?
  {
    hide Owed, FrameOk, PendingStack, PendingFrame, Reported;
    var stack := below + [top];
    BusyMeansWaiting(cfg, s, i);
    PendingPush(cfg, below, top);
    assert WorkerOk(cfg, s.calls, s.workers[i], Closed(s));
    assert stack[|below|] == top;
    forall j | 0 <= j < |below| ensures below[j].List? && FrameOk(cfg, s.calls, below[j]) {
      assert stack[j] == below[j];
    }
  }

  /** A worker that goes on with `below` alone, which is in its lists of entries. */
  lemma PoppedFacts(cfg: Config, calls: seq<Path>, calls': seq<Path>, below: seq<Frame>, closed: bool)
    requires calls <= calls' && forall j :: 0 <= j < |below| ==> below[j].List? && FrameOk(cfg, calls, below[j])
    ensures WorkerOk(cfg, calls', Busy(below), closed) && Held(Busy(below)) == 1 && !Stopping(Busy(below))
  {}

  lemma PushedFacts(cfg: Config, calls: seq<Path>, calls': seq<Path>, below: seq<Frame>, fr: Frame, closed: bool)
    requires calls <= calls' && FrameOk(cfg, calls', fr)
    requires forall j :: 0 <= j < |below| ==> below[j].List? && FrameOk(cfg, calls, below[j])
    ensures WorkerOk(cfg, calls', Busy(below + [fr]), closed)
    ensures Held(Busy(below + [fr])) == 1 + if fr.Presumed? || fr.Undo? then 1 else 0
    ensures Stopping(Busy(below + [fr])) <==> fr.Stop?
    ensures PendingWorker(cfg, Busy(below + [fr])) == PendingStack(cfg, below) + PendingFrame(cfg, fr)
  {
    hide FrameOk, PendingStack, PendingFrame;
    PendingPush(cfg, below, fr);
    var stack := below + [fr];
    forall j | 0 <= j < |stack| ensures FrameOk(cfg, calls', stack[j]) {
      if j < |below| {
        ListOkLater(cfg, calls, calls', below[j]);
      }
    }
  }

  lemma ListOkLater(cfg: Config, calls: seq<Path>, calls': seq<Path>, fr: Frame)
    requires fr.List? && FrameOk(cfg, calls, fr)
    ensures FrameOk(cfg, calls', fr)
  {}

  lemma CheckKeeps(cfg: Config, s: State, i: nat, below: seq<Frame>, f: Item)
    requires Running(cfg, s, i, below, Check(f))
    ensures FrameStep(cfg, s, i, below, Check(f)).Some? && Inv(cfg, FrameStep(cfg, s, i, below, Check(f)).value)
  {
    hide Expected, PendingStack, PendingQueue, Inv, WorkerOk, ItemOk;
    RunningFacts(cfg, s, i, below, Check(f));
    InvFacts(cfg, s);
    var s' := FrameStep(cfg, s, i, below, Check(f)).value;
    if s.firstError.Some? {
      PoppedFacts(cfg, s.calls, s.calls, below, Closed(s));
      WorkerStep(cfg, s, s', i, Busy(below));
    } else {
      PushedFacts(cfg, s.calls, s.calls, below, Call(f), Closed(s));
      WorkerStep(cfg, s, s', i, Busy(below + [Call(f)]));
    }
  }

  lemma InvFacts(cfg: Config, s: State)
    requires Inv(cfg, s)
    ensures !s.panicked && s.active >= 0
    ensures forall j :: 0 <= j < |s.queue| ==> ItemOk(cfg, s.queue[j])
    ensures s.firstError.Some? ==> Reported(cfg, s.calls, s.firstError.value)
  {}

  lemma CallReported(cfg: Config, calls: seq<Path>, p: Path)
    requires FatalAt(cfg, p)
    ensures Reported(cfg, calls + [p], cfg.walkFn(p))
  {
    assert p in calls + [p];
  }

  lemma CallKeeps(cfg: Config, s: State, i: nat, below: seq<Frame>, f: Item)
    requires Running(cfg, s, i, below, Call(f))
    ensures FrameStep(cfg, s, i, below, Call(f)).Some? && Inv(cfg, FrameStep(cfg, s, i, below, Call(f)).value)
  {
    hide ExpectedFrom, PendingStack, PendingQueue, Inv, WorkerOk, Reported, At;
    RunningFacts(cfg, s, i, below, Call(f));
    InvFacts(cfg, s);
    var s' := FrameStep(cfg, s, i, below, Call(f)).value;
    var reply := cfg.walkFn(f.path);
    if s.firstError.Some? {
      ReportedLater(cfg, s.calls, s'.calls, s.firstError.value);
    }
    if Fatal(reply, f.tree.Dir?) {
      CallReported(cfg, s.calls, f.path);
      PushedFacts(cfg, s.calls, s'.calls, below, Stop(reply), Closed(s));
      WorkerStep(cfg, s, s', i, Busy(below + [Stop(reply)]));
    } else if reply == Nil && f.tree.Dir? {
      PushedFacts(cfg, s.calls, s'.calls, below, List(f, 0), Closed(s));
      WorkerStep(cfg, s, s', i, Busy(below + [List(f, 0)]));
    } else {
      PoppedFacts(cfg, s.calls, s'.calls, below, Closed(s));
      WorkerStep(cfg, s, s', i, Busy(below));
    }
  }

  lemma StopKeeps(cfg: Config, s: State, i: nat, below: seq<Frame>, err: Reply)
    requires Running(cfg, s, i, below, Stop(err))
    ensures FrameStep(cfg, s, i, below, Stop(err)).Some? && Inv(cfg, FrameStep(cfg, s, i, below, Stop(err)).value)
  {
    hide PendingStack, PendingQueue, Inv, WorkerOk, Reported;
    RunningFacts(cfg, s, i, below, Stop(err));
    InvFacts(cfg, s);
    PoppedFacts(cfg, s.calls, s.calls, below, Closed(s));
    WorkerStep(cfg, s, FrameStep(cfg, s, i, below, Stop(err)).value, i, Busy(below));
  }

  lemma ListKeeps(cfg: Config, s: State, i: nat, below: seq<Frame>, f: Item, n: nat)
    requires Running(cfg, s, i, below, List(f, n))
    ensures FrameStep(cfg, s, i, below, List(f, n)).Some? && Inv(cfg, FrameStep(cfg, s, i, below, List(f, n)).value)
  {
    hide PendingStack, PendingQueue, Inv, WorkerOk, Reported, At;
    RunningFacts(cfg, s, i, below, List(f, n));
    InvFacts(cfg, s);
    var s' := FrameStep(cfg, s, i, below, List(f, n)).value;
    if n >= |f.tree.entries| {
      PoppedFacts(cfg, s.calls, s.calls, below, Closed(s));
      WorkerStep(cfg, s, s', i, Busy(below));
    } else if f.tree.entries[n].Dir? {
      PushedFacts(cfg, s.calls, s.calls, below, Presumed(f, n), Closed(s));
      WorkerStep(cfg, s, s', i, Busy(below + [Presumed(f, n)]));
    } else {
      FileEntryKeeps(cfg, s, i, below, f, n);
    }
  }

  /** A plain file in the list of entries is visited on the spot. */
  lemma FileEntryKeeps(cfg: Config, s: State, i: nat, below: seq<Frame>, f: Item, n: nat)
    requires Running(cfg, s, i, below, List(f, n))
    requires f.tree.Dir? && n < |f.tree.entries| && f.tree.entries[n].File?
    ensures FrameStep(cfg, s, i, below, List(f, n)).Some? && Inv(cfg, FrameStep(cfg, s, i, below, List(f, n)).value)
  {
    hide PendingStack, PendingQueue, Inv, WorkerOk, Reported, At;
    RunningFacts(cfg, s, i, below, List(f, n));
    InvFacts(cfg, s);
    var s' := FrameStep(cfg, s, i, below, List(f, n)).value;
    var child := Entry(f, n);
    var reply := cfg.walkFn(child.path);
    var fr := if Fatal(reply, false) then Stop(reply) else List(f, n + 1);
    AtEntry(cfg.root, f.path, n);
    if s.firstError.Some? {
      ReportedLater(cfg, s.calls, s'.calls, s.firstError.value);
    }
    if Fatal(reply, false) {
      CallReported(cfg, s.calls, child.path);
    }
    assert Expected(cfg, child) == multiset{child.path};
    PushedFacts(cfg, s.calls, s'.calls, below, fr, Closed(s));
    WorkerStep(cfg, s, s', i, Busy(below + [fr]));
  }

  lemma PresumedKeeps(cfg: Config, s: State, i: nat, below: seq<Frame>, f: Item, n: nat)
    requires Running(cfg, s, i, below, Presumed(f, n))
    ensures FrameStep(cfg, s, i, below, Presumed(f, n)).Some? && Inv(cfg, FrameStep(cfg, s, i, below, Presumed(f, n)).value)
  {
    hide PendingStack, PendingQueue, Inv, WorkerOk, Reported, At, Expected;
    RunningFacts(cfg, s, i, below, Presumed(f, n));
    InvFacts(cfg, s);
    var s' := FrameStep(cfg, s, i, below, Presumed(f, n)).value;
    if |s.queue| < cfg.capacity {
      AtEntry(cfg.root, f.path, n);
      PendingPut(cfg, s.queue, Entry(f, n));
      PushedFacts(cfg, s.calls, s.calls, below, List(f, n + 1), Closed(s));
      WorkerStep(cfg, s, s', i, Busy(below + [List(f, n + 1)]));
    } else {
      PushedFacts(cfg, s.calls, s.calls, below, Undo(f, n), Closed(s));
      WorkerStep(cfg, s, s', i, Busy(below + [Undo(f, n)]));
    }
  }

  lemma UndoKeeps(cfg: Config, s: State, i: nat, below: seq<Frame>, f: Item, n: nat)
    requires Running(cfg, s, i, below, Undo(f, n))
    ensures FrameStep(cfg, s, i, below, Undo(f, n)).Some? && Inv(cfg, FrameStep(cfg, s, i, below, Undo(f, n)).value)
  {
    hide PendingStack, PendingQueue, Inv, WorkerOk, Reported, At, Expected;
    RunningFacts(cfg, s, i, below, Undo(f, n));
    InvFacts(cfg, s);
    var s' := FrameStep(cfg, s, i, below, Undo(f, n)).value;
    var child := Entry(f, n);
    AtEntry(cfg.root, f.path, n);
    var below' := below + [List(f, n + 1)];
    PendingPush(cfg, below, List(f, n + 1));
    PushedFacts(cfg, s.calls, s.calls, below', Check(child), Closed(s));
    assert below + [List(f, n + 1), Check(child)] == below' + [Check(child)];
    WorkerStep(cfg, s, s', i, Busy(below' + [Check(child)]));
  }

  lemma ReceiveKeeps(cfg: Config, s: State, i: nat)
    requires Inv(cfg, s) && i < |s.workers| && s.workers[i].Idle? && s.queue != []
    ensures Inv(cfg, Step(cfg, s, Walker(i)).value)
  {
    hide PendingStack, PendingQueue, Inv, WorkerOk, Reported, At, Expected;
    InvFacts(cfg, s);
    QueueMeansWaiting(cfg, s);
    var f := s.queue[0];
    PendingTake(cfg, s.queue);
    PushedFacts(cfg, s.calls, s.calls, [], Check(f), Closed(s));
    assert [] + [Check(f)] == [Check(f)];
    NoFrames(cfg);
    WorkerStep(cfg, s, Step(cfg, s, Walker(i)).value, i, Busy([Check(f)]));
  }

  lemma NoFrames(cfg: Config)
    ensures PendingStack(cfg, []) == multiset{}
  {}

  lemma QueueMeansWaiting(cfg: Config, s: State)
    requires Inv(cfg, s) && s.queue != []
    ensures s.main.Waiting? && s.active > 0
  {}

  lemma ExitKeeps(cfg: Config, s: State, i: nat)
    requires Inv(cfg, s) && i < |s.workers| && s.workers[i].Idle? && s.queue == [] && Closed(s)
    ensures Inv(cfg, Step(cfg, s, Walker(i)).value)
  {
    hide PendingQueue, Reported, At, Expected;
    WorkerStep(cfg, s, Step(cfg, s, Walker(i)).value, i, Exited);
  }

  lemma ReleaseKeeps(cfg: Config, s: State, i: nat)
    requires Inv(cfg, s) && i < |s.workers| && s.workers[i] == Busy([])
    ensures Inv(cfg, Step(cfg, s, Walker(i)).value)
  {
    hide PendingQueue, Inv, Reported, At, Expected;
    InvFacts(cfg, s);
    BusyMeansWaiting(cfg, s, i);
    WorkerStep(cfg, s, Step(cfg, s, Walker(i)).value, i, Idle);
  }

  /** Every enabled step keeps the invariant. */
  lemma StepKeepsInv(cfg: Config, s: State, a: Actor)
    requires Inv(cfg, s) && Step(cfg, s, a).Some?
    ensures Inv(cfg, Step(cfg, s, a).value)
  {
    hide Inv, FrameStep;
    if a.Caller? {
      CallerKeeps(cfg, s);
    } else {
      match s.workers[a.i] {
        case Exited =>
        case Idle =>
          if s.queue != [] {
            ReceiveKeeps(cfg, s, a.i);
          } else {
            ExitKeeps(cfg, s, a.i);
          }
        case Busy(stack) =>
          if stack == [] {
            ReleaseKeeps(cfg, s, a.i);
          } else {
            var below, top := stack[..|stack| - 1], stack[|stack| - 1];
            assert stack == below + [top];
            match top {
              case Check(f) => CheckKeeps(cfg, s, a.i, below, f);
              case Call(f) => CallKeeps(cfg, s, a.i, below, f);
              case Stop(err) => StopKeeps(cfg, s, a.i, below, err);
              case List(f, n) => ListKeeps(cfg, s, a.i, below, f, n);
              case Presumed(f, n) => PresumedKeeps(cfg, s, a.i, below, f, n);
              case Undo(f, n) => UndoKeeps(cfg, s, a.i, below, f, n);
            }
          }
      }
    }
  }

  lemma CallerKeeps(cfg: Config, s: State)
    requires Inv(cfg, s) && Step(cfg, s, Caller).Some?
    ensures Inv(cfg, Step(cfg, s, Caller).value)
  {
    hide Expected, Reported, PendingWorkers, PendingQueue, FrameOk;
  }

  /** The invariant holds in every state of every run. */
  lemma {:induction false} RunInv(cfg: Config, schedule: seq<Actor>)
    requires Run(cfg, schedule).Some?
    ensures Inv(cfg, Run(cfg, schedule).value)
    decreases |schedule|
  {
    hide Inv, Step;
    if schedule == [] {
      InitInv(cfg);
    } else {
      var before := schedule[..|schedule| - 1];
      RunInv(cfg, before);
      StepKeepsInv(cfg, Run(cfg, before).value, schedule[|schedule| - 1]);
    }
  }
}
