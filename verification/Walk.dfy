/** The parallel tree walk of MichaelTJones/walk/walk.go as a protocol of atomic steps: a bounded
    channel, a WaitGroup counter, worker goroutines with their call stacks, and the waiting caller. */
module Walk {
  import opened Common

  /** A finite file tree; a node is named by the entry indices that lead to it. */
  datatype Tree = File | Dir(entries: seq<Tree>)
  type Path = seq<nat>

  /** What walkFn answers: nil, SkipDir, or another error. */
  datatype Reply = Nil | SkipDir | Failure(code: nat)

  datatype Config = Config(root: Tree, walkFn: Path -> Reply, capacity: nat, walkers: nat)

  /** VisitData: a file to be processed. */
  datatype Item = Item(path: Path, tree: Tree)

  /** A program point of visitFile. */
  datatype Frame =
    | Check(file: Item)               // about to ask terminated()
    | Call(file: Item)                // about to call walkFn
    | Stop(err: Reply)                // about to record an error and return
    | List(file: Item, next: nat)     // at entry `next` of the directory
    | Presumed(file: Item, next: nat) // has added one to `active`, about to try the send
    | Undo(file: Item, next: nat)     // the send failed, about to take that one back

  /** A goroutine in visitChannel: receiving, inside visitFile (innermost frame last), or gone. With
      an empty stack it is about to take one off `active`. */
  datatype Worker = Idle | Busy(stack: seq<Frame>) | Exited

  /** The goroutine in Walk: waiting, about to run the deferred close, or done. */
  datatype Main = Waiting | Closing(result: Option<Reply>) | Done(result: Option<Reply>)

  datatype State = State(
    queue: seq<Item>,
    active: int,
    firstError: Option<Reply>,
    workers: seq<Worker>,
    main: Main,
    calls: seq<Path>,   // the paths walkFn has been called with
    panicked: bool      // negative WaitGroup counter, or send on the closed channel
  )

  datatype Actor = Walker(i: nat) | Caller

  /** The workers start when the root is in the channel, which therefore has a capacity of at least one. */
  function Init(cfg: Config): (s: State) {
    State([Item([], cfg.root)], 1, None, seq(cfg.walkers, _ => Idle), Waiting, [], false)
  }

  predicate Closed(s: State) {
    s.main.Done?
  }

  function Entry(file: Item, n: nat): (child: Item)
    requires file.tree.Dir? && n < |file.tree.entries|
  {
    Item(file.path + [n], file.tree.entries[n])
  }

  /** Whether an answer ends the walk: any error except SkipDir on a directory passed to visitFile. */
  predicate Fatal(reply: Reply, isDir: bool) {
    reply != Nil && !(isDir && reply == SkipDir)
  }

  // ---------- steps

  function Step(cfg: Config, s: State, a: Actor): (s': Option<State>) {
    match a
    case Caller =>
      (match s.main
       case Waiting => if s.active == 0 then Some(s.(main := Closing(s.firstError))) else None
       case Closing(result) => Some(s.(main := Done(result)))
       case Done(_) => None)
    case Walker(i) =>
      if i >= |s.workers| then None
      else match s.workers[i]
        case Exited => None
        case Idle =>
          if s.queue != [] then
            Some(s.(queue := s.queue[1..], workers := s.workers[i := Busy([Check(s.queue[0])])]))
          else if Closed(s) then Some(s.(workers := s.workers[i := Exited]))
          else None
        case Busy(stack) =>
          if stack == [] then Some(AddActive(s, -1).(workers := s.workers[i := Idle]))
          else FrameStep(cfg, s, i, stack[..|stack| - 1], stack[|stack| - 1])
  }

  function AddActive(s: State, delta: int): (s': State) {
    s.(active := s.active + delta, panicked := s.panicked || s.active + delta < 0)
  }

  /** Worker `i` continues with `stack`. */
  function Continue(s: State, i: nat, stack: seq<Frame>): (s': State)
    requires i < |s.workers|
  {
    s.(workers := s.workers[i := Busy(stack)])
  }

  /** A step of the innermost frame `top` above the frames `below`. */
  function FrameStep(cfg: Config, s: State, i: nat, below: seq<Frame>, top: Frame): (s': Option<State>)
    requires i < |s.workers|
  {
    match top
    case Check(f) =>
      Some(Continue(s, i, if s.firstError.Some? then below else below + [Call(f)]))
    case Call(f) =>
      var reply := cfg.walkFn(f.path);
      var s1 := s.(calls := s.calls + [f.path]);
      Some(Continue(s1, i,
                    if Fatal(reply, f.tree.Dir?) then below + [Stop(reply)]
                    else if reply == Nil && f.tree.Dir? then below + [List(f, 0)]
                    else below))
    case Stop(err) =>
      Some(Continue(s.(firstError := if s.firstError.None? then Some(err) else s.firstError), i, below))
    case List(f, n) =>
      if f.tree.File? || n >= |f.tree.entries| then Some(Continue(s, i, below))
      else if f.tree.entries[n].Dir? then Some(Continue(AddActive(s, 1), i, below + [Presumed(f, n)]))
      else
        var path := Entry(f, n).path;
        var reply := cfg.walkFn(path);
        var s1 := s.(calls := s.calls + [path]);
        Some(Continue(s1, i, below + [if Fatal(reply, false) then Stop(reply) else List(f, n + 1)]))
    case Presumed(f, n) =>
      if f.tree.File? || n >= |f.tree.entries| then None
      else if Closed(s) then Some(s.(panicked := true))
      else if |s.queue| < cfg.capacity then
        Some(Continue(s.(queue := s.queue + [Entry(f, n)]), i, below + [List(f, n + 1)]))
      else Some(Continue(s, i, below + [Undo(f, n)]))
    case Undo(f, n) =>
      if f.tree.File? || n >= |f.tree.entries| then None
      else Some(Continue(AddActive(s, -1), i, below + [List(f, n + 1), Check(Entry(f, n))]))
  }

  /** The state after a schedule; None when some scheduled step is not enabled. */
  function Run(cfg: Config, schedule: seq<Actor>): (s: Option<State>) {
    if schedule == [] then Some(Init(cfg))
    else match Run(cfg, schedule[..|schedule| - 1])
      case None => None
      case Some(s) => Step(cfg, s, schedule[|schedule| - 1])
  }

  // ---------- the nodes to be visited

  /** The calls that visiting a subtree makes when nothing fails. */
  ghost function Expected(cfg: Config, file: Item): (m: multiset<Path>)
    decreases file.tree, 1
  {
    multiset{file.path} +
    if file.tree.Dir? && cfg.walkFn(file.path) == Nil
    then ExpectedFrom(cfg, file.path, file.tree.entries, 0) else multiset{}
  }

  ghost function ExpectedFrom(cfg: Config, path: Path, entries: seq<Tree>, n: nat): (m: multiset<Path>)
    decreases entries, 0, |entries| - n
  {
    if n >= |entries| then multiset{}
    else Expected(cfg, Item(path + [n], entries[n])) + ExpectedFrom(cfg, path, entries, n + 1)
  }

  /** `p` names a node of the tree none of whose proper ancestors was answered other than nil. */
  ghost predicate Visible(cfg: Config, file: Item, p: Path)
    decreases file.tree
  {
    || p == file.path
    || (&& file.tree.Dir? && cfg.walkFn(file.path) == Nil
        && |file.path| < |p| && p[|file.path|] < |file.tree.entries|
        && Visible(cfg, Entry(file, p[|file.path|]), p))
  }

  lemma {:induction false} ExpectedIsVisible(cfg: Config, file: Item, p: Path)
    ensures file.path <= p ==> Expected(cfg, file)[p] == if Visible(cfg, file, p) then 1 else 0
    ensures !(file.path <= p) ==> Expected(cfg, file)[p] == 0
    decreases file.tree, 1
  {
    if file.tree.Dir? {
      ExpectedFromIsVisible(cfg, file.path, file.tree.entries, 0, p);
      if Visible(cfg, file, p) && p != file.path {
        VisibleExtends(cfg, Entry(file, p[|file.path|]), p);
      }
    }
  }

  lemma {:induction false} VisibleExtends(cfg: Config, file: Item, p: Path)
    requires Visible(cfg, file, p)
    ensures file.path <= p
    decreases file.tree
  {
    if p != file.path {
      VisibleExtends(cfg, Entry(file, p[|file.path|]), p);
    }
  }

  lemma {:induction false} ExpectedFromIsVisible(cfg: Config, path: Path, entries: seq<Tree>, n: nat, p: Path)
    ensures ExpectedFrom(cfg, path, entries, n)[p] ==
      if path < p && n <= p[|path|] < |entries| && path + [p[|path|]] <= p
         && Visible(cfg, Item(path + [p[|path|]], entries[p[|path|]]), p) then 1 else 0
    decreases entries, 0, |entries| - n
  {
    if n < |entries| {
      ExpectedIsVisible(cfg, Item(path + [n], entries[n]), p);
      ExpectedFromIsVisible(cfg, path, entries, n + 1, p);
      assert path + [n] <= p <==> path < p && p[|path|] == n;
    }
  }
}
