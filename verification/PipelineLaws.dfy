/** What every reachable state of the re-crawl pipeline keeps. */
module PipelineLaws {
  import opened Model
  import opened Pipeline
  import Reader

  // ----- the target goroutine hands out an exact slice -----

  predicate ScanOver(p: Producer) {
    p.phase != Scanning && p.phase != Checking
  }

  ghost predicate StreamInv(cfg: Config, s: State) {
    var p := s.prod;
    && p.pos <= |cfg.recs|
    && p.produced == |Filtered(cfg.mask, cfg.recs[..p.pos])|
    && p.emitted == |p.sent| == (if p.produced <= cfg.skip then 0 else p.produced - cfg.skip)
    && p.produced <= |Stream(cfg)|
    && (forall i | 0 <= i < |p.sent| :: p.sent[i] == Task(cfg.skip + i, Stream(cfg)[cfg.skip + i]))
    && (cfg.limit != 0 ==> p.emitted <= cfg.limit)
    && (p.phase == Checking ==> p.produced > cfg.skip)
    && (ScanOver(p) ==> p.produced >= cfg.skip || p.pos == |cfg.recs|)
    && (ScanOver(p) && !s.cancelled ==> p.pos == |cfg.recs| || LimitReached(cfg, p))
  }

  lemma StreamInit(cfg: Config)
    ensures StreamInv(cfg, Init(cfg))
  {
    assert cfg.recs[..0] == [];
  }

  lemma StreamStep(cfg: Config, s: State, step: Step)
    requires StreamInv(cfg, s) && Enabled(cfg, s, step)
    ensures StreamInv(cfg, Apply(cfg, s, step))
  {
    hide Filtered, MaskHas, Drop, Added;
    if step in {PassRecord, SkipTarget, SendTarget} {
      FilteredStep(cfg.mask, cfg.recs, s.prod.pos);
      FilteredPrefix(cfg.mask, cfg.recs, s.prod.pos + 1);
    }
  }

  // ----- conservation -----

  function TaskOf(w: Worker): multiset<Task> {
    match w
    case Holding(t) => multiset{t}
    case Ready(t) => multiset{t}
    case _ => multiset{}
  }

  function WorkerTasks(ws: seq<Worker>): multiset<Task> {
    if ws == [] then multiset{} else WorkerTasks(ws[..|ws| - 1]) + TaskOf(ws[|ws| - 1])
  }

  function HeldTask(h: Option<Task>): multiset<Task> {
    if h.Some? then multiset{h.value} else multiset{}
  }

  /** Handed out, not yet in a written block and not given up by a cancelled worker. */
  function InFlight(s: State): multiset<Task> {
    multiset(s.pool.ch) + WorkerTasks(s.pool.workers) + multiset(s.sink.ch) + HeldTask(s.sink.held) + multiset(s.sink.buf)
  }

  /** Every target handed out is in exactly one place. */
  ghost predicate Conserved(s: State) {
    multiset(s.prod.sent) == InFlight(s) + multiset(s.sink.flushed) + multiset(s.pool.dropped)
  }

  lemma {:induction false} WorkerTasksUpdate(ws: seq<Worker>, i: nat, w: Worker)
    requires i < |ws|
    ensures WorkerTasks(ws[i := w]) + TaskOf(ws[i]) == WorkerTasks(ws) + TaskOf(w)
  {
    hide TaskOf;
    var n := |ws| - 1;
    if i < n {
      WorkerTasksUpdate(ws[..n], i, w);
      assert ws[i := w][..n] == ws[..n][i := w];
      var after, before, x := WorkerTasks(ws[..n][i := w]), WorkerTasks(ws[..n]), TaskOf(ws[n]);
      assert after + x + TaskOf(ws[i]) == (after + TaskOf(ws[i])) + x == (before + TaskOf(w)) + x;
    } else {
      assert ws[i := w][..n] == ws[..n];
    }
  }

  lemma {:induction false} IdleTasks(n: nat)
    ensures WorkerTasks(seq(n, _ => Idle)) == multiset{}
  {
    if n > 0 {
      IdleTasks(n - 1);
      assert seq(n, _ => Idle)[..n - 1] == seq(n - 1, _ => Idle);
    }
  }

  lemma ConservedInit(cfg: Config)
    ensures Conserved(Init(cfg))
  {
    IdleTasks(cfg.PoolSize());
  }

  /** How often task t is on the worker side, and on the sink side. */
  function PoolPlaces(p: Pool, t: Task): nat {
    multiset(p.ch)[t] + WorkerTasks(p.workers)[t] + multiset(p.dropped)[t]
  }

  function SinkPlaces(k: Sink, t: Task): nat {
    multiset(k.ch)[t] + HeldTask(k.held)[t] + multiset(k.buf)[t] + multiset(k.flushed)[t]
  }

  function Places(s: State, t: Task): nat {
    PoolPlaces(s.pool, t) + SinkPlaces(s.sink, t)
  }

  lemma HeadTail<T>(s: seq<T>, x: T)
    requires s != []
    ensures multiset(s)[x] == (if s[0] == x then 1 else 0) + multiset(s[1..])[x]
  {
    assert s == [s[0]] + s[1..];
  }

  lemma WorkerPlaces(ws: seq<Worker>, i: nat, w: Worker, t: Task)
    requires i < |ws|
    ensures WorkerTasks(ws[i := w])[t] + TaskOf(ws[i])[t] == WorkerTasks(ws)[t] + TaskOf(w)[t]
  {
    hide WorkerTasks, TaskOf;
    WorkerTasksUpdate(ws, i, w);
    assert (WorkerTasks(ws[i := w]) + TaskOf(ws[i]))[t] == (WorkerTasks(ws) + TaskOf(w))[t];
  }

  /** Steps that move no task. */
  predicate Quiet(step: Step) {
    match step
    case SendTarget => false
    case Receive(_) => false
    case LeaveClosed(_) => false
    case Process(_) => false
    case CancelToken(_) => false
    case Deliver(_) => false
    case CancelSend(_) => false
    case TakeResult => false
    case AddResult => false
    case CloseSink => false
    case _ => true
  }

  lemma PlacesQuiet(cfg: Config, s: State, step: Step)
    requires Enabled(cfg, s, step) && Quiet(step)
    ensures var s' := Apply(cfg, s, step);
            && s'.prod.sent == s.prod.sent
            && s'.pool == s.pool.(closed := s'.pool.closed)
            && s'.sink == s.sink.(closed := s'.sink.closed, drained := s'.sink.drained)
  {
    hide MaskHas;
  }

  lemma DropPlaces(p: Pool, w: nat, t: Task)
    requires w < |p.workers| && (p.workers[w].Holding? || p.workers[w].Ready?)
    ensures PoolPlaces(Drop(p, w), t) == PoolPlaces(p, t)
  {
    hide WorkerTasks;
    WorkerPlaces(p.workers, w, Exited, t);
  }

  lemma MovedPlaces(p: Pool, w: nat, w': Worker, t: Task)
    requires w < |p.workers| && TaskOf(w') == TaskOf(p.workers[w])
    ensures PoolPlaces(p.(workers := p.workers[w := w']), t) == PoolPlaces(p, t)
  {
    hide WorkerTasks;
    WorkerPlaces(p.workers, w, w', t);
  }

  lemma PlacesWorker(cfg: Config, s: State, step: Step, t: Task)
    requires Enabled(cfg, s, step)
    requires step.LeaveClosed? || step.Process? || step.CancelToken? || step.CancelSend?
    ensures var s' := Apply(cfg, s, step);
            s'.prod == s.prod && s'.sink == s.sink && PoolPlaces(s'.pool, t) == PoolPlaces(s.pool, t)
  {
    hide PoolPlaces, MaskHas, Drop;
    var ws := s.pool.workers;
    if step.LeaveClosed? {
      MovedPlaces(s.pool, step.w, Exited, t);
    } else if step.Process? {
      MovedPlaces(s.pool, step.w, Ready(ws[step.w].task), t);
    } else {
      DropPlaces(s.pool, step.w, t);
    }
  }

  lemma PlacesReceive(cfg: Config, s: State, w: nat, t: Task)
    requires Enabled(cfg, s, Receive(w))
    ensures var s' := Apply(cfg, s, Receive(w));
            s'.prod == s.prod && s'.sink == s.sink && PoolPlaces(s'.pool, t) == PoolPlaces(s.pool, t)
  {
    hide WorkerTasks;
    HeadTail(s.pool.ch, t);
    WorkerPlaces(s.pool.workers, w, Holding(s.pool.ch[0]), t);
  }

  lemma ReleasedPlaces(p: Pool, w: nat, t: Task)
    requires w < |p.workers| && p.workers[w].Ready?
    ensures PoolPlaces(p.(workers := p.workers[w := Idle]), t) + (if p.workers[w].task == t then 1 else 0)
         == PoolPlaces(p, t)
  {
    hide WorkerTasks;
    WorkerPlaces(p.workers, w, Idle, t);
  }

  lemma ArrivedPlaces(k: Sink, x: Task, t: Task)
    ensures SinkPlaces(k.(ch := k.ch + [x]), t) == SinkPlaces(k, t) + (if x == t then 1 else 0)
  {
  }

  lemma PlacesDeliver(cfg: Config, s: State, w: nat, t: Task)
    requires Enabled(cfg, s, Deliver(w))
    ensures Apply(cfg, s, Deliver(w)).prod == s.prod && Places(Apply(cfg, s, Deliver(w)), t) == Places(s, t)
  {
    hide PoolPlaces, SinkPlaces;
    ReleasedPlaces(s.pool, w, t);
    ArrivedPlaces(s.sink, s.pool.workers[w].task, t);
  }

  lemma AddedPlaces(k: Sink, t: Task)
    requires k.held.Some?
    ensures SinkPlaces(Added(k), t) == SinkPlaces(k, t)
  {
  }

  lemma ClosedPlaces(k: Sink, t: Task)
    ensures SinkPlaces(k.(buf := [], flushed := k.flushed + k.buf, finished := true), t) == SinkPlaces(k, t)
  {
  }

  lemma TakenPlaces(k: Sink, t: Task)
    requires k.held.None? && k.ch != []
    ensures SinkPlaces(k.(ch := k.ch[1..], held := Some(k.ch[0])), t) == SinkPlaces(k, t)
  {
    HeadTail(k.ch, t);
  }

  lemma PlacesSink(cfg: Config, s: State, step: Step, t: Task)
    requires Enabled(cfg, s, step)
    requires step.TakeResult? || step.AddResult? || step.CloseSink?
    ensures var s' := Apply(cfg, s, step);
            s'.prod == s.prod && s'.pool == s.pool && SinkPlaces(s'.sink, t) == SinkPlaces(s.sink, t)
  {
    hide SinkPlaces, Added;
    if step.TakeResult? {
      TakenPlaces(s.sink, t);
    } else if step.AddResult? {
      AddedPlaces(s.sink, t);
    } else {
      ClosedPlaces(s.sink, t);
    }
  }

  lemma PlacesSend(cfg: Config, s: State, t: Task)
    requires Enabled(cfg, s, SendTarget)
    requires multiset(s.prod.sent)[t] == Places(s, t)
    ensures multiset(Apply(cfg, s, SendTarget).prod.sent)[t] == Places(Apply(cfg, s, SendTarget), t)
  {
    hide WorkerTasks, MaskHas, SinkPlaces;
  }

  lemma PlacesStep(cfg: Config, s: State, step: Step, t: Task)
    requires Enabled(cfg, s, step)
    requires multiset(s.prod.sent)[t] == Places(s, t)
    ensures multiset(Apply(cfg, s, step).prod.sent)[t] == Places(Apply(cfg, s, step), t)
  {
    hide Enabled, Apply, WorkerTasks;
    if Quiet(step) {
      PlacesQuiet(cfg, s, step);
    } else if step.SendTarget? {
      PlacesSend(cfg, s, t);
    } else if step.TakeResult? || step.AddResult? || step.CloseSink? {
      PlacesSink(cfg, s, step, t);
    } else if step.Receive? {
      PlacesReceive(cfg, s, step.w, t);
    } else if step.Deliver? {
      PlacesDeliver(cfg, s, step.w, t);
    } else {
      PlacesWorker(cfg, s, step, t);
    }
  }

  lemma ConservedStep(cfg: Config, s: State, step: Step)
    requires Conserved(s) && Enabled(cfg, s, step)
    ensures Conserved(Apply(cfg, s, step))
  {
    hide WorkerTasks, Enabled, Apply;
    var s' := Apply(cfg, s, step);
    forall t: Task
      ensures multiset(s'.prod.sent)[t] == (InFlight(s') + multiset(s'.sink.flushed) + multiset(s'.pool.dropped))[t]
    {
      assert multiset(s.prod.sent)[t] == (InFlight(s) + multiset(s.sink.flushed) + multiset(s.pool.dropped))[t];
      PlacesStep(cfg, s, step, t);
    }
  }

  // ----- capacities and the order of shutting down -----

  function CountExited(ws: seq<Worker>): (n: nat)
    ensures n <= |ws|
  {
    if ws == [] then 0 else CountExited(ws[..|ws| - 1]) + (if ws[|ws| - 1].Exited? then 1 else 0)
  }

  lemma {:induction false} CountExitedUpdate(ws: seq<Worker>, i: nat, w: Worker)
    requires i < |ws| && !ws[i].Exited?
    ensures CountExited(ws[i := w]) == CountExited(ws) + (if w.Exited? then 1 else 0)
  {
    var n := |ws| - 1;
    if i < n {
      CountExitedUpdate(ws[..n], i, w);
      assert ws[i := w][..n] == ws[..n][i := w];
    } else {
      assert ws[i := w][..n] == ws[..n];
    }
  }

  predicate AllExited(ws: seq<Worker>) {
    forall w | 0 <= w < |ws| :: ws[w].Exited?
  }

  predicate SomeExited(ws: seq<Worker>) {
    exists w | 0 <= w < |ws| :: ws[w].Exited?
  }

  /** Channel and buffer sizes; a worker drops at most one task, and only when cancelled. */
  ghost predicate SizeInv(cfg: Config, s: State) {
    && |s.pool.workers| == cfg.PoolSize()
    && |s.pool.ch| <= IP_CAP && |s.sink.ch| <= RESULT_CAP && |s.sink.buf| < Reader.BLOCK_RECS
    && |s.pool.dropped| <= CountExited(s.pool.workers)
    && (!s.cancelled ==> s.pool.dropped == [])
  }

  /** Who may have stopped when. */
  ghost predicate OrderInv(cfg: Config, s: State) {
    && |s.pool.workers| == cfg.PoolSize()
    && (s.pool.closed <==> s.prod.phase == ChannelsClosed)
    // without cancellation a worker only leaves a closed, empty channel
    && (!s.cancelled && SomeExited(s.pool.workers) ==> s.pool.closed && s.pool.ch == [])
    && (s.sink.closed ==> AllExited(s.pool.workers))
    && (s.sink.drained ==> s.sink.closed && s.sink.ch == [] && s.sink.held.None?)
    && (s.sink.finished ==> s.sink.drained && s.sink.buf == [])
  }

  lemma ShapeInit(cfg: Config)
    ensures SizeInv(cfg, Init(cfg)) && OrderInv(cfg, Init(cfg))
  {
  }

  lemma SizeStep(cfg: Config, s: State, step: Step)
    requires SizeInv(cfg, s) && Enabled(cfg, s, step)
    ensures SizeInv(cfg, Apply(cfg, s, step))
  {
    hide MaskHas, CountExited;
    var ws := s.pool.workers;
    match step
    case Receive(w) => CountExitedUpdate(ws, w, Holding(s.pool.ch[0]));
    case LeaveClosed(w) => CountExitedUpdate(ws, w, Exited);
    case Process(w) => CountExitedUpdate(ws, w, Ready(ws[w].task));
    case CancelToken(w) => CountExitedUpdate(ws, w, Exited);
    case Deliver(w) => CountExitedUpdate(ws, w, Idle);
    case CancelSend(w) => CountExitedUpdate(ws, w, Exited);
    case _ =>
  }

  lemma OrderStep(cfg: Config, s: State, step: Step)
    requires OrderInv(cfg, s) && Enabled(cfg, s, step)
    ensures OrderInv(cfg, Apply(cfg, s, step))
  {
    hide MaskHas;
  }

  /** The channel to the workers is first-in first-out: it always holds the latest targets handed out. */
  ghost predicate FifoInv(s: State) {
    |s.pool.ch| <= |s.prod.sent| && s.pool.ch == s.prod.sent[|s.prod.sent| - |s.pool.ch|..]
  }

  lemma FifoStep(cfg: Config, s: State, step: Step)
    requires FifoInv(s) && Enabled(cfg, s, step)
    ensures FifoInv(Apply(cfg, s, step))
  {
    hide MaskHas, Added;
  }

  // ----- the cursor -----

  /** Past the final send, its value is still in the channel, in the writer's hand, or the last one written. */
  predicate FinalIsLast(p: Producer, c: Cursor) {
    || c.ch == [p.produced]
    || (c.ch == [] && c.held == Some(p.produced))
    || (c.ch == [] && c.held.None? && c.log != [] && c.log[|c.log| - 1] == p.produced)
  }

  /** Everything the cursor channel carried or will write, oldest first. */
  function CursorTrail(c: Cursor): seq<nat> {
    c.log + CursorHand(c) + c.ch
  }

  function CursorHand(c: Cursor): seq<nat> {
    if c.held.Some? then [c.held.value] else []
  }

  ghost predicate Ascending(trail: seq<nat>, lo: nat, hi: nat) {
    && (forall i, j | 0 <= i < j < |trail| :: trail[i] <= trail[j])
    && (forall i | 0 <= i < |trail| :: lo <= trail[i] <= hi)
  }

  /** The resume point, as far as the stream reaches. */
  function ResumePoint(cfg: Config): nat {
    if cfg.skip <= |Stream(cfg)| then cfg.skip else |Stream(cfg)|
  }

  ghost predicate CursorInv(cfg: Config, s: State) {
    && |s.cur.ch| <= 1
    && Ascending(CursorTrail(s.cur), ResumePoint(cfg), s.prod.produced)
    && (s.prod.phase == FinalSend ==> s.cur.ch == [])
    && (s.prod.phase in {Returned, ChannelsClosed} ==> FinalIsLast(s.prod, s.cur))
  }

  lemma CursorInit(cfg: Config)
    ensures CursorInv(cfg, Init(cfg))
  {
  }

  lemma AscendingSnoc(trail: seq<nat>, lo: nat, hi: nat)
    requires Ascending(trail, lo, hi) && lo <= hi
    ensures Ascending(trail + [hi], lo, hi)
  {
  }

  /** Steps outside the cursor only let `produced` grow. */
  lemma CursorUntouched(cfg: Config, s: State, step: Step)
    requires Enabled(cfg, s, step)
    requires step !in {Checkpoint, DrainCursor, SendFinal, CloseChannels, TakeCursor, WriteCursor}
    ensures var s' := Apply(cfg, s, step);
            && s'.cur == s.cur && s'.prod.produced >= s.prod.produced
            && (s'.prod.phase in {FinalSend, Returned, ChannelsClosed} ==> s'.prod == s.prod)
  {
    hide MaskHas, Drop, Added;
  }

  lemma AscendingPrefix(trail: seq<nat>, trail': seq<nat>, lo: nat, hi: nat)
    requires Ascending(trail, lo, hi) && trail' <= trail
    ensures Ascending(trail', lo, hi)
  {
  }

  lemma CursorOwn(cfg: Config, s: State, step: Step)
    requires CursorInv(cfg, s) && Enabled(cfg, s, step)
    requires step in {DrainCursor, CloseChannels, TakeCursor, WriteCursor}
    ensures CursorInv(cfg, Apply(cfg, s, step))
  {
    hide MaskHas, Drop, Added, Ascending, ResumePoint;
    var trail, trail' := CursorTrail(s.cur), CursorTrail(Apply(cfg, s, step).cur);
    assert trail' <= trail;
    AscendingPrefix(trail, trail', ResumePoint(cfg), s.prod.produced);
  }

  lemma CursorSends(cfg: Config, s: State, step: Step)
    requires CursorInv(cfg, s) && Enabled(cfg, s, step)
    requires step in {Checkpoint, SendFinal}
    requires ResumePoint(cfg) <= s.prod.produced
    ensures CursorInv(cfg, Apply(cfg, s, step))
  {
    hide MaskHas, Drop, Added, Ascending, ResumePoint;
    var trail, trail' := CursorTrail(s.cur), CursorTrail(Apply(cfg, s, step).cur);
    AscendingSnoc(trail, ResumePoint(cfg), s.prod.produced);
    assert trail' == trail || trail' == trail + [s.prod.produced];
  }

  lemma CursorStep(cfg: Config, s: State, step: Step)
    requires CursorInv(cfg, s) && StreamInv(cfg, s) && Enabled(cfg, s, step)
    ensures CursorInv(cfg, Apply(cfg, s, step))
  {
    hide Apply, Filtered, CursorTrail, MaskHas;
    if step in {Checkpoint, SendFinal} {
      assert cfg.recs[..|cfg.recs|] == cfg.recs;
      CursorSends(cfg, s, step);
    } else if step in {DrainCursor, CloseChannels, TakeCursor, WriteCursor} {
      CursorOwn(cfg, s, step);
    } else {
      CursorUntouched(cfg, s, step);
    }
  }

  // ----- every reachable state -----

  ghost predicate Inv(cfg: Config, s: State) {
    && StreamInv(cfg, s) && Conserved(s) && SizeInv(cfg, s) && OrderInv(cfg, s) && FifoInv(s) && CursorInv(cfg, s)
  }

  lemma {:induction false} ExecKeepsInv(cfg: Config, steps: seq<Step>)
    ensures Exec(cfg, steps).Some? ==> Inv(cfg, Exec(cfg, steps).value)
  {
    hide Enabled, Apply, StreamInv, Conserved, SizeInv, OrderInv, FifoInv, CursorInv;
    if steps == [] {
      StreamInit(cfg);
      ConservedInit(cfg);
      ShapeInit(cfg);
      CursorInit(cfg);
      assert FifoInv(Init(cfg)) by { FifoInit(cfg); }
    } else {
      var init, last := steps[..|steps| - 1], steps[|steps| - 1];
      ExecKeepsInv(cfg, init);
      if Exec(cfg, steps).Some? {
        var s := Exec(cfg, init).value;
        StreamStep(cfg, s, last);
        ConservedStep(cfg, s, last);
        SizeStep(cfg, s, last);
        OrderStep(cfg, s, last);
        FifoStep(cfg, s, last);
        CursorStep(cfg, s, last);
      }
    }
  }

  lemma FifoInit(cfg: Config)
    ensures FifoInv(Init(cfg))
  {
  }

  lemma ReachableInv(cfg: Config, s: State)
    requires Reachable(cfg, s)
    ensures Inv(cfg, s)
  {
    hide Exec, Inv;
    var steps :| Exec(cfg, steps) == Some(s);
    ExecKeepsInv(cfg, steps);
  }

  // ----- what that means -----

  lemma {:induction false} WorkerTasksSize(ws: seq<Worker>)
    ensures |WorkerTasks(ws)| <= |ws| - CountExited(ws)
  {
    if ws != [] {
      WorkerTasksSize(ws[..|ws| - 1]);
    }
  }

  /**
    Conservation in every reachable state: each target handed out is, as a
    multiset, in flight, flushed or dropped, and what is in flight is bounded by
    the channels, the pool and one block.
    */
  lemma PipelineConserves(cfg: Config, s: State)
    requires Reachable(cfg, s)
    ensures multiset(s.prod.sent) == InFlight(s) + multiset(s.sink.flushed) + multiset(s.pool.dropped)
    ensures |InFlight(s)| <= IP_CAP + cfg.PoolSize() + RESULT_CAP + Reader.BLOCK_RECS
  {
    hide StreamInv, CursorInv, FifoInv, WorkerTasks;
    ReachableInv(cfg, s);
    WorkerTasksSize(s.pool.workers);
    assert |HeldTask(s.sink.held)| <= 1;
  }

  lemma {:induction false} ExitedHoldNothing(ws: seq<Worker>)
    requires AllExited(ws)
    ensures WorkerTasks(ws) == multiset{}
  {
    if ws != [] {
      ExitedHoldNothing(ws[..|ws| - 1]);
    }
  }

  /** After a clean stop, cancelled or not, at most 1024 + pool size of the targets handed out are lost. */
  lemma CleanStopLosesLittle(cfg: Config, s: State)
    requires Reachable(cfg, s) && s.sink.finished
    ensures multiset(s.prod.sent) == multiset(s.sink.flushed) + multiset(s.pool.ch) + multiset(s.pool.dropped)
    ensures |s.pool.ch| + |s.pool.dropped| <= IP_CAP + cfg.PoolSize()
  {
    hide StreamInv, CursorInv, FifoInv, WorkerTasks;
    ReachableInv(cfg, s);
    ExitedHoldNothing(s.pool.workers);
  }

  /** The last target position a run with this configuration may reach. */
  function StreamEnd(cfg: Config): nat {
    var n := |Stream(cfg)|;
    if n <= cfg.skip then n
    else if cfg.limit != 0 && cfg.skip + cfg.limit < n then cfg.skip + cfg.limit
    else n
  }

  /** Target streaming is an exact slice of the filtered stream, cut only by the limit or by cancellation. */
  lemma StreamIsExactSlice(cfg: Config, s: State)
    requires Reachable(cfg, s)
    ensures s.prod.produced <= StreamEnd(cfg)
    ensures |s.prod.sent| == (if s.prod.produced <= cfg.skip then 0 else s.prod.produced - cfg.skip)
    ensures forall i | 0 <= i < |s.prod.sent| :: s.prod.sent[i] == Task(cfg.skip + i, Stream(cfg)[cfg.skip + i])
    ensures ScanOver(s.prod) && !s.cancelled ==> s.prod.produced == StreamEnd(cfg)
  {
    hide Conserved, SizeInv, OrderInv, CursorInv, FifoInv, Filtered;
    ReachableInv(cfg, s);
    assert cfg.recs[..|cfg.recs|] == cfg.recs;
  }

  /** An uncancelled run that finished has written every target of its slice exactly once. */
  lemma FinishedRunWroteAll(cfg: Config, s: State)
    requires Reachable(cfg, s) && s.sink.finished && !s.cancelled
    ensures s.prod.produced == StreamEnd(cfg)
    ensures multiset(s.sink.flushed) == multiset(s.prod.sent)
  {
    hide StreamInv, Conserved, CursorInv, FifoInv, WorkerTasks, StreamEnd;
    ReachableInv(cfg, s);
    CleanStopLosesLittle(cfg, s);
    assert s.pool.workers[0].Exited?;
    StreamIsExactSlice(cfg, s);
  }

  /**
    Every cursor value c means that targets [0, c) were skipped or handed out, and
    never falls below the resume point; values never decrease within a run; the final send finds the channel empty;
    and once the channel is drained the last value written is the final position.
    */
  lemma CursorIsTrustworthy(cfg: Config, s: State)
    requires Reachable(cfg, s)
    ensures forall i | 0 <= i < |s.cur.log| :: ResumePoint(cfg) <= s.cur.log[i] <= s.prod.produced
    ensures forall i, j | 0 <= i < j < |s.cur.log| :: s.cur.log[i] <= s.cur.log[j]
    ensures s.prod.phase == FinalSend ==> Enabled(cfg, s, SendFinal)
    ensures s.prod.phase == ChannelsClosed && s.cur.ch == [] && s.cur.held.None? ==>
              s.cur.log != [] && s.cur.log[|s.cur.log| - 1] == s.prod.produced
  {
    hide StreamInv, Conserved, SizeInv, OrderInv, FifoInv, ResumePoint;
    ReachableInv(cfg, s);
    var trail := CursorTrail(s.cur);
    assert forall i | 0 <= i < |s.cur.log| :: trail[i] == s.cur.log[i];
  }
}
