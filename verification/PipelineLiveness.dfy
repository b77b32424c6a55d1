/** The pipeline never deadlocks and every run of it ends. */
module PipelineLiveness {
  import opened Model
  import opened Pipeline
  import opened PipelineLaws

  /** The sink is closed and the last cursor value has been written. */
  predicate Done(s: State) {
    s.sink.finished && s.prod.phase == ChannelsClosed && s.cur.ch == [] && s.cur.held.None?
  }

  // ----- no deadlock -----

  /** If the result channel is full, the sink can take from it. */
  lemma SinkMoves(cfg: Config, s: State) returns (step: Step)
    requires OrderInv(cfg, s) && s.sink.ch != []
    ensures step != Cancel && Enabled(cfg, s, step)
  {
    step := if s.sink.held.Some? then AddResult else TakeResult;
  }

  /** A worker that has not left can move, or the sink can make room for it. */
  lemma WorkerMoves(cfg: Config, s: State, w: nat) returns (step: Step)
    requires OrderInv(cfg, s) && w < |s.pool.workers| && !s.pool.workers[w].Exited?
    requires s.pool.workers[w].Idle? ==> s.pool.ch != [] || s.pool.closed
    ensures step != Cancel && Enabled(cfg, s, step)
  {
    match s.pool.workers[w]
    case Idle => step := if s.pool.ch != [] then Receive(w) else LeaveClosed(w);
    case Holding(_) => step := Process(w);
    case Ready(_) =>
      if |s.sink.ch| < RESULT_CAP {
        step := Deliver(w);
      } else {
        step := SinkMoves(cfg, s);
      }
  }

  /** The target goroutine can move, or its channel is full and some worker can. */
  lemma ProducerMoves(cfg: Config, s: State) returns (step: Step)
    requires StreamInv(cfg, s) && OrderInv(cfg, s) && CursorInv(cfg, s) && s.prod.phase != ChannelsClosed
    ensures step != Cancel && Enabled(cfg, s, step)
  {
    hide MaskHas, Filtered, CursorTrail, Ascending;
    match s.prod.phase
    case Checking => step := Checkpoint;
    case Drain => step := DrainCursor;
    case FinalSend => step := SendFinal;
    case Returned => step := CloseChannels;
    case Scanning =>
      if s.prod.pos == |cfg.recs| {
        step := EndOfFile;
      } else if !MaskHas(cfg.mask, cfg.recs[s.prod.pos].status) {
        step := PassRecord;
      } else if s.prod.produced < cfg.skip {
        step := SkipTarget;
      } else if LimitReached(cfg, s.prod) {
        step := LimitStop;
      } else if |s.pool.ch| < IP_CAP {
        step := SendTarget;
      } else if s.cancelled {
        step := CancelStop;
      } else {
        assert !s.pool.workers[0].Exited?;
        step := WorkerMoves(cfg, s, 0);
      }
  }

  /** In every reachable state that is not done, some step other than a cancellation is possible. */
  lemma NoDeadlock(cfg: Config, s: State)
    requires Reachable(cfg, s) && !Done(s)
    ensures exists step :: step != Cancel && Enabled(cfg, s, step)
  {
    hide StreamInv, Conserved, SizeInv, FifoInv, Reachable;
    ReachableInv(cfg, s);
    var step: Step;
    if s.prod.phase != ChannelsClosed {
      step := ProducerMoves(cfg, s);
    } else if s.cur.held.Some? {
      step := WriteCursor;
    } else if s.cur.ch != [] {
      step := TakeCursor;
    } else if w :| 0 <= w < |s.pool.workers| && !s.pool.workers[w].Exited? {
      step := WorkerMoves(cfg, s, w);
    } else if !s.sink.closed {
      step := CloseResults;
    } else if s.sink.held.Some? {
      step := AddResult;
    } else if s.sink.ch != [] {
      step := TakeResult;
    } else if !s.sink.drained {
      step := SinkDrained;
    } else {
      step := CloseSink;
    }
    assert step != Cancel && Enabled(cfg, s, step);
  }

  // ----- termination -----

  function PhaseWeight(p: Phase): nat {
    match p
    case Scanning => 10
    case Checking => 14
    case Drain => 8
    case FinalSend => 6
    case Returned => 3
    case ChannelsClosed => 0
  }

  function WorkerWeight(w: Worker): nat {
    match w
    case Idle => 1
    case Holding(_) => 8
    case Ready(_) => 7
    case Exited => 0
  }

  function PoolWeight(ws: seq<Worker>): nat {
    if ws == [] then 0 else PoolWeight(ws[..|ws| - 1]) + WorkerWeight(ws[|ws| - 1])
  }

  function Flag(b: bool): nat {
    if b then 0 else 1
  }

  function SinkWeight(k: Sink): nat {
    5 * |k.ch| + (if k.held.Some? then 4 else 0) + Flag(k.closed) + Flag(k.drained) + Flag(k.finished)
  }

  function CursorWeight(c: Cursor): nat {
    2 * |c.ch| + (if c.held.Some? then 1 else 0)
  }

  /** A bound on how many steps are left. */
  function Measure(cfg: Config, s: State): int {
    30 * (|cfg.recs| - s.prod.pos) + PhaseWeight(s.prod.phase) + CursorWeight(s.cur)
    + 8 * |s.pool.ch| + PoolWeight(s.pool.workers) + SinkWeight(s.sink) + Flag(s.cancelled)
  }

  lemma {:induction false} PoolWeightUpdate(ws: seq<Worker>, i: nat, w: Worker)
    requires i < |ws|
    ensures PoolWeight(ws[i := w]) + WorkerWeight(ws[i]) == PoolWeight(ws) + WorkerWeight(w)
  {
    hide WorkerWeight;
    var n := |ws| - 1;
    if i < n {
      PoolWeightUpdate(ws[..n], i, w);
      assert ws[i := w][..n] == ws[..n][i := w];
    } else {
      assert ws[i := w][..n] == ws[..n];
    }
  }

  predicate WorkerStep(step: Step) {
    step.Receive? || step.LeaveClosed? || step.Process? || step.CancelToken? || step.Deliver? || step.CancelSend?
  }

  predicate ProducerStep(step: Step) {
    step in {PassRecord, SkipTarget, LimitStop, SendTarget, CancelStop, EndOfFile,
             Checkpoint, DrainCursor, SendFinal, CloseChannels}
  }

  lemma WorkerStepCounts(cfg: Config, s: State, step: Step)
    requires Enabled(cfg, s, step) && WorkerStep(step)
    ensures Measure(cfg, Apply(cfg, s, step)) < Measure(cfg, s)
    ensures Apply(cfg, s, step).prod == s.prod
  {
    hide MaskHas, PoolWeight;
    var ws := s.pool.workers;
    match step
    case Receive(w) => PoolWeightUpdate(ws, w, Holding(s.pool.ch[0]));
    case LeaveClosed(w) => PoolWeightUpdate(ws, w, Exited);
    case Process(w) => PoolWeightUpdate(ws, w, Ready(ws[w].task));
    case CancelToken(w) => PoolWeightUpdate(ws, w, Exited);
    case Deliver(w) => PoolWeightUpdate(ws, w, Idle);
    case CancelSend(w) => PoolWeightUpdate(ws, w, Exited);
  }

  lemma ProducerStepCounts(cfg: Config, s: State, step: Step)
    requires Enabled(cfg, s, step) && ProducerStep(step) && s.prod.pos <= |cfg.recs| && |s.cur.ch| <= 1
    ensures Measure(cfg, Apply(cfg, s, step)) < Measure(cfg, s)
    ensures Apply(cfg, s, step).prod.pos <= |cfg.recs|
  {
    hide MaskHas, PoolWeight, SinkWeight;
  }

  lemma OtherStepCounts(cfg: Config, s: State, step: Step)
    requires Enabled(cfg, s, step) && !ProducerStep(step) && !WorkerStep(step)
    ensures Measure(cfg, Apply(cfg, s, step)) < Measure(cfg, s)
    ensures Apply(cfg, s, step).prod == s.prod
  {
    hide MaskHas, PoolWeight;
  }

  lemma MeasureNonNegative(cfg: Config, s: State)
    requires s.prod.pos <= |cfg.recs|
    ensures 0 <= Measure(cfg, s)
  {
    hide PoolWeight;
  }

  /** Every step, including a cancellation, brings the end closer. */
  lemma EveryStepCounts(cfg: Config, s: State, step: Step)
    requires StreamInv(cfg, s) && CursorInv(cfg, s) && Enabled(cfg, s, step)
    ensures 0 <= Measure(cfg, Apply(cfg, s, step)) < Measure(cfg, s)
  {
    hide Enabled, Apply, Measure, Filtered, CursorTrail, Ascending;
    if WorkerStep(step) {
      WorkerStepCounts(cfg, s, step);
    } else if ProducerStep(step) {
      ProducerStepCounts(cfg, s, step);
    } else {
      OtherStepCounts(cfg, s, step);
    }
    MeasureNonNegative(cfg, Apply(cfg, s, step));
  }

  /** So no run is longer than the measure of the start. */
  lemma {:induction false} RunsEnd(cfg: Config, steps: seq<Step>)
    requires Exec(cfg, steps).Some?
    ensures |steps| + Measure(cfg, Exec(cfg, steps).value) <= Measure(cfg, Init(cfg))
    ensures 0 <= Measure(cfg, Exec(cfg, steps).value)
  {
    hide Enabled, Apply, StreamInv, Conserved, SizeInv, OrderInv, FifoInv, CursorInv, Measure, Init;
    if steps == [] {
      MeasureAtStart(cfg);
    } else {
      var init, last := steps[..|steps| - 1], steps[|steps| - 1];
      RunsEnd(cfg, init);
      ExecKeepsInv(cfg, init);
      EveryStepCounts(cfg, Exec(cfg, init).value, last);
    }
  }

  lemma MeasureAtStart(cfg: Config)
    ensures Measure(cfg, Init(cfg)) >= 0
  {
    hide Measure;
    MeasureNonNegative(cfg, Init(cfg));
  }
}
