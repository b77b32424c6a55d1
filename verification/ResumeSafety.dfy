/** Which configurations may be stopped at any moment and resumed one checkpoint back without leaving a hole. */
module ResumeSafety {
  import opened Model
  import opened Pipeline
  import opened PipelineLaws
  import opened Resume
  import Reader
  import ResumeHole

  // ----- one worker keeps the order -----

  function WorkerLine(w: Worker): seq<Task> {
    match w
    case Holding(t) => [t]
    case Ready(t) => [t]
    case _ => []
  }

  function HeldLine(h: Option<Task>): seq<Task> {
    if h.Some? then [h.value] else []
  }

  /** The sink's tasks, oldest first. */
  function SinkLine(k: Sink): seq<Task> {
    k.flushed + k.buf + HeldLine(k.held) + k.ch
  }

  /** The tasks of a pool of one worker, oldest first. */
  function PoolLine(p: Pool): seq<Task>
    requires |p.workers| == 1
  {
    WorkerLine(p.workers[0]) + p.dropped + p.ch
  }

  /** With one worker all targets handed out stand in one line; a task is dropped only by the worker that left. */
  ghost predicate LineInv(s: State) {
    && |s.pool.workers| == 1
    && s.prod.sent == SinkLine(s.sink) + PoolLine(s.pool)
    && |s.pool.dropped| <= (if s.pool.workers[0].Exited? then 1 else 0)
  }

  lemma LinePool(cfg: Config, s: State, step: Step)
    requires LineInv(s) && Enabled(cfg, s, step)
    requires step.Receive? || step.LeaveClosed? || step.Process? || step.CancelToken? || step.CancelSend?
    ensures LineInv(Apply(cfg, s, step))
  {
    hide MaskHas, SinkLine;
    var p, p' := s.pool, Apply(cfg, s, step).pool;
    assert step.w == 0;
    assert PoolLine(p') == PoolLine(p);
  }

  /** Taking, adding and closing move tasks along the sink's line. */
  lemma SinkLineKept(k: Sink)
    ensures k.held.None? && k.ch != [] ==> SinkLine(k.(ch := k.ch[1..], held := Some(k.ch[0]))) == SinkLine(k)
    ensures k.held.Some? ==> SinkLine(Added(k)) == SinkLine(k)
    ensures SinkLine(k.(buf := [], flushed := k.flushed + k.buf, finished := true)) == SinkLine(k)
  {
  }

  lemma LineSink(cfg: Config, s: State, step: Step)
    requires LineInv(s) && Enabled(cfg, s, step)
    requires step.TakeResult? || step.AddResult? || step.CloseSink?
    ensures LineInv(Apply(cfg, s, step))
  {
    hide MaskHas, PoolLine, SinkLine, Added;
    SinkLineKept(s.sink);
  }

  lemma LineDeliver(cfg: Config, s: State, w: nat)
    requires LineInv(s) && Enabled(cfg, s, Deliver(w))
    ensures LineInv(Apply(cfg, s, Deliver(w)))
  {
    var s' := Apply(cfg, s, Deliver(w));
    var t := s.pool.workers[0].task;
    assert SinkLine(s'.sink) == SinkLine(s.sink) + [t];
    assert PoolLine(s.pool) == [t] + PoolLine(s'.pool);
  }

  lemma LineSend(cfg: Config, s: State)
    requires LineInv(s) && Enabled(cfg, s, SendTarget)
    ensures LineInv(Apply(cfg, s, SendTarget))
  {
    hide MaskHas, SinkLine;
    var s' := Apply(cfg, s, SendTarget);
    assert PoolLine(s'.pool) == PoolLine(s.pool) + [s'.pool.ch[|s.pool.ch|]];
  }

  lemma LineStep(cfg: Config, s: State, step: Step)
    requires LineInv(s) && Enabled(cfg, s, step)
    ensures LineInv(Apply(cfg, s, step))
  {
    hide Enabled, Apply;
    if Quiet(step) {
      PlacesQuiet(cfg, s, step);
    } else if step.SendTarget? {
      LineSend(cfg, s);
    } else if step.Deliver? {
      LineDeliver(cfg, s, step.w);
    } else if step.TakeResult? || step.AddResult? || step.CloseSink? {
      LineSink(cfg, s, step);
    } else {
      LinePool(cfg, s, step);
    }
  }

  lemma {:induction false} ExecKeepsLine(cfg: Config, steps: seq<Step>)
    requires cfg.PoolSize() == 1
    ensures Exec(cfg, steps).Some? ==> LineInv(Exec(cfg, steps).value)
  {
    hide Enabled, Apply;
    if steps != [] {
      ExecKeepsLine(cfg, steps[..|steps| - 1]);
      if Exec(cfg, steps).Some? {
        LineStep(cfg, Exec(cfg, steps[..|steps| - 1]).value, steps[|steps| - 1]);
      }
    }
  }

  /** A single worker flushes in order, all but the latest 70657 of the targets handed out. */
  lemma OneWorkerFlushesInOrder(cfg: Config, s: State)
    requires Reachable(cfg, s) && cfg.PoolSize() == 1
    ensures s.sink.flushed <= s.prod.sent
    ensures |s.prod.sent| <= |s.sink.flushed| + Reader.BLOCK_RECS + RESULT_CAP + IP_CAP + 1
  {
    hide Exec, StreamInv, Conserved, OrderInv, FifoInv, CursorInv;
    var steps :| Exec(cfg, steps) == Some(s);
    ExecKeepsLine(cfg, steps);
    ReachableInv(cfg, s);
  }

  // ----- the exact condition -----

  /** Seen before the run: one worker, or a slice no longer than one checkpoint. */
  predicate Rewindable(cfg: Config) {
    cfg.PoolSize() == 1 || StreamEnd(cfg) <= cfg.skip + DEFAULT_CHECKPOINT
  }

  /** A run of the configuration from this cursor that kept what it had flushed, stopped anywhere. */
  ghost predicate StopOf(cfg: Config, stop: Stop, before: Option<nat>) {
    && RunOf(Plan(cfg.recs, cfg.mask), stop, before) && stop.cfg == cfg
    && stop.kept == Indices(stop.state.sink.flushed)
  }

  /** The cursor a stop leaves is within the targets handed out, or leaves every one of them within the rewind. */
  lemma CursorWithinReach(stop: Stop, cfg: Config, before: Option<nat>, t: Task)
    requires StopOf(cfg, stop, before) && t in stop.state.prod.sent
    requires var c := CursorAfter(before, stop.state); c.Some? && t.idx + DEFAULT_CHECKPOINT < c.value
    ensures t.idx + DEFAULT_CHECKPOINT < stop.state.prod.produced <= StreamEnd(cfg) && cfg.skip <= t.idx
  {
    hide Reachable, Filtered, StreamEnd;
    CursorIsTrustworthy(cfg, stop.state);
    StreamIsExactSlice(cfg, stop.state);
  }

  lemma RewindableIsSafe(cfg: Config, stop: Stop, before: Option<nat>)
    requires StopOf(cfg, stop, before) && Rewindable(cfg)
    ensures SafeStop(stop, CursorAfter(before, stop.state))
  {
    hide Reachable, Filtered, StreamEnd, CursorAfter;
    var s, c := stop.state, CursorAfter(before, stop.state);
    if c.Some? {
      forall t | t in s.prod.sent && t.idx + DEFAULT_CHECKPOINT < c.value ensures t.idx in stop.kept {
        CursorWithinReach(stop, cfg, before, t);
        StreamIsExactSlice(cfg, s);
        OneWorkerFlushesInOrder(cfg, s);
        assert s.sink.flushed[t.idx - cfg.skip] == t;
      }
    }
  }

  /**
    The rewind promise and its exact condition. For a configuration that resumes
    from a given cursor, every clean stop is safe if and only if it is
    `Rewindable`; and then every stop is, also one in the middle of the run.
    */
  lemma EveryCleanStopSafeIff(cfg: Config, before: Option<nat>)
    requires cfg.skip == ResumeSkip(before) && cfg.checkpointEvery == 0
    ensures (forall stop | StopOf(cfg, stop, before) && stop.state.sink.finished ::
               SafeStop(stop, CursorAfter(before, stop.state)))
            <==> cfg.PoolSize() == 1 || StreamEnd(cfg) <= cfg.skip + DEFAULT_CHECKPOINT
    ensures (forall stop | StopOf(cfg, stop, before) :: SafeStop(stop, CursorAfter(before, stop.state)))
            <==> cfg.PoolSize() == 1 || StreamEnd(cfg) <= cfg.skip + DEFAULT_CHECKPOINT
  {
    hide RunOf, SafeStop, StreamEnd, Indices, CursorAfter;
    if Rewindable(cfg) {
      forall stop | StopOf(cfg, stop, before) ensures SafeStop(stop, CursorAfter(before, stop.state)) {
        RewindableIsSafe(cfg, stop, before);
      }
    } else {
      var stop := ResumeHole.HoleStop(cfg, before);
      assert StopOf(cfg, stop, before);
    }
  }

  // ----- over any number of runs -----

  /** Runs of the plan, each rewindable and resuming from the cursor the previous ones left, stopped anywhere. */
  ghost predicate Stopped(plan: Plan, stops: seq<Stop>) {
    stops == [] || (
      var init, last := stops[..|stops| - 1], stops[|stops| - 1];
      && Stopped(plan, init) && Rewindable(last.cfg)
      && RunOf(plan, last, CursorAt(init)) && last.kept == Indices(last.state.sink.flushed))
  }

  lemma {:induction false} StoppedIsInterrupted(plan: Plan, stops: seq<Stop>)
    requires Stopped(plan, stops)
    ensures Interrupted(plan, stops)
  {
    hide RunOf, Rewindable, SafeStop, CursorAfter, Indices;
    if stops != [] {
      var init, last := stops[..|stops| - 1], stops[|stops| - 1];
      StoppedIsInterrupted(plan, init);
      assert Plan(last.cfg.recs, last.cfg.mask) == plan by { RunIsOfPlan(plan, last, CursorAt(init)); }
      assert StopOf(last.cfg, last, CursorAt(init));
      RewindableIsSafe(last.cfg, last, CursorAt(init));
    }
  }

  lemma RunIsOfPlan(plan: Plan, stop: Stop, cursor: Option<nat>)
    requires RunOf(plan, stop, cursor)
    ensures Plan(stop.cfg.recs, stop.cfg.mask) == plan
  {
  }

  /**
    No hole, by configuration alone: however often a rewindable crawl is killed or
    cancelled, once one run finishes uncancelled and unlimited every target is
    recorded.
    */
  lemma NoHoleByConfiguration(plan: Plan, stops: seq<Stop>, final: Stop, idx: nat)
    requires Stopped(plan, stops)
    requires RunOf(plan, final, CursorAt(stops)) && final.cfg.limit == 0
    requires final.state.sink.finished && !final.state.cancelled
    requires final.kept == Indices(final.state.sink.flushed)
    requires idx < |Targets(plan)|
    ensures idx in Recorded(stops) + final.kept
  {
    hide RunOf, Stopped, Interrupted, Recorded, Indices, Targets;
    StoppedIsInterrupted(plan, stops);
    NoHoleAfterFinish(plan, stops, final, idx);
  }
}
