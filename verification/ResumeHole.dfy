/**
  Why the resume argument needs its condition. With two workers or more and a
  slice longer than one checkpoint, one lookup can stall while the rest of the
  slice goes through; if the run is then cancelled it leaves a target that is not
  recorded and lies below where the next run starts.
  */
module ResumeHole {
  import opened Model
  import opened Pipeline
  import opened PipelineLaws
  import opened Resume
  import opened Runs

  /** The configurations with such a run: seen before the run from the pool size, the limit and the file. */
  predicate Exposed(cfg: Config) {
    cfg.PoolSize() > 1 && StreamEnd(cfg) > cfg.skip + DEFAULT_CHECKPOINT
  }

  /** Worker 0 holds task t, worker 1 is in the given state, the others are idle. */
  function StalledPool(n: nat, t: Task, second: Worker): (ws: seq<Worker>)
    requires n > 1
    ensures |ws| == n && ws[0] == Holding(t) && ws[1] == second
  {
    [Holding(t), second] + seq(n - 2, _ => Idle)
  }

  /** Worker 0 holds the first target of the slice; worker 1 has carried the others below k to the sink. */
  ghost predicate Stalled(cfg: Config, s: State, t: Task, k: nat) {
    && Reachable(cfg, s) && cfg.PoolSize() > 1 && t.idx == cfg.skip < k <= StreamEnd(cfg)
    && s.prod.produced == k && s.prod.phase == Scanning
    && s.cur.held.None? && s.cur.log == []
    && s.pool == Pool([], false, StalledPool(cfg.PoolSize(), t, Idle), [])
    && s.sink.ch == [] && s.sink.held.None? && !s.sink.closed && !s.sink.drained && !s.sink.finished
    && !s.cancelled
  }

  lemma Start(cfg: Config) returns (s: State, t: Task)
    requires Exposed(cfg)
    ensures Stalled(cfg, s, t, cfg.skip + 1)
  {
    hide MaskHas, Reachable, Stream;
    s := AtResumePoint(cfg);
    s, t := Hand(cfg, s);
    s := Take(cfg, s, Receive(0));
    assert s.pool.workers == StalledPool(cfg.PoolSize(), t, Idle);
  }

  /** Worker 1 carries what is in the channel to the sink's hand. */
  lemma Carry(cfg: Config, s: State, t: Task, u: Task) returns (s': State)
    requires Reachable(cfg, s) && cfg.PoolSize() > 1
    requires s.pool == Pool([u], false, StalledPool(cfg.PoolSize(), t, Idle), [])
    requires s.sink.ch == [] && s.sink.held.None?
    ensures Reachable(cfg, s') && s' == s.(pool := s.pool.(ch := []), sink := s.sink.(held := Some(u)))
  {
    hide MaskHas, Reachable;
    var n := cfg.PoolSize();
    s' := Take(cfg, s, Receive(1));
    assert s'.pool.workers == StalledPool(n, t, Holding(u));
    s' := Take(cfg, s', Process(1));
    assert s'.pool.workers == StalledPool(n, t, Ready(u));
    s' := Take(cfg, s', Deliver(1));
    assert s'.pool.workers == StalledPool(n, t, Idle);
    s' := Take(cfg, s', TakeResult);
  }

  lemma Round(cfg: Config, s: State, t: Task, k: nat) returns (s': State)
    requires Stalled(cfg, s, t, k) && k < StreamEnd(cfg)
    ensures Stalled(cfg, s', t, k + 1)
  {
    hide MaskHas, Reachable, StreamEnd, StalledPool;
    var u;
    s', u := Hand(cfg, s);
    s' := Carry(cfg, s', t, u);
    s' := Take(cfg, s', AddResult);
  }

  lemma {:induction false} Rounds(cfg: Config, k: nat) returns (s: State, t: Task)
    requires Exposed(cfg) && cfg.skip < k <= StreamEnd(cfg)
    ensures Stalled(cfg, s, t, k)
    decreases k
  {
    hide Stalled;
    if k == cfg.skip + 1 {
      s, t := Start(cfg);
    } else {
      s, t := Rounds(cfg, k - 1);
      s := Round(cfg, s, t, k - 1);
    }
  }

  /** Cancelled: worker 0 gives its target up. */
  lemma GiveUp(cfg: Config, s: State, t: Task) returns (s': State)
    requires Reachable(cfg, s) && cfg.PoolSize() > 1 && !s.cancelled
    requires s.pool == Pool([], false, StalledPool(cfg.PoolSize(), t, Idle), [])
    ensures Reachable(cfg, s') && s' == s.(cancelled := true, pool := s'.pool)
    ensures s'.pool == s.pool.(workers := s'.pool.workers, dropped := [t]) && AtRest(s'.pool.workers)
  {
    hide MaskHas, Reachable;
    s' := Take(cfg, s, Cancel);
    s' := Take(cfg, s', Process(0));
    s' := Take(cfg, s', CancelSend(0));
  }

  /** The stalled run, stopped cleanly. */
  lemma StalledRun(cfg: Config) returns (s: State, t: Task)
    requires Exposed(cfg)
    ensures Reachable(cfg, s) && s.sink.finished && s.cur.log == [StreamEnd(cfg)]
    ensures t.idx == cfg.skip && t in s.pool.dropped
  {
    hide MaskHas, Reachable, StreamEnd, StalledPool;
    s, t := Rounds(cfg, StreamEnd(cfg));
    s := EndScan(cfg, s);
    s := GiveUp(cfg, s, t);
    s := Report(cfg, s);
    s := ShutDown(cfg, s);
  }

  /** The run as a stop that keeps all it flushed. */
  lemma HoleStop(cfg: Config, before: Option<nat>) returns (stop: Stop)
    requires Exposed(cfg) && cfg.skip == ResumeSkip(before) && cfg.checkpointEvery == 0
    ensures RunOf(Plan(cfg.recs, cfg.mask), stop, before) && stop.cfg == cfg && stop.state.sink.finished
    ensures stop.kept == Indices(stop.state.sink.flushed) && cfg.skip !in stop.kept
    ensures CursorAfter(before, stop.state) == Some(StreamEnd(cfg))
    ensures !SafeStop(stop, Some(StreamEnd(cfg)))
  {
    hide Reachable, StreamEnd, Indices;
    var s, t := StalledRun(cfg);
    stop := Stop(cfg, s, Indices(s.sink.flushed));
    DroppedNotFlushed(cfg, s, t);
  }

  /** A run records nothing below where it starts. */
  lemma NothingBelowStart(plan: Plan, next: Stop, cursor: Option<nat>, idx: nat)
    requires RunOf(plan, next, cursor) && idx < ResumeSkip(cursor)
    ensures idx !in next.kept
  {
    hide Reachable, Filtered;
    PipelineConserves(next.cfg, next.state);
    StreamIsExactSlice(next.cfg, next.state);
    forall t | t in next.state.sink.flushed ensures t.idx != idx {
      assert t in multiset(next.state.sink.flushed) && t in multiset(next.state.prod.sent);
    }
  }

  /**
    The hole, for every exposed configuration: some clean stop of it leaves the
    first target of its slice unrecorded, and no run that resumes from the cursor
    it leaves records that target.
    */
  lemma HoleWhenExposed(cfg: Config, before: Option<nat>)
    requires Exposed(cfg) && cfg.skip == ResumeSkip(before) && cfg.checkpointEvery == 0
    ensures cfg.skip < |Stream(cfg)|
    ensures exists stop: Stop ::
              && RunOf(Plan(cfg.recs, cfg.mask), stop, before) && stop.cfg == cfg && stop.state.sink.finished
              && stop.kept == Indices(stop.state.sink.flushed) && cfg.skip !in stop.kept
              && forall next: Stop | RunOf(Plan(cfg.recs, cfg.mask), next, CursorAfter(before, stop.state)) ::
                   cfg.skip !in next.kept
  {
    hide Stream, RunOf, Indices, SafeStop;
    var plan := Plan(cfg.recs, cfg.mask);
    var stop := HoleStop(cfg, before);
    forall next: Stop | RunOf(plan, next, CursorAfter(before, stop.state)) ensures cfg.skip !in next.kept {
      NothingBelowStart(plan, next, CursorAfter(before, stop.state), cfg.skip);
    }
  }
}
