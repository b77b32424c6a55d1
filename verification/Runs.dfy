/**
  Runs of the pipeline, built step by step for an arbitrary configuration. They
  are the witnesses behind the exact conditions on resuming.
  */
module Runs {
  import opened Model
  import opened Pipeline
  import opened PipelineLaws

  /** One step of the run, with its result. */
  lemma Take(cfg: Config, s: State, step: Step) returns (s': State)
    requires Reachable(cfg, s) && Enabled(cfg, s, step)
    ensures Reachable(cfg, s') && s' == Apply(cfg, s, step)
  {
    ReachableStep(cfg, s, step);
    s' := Apply(cfg, s, step);
  }

  lemma AtStart(cfg: Config)
    ensures Reachable(cfg, Init(cfg))
  {
    assert Exec(cfg, []) == Some(Init(cfg));
  }

  // ----- the target goroutine -----

  /** Only the scan position moved. */
  predicate Passed(s: State, s': State) {
    s' == s.(prod := s.prod.(pos := s'.prod.pos))
  }

  /** Scanning, with `produced` agreeing with what the scan has passed. */
  lemma ScanFacts(cfg: Config, s: State)
    requires Reachable(cfg, s)
    ensures s.prod.pos <= |cfg.recs| && s.prod.produced <= |Stream(cfg)|
    ensures s.prod.pos == |cfg.recs| ==> s.prod.produced == |Stream(cfg)|
    ensures s.prod.pos < |cfg.recs| && s.prod.produced == |Stream(cfg)| ==>
              !MaskHas(cfg.mask, cfg.recs[s.prod.pos].status)
    ensures s.prod.emitted == (if s.prod.produced <= cfg.skip then 0 else s.prod.produced - cfg.skip)
  {
    hide MaskHas, Reachable, Filtered, Conserved, SizeInv, OrderInv, FifoInv, CursorInv;
    ReachableInv(cfg, s);
    assert cfg.recs[..|cfg.recs|] == cfg.recs;
    if s.prod.pos < |cfg.recs| {
      FilteredStep(cfg.mask, cfg.recs, s.prod.pos);
      FilteredPrefix(cfg.mask, cfg.recs, s.prod.pos + 1);
    }
  }

  /** The scan passes unmasked records up to the next target; there is one while `produced` is below the stream's length. */
  lemma {:induction false} NextTarget(cfg: Config, s: State) returns (s': State)
    requires Reachable(cfg, s) && s.prod.phase == Scanning && s.prod.produced < |Stream(cfg)|
    ensures Reachable(cfg, s') && Passed(s, s')
    ensures s'.prod.pos < |cfg.recs| && MaskHas(cfg.mask, cfg.recs[s'.prod.pos].status)
    decreases |cfg.recs| - s.prod.pos
  {
    hide MaskHas, Reachable, Stream;
    ScanFacts(cfg, s);
    s' := s;
    if !MaskHas(cfg.mask, cfg.recs[s.prod.pos].status) {
      s' := Take(cfg, s, PassRecord);
      s' := NextTarget(cfg, s');
    }
  }

  /** Past the last target the scan runs to the end of the file. */
  lemma {:induction false} ToEndOfFile(cfg: Config, s: State) returns (s': State)
    requires Reachable(cfg, s) && s.prod.phase == Scanning && s.prod.produced == |Stream(cfg)|
    ensures Reachable(cfg, s') && s' == s.(prod := s.prod.(pos := s'.prod.pos, phase := Drain))
    decreases |cfg.recs| - s.prod.pos
  {
    hide MaskHas, Reachable, Stream;
    ScanFacts(cfg, s);
    if s.prod.pos < |cfg.recs| {
      s' := Take(cfg, s, PassRecord);
      s' := ToEndOfFile(cfg, s');
    } else {
      s' := Take(cfg, s, EndOfFile);
    }
  }

  /** The scan skips targets up to position k, at most the resume point. */
  lemma {:induction false} SkipTo(cfg: Config, s: State, k: nat) returns (s': State)
    requires Reachable(cfg, s) && s.prod.phase == Scanning && s.prod.produced <= k <= ResumePoint(cfg)
    ensures Reachable(cfg, s') && s' == s.(prod := s.prod.(pos := s'.prod.pos, produced := k))
    decreases k - s.prod.produced
  {
    hide MaskHas, Reachable, Stream;
    s' := s;
    if s.prod.produced < k {
      s' := NextTarget(cfg, s);
      s' := Take(cfg, s', SkipTarget);
      s' := SkipTo(cfg, s', k);
    }
  }

  /** A run that has only skipped, up to the resume point. */
  lemma AtResumePoint(cfg: Config) returns (s: State)
    ensures Reachable(cfg, s) && s.prod.produced == ResumePoint(cfg)
    ensures s == Init(cfg).(prod := Producer(s.prod.pos, ResumePoint(cfg), 0, Scanning, []))
  {
    hide Reachable, Stream;
    AtStart(cfg);
    s := SkipTo(cfg, Init(cfg), ResumePoint(cfg));
  }

  /** Hand the next target of the slice to the pool. */
  lemma Hand(cfg: Config, s: State) returns (s': State, t: Task)
    requires Reachable(cfg, s) && s.prod.phase == Scanning && cfg.skip <= s.prod.produced < StreamEnd(cfg)
    requires s.pool.ch == []
    ensures Reachable(cfg, s') && s'.prod.phase == Scanning && s'.prod.produced == s.prod.produced + 1
    ensures t.idx == s.prod.produced && s'.prod.sent == s.prod.sent + [t]
    ensures s'.pool == s.pool.(ch := [t]) && s'.sink == s.sink && s'.cancelled == s.cancelled
    ensures s'.cur == s.cur.(ch := s'.cur.ch)
  {
    hide MaskHas, Reachable, Stream;
    s' := NextTarget(cfg, s);
    ScanFacts(cfg, s');
    t := Task(s'.prod.produced, cfg.recs[s'.prod.pos].ip);
    s' := Take(cfg, s', SendTarget);
    s' := Take(cfg, s', Checkpoint);
  }

  /** At the end of the slice the scan stops, at the limit or at the end of the file. */
  lemma EndScan(cfg: Config, s: State) returns (s': State)
    requires Reachable(cfg, s) && s.prod.phase == Scanning && s.prod.produced == StreamEnd(cfg)
    ensures Reachable(cfg, s') && s' == s.(prod := s.prod.(pos := s'.prod.pos, phase := Drain))
  {
    hide MaskHas, Reachable, Stream;
    if s.prod.produced == |Stream(cfg)| {
      s' := ToEndOfFile(cfg, s);
    } else {
      s' := NextTarget(cfg, s);
      ScanFacts(cfg, s');
      s' := Take(cfg, s', LimitStop);
    }
  }

  /** The final position goes through the cursor channel to the file, and the task channel is closed. */
  lemma Report(cfg: Config, s: State) returns (s': State)
    requires Reachable(cfg, s) && s.prod.phase == Drain && s.cur.held.None? && s.cur.log == []
    ensures Reachable(cfg, s') && s'.prod == s.prod.(phase := ChannelsClosed)
    ensures s'.cur == Cursor([], None, [s.prod.produced])
    ensures s'.pool == s.pool.(closed := true) && s'.sink == s.sink && s'.cancelled == s.cancelled
  {
    hide MaskHas, Reachable;
    s' := Take(cfg, s, DrainCursor);
    s' := Take(cfg, s', SendFinal);
    s' := Take(cfg, s', CloseChannels);
    s' := Take(cfg, s', TakeCursor);
    s' := Take(cfg, s', WriteCursor);
  }

  // ----- shutting down -----

  predicate AtRest(ws: seq<Worker>) {
    forall w | 0 <= w < |ws| :: ws[w].Idle? || ws[w].Exited?
  }

  /** Idle workers leave a closed, empty channel, from the first on. */
  lemma {:induction false} AllLeave(cfg: Config, s: State, n: nat) returns (s': State)
    requires Reachable(cfg, s) && s.pool.closed && s.pool.ch == [] && AtRest(s.pool.workers)
    requires n <= |s.pool.workers| && forall w | n <= w < |s.pool.workers| :: s.pool.workers[w].Exited?
    ensures Reachable(cfg, s') && AllExited(s'.pool.workers)
    ensures s' == s.(pool := s.pool.(workers := s'.pool.workers))
    decreases n
  {
    hide MaskHas, Reachable;
    s' := s;
    if n > 0 {
      if s.pool.workers[n - 1].Idle? {
        s' := Take(cfg, s, LeaveClosed(n - 1));
      }
      s' := AllLeave(cfg, s', n - 1);
    }
  }

  /** With all work delivered the results are closed, the sink drains and closes. */
  lemma ShutDown(cfg: Config, s: State) returns (s': State)
    requires Reachable(cfg, s) && s.pool.closed && s.pool.ch == [] && AtRest(s.pool.workers)
    requires s.sink.ch == [] && s.sink.held.None? && !s.sink.closed && !s.sink.drained && !s.sink.finished
    ensures Reachable(cfg, s') && s'.sink.finished
    ensures s'.cur == s.cur && s'.prod == s.prod && s'.pool.dropped == s.pool.dropped
  {
    hide MaskHas, Reachable;
    s' := AllLeave(cfg, s, |s.pool.workers|);
    s' := Take(cfg, s', CloseResults);
    s' := Take(cfg, s', SinkDrained);
    s' := Take(cfg, s', CloseSink);
  }
}
