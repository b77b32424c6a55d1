/** The pipeline uses its buffers to the full: every bound on a channel is reached by some run. */
module PipelineReach {
  import opened Model
  import opened Pipeline
  import opened PipelineLaws
  import opened Runs

  /** Hand out one more target while the workers wait. */
  lemma HandMore(cfg: Config, s: State) returns (s': State)
    requires Reachable(cfg, s) && s.prod.phase == Scanning && cfg.skip <= s.prod.produced < StreamEnd(cfg)
    requires |s.pool.ch| < IP_CAP
    ensures Reachable(cfg, s') && s'.prod.phase == Scanning && s'.prod.produced == s.prod.produced + 1
    ensures |s'.pool.ch| == |s.pool.ch| + 1 && s'.pool == s.pool.(ch := s'.pool.ch) && s'.sink == s.sink
  {
    hide MaskHas, Reachable, Stream;
    s' := NextTarget(cfg, s);
    ScanFacts(cfg, s');
    s' := Take(cfg, s', SendTarget);
    s' := Take(cfg, s', Checkpoint);
  }

  lemma {:induction false} FillTasks(cfg: Config, k: nat) returns (s: State)
    requires k <= 1024 && cfg.skip + k <= StreamEnd(cfg)
    ensures Reachable(cfg, s) && s.prod.phase == Scanning && s.prod.produced == cfg.skip + k && |s.pool.ch| == k
    decreases k
  {
    hide Reachable, Stream;
    if k == 0 {
      s := AtResumePoint(cfg);
    } else {
      s := FillTasks(cfg, k - 1);
      s := HandMore(cfg, s);
    }
  }

  /** Worker 0 takes one target through to the result channel, which nobody empties. */
  lemma DeliverOne(cfg: Config, s: State) returns (s': State)
    requires Reachable(cfg, s) && s.prod.phase == Scanning && cfg.skip <= s.prod.produced < StreamEnd(cfg)
    requires s.pool.ch == [] && s.pool.workers != [] && s.pool.workers[0].Idle? && |s.sink.ch| < RESULT_CAP
    ensures Reachable(cfg, s') && s'.prod.phase == Scanning && s'.prod.produced == s.prod.produced + 1
    ensures s'.pool.ch == [] && s'.pool.workers != [] && s'.pool.workers[0].Idle? && |s'.sink.ch| == |s.sink.ch| + 1
  {
    hide MaskHas, Reachable, StreamEnd;
    s' := HandMore(cfg, s);
    s' := Take(cfg, s', Receive(0));
    s' := Take(cfg, s', Process(0));
    s' := Take(cfg, s', Deliver(0));
  }

  lemma {:induction false} FillResults(cfg: Config, k: nat) returns (s: State)
    requires k <= 4096 && cfg.skip + k <= StreamEnd(cfg)
    ensures Reachable(cfg, s) && s.prod.phase == Scanning && s.prod.produced == cfg.skip + k && |s.sink.ch| == k
    ensures s.pool.ch == [] && s.pool.workers != [] && s.pool.workers[0].Idle?
    decreases k
  {
    hide Reachable, Stream;
    if k == 0 {
      s := AtResumePoint(cfg);
    } else {
      s := FillResults(cfg, k - 1);
      s := DeliverOne(cfg, s);
    }
  }

  /** With enough targets in its slice, a run can fill the task channel (1024) and the result channel (4096). */
  lemma ChannelsFill(cfg: Config)
    ensures cfg.skip + 1024 <= StreamEnd(cfg) ==> exists s :: Reachable(cfg, s) && |s.pool.ch| == 1024
    ensures cfg.skip + 4096 <= StreamEnd(cfg) ==> exists s :: Reachable(cfg, s) && |s.sink.ch| == 4096
  {
    hide Reachable, StreamEnd;
    if cfg.skip + 1024 <= StreamEnd(cfg) {
      var s := FillTasks(cfg, 1024);
    }
    if cfg.skip + 4096 <= StreamEnd(cfg) {
      var s := FillResults(cfg, 4096);
    }
  }

  /** Once cancelled, a rate-limited worker can leave without looking its target up. */
  lemma GivesUpBeforeLookup(cfg: Config, s: State, w: nat) returns (s': State)
    requires Reachable(cfg, s) && s.cancelled && cfg.rateLimited
    requires w < |s.pool.workers| && s.pool.workers[w].Holding?
    ensures Reachable(cfg, s') && s'.pool.dropped == s.pool.dropped + [s.pool.workers[w].task]
    ensures s'.pool.workers == s.pool.workers[w := Exited] && s'.sink == s.sink && s'.prod == s.prod
  {
    hide MaskHas, Reachable;
    s' := Take(cfg, s, CancelToken(w));
  }
}
