/** When a resumed re-crawl leaves a smaller cursor than it found. */
module ResumeCursor {
  import opened Model
  import opened Pipeline
  import opened PipelineLaws
  import opened PipelineLiveness
  import opened Resume
  import opened Runs

  /** The run has replaced cursor n by a smaller one. */
  predicate MovedBack(n: nat, s: State) {
    var c := CursorAfter(Some(n), s);
    c.Some? && c.value < n
  }

  /** An uncancelled run that is done leaves the end of its slice, which is smaller exactly when the slice ends below n. */
  lemma FinishedCursor(cfg: Config, s: State, n: nat)
    requires Reachable(cfg, s) && Done(s) && !s.cancelled
    ensures CursorAfter(Some(n), s) == Some(StreamEnd(cfg))
    ensures MovedBack(n, s) <==> StreamEnd(cfg) < n
  {
    hide Reachable, StreamEnd;
    CursorIsTrustworthy(cfg, s);
    StreamIsExactSlice(cfg, s);
  }

  /** The scan stops at the resume point, cancelled at the first target or at the end of the file. */
  lemma StopAtResumePoint(cfg: Config) returns (s: State)
    ensures Reachable(cfg, s)
    ensures s == Init(cfg).(prod := Producer(s.prod.pos, ResumePoint(cfg), 0, Drain, []), cancelled := s.cancelled)
  {
    hide MaskHas, Reachable, Stream;
    s := AtResumePoint(cfg);
    if ResumePoint(cfg) == |Stream(cfg)| {
      s := ToEndOfFile(cfg, s);
    } else {
      s := NextTarget(cfg, s);
      s := Take(cfg, s, Cancel);
      s := Take(cfg, s, CancelStop);
    }
  }

  /** A run stopped before its first target, then shut down in order. */
  lemma CancelledAtOnce(cfg: Config) returns (s: State)
    ensures Reachable(cfg, s) && Done(s) && s.cur.log == [ResumePoint(cfg)]
  {
    hide MaskHas, Reachable, ResumePoint;
    s := StopAtResumePoint(cfg);
    s := Report(cfg, s);
    s := ShutDown(cfg, s);
  }

  /**
    With cancellation allowed, no run of a configuration that resumes from cursor
    n moves the cursor back if and only if n is 0, whether it is stopped anywhere
    or done.
    */
  lemma NeverMovesBackIff(cfg: Config, n: nat)
    requires cfg.skip == ResumeSkip(Some(n))
    ensures (forall s | Reachable(cfg, s) :: !MovedBack(n, s)) <==> n == 0
    ensures (forall s | Reachable(cfg, s) && Done(s) :: !MovedBack(n, s)) <==> n == 0
  {
    hide Reachable, Stream, Done;
    if n > 0 {
      var s := CancelledAtOnce(cfg);
      assert MovedBack(n, s);
    }
  }

  /** How far back: never below the resume point. */
  lemma MovesBackAtMostToResumePoint(cfg: Config, n: nat, s: State)
    requires Reachable(cfg, s) && MovedBack(n, s)
    ensures CursorAfter(Some(n), s).value >= ResumePoint(cfg)
  {
    hide Reachable, ResumePoint;
    CursorIsTrustworthy(cfg, s);
  }
}
