/**
  Resuming a re-crawl over any number of interrupted runs: the persisted count
  cursor of `runRecrawl` (cmd/rdns-crawler/main.go) and its one-checkpoint rewind.
  */
module Resume {
  import opened Model
  import opened Pipeline
  import opened PipelineLaws

  /** `readCountCursor` then the rewind: start one checkpoint below the cursor, or at 0. */
  function ResumeSkip(cursor: Option<nat>): nat {
    if cursor.Some? && cursor.value > DEFAULT_CHECKPOINT then cursor.value - DEFAULT_CHECKPOINT else 0
  }

  /** The previous-pass file and the statuses to re-crawl; the same in every run. */
  datatype Plan = Plan(recs: seq<Rec>, mask: uint16)

  /** A run stopped in some reachable state, and the target positions whose records survived the stop. */
  datatype Stop = Stop(cfg: Config, state: State, kept: set<nat>)

  function Targets(plan: Plan): seq<uint32> {
    Filtered(plan.mask, plan.recs)
  }

  function Indices(tasks: seq<Task>): set<nat> {
    set t | t in tasks :: t.idx
  }

  /** The cursor file after the run: the last value written, or what was there before. */
  function CursorAfter(before: Option<nat>, s: State): Option<nat> {
    if s.cur.log == [] then before else Some(s.cur.log[|s.cur.log| - 1])
  }

  /** A run of the plan that started from this cursor; it keeps no more than it wrote. */
  ghost predicate RunOf(plan: Plan, stop: Stop, cursor: Option<nat>) {
    && stop.cfg.recs == plan.recs && stop.cfg.mask == plan.mask
    && stop.cfg.skip == ResumeSkip(cursor) && stop.cfg.checkpointEvery == 0
    && Reachable(stop.cfg, stop.state)
    && stop.kept <= Indices(stop.state.sink.flushed)
  }

  /** Every target handed out more than one checkpoint below the persisted cursor has been recorded. */
  ghost predicate SafeStop(stop: Stop, cursor: Option<nat>) {
    cursor.Some? ==>
      forall t | t in stop.state.prod.sent && t.idx + DEFAULT_CHECKPOINT < cursor.value :: t.idx in stop.kept
  }

  function CursorAt(stops: seq<Stop>): Option<nat> {
    if stops == [] then None else CursorAfter(CursorAt(stops[..|stops| - 1]), stops[|stops| - 1].state)
  }

  function Recorded(stops: seq<Stop>): set<nat> {
    if stops == [] then {} else Recorded(stops[..|stops| - 1]) + stops[|stops| - 1].kept
  }

  /** Any number of interrupted runs, each resuming from the cursor the previous ones left. */
  ghost predicate Interrupted(plan: Plan, stops: seq<Stop>) {
    stops == [] || (
      var init, last := stops[..|stops| - 1], stops[|stops| - 1];
      Interrupted(plan, init) && RunOf(plan, last, CursorAt(init)) && SafeStop(last, CursorAt(stops)))
  }

  lemma SentCovers(cfg: Config, s: State, idx: nat)
    requires Reachable(cfg, s) && cfg.skip <= idx < s.prod.produced
    ensures exists t :: t in s.prod.sent && t.idx == idx
  {
    hide Reachable, Filtered;
    StreamIsExactSlice(cfg, s);
    assert s.prod.sent[idx - cfg.skip].idx == idx;
  }

  /** Everything more than one checkpoint below the cursor is on record, however often the crawl was interrupted. */
  lemma {:induction false} NothingBelowIsMissing(plan: Plan, stops: seq<Stop>, idx: nat)
    requires Interrupted(plan, stops)
    requires CursorAt(stops).Some? && idx + DEFAULT_CHECKPOINT < CursorAt(stops).value
    ensures idx in Recorded(stops)
  {
    hide Reachable, StreamEnd;
    if stops != [] {
      var init, last := stops[..|stops| - 1], stops[|stops| - 1];
      var before := CursorAt(init);
      if last.state.cur.log == [] || idx < last.cfg.skip {
        NothingBelowIsMissing(plan, init, idx);
      } else {
        CursorIsTrustworthy(last.cfg, last.state);
        SentCovers(last.cfg, last.state, idx);
      }
    }
  }

  /**
    No hole: once one run finishes uncancelled and unlimited, every target of the
    filtered stream is recorded.
    */
  lemma NoHoleAfterFinish(plan: Plan, stops: seq<Stop>, final: Stop, idx: nat)
    requires Interrupted(plan, stops)
    requires RunOf(plan, final, CursorAt(stops)) && final.cfg.limit == 0
    requires final.state.sink.finished && !final.state.cancelled
    requires final.kept == Indices(final.state.sink.flushed)
    requires idx < |Targets(plan)|
    ensures idx in Recorded(stops) + final.kept
  {
    hide Reachable, Interrupted, Filtered, Recorded;
    var cfg, s := final.cfg, final.state;
    if idx < cfg.skip {
      NothingBelowIsMissing(plan, stops, idx);
    } else {
      FinishedRunWroteAll(cfg, s);
      SentCovers(cfg, s, idx);
      var t :| t in s.prod.sent && t.idx == idx;
      assert t in multiset(s.sink.flushed);
    }
  }

  // ----- when a clean stop is safe -----

  /** Where a target that was handed out can be after a clean stop. */
  lemma AfterCleanStop(cfg: Config, s: State, t: Task)
    requires Reachable(cfg, s) && s.sink.finished && t in s.prod.sent
    ensures t in s.sink.flushed || t in s.pool.ch || t in s.pool.dropped
  {
    hide Reachable;
    CleanStopLosesLittle(cfg, s);
    assert t in multiset(s.prod.sent);
  }

  /** What is left in the channel are the latest targets, all within 1024 of the final position. */
  lemma ChannelHoldsLatest(cfg: Config, s: State, t: Task)
    requires Reachable(cfg, s) && t in s.pool.ch
    ensures t.idx + IP_CAP >= s.prod.produced
  {
    hide Reachable, Conserved, OrderInv, CursorInv, Filtered;
    ReachableInv(cfg, s);
    var n := |s.prod.sent| - |s.pool.ch|;
    var i :| 0 <= i < |s.pool.ch| && s.pool.ch[i] == t;
    assert s.prod.sent[n..][i] == s.prod.sent[n + i];
  }

  /** Positions identify the targets handed out. */
  lemma SentOnce(cfg: Config, s: State, t: Task, u: Task)
    requires Reachable(cfg, s) && t in s.prod.sent && u in s.prod.sent && t.idx == u.idx
    ensures t == u && multiset(s.prod.sent)[t] == 1
  {
    hide Reachable, Filtered;
    StreamIsExactSlice(cfg, s);
    var i :| 0 <= i < |s.prod.sent| && s.prod.sent[i] == t;
    var j :| 0 <= j < |s.prod.sent| && s.prod.sent[j] == u;
    assert i == j;
    OccursAtMostOnce(s.prod.sent, i);
  }

  lemma {:induction false} OccursAtMostOnce(sent: seq<Task>, i: nat)
    requires i < |sent|
    requires forall a, b | 0 <= a < b < |sent| :: sent[a].idx < sent[b].idx
    ensures multiset(sent)[sent[i]] == 1
  {
    var n := |sent| - 1;
    assert sent == sent[..n] + [sent[n]];
    if i < n {
      OccursAtMostOnce(sent[..n], i);
      assert sent[i].idx < sent[n].idx;
    } else {
      assert sent[n] !in sent[..n];
    }
  }

  /** A dropped target is not also in the file. */
  lemma DroppedNotFlushed(cfg: Config, s: State, t: Task)
    requires Reachable(cfg, s) && t in s.pool.dropped
    ensures t in s.prod.sent && t.idx !in Indices(s.sink.flushed)
  {
    hide Reachable;
    PipelineConserves(cfg, s);
    assert t in multiset(s.pool.dropped) && t in multiset(s.prod.sent);
    forall u | u in s.sink.flushed ensures u.idx != t.idx {
      assert u in multiset(s.sink.flushed) && u in multiset(s.prod.sent);
      if u.idx == t.idx {
        SentOnce(cfg, s, t, u);
        assert false;
      }
    }
  }

  /**
    Looking back at one clean stop: it is safe exactly when no worker gave up, on cancellation, a target
    more than one checkpoint below the persisted cursor. (The targets left in the
    channel never matter: they are among the latest 1024.)
    */
  lemma CleanStopSafeIff(plan: Plan, stop: Stop, before: Option<nat>)
    requires RunOf(plan, stop, before) && stop.state.sink.finished
    requires stop.kept == Indices(stop.state.sink.flushed)
    ensures var c := CursorAfter(before, stop.state);
            SafeStop(stop, c)
            <==> (c.Some? ==> forall t | t in stop.state.pool.dropped :: t.idx + DEFAULT_CHECKPOINT >= c.value)
  {
    hide Reachable, Filtered;
    var cfg, s := stop.cfg, stop.state;
    var c := CursorAfter(before, s);
    CursorIsTrustworthy(cfg, s);
    StreamIsExactSlice(cfg, s);
    forall t | t in s.pool.dropped ensures t in s.prod.sent && t.idx !in stop.kept {
      DroppedNotFlushed(cfg, s, t);
    }
    if c.Some? && forall t | t in s.pool.dropped :: t.idx + DEFAULT_CHECKPOINT >= c.value {
      forall t | t in s.prod.sent && t.idx + DEFAULT_CHECKPOINT < c.value ensures t.idx in stop.kept {
        AfterCleanStop(cfg, s, t);
        if t in s.pool.ch {
          ChannelHoldsLatest(cfg, s, t);
        }
      }
    }
  }
}
