/** Which checkpoints a run offers to the cursor writer: all of them, but for those that find the channel full. */
module PipelineOffers {
  import opened Model
  import opened Pipeline
  import opened PipelineLaws
  import Reader

  /** A position behind the resume point at which a cursor value is due. */
  predicate Due(cfg: Config, m: nat) {
    cfg.skip < m && m % cfg.Every() == 0
  }

  /** The target goroutine is about to offer position m while the one-slot cursor channel is still full. */
  predicate FindsFull(s: State, m: nat) {
    s.prod.phase == Checking && s.prod.produced == m && s.cur.ch != []
  }

  /** Some moment of the run at which that happened. */
  ghost predicate Missed(cfg: Config, steps: seq<Step>, m: nat) {
    exists i :: 0 <= i < |steps| && steps[i] == Checkpoint
                && Exec(cfg, steps[..i]).Some? && FindsFull(Exec(cfg, steps[..i]).value, m)
  }

  /** The positions handed out whose checkpoint test is over. */
  function Tested(p: Producer): int {
    if p.phase == Checking then p.produced - 1 else p.produced
  }

  /** While the scan runs, every due position was sent to the writer or missed, and nothing else was sent. */
  ghost predicate Offered(cfg: Config, s: State, missed: set<nat>) {
    !ScanOver(s.prod) ==>
      && (forall m :: m in CursorTrail(s.cur) ==> Due(cfg, m) && m <= Tested(s.prod))
      && (forall m: nat | Due(cfg, m) && m <= Tested(s.prod) :: m in CursorTrail(s.cur) || m in missed)
      && (missed != {} ==> CursorTrail(s.cur) != [])
  }

  /** What one step adds to the missed positions. */
  function NewlyMissed(cfg: Config, s: State, step: Step): set<nat> {
    if step == Checkpoint && s.cur.ch != [] && s.prod.produced % cfg.Every() == 0 then {s.prod.produced} else {}
  }

  function MissedSet(cfg: Config, steps: seq<Step>): set<nat> {
    if steps == [] then {}
    else
      var init := steps[..|steps| - 1];
      MissedSet(cfg, init)
      + (match Exec(cfg, init)
         case None => {}
         case Some(s) => NewlyMissed(cfg, s, steps[|steps| - 1]))
  }

  // ----- one step -----

  lemma OfferedCheckpoint(cfg: Config, s: State, missed: set<nat>)
    requires Offered(cfg, s, missed) && StreamInv(cfg, s) && s.prod.phase == Checking
    ensures Offered(cfg, Apply(cfg, s, Checkpoint), missed + NewlyMissed(cfg, s, Checkpoint))
  {
    hide Filtered, MaskHas;
    var s' := Apply(cfg, s, Checkpoint);
    var n, trail := s.prod.produced, CursorTrail(s.cur);
    if n % cfg.Every() == 0 && s.cur.ch == [] {
      assert CursorTrail(s'.cur) == trail + [n];
    } else {
      assert CursorTrail(s'.cur) == trail;
      assert s.cur.ch != [] ==> s.cur.ch[0] in trail;
    }
  }

  lemma OfferedCursor(cfg: Config, s: State, step: Step, missed: set<nat>)
    requires Offered(cfg, s, missed) && CursorInv(cfg, s) && Enabled(cfg, s, step)
    requires step in {TakeCursor, WriteCursor}
    ensures Offered(cfg, Apply(cfg, s, step), missed)
  {
    hide MaskHas, Due, Ascending, FinalIsLast;
    assert CursorTrail(Apply(cfg, s, step).cur) == CursorTrail(s.cur);
  }

  /** Skipping passes no due position, and sending leaves the test of its own to the checkpoint step. */
  lemma OfferedOther(cfg: Config, s: State, step: Step, missed: set<nat>)
    requires Offered(cfg, s, missed) && Enabled(cfg, s, step)
    requires step !in {Checkpoint, TakeCursor, WriteCursor}
    ensures Offered(cfg, Apply(cfg, s, step), missed)
  {
    hide MaskHas, CursorTrail, Drop, Added;
    var s' := Apply(cfg, s, step);
    if !ScanOver(s'.prod) {
      assert s'.cur == s.cur;
      assert forall m: nat | Due(cfg, m) && m <= Tested(s'.prod) :: m <= Tested(s.prod);
    }
  }

  lemma OfferedStep(cfg: Config, s: State, step: Step, missed: set<nat>)
    requires Offered(cfg, s, missed) && StreamInv(cfg, s) && CursorInv(cfg, s) && Enabled(cfg, s, step)
    ensures Offered(cfg, Apply(cfg, s, step), missed + NewlyMissed(cfg, s, step))
  {
    hide Apply, StreamInv, CursorInv, Offered;
    if step == Checkpoint {
      OfferedCheckpoint(cfg, s, missed);
    } else {
      assert missed + NewlyMissed(cfg, s, step) == missed;
      if step in {TakeCursor, WriteCursor} {
        OfferedCursor(cfg, s, step, missed);
      } else {
        OfferedOther(cfg, s, step, missed);
      }
    }
  }

  // ----- every run -----

  lemma {:induction false} ExecOffers(cfg: Config, steps: seq<Step>)
    ensures Exec(cfg, steps).Some? ==> Offered(cfg, Exec(cfg, steps).value, MissedSet(cfg, steps))
  {
    hide Enabled, Apply, NewlyMissed;
    if steps == [] {
      OfferedInit(cfg);
    } else {
      hide Offered, StreamInv, CursorInv, Conserved, SizeInv, OrderInv, FifoInv;
      var init := steps[..|steps| - 1];
      ExecOffers(cfg, init);
      ExecKeepsInv(cfg, init);
      if Exec(cfg, steps).Some? {
        OfferedStep(cfg, Exec(cfg, init).value, steps[|steps| - 1], MissedSet(cfg, init));
      }
    }
  }

  lemma OfferedInit(cfg: Config)
    ensures Offered(cfg, Init(cfg), {})
  {
  }

  lemma {:induction false} MissedSetMeans(cfg: Config, steps: seq<Step>, m: nat)
    requires Exec(cfg, steps).Some? && m in MissedSet(cfg, steps)
    ensures Missed(cfg, steps, m)
  {
    hide Apply;
    var n := |steps| - 1;
    var init := steps[..n];
    var s := Exec(cfg, init).value;
    if m in MissedSet(cfg, init) {
      MissedSetMeans(cfg, init, m);
      var i :| 0 <= i < |init| && init[i] == Checkpoint
               && Exec(cfg, init[..i]).Some? && FindsFull(Exec(cfg, init[..i]).value, m);
      assert steps[..i] == init[..i] && steps[i] == init[i];
    } else {
      assert FindsFull(s, m) && steps[n] == Checkpoint;
    }
  }

  /**
    While the scan runs, the values that reached the writer are exactly positions
    at multiples of the cadence behind the resume point, and such a position is
    absent only if its offer found the one-slot channel full.
    */
  lemma EveryDuePositionOffered(cfg: Config, steps: seq<Step>, m: nat)
    requires Exec(cfg, steps).Some? && !ScanOver(Exec(cfg, steps).value.prod)
    ensures var s := Exec(cfg, steps).value;
            && (m in CursorTrail(s.cur) ==> Due(cfg, m) && m <= Tested(s.prod))
            && (Due(cfg, m) && m <= Tested(s.prod) ==> m in CursorTrail(s.cur) || Missed(cfg, steps, m))
  {
    hide Exec, CursorTrail, Due, Missed;
    ExecOffers(cfg, steps);
    if m in MissedSet(cfg, steps) {
      MissedSetMeans(cfg, steps, m);
    }
  }

  /** Once the scan has passed a due position, some cursor value is on its way or written. */
  lemma CursorComes(cfg: Config, s: State)
    requires Reachable(cfg, s) && s.prod.phase == Scanning
    requires s.prod.produced / cfg.Every() > cfg.skip / cfg.Every()
    ensures CursorTrail(s.cur) != []
  {
    hide Exec, CursorTrail, MissedSet;
    var steps :| Exec(cfg, steps) == Some(s);
    ExecOffers(cfg, steps);
    var e := cfg.Every();
    var m := s.prod.produced / e * e;
    DueBetween(cfg.skip, s.prod.produced, e);
    assert Due(cfg, m) && m <= Tested(s.prod);
  }

  lemma DueBetween(skip: nat, n: nat, e: nat)
    requires e > 0 && n / e > skip / e
    ensures skip < n / e * e <= n && n / e * e % e == 0
  {
    var q, r := n / e, skip / e;
    assert n == q * e + n % e && skip == r * e + skip % e;
    assert q * e >= (r + 1) * e;
    MultipleOf(q, e);
  }

  lemma MultipleOf(q: int, e: int)
    requires e > 0
    ensures q * e % e == 0
  {
    var x := q * e;
    var d := q - x / e;
    assert d * e == x % e by { assert x == x / e * e + x % e; }
    assert d >= 1 ==> d * e >= e;
    assert d <= -1 ==> d * e < 0;
  }

  // ----- whole blocks -----

  /** Until it is closed, the sink has flushed whole blocks only. */
  ghost predicate WholeBlocks(s: State) {
    !s.sink.finished ==> |s.sink.flushed| % Reader.BLOCK_RECS == 0 && |s.sink.buf| < Reader.BLOCK_RECS
  }

  lemma WholeBlocksStep(cfg: Config, s: State, step: Step)
    requires WholeBlocks(s) && Enabled(cfg, s, step)
    ensures WholeBlocks(Apply(cfg, s, step))
  {
    hide MaskHas, Drop;
  }

  lemma {:induction false} ExecWholeBlocks(cfg: Config, steps: seq<Step>)
    ensures Exec(cfg, steps).Some? ==> WholeBlocks(Exec(cfg, steps).value)
  {
    hide Enabled, Apply;
    if steps != [] {
      var init := steps[..|steps| - 1];
      ExecWholeBlocks(cfg, init);
      if Exec(cfg, steps).Some? {
        WholeBlocksStep(cfg, Exec(cfg, init).value, steps[|steps| - 1]);
      }
    }
  }

  /** A run that is killed has written a multiple of 65536 records. */
  lemma KilledRunWroteWholeBlocks(cfg: Config, s: State)
    requires Reachable(cfg, s) && !s.sink.finished
    ensures |s.sink.flushed| % 65536 == 0
  {
    hide Exec;
    var steps :| Exec(cfg, steps) == Some(s);
    ExecWholeBlocks(cfg, steps);
  }
}
