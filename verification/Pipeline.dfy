/**
  The re-crawl pipeline as a step system: the `StreamTargets` goroutine
  (internal/store/targets.go), the worker pool of `Crawler.Run`
  (internal/crawler/crawler.go), the sink and the cursor writer wired up by
  `pipeline` and `runRecrawl` (cmd/rdns-crawler/main.go).

  Bounded channels are sequences, `select` is a free choice between the enabled
  steps, and cancellation may happen at any moment.
  */
module Pipeline {
  import opened Model
  import Reader

  const IP_CAP := 1024
  const RESULT_CAP := 4096

  /** One entry of the filtered target stream: its position and its address. */
  datatype Task = Task(idx: nat, ip: uint32)

  const DEFAULT_CHECKPOINT := 0x2_0000 // 1 << 17

  datatype Config = Config(recs: seq<Rec>, mask: uint16, skip: nat, limit: nat, checkpointEvery: nat,
                           concurrency: nat, rateLimited: bool)
  {
    /** 0 selects the default cadence. */
    function Every(): (n: nat)
      ensures n > 0
    {
      if checkpointEvery == 0 then DEFAULT_CHECKPOINT else checkpointEvery
    }

    /** `New` raises the pool size to at least one. */
    function PoolSize(): (n: nat)
      ensures n > 0
    {
      if concurrency < 1 then 1 else concurrency
    }
  }

  /** Where the target goroutine is: scanning, at the checkpoint test, or past the scan. */
  datatype Phase = Scanning | Checking | Drain | FinalSend | Returned | ChannelsClosed

  datatype Producer = Producer(pos: nat, produced: nat, emitted: nat, phase: Phase, sent: seq<Task>)
  datatype Cursor = Cursor(ch: seq<nat>, held: Option<nat>, log: seq<nat>)
  datatype Worker = Idle | Holding(task: Task) | Ready(task: Task) | Exited
  datatype Pool = Pool(ch: seq<Task>, closed: bool, workers: seq<Worker>, dropped: seq<Task>)
  datatype Sink = Sink(ch: seq<Task>, closed: bool, held: Option<Task>, buf: seq<Task>, flushed: seq<Task>,
                       drained: bool, finished: bool)

  datatype State = State(prod: Producer, cur: Cursor, pool: Pool, sink: Sink, cancelled: bool)

  // ----- the target stream -----

  /** The targets of the first k records, in file order. */
  function Filtered(mask: uint16, recs: seq<Rec>): seq<uint32> {
    if recs == [] then []
    else
      var r := recs[|recs| - 1];
      Filtered(mask, recs[..|recs| - 1]) + (if MaskHas(mask, r.status) then [r.ip] else [])
  }

  function Stream(cfg: Config): seq<uint32> {
    Filtered(cfg.mask, cfg.recs)
  }

  lemma {:induction false} FilteredPrefix(mask: uint16, recs: seq<Rec>, k: nat)
    requires k <= |recs|
    ensures Filtered(mask, recs[..k]) <= Filtered(mask, recs)
  {
    hide MaskHas;
    if k == |recs| {
      assert recs[..k] == recs;
    } else {
      FilteredPrefix(mask, recs[..|recs| - 1], k);
      assert recs[..|recs| - 1][..k] == recs[..k];
    }
  }

  lemma FilteredStep(mask: uint16, recs: seq<Rec>, k: nat)
    requires k < |recs|
    ensures Filtered(mask, recs[..k + 1])
         == Filtered(mask, recs[..k]) + (if MaskHas(mask, recs[k].status) then [recs[k].ip] else [])
  {
    assert recs[..k + 1][..k] == recs[..k];
  }

  /** The first k records the mask selects, by position. */
  ghost function MaskedBefore(mask: uint16, recs: seq<Rec>, k: nat): set<int>
    requires k <= |recs|
  {
    set j | 0 <= j < k && MaskHas(mask, recs[j].status)
  }

  lemma {:induction false} FilteredSize(mask: uint16, recs: seq<Rec>, k: nat)
    requires k <= |recs|
    ensures |Filtered(mask, recs[..k])| == |MaskedBefore(mask, recs, k)|
  {
    hide MaskHas, Filtered;
    if k == 0 {
      assert recs[..0] == [] && MaskedBefore(mask, recs, 0) == {};
      NothingFiltered(mask);
    } else {
      FilteredSize(mask, recs, k - 1);
      FilteredStep(mask, recs, k - 1);
      var before := MaskedBefore(mask, recs, k - 1);
      if MaskHas(mask, recs[k - 1].status) {
        assert MaskedBefore(mask, recs, k) == before + {k - 1} && k - 1 !in before;
      } else {
        assert MaskedBefore(mask, recs, k) == before;
      }
    }
  }

  lemma NothingFiltered(mask: uint16)
    ensures Filtered(mask, []) == []
  {
  }

  /**
    The target stream without its definition: as many targets as the mask selects
    records, and the record at position k, if selected, is the target numbered by how
    many were selected before it.
    */
  lemma StreamByPosition(cfg: Config, k: nat)
    requires k < |cfg.recs|
    ensures |Stream(cfg)| == |MaskedBefore(cfg.mask, cfg.recs, |cfg.recs|)|
    ensures MaskHas(cfg.mask, cfg.recs[k].status) ==>
              var i := |MaskedBefore(cfg.mask, cfg.recs, k)|;
              i < |Stream(cfg)| && Stream(cfg)[i] == cfg.recs[k].ip
  {
    hide MaskHas, Filtered, MaskedBefore;
    FilteredSize(cfg.mask, cfg.recs, |cfg.recs|);
    assert cfg.recs[..|cfg.recs|] == cfg.recs;
    FilteredSize(cfg.mask, cfg.recs, k);
    FilteredStep(cfg.mask, cfg.recs, k);
    FilteredPrefix(cfg.mask, cfg.recs, k + 1);
  }

  /** `CountTargets`: the length of the filtered stream of a complete file; any scan error is fatal. */
  method CountTargets(codec: Reader.Codec, file: seq<byte>, mask: uint16) returns (n: Option<nat>)
    ensures n.Some? <==> Reader.ScanFile(codec, file).end == Reader.Complete
    ensures n.Some? ==> n.value == |Filtered(mask, Reader.ScanFile(codec, file).recs)|
  {
    hide Reader.ScanFile, MaskHas;
    var recs, end := Reader.Scan(codec, file);
    if end != Reader.Complete {
      return None;
    }
    var count := 0;
    var i := 0;
    while i < |recs|
      invariant 0 <= i <= |recs| && count == |Filtered(mask, recs[..i])|
    {
      FilteredStep(mask, recs, i);
      if MaskHas(mask, recs[i].status) {
        count := count + 1;
      }
      i := i + 1;
    }
    assert recs[..|recs|] == recs;
    return Some(count);
  }

  // ----- steps -----

  datatype Step =
    // the scan callback of StreamTargets
    | PassRecord | SkipTarget | LimitStop | SendTarget | CancelStop | EndOfFile
    | Checkpoint | DrainCursor | SendFinal | CloseChannels
    // the cursor writer
    | TakeCursor | WriteCursor
    // worker w
    | Receive(w: nat) | LeaveClosed(w: nat) | Process(w: nat) | CancelToken(w: nat) | Deliver(w: nat) | CancelSend(w: nat)
    | CloseResults
    // the sink
    | TakeResult | AddResult | SinkDrained | CloseSink
    | Cancel

  /** The scan callback is about to handle a target it has to hand out. */
  predicate AtTarget(cfg: Config, p: Producer) {
    && p.phase == Scanning && p.pos < |cfg.recs|
    && MaskHas(cfg.mask, cfg.recs[p.pos].status)
    && p.produced >= cfg.skip
  }

  predicate LimitReached(cfg: Config, p: Producer) {
    cfg.limit != 0 && p.emitted >= cfg.limit
  }

  predicate Enabled(cfg: Config, s: State, step: Step) {
    match step
    case PassRecord =>
      s.prod.phase == Scanning && s.prod.pos < |cfg.recs| && !MaskHas(cfg.mask, cfg.recs[s.prod.pos].status)
    case SkipTarget =>
      s.prod.phase == Scanning && s.prod.pos < |cfg.recs| && MaskHas(cfg.mask, cfg.recs[s.prod.pos].status)
      && s.prod.produced < cfg.skip
    case LimitStop => AtTarget(cfg, s.prod) && LimitReached(cfg, s.prod)
    case SendTarget => AtTarget(cfg, s.prod) && !LimitReached(cfg, s.prod) && |s.pool.ch| < IP_CAP
    case CancelStop => AtTarget(cfg, s.prod) && !LimitReached(cfg, s.prod) && s.cancelled
    case EndOfFile => s.prod.phase == Scanning && s.prod.pos == |cfg.recs|
    case Checkpoint => s.prod.phase == Checking
    case DrainCursor => s.prod.phase == Drain
    case SendFinal => s.prod.phase == FinalSend && s.cur.ch == []
    case CloseChannels => s.prod.phase == Returned
    case TakeCursor => s.cur.ch != [] && s.cur.held.None?
    case WriteCursor => s.cur.held.Some?
    case Receive(w) => w < |s.pool.workers| && s.pool.workers[w].Idle? && s.pool.ch != []
    case LeaveClosed(w) => w < |s.pool.workers| && s.pool.workers[w].Idle? && s.pool.ch == [] && s.pool.closed
    case Process(w) => w < |s.pool.workers| && s.pool.workers[w].Holding?
    case CancelToken(w) => w < |s.pool.workers| && s.pool.workers[w].Holding? && s.cancelled && cfg.rateLimited
    case Deliver(w) => w < |s.pool.workers| && s.pool.workers[w].Ready? && |s.sink.ch| < RESULT_CAP
    case CancelSend(w) => w < |s.pool.workers| && s.pool.workers[w].Ready? && s.cancelled
    case CloseResults => !s.sink.closed && forall w | 0 <= w < |s.pool.workers| :: s.pool.workers[w].Exited?
    case TakeResult => s.sink.held.None? && s.sink.ch != []
    case AddResult => s.sink.held.Some?
    case SinkDrained => !s.sink.drained && s.sink.closed && s.sink.ch == [] && s.sink.held.None?
    case CloseSink => s.sink.drained && !s.sink.finished
    case Cancel => !s.cancelled
  }

  function Apply(cfg: Config, s: State, step: Step): State
    requires Enabled(cfg, s, step)
  {
    match step
    case PassRecord => s.(prod := s.prod.(pos := s.prod.pos + 1))
    case SkipTarget => s.(prod := s.prod.(pos := s.prod.pos + 1, produced := s.prod.produced + 1))
    case LimitStop => s.(prod := s.prod.(phase := Drain))
    case SendTarget =>
      var t := Task(s.prod.produced, cfg.recs[s.prod.pos].ip);
      s.(prod := Producer(s.prod.pos + 1, s.prod.produced + 1, s.prod.emitted + 1, Checking, s.prod.sent + [t]),
         pool := s.pool.(ch := s.pool.ch + [t]))
    case CancelStop => s.(prod := s.prod.(phase := Drain))
    case EndOfFile => s.(prod := s.prod.(phase := Drain))
    case Checkpoint =>
      // non-blocking send: dropped when the one-slot channel is still full
      var ch := if s.prod.produced % cfg.Every() == 0 && s.cur.ch == [] then [s.prod.produced] else s.cur.ch;
      s.(prod := s.prod.(phase := Scanning), cur := s.cur.(ch := ch))
    case DrainCursor => s.(prod := s.prod.(phase := FinalSend), cur := s.cur.(ch := []))
    case SendFinal => s.(prod := s.prod.(phase := Returned), cur := s.cur.(ch := [s.prod.produced]))
    case CloseChannels => s.(prod := s.prod.(phase := ChannelsClosed), pool := s.pool.(closed := true))
    case TakeCursor => s.(cur := s.cur.(ch := [], held := Some(s.cur.ch[0])))
    case WriteCursor => s.(cur := s.cur.(held := None, log := s.cur.log + [s.cur.held.value]))
    case Receive(w) =>
      s.(pool := s.pool.(ch := s.pool.ch[1..], workers := s.pool.workers[w := Holding(s.pool.ch[0])]))
    case LeaveClosed(w) => s.(pool := s.pool.(workers := s.pool.workers[w := Exited]))
    case Process(w) => s.(pool := s.pool.(workers := s.pool.workers[w := Ready(s.pool.workers[w].task)]))
    case CancelToken(w) => s.(pool := Drop(s.pool, w))
    case Deliver(w) =>
      s.(pool := s.pool.(workers := s.pool.workers[w := Idle]),
         sink := s.sink.(ch := s.sink.ch + [s.pool.workers[w].task]))
    case CancelSend(w) => s.(pool := Drop(s.pool, w))
    case CloseResults => s.(sink := s.sink.(closed := true))
    case TakeResult => s.(sink := s.sink.(ch := s.sink.ch[1..], held := Some(s.sink.ch[0])))
    case AddResult => s.(sink := Added(s.sink))
    case SinkDrained => s.(sink := s.sink.(drained := true))
    case CloseSink => s.(sink := s.sink.(buf := [], flushed := s.sink.flushed + s.sink.buf, finished := true))
    case Cancel => s.(cancelled := true)
  }

  /** Worker w returns without delivering what it holds. */
  function Drop(p: Pool, w: nat): Pool
    requires w < |p.workers| && (p.workers[w].Holding? || p.workers[w].Ready?)
  {
    p.(workers := p.workers[w := Exited], dropped := p.dropped + [p.workers[w].task])
  }

  /** `Writer.add`: buffer, and flush a full block. */
  function Added(k: Sink): Sink
    requires k.held.Some?
  {
    var buf := k.buf + [k.held.value];
    if |buf| >= Reader.BLOCK_RECS then k.(held := None, buf := [], flushed := k.flushed + buf)
    else k.(held := None, buf := buf)
  }

  function Init(cfg: Config): State {
    State(Producer(0, 0, 0, Scanning, []), Cursor([], None, []),
          Pool([], false, seq(cfg.PoolSize(), _ => Idle), []),
          Sink([], false, None, [], [], false, false), false)
  }

  /** The state after these steps, if each was possible in turn. */
  function Exec(cfg: Config, steps: seq<Step>): Option<State> {
    if steps == [] then Some(Init(cfg))
    else
      var last := steps[|steps| - 1];
      match Exec(cfg, steps[..|steps| - 1])
      case None => None
      case Some(s) => if Enabled(cfg, s, last) then Some(Apply(cfg, s, last)) else None
  }

  ghost predicate Reachable(cfg: Config, s: State) {
    exists steps :: Exec(cfg, steps) == Some(s)
  }

  lemma ReachableStep(cfg: Config, s: State, step: Step)
    requires Reachable(cfg, s) && Enabled(cfg, s, step)
    ensures Reachable(cfg, Apply(cfg, s, step))
  {
    var steps :| Exec(cfg, steps) == Some(s);
    assert (steps + [step])[..|steps|] == steps;
    assert Exec(cfg, steps + [step]) == Some(Apply(cfg, s, step));
  }
}
