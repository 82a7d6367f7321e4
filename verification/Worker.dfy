/** The bounded event queue between ingestion and the background extraction worker, and the worker's batching. */
module Worker {
  import opened GraphTypes

  datatype EventKind = ToolCall | Prose

  datatype Event = Event(id: string, kind: EventKind, content: string)

  /** What became of an offered event: recorded as a tool call, queued, dropped because the queue was full, refused
      because the worker is gone, or not queued because there is no sender. */
  datatype Outcome = Tool | Queued | Full | Gone | NoSender

  datatype Offered = Offered(event: Event, outcome: Outcome)

  /** Waiting for the first event of a batch, accumulating it, extracting it (for the last time or not), stopped. */
  datatype Phase = Waiting | Accumulating | Extracting(last: bool) | Halted

  datatype Config = Config(capacity: nat, batchEvents: nat)

  datatype Metrics = Metrics(ingested: nat, toolEvents: nat, queued: nat, dropped: nat)

  /** The queue, the worker, the counters, everything offered so far and every batch handed to extraction. */
  datatype State = State(open: bool, channel: seq<Event>, phase: Phase, batch: seq<Event>, metrics: Metrics,
                         log: seq<Offered>, extracted: seq<seq<Event>>)

  datatype Op = Offer(event: Event) | Close | Receive | Timeout | Extracted

  // ---------- Steps ----------

  function Admission(c: Config, s: State, e: Event): Outcome {
    if e.kind == ToolCall then Tool
    else if !s.open then NoSender
    else if s.phase == Halted then Gone
    else if |s.channel| < c.capacity then Queued
    else Full
  }

  function Counted(m: Metrics, o: Outcome): Metrics {
    Metrics(m.ingested + 1,
            if o == Tool then m.toolEvents + 1 else m.toolEvents,
            if o == Queued then m.queued + 1 else m.queued,
            if o == Full then m.dropped + 1 else m.dropped)
  }

  function AfterOffer(c: Config, s: State, e: Event): State {
    var o := Admission(c, s, e);
    s.(channel := if o == Queued then s.channel + [e] else s.channel,
       metrics := Counted(s.metrics, o), log := s.log + [Offered(e, o)])
  }

  function HandOver(s: State, batch: seq<Event>, last: bool): State {
    s.(extracted := s.extracted + [batch], batch := [], phase := Extracting(last))
  }

  /** The worker's receive returns: an event, or the news that the queue is closed and drained. */
  function AfterReceive(c: Config, s: State): State
    requires Enabled(s, Receive)
  {
    if s.channel == [] then
      if s.phase == Waiting then s.(phase := Halted) else HandOver(s, s.batch, true)
    else
      var t := s.(channel := s.channel[1..]);
      var batch := s.batch + [s.channel[0]];
      if s.phase == Accumulating && |batch| >= c.batchEvents then HandOver(t, batch, false)
      else t.(phase := Accumulating, batch := batch)
  }

  predicate Enabled(s: State, op: Op) {
    match op
    case Offer(_) => true
    case Close => true
    case Receive => (s.phase == Waiting || s.phase == Accumulating) && (s.channel != [] || !s.open)
    case Timeout => s.phase == Accumulating
    case Extracted => s.phase.Extracting?
  }

  function Step(c: Config, s: State, op: Op): State
    requires Enabled(s, op)
  {
    match op
    case Offer(e) => AfterOffer(c, s, e)
    case Close => s.(open := false)
    case Receive => AfterReceive(c, s)
    case Timeout => HandOver(s, s.batch, false)
    case Extracted => s.(phase := if s.phase.last then Halted else Waiting)
  }

  const START: State := State(true, [], Waiting, [], Metrics(0, 0, 0, 0), [], [])

  // ---------- Invariant ----------

  function Accepted(log: seq<Offered>): seq<Event> {
    if log == [] then [] else
      var last := log[|log| - 1];
      Accepted(log[..|log| - 1]) + (if last.outcome == Queued then [last.event] else [])
  }

  function Count(log: seq<Offered>, o: Outcome): nat {
    if log == [] then 0 else Count(log[..|log| - 1], o) + if log[|log| - 1].outcome == o then 1 else 0
  }

  function Concat(batches: seq<seq<Event>>): seq<Event> {
    if batches == [] then [] else Concat(batches[..|batches| - 1]) + batches[|batches| - 1]
  }

  function BatchLimit(c: Config): nat { if c.batchEvents < 2 then 2 else c.batchEvents }

  /** Every accepted event is extracted, in the current batch or in the queue: once, and in order. */
  ghost predicate Conserved(s: State) {
    Accepted(s.log) == Concat(s.extracted) + s.batch + s.channel
  }

  ghost predicate BatchesFit(c: Config, s: State) {
    forall i | 0 <= i < |s.extracted| :: 0 < |s.extracted[i]| <= BatchLimit(c)
  }

  /** The batch is being filled exactly while accumulating; a worker that stops for good has seen the queue closed
      and drained. */
  ghost predicate PhaseFits(c: Config, s: State) {
    && (if s.phase == Accumulating then 0 < |s.batch| < BatchLimit(c) else s.batch == [])
    && (s.phase == Halted || s.phase == Extracting(true) ==> !s.open && s.channel == [])
  }

  ghost predicate MetricsFit(s: State) {
    && s.metrics.ingested == |s.log| && s.metrics.toolEvents == Count(s.log, Tool)
    && s.metrics.queued == Count(s.log, Queued) && s.metrics.dropped == Count(s.log, Full)
    && Count(s.log, Gone) == 0
  }

  ghost predicate Inv(c: Config, s: State) {
    Conserved(s) && |s.channel| <= c.capacity && BatchesFit(c, s) && PhaseFits(c, s) && MetricsFit(s)
  }

  lemma OfferKeeps(c: Config, s: State, e: Event)
    requires Inv(c, s)
    ensures Inv(c, AfterOffer(c, s, e))
  {
    var t, entry := AfterOffer(c, s, e), Offered(e, Admission(c, s, e));
    assert t.log[..|s.log|] == s.log && t.log[|s.log|] == entry;
    assert Conserved(t);
    assert MetricsFit(t);
    assert BatchesFit(c, t);
  }

  lemma HandOverKeeps(c: Config, s: State, batch: seq<Event>, last: bool)
    requires Accepted(s.log) == Concat(s.extracted) + batch + s.channel && 0 < |batch| <= BatchLimit(c)
    requires |s.channel| <= c.capacity && BatchesFit(c, s) && MetricsFit(s)
    requires last ==> !s.open && s.channel == []
    ensures Inv(c, HandOver(s, batch, last))
  {
    var t := HandOver(s, batch, last);
    assert t.extracted[..|s.extracted|] == s.extracted;
    assert Concat(t.extracted) + t.batch == Concat(s.extracted) + batch;
  }

  lemma TakeKeeps(c: Config, s: State)
    requires Inv(c, s) && Enabled(s, Receive) && s.channel != []
    ensures Inv(c, AfterReceive(c, s))
  {
    var t := s.(channel := s.channel[1..]);
    var batch := s.batch + [s.channel[0]];
    assert Concat(s.extracted) + s.batch + s.channel == Concat(s.extracted) + batch + t.channel;
    if s.phase == Accumulating && |batch| >= c.batchEvents { HandOverKeeps(c, t, batch, false); }
  }

  lemma StepKeeps(c: Config, s: State, op: Op)
    requires Inv(c, s) && Enabled(s, op)
    ensures Inv(c, Step(c, s, op))
  {
    match op
    case Offer(e) => OfferKeeps(c, s, e);
    case Close =>
    case Receive =>
      if s.channel != [] { TakeKeeps(c, s); }
      else if s.phase == Accumulating { HandOverKeeps(c, s, s.batch, true); }
    case Timeout => HandOverKeeps(c, s, s.batch, false);
    case Extracted =>
  }

  // ---------- Runs ----------

  /** Any interleaving of offers, closing, receives, timeouts and finished extractions. */
  datatype Run = Begin | After(before: Run, op: Op)

  ghost function Final(c: Config, run: Run): (s: State) {
    if run.Begin? then START
    else if Enabled(Final(c, run.before), run.op) then Step(c, Final(c, run.before), run.op)
    else Final(c, run.before)
  }

  lemma {:induction false} EveryRun(c: Config, run: Run)
    ensures Inv(c, Final(c, run))
  {
    if run.Begin? {
    } else {
      EveryRun(c, run.before);
      if Enabled(Final(c, run.before), run.op) { StepKeeps(c, Final(c, run.before), run.op); }
    }
  }

  lemma {:induction false} AcceptedIsCounted(log: seq<Offered>)
    ensures |Accepted(log)| == Count(log, Queued)
    ensures |log| == Count(log, Tool) + Count(log, Queued) + Count(log, Full) + Count(log, Gone) + Count(log, NoSender)
  {
    if log == [] {
    } else {
      AcceptedIsCounted(log[..|log| - 1]);
    }
  }

  /** The counters add up over every run: an ingested event is a tool call, queued, dropped, or came after closing. */
  lemma CountersAddUp(c: Config, run: Run)
    ensures var s := Final(c, run);
      && s.metrics.ingested == s.metrics.toolEvents + s.metrics.queued + s.metrics.dropped + Count(s.log, NoSender)
      && s.metrics.queued == |Concat(s.extracted)| + |s.batch| + |s.channel|
  {
    EveryRun(c, run);
    AcceptedIsCounted(Final(c, run).log);
  }

  /** Over every run: a prose event is queued exactly while the queue is open and has room, and dropped exactly when it
      is open and full; a tool call never enters the queue. */
  lemma AdmittedExactly(c: Config, run: Run, e: Event)
    ensures var s, t := Final(c, run), Final(c, After(run, Offer(e)));
      && t.metrics.ingested == s.metrics.ingested + 1
      && (t.metrics.toolEvents == s.metrics.toolEvents + 1 <==> e.kind == ToolCall)
      && (t.channel == s.channel + [e] <==> e.kind == Prose && s.open && |s.channel| < c.capacity)
      && (t.channel == s.channel <==> !(e.kind == Prose && s.open && |s.channel| < c.capacity))
      && (t.metrics.dropped == s.metrics.dropped + 1 <==> e.kind == Prose && s.open && |s.channel| == c.capacity)
  {
    EveryRun(c, run);
    var s := Final(c, run);
    assert |s.channel + [e]| == |s.channel| + 1;
  }

  // ---------- What ends a batch ----------

  /** The step ends a batch: an event makes it long enough, the time is up, or the queue is closed and drained. */
  ghost predicate Ends(c: Config, s: State, op: Op, b: seq<Event>) {
    || (op == Receive && s.channel != [] && b == s.batch + [s.channel[0]]
        && |b| == if c.batchEvents < 2 then 2 else c.batchEvents)
    || (op == Timeout && b == s.batch)
    || (op == Receive && s.channel == [] && !s.open && b == s.batch)
  }

  lemma StepExtracts(c: Config, s: State, op: Op)
    requires Inv(c, s) && Enabled(s, op)
    ensures var t := Step(c, s, op);
      t.extracted == s.extracted || exists b :: t.extracted == s.extracted + [b] && Ends(c, s, op, b)
  {
    if op == Receive && s.channel != [] {
      assert Ends(c, s, op, s.batch + [s.channel[0]]) || Step(c, s, op).extracted == s.extracted;
    } else if op == Receive || op == Timeout {
      assert Ends(c, s, op, s.batch);
    }
  }

  /** The run goes on from an earlier one. */
  ghost predicate GoesOn(earlier: Run, run: Run) {
    run == earlier || (run.After? && GoesOn(earlier, run.before))
  }

  /** Every batch of every run was ended by one step of it: when it had exactly as many events as configured, at least
      two, or at a timeout, or by the news that the queue is closed and drained. */
  lemma {:induction false} EveryBatchEnds(c: Config, run: Run, i: nat) returns (at: Run)
    requires i < |Final(c, run).extracted|
    ensures at.After? && GoesOn(at, run)
    ensures Final(c, at.before).extracted == Final(c, run).extracted[..i]
    ensures Ends(c, Final(c, at.before), at.op, Final(c, run).extracted[i])
  {
    var s, t := Final(c, run.before), Final(c, run);
    EveryRun(c, run.before);
    if Enabled(s, run.op) { StepExtracts(c, s, run.op); }
    if i < |s.extracted| {
      at := EveryBatchEnds(c, run.before, i);
      assert t.extracted[..i] == s.extracted[..i];
    } else {
      at := run;
      assert t.extracted[..i] == s.extracted;
    }
  }

  ghost predicate Undisturbed(run: Run) {
    run.After? ==> run.op != Timeout && run.op != Close && Undisturbed(run.before)
  }

  /** Without timeouts and closing, every batch has exactly as many events as configured, at least two. */
  lemma {:induction false} FullBatches(c: Config, run: Run)
    requires Undisturbed(run)
    ensures Final(c, run).open
    ensures forall b | b in Final(c, run).extracted :: |b| == if c.batchEvents < 2 then 2 else c.batchEvents
  {
    if run.Begin? {
    } else {
      FullBatches(c, run.before);
      EveryRun(c, run.before);
      if Enabled(Final(c, run.before), run.op) { StepExtracts(c, Final(c, run.before), run.op); }
    }
  }

  // ---------- Shutdown ----------

  predicate IsWorkers(op: Op) { op == Receive || op == Timeout || op == Extracted }

  function Rank(p: Phase): nat {
    match p
    case Waiting => 1
    case Accumulating => 3
    case Extracting(last) => if last then 1 else 2
    case Halted => 0
  }

  function StepsLeft(s: State): nat { 3 * |s.channel| + Rank(s.phase) }

  /** A worker that has not halted after closing can move, and every move brings it closer. */
  lemma ClosingMakesProgress(c: Config, s: State, op: Op)
    requires !s.open
    ensures s.phase != Halted ==> Enabled(s, Receive) || Enabled(s, Extracted)
    ensures s.phase == Halted && IsWorkers(op) ==> !Enabled(s, op)
    ensures IsWorkers(op) && Enabled(s, op) ==> StepsLeft(Step(c, s, op)) < StepsLeft(s) && !Step(c, s, op).open
  {
  }

  /** Worker steps taken in turn. */
  ghost predicate Moves(c: Config, s: State, ops: seq<Op>)
    decreases |ops|
  {
    ops == [] || (IsWorkers(ops[0]) && Enabled(s, ops[0]) && Moves(c, Step(c, s, ops[0]), ops[1..]))
  }

  ghost function Moved(c: Config, s: State, ops: seq<Op>): State
    requires Moves(c, s, ops)
    decreases |ops|
  {
    if ops == [] then s else Moved(c, Step(c, s, ops[0]), ops[1..])
  }

  /** After closing, whatever the order of receives and timeouts: the worker takes a bounded number of steps, and
      when it can take no more it has halted with everything accepted extracted, in order. */
  lemma {:induction false} DrainsAfterClose(c: Config, s: State, ops: seq<Op>)
    requires Inv(c, s) && !s.open && Moves(c, s, ops)
    ensures |ops| <= StepsLeft(s)
    ensures var t := Moved(c, s, ops);
      && Inv(c, t) && t.log == s.log
      && ((forall op | IsWorkers(op) :: !Enabled(t, op)) <==> t.phase == Halted)
      && (t.phase == Halted ==> Concat(t.extracted) == Accepted(s.log))
    decreases |ops|
  {
    if ops == [] {
      ClosingMakesProgress(c, s, Receive);
      assert IsWorkers(Receive) && IsWorkers(Extracted);
      assert s.phase == Halted ==> forall op | IsWorkers(op) :: !Enabled(s, op);
      assert s.phase == Halted ==> Concat(s.extracted) + s.batch + s.channel == Concat(s.extracted);
    } else {
      ClosingMakesProgress(c, s, ops[0]);
      StepKeeps(c, s, ops[0]);
      DrainsAfterClose(c, Step(c, s, ops[0]), ops[1..]);
    }
  }

  // ---------- The batch limit ----------

  /** Two events, each received before the next is offered. */
  ghost function OneByOne(a: Event, b: Event): Run {
    After(After(After(After(Begin, Offer(a)), Receive), Offer(b)), Receive)
  }

  /** A limit of one event still makes a batch of two: the limit is only looked at after the second event. */
  lemma BatchOfTwo(c: Config, a: Event, b: Event)
    requires c.batchEvents <= 1 && c.capacity >= 1 && a.kind == Prose && b.kind == Prose
    ensures Final(c, OneByOne(a, b)).extracted == [[a, b]]
  {
    var r1 := After(Begin, Offer(a));
    var r2 := After(r1, Receive);
    var r3 := After(r2, Offer(b));
    FirstEvent(c, a);
    assert Final(c, r1) == AfterOffer(c, START, a);
    assert Final(c, r2) == AfterReceive(c, Final(c, r1));
    assert Final(c, r3) == AfterOffer(c, Final(c, r2), b);
    SecondEvent(c, Final(c, r2), a, b);
    assert Final(c, After(r3, Receive)) == AfterReceive(c, Final(c, r3));
  }

  lemma FirstEvent(c: Config, a: Event)
    requires c.capacity >= 1 && a.kind == Prose
    ensures var s := AfterOffer(c, START, a);
      && Enabled(s, Receive)
      && var t := AfterReceive(c, s);
         t.open && t.channel == [] && t.batch == [a] && t.phase == Accumulating && t.extracted == []
  {
    assert AfterOffer(c, START, a).channel == [a];
  }

  lemma SecondEvent(c: Config, s: State, a: Event, b: Event)
    requires c.batchEvents <= 1 && c.capacity >= 1 && b.kind == Prose
    requires s.open && s.channel == [] && s.batch == [a] && s.phase == Accumulating && s.extracted == []
    ensures var t := AfterOffer(c, s, b);
      Enabled(t, Receive) && AfterReceive(c, t).extracted == [[a, b]]
  {
    var t := AfterOffer(c, s, b);
    assert t.channel == [b] && t.phase == Accumulating && t.batch + [t.channel[0]] == [a, b];
    assert s.extracted + [[a, b]] == [[a, b]];
  }

  ghost predicate WithinLimit(c: Config, run: Run) {
    forall i | 0 <= i < |Final(c, run).extracted| :: |Final(c, run).extracted[i]| <= c.batchEvents
  }

  /** Every batch of every run is within the configured limit, if and only if the limit is at least two. */
  lemma LimitKeptExactly(c: Config)
    requires c.capacity >= 1
    ensures (forall run :: WithinLimit(c, run)) <==> c.batchEvents >= 2
  {
    if c.batchEvents >= 2 {
      forall run ensures WithinLimit(c, run) { EveryRun(c, run); }
    } else {
      var e := Event([], Prose, []);
      BatchOfTwo(c, e, e);
      assert |Final(c, OneByOne(e, e)).extracted[0]| == 2;
      assert !WithinLimit(c, OneByOne(e, e));
    }
  }

  // ---------- The engine ----------

  class Engine {
    const config: Config
    var open: bool
    var channel: seq<Event>
    var phase: Phase
    var batch: seq<Event>
    var ingested: nat
    var toolEvents: nat
    var queued: nat
    var dropped: nat
    ghost var log: seq<Offered>
    ghost var extracted: seq<seq<Event>>
    ghost var run: Run

    ghost function Abs(): State
      reads this
    {
      State(open, channel, phase, batch, Metrics(ingested, toolEvents, queued, dropped), log, extracted)
    }

    /** The engine is where the steps taken so far lead. */
    ghost predicate Valid()
      reads this
    {
      Abs() == Final(config, run)
    }

    constructor (capacity: nat, batchEvents: nat)
      ensures Valid() && run == Begin && config == Config(capacity, batchEvents)
    {
      config := Config(capacity, batchEvents);
      open, channel, phase, batch := true, [], Waiting, [];
      ingested, toolEvents, queued, dropped := 0, 0, 0, 0;
      log, extracted, run := [], [], Begin;
    }

    /** One event of an ingest request; never blocks. */
    method TryIngest(event: Event) returns (outcome: Outcome)
      requires Valid()
      modifies this
      ensures Valid() && run == After(old(run), Offer(event))
      ensures outcome == Admission(config, old(Abs()), event)
    {
      ingested := ingested + 1;
      if event.kind == ToolCall {
        toolEvents := toolEvents + 1;
        outcome := Tool;
      } else if open {
        outcome := TrySend(event);
        match outcome
        case Queued => queued := queued + 1;
        case Full => dropped := dropped + 1;
        case _ =>
      } else {
        outcome := NoSender;
      }
      log, run := log + [Offered(event, outcome)], After(run, Offer(event));
      assert Abs() == AfterOffer(config, old(Abs()), event);
    }

    /** The channel's own non-blocking send. */
    method TrySend(event: Event) returns (outcome: Outcome)
      modifies this`channel
      ensures outcome == if phase == Halted then Gone else if |old(channel)| < config.capacity then Queued else Full
      ensures channel == if outcome == Queued then old(channel) + [event] else old(channel)
    {
      if phase == Halted { return Gone; }
      if |channel| >= config.capacity { return Full; }
      channel := channel + [event];
      outcome := Queued;
    }

    /** A whole ingest request that is not interleaved with the worker; the response counts this request only. */
    method Ingest(events: seq<Event>) returns (requestQueued: nat, requestDropped: nat)
      requires Valid()
      modifies this
      ensures Valid() && run == OfferAll(old(run), events)
      ensures requestQueued == queued - old(queued) && requestDropped == dropped - old(dropped)
    {
      requestQueued, requestDropped := 0, 0;
      for i := 0 to |events|
        invariant Valid() && run == OfferAll(old(run), events[..i])
        invariant requestQueued == queued - old(queued) && requestDropped == dropped - old(dropped)
      {
        assert events[..i + 1][..i] == events[..i];
        var outcome := TryIngest(events[i]);
        if outcome == Queued { requestQueued := requestQueued + 1; }
        if outcome == Full { requestDropped := requestDropped + 1; }
      }
      assert events[..|events|] == events;
    }

    /** The last sender goes away. */
    method CloseQueue()
      requires Valid()
      modifies this`open, this`run
      ensures Valid() && run == After(old(run), Close)
    {
      open, run := false, After(run, Close);
    }

    /** The worker's receive returns; None when the queue is closed and drained. */
    method Recv() returns (event: Option<Event>)
      requires channel != [] || !open
      modifies this`channel
      ensures event == if old(channel) == [] then None else Some(old(channel)[0])
      ensures channel == if old(channel) == [] then [] else old(channel)[1..]
    {
      if channel == [] { return None; }
      event := Some(channel[0]);
      channel := channel[1..];
    }

    /** One receive of the worker's loop: the first event of a batch, the next one, or the end. */
    method ReceiveStep()
      requires Valid() && Enabled(Abs(), Receive)
      modifies this
      ensures Valid() && run == After(old(run), Receive)
    {
      NoBatchBetween();
      run := After(run, Receive);
      var event := Recv();
      match event
      case Some(e) =>
        if phase == Waiting {
          batch, phase := [e], Accumulating;
        } else {
          batch := batch + [e];
          if |batch| >= config.batchEvents { ProcessBatch(false); }
        }
      case None =>
        if phase == Waiting { phase := Halted; } else { ProcessBatch(true); }
      assert Abs() == AfterReceive(config, old(Abs()));
    }

    lemma NoBatchBetween()
      requires Valid()
      ensures phase == Waiting ==> batch == []
    {
      EveryRun(config, run);
    }

    /** The debounce window closes. */
    method TimeoutStep()
      requires Valid() && Enabled(Abs(), Timeout)
      modifies this
      ensures Valid() && run == After(old(run), Timeout)
    {
      run := After(run, Timeout);
      ProcessBatch(false);
    }

    /** Extraction of the batch handed over ends; the worker waits for the next one, or is done. */
    method ExtractionDone()
      requires Valid() && Enabled(Abs(), Extracted)
      modifies this`phase, this`run
      ensures Valid() && run == After(old(run), Extracted)
    {
      phase, run := if phase.last then Halted else Waiting, After(run, Extracted);
    }

    /** Hands the batch to extraction, which takes its time while the queue stays open. */
    method ProcessBatch(last: bool)
      modifies this`batch, this`phase, this`extracted
      ensures Abs() == HandOver(old(Abs()), old(batch), last)
    {
      extracted := extracted + [batch];
      batch, phase := [], Extracting(last);
    }
  }

  ghost function OfferAll(run: Run, events: seq<Event>): Run {
    if events == [] then run else After(OfferAll(run, events[..|events| - 1]), Offer(events[|events| - 1]))
  }
}
