/** Every interleaving of emitters and installers over the file sinks: how often each
    event reaches each sink, and exactly which events are lost. */
module FileSinkRuns {
  import opened FileSinks
  import opened Prelude
  import TraceBuffers

  // ---- The protocol -----------------------------------------------------------------------

  /** How far an emission has come: not yet looked at the sinks, found none, found the flag
      clear, stored the event, wrote it to the `seen` sinks there were, or gave up. */
  datatype Fate = Starting | NoSinks | Admitted | Stored | Live(seen: nat) | Refused

  datatype Emission = Emission(kind: RecordKind, fate: Fate)

  /** What became of the buffer: still there, won by a drain or a disposal, held by the
      drain (after `taken` events had ever been stored), or replayed to `seen` sinks. */
  datatype Stage =
    | Waiting
    | Won(toSinks: bool)
    | Holding(taken: nat, held: seq<Event<nat>>)
    | Over(toSinks: bool, taken: nat, replayed: seq<Event<nat>>, seen: nat)

  /** `stored` records every event ever put into the buffer; it only serves to state things. */
  datatype State = State(sinks: seq<Sink<nat>>, buffer: seq<Event<nat>>, stage: Stage, emissions: seq<Emission>,
                         stored: seq<Event<nat>>)

  /** One atomic step of an emitter or of an installer. A read of the flag may be stale. */
  datatype Step =
    | Begin(kind: RecordKind)
    | LookAtSinks(emission: nat)
    | LookAtFlag(emission: nat, seenSet: bool)
    | StoreStep(emission: nat)
    | AddSink(signals: Signals)
    | Swap(toSinks: bool)
    | Take
    | Replay

  predicate IsDrained(s: State) {
    !s.stage.Waiting?
  }

  /** Emissions are told apart by their number, which serves as the event's fields. */
  function EventOf(s: State, i: nat): Event<nat>
    requires i < |s.emissions|
  {
    Event(s.emissions[i].kind, i)
  }

  predicate Enabled(s: State, step: Step) {
    match step
    case Begin(_) => true
    case LookAtSinks(i) => i < |s.emissions| && s.emissions[i].fate == Starting
    case LookAtFlag(i, seenSet) => i < |s.emissions| && s.emissions[i].fate == NoSinks && (seenSet ==> IsDrained(s))
    case StoreStep(i) => i < |s.emissions| && s.emissions[i].fate == Admitted
    case AddSink(_) => true
    case Swap(toSinks) => !IsDrained(s) && (toSinks ==> s.sinks != [])
    case Take => s.stage.Won?
    case Replay => s.stage.Holding?
  }

  function Move(s: State, i: nat, fate: Fate): seq<Emission>
    requires i < |s.emissions|
  {
    s.emissions[i := s.emissions[i].(fate := fate)]
  }

  /** A step that is not enabled changes nothing; so does a swap after the first. */
  function Next(cap: nat, s: State, step: Step): State {
    if !Enabled(s, step) then s
    else
      match step
      case Begin(kind) => s.(emissions := s.emissions + [Emission(kind, Starting)])
      case LookAtSinks(i) =>
        if s.sinks == [] then s.(emissions := Move(s, i, NoSinks))
        else s.(sinks := WriteEvent(s.sinks, EventOf(s, i)), emissions := Move(s, i, Live(|s.sinks|)))
      case LookAtFlag(i, seenSet) => s.(emissions := Move(s, i, if seenSet then Refused else Admitted))
      case StoreStep(i) =>
        s.(buffer := Store(cap, s.buffer, EventOf(s, i)),
           emissions := Move(s, i, Stored),
           stored := s.stored + [EventOf(s, i)])
      case AddSink(signals) => s.(sinks := s.sinks + [Sink(signals, [])])
      case Swap(toSinks) => s.(stage := Won(toSinks))
      case Take =>
        s.(buffer := [],
           stage := if s.stage.toSinks then Holding(|s.stored|, s.buffer) else Over(false, |s.stored|, [], 0))
      case Replay =>
        s.(sinks := WriteAll(s.sinks, s.stage.held), stage := Over(true, s.stage.taken, s.stage.held, |s.sinks|))
  }

  const START := State([], [], Waiting, [], [])

  function Run(cap: nat, steps: seq<Step>): State {
    if steps == [] then START else Next(cap, Run(cap, steps[..|steps| - 1]), steps[|steps| - 1])
  }

  lemma RunGrows(cap: nat, steps: seq<Step>, step: Step)
    ensures Run(cap, steps + [step]) == Next(cap, Run(cap, steps), step)
  {
    assert (steps + [step])[..|steps|] == steps;
  }

  // ---- Whole calls, undisturbed ---------------------------------------------------------------

  /** Run without interference, the steps of an emission do what the whole call does. */
  lemma UndisturbedEmission(cap: nat, s: State, kind: RecordKind)
    ensures var i, ev := |s.emissions|, Event(kind, |s.emissions|);
      var t := Next(cap, Next(cap, Next(cap, Next(cap, s, Begin(kind)), LookAtSinks(i)), LookAtFlag(i, IsDrained(s))),
        StoreStep(i));
      && t.sinks == WriteEvent(s.sinks, ev)
      && t.buffer == (if s.sinks == [] && !IsDrained(s) then Store(cap, s.buffer, ev) else s.buffer)
      && t.stage == s.stage && |t.emissions| == i + 1
      && t.emissions[i].fate == if s.sinks != [] then Live(|s.sinks|) else if IsDrained(s) then Refused else Stored
  {
    hide Store;
  }

  /** Likewise a drain and a disposal, whether or not they are the first. */
  lemma UndisturbedDrain(cap: nat, s: State)
    requires s.sinks != [] && (s.stage.Waiting? || s.stage.Over?)
    ensures var t := Next(cap, Next(cap, Next(cap, s, Swap(true)), Take), Replay);
      IsDrained(t) && (if IsDrained(s) then t == s else t.buffer == [] && t.sinks == WriteAll(s.sinks, s.buffer))
    ensures var t := Next(cap, Next(cap, s, Swap(false)), Take);
      IsDrained(t) && t.sinks == s.sinks && t.buffer == if IsDrained(s) then s.buffer else []
  {
    hide WriteAll;
  }

  // ---- Counting lines ---------------------------------------------------------------------

  function Lines(s: State, k: nat, i: nat): nat
    requires k < |s.sinks| && i < |s.emissions|
  {
    multiset(s.sinks[k].lines)[EventOf(s, i)]
  }

  /** How often emission `i` should have been written to sink `k` by now. */
  function Expected(s: State, k: nat, i: nat): nat
    requires k < |s.sinks| && i < |s.emissions|
  {
    if !SinkAccepts(s.sinks[k].signals, s.emissions[i].kind) then 0
    else
      match s.emissions[i].fate
      case Live(seen) => if k < seen then 1 else 0
      case Stored => if s.stage.Over? && k < s.stage.seen then multiset(s.stage.replayed)[EventOf(s, i)] else 0
      case _ => 0
  }

  lemma WriteCounts(sink: Sink<nat>, ev: Event<nat>, other: Event<nat>)
    ensures multiset(Write(sink, ev).lines)[other] ==
            multiset(sink.lines)[other] + if SinkAccepts(sink.signals, ev.kind) && ev == other then 1 else 0
    ensures Write(sink, ev).signals == sink.signals
  {
  }

  lemma {:induction false} WriteAllCounts(sinks: seq<Sink<nat>>, events: seq<Event<nat>>, k: nat, ev: Event<nat>)
    requires k < |sinks|
    ensures |WriteAll(sinks, events)| == |sinks| && WriteAll(sinks, events)[k].signals == sinks[k].signals
    ensures multiset(WriteAll(sinks, events)[k].lines)[ev] ==
            multiset(sinks[k].lines)[ev] + if SinkAccepts(sinks[k].signals, ev.kind) then multiset(events)[ev] else 0
  {
    if events != [] {
      var n := |events| - 1;
      WriteAllCounts(sinks, events[..n], k, ev);
      WriteCounts(WriteAll(sinks, events[..n])[k], events[n], ev);
      assert events == events[..n] + [events[n]];
    }
  }

  lemma {:induction false} WriteAllKeepsSinks(sinks: seq<Sink<nat>>, events: seq<Event<nat>>)
    ensures |WriteAll(sinks, events)| == |sinks|
    ensures forall k :: 0 <= k < |sinks| ==> WriteAll(sinks, events)[k].signals == sinks[k].signals
  {
    if events != [] {
      WriteAllKeepsSinks(sinks, events[..|events| - 1]);
    }
  }

  lemma PartCounts<T>(s: seq<T>, from: nat, to: nat, x: T)
    requires from <= to <= |s|
    ensures multiset(s[from..to])[x] <= multiset(s)[x]
  {
    assert s == s[..from] + s[from..to] + s[to..];
  }

  // ---- What every run keeps -----------------------------------------------------------------

  ghost predicate Known(s: State, events: seq<Event<nat>>) {
    forall ev :: ev in events ==> ev.fields < |s.emissions| && ev == EventOf(s, ev.fields)
  }

  ghost predicate StoredOnce(s: State) {
    && Known(s, s.stored)
    && forall i :: 0 <= i < |s.emissions| ==>
      multiset(s.stored)[EventOf(s, i)] == if s.emissions[i].fate == Stored then 1 else 0
  }

  /** The buffer holds the newest events stored since it was last emptied, and what the
      drain took is the newest stored before that. */
  ghost predicate BufferIsNewest(cap: nat, s: State) {
    match s.stage
    case Waiting => s.buffer == TraceBuffers.LastN(cap, s.stored)
    case Won(_) => s.buffer == TraceBuffers.LastN(cap, s.stored)
    case Holding(taken, held) =>
      taken <= |s.stored| && held == TraceBuffers.LastN(cap, s.stored[..taken])
      && s.buffer == TraceBuffers.LastN(cap, s.stored[taken..])
    case Over(toSinks, taken, replayed, _) =>
      taken <= |s.stored| && replayed == (if toSinks then TraceBuffers.LastN(cap, s.stored[..taken]) else [])
      && s.buffer == TraceBuffers.LastN(cap, s.stored[taken..])
  }

  ghost predicate SinksCounted(s: State) {
    && (forall i :: 0 <= i < |s.emissions| && s.emissions[i].fate.Live? ==> 0 < s.emissions[i].fate.seen <= |s.sinks|)
    && (s.stage.Over? ==> s.stage.seen <= |s.sinks|)
    && (s.stage.Holding? || (s.stage.Won? && s.stage.toSinks) ==> s.sinks != [])
    && (s.stage.Over? && s.stage.toSinks ==> s.stage.seen > 0)
  }

  ghost predicate LinesAsExpected(s: State) {
    && (forall k :: 0 <= k < |s.sinks| ==> Known(s, s.sinks[k].lines))
    && forall k, i :: 0 <= k < |s.sinks| && 0 <= i < |s.emissions| ==> Lines(s, k, i) == Expected(s, k, i)
  }

  ghost predicate Sound(cap: nat, s: State) {
    StoredOnce(s) && BufferIsNewest(cap, s) && SinksCounted(s) && LinesAsExpected(s)
  }

  lemma BeginIsSound(cap: nat, s: State, kind: RecordKind)
    requires Sound(cap, s)
    ensures Sound(cap, Next(cap, s, Begin(kind)))
  {
    hide BufferIsNewest;
    var t, n := Next(cap, s, Begin(kind)), |s.emissions|;
    forall i | 0 <= i <= n
      ensures multiset(t.stored)[EventOf(t, i)] == if t.emissions[i].fate == Stored then 1 else 0
    {
      assert i < n ==> EventOf(t, i) == EventOf(s, i);
      assert i == n ==> EventOf(t, i) !in s.stored;
    }
    forall k, i | 0 <= k < |t.sinks| && 0 <= i <= n ensures Lines(t, k, i) == Expected(t, k, i) {
      assert i < n ==> EventOf(t, i) == EventOf(s, i) && Lines(s, k, i) == Expected(s, k, i);
      assert i == n ==> EventOf(t, i) !in s.sinks[k].lines;
    }
    assert BufferIsNewest(cap, t) by { SameBuffer(cap, s, t); }
  }

  lemma SameBuffer(cap: nat, s: State, t: State)
    requires BufferIsNewest(cap, s) && s.stage == t.stage && s.buffer == t.buffer && s.stored == t.stored
    ensures BufferIsNewest(cap, t)
  {
  }

  /** A change of fate that does not store leaves the record of stored events right. */
  lemma MoveKeepsStored(s: State, i: nat, fate: Fate)
    requires StoredOnce(s) && i < |s.emissions| && s.emissions[i].fate != Stored && fate != Stored
    ensures StoredOnce(s.(emissions := Move(s, i, fate)))
  {
    var t := s.(emissions := Move(s, i, fate));
    forall j | 0 <= j < |t.emissions|
      ensures multiset(t.stored)[EventOf(t, j)] == if t.emissions[j].fate == Stored then 1 else 0
    {
      assert EventOf(t, j) == EventOf(s, j);
    }
  }

  /** A change of fate between two that neither store nor write. */
  lemma MoveIsSound(cap: nat, s: State, i: nat, fate: Fate)
    requires Sound(cap, s) && i < |s.emissions|
    requires s.emissions[i].fate in {Starting, NoSinks, Admitted} && fate in {NoSinks, Admitted, Refused}
    ensures Sound(cap, s.(emissions := Move(s, i, fate)))
  {
    hide BufferIsNewest, StoredOnce;
    var t := s.(emissions := Move(s, i, fate));
    SameBuffer(cap, s, t);
    MoveKeepsStored(s, i, fate);
    forall k, j | 0 <= k < |t.sinks| && 0 <= j < |t.emissions| ensures Lines(t, k, j) == Expected(t, k, j) {
      assert EventOf(t, j) == EventOf(s, j) && Lines(s, k, j) == Expected(s, k, j);
    }
  }

  lemma LiveWritesOnce(s: State, i: nat, k: nat, j: nat)
    requires i < |s.emissions| && s.emissions[i].fate == Starting && k < |s.sinks| && j < |s.emissions|
    requires Lines(s, k, j) == Expected(s, k, j)
    ensures var t := s.(sinks := WriteEvent(s.sinks, EventOf(s, i)), emissions := Move(s, i, Live(|s.sinks|)));
      Lines(t, k, j) == Expected(t, k, j)
  {
    WriteCounts(s.sinks[k], EventOf(s, i), EventOf(s, j));
  }

  lemma LiveIsSound(cap: nat, s: State, i: nat)
    requires Sound(cap, s) && i < |s.emissions| && s.emissions[i].fate == Starting && s.sinks != []
    ensures Sound(cap, Next(cap, s, LookAtSinks(i)))
  {
    hide BufferIsNewest, StoredOnce, Expected, Lines;
    var t := Next(cap, s, LookAtSinks(i));
    SameBuffer(cap, s, t);
    MoveKeepsStored(s, i, Live(|s.sinks|));
    SameStored(s.(emissions := Move(s, i, Live(|s.sinks|))), t);
    forall k, j | 0 <= k < |t.sinks| && 0 <= j < |t.emissions| ensures Lines(t, k, j) == Expected(t, k, j) {
      assert Lines(s, k, j) == Expected(s, k, j);
      LiveWritesOnce(s, i, k, j);
    }
    forall k | 0 <= k < |t.sinks| ensures Known(t, t.sinks[k].lines) {
      assert Known(s, s.sinks[k].lines);
    }
  }

  lemma SameStored(s: State, t: State)
    requires StoredOnce(s) && s.emissions == t.emissions && s.stored == t.stored
    ensures StoredOnce(t)
  {
    forall i | 0 <= i < |t.emissions|
      ensures multiset(t.stored)[EventOf(t, i)] == if t.emissions[i].fate == Stored then 1 else 0
    {
      assert EventOf(t, i) == EventOf(s, i);
    }
  }

  lemma StoreIsNewest(cap: nat, s: State, ev: Event<nat>)
    requires BufferIsNewest(cap, s)
    ensures BufferIsNewest(cap, s.(buffer := Store(cap, s.buffer, ev), stored := s.stored + [ev]))
  {
    var t := s.(buffer := Store(cap, s.buffer, ev), stored := s.stored + [ev]);
    var taken := if s.stage.Holding? || s.stage.Over? then s.stage.taken else 0;
    StoreNewest(cap, s.stored[taken..], ev);
    assert t.stored[taken..] == s.stored[taken..] + [ev] && t.stored[..taken] == s.stored[..taken];
    assert s.stored[0..] == s.stored && t.stored[0..] == t.stored;
  }

  lemma StoreNewest(cap: nat, events: seq<Event<nat>>, ev: Event<nat>)
    ensures Store(cap, TraceBuffers.LastN(cap, events), ev) == TraceBuffers.LastN(cap, events + [ev])
  {
  }

  lemma StoreIsSound(cap: nat, s: State, i: nat)
    requires Sound(cap, s) && i < |s.emissions| && s.emissions[i].fate == Admitted
    ensures Sound(cap, Next(cap, s, StoreStep(i)))
  {
    hide BufferIsNewest, Store;
    var t := Next(cap, s, StoreStep(i));
    StoreIsNewest(cap, s, EventOf(s, i));
    SameBuffer(cap, s.(buffer := Store(cap, s.buffer, EventOf(s, i)), stored := s.stored + [EventOf(s, i)]), t);
    forall j | 0 <= j < |t.emissions|
      ensures multiset(t.stored)[EventOf(t, j)] == if t.emissions[j].fate == Stored then 1 else 0
    {
      assert EventOf(t, j) == EventOf(s, j);
    }
    ReplayedWasStored(cap, s, i);
    forall k, j | 0 <= k < |t.sinks| && 0 <= j < |t.emissions| ensures Lines(t, k, j) == Expected(t, k, j) {
      assert EventOf(t, j) == EventOf(s, j) && Lines(s, k, j) == Expected(s, k, j);
    }
    forall k | 0 <= k < |t.sinks| ensures Known(t, t.sinks[k].lines) {
      assert Known(s, s.sinks[k].lines);
    }
  }

  lemma ReplayedWasStored(cap: nat, s: State, i: nat)
    requires StoredOnce(s) && BufferIsNewest(cap, s) && i < |s.emissions|
    ensures s.stage.Over? ==> multiset(s.stage.replayed)[EventOf(s, i)] <= multiset(s.stored)[EventOf(s, i)]
    ensures s.stage.Holding? ==> multiset(s.stage.held)[EventOf(s, i)] <= multiset(s.stored)[EventOf(s, i)]
  {
    hide TraceBuffers.LastN, StoredOnce;
    if s.stage.Over? || s.stage.Holding? {
      NewestCounts(cap, s.stored, s.stage.taken, EventOf(s, i));
    }
  }

  lemma NewestCounts<T>(cap: nat, s: seq<T>, taken: nat, x: T)
    requires taken <= |s|
    ensures multiset(TraceBuffers.LastN(cap, s[..taken]))[x] <= multiset(s)[x]
  {
    var newest := TraceBuffers.LastN(cap, s[..taken]);
    assert newest == s[taken - |newest|..taken];
    PartCounts(s, taken - |newest|, taken, x);
  }

  lemma AddSinkIsSound(cap: nat, s: State, signals: Signals)
    requires Sound(cap, s)
    ensures Sound(cap, Next(cap, s, AddSink(signals)))
  {
    hide BufferIsNewest;
    var t := Next(cap, s, AddSink(signals));
    SameBuffer(cap, s, t);
    forall k, i | 0 <= k < |t.sinks| && 0 <= i < |t.emissions| ensures Lines(t, k, i) == Expected(t, k, i) {
      assert k < |s.sinks| ==> Lines(s, k, i) == Expected(s, k, i);
    }
    forall k | 0 <= k < |t.sinks| ensures Known(t, t.sinks[k].lines) {
      assert k < |s.sinks| ==> Known(s, s.sinks[k].lines);
    }
  }

  lemma SwapAndTakeAreSound(cap: nat, s: State, step: Step)
    requires Sound(cap, s) && (step.Swap? || step.Take?)
    ensures Sound(cap, Next(cap, s, step))
  {
    var t := Next(cap, s, step);
    forall k, i | 0 <= k < |t.sinks| && 0 <= i < |t.emissions| ensures Lines(t, k, i) == Expected(t, k, i) {
      assert Lines(s, k, i) == Expected(s, k, i);
    }
    forall k | 0 <= k < |t.sinks| ensures Known(t, t.sinks[k].lines) {
      assert Known(s, s.sinks[k].lines);
    }
    assert s.stored[..|s.stored|] == s.stored && s.stored[|s.stored|..] == [];
  }

  lemma HeldIsKnown(cap: nat, s: State)
    requires StoredOnce(s) && BufferIsNewest(cap, s) && s.stage.Holding?
    ensures Known(s, s.stage.held)
  {
    forall ev | ev in s.stage.held ensures ev in s.stored {
      assert ev in s.stored[..s.stage.taken];
    }
  }

  lemma {:induction false} WriteAllKeepsKnown(s: State, sinks: seq<Sink<nat>>, events: seq<Event<nat>>, k: nat)
    requires k < |sinks| && Known(s, sinks[k].lines) && Known(s, events)
    ensures |WriteAll(sinks, events)| == |sinks| && Known(s, WriteAll(sinks, events)[k].lines)
  {
    if events != [] {
      WriteAllKeepsKnown(s, sinks, events[..|events| - 1], k);
    }
  }

  lemma ReplayIsSound(cap: nat, s: State)
    requires Sound(cap, s) && s.stage.Holding?
    ensures Sound(cap, Next(cap, s, Replay))
  {
    hide WriteAll, TraceBuffers.LastN;
    var t := Next(cap, s, Replay);
    WriteAllKeepsSinks(s.sinks, s.stage.held);
    HeldIsKnown(cap, s);
    forall k, i | 0 <= k < |t.sinks| && 0 <= i < |t.emissions| ensures Lines(t, k, i) == Expected(t, k, i) {
      assert Lines(s, k, i) == Expected(s, k, i);
      WriteAllCounts(s.sinks, s.stage.held, k, EventOf(s, i));
      ReplayedWasStored(cap, s, i);
    }
    forall k | 0 <= k < |t.sinks| ensures Known(t, t.sinks[k].lines) {
      assert Known(s, s.sinks[k].lines);
      WriteAllKeepsKnown(s, s.sinks, s.stage.held, k);
    }
  }

  lemma StepIsSound(cap: nat, s: State, step: Step)
    requires Sound(cap, s) && Enabled(s, step)
    ensures Sound(cap, Next(cap, s, step))
  {
    hide Sound;
    match step {
      case Begin(kind) => BeginIsSound(cap, s, kind);
      case LookAtSinks(i) =>
        if s.sinks == [] {
          MoveIsSound(cap, s, i, NoSinks);
        } else {
          LiveIsSound(cap, s, i);
        }
      case LookAtFlag(i, seenSet) => MoveIsSound(cap, s, i, if seenSet then Refused else Admitted);
      case StoreStep(i) => StoreIsSound(cap, s, i);
      case AddSink(signals) => AddSinkIsSound(cap, s, signals);
      case Swap(_) => SwapAndTakeAreSound(cap, s, step);
      case Take => SwapAndTakeAreSound(cap, s, step);
      case Replay => ReplayIsSound(cap, s);
    }
  }

  lemma {:induction false} RunsAreSound(cap: nat, steps: seq<Step>)
    ensures Sound(cap, Run(cap, steps))
  {
    hide Sound, Next, Enabled;
    if steps == [] {
      StartIsSound(cap);
    } else {
      var s := Run(cap, steps[..|steps| - 1]);
      RunsAreSound(cap, steps[..|steps| - 1]);
      if Enabled(s, steps[|steps| - 1]) {
        StepIsSound(cap, s, steps[|steps| - 1]);
      } else {
        Stutter(cap, s, steps[|steps| - 1]);
      }
    }
  }

  lemma StartIsSound(cap: nat)
    ensures Sound(cap, START)
  {
  }

  lemma Stutter(cap: nat, s: State, step: Step)
    requires !Enabled(s, step)
    ensures Next(cap, s, step) == s
  {
  }

  // ---- At most once, and exactly when ---------------------------------------------------------

  ghost predicate IsFinished(fate: Fate) {
    fate.Stored? || fate.Live? || fate.Refused?
  }

  /** In every interleaving no event is written to a sink twice, none is written to a sink
      that does not accept it, and the buffer never exceeds its cap. */
  lemma AtMostOnce(cap: nat, steps: seq<Step>, k: nat, i: nat)
    requires var s := Run(cap, steps); k < |s.sinks| && i < |s.emissions|
    ensures var s := Run(cap, steps); Lines(s, k, i) <= 1
    ensures var s := Run(cap, steps); !SinkAccepts(s.sinks[k].signals, s.emissions[i].kind) ==> Lines(s, k, i) == 0
    ensures |Run(cap, steps).buffer| <= cap
  {
    hide Run;
    var s := Run(cap, steps);
    RunsAreSound(cap, steps);
    ReplayedWasStored(cap, s, i);
    assert Lines(s, k, i) == Expected(s, k, i);
  }

  /** In every interleaving, from the signals and kinds alone: a sink has log records only if
      its logs are on, and span events only if its traces are; and an emission that found the
      sink is written there exactly if its own signal is on. */
  lemma SignalsDecide(cap: nat, steps: seq<Step>, k: nat)
    requires k < |Run(cap, steps).sinks|
    ensures var sink := Run(cap, steps).sinks[k];
      forall ev :: ev in sink.lines ==>
        (ev.kind == LogRecord ==> sink.signals.logs) && (ev.kind == SpanEvent ==> sink.signals.traces)
    ensures var s := Run(cap, steps);
      forall i: nat :: i < |s.emissions| && s.emissions[i].fate.Live? && k < s.emissions[i].fate.seen ==>
        (Event(s.emissions[i].kind, i) in s.sinks[k].lines <==>
          if s.emissions[i].kind == LogRecord then s.sinks[k].signals.logs else s.sinks[k].signals.traces)
  {
    hide Run, BufferIsNewest, StoredOnce, Expected;
    var s := Run(cap, steps);
    RunsAreSound(cap, steps);
    var sink := s.sinks[k];
    forall ev | ev in sink.lines ensures if ev.kind == LogRecord then sink.signals.logs else sink.signals.traces {
      assert Known(s, sink.lines) && ev.fields < |s.emissions| && ev == EventOf(s, ev.fields);
      assert Lines(s, k, ev.fields) == Expected(s, k, ev.fields);
      ExpectedIsAccepted(s, k, ev.fields);
    }
    forall i: nat | i < |s.emissions| && s.emissions[i].fate.Live? && k < s.emissions[i].fate.seen
      ensures Event(s.emissions[i].kind, i) in sink.lines <==>
        if s.emissions[i].kind == LogRecord then sink.signals.logs else sink.signals.traces
    {
      assert Lines(s, k, i) == Expected(s, k, i);
      ExpectedIsAccepted(s, k, i);
    }
  }

  lemma ExpectedIsAccepted(s: State, k: nat, i: nat)
    requires k < |s.sinks| && i < |s.emissions|
    ensures var on := if s.emissions[i].kind == LogRecord then s.sinks[k].signals.logs else s.sinks[k].signals.traces;
      && (Expected(s, k, i) > 0 ==> on)
      && (on && s.emissions[i].fate.Live? && k < s.emissions[i].fate.seen ==> Expected(s, k, i) == 1)
  {
  }

  /** Event `i` was stored as number `p` of those stored before the drain, and fewer than
      `cap` were stored after it: it was in the buffer when the drain took it. */
  ghost predicate CaughtByDrain(cap: nat, s: State, i: nat)
    requires i < |s.emissions|
  {
    s.stage.Over? && s.stage.toSinks && s.stage.taken <= |s.stored|
    && exists p :: 0 <= p < s.stage.taken && s.stage.taken - p <= cap && s.stored[p] == EventOf(s, i)
  }

  lemma CaughtIsReplayed(cap: nat, s: State, i: nat)
    requires BufferIsNewest(cap, s) && s.stage.Over? && i < |s.emissions|
    ensures CaughtByDrain(cap, s, i) <==> EventOf(s, i) in s.stage.replayed
  {
    var ev, taken := EventOf(s, i), s.stage.taken;
    if s.stage.toSinks {
      var part := s.stored[..taken];
      NewestMembers(cap, part, ev);
      if p :| 0 <= p < |part| && |part| - p <= cap && part[p] == ev {
        assert s.stored[p] == ev;
      }
      if p :| 0 <= p < taken && taken - p <= cap && s.stored[p] == ev {
        assert part[p] == ev;
      }
    }
  }

  lemma NewestMembers<T>(cap: nat, s: seq<T>, x: T)
    ensures x in TraceBuffers.LastN(cap, s) <==> exists p :: 0 <= p < |s| && |s| - p <= cap && s[p] == x
  {
    var newest := TraceBuffers.LastN(cap, s);
    if p :| 0 <= p < |s| && |s| - p <= cap && s[p] == x {
      assert newest[p - (|s| - |newest|)] == x;
    }
    if q :| 0 <= q < |newest| && newest[q] == x {
      assert s[q + |s| - |newest|] == x;
    }
  }

  /** The exact guarantee, for every interleaving: a finished emission is written to an
      accepting sink (then exactly once) precisely when it found that sink already
      installed, or the drain caught it in the buffer and knew the sink. Otherwise it is
      lost to that sink. */
  lemma WrittenExactlyWhen(cap: nat, steps: seq<Step>, k: nat, i: nat)
    requires var s := Run(cap, steps); k < |s.sinks| && i < |s.emissions|
    requires var s := Run(cap, steps);
      IsFinished(s.emissions[i].fate) && SinkAccepts(s.sinks[k].signals, s.emissions[i].kind)
    ensures var s := Run(cap, steps);
      Lines(s, k, i) == 1 <==>
        (s.emissions[i].fate.Live? && k < s.emissions[i].fate.seen) || (CaughtByDrain(cap, s, i) && k < s.stage.seen)
    ensures var s := Run(cap, steps); Lines(s, k, i) in {0, 1}
  {
    hide Run, CaughtByDrain;
    var s := Run(cap, steps);
    RunsAreSound(cap, steps);
    AtMostOnce(cap, steps, k, i);
    assert Lines(s, k, i) == Expected(s, k, i);
    if s.stage.Over? {
      CaughtIsReplayed(cap, s, i);
      ReplayedWasStored(cap, s, i);
      assert EventOf(s, i) in s.stage.replayed <==> multiset(s.stage.replayed)[EventOf(s, i)] > 0;
    } else {
      NotCaught(cap, s, i);
    }
  }

  lemma NotCaught(cap: nat, s: State, i: nat)
    requires i < |s.emissions| && !s.stage.Over?
    ensures !CaughtByDrain(cap, s, i)
  {
  }

  // ---- From one point of a run to a later one ---------------------------------------------------

  function TakenAt(s: State): nat {
    match s.stage
    case Holding(taken, _) => taken
    case Over(_, taken, _, _) => taken
    case _ => |s.stored|
  }

  predicate IsTaken(s: State) {
    s.stage.Holding? || s.stage.Over?
  }

  ghost predicate Later(s: State, t: State) {
    && |s.emissions| <= |t.emissions| && |s.sinks| <= |t.sinks| && s.stored <= t.stored
    && (forall i :: 0 <= i < |s.emissions| ==> t.emissions[i].kind == s.emissions[i].kind)
    && (forall i :: 0 <= i < |s.emissions| && IsFinished(s.emissions[i].fate) ==> t.emissions[i] == s.emissions[i])
    && (forall k :: 0 <= k < |s.sinks| ==> t.sinks[k].signals == s.sinks[k].signals)
    && (IsTaken(s) ==> IsTaken(t) && TakenAt(t) == TakenAt(s))
    && TakenAt(s) <= TakenAt(t)
  }

  lemma StepIsLater(cap: nat, s: State, step: Step)
    requires SinksCounted(s) && TakenAt(s) <= |s.stored|
    ensures Later(s, Next(cap, s, step))
    ensures TakenAt(Next(cap, s, step)) <= |Next(cap, s, step).stored|
  {
    hide WriteAll, Store;
    if step.Replay? && s.stage.Holding? {
      WriteAllKeepsSinks(s.sinks, s.stage.held);
    }
  }

  lemma LaterIsTransitive(r: State, s: State, t: State)
    requires Later(r, s) && Later(s, t)
    ensures Later(r, t)
  {
  }

  lemma TakenInRange(cap: nat, s: State)
    requires BufferIsNewest(cap, s)
    ensures TakenAt(s) <= |s.stored|
  {
  }

  lemma {:induction false} RunsOnlyAdvance(cap: nat, before: seq<Step>, after: seq<Step>)
    ensures Later(Run(cap, before), Run(cap, before + after))
  {
    hide Later, Next, Run, BufferIsNewest, SinksCounted, StoredOnce, LinesAsExpected;
    if after == [] {
      assert before + after == before;
      SameIsLater(Run(cap, before));
    } else {
      var n := |after| - 1;
      RunsOnlyAdvance(cap, before, after[..n]);
      assert before + after == before + after[..n] + [after[n]];
      RunGrows(cap, before + after[..n], after[n]);
      RunsAreSound(cap, before + after[..n]);
      TakenInRange(cap, Run(cap, before + after[..n]));
      StepIsLater(cap, Run(cap, before + after[..n]), after[n]);
      LaterIsTransitive(Run(cap, before), Run(cap, before + after[..n]), Run(cap, before + after));
    }
  }

  lemma SameIsLater(s: State)
    ensures Later(s, s)
  {
  }

  // ---- Before an installation begins -------------------------------------------------------------

  /** No installer has taken a step yet. */
  ghost predicate NotBegun(steps: seq<Step>) {
    forall i :: 0 <= i < |steps| ==> !steps[i].AddSink? && !steps[i].Swap?
  }

  lemma {:induction false} NothingInstalledYet(cap: nat, steps: seq<Step>)
    requires NotBegun(steps)
    ensures var s := Run(cap, steps);
      && s.sinks == [] && s.stage == Waiting
      && forall i :: 0 <= i < |s.emissions| ==> !s.emissions[i].fate.Live? && !s.emissions[i].fate.Refused?
  {
    if steps != [] {
      NothingInstalledYet(cap, steps[..|steps| - 1]);
    }
  }

  /** An emission that finished before any installation began reaches every accepting sink
      of the draining installation exactly once, unless `cap` or more events were stored
      after it before the drain took the buffer. */
  lemma OnceIfFinishedBefore(cap: nat, before: seq<Step>, after: seq<Step>, k: nat, i: nat) returns (p: nat)
    requires NotBegun(before)
    requires var s := Run(cap, before); i < |s.emissions| && IsFinished(s.emissions[i].fate)
    requires var t := Run(cap, before + after);
      t.stage.Over? && t.stage.toSinks && k < t.stage.seen && k < |t.sinks| && i < |t.emissions|
      && SinkAccepts(t.sinks[k].signals, t.emissions[i].kind)
    ensures p < |Run(cap, before).stored| && Run(cap, before).stored[p] == EventOf(Run(cap, before), i)
    ensures var t := Run(cap, before + after); Lines(t, k, i) == if t.stage.taken - p <= cap then 1 else 0
  {
    hide Run, Later, IsTaken;
    var s, t := Run(cap, before), Run(cap, before + after);
    NothingInstalledYet(cap, before);
    RunsAreSound(cap, before);
    RunsAreSound(cap, before + after);
    RunsOnlyAdvance(cap, before, after);
    p := StoredAt(s, i);
    FinishedStays(s, t, i);
    assert t.stored[p] == EventOf(t, i) && p < t.stage.taken;
    WrittenExactlyWhen(cap, before + after, k, i);
    OnlyPosition(cap, t, i, p);
  }

  lemma StoredAt(s: State, i: nat) returns (p: nat)
    requires StoredOnce(s) && i < |s.emissions| && s.emissions[i].fate == Stored
    ensures p < |s.stored| && s.stored[p] == EventOf(s, i)
  {
    assert EventOf(s, i) in multiset(s.stored);
    p :| p < |s.stored| && s.stored[p] == EventOf(s, i);
  }

  lemma FinishedStays(s: State, t: State, i: nat)
    requires Later(s, t) && i < |s.emissions| && IsFinished(s.emissions[i].fate)
    ensures |s.emissions| <= |t.emissions| && t.emissions[i] == s.emissions[i] && s.stored <= t.stored
    ensures TakenAt(s) <= TakenAt(t) && (IsTaken(s) ==> TakenAt(t) == TakenAt(s))
  {
  }

  /** An event is stored at one position only, which decides whether the drain caught it. */
  lemma OnlyPosition(cap: nat, s: State, i: nat, p: nat)
    requires StoredOnce(s) && i < |s.emissions| && p < |s.stored| && s.stored[p] == EventOf(s, i)
    requires s.stage.Over? && s.stage.toSinks && s.stage.taken <= |s.stored|
    ensures CaughtByDrain(cap, s, i) <==> p < s.stage.taken && s.stage.taken - p <= cap
  {
    if q :| 0 <= q < s.stage.taken && s.stage.taken - q <= cap && s.stored[q] == EventOf(s, i) && p != q {
      if p < q {
        TwiceCounts(s.stored, p, q);
      } else {
        TwiceCounts(s.stored, q, p);
      }
    }
  }

  // ---- After an installation ended ---------------------------------------------------------------

  ghost predicate NewcomersAreLive(s: State, from: nat, sinks: nat) {
    && |s.sinks| >= sinks
    && forall i :: from <= i < |s.emissions| ==>
      s.emissions[i].fate == Starting || (s.emissions[i].fate.Live? && s.emissions[i].fate.seen >= sinks)
  }

  lemma NewcomersStep(cap: nat, s: State, step: Step, from: nat, sinks: nat)
    requires sinks > 0 && from <= |s.emissions| && NewcomersAreLive(s, from, sinks)
    ensures NewcomersAreLive(Next(cap, s, step), from, sinks)
    ensures |Next(cap, s, step).emissions| >= from
  {
    hide WriteAll, Store;
    if step.Replay? && s.stage.Holding? {
      WriteAllKeepsSinks(s.sinks, s.stage.held);
    }
  }

  lemma {:induction false} NewcomersWriteAtOnce(cap: nat, before: seq<Step>, after: seq<Step>)
    requires Run(cap, before).sinks != []
    ensures var s := Run(cap, before);
      NewcomersAreLive(Run(cap, before + after), |s.emissions|, |s.sinks|)
        && |Run(cap, before + after).emissions| >= |s.emissions|
  {
    hide Run, Next;
    var s := Run(cap, before);
    if after == [] {
      assert before + after == before;
    } else {
      var n := |after| - 1;
      assert before + after == before + after[..n] + [after[n]];
      RunGrows(cap, before + after[..n], after[n]);
      NewcomersWriteAtOnce(cap, before, after[..n]);
      NewcomersStep(cap, Run(cap, before + after[..n]), after[n], |s.emissions|, |s.sinks|);
    }
  }

  /** An emission that started once sinks were installed reaches each of them that accepts
      it exactly once, whatever else is going on; later sinks get it once or not at all. */
  lemma OnceIfStartedAfter(cap: nat, before: seq<Step>, after: seq<Step>, k: nat, i: nat)
    requires k < |Run(cap, before).sinks| && |Run(cap, before).emissions| <= i
    requires var t := Run(cap, before + after);
      i < |t.emissions| && k < |t.sinks| && IsFinished(t.emissions[i].fate)
        && SinkAccepts(t.sinks[k].signals, t.emissions[i].kind)
    ensures Lines(Run(cap, before + after), k, i) == 1
  {
    hide Run;
    NewcomersWriteAtOnce(cap, before, after);
    WrittenExactlyWhen(cap, before + after, k, i);
  }

  // ---- What is lost --------------------------------------------------------------------------------

  /** An event stored after the drain took the buffer never reaches any sink, however long
      the run goes on. */
  lemma StoredTooLateIsLost(cap: nat, before: seq<Step>, after: seq<Step>, k: nat, i: nat, p: nat)
    requires var s := Run(cap, before);
      IsTaken(s) && i < |s.emissions| && s.emissions[i].fate == Stored && TakenAt(s) <= p < |s.stored|
        && s.stored[p] == EventOf(s, i)
    requires var t := Run(cap, before + after); k < |t.sinks| && i < |t.emissions|
    ensures Lines(Run(cap, before + after), k, i) == 0
  {
    hide Run, Later;
    var s, t := Run(cap, before), Run(cap, before + after);
    RunsAreSound(cap, before + after);
    RunsOnlyAdvance(cap, before, after);
    FinishedStays(s, t, i);
    assert t.stored[p] == EventOf(t, i);
    if SinkAccepts(t.sinks[k].signals, t.emissions[i].kind) {
      WrittenExactlyWhen(cap, before + after, k, i);
      if t.stage.Over? && t.stage.toSinks {
        OnlyPosition(cap, t, i, p);
      }
    } else {
      AtMostOnce(cap, before + after, k, i);
    }
  }

  /** Such events exist: with one emitter and one installation, an emission that looks at the
      sinks before the installation and at the flag after the swap is lost. */
  lemma StraddlingEmissionIsLost(cap: nat, signals: Signals, kind: RecordKind)
    requires SinkAccepts(signals, kind)
    ensures var s :=
      Run(cap, [Begin(kind), LookAtSinks(0), AddSink(signals), Swap(true), LookAtFlag(0, true), Take, Replay]);
      && |s.sinks| == 1 && |s.emissions| == 1 && s.stage.Over? && s.stage.toSinks
      && IsFinished(s.emissions[0].fate) && SinkAccepts(s.sinks[0].signals, s.emissions[0].kind)
      && s.sinks[0].lines == []
  {
    hide Run, Next;
    EmptyRun(cap);
    var s3 := State([Sink(signals, [])], [], Waiting, [Emission(kind, NoSinks)], []);
    var r3 := [] + [Begin(kind)] + [LookAtSinks(0)] + [AddSink(signals)];
    RunGrows(cap, [], Begin(kind));
    RunGrows(cap, [] + [Begin(kind)], LookAtSinks(0));
    RunGrows(cap, [] + [Begin(kind)] + [LookAtSinks(0)], AddSink(signals));
    LooksTooEarly(cap, signals, kind);
    RunGrows(cap, r3, Swap(true));
    RunGrows(cap, r3 + [Swap(true)], LookAtFlag(0, true));
    RunGrows(cap, r3 + [Swap(true)] + [LookAtFlag(0, true)], Take);
    RunGrows(cap, r3 + [Swap(true)] + [LookAtFlag(0, true)] + [Take], Replay);
    ReadsTooLate(cap, s3, kind);
    assert r3 + [Swap(true)] + [LookAtFlag(0, true)] + [Take] + [Replay] ==
      [Begin(kind), LookAtSinks(0), AddSink(signals), Swap(true), LookAtFlag(0, true), Take, Replay];
  }

  lemma LooksTooEarly(cap: nat, signals: Signals, kind: RecordKind)
    ensures Next(cap, Next(cap, Next(cap, START, Begin(kind)), LookAtSinks(0)), AddSink(signals)) ==
            State([Sink(signals, [])], [], Waiting, [Emission(kind, NoSinks)], [])
  {
    assert [] + [Emission(kind, Starting)] == [Emission(kind, Starting)];
  }

  lemma ReadsTooLate(cap: nat, s: State, kind: RecordKind)
    requires s.stage == Waiting && s.sinks != [] && s.buffer == [] && s.stored == []
      && s.emissions == [Emission(kind, NoSinks)]
    ensures Next(cap, Next(cap, Next(cap, Next(cap, s, Swap(true)), LookAtFlag(0, true)), Take), Replay) ==
            State(s.sinks, [], Over(true, 0, [], |s.sinks|), [Emission(kind, Refused)], [])
  {
  }

  lemma EmptyRun(cap: nat)
    ensures Run(cap, []) == START
  {
  }
}
