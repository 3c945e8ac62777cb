/** The file-sink layer (crates/aspect-cli/src/trace.rs): live emission, the event buffer
    that precedes installation, and its replay or disposal. Unlike the exporters of
    `TraceBuffers`, the sinks, the flag and the buffer are guarded separately. */
module FileSinks {
  import opened Prelude
  import TraceBuffers

  const FILE_SINK_BUFFER_CAP: nat := 50_000

  datatype RecordKind = LogRecord | SpanEvent

  datatype Signals = Signals(logs: bool, traces: bool)

  datatype Event<T> = Event(kind: RecordKind, fields: T)

  /** A sink, with what has been written to it so far. */
  datatype Sink<T> = Sink(signals: Signals, lines: seq<Event<T>>)

  datatype Spec = Otlp(builds: bool) | File(signals: Signals, opens: bool)

  predicate SinkAccepts(signals: Signals, kind: RecordKind) {
    match kind
    case LogRecord => signals.logs
    case SpanEvent => signals.traces
  }

  function Write<T>(sink: Sink<T>, ev: Event<T>): Sink<T> {
    if SinkAccepts(sink.signals, ev.kind) then sink.(lines := sink.lines + [ev]) else sink
  }

  function WriteEvent<T>(sinks: seq<Sink<T>>, ev: Event<T>): seq<Sink<T>> {
    seq(|sinks|, i requires 0 <= i < |sinks| => Write(sinks[i], ev))
  }

  function WriteAll<T>(sinks: seq<Sink<T>>, events: seq<Event<T>>): seq<Sink<T>> {
    if events == [] then sinks
    else WriteEvent(WriteAll(sinks, events[..|events| - 1]), events[|events| - 1])
  }

  function Store<T>(cap: nat, buffer: seq<Event<T>>, ev: Event<T>): seq<Event<T>> {
    TraceBuffers.LastN(TraceBuffers.Max(cap, |buffer|), buffer + [ev])
  }

  /** The kind of record that events of a target are; none for targets of no interest. */
  function KindOf(target: string): Option<RecordKind> {
    if target == "axl.log" then Some(LogRecord) else if target == "axl.event" then Some(SpanEvent) else None
  }

  /** The sinks that `specs` install: those of the file specs before the first that fails. */
  function NewSinks<T>(specs: seq<Spec>): seq<Sink<T>> {
    if specs == [] then []
    else
      match specs[0]
      case Otlp(builds) => if builds then NewSinks(specs[1..]) else []
      case File(signals, opens) => if opens then [Sink(signals, [])] + NewSinks(specs[1..]) else []
  }

  predicate AllActivate(specs: seq<Spec>) {
    forall spec :: spec in specs ==> if spec.File? then spec.opens else spec.builds
  }

  predicate AnyFile(specs: seq<Spec>) {
    exists i :: 0 <= i < |specs| && specs[i].File?
  }

  /** Every sink gets, in their order, the log records if its logs are on, and the span
      events if its traces are. */
  lemma {:induction false} ReplayKeepsOrder<T(!new)>(sinks: seq<Sink<T>>, events: seq<Event<T>>, k: nat)
    requires k < |sinks|
    ensures |WriteAll(sinks, events)| == |sinks|
    ensures var signals, passes := sinks[k].signals, WriteAll(sinks, events)[k];
      && passes.signals == signals
      && passes.lines == sinks[k].lines +
        Filter((ev: Event<T>) => (ev.kind == LogRecord && signals.logs) || (ev.kind == SpanEvent && signals.traces),
          events)
  {
    var signals := sinks[k].signals;
    var passes := (ev: Event<T>) => (ev.kind == LogRecord && signals.logs) || (ev.kind == SpanEvent && signals.traces);
    if events == [] {
      NoneFilter(passes, []);
    } else {
      var n := |events| - 1;
      ReplayKeepsOrder(sinks, events[..n], k);
      FilterSnoc(passes, events[..n], events[n]);
      assert events == events[..n] + [events[n]];
    }
  }

  /** An installation's new sinks: those of the file specs before the first spec that fails,
      in their order, empty. */
  lemma {:induction false} NewSinksStopAtFailure<T>(specs: seq<Spec>, n: nat)
    requires n <= |specs| && (n < |specs| ==> !(if specs[n].File? then specs[n].opens else specs[n].builds))
    requires forall i :: 0 <= i < n ==> if specs[i].File? then specs[i].opens else specs[i].builds
    ensures var files, sinks: seq<Sink<T>> := Filter((spec: Spec) => spec.File?, specs[..n]), NewSinks(specs);
      |sinks| == |files|
      && forall i :: 0 <= i < |files| ==> files[i].File? && sinks[i] == Sink(files[i].signals, [])
    decreases n
  {
    if n > 0 {
      NewSinksStopAtFailure<T>(specs[1..], n - 1);
      assert specs[..n][1..] == specs[1..][..n - 1];
    }
  }

  class FileSinksLayer<T> {
    var sinks: seq<Sink<T>>
    var buffer: seq<Event<T>>
    var drained: bool

    constructor ()
      ensures sinks == [] && buffer == [] && !drained
    {
      sinks, buffer, drained := [], [], false;
    }

    // ---- Sections under one lock, and accesses to the flag ------------------------------

    /** The section of an emission under the sinks' lock. */
    method OfferToSinks(ev: Event<T>) returns (installed: bool)
      modifies this`sinks
      ensures installed == (old(sinks) != [])
      ensures sinks == WriteEvent(old(sinks), ev)
    {
      installed := |sinks| > 0;
      var i := 0;
      while i < |sinks|
        invariant 0 <= i <= |sinks| == old(|sinks|)
        invariant forall j :: 0 <= j < i ==> sinks[j] == Write(old(sinks)[j], ev)
        invariant forall j :: i <= j < |sinks| ==> sinks[j] == old(sinks)[j]
      {
        if SinkAccepts(sinks[i].signals, ev.kind) {
          sinks := sinks[i := sinks[i].(lines := sinks[i].lines + [ev])];
        }
        i := i + 1;
      }
    }

    /** The section of an emission under the buffer's lock. */
    method StoreEvent(ev: Event<T>)
      modifies this`buffer
      ensures buffer == Store(FILE_SINK_BUFFER_CAP, old(buffer), ev)
    {
      if |buffer| >= FILE_SINK_BUFFER_CAP {
        buffer := buffer[1..];
      }
      buffer := buffer + [ev];
    }

    method SwapDrained() returns (was: bool)
      modifies this`drained
      ensures was == old(drained) && drained
    {
      was := drained;
      drained := true;
    }

    method TakeBuffer() returns (events: seq<Event<T>>)
      modifies this`buffer
      ensures events == old(buffer) && buffer == []
    {
      events := buffer;
      buffer := [];
    }

    /** The section of a drain under the sinks' lock. */
    method ReplayToSinks(events: seq<Event<T>>)
      modifies this`sinks
      ensures sinks == WriteAll(old(sinks), events)
    {
      var i := 0;
      while i < |events|
        invariant 0 <= i <= |events| && sinks == WriteAll(old(sinks), events[..i])
      {
        assert events[..i + 1][..i] == events[..i];
        var _ := OfferToSinks(events[i]);
        i := i + 1;
      }
      assert events[..i] == events;
    }

    method ActivateFileSpec(signals: Signals, opens: bool) returns (ok: bool)
      modifies this`sinks
      ensures ok == opens && sinks == old(sinks) + if opens then [Sink(signals, [])] else []
    {
      if !opens {
        return false;
      }
      sinks := sinks + [Sink(signals, [])];
      ok := true;
    }

    // ---- Whole calls, when nothing interferes --------------------------------------------

    method OnEvent(target: string, fields: T)
      modifies this
      ensures drained == old(drained)
      ensures KindOf(target).None? ==> sinks == old(sinks) && buffer == old(buffer)
      ensures KindOf(target).Some? ==>
        var ev := Event(KindOf(target).value, fields);
        && sinks == WriteEvent(old(sinks), ev)
        && buffer == if old(sinks) == [] && !drained then Store(FILE_SINK_BUFFER_CAP, old(buffer), ev) else old(buffer)
      ensures |sinks| == |old(sinks)| && forall k :: 0 <= k < |sinks| ==> sinks[k].signals == old(sinks)[k].signals
      ensures target == "axl.log" ==> forall k :: 0 <= k < |sinks| ==>
        sinks[k].lines == old(sinks)[k].lines + if sinks[k].signals.logs then [Event(LogRecord, fields)] else []
      ensures target == "axl.event" ==> forall k :: 0 <= k < |sinks| ==>
        sinks[k].lines == old(sinks)[k].lines + if sinks[k].signals.traces then [Event(SpanEvent, fields)] else []
      ensures target != "axl.log" && target != "axl.event" ==> sinks == old(sinks) && buffer == old(buffer)
      ensures target == "axl.log" || target == "axl.event" ==>
        var ev := Event(if target == "axl.log" then LogRecord else SpanEvent, fields);
        buffer ==
          if old(sinks) != [] || drained then old(buffer)
          else if |old(buffer)| >= 50_000 then old(buffer)[1..] + [ev]
          else old(buffer) + [ev]
    {
      var kind := KindOf(target);
      if kind.None? {
        return;
      }
      var installed := OfferToSinks(Event(kind.value, fields));
      if installed || drained {
        return;
      }
      StoreEvent(Event(kind.value, fields));
    }

    method DrainBufferToSinks()
      modifies this
      ensures drained
      ensures old(drained) ==> sinks == old(sinks) && buffer == old(buffer)
      ensures !old(drained) ==>
        buffer == [] && sinks == if old(sinks) == [] then [] else WriteAll(old(sinks), old(buffer))
    {
      var was := SwapDrained();
      if was {
        return;
      }
      var events := TakeBuffer();
      if |events| == 0 || |sinks| == 0 {
        return;
      }
      ReplayToSinks(events);
    }

    method DiscardBuffer()
      modifies this`drained, this`buffer
      ensures drained && buffer == if old(drained) then old(buffer) else []
    {
      var was := SwapDrained();
      if !was {
        buffer := [];
      }
    }

    /** The file half of an installation. Nothing happens for an empty list; a spec that
        fails leaves the sinks before it in place and the buffer alone. */
    method InstallLate(specs: seq<Spec>) returns (ok: bool)
      modifies this
      ensures ok == AllActivate(specs)
      ensures specs == [] || !ok ==>
        sinks == old(sinks) + NewSinks(specs) && buffer == old(buffer) && drained == old(drained)
      ensures specs != [] && ok ==>
        && drained
        && buffer == (if old(drained) then old(buffer) else [])
        && sinks ==
           if AnyFile(specs) && !old(drained) then WriteAll(old(sinks) + NewSinks(specs), old(buffer))
           else old(sinks) + NewSinks(specs)
    {
      if specs == [] {
        return true;
      }
      var anyFile, i := false, 0;
      while i < |specs|
        invariant 0 <= i <= |specs|
        invariant anyFile <==> exists j :: 0 <= j < i && specs[j].File?
        invariant AllActivate(specs[..i])
        invariant sinks + NewSinks(specs[i..]) == old(sinks) + NewSinks(specs)
        invariant anyFile ==> sinks != []
        invariant buffer == old(buffer) && drained == old(drained)
      {
        assert specs[i..][1..] == specs[i + 1..] && specs[i] in specs;
        ghost var tail: seq<Sink<T>> := NewSinks(specs[i + 1..]);
        match specs[i] {
          case Otlp(builds) =>
            if !builds {
              return false;
            }
          case File(signals, opens) =>
            ok := ActivateFileSpec(signals, opens);
            if !ok {
              return false;
            }
            anyFile := true;
            assert (old(sinks) + NewSinks(specs)) == sinks + tail;
        }
        i := i + 1;
      }
      assert specs[..i] == specs && specs[i..] == [] && sinks == sinks + NewSinks(specs[i..]);
      assert anyFile <==> AnyFile(specs);
      if anyFile {
        DrainBufferToSinks();
      } else {
        DiscardBuffer();
      }
      ok := true;
    }
  }
}
