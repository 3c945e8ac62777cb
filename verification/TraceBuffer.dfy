/** Telemetry that is held back until exporters are installed
    (crates/aspect-cli/src/trace_buffer.rs): the sections the two buffering exporters run
    under their lock. */
module TraceBuffers {

  const BUFFER_CAP: nat := 50_000

  /** Spans are evicted in bulk, log records one at a time. */
  datatype Kind = Spans | Logs

  /** What the lock guards; an exporter is known by a handle. */
  datatype Shared<T, E> = Shared(buffer: seq<T>, late: seq<E>, replayed: bool)

  function Max(a: nat, b: nat): nat {
    if a < b then b else a
  }

  function LastN<T>(n: nat, s: seq<T>): (r: seq<T>)
    ensures |r| == if |s| < n then |s| else n
  {
    if |s| <= n then s else s[|s| - n..]
  }

  /** How many records the buffer may hold once `batch` is in it. */
  function Room<T>(kind: Kind, cap: nat, buffer: seq<T>, batch: seq<T>): nat {
    match kind
    case Spans => Max(cap, Max(|buffer|, |batch|))
    case Logs => Max(cap, |buffer|)
  }

  /** The newest records that fit. */
  function Push<T>(kind: Kind, cap: nat, buffer: seq<T>, batch: seq<T>): seq<T> {
    LastN(Room(kind, cap, buffer, batch), buffer + batch)
  }

  function AfterExport<T, E>(kind: Kind, cap: nat, st: Shared<T, E>, batch: seq<T>): Shared<T, E> {
    if st.replayed then st else st.(buffer := Push(kind, cap, st.buffer, batch))
  }

  function AfterInstall<T, E>(st: Shared<T, E>, exporters: seq<E>): Shared<T, E> {
    Shared([], st.late + exporters, true)
  }

  /** Evicting as many of the oldest as the batch lacks room for leaves the newest. */
  lemma BulkEviction<T>(cap: nat, buffer: seq<T>, batch: seq<T>, drained: nat)
    requires var avail := if |buffer| < cap then cap - |buffer| else 0;
      drained == if |batch| <= avail then 0 else if |batch| - avail < |buffer| then |batch| - avail else |buffer|
    ensures buffer[drained..] + batch == Push(Spans, cap, buffer, batch)
  {
    assert buffer[drained..] + batch == (buffer + batch)[drained..];
  }

  class BufferingSpanExporter<T, E> {
    var buffer: seq<T>
    var late: seq<E>
    var replayed: bool

    function Value(): Shared<T, E>
      reads this
    {
      Shared(buffer, late, replayed)
    }

    constructor ()
      ensures Value() == Shared([], [], false)
    {
      buffer, late, replayed := [], [], false;
    }

    /** The locked section of an export: buffers the batch, or hands out the exporters
        that are to receive it. */
    method ExportLocked(batch: seq<T>) returns (targets: seq<E>)
      modifies this
      ensures Value() == AfterExport(Spans, BUFFER_CAP, old(Value()), batch)
      ensures targets == if old(replayed) then old(late) else []
      ensures !old(replayed) && |old(buffer)| <= 50_000 && |batch| <= 50_000 ==>
        |buffer| == if |old(buffer)| + |batch| < 50_000 then |old(buffer)| + |batch| else 50_000
    {
      hide Push;
      if !replayed {
        ghost var drained := 0;
        var avail := if |buffer| < BUFFER_CAP then BUFFER_CAP - |buffer| else 0;
        if |batch| > avail {
          var dropN := |batch| - avail;
          var drainN := if dropN < |buffer| then dropN else |buffer|;
          buffer := buffer[drainN..];
          drained := drainN;
        }
        buffer := buffer + batch;
        BulkEviction(BUFFER_CAP, old(buffer), batch, drained);
        return [];
      }
      targets := late;
    }

    /** The locked section of an installation: takes the buffer for replay. */
    method InstallLocked(exporters: seq<E>) returns (drained: seq<T>)
      modifies this
      ensures Value() == AfterInstall(old(Value()), exporters)
      ensures drained == old(buffer)
    {
      var i := 0;
      while i < |exporters|
        invariant 0 <= i <= |exporters| && late == old(late) + exporters[..i]
        invariant buffer == old(buffer)
      {
        late := late + [exporters[i]];
        i := i + 1;
      }
      assert exporters[..i] == exporters;
      replayed := true;
      drained := buffer;
      buffer := [];
    }
  }

  class BufferingLogExporter<T, E> {
    var buffer: seq<T>
    var late: seq<E>
    var replayed: bool

    function Value(): Shared<T, E>
      reads this
    {
      Shared(buffer, late, replayed)
    }

    constructor ()
      ensures Value() == Shared([], [], false)
    {
      buffer, late, replayed := [], [], false;
    }

    method ExportLocked(batch: seq<T>) returns (targets: seq<E>)
      modifies this
      ensures Value() == AfterExport(Logs, BUFFER_CAP, old(Value()), batch)
      ensures targets == if old(replayed) then old(late) else []
      ensures !old(replayed) && |old(buffer)| <= 50_000 ==>
        |buffer| == if |old(buffer)| + |batch| < 50_000 then |old(buffer)| + |batch| else 50_000
    {
      if !replayed {
        var i := 0;
        while i < |batch|
          invariant 0 <= i <= |batch| && buffer == Push(Logs, BUFFER_CAP, old(buffer), batch[..i])
          invariant late == old(late) && !replayed
        {
          assert old(buffer) + batch[..i + 1] == old(buffer) + batch[..i] + [batch[i]];
          if |buffer| >= BUFFER_CAP {
            buffer := buffer[1..];
          }
          buffer := buffer + [batch[i]];
          i := i + 1;
        }
        assert batch[..i] == batch;
        return [];
      }
      targets := late;
    }

    method InstallLocked(exporters: seq<E>) returns (drained: seq<T>)
      modifies this
      ensures Value() == AfterInstall(old(Value()), exporters)
      ensures drained == old(buffer)
    {
      var i := 0;
      while i < |exporters|
        invariant 0 <= i <= |exporters| && late == old(late) + exporters[..i]
        invariant buffer == old(buffer)
      {
        late := late + [exporters[i]];
        i := i + 1;
      }
      assert exporters[..i] == exporters;
      replayed := true;
      drained := buffer;
      buffer := [];
    }
  }
}
