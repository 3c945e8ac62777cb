/** What the buffering exporters keep over every run, and what every installed exporter
    is handed. */
module TraceBufferTheory {
  import opened Prelude
  import opened TraceBuffers

  // ---- Eviction over many batches -------------------------------------------------------

  function Biggest<T>(batches: seq<seq<T>>): (n: nat)
    ensures forall i :: 0 <= i < |batches| ==> |batches[i]| <= n
    ensures n == 0 || exists i :: 0 <= i < |batches| && |batches[i]| == n
  {
    if batches == [] then 0 else Max(Biggest(batches[..|batches| - 1]), |batches[|batches| - 1]|)
  }

  /** The buffer after a series of batches, pushed one by one. */
  function Pushed<T>(kind: Kind, cap: nat, batches: seq<seq<T>>): seq<T> {
    if batches == [] then [] else Push(kind, cap, Pushed(kind, cap, batches[..|batches| - 1]), batches[|batches| - 1])
  }

  function Capacity<T>(kind: Kind, cap: nat, batches: seq<seq<T>>): nat {
    if kind.Logs? then cap else Max(cap, Biggest(batches))
  }

  lemma BatchAppended<T>(batches: seq<seq<T>>)
    requires batches != []
    ensures Flatten(batches) == Flatten(batches[..|batches| - 1]) + batches[|batches| - 1]
  {
    FlattenSnoc(batches[..|batches| - 1], batches[|batches| - 1]);
    assert batches == batches[..|batches| - 1] + [batches[|batches| - 1]];
  }

  lemma {:induction false} BiggestFits<T>(batches: seq<seq<T>>)
    ensures Biggest(batches) <= |Flatten(batches)|
  {
    if batches != [] {
      BiggestFits(batches[..|batches| - 1]);
      BatchAppended(batches);
    }
  }

  lemma LastOfLast<T>(m: nat, n: nat, s: seq<T>, t: seq<T>)
    requires n <= m + |t| || |s| <= m
    ensures LastN(n, LastN(m, s) + t) == LastN(n, s + t)
  {
  }

  /** The log buffer holds exactly the newest `cap` records submitted; the span buffer the
      newest that fit into the cap or into the biggest batch so far, whichever is larger. */
  lemma {:induction false} BufferHoldsTheNewest<T>(kind: Kind, cap: nat, batches: seq<seq<T>>)
    ensures Pushed(kind, cap, batches) == LastN(Capacity(kind, cap, batches), Flatten(batches))
  {
    if batches != [] {
      var before, batch := batches[..|batches| - 1], batches[|batches| - 1];
      BufferHoldsTheNewest(kind, cap, before);
      BiggestFits(before);
      BatchAppended(batches);
      var all, m := Flatten(before), Capacity(kind, cap, before);
      var room := Room(kind, cap, LastN(m, all), batch);
      LastOfLast(m, room, all, batch);
      assert LastN(room, all + batch) == LastN(Capacity(kind, cap, batches), all + batch);
    }
  }

  /** Bulk eviction refines one-at-a-time eviction exactly while no batch exceeds the cap;
      the span buffer is bounded by the larger of the cap and the biggest batch, and
      outgrows the cap as soon as one batch does. */
  lemma SpansRefineLogs<T>(cap: nat, batches: seq<seq<T>>)
    ensures Pushed(Spans, cap, batches) == Pushed(Logs, cap, batches) <==>
      forall i :: 0 <= i < |batches| ==> |batches[i]| <= cap
    ensures |Pushed(Logs, cap, batches)| <= cap
    ensures |Pushed(Spans, cap, batches)| <= Max(cap, Biggest(batches))
    ensures |Pushed(Spans, cap, batches)| > cap <==> Biggest(batches) > cap
  {
    BufferHoldsTheNewest(Spans, cap, batches);
    BufferHoldsTheNewest(Logs, cap, batches);
    BiggestFits(batches);
  }

  // ---- The protocol -----------------------------------------------------------------------

  /** A call that left its locked section and still has exporters to visit, in order. */
  datatype Call<T> = Call(targets: seq<nat>, records: seq<T>)

  /** Exporters are numbered as they are installed; `delivered[e]` is what `e` was handed. */
  datatype State<T> = State(shared: Shared<T, nat>, calls: seq<Call<T>>, delivered: seq<seq<T>>)

  /** One atomic step of some thread: the locked section of an export or of an
      installation, or call `call` handing its records to the next exporter. */
  datatype Step<T> = Export(batch: seq<T>) | Install(count: nat) | Deliver(call: nat)

  function Numbers(from: nat, count: nat): (r: seq<nat>)
    ensures |r| == count && forall i :: 0 <= i < count ==> r[i] == from + i
  {
    if count == 0 then [] else Numbers(from, count - 1) + [from + count - 1]
  }

  function Nothing<T>(count: nat): (r: seq<seq<T>>)
    ensures |r| == count && forall i :: 0 <= i < count ==> r[i] == []
  {
    if count == 0 then [] else Nothing(count - 1) + [[]]
  }

  predicate CanDeliver<T>(s: State<T>, call: nat) {
    call < |s.calls| && s.calls[call].targets != [] && s.calls[call].targets[0] < |s.delivered|
  }

  /** A delivery nobody is waiting to make changes nothing. */
  function Next<T>(kind: Kind, cap: nat, s: State<T>, step: Step<T>): State<T> {
    match step
    case Export(batch) =>
      var calls := if s.shared.replayed then s.calls + [Call(s.shared.late, batch)] else s.calls;
      State(AfterExport(kind, cap, s.shared, batch), calls, s.delivered)
    case Install(count) =>
      var exporters := Numbers(|s.shared.late|, count);
      var calls := if s.shared.buffer == [] then s.calls else s.calls + [Call(exporters, s.shared.buffer)];
      State(AfterInstall(s.shared, exporters), calls, s.delivered + Nothing(count))
    case Deliver(call) =>
      if !CanDeliver(s, call) then s
      else
        var c := s.calls[call];
        var e := c.targets[0];
        State(s.shared, s.calls[call := c.(targets := c.targets[1..])], s.delivered[e := s.delivered[e] + c.records])
  }

  /** The state after a run: any interleaving is one such sequence of steps. */
  function Run<T>(kind: Kind, cap: nat, steps: seq<Step<T>>): State<T> {
    if steps == [] then State(Shared([], [], false), [], [])
    else Next(kind, cap, Run(kind, cap, steps[..|steps| - 1]), steps[|steps| - 1])
  }

  // ---- What each exporter is owed -----------------------------------------------------------

  function Batches<T>(steps: seq<Step<T>>): seq<seq<T>> {
    if steps == [] then []
    else
      var before, last := Batches(steps[..|steps| - 1]), steps[|steps| - 1];
      if last.Export? then before + [last.batch] else before
  }

  function Installed<T>(steps: seq<Step<T>>): nat {
    if steps == [] then 0
    else
      var before, last := Installed(steps[..|steps| - 1]), steps[|steps| - 1];
      if last.Install? then before + last.count else before
  }

  predicate Started<T>(steps: seq<Step<T>>) {
    exists i :: 0 <= i < |steps| && steps[i].Install?
  }

  /** Records accepted before the first installation and not evicted. */
  function Kept<T>(kind: Kind, cap: nat, steps: seq<Step<T>>): seq<T> {
    var batches := Batches(steps);
    LastN(Capacity(kind, cap, batches), Flatten(batches))
  }

  /** What exporter `e` must be handed over a run: what was kept when it was installed,
      unless an earlier installation took that, and everything accepted since. */
  function Owed<T>(kind: Kind, cap: nat, steps: seq<Step<T>>, e: nat): seq<T> {
    if steps == [] then []
    else
      var before, last := steps[..|steps| - 1], steps[|steps| - 1];
      match last
      case Export(batch) => if e < Installed(before) then Owed(kind, cap, before, e) + batch else []
      case Install(count) =>
        if e < Installed(before) then Owed(kind, cap, before, e)
        else if e < Installed(before) + count && !Started(before) then Kept(kind, cap, before)
        else []
      case Deliver(_) => Owed(kind, cap, before, e)
  }

  /** How often `e` occurs among the exporters a call still has to visit. */
  function Visits(targets: seq<nat>, e: nat): nat {
    if targets == [] then 0
    else Visits(targets[..|targets| - 1], e) + if targets[|targets| - 1] == e then 1 else 0
  }

  function Times<T>(n: nat, records: seq<T>): multiset<T> {
    if n == 0 then multiset{} else Times(n - 1, records) + multiset(records)
  }

  function PendingFor<T>(calls: seq<Call<T>>, e: nat): multiset<T> {
    if calls == [] then multiset{}
    else
      var c := calls[|calls| - 1];
      PendingFor(calls[..|calls| - 1], e) + Times(Visits(c.targets, e), c.records)
  }

  ghost predicate Quiescent<T>(s: State<T>) {
    forall i :: 0 <= i < |s.calls| ==> s.calls[i].targets == []
  }

  lemma {:induction false} VisitsHead(targets: seq<nat>, e: nat)
    requires targets != []
    ensures Visits(targets, e) == Visits(targets[1..], e) + if targets[0] == e then 1 else 0
  {
    if |targets| > 1 {
      VisitsHead(targets[..|targets| - 1], e);
      assert targets[..|targets| - 1][1..] == targets[1..][..|targets| - 2];
    }
  }

  lemma {:induction false} VisitsOfNumbers(from: nat, count: nat, e: nat)
    ensures Visits(Numbers(from, count), e) == if from <= e < from + count then 1 else 0
  {
    if count > 0 {
      VisitsOfNumbers(from, count - 1, e);
      assert Numbers(from, count)[..count - 1] == Numbers(from, count - 1);
    }
  }

  lemma PendingConcat<T>(calls: seq<Call<T>>, c: Call<T>, e: nat)
    ensures PendingFor(calls + [c], e) == PendingFor(calls, e) + Times(Visits(c.targets, e), c.records)
  {
    assert (calls + [c])[..|calls|] == calls;
  }

  lemma OneVisit<T>(n: nat, records: seq<T>)
    ensures Times(n + 1, records) == Times(n, records) + multiset(records)
    ensures Times(1, records) == multiset(records)
  {
    assert Times(0, records) == multiset{};
  }

  /** Handing a call's records to its next exporter moves them out of what is pending. */
  lemma {:induction false} PendingDelivered<T>(calls: seq<Call<T>>, i: nat, e: nat)
    requires i < |calls| && calls[i].targets != []
    ensures var after := calls[i := calls[i].(targets := calls[i].targets[1..])];
      PendingFor(calls, e) ==
      PendingFor(after, e) + if calls[i].targets[0] == e then multiset(calls[i].records) else multiset{}
  {
    var n := |calls| - 1;
    var after := calls[i := calls[i].(targets := calls[i].targets[1..])];
    if i == n {
      assert after[..n] == calls[..n];
      VisitsHead(calls[i].targets, e);
      if calls[i].targets[0] == e {
        OneVisit(Visits(calls[i].targets[1..], e), calls[i].records);
      }
    } else {
      PendingDelivered(calls[..n], i, e);
      assert after[..n] == calls[..n][i := calls[i].(targets := calls[i].targets[1..])];
    }
  }

  lemma {:induction false} QuiescentHasNothingPending<T>(calls: seq<Call<T>>, e: nat)
    requires forall i :: 0 <= i < |calls| ==> calls[i].targets == []
    ensures PendingFor(calls, e) == multiset{}
  {
    if calls != [] {
      QuiescentHasNothingPending(calls[..|calls| - 1], e);
    }
  }

  // ---- The invariant ------------------------------------------------------------------------

  /** Bookkeeping of a reachable state: exporters are numbered in order, calls go to
      installed exporters only, and the buffer is what was kept until the first install. */
  ghost predicate Orderly<T>(kind: Kind, cap: nat, steps: seq<Step<T>>, s: State<T>) {
    && s.shared.late == Numbers(0, Installed(steps))
    && |s.delivered| == Installed(steps)
    && s.shared.replayed == Started(steps)
    && s.shared.buffer == (if Started(steps) then [] else Kept(kind, cap, steps))
    && CallsWithin(s.calls, Installed(steps))
  }

  ghost predicate CallsWithin<T>(calls: seq<Call<T>>, n: nat) {
    forall i, e :: 0 <= i < |calls| && e in calls[i].targets ==> e < n
  }

  lemma NumbersConcat(from: nat, a: nat, b: nat)
    ensures Numbers(from, a + b) == Numbers(from, a) + Numbers(from + a, b)
  {
  }

  lemma StartedGrows<T>(steps: seq<Step<T>>)
    requires steps != []
    ensures Started(steps) <==> Started(steps[..|steps| - 1]) || steps[|steps| - 1].Install?
  {
    var before := steps[..|steps| - 1];
    if Started(before) {
      var i :| 0 <= i < |before| && before[i].Install?;
      assert steps[i].Install?;
    }
    if i :| 0 <= i < |steps| && steps[i].Install? && i < |before| {
      assert before[i].Install?;
    }
  }

  lemma KeptGrows<T>(kind: Kind, cap: nat, before: seq<Step<T>>, batch: seq<T>)
    ensures Kept(kind, cap, before + [Export(batch)]) == Push(kind, cap, Kept(kind, cap, before), batch)
  {
    var steps := before + [Export(batch)];
    assert steps[..|before|] == before;
    assert Batches(steps)[..|Batches(before)|] == Batches(before);
    BufferHoldsTheNewest(kind, cap, Batches(before));
    BufferHoldsTheNewest(kind, cap, Batches(steps));
  }

  lemma {:induction false} RunsAreOrderly<T>(kind: Kind, cap: nat, steps: seq<Step<T>>)
    ensures Orderly(kind, cap, steps, Run(kind, cap, steps))
  {
    hide Orderly, Next;
    if steps == [] {
      NothingRun<T>(kind, cap);
    } else {
      var before, last := steps[..|steps| - 1], steps[|steps| - 1];
      assert steps == before + [last];
      RunsAreOrderly(kind, cap, before);
      match last {
        case Export(batch) => ExportKeepsOrderly(kind, cap, before, Run(kind, cap, before), batch);
        case Install(count) => InstallKeepsOrderly(kind, cap, before, Run(kind, cap, before), count);
        case Deliver(call) => DeliverKeepsOrderly(kind, cap, before, Run(kind, cap, before), call);
      }
    }
  }

  lemma InstalledGrows<T>(before: seq<Step<T>>, last: Step<T>)
    ensures Installed(before + [last]) == Installed(before) + if last.Install? then last.count else 0
    ensures Started(before + [last]) <==> Started(before) || last.Install?
  {
    hide Started;
    var steps := before + [last];
    assert steps[..|steps| - 1] == before;
    StartedGrows(steps);
  }

  lemma ExportKeepsOrderly<T>(kind: Kind, cap: nat, before: seq<Step<T>>, s: State<T>, batch: seq<T>)
    requires Orderly(kind, cap, before, s)
    ensures Orderly(kind, cap, before + [Export(batch)], Next(kind, cap, s, Export(batch)))
  {
    hide Kept, Started, Installed, Push;
    InstalledGrows(before, Export(batch));
    KeptGrows(kind, cap, before, batch);
  }

  lemma InstallKeepsOrderly<T>(kind: Kind, cap: nat, before: seq<Step<T>>, s: State<T>, count: nat)
    requires Orderly(kind, cap, before, s)
    ensures Orderly(kind, cap, before + [Install(count)], Next(kind, cap, s, Install(count)))
  {
    hide Kept, Started, Installed;
    InstalledGrows(before, Install(count));
    NumbersConcat(0, Installed(before), count);
  }

  lemma DeliverKeepsOrderly<T>(kind: Kind, cap: nat, before: seq<Step<T>>, s: State<T>, call: nat)
    requires Orderly(kind, cap, before, s)
    ensures Orderly(kind, cap, before + [Deliver(call)], Next(kind, cap, s, Deliver(call)))
  {
    hide Kept, Started, Installed;
    InstalledGrows(before, Deliver(call));
    var steps := before + [Deliver(call)];
    assert steps[..|steps| - 1] == before;
    DeliverKeepsKept(kind, cap, steps);
    if CanDeliver(s, call) {
      VisitedWithin(s.calls, call, Installed(before));
    }
  }

  lemma VisitedWithin<T>(calls: seq<Call<T>>, call: nat, n: nat)
    requires call < |calls| && calls[call].targets != [] && CallsWithin(calls, n)
    ensures CallsWithin(calls[call := calls[call].(targets := calls[call].targets[1..])], n)
  {
    var after := calls[call := calls[call].(targets := calls[call].targets[1..])];
    forall i, e | 0 <= i < |after| && e in after[i].targets ensures e < n {
      assert e in calls[i].targets;
    }
  }

  lemma NothingRun<T>(kind: Kind, cap: nat)
    ensures Orderly(kind, cap, [], Run<T>(kind, cap, []))
  {
  }

  lemma DeliverKeepsKept<T>(kind: Kind, cap: nat, steps: seq<Step<T>>)
    requires steps != [] && steps[|steps| - 1].Deliver?
    ensures Kept(kind, cap, steps) == Kept(kind, cap, steps[..|steps| - 1])
  {
  }

  /** Conservation, in every interleaving: for each installed exporter, what it is owed is
      in exactly one place each, pending for it or already handed to it. */
  lemma {:induction false} EveryExporterGetsItsDue<T>(kind: Kind, cap: nat, steps: seq<Step<T>>, e: nat)
    requires e < Installed(steps)
    ensures var s := Run(kind, cap, steps);
      |s.delivered| == Installed(steps)
      && multiset(Owed(kind, cap, steps, e)) == PendingFor(s.calls, e) + multiset(s.delivered[e])
  {
    hide Kept, Started;
    var before, last := steps[..|steps| - 1], steps[|steps| - 1];
    var s := Run(kind, cap, before);
    RunsAreOrderly(kind, cap, before);
    RunsAreOrderly(kind, cap, steps);
    if e < Installed(before) {
      EveryExporterGetsItsDue(kind, cap, before, e);
      match last {
        case Export(batch) => ExportIsPending(kind, cap, before, batch, e);
        case Install(count) => InstallSparesOthers(kind, cap, before, count, e);
        case Deliver(call) => if CanDeliver(s, call) { PendingDelivered(s.calls, call, e); }
      }
    } else {
      NothingPendingBeforeInstall(s.calls, Installed(before), e);
      InstallReplays(kind, cap, before, last.count, e);
    }
  }

  lemma ExportIsPending<T>(kind: Kind, cap: nat, before: seq<Step<T>>, batch: seq<T>, e: nat)
    requires e < Installed(before)
    ensures var s := Run(kind, cap, before);
      PendingFor(Next(kind, cap, s, Export(batch)).calls, e) == PendingFor(s.calls, e) + multiset(batch)
  {
    hide Kept, Started;
    var s := Run(kind, cap, before);
    RunsAreOrderly(kind, cap, before);
    InstalledImpliesStarted(before);
    VisitsOfNumbers(0, Installed(before), e);
    PendingConcat(s.calls, Call(s.shared.late, batch), e);
    OneVisit(0, batch);
  }

  lemma {:induction false} InstalledImpliesStarted<T>(steps: seq<Step<T>>)
    ensures Installed(steps) > 0 ==> Started(steps)
  {
    if steps != [] {
      InstalledImpliesStarted(steps[..|steps| - 1]);
      StartedGrows(steps);
    }
  }

  lemma InstallSparesOthers<T>(kind: Kind, cap: nat, before: seq<Step<T>>, count: nat, e: nat)
    requires e < Installed(before)
    ensures var s := Run(kind, cap, before);
      PendingFor(Next(kind, cap, s, Install(count)).calls, e) == PendingFor(s.calls, e)
  {
    hide Kept, Started;
    var s := Run(kind, cap, before);
    RunsAreOrderly(kind, cap, before);
    InstalledImpliesStarted(before);
  }

  lemma InstallReplays<T>(kind: Kind, cap: nat, before: seq<Step<T>>, count: nat, e: nat)
    requires Installed(before) <= e < Installed(before) + count
    ensures var s := Run(kind, cap, before);
      PendingFor(Next(kind, cap, s, Install(count)).calls, e) ==
      PendingFor(s.calls, e) + if Started(before) then multiset{} else multiset(Kept(kind, cap, before))
  {
    hide Kept, Started;
    var s := Run(kind, cap, before);
    RunsAreOrderly(kind, cap, before);
    VisitsOfNumbers(Installed(before), count, e);
    PendingConcat(s.calls, Call(Numbers(Installed(before), count), s.shared.buffer), e);
    OneVisit(0, s.shared.buffer);
  }

  lemma {:induction false} NothingPendingBeforeInstall<T>(calls: seq<Call<T>>, n: nat, e: nat)
    requires n <= e
    requires CallsWithin(calls, n)
    ensures PendingFor(calls, e) == multiset{}
  {
    if calls != [] {
      NothingPendingBeforeInstall(calls[..|calls| - 1], n, e);
      NotVisited(calls[|calls| - 1].targets, e);
    }
  }

  lemma {:induction false} NotVisited(targets: seq<nat>, e: nat)
    requires e !in targets
    ensures Visits(targets, e) == 0
  {
    if targets != [] {
      NotVisited(targets[..|targets| - 1], e);
    }
  }

  // ---- At quiescence --------------------------------------------------------------------------

  lemma {:induction false} BatchesConcat<T>(a: seq<Step<T>>, b: seq<Step<T>>)
    ensures Batches(a + b) == Batches(a) + Batches(b)
    ensures Installed(a + b) == Installed(a) + Installed(b)
  {
    if b == [] {
      assert a + b == a;
    } else {
      assert (a + b)[..|a + b| - 1] == a + b[..|b| - 1];
      BatchesConcat(a, b[..|b| - 1]);
    }
  }

  lemma DueGrows<T>(kind: Kind, cap: nat, before: seq<Step<T>>, last: Step<T>, e: nat)
    requires e < Installed(before)
    ensures e < Installed(before + [last])
    ensures Owed(kind, cap, before + [last], e) == Owed(kind, cap, before, e) + if last.Export? then last.batch else []
  {
    hide Kept, Started;
    assert (before + [last])[..|before|] == before;
  }

  lemma BatchesGrow<T>(before: seq<Step<T>>, last: Step<T>)
    ensures Batches(before + [last]) == Batches(before) + if last.Export? then [last.batch] else []
  {
    assert (before + [last])[..|before|] == before;
  }

  lemma DueAtInstall<T>(kind: Kind, cap: nat, before: seq<Step<T>>, count: nat, e: nat)
    requires Installed(before) <= e < Installed(before) + count
    ensures e < Installed(before + [Install(count)])
    ensures Owed(kind, cap, before + [Install(count)], e) == if Started(before) then [] else Kept(kind, cap, before)
  {
    hide Kept, Started;
    assert (before + [Install(count)])[..|before|] == before;
  }

  /** An exporter's due, wherever in the run it was installed. */
  lemma {:induction false} DueOfAnInstall<T>(kind: Kind, cap: nat, before: seq<Step<T>>, count: nat,
                                             after: seq<Step<T>>, e: nat)
    requires Installed(before) <= e < Installed(before) + count
    ensures e < Installed(before + [Install(count)] + after)
    ensures Owed(kind, cap, before + [Install(count)] + after, e) ==
      (if Started(before) then [] else Kept(kind, cap, before)) + Flatten(Batches(after))
  {
    hide Kept, Started, Owed, Installed, Flatten;
    var early := before + [Install(count)];
    DueAtInstall(kind, cap, before, count, e);
    if after == [] {
      assert early + after == early;
      NoBatches<T>();
    } else {
      var n := |after| - 1;
      assert early + after == early + after[..n] + [after[n]] && after == after[..n] + [after[n]];
      DueOfAnInstall(kind, cap, before, count, after[..n], e);
      DueGrows(kind, cap, early + after[..n], after[n], e);
      BatchesGrow(after[..n], after[n]);
      if after[n].Export? {
        FlattenSnoc(Batches(after[..n]), after[n].batch);
      } else {
        assert Batches(after) == Batches(after[..n]);
      }
    }
  }

  lemma NoBatches<T>()
    ensures Flatten(Batches<T>([])) == []
  {
  }

  /** Once every call is finished, each exporter of the first installation has been handed
      every record accepted before or since and not evicted, exactly once; each exporter of
      a later one exactly what was accepted since. */
  lemma AtQuiescenceNothingIsLost<T>(kind: Kind, cap: nat, before: seq<Step<T>>, count: nat, after: seq<Step<T>>,
                                     e: nat)
    requires Installed(before) <= e < Installed(before) + count
    requires Quiescent(Run(kind, cap, before + [Install(count)] + after))
    ensures var s := Run(kind, cap, before + [Install(count)] + after);
      |s.delivered| > e && multiset(s.delivered[e]) ==
      multiset((if Started(before) then [] else Kept(kind, cap, before)) + Flatten(Batches(after)))
  {
    hide Kept, Started, Run, Owed;
    var steps := before + [Install(count)] + after;
    DueOfAnInstall(kind, cap, before, count, after, e);
    EveryExporterGetsItsDue(kind, cap, steps, e);
    QuiescentHasNothingPending(Run(kind, cap, steps).calls, e);
  }

  function Unvisited<T>(calls: seq<Call<T>>): nat {
    if calls == [] then 0 else Unvisited(calls[..|calls| - 1]) + |calls[|calls| - 1].targets|
  }

  lemma {:induction false} VisitOne<T>(calls: seq<Call<T>>, i: nat)
    requires i < |calls| && calls[i].targets != []
    ensures Unvisited(calls[i := calls[i].(targets := calls[i].targets[1..])]) == Unvisited(calls) - 1
  {
    var n := |calls| - 1;
    var after := calls[i := calls[i].(targets := calls[i].targets[1..])];
    if i == n {
      assert after[..n] == calls[..n];
    } else {
      VisitOne(calls[..n], i);
      assert after[..n] == calls[..n][i := calls[i].(targets := calls[i].targets[1..])];
    }
  }

  lemma DeliveryAdvances<T>(kind: Kind, cap: nat, steps: seq<Step<T>>, i: nat)
    requires var s := Run(kind, cap, steps); i < |s.calls| && s.calls[i].targets != []
    ensures Unvisited(Run(kind, cap, steps + [Deliver(i)]).calls) == Unvisited(Run(kind, cap, steps).calls) - 1
  {
    hide Started, Kept, Unvisited;
    var s, next := Run(kind, cap, steps), steps + [Deliver(i)];
    RunsAreOrderly(kind, cap, steps);
    assert next[..|next| - 1] == steps;
    assert s.calls[i].targets[0] in s.calls[i].targets;
    VisitOne(s.calls, i);
  }

  /** No call is ever stuck: every run can be carried on by deliveries alone until all
      calls are finished. */
  lemma {:induction false} EveryRunCanSettle<T>(kind: Kind, cap: nat, steps: seq<Step<T>>) returns (more: seq<Step<T>>)
    ensures forall i :: 0 <= i < |more| ==> more[i].Deliver?
    ensures Quiescent(Run(kind, cap, steps + more))
    decreases Unvisited(Run(kind, cap, steps).calls)
  {
    hide Run, Unvisited;
    var s := Run(kind, cap, steps);
    if i: nat :| i < |s.calls| && s.calls[i].targets != [] {
      DeliveryAdvances(kind, cap, steps, i);
      var rest := EveryRunCanSettle(kind, cap, steps + [Deliver(i)]);
      more := [Deliver(i)] + rest;
      assert steps + more == steps + [Deliver(i)] + rest;
    } else {
      more := [];
      assert steps + more == steps;
    }
  }

  /** Before any installation nothing is lost but what eviction took: what was accepted is
      what was evicted followed by what is buffered. */
  lemma BufferedOrEvicted<T>(kind: Kind, cap: nat, steps: seq<Step<T>>) returns (evicted: seq<T>)
    requires !Started(steps)
    ensures Flatten(Batches(steps)) == evicted + Run(kind, cap, steps).shared.buffer
    ensures evicted != [] ==> |Run(kind, cap, steps).shared.buffer| >= cap
  {
    hide Run;
    RunsAreOrderly(kind, cap, steps);
    var all := Flatten(Batches(steps));
    evicted := all[..|all| - |Run(kind, cap, steps).shared.buffer|];
  }

  /** An installation of no exporters takes the buffer all the same: whatever is installed
      later is owed nothing from before, only what is accepted since. */
  lemma EmptyInstallForfeitsTheBuffer<T>(kind: Kind, cap: nat, before: seq<Step<T>>, mid: seq<Step<T>>, count: nat,
                                         after: seq<Step<T>>, e: nat)
    requires var early := before + [Install(0)] + mid; Installed(early) <= e < Installed(early) + count
    ensures Owed(kind, cap, before + [Install(0)] + mid + [Install(count)] + after, e) == Flatten(Batches(after))
  {
    hide Kept, Owed, Installed, Batches;
    var early := before + [Install(0)] + mid;
    assert early[|before|].Install?;
    DueOfAnInstall(kind, cap, early, count, after, e);
  }
}
