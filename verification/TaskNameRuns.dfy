/** Processes reserving task names at the same time: no two win the same name, and with one
    base the names won have no gaps. */
module TaskNameRuns {
  import opened TaskNames

  // ---- The protocol -------------------------------------------------------------------------

  /** A process about to try candidate `next`, holding a name, or back at its bare base. */
  datatype Status = Trying(next: nat) | Holding(name: string) | Fallback

  datatype Process = Process(base: string, status: Status)

  datatype State = State(names: set<string>, processes: seq<Process>)

  /** One atomic step: a process starts, or makes one claim, which may fail. */
  datatype Step = Arrive(base: string) | ClaimStep(process: nat, fails: bool)

  predicate CanClaim(s: State, p: nat) {
    p < |s.processes| && s.processes[p].status.Trying?
  }

  function AfterClaim(max: nat, next: nat, candidate: string, result: ClaimResult): Status {
    match result
    case Won => Holding(candidate)
    case Taken => if next < max then Trying(next + 1) else Fallback
    case Error => Fallback
  }

  function Next(max: nat, s: State, step: Step): State {
    match step
    case Arrive(base) => s.(processes := s.processes + [Process(base, if max == 0 then Fallback else Trying(1))])
    case ClaimStep(p, fails) =>
      if !CanClaim(s, p) then s
      else
        var it := s.processes[p];
        var candidate := Candidate(it.base, it.status.next);
        var result := ClaimOutcome(s.names, candidate, fails);
        State(
          if result.Won? then s.names + {candidate} else s.names,
          s.processes[p := it.(status := AfterClaim(max, it.status.next, candidate, result))])
  }

  /** The state after a run that starts with the claim files `initial`. */
  function Run(max: nat, initial: set<string>, steps: seq<Step>): State {
    if steps == [] then State(initial, []) else Next(max, Run(max, initial, steps[..|steps| - 1]), steps[|steps| - 1])
  }

  // ---- No two winners ---------------------------------------------------------------------------

  ghost predicate Exclusive(initial: set<string>, s: State) {
    && initial <= s.names
    && (forall p :: 0 <= p < |s.processes| && s.processes[p].status.Holding? ==>
      s.processes[p].status.name in s.names && s.processes[p].status.name !in initial)
    && (forall p, q ::
      0 <= p < q < |s.processes| && s.processes[p].status.Holding? && s.processes[q].status.Holding? ==>
      s.processes[p].status.name != s.processes[q].status.name)
    && forall name :: name in s.names && name !in initial ==>
      exists p :: 0 <= p < |s.processes| && s.processes[p].status == Holding(name)
  }

  lemma StepIsExclusive(max: nat, initial: set<string>, s: State, step: Step)
    requires Exclusive(initial, s)
    ensures Exclusive(initial, Next(max, s, step))
  {
    hide Candidate;
    var t := Next(max, s, step);
    forall name | name in t.names && name !in initial
      ensures exists p :: 0 <= p < |t.processes| && t.processes[p].status == Holding(name)
    {
      if name in s.names {
        var p :| 0 <= p < |s.processes| && s.processes[p].status == Holding(name);
        assert t.processes[p].status == Holding(name);
      } else {
        assert t.processes[step.process].status == Holding(name);
      }
    }
  }

  lemma {:induction false} RunsAreExclusive(max: nat, initial: set<string>, steps: seq<Step>)
    ensures Exclusive(initial, Run(max, initial, steps))
  {
    hide Next, Exclusive;
    if steps == [] {
      StartIsExclusive(initial);
    } else {
      RunsAreExclusive(max, initial, steps[..|steps| - 1]);
      StepIsExclusive(max, initial, Run(max, initial, steps[..|steps| - 1]), steps[|steps| - 1]);
    }
  }

  lemma StartIsExclusive(initial: set<string>)
    ensures Exclusive(initial, State(initial, []))
  {
  }

  function Returned(p: Process): string {
    if p.status.Holding? then p.status.name else p.base
  }

  /** In every interleaving, for every mix of bases, two processes are given the same name
      only if at least one of them fell back to its bare base. */
  lemma WinnersDiffer(max: nat, initial: set<string>, steps: seq<Step>, p: nat, q: nat)
    requires var s := Run(max, initial, steps);
      p < q < |s.processes| && !s.processes[p].status.Trying? && !s.processes[q].status.Trying?
    ensures var s := Run(max, initial, steps);
      Returned(s.processes[p]) == Returned(s.processes[q]) ==>
        s.processes[p].status.Fallback? || s.processes[q].status.Fallback?
  {
    hide Run;
    RunsAreExclusive(max, initial, steps);
  }

  /** Bases do overlap: every later candidate of one base is the first of another. */
  lemma BasesOverlap(base: string, n: nat)
    requires n != 1
    ensures Candidate(base, n) == Candidate(base + "-" + Decimal(n), 1) && base != base + "-" + Decimal(n)
  {
    assert |base + "-" + Decimal(n)| > |base|;
  }

  // ---- No gaps ------------------------------------------------------------------------------------

  /** base, base-2, ..., base-m */
  function Series(base: string, m: nat): set<string> {
    set n | 1 <= n <= m :: Candidate(base, n)
  }

  function Winners(processes: seq<Process>): nat {
    if processes == [] then 0
    else Winners(processes[..|processes| - 1]) + if processes[|processes| - 1].status.Holding? then 1 else 0
  }

  predicate HasFinished(p: Process) {
    !p.status.Trying?
  }

  function Finished(processes: seq<Process>): nat {
    if processes == [] then 0
    else Finished(processes[..|processes| - 1]) + if HasFinished(processes[|processes| - 1]) then 1 else 0
  }

  /** Only this base arrives, and no claim fails. */
  ghost predicate Undisturbed(base: string, steps: seq<Step>) {
    forall i :: 0 <= i < |steps| ==> if steps[i].Arrive? then steps[i].base == base else !steps[i].fails
  }

  ghost predicate FreshFor(initial: set<string>, base: string) {
    forall n: nat :: n >= 1 ==> Candidate(base, n) !in initial
  }

  ghost predicate GapFree(max: nat, initial: set<string>, base: string, s: State) {
    var m := Winners(s.processes);
    && m <= max && s.names == initial + Series(base, m)
    && forall p :: 0 <= p < |s.processes| ==>
      && s.processes[p].base == base
      && (s.processes[p].status.Trying? ==>
        1 <= s.processes[p].status.next <= max && s.processes[p].status.next <= m + 1)
      && (s.processes[p].status.Fallback? ==> m >= max)
      && (s.processes[p].status.Holding? ==> s.processes[p].status.name in Series(base, m))
  }

  lemma {:induction false} WinnersAfter(processes: seq<Process>, p: nat, status: Status)
    requires p < |processes| && processes[p].status.Trying?
    ensures Winners(processes[p := processes[p].(status := status)]) ==
      Winners(processes) + if status.Holding? then 1 else 0
  {
    var n := |processes| - 1;
    var after := processes[p := processes[p].(status := status)];
    if p < n {
      WinnersAfter(processes[..n], p, status);
      assert after[..n] == processes[..n][p := processes[p].(status := status)];
    } else {
      assert after[..n] == processes[..n];
    }
  }

  /** All winners have finished, and all that finished are winners unless one fell back. */
  lemma {:induction false} WinnersHaveFinished(processes: seq<Process>)
    ensures Winners(processes) <= Finished(processes)
    ensures Winners(processes) == Finished(processes) <==>
      forall p :: 0 <= p < |processes| ==> !processes[p].status.Fallback?
  {
    if processes != [] {
      WinnersHaveFinished(processes[..|processes| - 1]);
    }
  }

  lemma SeriesGrows(base: string, m: nat)
    ensures Series(base, m + 1) == Series(base, m) + {Candidate(base, m + 1)}
    ensures Candidate(base, m + 1) !in Series(base, m)
  {
    forall n | 1 <= n <= m ensures Candidate(base, n) != Candidate(base, m + 1) {
      CandidatesDiffer(base, n, m + 1);
    }
  }

  lemma SeriesMember(base: string, m: nat, n: nat)
    requires 1 <= n
    ensures Candidate(base, n) in Series(base, m) <==> n <= m
  {
    if n > m && Candidate(base, n) in Series(base, m) {
      var k: nat :| 1 <= k <= m && Candidate(base, n) == Candidate(base, k);
      CandidatesDiffer(base, n, k);
    }
  }

  /** Where a claim lands: on the next free suffix, or on one that is taken. */
  lemma ClaimIsGapFree(max: nat, initial: set<string>, base: string, s: State, p: nat)
    requires GapFree(max, initial, base, s) && FreshFor(initial, base) && CanClaim(s, p)
    ensures GapFree(max, initial, base, Next(max, s, ClaimStep(p, false)))
  {
    hide Candidate, Winners, Series;
    var m, n := Winners(s.processes), s.processes[p].status.next;
    var candidate := Candidate(base, n);
    var result := ClaimOutcome(s.names, candidate, false);
    SeriesMember(base, m, n);
    SeriesGrows(base, m);
    WinnersAfter(s.processes, p, AfterClaim(max, n, candidate, result));
    assert candidate !in initial;
    assert result.Won? <==> n == m + 1;
  }

  lemma ArriveIsGapFree(max: nat, initial: set<string>, base: string, s: State)
    requires GapFree(max, initial, base, s)
    ensures GapFree(max, initial, base, Next(max, s, Arrive(base)))
  {
    var t := Next(max, s, Arrive(base));
    assert t.processes[..|s.processes|] == s.processes;
  }

  lemma {:induction false} RunsAreGapFree(max: nat, initial: set<string>, base: string, steps: seq<Step>)
    requires Undisturbed(base, steps) && FreshFor(initial, base)
    ensures GapFree(max, initial, base, Run(max, initial, steps))
  {
    hide Next, GapFree, FreshFor;
    if steps == [] {
      StartIsGapFree(max, initial, base);
    } else {
      var before, last := steps[..|steps| - 1], steps[|steps| - 1];
      RunsAreGapFree(max, initial, base, before);
      var s := Run(max, initial, before);
      match last {
        case Arrive(_) => ArriveIsGapFree(max, initial, base, s);
        case ClaimStep(p, fails) =>
          if CanClaim(s, p) {
            ClaimIsGapFree(max, initial, base, s, p);
          } else {
            NoClaim(max, s, p, fails);
          }
      }
    }
  }

  lemma NoClaim(max: nat, s: State, p: nat, fails: bool)
    requires !CanClaim(s, p)
    ensures Next(max, s, ClaimStep(p, fails)) == s
  {
  }

  lemma StartIsGapFree(max: nat, initial: set<string>, base: string)
    ensures GapFree(max, initial, base, State(initial, []))
  {
  }

  /** With one base, a directory free of it and no failures, at every moment, with any
      number of processes still trying: if k have finished, the names claimed are base,
      base-2, ... up to the k-th, or up to the cap where k exceeds it. Each is held by a
      process, and only where k exceeds the cap has a process fallen back. */
  lemma NamesHaveNoGaps(max: nat, initial: set<string>, base: string, steps: seq<Step>)
    requires Undisturbed(base, steps) && FreshFor(initial, base)
    ensures var s := Run(max, initial, steps);
      var k := Finished(s.processes);
      && s.names - initial == Series(base, if k <= max then k else max)
      && (forall name :: name in s.names - initial <==>
          exists p :: 0 <= p < |s.processes| && s.processes[p].status == Holding(name))
      && (k > max <==> exists p :: 0 <= p < |s.processes| && s.processes[p].status.Fallback?)
  {
    hide Run, Series, Winners, Finished;
    var s := Run(max, initial, steps);
    RunsAreGapFree(max, initial, base, steps);
    SeriesIsFresh(initial, base, Winners(s.processes));
    WinnersHaveFinished(s.processes);
    RunsAreExclusive(max, initial, steps);
  }

  lemma SeriesIsFresh(initial: set<string>, base: string, m: nat)
    requires FreshFor(initial, base)
    ensures initial + Series(base, m) - initial == Series(base, m)
    ensures forall name :: name in Series(base, m) ==> name !in initial
  {
  }
}
