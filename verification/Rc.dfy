/** The data of the rc engine: options, errors and the version gates options sit under. */
module Rc {
  import opened Prelude

  datatype RcOption = RcOption(value: string, command: string, sourceIndex: nat, condition: Option<string>)

  datatype RcError =
    | Io(file: string)
    | ImportNotFound(path: string)
    | ImportCycle(chain: seq<string>)
    | InvalidImportArgs(directive: string)
    | ConfigCycle(cycle: seq<string>)
    | UndefinedConfig(command: string, name: string)

  type Options = map<string, seq<RcOption>>

  /** The options of one section; none when the section was never mentioned. */
  function RawOptions(options: Options, key: string): seq<RcOption> {
    if key in options then options[key] else []
  }

  function CommandAncestors(command: string): seq<string> {
    if command in {"test", "run", "clean", "mobile-install", "info", "print_action", "config", "cquery", "aquery"}
    then ["build"]
    else if command in {"coverage", "fetch", "vendor"} then ["build", "test"]
    else []
  }

  // ---- Gates ----------------------------------------------------------------------

  /** The gate in force inside a construct that may carry its own. */
  function Inherit(outer: Option<string>, own: Option<string>): Option<string> {
    if own.Some? then own else outer
  }

  /** The condition that reaches an option nested under `gates`, outermost first. */
  function Innermost(outer: Option<string>, gates: seq<Option<string>>): Option<string>
    decreases |gates|
  {
    if gates == [] then outer else Innermost(Inherit(outer, gates[0]), gates[1..])
  }

  /** It is the last gate that is present at all, and the enclosing one when none is. */
  lemma {:induction false} InnermostIsLastGate(outer: Option<string>, gates: seq<Option<string>>)
    ensures (forall i :: 0 <= i < |gates| ==> gates[i].None?) ==> Innermost(outer, gates) == outer
    ensures forall i :: 0 <= i < |gates| && gates[i].Some? && (forall j :: i < j < |gates| ==> gates[j].None?) ==>
      Innermost(outer, gates) == gates[i]
    decreases |gates|
  {
    if gates != [] {
      var tail := gates[1..];
      InnermostIsLastGate(Inherit(outer, gates[0]), tail);
      assert forall j :: 0 < j < |gates| ==> gates[j] == tail[j - 1];
    }
  }

  lemma {:induction false} InnermostConcat(outer: Option<string>, a: seq<Option<string>>, b: seq<Option<string>>)
    ensures Innermost(outer, a + b) == Innermost(Innermost(outer, a), b)
    decreases |a|
  {
    if a == [] {
      assert a + b == b;
    } else {
      assert (a + b)[1..] == a[1..] + b;
      InnermostConcat(Inherit(outer, a[0]), a[1..], b);
    }
  }

  /** An enclosing gate counts only where no other is present. */
  lemma {:induction false} InnermostInherits(outer: Option<string>, gates: seq<Option<string>>)
    ensures Innermost(outer, gates) == Inherit(outer, Innermost(None, gates))
    decreases |gates|
  {
    if gates != [] {
      InnermostInherits(Inherit(outer, gates[0]), gates[1..]);
      InnermostInherits(gates[0], gates[1..]);
    }
  }

  lemma InnermostStep(outer: Option<string>, gate: Option<string>, gates: seq<Option<string>>)
    ensures Innermost(outer, [gate] + gates) == Innermost(Inherit(outer, gate), gates)
  {
    assert ([gate] + gates)[1..] == gates;
  }

  /** Every gate on the way holds. */
  predicate AllHold(holds: string -> bool, gates: seq<Option<string>>) {
    forall i :: 0 <= i < |gates| && gates[i].Some? ==> holds(gates[i].value)
  }

  predicate ConditionHolds(holds: string -> bool, condition: Option<string>) {
    condition.Some? ==> holds(condition.value)
  }

  /** The options whose own condition holds. */
  function AppliesTo(holds: string -> bool): RcOption -> bool {
    (o: RcOption) => ConditionHolds(holds, o.condition)
  }

  lemma {:induction false} AllHoldImpliesInnermost(holds: string -> bool, outer: Option<string>,
                                                   gates: seq<Option<string>>)
    requires ConditionHolds(holds, outer) && AllHold(holds, gates)
    ensures ConditionHolds(holds, Innermost(outer, gates))
    decreases |gates|
  {
    if gates != [] {
      AllHoldImpliesInnermost(holds, Inherit(outer, gates[0]), gates[1..]);
    }
  }

  predicate AtMostOneGate(gates: seq<Option<string>>) {
    forall i, j :: 0 <= i < |gates| && 0 <= j < |gates| && gates[i].Some? && gates[j].Some? ==> gates[i] == gates[j]
  }

  /** With at most one distinct gate on the way, the innermost one stands for all. */
  lemma SingleGateDecides(holds: string -> bool, gates: seq<Option<string>>)
    requires AtMostOneGate(gates)
    ensures AllHold(holds, gates) <==> ConditionHolds(holds, Innermost(None, gates))
  {
    InnermostIsLastGate(None, gates);
    if i :| 0 <= i < |gates| && gates[i].Some? {
      var last := LastGate(gates, i);
      assert Innermost(None, gates) == gates[last];
    }
  }

  lemma {:induction false} LastGate(gates: seq<Option<string>>, i: nat) returns (last: nat)
    requires i < |gates| && gates[i].Some?
    ensures i <= last < |gates| && gates[last].Some? && forall j :: last < j < |gates| ==> gates[j].None?
    decreases |gates| - i
  {
    last := i;
    if j: nat :| i < j < |gates| && gates[j].Some? {
      last := LastGate(gates, j);
    }
  }
}
