/** Removing exited panes in place (crates/pty-multiplex/src/main.rs) while one of them may
    be the active one. */
module Panes {
  import opened Prelude

  /** Where the active index ends up. An index past the end keeps its distance from it. */
  function NewActive<P(!new)>(alive: P -> bool, panes: seq<P>, active: Option<nat>): Option<nat> {
    var left := Filter(alive, panes);
    if active.None? then None
    else if active.value >= |panes| then
      FilterLength(alive, panes);
      Some(active.value - (|panes| - |left|))
    else
      var before := |Filter(alive, panes[..active.value])|;
      if alive(panes[active.value]) then Some(before)
      else if left == [] then None
      else if before < |left| then Some(before)
      else Some(|left| - 1)
  }

  function Repaired(active: Option<nat>, i: nat, left: nat): Option<nat> {
    if active.None? || active.value < i then active
    else if active.value > i then Some(active.value - 1)
    else if left == 0 then None
    else if i >= left then Some(left - 1)
    else active
  }

  class Multiplexer<P(!new)> {
    var panes: seq<P>
    var active: Option<nat>

    constructor (panes: seq<P>, active: Option<nat>)
      ensures this.panes == panes && this.active == active
    {
      this.panes, this.active := panes, active;
    }

    /** The pane at `i` has just been removed. */
    method RepairActive(i: nat)
      modifies this`active
      ensures active == Repaired(old(active), i, |panes|)
    {
      if active.Some? {
        if active.value > i {
          active := Some(active.value - 1);
        } else if active.value == i {
          if |panes| == 0 {
            active := None;
          } else if i >= |panes| {
            active := Some(|panes| - 1);
          }
        }
      }
    }

    method CleanupExitedPanes(alive: P -> bool)
      modifies this
      ensures panes == Filter(alive, old(panes))
      ensures active == NewActive(alive, old(panes), old(active))
    {
      hide Progress, Filter, NewActive, Repaired;
      ghost var all, k := panes, 0;
      var i := 0;
      Start(alive, panes, active);
      while i < |panes|
        invariant Progress(alive, all, k, old(active), panes, i, active)
        decreases |panes| - i
      {
        Step(alive, all, k, old(active), panes, i, active);
        if !alive(panes[i]) {
          panes := panes[..i] + panes[i + 1..];
          RepairActive(i);
        } else {
          i := i + 1;
        }
        k := k + 1;
      }
      Finish(alive, all, k, old(active), panes, i, active);
    }
  }

  /** What the repaired index denotes once the pane at `i` is gone: another pane keeps being
      denoted; the pane that took the place of the removed one, or the last, is denoted when
      it was the active one itself; and nothing only when nothing is left. */
  lemma RepairedIndexDenotes<P>(panes: seq<P>, i: nat, a: nat)
    requires i < |panes| && a < |panes|
    ensures var left, now := panes[..i] + panes[i + 1..], Repaired(Some(a), i, |panes| - 1);
      && (now.None? <==> left == []) && (now.Some? ==> now.value < |left|)
      && (a != i ==> now.Some? && left[now.value] == panes[a])
      && (a == i < |panes| - 1 ==> now.Some? && left[now.value] == panes[i + 1])
      && (a == i == |panes| - 1 && left != [] ==> now == Some(|left| - 1))
  {
  }

  /** `k` panes have been looked at: the survivors among them stand before position `i`. */
  ghost predicate Progress<P(!new)>(alive: P -> bool, all: seq<P>, k: nat, first: Option<nat>, panes: seq<P>, i: nat,
                             active: Option<nat>)
  {
    && k <= |all| && i == |Filter(alive, all[..k])|
    && panes == Filter(alive, all[..k]) + all[k..]
    && active == Midway(alive, all, k, first)
  }

  /** The active index when `k` of `all` have been looked at. */
  ghost function Midway<P(!new)>(alive: P -> bool, all: seq<P>, k: nat, active: Option<nat>): Option<nat>
    requires k <= |all|
  {
    var i := |Filter(alive, all[..k])|;
    FilterLength(alive, all[..k]);
    var total := i + |all| - k;
    if active.None? then None
    else if active.value >= k then Some(active.value - (k - i))
    else
      var before := |Filter(alive, all[..active.value])|;
      if alive(all[active.value]) then Some(before)
      else if total == 0 then None
      else if before < total then Some(before)
      else Some(total - 1)
  }

  lemma Start<P(!new)>(alive: P -> bool, all: seq<P>, active: Option<nat>)
    ensures Progress(alive, all, 0, active, all, 0, active)
  {
    assert all[..0] == [] && Filter(alive, all[..0]) + all[0..] == all;
  }

  lemma Step<P(!new)>(alive: P -> bool, all: seq<P>, k: nat, first: Option<nat>, panes: seq<P>, i: nat,
               active: Option<nat>)
    requires Progress(alive, all, k, first, panes, i, active) && i < |panes|
    ensures if alive(panes[i]) then Progress(alive, all, k + 1, first, panes, i + 1, active)
      else Progress(alive, all, k + 1, first, panes[..i] + panes[i + 1..], i, Repaired(active, i, |panes| - 1))
  {
    hide Filter, Midway, Repaired;
    Survivor(alive, all, k);
    RemainderSteps(Filter(alive, all[..k]), all, k);
    Onward(alive, all, k, first);
  }

  lemma Survivor<P(!new)>(alive: P -> bool, all: seq<P>, k: nat)
    requires k < |all|
    ensures Filter(alive, all[..k + 1]) ==
      if alive(all[k]) then Filter(alive, all[..k]) + [all[k]] else Filter(alive, all[..k])
  {
    FilterConcat(alive, all[..k], [all[k]]);
    assert all[..k + 1] == all[..k] + [all[k]];
  }

  /** The pane looked at, without it, and with it passed over. */
  lemma RemainderSteps<P>(kept: seq<P>, all: seq<P>, k: nat)
    requires k < |all|
    ensures var panes, i := kept + all[k..], |kept|;
      && |panes| == i + |all| - k && panes[i] == all[k]
      && panes[..i] + panes[i + 1..] == kept + all[k + 1..]
      && panes == kept + [all[k]] + all[k + 1..]
  {
  }

  lemma EarlierSurvivors<P(!new)>(alive: P -> bool, all: seq<P>, a: nat, k: nat)
    requires a <= k <= |all|
    ensures Filter(alive, all[..k]) == Filter(alive, all[..a]) + Filter(alive, all[a..k])
  {
    assert all[..k] == all[..a] + all[a..k];
    FilterConcat(alive, all[..a], all[a..k]);
  }

  /** The survivors around a pane that was looked at already. */
  lemma AroundPassed<P(!new)>(alive: P -> bool, all: seq<P>, k: nat, a: nat)
    requires a < k <= |all|
    ensures |Filter(alive, all[..a])| + (if alive(all[a]) then 1 else 0) <= |Filter(alive, all[..k])|
  {
    hide Filter;
    EarlierSurvivors(alive, all, a + 1, k);
    Survivor(alive, all, a);
  }

  /** How the index moves when one more pane has been looked at. */
  lemma Onward<P(!new)>(alive: P -> bool, all: seq<P>, k: nat, active: Option<nat>)
    requires k < |all|
    ensures var i, now := |Filter(alive, all[..k])|, Midway(alive, all, k, active);
      Midway(alive, all, k + 1, active) == if alive(all[k]) then now else Repaired(now, i, i + |all| - k - 1)
  {
    hide Filter;
    var i, i' := |Filter(alive, all[..k])|, |Filter(alive, all[..k + 1])|;
    Survivor(alive, all, k);
    FilterLength(alive, all[..k]);
    assert i' == i + if alive(all[k]) then 1 else 0;
    if active.Some? && active.value < k {
      AroundPassed(alive, all, k, active.value);
    }
  }

  lemma Finish<P(!new)>(alive: P -> bool, all: seq<P>, k: nat, first: Option<nat>, panes: seq<P>, i: nat,
                 active: Option<nat>)
    requires Progress(alive, all, k, first, panes, i, active) && i >= |panes|
    ensures panes == Filter(alive, all) && active == NewActive(alive, all, first)
  {
    assert k == |all| && all[..k] == all && all[k..] == [];
  }

  /** What the repair means: survivors keep their order; a live active pane stays active
      itself; a dead one hands over to the first survivor after it, else to the last
      survivor; none is active only if none is left; and a valid index stays valid. */
  lemma ActiveHandsOver<P(!new)>(alive: P -> bool, panes: seq<P>, a: nat)
    requires a < |panes|
    ensures var left, after, now :=
      Filter(alive, panes), Filter(alive, panes[a + 1..]), NewActive(alive, panes, Some(a));
      && (now.None? <==> left == [])
      && (now.Some? ==> now.value < |left|)
      && (alive(panes[a]) ==> left == Filter(alive, panes[..a]) + [panes[a]] + after)
      && (alive(panes[a]) ==> now == Some(|Filter(alive, panes[..a])|) && left[now.value] == panes[a])
      && (!alive(panes[a]) ==> left == Filter(alive, panes[..a]) + after)
      && (!alive(panes[a]) && after != [] ==> now.Some? && now.value == |left| - |after| && left[now.value] == after[0])
      && (!alive(panes[a]) && after == [] && left != [] ==> now == Some(|left| - 1))
  {
    hide Filter;
    Survivor(alive, panes, a);
    EarlierSurvivors(alive, panes, a + 1, |panes|);
    assert panes[..|panes|] == panes && panes[a + 1..|panes|] == panes[a + 1..];
  }
}
