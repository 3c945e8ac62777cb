/** What config expansion means: in-place replacement, when it succeeds, which options it
    reaches, and how its single inherited gate relates to all the gates on the way. */
module ExpanderTheory {
  import opened Prelude
  import opened Rc
  import opened Walks
  import opened Expander

  // ---- In place -------------------------------------------------------------------

  /** Expansion distributes over concatenation; the first failure decides. */
  lemma {:induction false} ExpandConcat(s: Setting, a: seq<RcOption>, b: seq<RcOption>, chain: seq<string>)
    ensures var left, right := Expand(s, a, chain), Expand(s, b, chain);
      Expand(s, a + b, chain) ==
      if left.error.Some? then left else Expansion(left.kept + right.kept, right.error)
    decreases |b|
  {
    if b == [] {
      assert a + b == a;
      var left := Expand(s, a, chain);
      assert left.kept + [] == left.kept;
    } else {
      var n := |b| - 1;
      assert (a + b)[..|a + b| - 1] == a + b[..n];
      ExpandConcat(s, a, b[..n], chain);
      var left, right, last := Expand(s, a, chain), Expand(s, b[..n], chain), ExpandOne(s, b[n], chain);
      assert left.kept + (right.kept + last.kept) == (left.kept + right.kept) + last.kept;
    }
  }

  /** A flag between others contributes exactly its own expansion, where it stands. */
  lemma ExpandsInPlace(s: Setting, a: seq<RcOption>, o: RcOption, b: seq<RcOption>, chain: seq<string>)
    requires Expand(s, a + [o] + b, chain).error.None?
    ensures Expand(s, a + [o] + b, chain).kept ==
            Expand(s, a, chain).kept + ExpandOne(s, o, chain).kept + Expand(s, b, chain).kept
    ensures !("--config=" <= o.value) ==> ExpandOne(s, o, chain).kept == [Kept([], o)]
    ensures forall name :: o.value == "--config=" + name ==>
      ExpandOne(s, o, chain).kept ==
      if Body(s, name) == [] then [] else Under(o, Expand(s, Body(s, name), chain + [name]).kept)
  {
    ExpandConcat(s, a + [o], b, chain);
    assert (a + [o])[..|a|] == a;
    assert |"--config="| == 9;
  }

  /** On success the ancestor chain has only served as a guard. */
  lemma {:induction false} ExpansionIgnoresChain(s: Setting, args: seq<RcOption>, chain: seq<string>,
                                                 chain': seq<string>)
    requires Expand(s, args, chain).error.None? && Expand(s, args, chain').error.None?
    ensures Expand(s, args, chain).kept == Expand(s, args, chain').kept
    decreases SectionNames(s.options) - Elements(chain), |args|
  {
    if args != [] {
      var o := args[|args| - 1];
      ExpansionIgnoresChain(s, args[..|args| - 1], chain, chain');
      if IsConfig(o) && Body(s, ConfigName(o)) != [] {
        var name := ConfigName(o);
        GatheredIsNamed(s.options, Prefixes(s.command), name);
        assert name in SectionNames(s.options) - Elements(chain);
        assert name !in SectionNames(s.options) - Elements(chain + [name]);
        ExpansionIgnoresChain(s, Body(s, name), chain + [name], chain' + [name]);
      }
    }
  }

  // ---- What is reached ------------------------------------------------------------

  /** A plain option to which this chain of config flags leads from the arguments. */
  ghost predicate Reached(s: Setting, args: seq<RcOption>, k: Kept)
    decreases |k.way|
  {
    if k.way == [] then !IsConfig(k.option) && k.option in args
    else k.way[0] in args && IsConfig(k.way[0]) && Reached(s, Body(s, ConfigName(k.way[0])), Kept(k.way[1..], k.option))
  }

  lemma {:induction false} UnderAt(flag: RcOption, kept: seq<Kept>)
    ensures |Under(flag, kept)| == |kept|
    ensures forall i :: 0 <= i < |kept| ==> Under(flag, kept)[i] == Deeper(flag, kept[i])
  {
    if kept != [] {
      UnderAt(flag, kept[..|kept| - 1]);
    }
  }

  lemma ReachedMonotone(s: Setting, args: seq<RcOption>, more: seq<RcOption>, k: Kept)
    requires Reached(s, args, k) && forall o :: o in args ==> o in more
    ensures Reached(s, more, k)
  {
  }

  lemma {:induction false} KeptIsReached(s: Setting, args: seq<RcOption>, chain: seq<string>)
    ensures forall k :: k in Expand(s, args, chain).kept ==> Reached(s, args, k)
    decreases SectionNames(s.options) - Elements(chain), |args|
  {
    if args != [] {
      var n := |args| - 1;
      var o := args[n];
      var before, next := Expand(s, args[..n], chain), ExpandOne(s, o, chain);
      KeptIsReached(s, args[..n], chain);
      if IsConfig(o) && ConfigName(o) !in chain && Body(s, ConfigName(o)) != [] {
        var name := ConfigName(o);
        GatheredIsNamed(s.options, Prefixes(s.command), name);
        assert name in SectionNames(s.options) - Elements(chain);
        assert name !in SectionNames(s.options) - Elements(chain + [name]);
        KeptIsReached(s, Body(s, name), chain + [name]);
        NestedIsReached(s, args, o, Expand(s, Body(s, name), chain + [name]).kept);
      }
      forall k | k in Expand(s, args, chain).kept ensures Reached(s, args, k) {
        if k in before.kept {
          ReachedMonotone(s, args[..n], args, k);
        } else {
          assert k in next.kept;
        }
      }
    }
  }

  lemma NestedIsReached(s: Setting, args: seq<RcOption>, o: RcOption, inner: seq<Kept>)
    requires o in args && IsConfig(o)
    requires forall k :: k in inner ==> Reached(s, Body(s, ConfigName(o)), k)
    ensures forall k :: k in Under(o, inner) ==> Reached(s, args, k)
  {
    UnderAt(o, inner);
    forall k | k in Under(o, inner) ensures Reached(s, args, k) {
      var i :| 0 <= i < |inner| && k == Under(o, inner)[i];
      assert inner[i] in inner && k.way[1..] == inner[i].way;
      assert Kept(k.way[1..], k.option) == inner[i];
    }
  }

  lemma {:induction false} ReachedIsKept(s: Setting, args: seq<RcOption>, k: Kept, chain: seq<string>)
    requires Expand(s, args, chain).error.None? && Reached(s, args, k)
    ensures k in Expand(s, args, chain).kept
    decreases |k.way|
  {
    if k.way == [] {
      ArgumentIsKept(s, args, k.option, chain, k);
    } else {
      var o, deeper := k.way[0], Kept(k.way[1..], k.option);
      var name := ConfigName(o);
      BodyLeadsSomewhere(s, Body(s, name), deeper);
      ArgumentSucceeds(s, args, o, chain);
      var inner := Expand(s, Body(s, name), chain + [name]);
      ReachedIsKept(s, Body(s, name), deeper, chain + [name]);
      UnderAt(o, inner.kept);
      var i :| 0 <= i < |inner.kept| && inner.kept[i] == deeper;
      assert k.way == [o] + deeper.way;
      assert k == Under(o, inner.kept)[i];
      ArgumentIsKept(s, args, o, chain, k);
    }
  }

  lemma BodyLeadsSomewhere(s: Setting, args: seq<RcOption>, k: Kept)
    requires Reached(s, args, k)
    ensures args != []
  {
  }

  lemma {:induction false} ArgumentSucceeds(s: Setting, args: seq<RcOption>, o: RcOption, chain: seq<string>)
    requires Expand(s, args, chain).error.None? && o in args
    ensures ExpandOne(s, o, chain).error.None?
    decreases |args|
  {
    if o != args[|args| - 1] {
      assert o in args[..|args| - 1];
      ArgumentSucceeds(s, args[..|args| - 1], o, chain);
    }
  }

  lemma {:induction false} ArgumentIsKept(s: Setting, args: seq<RcOption>, o: RcOption, chain: seq<string>, k: Kept)
    requires Expand(s, args, chain).error.None? && o in args && k in ExpandOne(s, o, chain).kept
    ensures k in Expand(s, args, chain).kept
    decreases |args|
  {
    if o != args[|args| - 1] {
      assert o in args[..|args| - 1];
      ArgumentIsKept(s, args[..|args| - 1], o, chain, k);
    }
  }

  /** A successful expansion keeps exactly the plain options that configs lead to, each
      with the flags on its way. */
  lemma {:induction false} KeepsExactlyWhatIsReached(s: Setting, args: seq<RcOption>, chain: seq<string>)
    requires Expand(s, args, chain).error.None?
    ensures forall k :: k in Expand(s, args, chain).kept <==> Reached(s, args, k)
  {
    hide Expand, Reached;
    KeptIsReached(s, args, chain);
    forall k | Reached(s, args, k) ensures k in Expand(s, args, chain).kept {
      ReachedIsKept(s, args, k, chain);
    }
  }

  /** No `--config=` flag survives. */
  lemma {:induction false} NoConfigSurvives(s: Setting, args: seq<RcOption>, chain: seq<string>, i: nat)
    requires i < |Results(Expand(s, args, chain).kept)|
    ensures !IsConfig(Results(Expand(s, args, chain).kept)[i])
  {
    hide Expand, Reached;
    var kept := Expand(s, args, chain).kept;
    KeptIsReached(s, args, chain);
    ResultsAt(kept);
    ReachedIsPlain(s, args, kept[i]);
  }

  lemma {:induction false} ReachedIsPlain(s: Setting, args: seq<RcOption>, k: Kept)
    requires Reached(s, args, k)
    ensures !IsConfig(k.option)
    decreases |k.way|
  {
    if k.way != [] {
      ReachedIsPlain(s, Body(s, ConfigName(k.way[0])), Kept(k.way[1..], k.option));
    }
  }

  lemma {:induction false} ResultsAt(kept: seq<Kept>)
    ensures |Results(kept)| == |kept|
    ensures forall i :: 0 <= i < |kept| ==> Results(kept)[i] == Result(kept[i])
  {
    if kept != [] {
      ResultsAt(kept[..|kept| - 1]);
    }
  }

  // ---- When expansion succeeds -------------------------------------------------------

  /** The configs that a config's sections ask for in turn. */
  function Mentions(args: seq<RcOption>): set<string> {
    set o | o in args && IsConfig(o) :: ConfigName(o)
  }

  function ConfigGraph(s: Setting): Graph {
    map name | name in SectionNames(s.options) && Body(s, name) != [] :: Mentions(Body(s, name))
  }

  ghost function Undefined(s: Setting): iset<string> {
    iset name | Body(s, name) == [] && name !in s.skip
  }

  /** The platform's own config, asked for at the top level, may be missing. */
  predicate Exempt(s: Setting, name: string, chain: seq<string>) {
    Body(s, name) == [] && s.implicitPlatform && chain == [] && name == s.platform
  }

  ghost predicate NamePasses(s: Setting, name: string, chain: seq<string>) {
    Exempt(s, name, chain) || Descends(ConfigGraph(s), Undefined(s), name, chain)
  }

  lemma {:induction false} ExpandIff(s: Setting, args: seq<RcOption>, chain: seq<string>)
    ensures Expand(s, args, chain).error.None? <==> forall name :: name in Mentions(args) ==> NamePasses(s, name, chain)
    decreases SectionNames(s.options) - Elements(chain), 1, |args|
  {
    if args != [] {
      var n := |args| - 1;
      var o := args[n];
      ExpandIff(s, args[..n], chain);
      if IsConfig(o) {
        ExpandConfigIff(s, o, chain);
      }
      assert args == args[..n] + [o];
      forall name
        ensures name in Mentions(args) <==> name in Mentions(args[..n]) || (IsConfig(o) && name == ConfigName(o))
      {
      }
    }
  }

  lemma {:induction false} ExpandConfigIff(s: Setting, o: RcOption, chain: seq<string>)
    requires IsConfig(o)
    ensures ExpandOne(s, o, chain).error.None? <==> NamePasses(s, ConfigName(o), chain)
    decreases SectionNames(s.options) - Elements(chain), 0, 0
  {
    var name, g, bad := ConfigName(o), ConfigGraph(s), Undefined(s);
    if Body(s, name) != [] {
      GatheredIsNamed(s.options, Prefixes(s.command), name);
      if name !in chain {
        assert name in SectionNames(s.options) - Elements(chain);
        assert name !in SectionNames(s.options) - Elements(chain + [name]);
        ExpandIff(s, Body(s, name), chain + [name]);
        assert forall m :: NamePasses(s, m, chain + [name]) <==> Descends(g, bad, m, chain + [name]);
        assert g[name] == Mentions(Body(s, name));
      }
    }
  }

  /** Flags expand exactly when from every config they ask for, other than the exempt
      platform one, every chain of configs repeats none and meets only configs that are
      defined or may be missing. */
  lemma ExpandsIffConfigsAreClean(s: Setting, args: seq<RcOption>)
    ensures Expand(s, args, []).error.None? <==>
            forall name :: name in Mentions(args) ==>
              Exempt(s, name, []) || AllWalksClean(ConfigGraph(s), Undefined(s), name, [])
  {
    ExpandIff(s, args, []);
    forall name ensures NamePasses(s, name, []) <==>
                        Exempt(s, name, []) || AllWalksClean(ConfigGraph(s), Undefined(s), name, [])
    {
      DescentIffAllWalksClean(ConfigGraph(s), Undefined(s), name, []);
    }
  }

  /** An error that reports no cycle, or a real chain of configs whose last occurs earlier. */
  ghost predicate ReportsRealCycle(s: Setting, error: Option<RcError>) {
    error.Some? && error.value.ConfigCycle? ==>
      ClosesCycle(ConfigGraph(s), error.value.cycle)
  }

  /** The chain is a walk, and the options at hand are those of its last config. */
  ghost predicate OnChain(s: Setting, args: seq<RcOption>, chain: seq<string>) {
    chain != [] ==>
      && IsWalk(ConfigGraph(s), chain)
      && chain[|chain| - 1] in ConfigGraph(s)
      && forall o :: o in args && IsConfig(o) ==> ConfigName(o) in ConfigGraph(s)[chain[|chain| - 1]]
  }

  lemma {:induction false} CycleReportsAreReal(s: Setting, args: seq<RcOption>, chain: seq<string>)
    requires OnChain(s, args, chain)
    ensures ReportsRealCycle(s, Expand(s, args, chain).error)
    decreases SectionNames(s.options) - Elements(chain), 1, |args|
  {
    hide ExpandOne, Body;
    if args != [] {
      CycleReportsAreReal(s, args[..|args| - 1], chain);
      CycleReportIsReal(s, args[|args| - 1], chain);
    }
  }

  lemma {:induction false} CycleReportIsReal(s: Setting, o: RcOption, chain: seq<string>)
    requires OnChain(s, [o], chain)
    ensures ReportsRealCycle(s, ExpandOne(s, o, chain).error)
    decreases SectionNames(s.options) - Elements(chain), 0, 0
  {
    hide Expand;
    assert o in [o];
    if IsConfig(o) {
      var g, name := ConfigGraph(s), ConfigName(o);
      if chain != [] {
        WalkExtends(g, chain, name);
      }
      assert IsWalk(g, chain + [name]);
      assert (chain + [name])[..|chain|] == chain;
      if name !in chain && Body(s, name) != [] {
        GatheredIsNamed(s.options, Prefixes(s.command), name);
        assert name in SectionNames(s.options) - Elements(chain);
        assert name !in SectionNames(s.options) - Elements(chain + [name]);
        assert g[name] == Mentions(Body(s, name));
        CycleReportsAreReal(s, Body(s, name), chain + [name]);
      }
    }
  }

  /** A config cycle is only ever reported with a real chain of configs that closes. */
  lemma ReportedCycleIsReal(s: Setting, args: seq<RcOption>)
    ensures ReportsRealCycle(s, Expand(s, args, []).error)
  {
    CycleReportsAreReal(s, args, []);
  }

  /** The exemption covers the user's own request for the platform's config, beside the
      inserted one; the same request from inside another config is an error. */
  lemma PlatformRequestIsExemptAtTop(s: Setting, request: RcOption, outer: string)
    requires s.implicitPlatform && Body(s, s.platform) == [] && s.platform !in s.skip
    requires request.value == CONFIG_FLAG + s.platform && outer != s.platform
    ensures Expand(s, [request], []) == Expansion([], None)
    ensures Expand(s, [request], [outer]) == Expansion([], Some(UndefinedConfig(s.command, s.platform)))
  {
    hide Body;
    assert IsConfig(request) && ConfigName(request) == s.platform;
    assert [request][..0] == [];
  }

  // ---- Gates ----------------------------------------------------------------------

  /** The gates behind an option: those of the imports that led to its line. The option
      itself carries the innermost. */
  type Trail = RcOption -> seq<Option<string>>

  predicate Explains(trail: Trail, o: RcOption) {
    Innermost(None, trail(o)) == o.condition
  }

  /** All the gates behind a kept option and the flags on its way. */
  function Behind(trail: Trail, way: seq<RcOption>, option: RcOption): seq<Option<string>> {
    if way == [] then trail(option) else trail(way[0]) + Behind(trail, way[1..], option)
  }

  ghost predicate ExplainsWay(trail: Trail, k: Kept) {
    Explains(trail, k.option) && forall o :: o in k.way ==> Explains(trail, o)
  }

  /** Options carry no more than their own condition: config gates only. */
  function OwnGate(): Trail {
    (o: RcOption) => [o.condition]
  }

  lemma {:induction false} OwnGatesBehind(way: seq<RcOption>, option: RcOption)
    ensures Behind(OwnGate(), way, option) == Gates(way, option)
    ensures forall o :: Explains(OwnGate(), o)
  {
    if way != [] {
      OwnGatesBehind(way[1..], option);
    } else {
      assert forall o: RcOption :: Innermost(None, [o.condition]) == Inherit(None, o.condition) == o.condition;
    }
  }

  /** Expansion sees one condition per flag, yet passes on the innermost gate of all. */
  lemma {:induction false} InnermostBehind(outer: Option<string>, trail: Trail, way: seq<RcOption>, option: RcOption)
    requires ExplainsWay(trail, Kept(way, option))
    ensures Innermost(outer, Behind(trail, way, option)) == Innermost(outer, Gates(way, option))
    decreases |way|
  {
    if way == [] {
      InnermostInherits(outer, trail(option));
      InnermostStep(outer, option.condition, []);
    } else {
      assert way[0] in Kept(way, option).way && Explains(trail, way[0]);
      InnermostConcat(outer, trail(way[0]), Behind(trail, way[1..], option));
      InnermostInherits(outer, trail(way[0]));
      InnermostBehind(Inherit(outer, way[0].condition), trail, way[1..], option);
      InnermostStep(outer, way[0].condition, Gates(way[1..], option));
    }
  }

  function AllGatesHold(holds: string -> bool, trail: Trail): Kept -> bool {
    (k: Kept) => AllHold(holds, Behind(trail, k.way, k.option))
  }

  function InnerGateHolds(holds: string -> bool): Kept -> bool {
    (k: Kept) => ConditionHolds(holds, Innermost(None, Gates(k.way, k.option)))
  }

  /** Filtering the expanded options looks at the innermost gate only. */
  lemma {:induction false} FilteringSeesInnermost(holds: string -> bool, kept: seq<Kept>)
    ensures Filter(AppliesTo(holds), Results(kept)) == Results(Filter(InnerGateHolds(holds), kept))
  {
    hide Innermost, Gates;
    if kept != [] {
      var n := |kept| - 1;
      FilteringSeesInnermost(holds, kept[..n]);
      FilterSnoc(AppliesTo(holds), Results(kept[..n]), Result(kept[n]));
      FilterSnoc(InnerGateHolds(holds), kept[..n], kept[n]);
      assert kept == kept[..n] + [kept[n]];
      if InnerGateHolds(holds)(kept[n]) {
        ResultsConcat(Filter(InnerGateHolds(holds), kept[..n]), [kept[n]]);
        assert Results([kept[n]]) == [Result(kept[n])];
      } else {
        assert Filter(InnerGateHolds(holds), kept) == Filter(InnerGateHolds(holds), kept[..n]);
      }
    }
  }

  lemma {:induction false} ResultsSubsequence(sub: seq<Kept>, all: seq<Kept>)
    requires IsSubsequence(sub, all)
    ensures IsSubsequence(Results(sub), Results(all))
  {
    if sub != [] {
      var rest := all[1..];
      ResultsCons(all);
      if sub[0] == all[0] {
        ResultsCons(sub);
        ResultsSubsequence(sub[1..], rest);
        assert ([Result(sub[0])] + Results(sub[1..]))[1..] == Results(sub[1..]);
        assert ([Result(all[0])] + Results(rest))[1..] == Results(rest);
      } else {
        ResultsSubsequence(sub, rest);
        SubsequenceSkip(Results(sub), Result(all[0]), Results(rest));
      }
    }
  }

  lemma ResultsCons(kept: seq<Kept>)
    requires kept != []
    ensures Results(kept) == [Result(kept[0])] + Results(kept[1..])
  {
    ResultsConcat([kept[0]], kept[1..]);
    assert [kept[0]] + kept[1..] == kept;
    assert Results([kept[0]]) == [Result(kept[0])];
  }

  /** Some option is kept although a gate behind it or a flag on its way fails: it is
      reached under a holding innermost gate that hides a failing one. */
  ghost predicate HidesFailingGate(s: Setting, args: seq<RcOption>, holds: string -> bool, trail: Trail) {
    exists k :: Reached(s, args, k)
      && ConditionHolds(holds, Innermost(None, Gates(k.way, k.option)))
      && !AllHold(holds, Behind(trail, k.way, k.option))
  }

  /** The trail explains every flag and option that the arguments lead to. */
  ghost predicate ExplainsAll(s: Setting, args: seq<RcOption>, trail: Trail) {
    forall k :: Reached(s, args, k) ==> ExplainsWay(trail, k)
  }

  lemma StrictImpliesInner(holds: string -> bool, trail: Trail, k: Kept)
    requires ExplainsWay(trail, k)
    ensures AllGatesHold(holds, trail)(k) ==> InnerGateHolds(holds)(k)
  {
    InnermostBehind(None, trail, k.way, k.option);
    if AllHold(holds, Behind(trail, k.way, k.option)) {
      AllHoldImpliesInnermost(holds, None, Behind(trail, k.way, k.option));
    }
  }

  /** The options all of whose gates hold, those behind each flag on the way included, form
      a subsequence of those that filtering keeps. Nothing else is kept exactly when no
      chain of configs leads to an option with a failing gate hidden behind a holding one. */
  lemma StrictGatesKeepSubsequence(s: Setting, args: seq<RcOption>, holds: string -> bool, trail: Trail)
    requires Expand(s, args, []).error.None? && ExplainsAll(s, args, trail)
    ensures var kept := Expand(s, args, []).kept;
      var strict, filtered :=
        Results(Filter(AllGatesHold(holds, trail), kept)), Filter(AppliesTo(holds), Results(kept));
      IsSubsequence(strict, filtered) && (strict == filtered <==> !HidesFailingGate(s, args, holds, trail))
  {
    hide Expand, Reached, Results, Filter, Gates, Behind, Innermost, IsSubsequence;
    var kept, p, q := Expand(s, args, []).kept, AllGatesHold(holds, trail), InnerGateHolds(holds);
    KeepsExactlyWhatIsReached(s, args, []);
    forall k | k in kept && p(k) ensures q(k) {
      StrictImpliesInner(holds, trail, k);
    }
    FilteringSeesInnermost(holds, kept);
    StrongerFilterIsSubsequence(p, q, kept);
    ResultsSubsequence(Filter(p, kept), Filter(q, kept));
    EqualFiltersAgree(p, q, kept);
    ResultsAt(Filter(p, kept));
    ResultsAt(Filter(q, kept));
    if !HidesFailingGate(s, args, holds, trail) {
      forall k | k in kept ensures p(k) == q(k) {
        assert q(k) ==> p(k);
      }
      FiltersAgree(p, q, kept);
    }
  }

  /** At most one distinct gate on the way to each option: then filtering is exact. */
  lemma SingleGatesFilterExactly(s: Setting, args: seq<RcOption>, holds: string -> bool, trail: Trail)
    requires Expand(s, args, []).error.None? && ExplainsAll(s, args, trail)
    requires forall k :: Reached(s, args, k) ==> AtMostOneGate(Behind(trail, k.way, k.option))
    ensures var kept := Expand(s, args, []).kept;
      Filter(AppliesTo(holds), Results(kept)) == Results(Filter(AllGatesHold(holds, trail), kept))
  {
    hide Expand, Reached, Results, Filter, Gates, Behind, Innermost;
    forall k | Reached(s, args, k)
      ensures ConditionHolds(holds, Innermost(None, Gates(k.way, k.option))) ==>
        AllHold(holds, Behind(trail, k.way, k.option))
    {
      InnermostBehind(None, trail, k.way, k.option);
      SingleGateDecides(holds, Behind(trail, k.way, k.option));
    }
    StrictGatesKeepSubsequence(s, args, holds, trail);
  }

  function PlainFlag(value: string, key: string, gate: string): RcOption {
    RcOption(value, key, 0, Some(gate))
  }

  /** A setting with one config section, for `build`. */
  function OneConfig(name: string, flag: RcOption): Setting {
    Setting(map["build" + ":" + name := [flag]], "build", [], false, "linux")
  }

  /** The two do differ: a config asked for under one gate, whose section stands under
      another, is kept by the inner gate alone, whatever the config and its flag. */
  lemma NestedGateReplacesOuter(outer: string, inner: string, name: string, value: string, holds: string -> bool)
    requires !holds(outer) && holds(inner) && !(CONFIG_FLAG <= value)
    ensures var flag, config :=
      PlainFlag(value, "build" + ":" + name, inner), PlainFlag(CONFIG_FLAG + name, "build", outer);
      var all := Expand(OneConfig(name, flag), [config], []);
      && all.error.None?
      && Filter(AppliesTo(holds), Results(all.kept)) == [flag]
      && Filter(AllGatesHold(holds, OwnGate()), all.kept) == []
  {
    hide Expand, Body, OneConfig, Behind, Gates, Filter, Innermost;
    var flag, config := PlainFlag(value, "build" + ":" + name, inner), PlainFlag(CONFIG_FLAG + name, "build", outer);
    var k := Kept([config], flag);
    OneConfigBody(name, flag);
    ExpandsToNested(OneConfig(name, flag), config, flag, name);
    NestedGates(config, flag, outer, inner, holds);
    OneResult(k);
    FilterAll(AppliesTo(holds), [flag]);
    NoneFilter(AllGatesHold(holds, OwnGate()), [k]);
  }

  lemma NestedGates(config: RcOption, flag: RcOption, outer: string, inner: string, holds: string -> bool)
    requires config.condition == Some(outer) && flag.condition == Some(inner) && !holds(outer)
    ensures Innermost(None, Gates([config], flag)) == Some(inner)
    ensures !AllHold(holds, Behind(OwnGate(), [config], flag))
  {
    OwnGatesBehind([config], flag);
    DeeperGates(config, Kept([], flag));
    assert [config] + [] == [config];
    var gates := [Some(outer)] + [Some(inner)];
    assert Gates([config], flag) == gates && gates[0] == Some(outer);
    InnermostStep(None, Some(outer), [Some(inner)]);
    InnermostStep(Some(outer), Some(inner), []);
    assert [Some(inner)] + [] == [Some(inner)];
  }

  lemma OneResult(k: Kept)
    ensures Results([k]) == [Result(k)]
  {
  }

  lemma ExpandSingle(s: Setting, o: RcOption, chain: seq<string>)
    ensures Expand(s, [o], chain) == ExpandOne(s, o, chain)
  {
    hide ExpandOne;
    assert [o][..0] == [];
  }

  lemma ExpandsToNested(s: Setting, config: RcOption, flag: RcOption, name: string)
    requires config.value == CONFIG_FLAG + name && !IsConfig(flag) && Body(s, name) == [flag]
    ensures Expand(s, [config], []) == Expansion([Kept([config], flag)], None)
  {
    hide Body, Expand;
    assert IsConfig(config) && ConfigName(config) == name;
    ExpandSingle(s, config, []);
    ExpandSingle(s, flag, [] + [name]);
    UnderAt(config, [Kept([], flag)]);
    assert [config] + [] == [config];
    assert Under(config, [Kept([], flag)]) == [Kept([config], flag)];
  }

  lemma GatherSnoc(options: Options, prefixes: seq<string>, prefix: string, name: string)
    ensures GatherSections(options, prefixes + [prefix], name) ==
            GatherSections(options, prefixes, name) + RawOptions(options, prefix + ":" + name)
  {
    assert (prefixes + [prefix])[..|prefixes|] == prefixes;
  }

  lemma OneConfigBody(name: string, flag: RcOption)
    ensures Body(OneConfig(name, flag), name) == [flag]
  {
    hide GatherSections;
    var options := OneConfig(name, flag).options;
    assert Prefixes("build") == [] + ["always"] + ["common"] + ["build"];
    GatherSnoc(options, [], "always", name);
    GatherSnoc(options, [] + ["always"], "common", name);
    GatherSnoc(options, [] + ["always"] + ["common"], "build", name);
    GatherNothing(options, name);
    assert ("always" + ":" + name)[0] == 'a' && ("common" + ":" + name)[0] == 'c' && ("build" + ":" + name)[0] == 'b';
  }

  lemma GatherNothing(options: Options, name: string)
    ensures GatherSections(options, [], name) == []
  {
  }
}
