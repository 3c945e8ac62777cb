/** What splitting a flag list for the command line keeps: every option, and the readings of
    one section. */
module FlagTheory {
  import opened Prelude
  import opened Rc
  import opened FlagValues

  function Commons(opts: seq<RcOption>): seq<RcOption> {
    Filter((o: RcOption) => IsCommon(o), opts)
  }

  function Others(opts: seq<RcOption>): seq<RcOption> {
    Filter((o: RcOption) => !IsCommon(o), opts)
  }

  function AsFlags(opts: seq<RcOption>): (flags: seq<Flag>)
    ensures |flags| == |opts|
    ensures forall i :: 0 <= i < |opts| ==> flags[i] == Flag(opts[i].value, opts[i].condition)
  {
    if opts == [] then [] else [Flag(opts[0].value, opts[0].condition)] + AsFlags(opts[1..])
  }

  lemma FirstOption(opts: seq<RcOption>)
    requires opts != []
    ensures Commons(opts) == if IsCommon(opts[0]) then [opts[0]] + Commons(opts[1..]) else Commons(opts[1..])
    ensures Others(opts) == if IsCommon(opts[0]) then Others(opts[1..]) else [opts[0]] + Others(opts[1..])
  {
  }

  lemma FirstPair(opts: seq<RcOption>)
    requires |opts| > 1 && IsCommon(opts[0]) && IsTwoTokenPair(opts[0], opts[1])
    ensures Commons(opts) == [opts[0]] + ([opts[1]] + Commons(opts[2..]))
  {
    assert opts[1..][1..] == opts[2..];
    FirstOption(opts);
    FirstOption(opts[1..]);
  }

  // ---- Conservation ---------------------------------------------------------------------

  /** The groups use every common option exactly once and in order. */
  lemma {:induction false} GroupsUseEachCommonOnce(opts: seq<RcOption>)
    ensures Flatten(Groups(opts)) == Commons(opts)
    decreases |opts|
  {
    if opts != [] {
      var groups := Groups(opts);
      if IsCommon(opts[0]) && |opts| > 1 && IsTwoTokenPair(opts[0], opts[1]) {
        GroupsUseEachCommonOnce(opts[2..]);
        assert groups[1..] == Groups(opts[2..]);
        FirstPair(opts);
        assert opts[..2] == [opts[0]] + [opts[1]];
      } else {
        GroupsUseEachCommonOnce(opts[1..]);
        if IsCommon(opts[0]) {
          assert groups[1..] == Groups(opts[1..]);
          assert opts[..1] == [opts[0]];
        }
      }
    }
  }

  /** All other options pass through unchanged, in order, with their gates. */
  lemma {:induction false} OthersPassThrough(opts: seq<RcOption>)
    ensures RegularFlags(opts) == AsFlags(Others(opts))
  {
    if opts != [] {
      OthersPassThrough(opts[1..]);
      if !IsCommon(opts[0]) {
        assert Others(opts)[1..] == Others(opts[1..]);
      }
    }
  }

  /** The split, option by option, from section and text: what is not in a `common` section
      is a flag of its own; what is becomes a default override, with the value behind it
      folded in if that stands in the same section under the same gate. */
  lemma SplitByOption(o: RcOption, rest: seq<RcOption>)
    ensures var all := [o] + rest;
      var overrides, flags := OverrideFlags(FoldedCommon(all)), RegularFlags(all);
      var isPair := rest != [] && "-" <= o.value && '=' !in o.value && !("-" <= rest[0].value)
        && o.command == rest[0].command && o.condition == rest[0].condition;
      if !(o.command == "common" || "common:" <= o.command) then
        && overrides == OverrideFlags(FoldedCommon(rest))
        && flags == [Flag(o.value, o.condition)] + RegularFlags(rest)
      else if isPair then
        && overrides == [Flag("--default_override=0:common=" + (o.value + "=" + rest[0].value), o.condition)]
                        + OverrideFlags(FoldedCommon(rest[1..]))
        && flags == RegularFlags(rest[1..])
      else
        && overrides == [Flag("--default_override=0:common=" + o.value, o.condition)]
                        + OverrideFlags(FoldedCommon(rest))
        && flags == RegularFlags(rest)
  {
    hide FoldedCommon, OverrideFlags, RegularFlags;
    var all := [o] + rest;
    assert all[1..] == rest;
    if !IsCommon(o) {
      RegularPasses(all);
    } else if rest != [] && IsTwoTokenPair(o, rest[0]) {
      PairFolds(all);
      assert all[2..] == rest[1..];
    } else {
      SingleFolds(all);
    }
  }

  // ---- Folding keeps readings -------------------------------------------------------------

  /** A dash-led flag name without `=`. */
  predicate IsFlagName(name: string) {
    Dashed(name) && '=' !in name
  }

  predicate OneSection(opts: seq<RcOption>) {
    forall i, j :: 0 <= i < |opts| && 0 <= j < |opts| ==>
      opts[i].command == opts[j].command && opts[i].condition == opts[j].condition
  }

  lemma FlagNamePrefix(flag: string, value: string, name: string)
    requires '=' !in flag && '=' !in name
    ensures name + "=" <= flag + "=" + value <==> name == flag
    ensures (flag + "=" + value)[|flag| + 1..] == value
  {
    var text, prefix := flag + "=" + value, name + "=";
    assert text[|flag|] == '=' && prefix[|name|] == '=';
    assert |name| < |flag| ==> text[|name|] == flag[|name|];
    assert |flag| < |name| ==> prefix[|flag|] == name[|flag|];
    if prefix <= text {
      assert text[|name|] == prefix[|name|];
      assert |name| == |flag|;
      assert name == prefix[..|name|] == text[..|flag|] == flag;
    }
  }

  /** A value token is no setting of any flag by itself. */
  lemma PlainTokenSetsNothing(o: RcOption, next: Option<RcOption>, name: string)
    requires IsFlagName(name) && !Dashed(o.value)
    ensures ValueOf(o, next, name) == []
  {
    assert name[0] == '-' && (name + "=")[0] == '-';
    assert o.value != "" && o.value[0] == '-' ==> "-" <= o.value;
  }

  /** A pair contributes what its `=` form contributes. */
  lemma PairReadsAsOne(flag: RcOption, value: RcOption, next: Option<RcOption>, next': Option<RcOption>, name: string)
    requires IsFlagName(name) && IsTwoTokenPair(flag, value)
    ensures ValueOf(flag, Some(value), name) + ValueOf(value, next, name) ==
            ValueOf(flag.(value := flag.value + "=" + value.value), next', name)
  {
    FlagNamePrefix(flag.value, value.value, name);
    PlainTokenSetsNothing(value, next, name);
    assert (flag.value + "=" + value.value) != name by {
      assert (flag.value + "=" + value.value)[|flag.value|] == '=';
    }
    assert (name + "=")[|name|] == '=';
  }

  lemma SingleReadsAlike(o: RcOption, next: Option<RcOption>, next': Option<RcOption>, name: string)
    requires IsFlagName(name)
    requires next.Some? && !Dashed(next.value.value) && o.value == name ==>
      next'.Some? && next'.value.value == next.value.value
    requires next'.Some? && !Dashed(next'.value.value) && o.value == name ==>
      next.Some? && next.value.value == next'.value.value
    ensures ValueOf(o, next, name) == ValueOf(o, next', name)
  {
  }

  /** For options of one section under one gate, any flag reads the same from the folded
      list as from the list itself. */
  lemma {:induction false} FoldingKeepsValues(opts: seq<RcOption>, name: string)
    requires IsFlagName(name) && OneSection(opts) && (opts != [] ==> IsCommon(opts[0]))
    ensures Values(FoldedCommon(opts), name) == Values(opts, name)
    decreases |opts|
  {
    if opts != [] {
      var pair := |opts| > 1 && IsTwoTokenPair(opts[0], opts[1]);
      var n := if pair then 2 else 1;
      var rest := opts[n..];
      assert OneSection(rest) by {
        assert forall i :: 0 <= i < |rest| ==> rest[i] == opts[i + n];
      }
      assert rest != [] ==> IsCommon(rest[0]);
      FoldingKeepsValues(rest, name);
      if pair {
        FoldPairKeepsValues(opts, name);
      } else {
        FoldSingleKeepsValues(opts, name);
      }
    }
  }

  lemma FoldPairKeepsValues(opts: seq<RcOption>, name: string)
    requires IsFlagName(name) && |opts| > 1 && IsCommon(opts[0]) && IsTwoTokenPair(opts[0], opts[1])
    requires Values(FoldedCommon(opts[2..]), name) == Values(opts[2..], name)
    ensures Values(FoldedCommon(opts), name) == Values(opts, name)
  {
    hide FoldedCommon, ValueOf, Values;
    var rest, folded := opts[2..], FoldedCommon(opts[2..]);
    PairFolds(opts);
    var one := opts[0].(value := opts[0].value + "=" + opts[1].value);
    assert ([one] + folded)[1..] == folded;
    assert opts[1..][1..] == rest;
    PairReadsAsOne(opts[0], opts[1], Head(rest, None), Head(folded, None), name);
    ValuesCons(opts, name);
    ValuesCons(opts[1..], name);
    ValuesCons([one] + folded, name);
    var a, b, c := ValueOf(opts[0], Some(opts[1]), name), ValueOf(opts[1], Head(rest, None), name), Values(rest, name);
    assert a + (b + c) == (a + b) + c;
  }

  lemma ValuesCons(opts: seq<RcOption>, name: string)
    requires opts != []
    ensures Values(opts, name) == ValueOf(opts[0], Head(opts[1..], None), name) + Values(opts[1..], name)
  {
  }

  lemma FoldSingleKeepsValues(opts: seq<RcOption>, name: string)
    requires IsFlagName(name) && opts != [] && IsCommon(opts[0]) && OneSection(opts)
    requires !(|opts| > 1 && IsTwoTokenPair(opts[0], opts[1]))
    requires Values(FoldedCommon(opts[1..]), name) == Values(opts[1..], name)
    ensures Values(FoldedCommon(opts), name) == Values(opts, name)
  {
    var rest, folded := opts[1..], FoldedCommon(opts[1..]);
    SingleFolds(opts);
    assert ([opts[0]] + folded)[1..] == folded;
    if opts[0].value == name && rest != [] {
      // A bare flag that was not paired is followed by a dash-led token, folded or not.
      assert IsCommon(rest[0]);
      assert Dashed(rest[0].value);
      FirstFoldedStartsAlike(rest);
      assert Dashed(folded[0].value);
    }
    SingleReadsAlike(opts[0], Head(rest, None), Head(folded, None), name);
  }

  lemma FirstFoldedStartsAlike(opts: seq<RcOption>)
    requires opts != [] && IsCommon(opts[0])
    ensures FoldedCommon(opts) != [] && opts[0].value <= FoldedCommon(opts)[0].value
  {
    if |opts| > 1 && IsTwoTokenPair(opts[0], opts[1]) {
      PairFolds(opts);
      assert opts[0].value <= opts[0].value + "=" + opts[1].value;
    } else {
      SingleFolds(opts);
    }
  }
}
