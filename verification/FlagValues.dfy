/** Reading flags off an option list, and splitting the list for the command line
    (crates/bazelrc/src/lib.rs). */
module FlagValues {
  import opened Prelude
  import opened Rc

  predicate Dashed(value: string) {
    "-" <= value
  }

  // ---- Values of a repeatable flag ----------------------------------------------------

  /** What one option contributes, given the option after it. */
  function ValueOf(o: RcOption, next: Option<RcOption>, name: string): seq<string> {
    if name + "=" <= o.value then [o.value[|name| + 1..]]
    else if o.value == name && next.Some? && !Dashed(next.value.value) then [next.value.value]
    else []
  }

  function Head(opts: seq<RcOption>, after: Option<RcOption>): Option<RcOption> {
    if opts == [] then after else Some(opts[0])
  }

  /** The values among `opts` when `after` is what follows them. */
  function ValuesBefore(opts: seq<RcOption>, after: Option<RcOption>, name: string): seq<string> {
    if opts == [] then []
    else ValueOf(opts[0], Head(opts[1..], after), name) + ValuesBefore(opts[1..], after, name)
  }

  function Values(opts: seq<RcOption>, name: string): seq<string> {
    ValuesBefore(opts, None, name)
  }

  method FlagValueList(opts: seq<RcOption>, name: string) returns (values: seq<string>)
    ensures values == Values(opts, name)
  {
    values := [];
    var eqPrefix, i := name + "=", 0;
    assert opts[0..] == opts;
    while i < |opts|
      invariant 0 <= i <= |opts|
      invariant values + Values(opts[i..], name) == Values(opts, name)
    {
      var v := opts[i].value;
      ghost var rest := opts[i..];
      assert rest[0] == opts[i] && rest[1..] == opts[i + 1..];
      assert Values(rest, name) == ValueOf(opts[i], Head(opts[i + 1..], None), name) + Values(opts[i + 1..], name);
      if eqPrefix <= v {
        values := values + [v[|eqPrefix|..]];
      } else if v == name {
        if i + 1 < |opts| && !Dashed(opts[i + 1].value) {
          values := values + [opts[i + 1].value];
        }
      }
      i := i + 1;
    }
  }

  /** Options in front of others add values in front of theirs. */
  lemma {:induction false} ValuesConcat(a: seq<RcOption>, b: seq<RcOption>, after: Option<RcOption>, name: string)
    ensures ValuesBefore(a + b, after, name) == ValuesBefore(a, Head(b, after), name) + ValuesBefore(b, after, name)
  {
    if a == [] {
      assert a + b == b;
    } else {
      assert (a + b)[1..] == a[1..] + b;
      ValuesConcat(a[1..], b, after, name);
    }
  }

  // ---- A boolean flag -------------------------------------------------------------------

  function BoolOf(value: string, name: string): Option<bool> {
    var bare := if "--" <= name then name[2..] else name;
    if value == name then Some(true)
    else if value == "--no" + bare then Some(false)
    else if name + "=" <= value then
      var rest := value[|name| + 1..];
      if rest == "true" || rest == "1" || rest == "yes" then Some(true)
      else if rest == "false" || rest == "0" || rest == "no" then Some(false)
      else None
    else None
  }

  /** The last option that sets the flag decides. */
  function LastBool(opts: seq<RcOption>, name: string): Option<bool> {
    if opts == [] then None
    else
      var n := |opts| - 1;
      var last := BoolOf(opts[n].value, name);
      if last.Some? then last else LastBool(opts[..n], name)
  }

  method LastBoolFlag(opts: seq<RcOption>, name: string) returns (state: Option<bool>)
    ensures state == LastBool(opts, name)
  {
    var bare := if "--" <= name then name[2..] else name;
    var negated, eqPrefix, i := "--no" + bare, name + "=", 0;
    state := None;
    while i < |opts|
      invariant 0 <= i <= |opts| && state == LastBool(opts[..i], name)
    {
      assert opts[..i + 1][..i] == opts[..i];
      var v := opts[i].value;
      if v == name {
        state := Some(true);
      } else if v == negated {
        state := Some(false);
      } else if eqPrefix <= v {
        var rest := v[|eqPrefix|..];
        if rest == "true" || rest == "1" || rest == "yes" {
          state := Some(true);
        } else if rest == "false" || rest == "0" || rest == "no" {
          state := Some(false);
        }
      }
      i := i + 1;
    }
    assert opts[..i] == opts;
  }

  lemma {:induction false} LastBoolConcat(a: seq<RcOption>, b: seq<RcOption>, name: string)
    ensures LastBool(a + b, name) == if LastBool(b, name).Some? then LastBool(b, name) else LastBool(a, name)
  {
    if b == [] {
      assert a + b == a;
    } else {
      var n := |b| - 1;
      assert (a + b)[..|a + b| - 1] == a + b[..n];
      LastBoolConcat(a, b[..n], name);
    }
  }

  // ---- Splitting for the command line ------------------------------------------------------

  const OVERRIDE := "--default_override=0:common="

  datatype Flag = Flag(text: string, condition: Option<string>)

  predicate IsCommon(o: RcOption) {
    o.command == "common" || "common:" <= o.command
  }

  /** A bare flag and its value: two tokens of one section under one gate. */
  predicate IsTwoTokenPair(flag: RcOption, value: RcOption) {
    && Dashed(flag.value) && '=' !in flag.value && !Dashed(value.value)
    && flag.command == value.command && flag.condition == value.condition
  }

  /** The common options, cut into single flags and flag-value pairs. */
  function Groups(opts: seq<RcOption>): seq<seq<RcOption>>
    decreases |opts|
  {
    if opts == [] then []
    else if !IsCommon(opts[0]) then Groups(opts[1..])
    else if |opts| > 1 && IsTwoTokenPair(opts[0], opts[1]) then [opts[..2]] + Groups(opts[2..])
    else [opts[..1]] + Groups(opts[1..])
  }

  /** A group as one token: a pair in its `=` form. */
  function Fold(group: seq<RcOption>): RcOption
    requires |group| == 1 || |group| == 2
  {
    if |group| == 2 then group[0].(value := group[0].value + "=" + group[1].value) else group[0]
  }

  predicate SmallGroups(groups: seq<seq<RcOption>>) {
    forall i :: 0 <= i < |groups| ==> |groups[i]| == 1 || |groups[i]| == 2
  }

  function FoldAll(groups: seq<seq<RcOption>>): seq<RcOption>
    requires SmallGroups(groups)
  {
    if groups == [] then [] else [Fold(groups[0])] + FoldAll(groups[1..])
  }

  function OverrideFlags(folded: seq<RcOption>): seq<Flag> {
    if folded == [] then [] else [Flag(OVERRIDE + folded[0].value, folded[0].condition)] + OverrideFlags(folded[1..])
  }

  function RegularFlags(opts: seq<RcOption>): seq<Flag> {
    if opts == [] then []
    else (if IsCommon(opts[0]) then [] else [Flag(opts[0].value, opts[0].condition)]) + RegularFlags(opts[1..])
  }

  lemma {:induction false} GroupsAreSmall(opts: seq<RcOption>)
    ensures SmallGroups(Groups(opts))
    decreases |opts|
  {
    if opts != [] {
      GroupsAreSmall(opts[1..]);
      if |opts| > 1 {
        GroupsAreSmall(opts[2..]);
      }
    }
  }

  /** The common options as single tokens, in order. */
  function FoldedCommon(opts: seq<RcOption>): seq<RcOption> {
    GroupsAreSmall(opts);
    FoldAll(Groups(opts))
  }

  /** Text before the first colon, or all of it. */
  function SectionBase(key: string): (base: string)
    ensures ':' !in base
    ensures base == key || base + ":" <= key
  {
    if key == "" || key[0] == ':' then "" else [key[0]] + SectionBase(key[1..])
  }

  lemma {:induction false} BaseOf(base: string, key: string)
    requires ':' !in base
    ensures SectionBase(key) == base <==> (key == base || base + ":" <= key)
  {
    if base != "" && key != "" && key[0] == base[0] {
      BaseOf(base[1..], key[1..]);
      assert base + ":" <= key <==> base[1..] + ":" <= key[1..] by {
        assert (base + ":")[1..] == base[1..] + ":";
      }
    }
  }

  method PartitionExpandAll(opts: seq<RcOption>) returns (overrides: seq<Flag>, flags: seq<Flag>)
    ensures overrides == OverrideFlags(FoldedCommon(opts))
    ensures flags == RegularFlags(opts)
  {
    hide FoldedCommon, OverrideFlags, RegularFlags;
    overrides, flags := [], [];
    var i := 0;
    assert opts[0..] == opts;
    while i < |opts|
      invariant 0 <= i <= |opts|
      invariant overrides + OverrideFlags(FoldedCommon(opts[i..])) == OverrideFlags(FoldedCommon(opts))
      invariant flags + RegularFlags(opts[i..]) == RegularFlags(opts)
    {
      var opt := opts[i];
      ghost var rest := opts[i..];
      assert rest[1..] == opts[i + 1..];
      BaseOf("common", opt.command);
      if SectionBase(opt.command) == "common" {
        var value := opt.value;
        if i + 1 < |opts| && IsTwoTokenPair(opt, opts[i + 1]) {
          value := opt.value + "=" + opts[i + 1].value;
          assert rest[2..] == opts[i + 2..];
          PairFolds(rest);
          i := i + 1;
        } else {
          SingleFolds(rest);
        }
        var flag := Flag(OVERRIDE + value, opt.condition);
        Reassociate(overrides, flag, OverrideFlags(FoldedCommon(opts[i + 1..])));
        overrides := overrides + [flag];
      } else {
        RegularPasses(rest);
        var flag := Flag(opt.value, opt.condition);
        Reassociate(flags, flag, RegularFlags(opts[i + 1..]));
        flags := flags + [flag];
      }
      i := i + 1;
    }
    assert opts[i..] == [];
    NothingLeft();
  }

  lemma NothingLeft()
    ensures OverrideFlags(FoldedCommon([])) == [] && RegularFlags([]) == []
  {
  }

  lemma RegularPasses(opts: seq<RcOption>)
    requires opts != [] && !IsCommon(opts[0])
    ensures FoldedCommon(opts) == FoldedCommon(opts[1..])
    ensures RegularFlags(opts) == [Flag(opts[0].value, opts[0].condition)] + RegularFlags(opts[1..])
  {
  }

  lemma PairFolds(opts: seq<RcOption>)
    requires |opts| > 1 && IsCommon(opts[0]) && IsTwoTokenPair(opts[0], opts[1])
    ensures OverrideFlags(FoldedCommon(opts)) ==
            [Flag(OVERRIDE + (opts[0].value + "=" + opts[1].value), opts[0].condition)] +
              OverrideFlags(FoldedCommon(opts[2..]))
    ensures RegularFlags(opts) == RegularFlags(opts[2..])
    ensures FoldedCommon(opts) == [opts[0].(value := opts[0].value + "=" + opts[1].value)] + FoldedCommon(opts[2..])
  {
    assert opts[1..][1..] == opts[2..];
    var folded := Fold(opts[..2]);
    assert Groups(opts)[1..] == Groups(opts[2..]);
    assert ([folded] + FoldedCommon(opts[2..]))[1..] == FoldedCommon(opts[2..]);
  }

  lemma {:induction false} SingleFolds(opts: seq<RcOption>)
    requires opts != [] && IsCommon(opts[0]) && !(|opts| > 1 && IsTwoTokenPair(opts[0], opts[1]))
    ensures OverrideFlags(FoldedCommon(opts)) ==
            [Flag(OVERRIDE + opts[0].value, opts[0].condition)] + OverrideFlags(FoldedCommon(opts[1..]))
    ensures RegularFlags(opts) == RegularFlags(opts[1..])
    ensures FoldedCommon(opts) == [opts[0]] + FoldedCommon(opts[1..])
  {
    assert Groups(opts)[1..] == Groups(opts[1..]);
    assert ([opts[0]] + FoldedCommon(opts[1..]))[1..] == FoldedCommon(opts[1..]);
  }
}
