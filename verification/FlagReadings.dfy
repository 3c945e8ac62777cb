/** What a flag says on the command line that an option list is split into, against what a
    query reads from the list itself, for values and for booleans alike. */
module FlagReadings {
  import opened Prelude
  import opened Rc
  import opened FlagValues
  import opened FlagTheory

  // ---- Readers ------------------------------------------------------------------------------

  /** What one token says of a flag, given the token after it: nothing or one thing. */
  type Reader<T> = (string, Option<string>) -> seq<T>

  function AfterEq(text: string, name: string): seq<string> {
    if name + "=" <= text then [text[|name| + 1..]] else []
  }

  /** A value in `=` form, or as the next token. */
  function ValueReader(name: string): Reader<string> {
    (text: string, next: Option<string>) =>
      if name + "=" <= text then AfterEq(text, name)
      else if text == name && next.Some? && !Dashed(next.value) then [next.value]
      else []
  }

  /** A boolean, in one token. */
  function BoolReader(name: string): Reader<bool> {
    (text: string, next: Option<string>) => Known(BoolOf(text, name))
  }

  function Known<T>(value: Option<T>): seq<T> {
    if value.Some? then [value.value] else []
  }

  /** Tokens that do not start with a dash say nothing by themselves. */
  ghost predicate SkipsValues<T(!new)>(read: Reader<T>) {
    forall text, next :: !Dashed(text) ==> read(text, next) == []
  }

  lemma ReadersSkipValues(name: string)
    requires Dashed(name)
    ensures SkipsValues(ValueReader(name)) && SkipsValues(BoolReader(name))
  {
    assert name[0] == '-' && (name + "=")[0] == '-';
    forall text: string | !Dashed(text)
      ensures !(name + "=" <= text) && text != name && BoolOf(text, name).None?
    {
      assert text != "" && text[0] == '-' ==> "-" <= text;
    }
  }

  function LastOf<T>(said: seq<T>): Option<T> {
    if said == [] then None else Some(said[|said| - 1])
  }

  // ---- The query --------------------------------------------------------------------------------

  function TextOf(o: Option<RcOption>): Option<string> {
    if o.Some? then Some(o.value.value) else None
  }

  /** What a query reads at an option followed by `rest`. */
  function Asks<T>(read: Reader<T>, o: RcOption, rest: seq<RcOption>): seq<T> {
    read(o.value, TextOf(Head(rest, None)))
  }

  function Asked<T>(read: Reader<T>, opts: seq<RcOption>): seq<T> {
    if opts == [] then [] else Asks(read, opts[0], opts[1..]) + Asked(read, opts[1..])
  }

  lemma ValueIsAsked(o: RcOption, next: Option<RcOption>, name: string)
    ensures ValueOf(o, next, name) == ValueReader(name)(o.value, TextOf(next))
  {
    if name + "=" <= o.value {
      assert ValueReader(name)(o.value, TextOf(next)) == AfterEq(o.value, name);
    } else if o.value == name && next.Some? && !Dashed(next.value.value) {
      assert ValueReader(name)(o.value, TextOf(next)) == [next.value.value];
    } else {
      assert ValueReader(name)(o.value, TextOf(next)) == [];
    }
  }

  lemma {:induction false} ValuesAreAsked(opts: seq<RcOption>, name: string)
    ensures Values(opts, name) == Asked(ValueReader(name), opts)
  {
    hide ValueOf, ValueReader;
    if opts != [] {
      ValuesAreAsked(opts[1..], name);
      ValueIsAsked(opts[0], Head(opts[1..], None), name);
    }
  }

  lemma {:induction false} LastBoolIsAsked(opts: seq<RcOption>, name: string)
    ensures LastBool(opts, name) == LastOf(Asked(BoolReader(name), opts))
  {
    if opts != [] {
      LastBoolIsAsked(opts[1..], name);
      LastBoolConcat([opts[0]], opts[1..], name);
      assert [opts[0]] + opts[1..] == opts && [opts[0]][..0] == [];
      assert LastBool([opts[0]], name) == BoolOf(opts[0].value, name);
    }
  }

  // ---- The command line ---------------------------------------------------------------------------

  /** What Bazel takes from one token: an override sets what stands behind its prefix, as one
      token; any other is read with the token after it. */
  function ReadFlag<T>(read: Reader<T>, text: string, next: Option<string>): seq<T> {
    if OVERRIDE <= text then read(text[|OVERRIDE|..], None) else read(text, next)
  }

  function ReadFlags<T>(read: Reader<T>, flags: seq<Flag>): seq<T> {
    if flags == [] then []
    else ReadFlag(read, flags[0].text, if |flags| > 1 then Some(flags[1].text) else None) + ReadFlags(read, flags[1..])
  }

  /** All that the command line says which an option list is split into. */
  function OnCommandLine<T>(read: Reader<T>, opts: seq<RcOption>): seq<T> {
    ReadFlags(read, OverrideFlags(FoldedCommon(opts)) + RegularFlags(opts))
  }

  /** The first option from outside `common`. */
  function FirstOther(opts: seq<RcOption>): Option<RcOption> {
    if opts == [] then None else if IsCommon(opts[0]) then FirstOther(opts[1..]) else Some(opts[0])
  }

  /** What an option followed by `rest` says on the command line. A common one is one token,
      its value folded in; any other stands before the next that is not common. */
  function Says<T>(read: Reader<T>, o: RcOption, rest: seq<RcOption>): seq<T> {
    if !IsCommon(o) then ReadFlag(read, o.value, TextOf(FirstOther(rest)))
    else if rest != [] && IsTwoTokenPair(o, rest[0]) then read(o.value + "=" + rest[0].value, None)
    else read(o.value, None)
  }

  /** What the common options say, or all others. */
  function Said<T>(read: Reader<T>, opts: seq<RcOption>, common: bool): seq<T> {
    if opts == [] then []
    else (if IsCommon(opts[0]) == common then Says(read, opts[0], opts[1..]) else []) + Said(read, opts[1..], common)
  }

  function SingleTokens<T>(read: Reader<T>, folded: seq<RcOption>): seq<T> {
    if folded == [] then [] else read(folded[0].value, None) + SingleTokens(read, folded[1..])
  }

  lemma FirstOverride(folded: seq<RcOption>)
    ensures folded == [] ==> OverrideFlags(folded) == []
    ensures folded != [] ==>
      OverrideFlags(folded) == [Flag(OVERRIDE + folded[0].value, folded[0].condition)] + OverrideFlags(folded[1..])
  {
  }

  lemma OverrideReads<T>(read: Reader<T>, flag: Flag, value: string, more: seq<Flag>)
    requires flag.text == OVERRIDE + value
    ensures ReadFlags(read, [flag] + more) == read(value, None) + ReadFlags(read, more)
  {
    assert OVERRIDE <= flag.text && flag.text[|OVERRIDE|..] == value;
    assert ([flag] + more)[1..] == more;
  }

  /** Overrides are read one by one, whatever follows them. */
  lemma {:induction false} OverridesRead<T>(read: Reader<T>, folded: seq<RcOption>, more: seq<Flag>)
    ensures ReadFlags(read, OverrideFlags(folded) + more) == SingleTokens(read, folded) + ReadFlags(read, more)
  {
    hide ReadFlags, OverrideFlags;
    FirstOverride(folded);
    if folded == [] {
      assert OverrideFlags(folded) + more == more;
    } else {
      var first, rest := Flag(OVERRIDE + folded[0].value, folded[0].condition), OverrideFlags(folded[1..]) + more;
      assert OverrideFlags(folded) + more == [first] + rest;
      OverridesRead(read, folded[1..], more);
      OverrideReads(read, first, folded[0].value, rest);
    }
  }

  lemma SingleTokensCons<T>(read: Reader<T>, o: RcOption, folded: seq<RcOption>)
    ensures SingleTokens(read, [o] + folded) == read(o.value, None) + SingleTokens(read, folded)
  {
    assert ([o] + folded)[1..] == folded;
  }

  /** Folded, the common options say what they say one by one. */
  lemma {:induction false} CommonsSay<T(!new)>(read: Reader<T>, opts: seq<RcOption>)
    requires SkipsValues(read)
    ensures SingleTokens(read, FoldedCommon(opts)) == Said(read, opts, true)
    decreases |opts|
  {
    hide FoldedCommon, SingleTokens, IsCommon;
    if opts == [] {
      NothingFolded(read);
    } else {
      var o, rest := opts[0], opts[1..];
      if !IsCommon(o) {
        RegularPasses(opts);
        CommonsSay(read, rest);
      } else if rest != [] && IsTwoTokenPair(o, rest[0]) {
        assert opts[2..] == rest[1..];
        PairFolds(opts);
        CommonsSay(read, rest[1..]);
        SingleTokensCons(read, o.(value := o.value + "=" + rest[0].value), FoldedCommon(rest[1..]));
        assert IsCommon(rest[0]) by { SameSection(o, rest[0]); }
        assert Says(read, rest[0], rest[1..]) == [];
      } else {
        SingleFolds(opts);
        CommonsSay(read, rest);
        SingleTokensCons(read, o, FoldedCommon(rest));
      }
    }
  }

  lemma NothingFolded<T>(read: Reader<T>)
    ensures SingleTokens(read, FoldedCommon([])) == []
  {
  }

  lemma SameSection(flag: RcOption, value: RcOption)
    requires IsTwoTokenPair(flag, value)
    ensures IsCommon(flag) == IsCommon(value)
  {
  }

  lemma {:induction false} FirstRegular(opts: seq<RcOption>)
    ensures var flags := RegularFlags(opts);
      (if flags == [] then None else Some(flags[0].text)) == TextOf(FirstOther(opts))
  {
    if opts != [] && IsCommon(opts[0]) {
      FirstRegular(opts[1..]);
    }
  }

  /** All other options are tokens of their own, one after the other. */
  lemma {:induction false} OthersSay<T>(read: Reader<T>, opts: seq<RcOption>)
    ensures ReadFlags(read, RegularFlags(opts)) == Said(read, opts, false)
  {
    hide IsCommon, ReadFlag;
    if opts != [] {
      var o, rest := opts[0], RegularFlags(opts[1..]);
      OthersSay(read, opts[1..]);
      FirstRegular(opts[1..]);
      if IsCommon(o) {
        assert RegularFlags(opts) == rest;
      } else {
        var flags := [Flag(o.value, o.condition)] + rest;
        assert RegularFlags(opts) == flags && flags[1..] == rest;
        assert rest != [] ==> flags[1] == rest[0];
        assert ReadFlags(read, flags) == Says(read, o, opts[1..]) + ReadFlags(read, rest);
      }
    }
  }

  /** The command line says first what the common options say and then what all others do. */
  lemma CommandLineReadsCommonsFirst<T(!new)>(read: Reader<T>, opts: seq<RcOption>)
    requires SkipsValues(read)
    ensures OnCommandLine(read, opts) == Said(read, opts, true) + Said(read, opts, false)
  {
    hide FoldedCommon, OverrideFlags, RegularFlags, ReadFlags;
    OverridesRead(read, FoldedCommon(opts), RegularFlags(opts));
    CommonsSay(read, opts);
    OthersSay(read, opts);
  }

  // ---- Positions --------------------------------------------------------------------------------------

  function SaysAt<T>(read: Reader<T>, opts: seq<RcOption>, i: nat): seq<T>
    requires i < |opts|
  {
    Says(read, opts[i], opts[i + 1..])
  }

  function AsksAt<T>(read: Reader<T>, opts: seq<RcOption>, i: nat): seq<T>
    requires i < |opts|
  {
    Asks(read, opts[i], opts[i + 1..])
  }

  /** Position by position, what the common options say, or all others. */
  function Voices<T>(read: Reader<T>, opts: seq<RcOption>, common: bool): (voices: seq<seq<T>>)
    ensures |voices| == |opts|
    ensures forall i :: 0 <= i < |opts| ==>
      voices[i] == if IsCommon(opts[i]) == common then SaysAt(read, opts, i) else []
  {
    seq(|opts|, i requires 0 <= i < |opts| => if IsCommon(opts[i]) == common then SaysAt(read, opts, i) else [])
  }

  function Questions<T>(read: Reader<T>, opts: seq<RcOption>): (questions: seq<seq<T>>)
    ensures |questions| == |opts|
    ensures forall i :: 0 <= i < |opts| ==> questions[i] == AsksAt(read, opts, i)
  {
    seq(|opts|, i requires 0 <= i < |opts| => AsksAt(read, opts, i))
  }

  lemma PositionShifts<T>(read: Reader<T>, opts: seq<RcOption>, i: nat)
    requires i + 1 < |opts|
    ensures SaysAt(read, opts[1..], i) == SaysAt(read, opts, i + 1)
    ensures AsksAt(read, opts[1..], i) == AsksAt(read, opts, i + 1)
  {
    assert opts[1..][i + 1..] == opts[i + 1 + 1..];
  }

  lemma {:induction false} SaidByPosition<T>(read: Reader<T>, opts: seq<RcOption>, common: bool)
    ensures Said(read, opts, common) == Flatten(Voices(read, opts, common))
    ensures Asked(read, opts) == Flatten(Questions(read, opts))
  {
    hide Says, Asks, IsCommon;
    if opts != [] {
      var rest := opts[1..];
      SaidByPosition(read, rest, common);
      forall i: nat | i < |rest|
        ensures SaysAt(read, rest, i) == SaysAt(read, opts, i + 1) && AsksAt(read, rest, i) == AsksAt(read, opts, i + 1)
      {
        PositionShifts(read, opts, i);
      }
      assert Voices(read, opts, common)[1..] == Voices(read, rest, common);
      assert Questions(read, opts)[1..] == Questions(read, rest);
    }
  }

  /** The last position that is not silent decides. */
  lemma {:induction false} LastVoice<T>(voices: seq<seq<T>>) returns (i: nat)
    ensures Flatten(voices) == [] ==> forall m :: 0 <= m < |voices| ==> voices[m] == []
    ensures Flatten(voices) != [] ==>
      && i < |voices| && voices[i] != [] && (forall m :: i < m < |voices| ==> voices[m] == [])
      && LastOf(Flatten(voices)) == LastOf(voices[i])
  {
    i := 0;
    if voices != [] {
      var n := |voices| - 1;
      assert voices == voices[..n] + [voices[n]];
      FlattenSnoc(voices[..n], voices[n]);
      i := LastVoice(voices[..n]);
      if voices[n] != [] {
        i := n;
      }
    }
  }

  /** The last of the common options that says something, or of the others. */
  ghost predicate SaysLast<T(!new)>(read: Reader<T>, opts: seq<RcOption>, i: nat, common: bool) {
    && i < |opts| && IsCommon(opts[i]) == common && SaysAt(read, opts, i) != []
    && forall m: nat :: i < m < |opts| && IsCommon(opts[m]) == common ==> SaysAt(read, opts, m) == []
  }

  ghost predicate SaysNothing<T(!new)>(read: Reader<T>, opts: seq<RcOption>, common: bool) {
    forall m: nat :: m < |opts| && IsCommon(opts[m]) == common ==> SaysAt(read, opts, m) == []
  }

  /** The option that decides the flag on the command line: the last that says something
      from outside `common`, or from `common` when no other does. */
  ghost predicate Decides<T(!new)>(read: Reader<T>, opts: seq<RcOption>, i: nat) {
    SaysLast(read, opts, i, false) || (SaysNothing(read, opts, false) && SaysLast(read, opts, i, true))
  }

  /** The option whose setting the query answers. */
  ghost predicate AsksLast<T(!new)>(read: Reader<T>, opts: seq<RcOption>, j: nat) {
    && j < |opts| && AsksAt(read, opts, j) != []
    && forall m: nat :: j < m < |opts| ==> AsksAt(read, opts, m) == []
  }

  /** The option that decides the command line gives another setting than the one that the
      query answers from, or only one of the two finds any. */
  ghost predicate Overruled<T(!new)>(read: Reader<T>, opts: seq<RcOption>) {
    || (exists i: nat, j: nat :: Decides(read, opts, i) && AsksLast(read, opts, j)
          && LastOf(SaysAt(read, opts, i)) != LastOf(AsksAt(read, opts, j)))
    || ((exists i: nat :: i < |opts| && SaysAt(read, opts, i) != []) !=
        (exists j: nat :: j < |opts| && AsksAt(read, opts, j) != []))
  }

  lemma LastSaid<T(!new)>(read: Reader<T>, opts: seq<RcOption>, common: bool) returns (i: nat)
    ensures Said(read, opts, common) == [] ==> SaysNothing(read, opts, common)
    ensures Said(read, opts, common) != [] ==>
      SaysLast(read, opts, i, common) && LastOf(Said(read, opts, common)) == LastOf(SaysAt(read, opts, i))
  {
    hide SaysAt, IsCommon, Said, Asked;
    SaidByPosition(read, opts, common);
    var voices := Voices(read, opts, common);
    i := LastVoice(voices);
    forall m: nat | m < |opts| && IsCommon(opts[m]) == common ensures SaysAt(read, opts, m) == voices[m] {
    }
  }

  lemma LastAsked<T(!new)>(read: Reader<T>, opts: seq<RcOption>) returns (j: nat)
    ensures Asked(read, opts) == [] ==> forall m: nat :: m < |opts| ==> AsksAt(read, opts, m) == []
    ensures Asked(read, opts) != [] ==>
      AsksLast(read, opts, j) && LastOf(Asked(read, opts)) == LastOf(AsksAt(read, opts, j))
  {
    hide AsksAt, Said, Asked;
    SaidByPosition(read, opts, true);
    j := LastVoice(Questions(read, opts));
  }

  // ---- When the two answers differ ---------------------------------------------------------------------

  /** What the flag is set to on the command line. */
  function Effective<T>(read: Reader<T>, opts: seq<RcOption>): Option<T> {
    LastOf(OnCommandLine(read, opts))
  }

  lemma OnlyOneDecides<T(!new)>(read: Reader<T>, opts: seq<RcOption>, i: nat, i': nat)
    requires Decides(read, opts, i) && Decides(read, opts, i')
    ensures i == i'
  {
    hide SaysAt, IsCommon;
  }

  /** The option at the deciding position decides. */
  lemma DecidesLine<T(!new)>(read: Reader<T>, opts: seq<RcOption>) returns (i: nat)
    requires SkipsValues(read)
    ensures (exists m: nat :: m < |opts| && SaysAt(read, opts, m) != []) <==> OnCommandLine(read, opts) != []
    ensures OnCommandLine(read, opts) != [] ==>
      Decides(read, opts, i) && Effective(read, opts) == LastOf(SaysAt(read, opts, i))
  {
    hide SaysAt, IsCommon, Said, OnCommandLine;
    CommandLineReadsCommonsFirst(read, opts);
    var one := LastSaid(read, opts, true);
    var other := LastSaid(read, opts, false);
    i := if Said(read, opts, false) == [] then one else other;
    var commons, others := Said(read, opts, true), Said(read, opts, false);
    assert others != [] ==> LastOf(commons + others) == LastOf(others);
    assert others == [] ==> commons + others == commons;
  }

  /** For every option list, the command line and the query give the flag different settings
      if and only if the option that decides the command line is overruled. */
  lemma AgreementCondition<T(!new)>(read: Reader<T>, opts: seq<RcOption>)
    requires SkipsValues(read)
    ensures Effective(read, opts) != LastOf(Asked(read, opts)) <==> Overruled(read, opts)
  {
    hide SaysAt, AsksAt, Asked, OnCommandLine, Decides;
    var i := DecidesLine(read, opts);
    var j := LastAsked(read, opts);
    forall i': nat | Decides(read, opts, i') && OnCommandLine(read, opts) != [] ensures i' == i {
      OnlyOneDecides(read, opts, i, i');
    }
  }

  // ---- What the queries answer -----------------------------------------------------------------------------

  /** The value query answers with what is set last, in either form; a dash-led token is not
      a value, and other options change nothing. */
  lemma LastSettingIsAnswered(opts: seq<RcOption>, a: RcOption, b: RcOption, name: string, value: string)
    requires IsFlagName(name)
    ensures a.value == name + "=" + value ==> LastOf(Values(opts + [a], name)) == Some(value)
    ensures a.value == name && !("-" <= b.value) ==> LastOf(Values(opts + [a, b], name)) == Some(b.value)
    ensures a.value == name && "-" <= b.value ==> Values(opts + [a, b], name) == Values(opts + [b], name)
    ensures "-" <= a.value && a.value != name && !(name + "=" <= a.value) ==>
      Values(opts + [a], name) == Values(opts, name)
  {
    hide Values, LastOf;
    if a.value == name + "=" + value {
      EqFormAnswers(opts, a, name, value);
    }
    if a.value == name {
      if "-" <= b.value {
        DashIsNoValue(opts, a, b, name);
      } else {
        PairAnswers(opts, a, b, name);
      }
    }
    if "-" <= a.value && a.value != name && !(name + "=" <= a.value) {
      OthersChangeNothing(opts, a, name);
    }
  }

  lemma EqFormAnswers(opts: seq<RcOption>, a: RcOption, name: string, value: string)
    requires IsFlagName(name) && a.value == name + "=" + value
    ensures LastOf(Values(opts + [a], name)) == Some(value)
  {
    hide ValueOf;
    ValuesConcat(opts, [a], None, name);
    OneValue(a, None, name);
    FewValues(a, a, name);
    FoldedValue(name, value, name);
  }

  lemma PairAnswers(opts: seq<RcOption>, a: RcOption, b: RcOption, name: string)
    requires IsFlagName(name) && a.value == name && !("-" <= b.value)
    ensures LastOf(Values(opts + [a, b], name)) == Some(b.value)
  {
    hide ValueOf;
    ValuesConcat(opts, [a, b], None, name);
    OneValue(a, Some(b), name);
    OneValue(b, None, name);
    FewValues(a, b, name);
  }

  lemma DashIsNoValue(opts: seq<RcOption>, a: RcOption, b: RcOption, name: string)
    requires IsFlagName(name) && a.value == name && "-" <= b.value
    ensures Values(opts + [a, b], name) == Values(opts + [b], name)
  {
    hide ValueOf;
    ValuesConcat(opts, [a, b], None, name);
    ValuesConcat(opts, [b], None, name);
    OneValue(a, Some(b), name);
    FewValues(a, b, name);
    SameBeforeDash(opts, a, b, name);
  }

  lemma OthersChangeNothing(opts: seq<RcOption>, a: RcOption, name: string)
    requires IsFlagName(name) && "-" <= a.value && a.value != name && !(name + "=" <= a.value)
    ensures Values(opts + [a], name) == Values(opts, name)
  {
    hide ValueOf;
    ValuesConcat(opts, [a], None, name);
    OneValue(a, None, name);
    FewValues(a, a, name);
    SameBeforeDash(opts, a, a, name);
    assert AfterEq(a.value, name) == [];
  }

  lemma OneValue(o: RcOption, next: Option<RcOption>, name: string)
    requires IsFlagName(name)
    ensures AfterEq(o.value, name) != [] ==> ValueOf(o, next, name) == AfterEq(o.value, name)
    ensures AfterEq(o.value, name) == [] && o.value != name ==> ValueOf(o, next, name) == []
    ensures o.value == name ==>
      ValueOf(o, next, name) == if next.Some? && !("-" <= next.value.value) then [next.value.value] else []
    ensures !("-" <= o.value) ==> ValueOf(o, next, name) == []
  {
    NameIsNotInEqForm(name);
    if !("-" <= o.value) {
      PlainTokenSetsNothing(o, next, name);
    }
  }

  lemma FewValues(a: RcOption, b: RcOption, name: string)
    ensures ValuesBefore([a], None, name) == ValueOf(a, None, name)
    ensures ValuesBefore([b], None, name) == ValueOf(b, None, name)
    ensures ValuesBefore([a, b], None, name) == ValueOf(a, Some(b), name) + ValueOf(b, None, name)
  {
    hide ValueOf;
    assert [a][1..] == [] && [b][1..] == [] && [a, b][1..] == [b];
  }

  /** Options read the same with nothing behind them as with a dash-led token. */
  lemma {:induction false} SameBeforeDash(opts: seq<RcOption>, a: RcOption, b: RcOption, name: string)
    requires "-" <= a.value
    ensures ValuesBefore(opts, Some(a), name) == ValuesBefore(opts, None, name)
    ensures "-" <= b.value ==> ValuesBefore(opts, Some(a), name) == ValuesBefore(opts, Some(b), name)
  {
    if opts != [] {
      SameBeforeDash(opts[1..], a, b, name);
    }
  }

  /** The boolean query answers with the last option that is the flag, its negation, or the
      flag with a word for true or false; all others change nothing. */
  lemma LastWordIsAnswered(opts: seq<RcOption>, o: RcOption, bare: string)
    requires '=' !in bare
    ensures var name, before, after := "--" + bare, LastBool(opts, "--" + bare), LastBool(opts + [o], "--" + bare);
      && (o.value in {"--" + bare, "--" + bare + "=true", "--" + bare + "=1", "--" + bare + "=yes"} ==>
        after == Some(true))
      && (o.value in {"--no" + bare, "--" + bare + "=false", "--" + bare + "=0", "--" + bare + "=no"} ==>
        after == Some(false))
      && (o.value !in {"--" + bare, "--" + bare + "=true", "--" + bare + "=1", "--" + bare + "=yes",
                       "--no" + bare, "--" + bare + "=false", "--" + bare + "=0", "--" + bare + "=no"} ==>
        after == before)
  {
    hide BoolOf;
    assert (opts + [o])[..|opts|] == opts;
    WordsForBooleans(o.value, bare);
  }

  lemma WordsForBooleans(text: string, bare: string)
    requires '=' !in bare
    ensures text in {"--" + bare, "--" + bare + "=true", "--" + bare + "=1", "--" + bare + "=yes"} ==>
      BoolOf(text, "--" + bare) == Some(true)
    ensures text in {"--no" + bare, "--" + bare + "=false", "--" + bare + "=0", "--" + bare + "=no"} ==>
      BoolOf(text, "--" + bare) == Some(false)
    ensures text !in {"--" + bare, "--" + bare + "=true", "--" + bare + "=1", "--" + bare + "=yes",
                      "--no" + bare, "--" + bare + "=false", "--" + bare + "=0", "--" + bare + "=no"} ==>
      BoolOf(text, "--" + bare) == None
  {
    var name := "--" + bare;
    assert name[2..] == bare && '=' !in name && |name| == |bare| + 2;
    EqForm(name, text, "true");
    EqForm(name, text, "1");
    EqForm(name, text, "yes");
    EqForm(name, text, "false");
    EqForm(name, text, "0");
    EqForm(name, text, "no");
    assert name + ("=" + "true") == "--" + bare + "=true" && name + ("=" + "false") == "--" + bare + "=false";
    assert name + ("=" + "1") == "--" + bare + "=1" && name + ("=" + "0") == "--" + bare + "=0";
    assert name + ("=" + "yes") == "--" + bare + "=yes" && name + ("=" + "no") == "--" + bare + "=no";
    if name + "=" <= text {
      assert text[|name|] == '=' && '=' in text;
      assert '=' !in "--no" + bare;
    }
  }

  lemma EqForm(name: string, text: string, word: string)
    ensures text == name + ("=" + word) <==> name + "=" <= text && text[|name| + 1..] == word
  {
    if name + "=" <= text {
      assert text == text[..|name| + 1] + text[|name| + 1..];
    }
    assert name + ("=" + word) == name + "=" + word;
  }

  // ---- Where order alone makes the difference ------------------------------------------------------------

  ghost predicate ReadsAlike<T(!new)>(read: Reader<T>, opts: seq<RcOption>) {
    forall i: nat :: i < |opts| ==> SaysAt(read, opts, i) == AsksAt(read, opts, i)
  }

  /** The last setting of all is a common one, and the last from another section stands
      before it and has another value. */
  ghost predicate CommonIsOverruled<T(!new)>(read: Reader<T>, opts: seq<RcOption>) {
    exists i: nat, j: nat :: i < j && SaysLast(read, opts, i, false) && AsksLast(read, opts, j)
      && IsCommon(opts[j]) && LastOf(SaysAt(read, opts, i)) != LastOf(AsksAt(read, opts, j))
  }

  /** Where each option says what the query reads there: the two answers differ if and only
      if the last option that sets the flag is a common one, some option from another section
      sets it earlier, and the last of those sets another value. */
  lemma OrderCondition<T(!new)>(read: Reader<T>, opts: seq<RcOption>)
    requires SkipsValues(read) && ReadsAlike(read, opts)
    ensures Effective(read, opts) != LastOf(Asked(read, opts)) <==> CommonIsOverruled(read, opts)
  {
    hide SaysAt, AsksAt, Asked, OnCommandLine, IsCommon;
    var i := DecidesLine(read, opts);
    var j := LastAsked(read, opts);
    if CommonIsOverruled(read, opts) {
      var i': nat, j': nat :| i' < j' && SaysLast(read, opts, i', false) && AsksLast(read, opts, j')
        && IsCommon(opts[j']) && LastOf(SaysAt(read, opts, i')) != LastOf(AsksAt(read, opts, j'));
      OnlyOneDecides(read, opts, i, i');
      assert j == j';
    }
    if Effective(read, opts) != LastOf(Asked(read, opts)) {
      assert SaysLast(read, opts, i, false) && i < j && IsCommon(opts[j]);
    }
  }

  /** Some common setting of the flag stands after a setting from another section. */
  ghost predicate CommonFollows<T(!new)>(read: Reader<T>, opts: seq<RcOption>) {
    exists i: nat, j: nat :: i < j < |opts|
      && !IsCommon(opts[i]) && SaysAt(read, opts, i) != [] && IsCommon(opts[j]) && SaysAt(read, opts, j) != []
  }

  /** All that the options say, in their order. */
  function InOrder<T>(read: Reader<T>, opts: seq<RcOption>): seq<T> {
    if opts == [] then [] else Says(read, opts[0], opts[1..]) + InOrder(read, opts[1..])
  }

  /** Without such a setting, splitting does not reorder the settings of the flag. */
  lemma {:induction false} SplitKeepsOrder<T(!new)>(read: Reader<T>, opts: seq<RcOption>)
    requires SkipsValues(read) && !CommonFollows(read, opts)
    ensures OnCommandLine(read, opts) == InOrder(read, opts)
  {
    hide Says, IsCommon, OnCommandLine, SkipsValues;
    CommandLineReadsCommonsFirst(read, opts);
    if opts != [] {
      var rest := opts[1..];
      CommandLineReadsCommonsFirst(read, rest);
      forall i: nat | i < |rest| ensures SaysAt(read, rest, i) == SaysAt(read, opts, i + 1) {
        PositionShifts(read, opts, i);
      }
      RestFollows(read, opts);
      SplitKeepsOrder(read, rest);
      if !IsCommon(opts[0]) && SaysAt(read, opts, 0) != [] {
        var j := LastSaid(read, rest, true);
        assert SaysLast(read, rest, j, true) ==> CommonFollows(read, opts) by { FollowsFirst(read, opts, j); }
        assert Said(read, rest, true) == [];
      }
    }
  }

  lemma FollowsFirst<T(!new)>(read: Reader<T>, opts: seq<RcOption>, j: nat)
    requires opts != [] && !IsCommon(opts[0]) && SaysAt(read, opts, 0) != []
    ensures SaysLast(read, opts[1..], j, true) ==> CommonFollows(read, opts)
  {
    hide SaysAt, IsCommon;
    if SaysLast(read, opts[1..], j, true) {
      PositionShifts(read, opts, j);
      assert IsCommon(opts[j + 1]);
    }
  }

  lemma RestFollows<T(!new)>(read: Reader<T>, opts: seq<RcOption>)
    requires opts != []
    ensures CommonFollows(read, opts[1..]) ==> CommonFollows(read, opts)
  {
    hide SaysAt, IsCommon;
    var rest := opts[1..];
    if CommonFollows(read, rest) {
      var i: nat, j: nat :| i < j < |rest|
        && !IsCommon(rest[i]) && SaysAt(read, rest, i) != [] && IsCommon(rest[j]) && SaysAt(read, rest, j) != [];
      PositionShifts(read, opts, i);
      PositionShifts(read, opts, j);
      assert !IsCommon(opts[i + 1]) && IsCommon(opts[j + 1]);
    }
  }

  lemma {:induction false} AlikeInOrder<T(!new)>(read: Reader<T>, opts: seq<RcOption>)
    requires ReadsAlike(read, opts)
    ensures InOrder(read, opts) == Asked(read, opts)
  {
    hide Says, Asks;
    if opts != [] {
      assert SaysAt(read, opts, 0) == AsksAt(read, opts, 0);
      forall i: nat | i < |opts[1..]| ensures SaysAt(read, opts[1..], i) == AsksAt(read, opts[1..], i) {
        PositionShifts(read, opts, i);
        assert SaysAt(read, opts, i + 1) == AsksAt(read, opts, i + 1);
      }
      AlikeInOrder(read, opts[1..]);
    }
  }

  /** When besides each option says what the query reads there, the command line sets the flag
      to all the values that the query lists, in their order. */
  lemma CommandLineAgreesWithQuery<T(!new)>(read: Reader<T>, opts: seq<RcOption>)
    requires SkipsValues(read) && ReadsAlike(read, opts) && !CommonFollows(read, opts)
    ensures OnCommandLine(read, opts) == Asked(read, opts)
  {
    SplitKeepsOrder(read, opts);
    AlikeInOrder(read, opts);
  }

  // ---- Values -------------------------------------------------------------------------------------------------

  function NextValue(next: Option<string>): seq<string> {
    if next.Some? && !Dashed(next.value) then [next.value] else []
  }

  /** A token that is read otherwise on the command line: the bare flag with its value in
      another section or under another gate, or with common options behind it, and a flag
      that is itself an override. */
  predicate ValueStrays(o: RcOption, rest: seq<RcOption>, name: string) {
    if IsCommon(o) then
      o.value == name && rest != [] && !Dashed(rest[0].value) && !IsTwoTokenPair(o, rest[0])
    else if OVERRIDE <= o.value then
      AfterEq(o.value[|OVERRIDE|..], name) != AfterEq(o.value, name)
    else
      o.value == name && NextValue(TextOf(Head(rest, None))) != NextValue(TextOf(FirstOther(rest)))
  }

  lemma NameIsNotInEqForm(name: string)
    ensures !(name + "=" <= name)
  {
  }

  lemma FoldedValue(flag: string, value: string, name: string)
    requires '=' !in flag && '=' !in name
    ensures AfterEq(flag + "=" + value, name) == if flag == name then [value] else []
    ensures !(name + "=" <= flag)
  {
    FlagNamePrefix(flag, value, name);
    assert (name + "=")[|name|] == '=' && (name + "=" <= flag ==> '=' in flag);
  }

  /** Those are exactly the tokens whose values differ. */
  lemma ValueReadsAlikeIff(o: RcOption, rest: seq<RcOption>, name: string)
    requires IsFlagName(name)
    ensures Says(ValueReader(name), o, rest) == Asks(ValueReader(name), o, rest) <==> !ValueStrays(o, rest, name)
  {
    hide FirstOther, IsCommon;
    NameIsNotInEqForm(name);
    if OVERRIDE <= o.value {
      assert o.value[|OVERRIDE| - 1] == '=';
    }
    if IsCommon(o) && rest != [] && IsTwoTokenPair(o, rest[0]) {
      FoldedValue(o.value, rest[0].value, name);
    }
  }

  /** The last value on the command line is not the last that the query lists if and only if
      the deciding option is overruled; where no token strays, by order alone. */
  lemma ValuesAgreeUnlessOverruled(opts: seq<RcOption>, name: string)
    requires Dashed(name)
    ensures var read := ValueReader(name);
      Effective(read, opts) != LastOf(Values(opts, name)) <==> Overruled(read, opts)
    ensures var read := ValueReader(name);
      IsFlagName(name) && (forall i: nat :: i < |opts| ==> !ValueStrays(opts[i], opts[i + 1..], name)) ==>
        (Effective(read, opts) != LastOf(Values(opts, name)) <==> CommonIsOverruled(read, opts))
  {
    hide Effective, Overruled, Says, Asks, ValueStrays, CommonIsOverruled;
    var read := ValueReader(name);
    ReadersSkipValues(name);
    ValuesAreAsked(opts, name);
    AgreementCondition(read, opts);
    if IsFlagName(name) && forall i: nat :: i < |opts| ==> !ValueStrays(opts[i], opts[i + 1..], name) {
      forall i: nat | i < |opts| ensures SaysAt(read, opts, i) == AsksAt(read, opts, i) {
        ValueReadsAlikeIff(opts[i], opts[i + 1..], name);
      }
      OrderCondition(read, opts);
    }
  }

  // ---- Booleans -----------------------------------------------------------------------------------------------

  function Negated(name: string): string {
    "--no" + if "--" <= name then name[2..] else name
  }

  /** A token that is read otherwise on the command line: the bare flag with a token that is
      not a word for true folded into it, its negation with any, or an own override. */
  predicate BoolStrays(o: RcOption, rest: seq<RcOption>, name: string) {
    if IsCommon(o) then
      && rest != [] && IsTwoTokenPair(o, rest[0])
      && (o.value == Negated(name) || (o.value == name && rest[0].value !in {"true", "1", "yes"}))
    else
      OVERRIDE <= o.value && BoolOf(o.value[|OVERRIDE|..], name) != BoolOf(o.value, name)
  }

  function BoolWord(word: string): Option<bool> {
    if word in {"true", "1", "yes"} then Some(true) else if word in {"false", "0", "no"} then Some(false) else None
  }

  lemma FoldedBool(flag: string, value: string, name: string)
    requires IsFlagName(name) && '=' !in flag
    ensures BoolOf(flag, name) ==
      if flag == name then Some(true) else if flag == Negated(name) then Some(false) else None
    ensures flag != name ==> BoolOf(flag + "=" + value, name).None?
    ensures flag == name ==> BoolOf(flag + "=" + value, name) == BoolWord(value)
  {
    FoldedValue(flag, value, name);
    FlagNamePrefix(flag, value, name);
    var folded := flag + "=" + value;
    assert folded[|flag|] == '=';
    assert folded != name;
    assert folded != Negated(name);
  }

  /** Those are exactly the tokens whose states differ. */
  lemma BoolReadsAlikeIff(o: RcOption, rest: seq<RcOption>, name: string)
    requires IsFlagName(name)
    ensures Says(BoolReader(name), o, rest) == Asks(BoolReader(name), o, rest) <==> !BoolStrays(o, rest, name)
  {
    hide FirstOther, IsCommon, BoolOf;
    if IsCommon(o) && rest != [] && IsTwoTokenPair(o, rest[0]) {
      FoldedBool(o.value, rest[0].value, name);
      assert Negated(name) != name;
    }
  }

  /** The last deciding token on the command line is not what the query answers if and only if
      the deciding option is overruled; where no token strays, by order alone. */
  lemma BooleansAgreeUnlessOverruled(opts: seq<RcOption>, name: string)
    requires Dashed(name)
    ensures var read := BoolReader(name);
      Effective(read, opts) != LastBool(opts, name) <==> Overruled(read, opts)
    ensures var read := BoolReader(name);
      IsFlagName(name) && (forall i: nat :: i < |opts| ==> !BoolStrays(opts[i], opts[i + 1..], name)) ==>
        (Effective(read, opts) != LastBool(opts, name) <==> CommonIsOverruled(read, opts))
  {
    hide Effective, Overruled, Says, Asks, BoolStrays, CommonIsOverruled;
    var read := BoolReader(name);
    ReadersSkipValues(name);
    LastBoolIsAsked(opts, name);
    AgreementCondition(read, opts);
    if IsFlagName(name) && forall i: nat :: i < |opts| ==> !BoolStrays(opts[i], opts[i + 1..], name) {
      forall i: nat | i < |opts| ensures SaysAt(read, opts, i) == AsksAt(read, opts, i) {
        BoolReadsAlikeIff(opts[i], opts[i + 1..], name);
      }
      OrderCondition(read, opts);
    }
  }

  // ---- They do differ -------------------------------------------------------------------------------------------

  lemma OneOption<T>(read: Reader<T>, o: RcOption)
    ensures Asked(read, [o]) == Asks(read, o, [])
    ensures forall common :: Said(read, [o], common) == if IsCommon(o) == common then Says(read, o, []) else []
  {
    hide Says, Asks, IsCommon;
    assert [o][1..] == [];
  }

  lemma TwoOptions<T(!new)>(read: Reader<T>, a: RcOption, b: RcOption)
    requires SkipsValues(read)
    ensures Asked(read, [a, b]) == Asks(read, a, [b]) + Asks(read, b, [])
    ensures var one, two := Says(read, a, [b]), Says(read, b, []);
      OnCommandLine(read, [a, b]) ==
      (if IsCommon(a) then one else []) + (if IsCommon(b) then two else []) +
      ((if IsCommon(a) then [] else one) + (if IsCommon(b) then [] else two))
  {
    hide Says, Asks, OnCommandLine, IsCommon, SkipsValues;
    CommandLineReadsCommonsFirst(read, [a, b]);
    assert [a, b][1..] == [b] && [b][1..] == [];
    OneOption(read, b);
  }

  lemma EqFormReads(o: RcOption, rest: seq<RcOption>, name: string, value: string)
    requires IsFlagName(name) && o.value == name + "=" + value && (IsCommon(o) || !(OVERRIDE <= o.value))
    ensures Says(ValueReader(name), o, rest) == Asks(ValueReader(name), o, rest) == [value]
  {
    hide FirstOther, IsCommon;
    FoldedValue(name, value, name);
    assert o.value[|name|] == '=';
  }

  /** A setting from a `common` section behind one from another section is overruled. */
  lemma QueryAndCommandLineDisagree(name: string, section: string, config: string, a: string, b: string)
    requires IsFlagName(name) && section != "common" && !("common:" <= section) && !(OVERRIDE <= name + "=" + a)
    ensures var opts :=
      [RcOption(name + "=" + a, section, 0, None), RcOption(name + "=" + b, "common:" + config, 0, None)];
      LastOf(Values(opts, name)) == Some(b) && Effective(ValueReader(name), opts) == Some(a)
  {
    hide OnCommandLine, Asked, Says, Asks, Values, ValueReader;
    var x, y := RcOption(name + "=" + a, section, 0, None), RcOption(name + "=" + b, "common:" + config, 0, None);
    ReadersSkipValues(name);
    ValuesAreAsked([x, y], name);
    TwoOptions(ValueReader(name), x, y);
    assert y.command[..7] == "common:";
    EqFormReads(x, [y], name, a);
    EqFormReads(y, [], name, b);
  }

  /** A bare token folded into a boolean flag takes its setting away, unless it is a word for
      true or false. */
  lemma FoldedBooleanIsLost(name: string, token: string)
    requires IsFlagName(name) && !Dashed(token) && BoolWord(token).None?
    ensures var opts := [RcOption(name, "common", 0, None), RcOption(token, "common", 0, None)];
      LastBool(opts, name) == Some(true) && Effective(BoolReader(name), opts) == None
  {
    hide OnCommandLine, Asked, BoolOf;
    var x, y := RcOption(name, "common", 0, None), RcOption(token, "common", 0, None);
    ReadersSkipValues(name);
    LastBoolIsAsked([x, y], name);
    TwoOptions(BoolReader(name), x, y);
    FoldedBool(name, token, name);
    assert Asks(BoolReader(name), y, []) == [] && Says(BoolReader(name), y, []) == [];
  }
}
