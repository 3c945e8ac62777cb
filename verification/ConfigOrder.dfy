/** The order of config sections in the disclosure (`announce` in crates/bazelrc/src/lib.rs). */
module ConfigOrder {
  import opened Prelude
  import opened Rc
  import Expander

  function Colon(key: string): (n: nat)
    ensures n <= |key| && (n < |key| ==> key[n] == ':') && forall i :: 0 <= i < n ==> key[i] != ':'
  {
    if key == [] || key[0] == ':' then 0 else 1 + Colon(key[1..])
  }

  function Base(key: string): string {
    key[..Colon(key)]
  }

  function ConfigOf(key: string): string {
    if Colon(key) < |key| then key[Colon(key) + 1..] else key
  }

  /** A config section whose base the command inherits from. */
  predicate IsApplicable(command: string, key: string) {
    Colon(key) < |key| && (Base(key) in {"always", "common", command} || Base(key) in CommandAncestors(command))
  }

  function Position(x: string, s: seq<string>): (i: nat)
    ensures x in s ==> i < |s| && s[i] == x
  {
    if s == [] || s[0] == x then 0 else 1 + Position(x, s[1..])
  }

  function BaseRank(command: string, base: string): nat {
    var ancestors := CommandAncestors(command);
    if base == "always" then 0
    else if base == "common" then 1
    else if base == command then 2 + |ancestors|
    else 2 + if base in ancestors then Position(base, ancestors) else 0
  }

  /** Lexicographic order of strings. */
  predicate Before(a: string, b: string)
    decreases |a|
  {
    b != [] && (a == [] || a[0] < b[0] || (a[0] == b[0] && Before(a[1..], b[1..])))
  }

  predicate KeyBefore(command: string, a: string, b: string) {
    Before(ConfigOf(a), ConfigOf(b))
    || (ConfigOf(a) == ConfigOf(b) && BaseRank(command, Base(a)) < BaseRank(command, Base(b)))
  }

  lemma {:induction false} BeforeIsTotal(a: string, b: string)
    ensures Before(a, b) || a == b || Before(b, a)
    ensures !(Before(a, b) && Before(b, a)) && !Before(a, a)
    decreases |a|
  {
    if a != [] && b != [] {
      BeforeIsTotal(a[1..], b[1..]);
      assert a == [a[0]] + a[1..] && b == [b[0]] + b[1..];
    }
    if a != [] {
      BeforeIsTotal(a[1..], a[1..]);
    }
  }

  lemma {:induction false} BeforeIsTransitive(a: string, b: string, c: string)
    requires Before(a, b) && Before(b, c)
    ensures Before(a, c)
    decreases |a|
  {
    if a != [] && a[0] == b[0] == c[0] {
      BeforeIsTransitive(a[1..], b[1..], c[1..]);
    }
  }

  /** One string comes before another when it is a proper prefix, or has the smaller
      character where they first differ. */
  lemma {:induction false} BeforeAtFirstDifference(a: string, b: string, n: nat)
    requires n <= |a| && n <= |b| && a[..n] == b[..n]
    requires n < |a| && n < |b| ==> a[n] != b[n]
    ensures Before(a, b) <==> n < |b| && (n == |a| || a[n] < b[n])
    decreases n
  {
    if n > 0 {
      assert a[..n][0] == b[..n][0];
      assert a[1..][..n - 1] == a[..n][1..] && b[1..][..n - 1] == b[..n][1..];
      BeforeAtFirstDifference(a[1..], b[1..], n - 1);
    }
  }

  /** The config sections listed are those that expansion looks up. */
  lemma ApplicableIffLookedUp(command: string, key: string)
    ensures IsApplicable(command, key) <==>
      exists base :: base in Expander.Prefixes(command) && ':' !in base && base + ":" <= key
  {
    if IsApplicable(command, key) {
      KeyIs(key);
      assert Base(key) in Expander.Prefixes(command);
      assert ':' !in Base(key) && Base(key) + ":" <= key;
    }
    if base :| base in Expander.Prefixes(command) && ':' !in base && base + ":" <= key {
      BaseBeforeColon(key, base);
    }
  }

  lemma {:induction false} BaseBeforeColon(key: string, base: string)
    requires ':' !in base && base + ":" <= key
    ensures Colon(key) == |base| && Base(key) == base
    decreases |base|
  {
    assert (base + ":")[|base|] == ':';
    if base != "" {
      assert key[0] == base[0] && base[0] in base;
      assert (base + ":")[1..] == base[1..] + ":";
      BaseBeforeColon(key[1..], base[1..]);
    }
  }

  /** The rank of a base is its place in the order in which expansion looks sections up. */
  lemma RankIsExpansionOrder(command: string, base: string)
    requires base in {"always", "common", command} || base in CommandAncestors(command)
    ensures BaseRank(command, base) < |Expander.Prefixes(command)|
      && Expander.Prefixes(command)[BaseRank(command, base)] == base
  {
  }

  lemma {:induction false} KeyIs(key: string)
    requires Colon(key) < |key|
    ensures key == Base(key) + ":" + ConfigOf(key)
  {
  }

  lemma KeysAreComparable(command: string, a: string, b: string)
    requires IsApplicable(command, a) && IsApplicable(command, b)
    ensures KeyBefore(command, a, b) || a == b || KeyBefore(command, b, a)
    ensures !(KeyBefore(command, a, b) && KeyBefore(command, b, a)) && !KeyBefore(command, a, a)
  {
    hide Before, Base, ConfigOf, BaseRank, Expander.Prefixes;
    BeforeIsTotal(ConfigOf(a), ConfigOf(b));
    BeforeIsTotal(ConfigOf(a), ConfigOf(a));
    RankIsExpansionOrder(command, Base(a));
    RankIsExpansionOrder(command, Base(b));
    KeyIs(a);
    KeyIs(b);
  }

  lemma KeyBeforeIsTransitive(command: string, a: string, b: string, c: string)
    requires KeyBefore(command, a, b) && KeyBefore(command, b, c)
    ensures KeyBefore(command, a, c)
  {
    hide Before, Base, ConfigOf, BaseRank;
    if Before(ConfigOf(a), ConfigOf(b)) && Before(ConfigOf(b), ConfigOf(c)) {
      BeforeIsTransitive(ConfigOf(a), ConfigOf(b), ConfigOf(c));
    }
  }

  ghost predicate InOrder(command: string, keys: seq<string>) {
    forall i, j :: 0 <= i < j < |keys| ==> KeyBefore(command, keys[i], keys[j])
  }

  /** Sections in order are grouped by config, the names ascending; within one config, the
      bases stand in the order in which expansion looks them up. */
  lemma OrderMeans(command: string, keys: seq<string>, i: nat, j: nat)
    requires InOrder(command, keys) && i < j < |keys|
    ensures ConfigOf(keys[i]) == ConfigOf(keys[j]) || Before(ConfigOf(keys[i]), ConfigOf(keys[j]))
    ensures ConfigOf(keys[i]) == ConfigOf(keys[j]) ==>
      BaseRank(command, Base(keys[i])) < BaseRank(command, Base(keys[j]))
  {
    hide Before, ConfigOf, BaseRank, Base;
    assert KeyBefore(command, keys[i], keys[j]);
    BeforeIsTotal(ConfigOf(keys[i]), ConfigOf(keys[j]));
  }

  /** The applicable config sections, by config name and then by rank. */
  method SortedConfigKeys(options: Options, command: string) returns (keys: seq<string>)
    ensures forall key :: key in keys <==> key in options && IsApplicable(command, key)
    ensures InOrder(command, keys)
  {
    hide KeyBefore, IsApplicable;
    keys := [];
    var pending := options.Keys;
    while pending != {}
      invariant pending <= options.Keys && InOrder(command, keys)
      invariant forall key :: key in keys <==> key in options.Keys - pending && IsApplicable(command, key)
      decreases pending
    {
      var key :| key in pending;
      if IsApplicable(command, key) {
        keys := Inserted(command, keys, key);
      }
      pending := pending - {key};
    }
  }

  method Inserted(command: string, keys: seq<string>, key: string) returns (all: seq<string>)
    requires InOrder(command, keys) && key !in keys && IsApplicable(command, key)
    requires forall other :: other in keys ==> IsApplicable(command, other)
    ensures InOrder(command, all)
    ensures forall other :: other in all <==> other in keys || other == key
  {
    hide IsApplicable;
    var i := 0;
    while i < |keys| && KeyBefore(command, keys[i], key)
      invariant 0 <= i <= |keys| && forall j :: 0 <= j < i ==> KeyBefore(command, keys[j], key)
    {
      i := i + 1;
    }
    PlaceFits(command, keys, key, i);
    all := keys[..i] + [key] + keys[i..];
  }

  lemma PlaceFits(command: string, keys: seq<string>, key: string, i: nat)
    requires InOrder(command, keys) && key !in keys && IsApplicable(command, key) && i <= |keys|
    requires forall other :: other in keys ==> IsApplicable(command, other)
    requires forall j :: 0 <= j < i ==> KeyBefore(command, keys[j], key)
    requires i < |keys| ==> !KeyBefore(command, keys[i], key)
    ensures InOrder(command, keys[..i] + [key] + keys[i..])
  {
    hide IsApplicable, KeyBefore;
    forall j | i <= j < |keys| ensures KeyBefore(command, key, keys[j]) {
      KeysAreComparable(command, key, keys[i]);
      if i < j {
        KeyBeforeIsTransitive(command, key, keys[i], keys[j]);
      }
    }
  }

  /** The order leaves no choice: the keys determine the list. */
  lemma {:induction false} OrderIsDetermined(command: string, a: seq<string>, b: seq<string>)
    requires InOrder(command, a) && InOrder(command, b)
    requires forall key :: key in a <==> key in b
    requires forall key :: key in a ==> IsApplicable(command, key)
    ensures a == b
  {
    hide IsApplicable, KeyBefore;
    assert |b| > 0 ==> b[0] in b;
    if a != [] {
      assert a[0] in a && a[0] in b;
      SameFirst(command, a, b);
      forall key ensures key in a[1..] <==> key in b[1..] {
        NotRepeated(command, a, key);
        NotRepeated(command, b, key);
      }
      OrderIsDetermined(command, a[1..], b[1..]);
      assert a == [a[0]] + a[1..] && b == [b[0]] + b[1..];
    }
  }

  lemma SameFirst(command: string, a: seq<string>, b: seq<string>)
    requires InOrder(command, a) && InOrder(command, b) && a != [] && b != []
    requires forall key :: key in a <==> key in b
    requires forall key :: key in a ==> IsApplicable(command, key)
    ensures a[0] == b[0]
  {
    hide IsApplicable, KeyBefore;
    assert a[0] in b && b[0] in a;
    var i: nat :| i < |b| && b[i] == a[0];
    var j: nat :| j < |a| && a[j] == b[0];
    KeysAreComparable(command, a[0], b[0]);
  }

  lemma NotRepeated(command: string, keys: seq<string>, key: string)
    requires keys != [] && InOrder(command, keys) && forall key :: key in keys ==> IsApplicable(command, key)
    ensures key in keys[1..] <==> key in keys && key != keys[0]
  {
    hide IsApplicable, KeyBefore;
    KeysAreComparable(command, keys[0], keys[0]);
    assert keys == [keys[0]] + keys[1..];
  }

  /** Keys of one config stand in the order in which expansion applies their sections. */
  lemma SameConfigFollowsExpansion(command: string, keys: seq<string>, i: nat, j: nat)
    requires InOrder(command, keys) && i < j < |keys| && ConfigOf(keys[i]) == ConfigOf(keys[j])
    requires forall key :: key in keys ==> IsApplicable(command, key)
    ensures var p, q := BaseRank(command, Base(keys[i])), BaseRank(command, Base(keys[j]));
      && p < q < |Expander.Prefixes(command)|
      && keys[i] == Expander.Prefixes(command)[p] + ":" + ConfigOf(keys[i])
      && keys[j] == Expander.Prefixes(command)[q] + ":" + ConfigOf(keys[j])
  {
    hide Expander.Prefixes, BaseRank, Base, ConfigOf;
    assert keys[i] in keys && keys[j] in keys;
    BeforeIsTotal(ConfigOf(keys[i]), ConfigOf(keys[i]));
    RankIsExpansionOrder(command, Base(keys[i]));
    RankIsExpansionOrder(command, Base(keys[j]));
    KeyIs(keys[i]);
    KeyIs(keys[j]);
  }
}
