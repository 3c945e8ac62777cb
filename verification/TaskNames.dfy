/** Names for tasks (crates/axl-runtime/src/ci.rs): reducing a CI label to the charset of
    a task name, and reserving a name that no other process holds. */
module TaskNames {
  import opened Prelude

  // ---- Sanitizing ---------------------------------------------------------------------------

  predicate IsNameChar(c: char) {
    'a' <= c <= 'z' || 'A' <= c <= 'Z' || '0' <= c <= '9' || c == '_'
  }

  predicate IsWord(w: string) {
    w != [] && forall c :: c in w ==> IsNameChar(c)
  }

  /** The maximal runs of name characters, in order. */
  function Words(raw: string): seq<string> {
    if raw == [] then []
    else
      var n := |raw| - 1;
      var before := Words(raw[..n]);
      if !IsNameChar(raw[n]) then before
      else if n > 0 && IsNameChar(raw[n - 1]) && before != [] then
        before[..|before| - 1] + [before[|before| - 1] + [raw[n]]]
      else before + [[raw[n]]]
  }

  function Dashed(words: seq<string>): string {
    if words == [] then []
    else if |words| == 1 then words[0]
    else Dashed(words[..|words| - 1]) + "-" + words[|words| - 1]
  }

  function Sanitized(raw: string): Option<string> {
    if Words(raw) == [] then None else Some(Dashed(Words(raw)))
  }

  method SanitizeName(raw: string) returns (name: Option<string>)
    ensures name == Sanitized(raw)
  {
    var out, pendingDash, i := "", false, 0;
    while i < |raw|
      invariant 0 <= i <= |raw| && out == Dashed(Words(raw[..i]))
      invariant pendingDash == (i > 0 && !IsNameChar(raw[i - 1]))
    {
      NextChar(raw[..i], raw[i]);
      assert raw[..i + 1] == raw[..i] + [raw[i]];
      if IsNameChar(raw[i]) {
        if pendingDash && out != "" {
          out := out + "-";
        }
        pendingDash := false;
        out := out + [raw[i]];
      } else {
        pendingDash := true;
      }
      i := i + 1;
    }
    assert raw[..i] == raw;
    WordsAreWords(raw);
    DashedNothing(Words(raw));
    name := if out == "" then None else Some(out);
  }

  lemma {:induction false} WordsAreWords(raw: string)
    ensures forall w :: w in Words(raw) ==> IsWord(w)
    ensures raw != [] && IsNameChar(raw[|raw| - 1]) ==> Words(raw) != []
  {
    if raw != [] {
      var n := |raw| - 1;
      var before := Words(raw[..n]);
      WordsAreWords(raw[..n]);
      forall w | w in Words(raw) ensures IsWord(w) {
        if w !in before && before != [] && n > 0 && IsNameChar(raw[n - 1]) {
          assert before[|before| - 1] in before && w == before[|before| - 1] + [raw[n]];
        }
      }
    }
  }

  lemma DashedNothing(words: seq<string>)
    requires forall w :: w in words ==> IsWord(w)
    ensures Dashed(words) == [] <==> words == []
  {
    if |words| == 1 {
      assert words[0] in words;
    }
  }

  lemma DashedGrows(words: seq<string>, w: string)
    ensures Dashed(words + [w]) == if words == [] then w else Dashed(words) + "-" + w
  {
    assert (words + [w])[..|words|] == words;
  }

  /** One more character at the end of what has been read. */
  lemma NextChar(raw: string, c: char)
    ensures var out := Dashed(Words(raw));
      Dashed(Words(raw + [c])) ==
      if !IsNameChar(c) then out
      else (if raw != [] && !IsNameChar(raw[|raw| - 1]) && out != [] then out + "-" else out) + [c]
  {
    hide Dashed;
    var words := Words(raw);
    assert (raw + [c])[..|raw|] == raw;
    WordsAreWords(raw);
    DashedNothing(words);
    if IsNameChar(c) {
      if raw != [] && IsNameChar(raw[|raw| - 1]) {
        var front, last := words[..|words| - 1], words[|words| - 1];
        DashedGrows(front, last);
        DashedGrows(front, last + [c]);
        assert words == front + [last];
      } else {
        DashedGrows(words, [c]);
      }
    }
  }

  // ---- What sanitizing means ------------------------------------------------------------------

  lemma FirstOfWord(raw: string, c: char)
    requires IsNameChar(c) && (raw == [] || !IsNameChar(raw[|raw| - 1]))
    ensures Words(raw + [c]) == Words(raw) + [[c]]
  {
    assert (raw + [c])[..|raw|] == raw;
  }

  lemma NextOfWord(raw: string, words: seq<string>, w: string, c: char)
    requires IsNameChar(c) && w != [] && IsNameChar(w[|w| - 1]) && Words(raw + w) == words + [w]
    ensures Words(raw + (w + [c])) == words + [w + [c]]
  {
    var all := raw + (w + [c]);
    assert all[..|all| - 1] == raw + w && all[|all| - 2] == w[|w| - 1];
    assert (words + [w])[..|words|] == words;
  }

  lemma {:induction false} WordsOfWord(raw: string, w: string)
    requires IsWord(w) && (raw == [] || !IsNameChar(raw[|raw| - 1]))
    ensures Words(raw + w) == Words(raw) + [w]
  {
    hide Words, IsNameChar;
    var n := |w| - 1;
    assert w == w[..n] + [w[n]] && w[n] in w;
    if n == 0 {
      assert w == [w[0]];
      FirstOfWord(raw, w[0]);
    } else {
      assert w[n - 1] in w;
      WordsOfWord(raw, w[..n]);
      NextOfWord(raw, Words(raw), w[..n], w[n]);
    }
  }

  lemma {:induction false} WordsOfDashed(words: seq<string>)
    requires forall w :: w in words ==> IsWord(w)
    ensures Words(Dashed(words)) == words
  {
    if words != [] {
      var front, last := words[..|words| - 1], words[|words| - 1];
      assert last in words && words == front + [last];
      if front == [] {
        assert [] + last == last;
        WordsOfWord([], last);
      } else {
        WordsOfDashed(front);
        WordsOfDash(Dashed(front));
        WordsOfWord(Dashed(front) + "-", last);
      }
    }
  }

  lemma WordsOfDash(raw: string)
    ensures Words(raw + "-") == Words(raw)
  {
    assert (raw + "-")[..|raw|] == raw;
  }

  /** A name in canonical form: words joined by single dashes. */
  predicate IsCanonical(name: string) {
    && name != [] && name[0] != '-' && name[|name| - 1] != '-'
    && (forall c :: c in name ==> IsNameChar(c) || c == '-')
    && forall i :: 0 < i < |name| && name[i] == '-' ==> name[i - 1] != '-'
  }

  lemma {:induction false} DashedIsCanonical(words: seq<string>)
    requires words != [] && forall w :: w in words ==> IsWord(w)
    ensures IsCanonical(Dashed(words))
  {
    var front, last := words[..|words| - 1], words[|words| - 1];
    WordIsCanonical(last);
    if front != [] {
      DashedIsCanonical(front);
      JoinedIsCanonical(Dashed(front), last);
    }
  }

  lemma WordIsCanonical(w: string)
    requires IsWord(w)
    ensures IsCanonical(w)
  {
    assert forall i :: 0 <= i < |w| ==> w[i] in w;
  }

  /** A prefix of a canonical name is its words joined, with the dash it may end in. */
  lemma {:induction false} CanonicalPrefix(name: string, n: nat)
    requires IsCanonical(name) && 0 < n <= |name|
    ensures Words(name[..n]) != []
    ensures name[..n] == if name[n - 1] == '-' then Dashed(Words(name[..n])) + "-" else Dashed(Words(name[..n]))
  {
    hide Words, Dashed;
    var c := name[n - 1];
    assert c in name;
    assert name[..n] == name[..n - 1] + [c];
    NextChar(name[..n - 1], c);
    WordsAreWords(name[..n]);
    DashedNothing(Words(name[..n]));
    if n > 1 {
      assert name[..n - 1][|name[..n - 1]| - 1] == name[n - 2] && name[n - 2] in name;
      CanonicalPrefix(name, n - 1);
      WordsAreWords(name[..n - 1]);
      DashedNothing(Words(name[..n - 1]));
    } else {
      NoWords();
    }
  }

  lemma NoWords()
    ensures Words([]) == [] && Dashed([]) == []
  {
  }

  /** Sanitizing is a canonicaliser: it yields a canonical name, leaves exactly the
      canonical names as they are, and identifies two labels exactly when they consist of
      the same words. It yields nothing exactly for labels without name characters. */
  lemma SanitizingIsCanonical(raw: string, other: string)
    ensures Sanitized(raw).Some? ==>
      IsCanonical(Sanitized(raw).value) && Sanitized(Sanitized(raw).value) == Sanitized(raw)
    ensures Sanitized(raw) == Some(raw) <==> IsCanonical(raw)
    ensures Sanitized(raw) == Sanitized(other) <==> Words(raw) == Words(other)
    ensures Sanitized(raw).None? <==> forall c :: c in raw ==> !IsNameChar(c)
  {
    hide Words, Dashed, IsCanonical;
    WordsAreWords(raw);
    WordsAreWords(other);
    WordsOfDashed(Words(raw));
    WordsOfDashed(Words(other));
    NoWordsIff(raw);
    if Words(raw) != [] {
      DashedIsCanonical(Words(raw));
    }
    if IsCanonical(raw) {
      CanonicalIsFixed(raw);
    }
  }

  lemma CanonicalIsFixed(name: string)
    requires IsCanonical(name)
    ensures Words(name) != [] && Dashed(Words(name)) == name
  {
    hide Words, Dashed;
    CanonicalPrefix(name, |name|);
    assert name[..|name|] == name;
  }

  lemma {:induction false} NoWordsIff(raw: string)
    ensures Words(raw) == [] <==> forall c :: c in raw ==> !IsNameChar(c)
  {
    if raw != [] {
      NoWordsIff(raw[..|raw| - 1]);
      assert raw == raw[..|raw| - 1] + [raw[|raw| - 1]];
    }
  }

  /** Dashes apart, a name keeps exactly the letters, digits and underscores of its label, in
      their order and case. */
  lemma SanitizingKeepsNameChars(raw: string)
    requires Sanitized(raw).Some?
    ensures Filter((c: char) => c != '-', Sanitized(raw).value) ==
      Filter((c: char) => 'a' <= c <= 'z' || 'A' <= c <= 'Z' || '0' <= c <= '9' || c == '_', raw)
  {
    WordsAreWords(raw);
    DashesApart(Words(raw));
    WordsKeepNameChars(raw);
    FiltersAgree((c: char) => 'a' <= c <= 'z' || 'A' <= c <= 'Z' || '0' <= c <= '9' || c == '_', NameChars(), raw);
  }

  function NameChars(): char -> bool {
    (c: char) => IsNameChar(c)
  }

  lemma {:induction false} DashesApart(words: seq<string>)
    requires forall w :: w in words ==> IsWord(w)
    ensures Filter((c: char) => c != '-', Dashed(words)) == Flatten(words)
  {
    hide Filter, Flatten, Dashed, IsWord;
    var p := (c: char) => c != '-';
    if words == [] {
      NoneFilter(p, []);
      NoWords();
      assert Flatten<char>([]) == [] by { FlattenNothing(); }
    } else {
      var front, last := words[..|words| - 1], words[|words| - 1];
      assert last in words && words == front + [last];
      DashesApart(front);
      FlattenSnoc(front, last);
      DashedGrows(front, last);
      WordHasNoDash(last);
      FilterAll(p, last);
      if front != [] {
        FilterConcat(p, Dashed(front) + "-", last);
        FilterSnoc(p, Dashed(front), '-');
      } else {
        assert Flatten<char>([]) == [] by { FlattenNothing(); }
      }
    }
  }

  lemma FlattenNothing()
    ensures Flatten<char>([]) == []
  {
  }

  lemma WordHasNoDash(w: string)
    requires IsWord(w)
    ensures forall c :: c in w ==> c != '-'
  {
  }

  lemma {:induction false} WordsKeepNameChars(raw: string)
    ensures Flatten(Words(raw)) == Filter(NameChars(), raw)
  {
    hide IsNameChar;
    if raw == [] {
      NoneFilter(NameChars(), []);
    } else {
      var n := |raw| - 1;
      var before := Words(raw[..n]);
      WordsKeepNameChars(raw[..n]);
      FilterSnoc(NameChars(), raw[..n], raw[n]);
      assert raw == raw[..n] + [raw[n]];
      FlattenSnoc(before, [raw[n]]);
      if before != [] {
        var front, last := before[..|before| - 1], before[|before| - 1];
        assert before == front + [last];
        FlattenSnoc(front, last);
        FlattenSnoc(front, last + [raw[n]]);
      }
    }
  }

  // ---- The job name -----------------------------------------------------------------------------

  function CiJobName(job: Option<string>, shard: Option<string>): Option<string> {
    var name := if job.Some? then Sanitized(job.value) else None;
    var suffix := if shard.Some? then Sanitized(shard.value) else None;
    if name.None? then None
    else if suffix.Some? then Some(name.value + "-" + suffix.value)
    else name
  }

  /** Within one job, shards of different words get different names, and all of them are
      task names. */
  lemma ShardsAreDistinct(job: string, shard: string, other: string)
    requires Sanitized(job).Some?
    ensures IsCanonical(CiJobName(Some(job), Some(shard)).value)
    ensures CiJobName(Some(job), Some(shard)) == CiJobName(Some(job), Some(other)) <==> Words(shard) == Words(other)
  {
    hide Words, Dashed, Sanitized;
    SanitizingIsCanonical(job, job);
    SanitizingIsCanonical(shard, other);
    SanitizingIsCanonical(other, shard);
    var name := Sanitized(job).value;
    if Sanitized(shard).Some? && Sanitized(other).Some? {
      assert (name + "-" + Sanitized(shard).value)[|name| + 1..] == Sanitized(shard).value;
      assert (name + "-" + Sanitized(other).value)[|name| + 1..] == Sanitized(other).value;
    }
    if Sanitized(shard).Some? {
      JoinedIsCanonical(name, Sanitized(shard).value);
    }
  }

  /** A job without a shard, or with a shard label that has no name character, goes by its
      own name; without a job name there is none. */
  lemma JobWithoutShard(job: Option<string>, shard: Option<string>)
    ensures job.None? || (forall c :: c in job.value ==> !IsNameChar(c)) ==> CiJobName(job, shard).None?
    ensures job.Some? && (shard.None? || forall c :: c in shard.value ==> !IsNameChar(c)) ==>
      CiJobName(job, shard) == Sanitized(job.value)
    ensures job.Some? && Sanitized(job.value).Some? && shard.Some? && Sanitized(shard.value).Some? ==>
      CiJobName(job, shard) == Some(Sanitized(job.value).value + "-" + Sanitized(shard.value).value)
  {
    hide Words, Dashed, IsNameChar;
    if job.Some? {
      NoWordsIff(job.value);
    }
    if shard.Some? {
      NoWordsIff(shard.value);
    }
  }

  lemma JoinedIsCanonical(a: string, b: string)
    requires IsCanonical(a) && IsCanonical(b)
    ensures IsCanonical(a + "-" + b)
  {
    var name := a + "-" + b;
    forall i | 0 < i < |name| && name[i] == '-' ensures name[i - 1] != '-' {
      if i < |a| {
        assert a[i] == '-';
      } else if i > |a| {
        assert b[i - |a| - 1] == '-';
      }
    }
  }

  // ---- Candidates ---------------------------------------------------------------------------------

  const MAX_NAME_PROBE: nat := 1000

  function Decimal(n: nat): (s: string)
    ensures s != []
    decreases n
  {
    if n < 10 then [('0' as int + n) as char] else Decimal(n / 10) + [('0' as int + n % 10) as char]
  }

  function Candidate(base: string, n: nat): string {
    if n == 1 then base else base + "-" + Decimal(n)
  }

  lemma {:induction false} DecimalIsInjective(m: nat, n: nat)
    requires Decimal(m) == Decimal(n)
    ensures m == n
    decreases m
  {
    var s := Decimal(m);
    var last := s[|s| - 1] as int - '0' as int;
    assert last == m % 10 && last == n % 10;
    if m >= 10 && n >= 10 {
      assert Decimal(m / 10) == s[..|s| - 1] && Decimal(n / 10) == s[..|s| - 1];
      DecimalIsInjective(m / 10, n / 10);
    }
  }

  /** The number that decimal digits stand for. */
  function Reading(digits: string): nat
    requires forall i :: 0 <= i < |digits| ==> '0' <= digits[i] <= '9'
  {
    if digits == "" then 0
    else 10 * Reading(digits[..|digits| - 1]) + (digits[|digits| - 1] as int - '0' as int)
  }

  lemma {:induction false} DecimalReadsBack(n: nat)
    ensures var digits := Decimal(n);
      && (forall i :: 0 <= i < |digits| ==> '0' <= digits[i] <= '9') && Reading(digits) == n
      && (n > 0 ==> digits[0] != '0')
    decreases n
  {
    if n >= 10 {
      DecimalReadsBack(n / 10);
      assert Decimal(n)[..|Decimal(n)| - 1] == Decimal(n / 10);
    } else {
      assert Decimal(n)[..0] == "";
    }
  }

  /** The first candidate is the bare base, the `n`-th the base with `-n`, in digits. */
  lemma CandidateIsNumbered(base: string, n: nat)
    requires n >= 1
    ensures n == 1 ==> Candidate(base, n) == base
    ensures n > 1 ==>
      var suffix := Candidate(base, n)[|base|..];
      && |suffix| > 1 && Candidate(base, n) == base + suffix && suffix[0] == '-' && suffix[1] != '0'
      && (forall i :: 1 <= i < |suffix| ==> '0' <= suffix[i] <= '9') && Reading(suffix[1..]) == n
  {
    hide Decimal, Reading;
    DecimalReadsBack(n);
    if n > 1 {
      assert Candidate(base, n)[|base|..] == "-" + Decimal(n);
      assert ("-" + Decimal(n))[1..] == Decimal(n);
    }
  }

  lemma CandidatesDiffer(base: string, m: nat, n: nat)
    requires m != n
    ensures Candidate(base, m) != Candidate(base, n)
  {
    if Candidate(base, m) == Candidate(base, n) && m != 1 && n != 1 {
      assert Candidate(base, m)[|base| + 1..] == Decimal(m);
      assert Candidate(base, n)[|base| + 1..] == Decimal(n);
      DecimalIsInjective(m, n);
    }
  }

  // ---- Reserving, when nothing interferes -----------------------------------------------------------

  datatype ClaimResult = Won | Taken | Error

  /** The claim files of a run. */
  class ClaimDir {
    var names: set<string>

    constructor (names: set<string>)
      ensures this.names == names
    {
      this.names := names;
    }

    /** Creates the claim file of `candidate`, unless it exists or the file system fails. */
    method Claim(candidate: string, fails: bool) returns (result: ClaimResult)
      modifies this
      ensures result == ClaimOutcome(old(names), candidate, fails)
      ensures names == if result.Won? then old(names) + {candidate} else old(names)
    {
      if fails {
        return Error;
      }
      if candidate in names {
        return Taken;
      }
      names := names + {candidate};
      result := Won;
    }

    method ReserveTaskName(base: string, fails: string -> bool) returns (name: string)
      modifies this
      ensures forall n: nat :: FirstFree(old(names), fails, base, n) && n <= 1000 ==>
        name == Candidate(base, n) && names == old(names) + {name}
      ensures (forall n: nat :: FirstFree(old(names), fails, base, n) ==> n > 1000) ==>
        name == base && names == old(names)
    {
      hide Candidate;
      var n := 1;
      while n <= MAX_NAME_PROBE
        invariant 1 <= n <= MAX_NAME_PROBE + 1 && names == old(names)
        invariant forall m :: 1 <= m < n ==> Candidate(base, m) in names && !fails(Candidate(base, m))
      {
        var candidate := Candidate(base, n);
        var result := Claim(candidate, fails(candidate));
        match result {
          case Won =>
            FirstFreeIsUnique(old(names), fails, base, n);
            return candidate;
          case Taken =>
          case Error => break;
        }
        n := n + 1;
      }
      NoneFree(names, fails, base, n);
      name := Candidate(base, 1);
      BaseFirst(base);
    }
  }

  function ClaimOutcome(names: set<string>, candidate: string, fails: bool): ClaimResult {
    if fails then Error else if candidate in names then Taken else Won
  }

  /** `n` is the first candidate not taken, and no claim up to it fails. */
  ghost predicate FirstFree(names: set<string>, fails: string -> bool, base: string, n: nat) {
    && n >= 1 && Candidate(base, n) !in names
    && (forall m :: 1 <= m < n ==> Candidate(base, m) in names)
    && forall m :: 1 <= m <= n ==> !fails(Candidate(base, m))
  }

  lemma BaseFirst(base: string)
    ensures Candidate(base, 1) == base
  {
  }

  lemma FirstFreeIsUnique(names: set<string>, fails: string -> bool, base: string, n: nat)
    requires FirstFree(names, fails, base, n)
    ensures forall m: nat :: FirstFree(names, fails, base, m) ==> m == n
  {
    hide Candidate;
  }

  /** When the first candidate that is not taken fails, or lies beyond the cap, none is free. */
  lemma NoneFree(names: set<string>, fails: string -> bool, base: string, n: nat)
    requires n >= 1 && forall m :: 1 <= m < n ==> Candidate(base, m) in names
    requires n <= MAX_NAME_PROBE ==> fails(Candidate(base, n))
    ensures forall m: nat :: FirstFree(names, fails, base, m) ==> m > MAX_NAME_PROBE
  {
    hide Candidate;
  }
}
