/** The rc-line tokenizer (crates/bazelrc/src/tokenize.rs): a three-state scanner for
    quotes, escapes and comments, proved against a grammar of rc lines. */
module Tokenizer {

  datatype State = Normal | SingleQuoted | DoubleQuoted

  function Finish(current: string, inToken: bool): seq<string> {
    if inToken || current != "" then [current] else []
  }

  /** The tokens still to be produced when `s` is left to scan. */
  function Scan(s: string, state: State, current: string, inToken: bool): seq<string>
    decreases |s|
  {
    if s == "" then Finish(current, inToken)
    else if state == Normal then
      if s[0] == '#' then Finish(current, inToken)
      else if s[0] == ' ' || s[0] == '\t' then
        if inToken then [current] + Scan(s[1..], Normal, "", false)
        else Scan(s[1..], Normal, current, false)
      else if s[0] == '\'' then Scan(s[1..], SingleQuoted, current, true)
      else if s[0] == '"' then Scan(s[1..], DoubleQuoted, current, true)
      else if s[0] == '\\' then
        if |s| == 1 then Finish(current, true) else Scan(s[2..], Normal, current + [s[1]], true)
      else Scan(s[1..], Normal, current + [s[0]], true)
    else
      if s[0] == Mark(state) then Scan(s[1..], Normal, current, inToken)
      else if s[0] == '\\' then
        if |s| == 1 then Finish(current, inToken) else Scan(s[2..], state, current + [s[1]], inToken)
      else Scan(s[1..], state, current + [s[0]], inToken)
  }

  function Mark(state: State): char {
    if state == SingleQuoted then '\'' else '"'
  }

  /** The tokens of a whole line. */
  function Tokens(line: string): seq<string> {
    Scan(line, Normal, "", false)
  }

  method Tokenize(line: string) returns (tokens: seq<string>)
    ensures tokens == Tokens(line)
  {
    tokens := [];
    var current, state, inToken, i := "", Normal, false, 0;
    while i < |line|
      invariant 0 <= i <= |line|
      invariant Scan(line, Normal, "", false) == tokens + Scan(line[i..], state, current, inToken)
    {
      var ch := line[i];
      i := i + 1;
      assert line[i - 1..][1..] == line[i..];
      if i < |line| {
        assert line[i - 1..][2..] == line[i + 1..];
      }
      match state
      case Normal =>
        if ch == '#' {
          assert tokens + Finish(current, inToken) == Scan(line, Normal, "", false);
          break;
        } else if ch == ' ' || ch == '\t' {
          if inToken {
            tokens, current, inToken := tokens + [current], "", false;
          }
        } else if ch == '\'' {
          inToken, state := true, SingleQuoted;
        } else if ch == '"' {
          inToken, state := true, DoubleQuoted;
        } else if ch == '\\' {
          inToken := true;
          if i < |line| {
            current, i := current + [line[i]], i + 1;
          }
        } else {
          inToken, current := true, current + [ch];
        }
      case SingleQuoted =>
        if ch == '\'' {
          state := Normal;
        } else if ch == '\\' {
          if i < |line| {
            current, i := current + [line[i]], i + 1;
          }
        } else {
          current := current + [ch];
        }
      case DoubleQuoted =>
        if ch == '"' {
          state := Normal;
        } else if ch == '\\' {
          if i < |line| {
            current, i := current + [line[i]], i + 1;
          }
        } else {
          current := current + [ch];
        }
    }
    if inToken || current != "" {
      tokens := tokens + [current];
    }
  }

  // ---- The grammar of rc lines ------------------------------------------------

  /** A character inside quotes: itself, or escaped by a backslash. */
  datatype Inner = Raw(c: char) | Escaped(c: char)

  /** A line is a run of items: blanks that separate, and pieces that build words. */
  datatype Item =
    | Blank(tab: bool)
    | Plain(c: char)
    | Backslashed(c: char)
    | Quoted(quote: State, body: seq<Inner>)

  /** What a line may end with after its items. */
  datatype Ending =
    | End
    | Comment(text: string)
    | OpenQuote(quote: State, body: seq<Inner>, dangling: bool)
    | DanglingBackslash

  predicate WellFormedBody(quote: State, body: seq<Inner>) {
    && quote != Normal
    && forall i :: 0 <= i < |body| && body[i].Raw? ==> body[i].c != Mark(quote) && body[i].c != '\\'
  }

  predicate WellFormedItem(item: Item) {
    match item
    case Blank(_) => true
    case Plain(c) => c !in "# \t'\"\\"
    case Backslashed(_) => true
    case Quoted(quote, body) => WellFormedBody(quote, body)
  }

  predicate WellFormedLine(items: seq<Item>, ending: Ending) {
    && (forall i :: 0 <= i < |items| ==> WellFormedItem(items[i]))
    && (ending.OpenQuote? ==> WellFormedBody(ending.quote, ending.body))
  }

  function WriteBody(body: seq<Inner>): string {
    if body == [] then ""
    else WriteInner(body[0]) + WriteBody(body[1..])
  }

  function WriteInner(inner: Inner): string {
    if inner.Raw? then [inner.c] else ['\\', inner.c]
  }

  function WriteItem(item: Item): string {
    match item
    case Blank(tab) => if tab then "\t" else " "
    case Plain(c) => [c]
    case Backslashed(c) => ['\\', c]
    case Quoted(quote, body) => [Mark(quote)] + WriteBody(body) + [Mark(quote)]
  }

  function WriteEnding(ending: Ending): string {
    match ending
    case End => ""
    case Comment(text) => "#" + text
    case OpenQuote(quote, body, dangling) => [Mark(quote)] + WriteBody(body) + if dangling then "\\" else ""
    case DanglingBackslash => "\\"
  }

  function WriteLine(items: seq<Item>, ending: Ending): string {
    if items == [] then WriteEnding(ending) else WriteItem(items[0]) + WriteLine(items[1..], ending)
  }

  /** The text a quoted body stands for: every character, escapes resolved. */
  function BodyText(body: seq<Inner>): (text: string)
    ensures |text| == |body|
    ensures forall i :: 0 <= i < |body| ==> text[i] == body[i].c
  {
    if body == [] then "" else [body[0].c] + BodyText(body[1..])
  }

  /** A word under construction: `None` between words. */
  datatype Word = NoWord | Word(text: string)

  function Grow(word: Word, text: string): Word {
    Word((if word.Word? then word.text else "") + text)
  }

  function Close(word: Word): seq<string> {
    if word.Word? then [word.text] else []
  }

  /** The words a line stands for. Blanks separate; adjacent pieces join; an unclosed
      quote and a dangling backslash still make a word, even an empty one. */
  function Words(items: seq<Item>, ending: Ending, word: Word): seq<string> {
    if items == [] then
      match ending
      case End => Close(word)
      case Comment(_) => Close(word)
      case OpenQuote(_, body, _) => Close(Grow(word, BodyText(body)))
      case DanglingBackslash => Close(Grow(word, ""))
    else if items[0].Blank? then Close(word) + Words(items[1..], ending, NoWord)
    else Words(items[1..], ending, Grow(word, PieceText(items[0])))
  }

  function PieceText(item: Item): string
    requires !item.Blank?
  {
    match item
    case Plain(c) => [c]
    case Backslashed(c) => [c]
    case Quoted(_, body) => BodyText(body)
  }

  function TextOf(word: Word): string {
    if word.Word? then word.text else ""
  }

  lemma ScanInner(quote: State, inner: Inner, rest: string, current: string)
    requires WellFormedBody(quote, [inner])
    ensures Scan(WriteInner(inner) + rest, quote, current, true) == Scan(rest, quote, current + [inner.c], true)
  {
    assert [inner][0] == inner;
    var s := WriteInner(inner) + rest;
    assert s[|WriteInner(inner)|..] == rest;
  }

  lemma ScanMark(quote: State, rest: string, current: string, inToken: bool)
    requires quote != Normal
    ensures Scan([Mark(quote)] + rest, Normal, current, inToken) == Scan(rest, quote, current, true)
    ensures Scan([Mark(quote)] + rest, quote, current, true) == Scan(rest, Normal, current, true)
  {
    assert ([Mark(quote)] + rest)[1..] == rest;
  }

  lemma {:induction false} ScanBody(quote: State, body: seq<Inner>, rest: string, current: string)
    requires WellFormedBody(quote, body)
    ensures Scan(WriteBody(body) + rest, quote, current, true) == Scan(rest, quote, current + BodyText(body), true)
  {
    hide Scan;
    if body == [] {
      assert WriteBody(body) + rest == rest;
      assert current + BodyText(body) == current;
    } else {
      var more := WriteBody(body[1..]) + rest;
      assert WriteBody(body) + rest == WriteInner(body[0]) + more;
      ScanInner(quote, body[0], more, current);
      ScanBody(quote, body[1..], rest, current + [body[0].c]);
      assert current + [body[0].c] + BodyText(body[1..]) == current + BodyText(body);
    }
  }

  lemma ScanEnding(ending: Ending, word: Word)
    requires ending.OpenQuote? ==> WellFormedBody(ending.quote, ending.body)
    ensures Scan(WriteEnding(ending), Normal, TextOf(word), word.Word?) == Words([], ending, word)
  {
    if ending.OpenQuote? {
      ScanOpenQuote(ending, word);
    } else {
      assert TextOf(word) + "" == TextOf(word);
    }
  }

  lemma ScanOpenQuote(ending: Ending, word: Word)
    requires ending.OpenQuote? && WellFormedBody(ending.quote, ending.body)
    ensures Scan(WriteEnding(ending), Normal, TextOf(word), word.Word?) == Words([], ending, word)
  {
    var tail, text := if ending.dangling then "\\" else "", TextOf(word) + BodyText(ending.body);
    assert Scan(tail, ending.quote, text, true) == [text];
    hide Scan;
    assert WriteEnding(ending) == [Mark(ending.quote)] + (WriteBody(ending.body) + tail);
    ScanMark(ending.quote, WriteBody(ending.body) + tail, TextOf(word), word.Word?);
    ScanBody(ending.quote, ending.body, tail, TextOf(word));
  }

  lemma ScanItem(item: Item, rest: string, word: Word)
    requires WellFormedItem(item)
    ensures Scan(WriteItem(item) + rest, Normal, TextOf(word), word.Word?) ==
            if item.Blank? then Close(word) + Scan(rest, Normal, "", false)
            else Scan(rest, Normal, TextOf(Grow(word, PieceText(item))), true)
  {
    var s := WriteItem(item) + rest;
    match item
    case Blank(_) => assert s[1..] == rest;
    case Plain(_) => assert s[1..] == rest;
    case Backslashed(_) => assert s[2..] == rest;
    case Quoted(_, _) => ScanQuoted(item, rest, word);
  }

  lemma ScanQuoted(item: Item, rest: string, word: Word)
    requires item.Quoted? && WellFormedItem(item)
    ensures Scan(WriteItem(item) + rest, Normal, TextOf(word), word.Word?) ==
            Scan(rest, Normal, TextOf(Grow(word, PieceText(item))), true)
  {
    hide Scan;
    var closing := [Mark(item.quote)] + rest;
    assert WriteItem(item) + rest == [Mark(item.quote)] + (WriteBody(item.body) + closing);
    ScanMark(item.quote, WriteBody(item.body) + closing, TextOf(word), word.Word?);
    ScanBody(item.quote, item.body, closing, TextOf(word));
    ScanMark(item.quote, rest, TextOf(Grow(word, PieceText(item))), true);
  }

  /** Every well-formed line is read as the words it stands for, whatever mixture of
      quoting styles it uses. */
  lemma {:induction false} ScanReadsWords(items: seq<Item>, ending: Ending, word: Word)
    requires WellFormedLine(items, ending)
    ensures Scan(WriteLine(items, ending), Normal, TextOf(word), word.Word?) == Words(items, ending, word)
  {
    hide Scan;
    if items == [] {
      ScanEnding(ending, word);
    } else {
      assert WellFormedLine(items[1..], ending) by {
        assert forall i :: 0 <= i < |items[1..]| ==> items[1..][i] == items[i + 1];
      }
      ScanItem(items[0], WriteLine(items[1..], ending), word);
      ScanReadsWords(items[1..], ending, if items[0].Blank? then NoWord else Grow(word, PieceText(items[0])));
    }
  }

  /** Reading the rest of a quoted section: its body, and whether it is closed. */
  lemma {:induction false} BodyOf(quote: State, s: string)
      returns (body: seq<Inner>, closed: bool, dangling: bool, rest: string)
    requires quote != Normal
    ensures WellFormedBody(quote, body)
    ensures closed ==> s == WriteBody(body) + [Mark(quote)] + rest
    ensures !closed ==> s == WriteBody(body) + if dangling then "\\" else ""
    decreases |s|
  {
    if s == "" {
      body, closed, dangling, rest := [], false, false, "";
    } else if s[0] == Mark(quote) {
      body, closed, dangling, rest := [], true, false, s[1..];
    } else if s == "\\" {
      body, closed, dangling, rest := [], false, true, "";
    } else {
      var inner, n := if s[0] == '\\' then Escaped(s[1]) else Raw(s[0]), if s[0] == '\\' then 2 else 1;
      body, closed, dangling, rest := BodyOf(quote, s[n..]);
      var tail := body;
      body := [inner] + body;
      assert body[1..] == tail;
      assert s == s[..n] + s[n..];
    }
  }

  /** A line begins with an item, unless it ends at once. */
  lemma FirstItem(s: string) returns (more: bool, item: Item, rest: string, ending: Ending)
    ensures more ==> WellFormedItem(item) && s == WriteItem(item) + rest && |rest| < |s|
    ensures !more ==> WellFormedLine([], ending) && s == WriteEnding(ending)
  {
    more, item, rest, ending := false, Blank(false), "", End;
    if s == "" {
    } else if s[0] == '#' {
      ending := Comment(s[1..]);
    } else if s == "\\" {
      ending := DanglingBackslash;
    } else if s[0] == '\'' || s[0] == '"' {
      var quote := if s[0] == '\'' then SingleQuoted else DoubleQuoted;
      var body, closed, dangling, after := BodyOf(quote, s[1..]);
      if closed {
        more, item, rest := true, Quoted(quote, body), after;
      } else {
        ending := OpenQuote(quote, body, dangling);
      }
    } else if s[0] == '\\' {
      more, item, rest := true, Backslashed(s[1]), s[2..];
    } else if s[0] == ' ' || s[0] == '\t' {
      more, item, rest := true, Blank(s[0] == '\t'), s[1..];
    } else {
      more, item, rest := true, Plain(s[0]), s[1..];
    }
  }

  /** The grammar covers every line, so the two lemmas together determine the tokenizer. */
  lemma {:induction false} EveryLineIsWellFormed(s: string) returns (items: seq<Item>, ending: Ending)
    ensures WellFormedLine(items, ending) && WriteLine(items, ending) == s
    decreases |s|
  {
    var more, item, rest, end := FirstItem(s);
    items, ending := [], end;
    if more {
      hide WellFormedItem, WriteItem;
      items, ending := EveryLineIsWellFormed(rest);
      assert ([item] + items)[1..] == items;
      items := [item] + items;
    }
  }

  /** A dangling backslash stands alone: nothing, or a blank, comes before it. */
  predicate StandsAlone(items: seq<Item>) {
    items == [] || items[|items| - 1].Blank?
  }

  /** A dangling backslash is dropped if and only if it directly follows a token; standing
      alone it makes an extra, empty token. */
  lemma DanglingBackslashIsDroppedIff(items: seq<Item>)
    requires WellFormedLine(items, End)
    ensures Tokens(WriteLine(items, DanglingBackslash)) == Tokens(WriteLine(items, End)) <==> !StandsAlone(items)
    ensures Tokens(WriteLine(items, DanglingBackslash)) ==
      Tokens(WriteLine(items, End)) + if StandsAlone(items) then [""] else []
  {
    ScanReadsWords(items, End, NoWord);
    ScanReadsWords(items, DanglingBackslash, NoWord);
    WordAtEnd(items, NoWord);
  }

  /** The tokenizer, line by line of the grammar. */
  lemma TokensAreWords(items: seq<Item>, ending: Ending)
    requires WellFormedLine(items, ending)
    ensures Tokens(WriteLine(items, ending)) == Words(items, ending, NoWord)
  {
    ScanReadsWords(items, ending, NoWord);
  }

  function AddedAtEnd(items: seq<Item>, word: Word): seq<string> {
    if (items == [] && word == NoWord) || (items != [] && items[|items| - 1].Blank?) then [""] else []
  }

  lemma {:induction false} WordAtEnd(items: seq<Item>, word: Word)
    ensures Words(items, DanglingBackslash, word) == Words(items, End, word) + AddedAtEnd(items, word)
  {
    if items != [] {
      var rest, next := items[1..], if items[0].Blank? then NoWord else Grow(word, PieceText(items[0]));
      WordAtEnd(rest, next);
      assert AddedAtEnd(items, word) == AddedAtEnd(rest, next);
      assert Close(word) + (Words(rest, End, next) + AddedAtEnd(rest, next)) ==
        Close(word) + Words(rest, End, next) + AddedAtEnd(rest, next);
    } else {
      assert TextOf(word) + "" == TextOf(word);
    }
  }

  // ---- In text ------------------------------------------------------------------------------------

  /** Characters that mean themselves outside quotes. */
  predicate IsSimple(w: string) {
    forall i :: 0 <= i < |w| ==> w[i] !in " \t#'\"\\"
  }

  lemma {:induction false} ScanSimple(w: string, rest: string, current: string, inToken: bool)
    requires IsSimple(w)
    ensures Scan(w + rest, Normal, current, inToken) == Scan(rest, Normal, current + w, inToken || w != "")
  {
    if w == "" {
      assert w + rest == rest && current + w == current;
    } else {
      ScanSimple(w[1..], rest, current + [w[0]], true);
      assert (w + rest)[1..] == w[1..] + rest;
      assert current + [w[0]] + w[1..] == current + w;
    }
  }

  lemma {:induction false} ScanInside(quote: State, w: string, rest: string, current: string)
    requires quote != Normal && forall i :: 0 <= i < |w| ==> w[i] != Mark(quote) && w[i] != '\\'
    ensures Scan(w + rest, quote, current, true) == Scan(rest, quote, current + w, true)
  {
    if w == "" {
      assert w + rest == rest && current + w == current;
    } else {
      ScanInside(quote, w[1..], rest, current + [w[0]]);
      assert (w + rest)[1..] == w[1..] + rest;
      assert current + [w[0]] + w[1..] == current + w;
    }
  }

  /** Spaces and tabs separate words, and a `#` ends the line, also within a word. */
  lemma BlanksAndComments(w: string, rest: string, comment: string)
    requires IsSimple(w) && w != ""
    ensures Tokens(w + " " + rest) == [w] + Tokens(rest) && Tokens(w + "\t" + rest) == [w] + Tokens(rest)
    ensures Tokens(" " + rest) == Tokens(rest) && Tokens("\t" + rest) == Tokens(rest)
    ensures Tokens(w + "#" + comment) == [w] && Tokens("#" + comment) == []
  {
    assert "" + w == w;
    ScanSimple(w, " " + rest, "", false);
    ScanSimple(w, "\t" + rest, "", false);
    ScanSimple(w, "#" + comment, "", false);
    assert w + " " + rest == w + (" " + rest) && w + "\t" + rest == w + ("\t" + rest);
    assert w + "#" + comment == w + ("#" + comment);
    assert (" " + rest)[1..] == rest && ("\t" + rest)[1..] == rest;
  }

  /** Between quotes of either kind all characters but the quote and the backslash stand for
      themselves; a backslash makes the next one stand for itself, in and out of quotes; and
      pieces that touch are one word. */
  lemma QuotesAndEscapes(w: string, body: string, c: char)
    requires IsSimple(w)
    ensures (forall i :: 0 <= i < |body| ==> body[i] != '\'' && body[i] != '\\') ==>
      Tokens(w + "'" + body + "'") == [w + body]
    ensures (forall i :: 0 <= i < |body| ==> body[i] != '"' && body[i] != '\\') ==>
      Tokens(w + "\"" + body + "\"") == [w + body]
    ensures Tokens(w + ['\\', c]) == [w + [c]]
    ensures Tokens(w + ['\'', '\\', c, '\'']) == [w + [c]] && Tokens(w + ['"', '\\', c, '"']) == [w + [c]]
  {
    hide Scan, IsSimple;
    if forall i :: 0 <= i < |body| ==> body[i] != '\'' && body[i] != '\\' {
      QuotedPart(SingleQuoted, w, body);
      assert w + "'" + body + "'" == w + (['\''] + (body + ['\'']));
    }
    if forall i :: 0 <= i < |body| ==> body[i] != '"' && body[i] != '\\' {
      QuotedPart(DoubleQuoted, w, body);
      assert w + "\"" + body + "\"" == w + (['"'] + (body + ['"']));
    }
    EscapedParts(w, c);
  }

  lemma QuotedPart(quote: State, w: string, body: string)
    requires IsSimple(w) && quote != Normal
    requires forall i :: 0 <= i < |body| ==> body[i] != Mark(quote) && body[i] != '\\'
    ensures Tokens(w + ([Mark(quote)] + (body + [Mark(quote)]))) == [w + body]
  {
    hide Scan;
    var closing := [Mark(quote)];
    ScanSimple(w, [Mark(quote)] + (body + closing), "", false);
    ScanMark(quote, body + closing, "" + w, w != "");
    ScanInside(quote, body, closing, "" + w);
    ScanMark(quote, "", "" + w + body, true);
    assert closing + "" == closing;
    assert "" + w + body == w + body;
    NothingToScan(w + body);
  }

  lemma NothingToScan(current: string)
    ensures Scan("", Normal, current, true) == [current]
  {
  }

  lemma EscapedParts(w: string, c: char)
    requires IsSimple(w)
    ensures Tokens(w + ['\\', c]) == [w + [c]]
    ensures Tokens(w + ['\'', '\\', c, '\'']) == [w + [c]] && Tokens(w + ['"', '\\', c, '"']) == [w + [c]]
  {
    hide IsSimple;
    assert "" + w == w;
    ScanSimple(w, ['\\', c], "", false);
    ScanSimple(w, ['\'', '\\', c, '\''], "", false);
    ScanSimple(w, ['"', '\\', c, '"'], "", false);
    assert ['\\', c][2..] == "";
    InnerEscape(SingleQuoted, w, c);
    InnerEscape(DoubleQuoted, w, c);
  }

  lemma InnerEscape(quote: State, w: string, c: char)
    requires quote != Normal
    ensures Scan([Mark(quote), '\\', c, Mark(quote)], Normal, w, w != "") == [w + [c]]
  {
    hide Scan;
    assert [Mark(quote), '\\', c, Mark(quote)] == [Mark(quote)] + (WriteInner(Escaped(c)) + [Mark(quote)]);
    ScanMark(quote, WriteInner(Escaped(c)) + [Mark(quote)], w, w != "");
    ScanInner(quote, Escaped(c), [Mark(quote)], w);
    ScanMark(quote, "", w + [c], true);
    assert [Mark(quote)] + "" == [Mark(quote)];
    NothingToScan(w + [c]);
  }
}
