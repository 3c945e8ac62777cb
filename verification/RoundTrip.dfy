/** Printing rows of tokens as rc-file text and reading them back. */
module RoundTrip {
  import opened Prelude
  import P = Preprocessor
  import T = Tokenizer

  /** Backslash before a quote or a backslash, everything else as it is. */
  function Escape(token: string): string {
    if token == "" then ""
    else (if token[0] == '\'' || token[0] == '\\' then ['\\', token[0]] else [token[0]]) + Escape(token[1..])
  }

  function PrintToken(token: string): string {
    "'" + Escape(token) + "'"
  }

  function PrintRow(row: seq<string>): string
    requires row != []
  {
    if |row| == 1 then PrintToken(row[0]) else PrintToken(row[0]) + " " + PrintRow(row[1..])
  }

  function PrintRows(rows: seq<seq<string>>): (lines: seq<string>)
    requires forall i :: 0 <= i < |rows| ==> rows[i] != []
    ensures |lines| == |rows|
    ensures forall i :: 0 <= i < |rows| ==> lines[i] == PrintRow(rows[i])
  {
    if rows == [] then [] else [PrintRow(rows[0])] + PrintRows(rows[1..])
  }

  function PrintFile(rows: seq<seq<string>>): string
    requires forall i :: 0 <= i < |rows| ==> rows[i] != []
  {
    if rows == [] then "" else P.Join(PrintRows(rows))
  }

  /** What the parser does with a file before it looks at directives. */
  function ReadFile(content: string): seq<seq<string>> {
    ReadLines(P.Process(content))
  }

  function ReadLines(lines: seq<string>): (rows: seq<seq<string>>)
    ensures |rows| == |lines|
    ensures forall i :: 0 <= i < |lines| ==> rows[i] == T.Tokens(lines[i])
  {
    if lines == [] then [] else [T.Tokens(lines[0])] + ReadLines(lines[1..])
  }

  function QuotedBody(token: string): (body: seq<T.Inner>)
    ensures T.WellFormedBody(T.SingleQuoted, body) && T.BodyText(body) == token && T.WriteBody(body) == Escape(token)
  {
    if token == "" then []
    else
      var rest := QuotedBody(token[1..]);
      [if token[0] == '\'' || token[0] == '\\' then T.Escaped(token[0]) else T.Raw(token[0])] + rest
  }

  function RowItems(row: seq<string>): seq<T.Item>
    requires row != []
  {
    [TokenItem(row[0])] +
    if |row| == 1 then [] else [T.Blank(false)] + RowItems(row[1..])
  }

  function TokenItem(token: string): (item: T.Item)
    ensures item.Quoted? && T.WellFormedItem(item)
    ensures T.WriteItem(item) == PrintToken(token) && T.PieceText(item) == token
  {
    T.Quoted(T.SingleQuoted, QuotedBody(token))
  }

  lemma ConsItem(item: T.Item, items: seq<T.Item>)
    requires T.WellFormedItem(item) && T.WellFormedLine(items, T.End)
    ensures T.WellFormedLine([item] + items, T.End)
    ensures T.WriteLine([item] + items, T.End) == T.WriteItem(item) + T.WriteLine(items, T.End)
    ensures forall w :: T.Words([item] + items, T.End, w) ==
              if item.Blank? then T.Close(w) + T.Words(items, T.End, T.NoWord)
              else T.Words(items, T.End, T.Grow(w, T.PieceText(item)))
  {
    assert ([item] + items)[1..] == items;
  }

  lemma {:induction false} RowIsWellFormed(row: seq<string>)
    requires row != []
    ensures T.WellFormedLine(RowItems(row), T.End)
    ensures T.WriteLine(RowItems(row), T.End) == PrintRow(row)
    ensures T.Words(RowItems(row), T.End, T.NoWord) == row
  {
    if |row| == 1 {
      RowOfOne(row[0]);
      assert row == [row[0]];
    } else {
      RowIsWellFormed(row[1..]);
      RowOfMore(row[0], RowItems(row[1..]));
      assert row == [row[0]] + row[1..];
      assert RowItems(row) == [TokenItem(row[0])] + ([T.Blank(false)] + RowItems(row[1..]));
    }
  }

  lemma RowOfOne(token: string)
    ensures var items := RowItems([token]);
      && T.WellFormedLine(items, T.End)
      && T.WriteLine(items, T.End) == PrintToken(token)
      && T.Words(items, T.End, T.NoWord) == [token]
  {
    var item := TokenItem(token);
    assert RowItems([token]) == [item];
    ConsItem(item, []);
    assert [item] + [] == [item];
    assert "" + token == token;
    assert PrintToken(token) + "" == PrintToken(token);
  }

  lemma RowOfMore(token: string, rest: seq<T.Item>)
    requires T.WellFormedLine(rest, T.End)
    ensures var items := [TokenItem(token)] + ([T.Blank(false)] + rest);
      && T.WellFormedLine(items, T.End)
      && T.WriteLine(items, T.End) == PrintToken(token) + " " + T.WriteLine(rest, T.End)
      && T.Words(items, T.End, T.NoWord) == [token] + T.Words(rest, T.End, T.NoWord)
  {
    hide T.WriteLine, T.Words, T.WellFormedLine, TokenItem, PrintToken;
    ConsItem(T.Blank(false), rest);
    ConsItem(TokenItem(token), [T.Blank(false)] + rest);
    assert "" + token == token;
    assert PrintToken(token) + (" " + T.WriteLine(rest, T.End)) == PrintToken(token) + " " + T.WriteLine(rest, T.End);
  }

  lemma {:induction false} EscapeKeepsOffNewlines(token: string)
    requires '\n' !in token
    ensures '\n' !in Escape(token)
  {
    if token != "" {
      EscapeKeepsOffNewlines(token[1..]);
    }
  }

  lemma {:induction false} RowIsOnePlainLine(row: seq<string>)
    requires row != [] && forall i :: 0 <= i < |row| ==> '\n' !in row[i]
    ensures var line := PrintRow(row);
      '\n' !in line && line != "" && line[0] == '\'' && line[|line| - 1] == '\''
  {
    EscapeKeepsOffNewlines(row[0]);
    if |row| > 1 {
      RowIsOnePlainLine(row[1..]);
    }
  }

  /** One or more newline-free tokens. */
  predicate IsPrintable(row: seq<string>) {
    row != [] && forall i :: 0 <= i < |row| ==> '\n' !in row[i]
  }

  predicate ArePrintable(rows: seq<seq<string>>) {
    forall i :: 0 <= i < |rows| ==> IsPrintable(rows[i])
  }

  /** Printed rows are the lines that preprocessing gives back. */
  lemma PrintedLines(rows: seq<seq<string>>)
    requires ArePrintable(rows)
    ensures P.Process(PrintFile(rows)) == PrintRows(rows)
    ensures ReadLines(PrintRows(rows)) == rows
  {
    if rows == [] {
      assert P.Remove("", P.CR_CONTINUATION + "\n") == "" && P.Remove("", P.CONTINUATION + "\n") == "";
      assert P.TrimAll([""]) == [""];
      assert P.Process("") == [];
    } else {
      var lines := PrintRows(rows);
      forall i | 0 <= i < |lines|
        ensures '\n' !in lines[i] && lines[i] != "" && T.Tokens(lines[i]) == rows[i]
        ensures !P.IsEdge(lines[i][0]) && !P.IsEdge(lines[i][|lines[i]| - 1])
        ensures !P.EndsWith(lines[i], P.CONTINUATION) && !P.EndsWith(lines[i], P.CR_CONTINUATION)
      {
        RowIsOnePlainLine(rows[i]);
        RowIsWellFormed(rows[i]);
        T.TokensAreWords(RowItems(rows[i]), T.End);
        P.LastDiffers(lines[i], P.CONTINUATION);
        P.LastDiffers(lines[i], P.CR_CONTINUATION);
      }
      P.ProcessKeepsPlainLines(lines);
    }
  }

  /** Any rows of one or more newline-free tokens, printed single-quoted, are read back:
      no character needs excluding, and empty tokens survive. */
  lemma PrintThenRead(rows: seq<seq<string>>)
    requires ArePrintable(rows)
    ensures ReadFile(PrintFile(rows)) == rows
  {
    PrintedLines(rows);
  }
}
