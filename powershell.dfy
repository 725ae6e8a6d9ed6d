/**
  The PowerShell literal of a value: one piece per line-break part, joined by
  ` + ` into a single string expression. A line break becomes a double-quoted
  backtick escape; a run of text becomes a single-quoted string in which every
  quote character is doubled. PowerShell treats the typographic quotes U+2018,
  U+2019, U+201A and U+201B like the ASCII apostrophe inside a single-quoted
  string, so the builder as written, which doubles only the apostrophe, emits
  an unterminated string for text holding one of them. The exporter uses the
  builder as written; the corrected builder, which doubles every single-quote
  character, is proved to read back for every text and to agree with the
  builder as written on text without typographic single quotes.
 */
module PowershellQuoting {
  import opened Wrappers
  import opened Text
  import opened Newlines

  /** The characters PowerShell reads as a single quote. */
  predicate IsSingleQuote(c: char) {
    c == '\'' || c == '\U{2018}' || c == '\U{2019}' || c == '\U{201A}' || c == '\U{201B}'
  }

  /** The characters PowerShell reads as a double quote. */
  predicate IsDoubleQuote(c: char) {
    c == '"' || c == '\U{201C}' || c == '\U{201D}' || c == '\U{201E}'
  }

  /** The pieces of the three line-break parts. */
  const LfPiece: string := "\"`n\""
  const CrPiece: string := "\"`r\""
  const CrLfPiece: string := "\"`r`n\""

  /** The separator of the pieces. */
  const Plus: string := " + "

  // ------------------------------------------------------ the builder as written

  /** escapeForPS and the text branch of buildPowershellLiteral as written:
      only the ASCII apostrophe is doubled. */
  function QuoteAsWritten(s: string): string {
    if s == "" then "''" else "'" + ReplaceAll(s, '\'', "''") + "'"
  }

  function PieceAsWritten(p: string): string {
    if p == "\n" then LfPiece
    else if p == "\r" then CrPiece
    else if p == "\r\n" then CrLfPiece
    else QuoteAsWritten(p)
  }

  function PiecesAsWritten(ps: seq<string>): (r: seq<string>)
    ensures |r| == |ps|
  {
    if ps == [] then [] else [PieceAsWritten(ps[0])] + PiecesAsWritten(ps[1..])
  }

  /** buildPowershellLiteral as written. */
  function PowershellLiteralAsWritten(s: string): string {
    if s == "" then "''" else Join(PiecesAsWritten(NewlineParts(s)), Plus)
  }

  // --------------------------------------------------------- the corrected builder

  /** Every quote character doubled, as PowerShell reads a pair of quote
      characters inside a single-quoted string as the second one. */
  function DoubleQuotes(s: string): (r: string)
    ensures |r| >= |s|
  {
    if s == [] then []
    else (if IsSingleQuote(s[0]) then [s[0], s[0]] else [s[0]]) + DoubleQuotes(s[1..])
  }

  /** A single-quoted PowerShell string holding `s`. */
  function Quote(s: string): (r: string)
    ensures |r| >= 2 && r[0] == '\''
  {
    if s == "" then "''" else "'" + DoubleQuotes(s) + "'"
  }

  /** The piece of one part. */
  function Piece(p: string): string {
    if p == "\n" then LfPiece
    else if p == "\r" then CrPiece
    else if p == "\r\n" then CrLfPiece
    else Quote(p)
  }

  function Pieces(ps: seq<string>): (r: seq<string>)
    ensures |r| == |ps|
  {
    if ps == [] then [] else [Piece(ps[0])] + Pieces(ps[1..])
  }

  /** buildPowershellLiteral, corrected. */
  function PowershellLiteral(s: string): string {
    if s == "" then "''" else Join(Pieces(NewlineParts(s)), Plus)
  }

  lemma PiecesAsWrittenAppend(ps: seq<string>, p: string)
    ensures PiecesAsWritten(ps + [p]) == PiecesAsWritten(ps) + [PieceAsWritten(p)]
  {
    if ps != [] {
      assert (ps + [p])[1..] == ps[1..] + [p];
      PiecesAsWrittenAppend(ps[1..], p);
    }
  }

  /** The builder loop as written: one piece per part, then the join. */
  method BuildPowershellLiteral(s: string) returns (lit: string)
    ensures lit == PowershellLiteralAsWritten(s)
  {
    if s == "" {
      return "''";
    }
    var parts := SplitPreserveNewlines(s);
    var out: seq<string> := [];
    for i := 0 to |parts|
      invariant out == PiecesAsWritten(parts[..i])
    {
      var p := parts[i];
      PiecesAsWrittenAppend(parts[..i], p);
      assert parts[..i + 1] == parts[..i] + [p];
      if p == "\n" {
        out := out + [LfPiece];
      } else if p == "\r" {
        out := out + [CrPiece];
      } else if p == "\r\n" {
        out := out + [CrLfPiece];
      } else if p == "" {
        out := out + ["''"];
      } else {
        out := out + ["'" + ReplaceAll(p, '\'', "''") + "'"];
      }
    }
    assert parts[..|parts|] == parts;
    lit := Join(out, Plus);
  }

  // ------------------------------------------------------- the reader

  /** The character a backtick escape inside a double-quoted string stands
      for; a backtick before any other character keeps that character. */
  function BacktickEscape(c: char): char {
    if c == '0' then '\0'
    else if c == 'a' then '\U{7}'
    else if c == 'b' then '\U{8}'
    else if c == 'e' then '\U{1B}'
    else if c == 'f' then '\U{C}'
    else if c == 'n' then '\n'
    else if c == 'r' then '\r'
    else if c == 't' then '\t'
    else if c == 'v' then '\U{B}'
    else c
  }

  /** The body of a single-quoted string after its opening quote, and the text
      after its closing quote. A pair of quote characters stands for the
      second one; an unclosed string gives None. */
  function SingleQuotedBody(t: string): (r: Option<(string, string)>)
    ensures r.Some? ==> |r.value.1| < |t|
  {
    if t == [] then None
    else if IsSingleQuote(t[0]) then
      if |t| > 1 && IsSingleQuote(t[1]) then
        match SingleQuotedBody(t[2..])
        case None => None
        case Some((body, rest)) => Some(([t[1]] + body, rest))
      else Some(([], t[1..]))
    else
      match SingleQuotedBody(t[1..])
      case None => None
      case Some((body, rest)) => Some(([t[0]] + body, rest))
  }

  /** The body of a double-quoted string after its opening quote. Backtick
      escapes are read; a pair of double-quote characters stands for the
      second one. Variable expansion (`$`) and the `` `u{…} `` escape are not
      interpreted and give None, as does an unclosed string. */
  function DoubleQuotedBody(t: string): (r: Option<(string, string)>)
    ensures r.Some? ==> |r.value.1| < |t|
  {
    if t == [] then None
    else if IsDoubleQuote(t[0]) then
      if |t| > 1 && IsDoubleQuote(t[1]) then
        match DoubleQuotedBody(t[2..])
        case None => None
        case Some((body, rest)) => Some(([t[1]] + body, rest))
      else Some(([], t[1..]))
    else if t[0] == '`' then
      if |t| < 2 || t[1] == 'u' then None
      else
        match DoubleQuotedBody(t[2..])
        case None => None
        case Some((body, rest)) => Some(([BacktickEscape(t[1])] + body, rest))
    else if t[0] == '$' then None
    else
      match DoubleQuotedBody(t[1..])
      case None => None
      case Some((body, rest)) => Some(([t[0]] + body, rest))
  }

  /** One string literal and the text after it. */
  function StringTerm(t: string): (r: Option<(string, string)>)
    ensures r.Some? ==> |r.value.1| < |t|
  {
    if t == [] then None
    else if IsSingleQuote(t[0]) then SingleQuotedBody(t[1..])
    else if IsDoubleQuote(t[0]) then DoubleQuotedBody(t[1..])
    else None
  }

  /** The value of string literals joined by ` + `. */
  function StringSum(t: string): Option<string>
    decreases |t|
  {
    match StringTerm(t)
    case None => None
    case Some((v, rest)) =>
      if rest == [] then Some(v)
      else if Plus <= rest then
        match StringSum(rest[|Plus|..])
        case None => None
        case Some(w) => Some(v + w)
      else None
  }

  // ------------------------------------------------------- round trip

  /** What may follow a literal: nothing, or text that does not start with a
      quote character (which would pair with the closing quote). */
  predicate Follows(rest: string) {
    rest == [] || (!IsSingleQuote(rest[0]) && !IsDoubleQuote(rest[0]))
  }

  // Single steps of the two string readers.

  lemma SingleQuotedClose(rest: string)
    requires Follows(rest)
    ensures SingleQuotedBody("'" + rest) == Some(([], rest))
  {
    var t := "'" + rest;
    assert t[1..] == rest;
    assert |t| > 1 ==> t[1] == rest[0];
  }

  lemma SingleQuotedPair(c: char, u: string, body: string, rest: string)
    requires IsSingleQuote(c) && SingleQuotedBody(u) == Some((body, rest))
    ensures SingleQuotedBody([c, c] + u) == Some(([c] + body, rest))
  {
    var t := [c, c] + u;
    assert t[0] == c && t[1] == c && t[2..] == u;
  }

  lemma SingleQuotedChar(c: char, u: string, body: string, rest: string)
    requires !IsSingleQuote(c) && SingleQuotedBody(u) == Some((body, rest))
    ensures SingleQuotedBody([c] + u) == Some(([c] + body, rest))
  {
    var t := [c] + u;
    assert t[0] == c && t[1..] == u;
  }

  lemma DoubleQuotedClose(rest: string)
    requires Follows(rest)
    ensures DoubleQuotedBody("\"" + rest) == Some(([], rest))
  {
    var t := "\"" + rest;
    assert t[1..] == rest;
    assert |t| > 1 ==> t[1] == rest[0];
  }

  lemma DoubleQuotedEscape(c: char, u: string, body: string, rest: string)
    requires c != 'u' && DoubleQuotedBody(u) == Some((body, rest))
    ensures DoubleQuotedBody(['`', c] + u) == Some(([BacktickEscape(c)] + body, rest))
  {
    var t := ['`', c] + u;
    assert t[0] == '`' && t[1] == c && t[2..] == u;
  }

  /** The doubled text, one character at a time. */
  lemma DoubleQuotesCons(p: string, rest: string)
    requires p != []
    ensures IsSingleQuote(p[0]) ==>
              DoubleQuotes(p) + "'" + rest == [p[0], p[0]] + (DoubleQuotes(p[1..]) + "'" + rest)
    ensures !IsSingleQuote(p[0]) ==>
              DoubleQuotes(p) + "'" + rest == [p[0]] + (DoubleQuotes(p[1..]) + "'" + rest)
  {
    var h := if IsSingleQuote(p[0]) then [p[0], p[0]] else [p[0]];
    assert DoubleQuotes(p) == h + DoubleQuotes(p[1..]);
    ConcatAssoc(h, DoubleQuotes(p[1..]), "'");
    ConcatAssoc(h, DoubleQuotes(p[1..]) + "'", rest);
  }

  lemma {:induction false} SingleQuotedBodyOf(p: string, rest: string)
    requires Follows(rest)
    ensures SingleQuotedBody(DoubleQuotes(p) + "'" + rest) == Some((p, rest))
    decreases |p|
  {
    if p == [] {
      assert DoubleQuotes(p) + "'" + rest == "'" + rest;
      SingleQuotedClose(rest);
    } else {
      SingleQuotedBodyOf(p[1..], rest);
      SingleQuotedBodyStep(p, rest);
    }
  }

  /** One character more of the doubled text. */
  lemma SingleQuotedBodyStep(p: string, rest: string)
    requires p != []
    requires SingleQuotedBody(DoubleQuotes(p[1..]) + "'" + rest) == Some((p[1..], rest))
    ensures SingleQuotedBody(DoubleQuotes(p) + "'" + rest) == Some((p, rest))
  {
    var u := DoubleQuotes(p[1..]) + "'" + rest;
    DoubleQuotesCons(p, rest);
    assert [p[0]] + p[1..] == p;
    if IsSingleQuote(p[0]) {
      SingleQuotedPair(p[0], u, p[1..], rest);
    } else {
      SingleQuotedChar(p[0], u, p[1..], rest);
    }
  }

  lemma QuoteTerm(p: string, rest: string)
    requires Follows(rest)
    ensures StringTerm(Quote(p) + rest) == Some((p, rest))
  {
    var u := DoubleQuotes(p) + "'" + rest;
    SingleQuotedBodyOf(p, rest);
    assert ("'" + u)[1..] == u;
    assert ("'" + u)[0] == '\'';
    assert Quote(p) + rest == "'" + u;
  }

  lemma DoubleQuotedTerm(u: string, body: string, rest: string)
    requires DoubleQuotedBody(u) == Some((body, rest))
    ensures StringTerm("\"" + u) == Some((body, rest))
  {
    assert ("\"" + u)[1..] == u;
  }

  lemma LfTerm(rest: string)
    requires Follows(rest)
    ensures StringTerm(LfPiece + rest) == Some(("\n", rest))
  {
    DoubleQuotedClose(rest);
    DoubleQuotedEscape('n', "\"" + rest, [], rest);
    assert [BacktickEscape('n')] + [] == "\n";
    DoubleQuotedTerm(['`', 'n'] + ("\"" + rest), "\n", rest);
    assert LfPiece == "\"" + ['`', 'n'] + "\"";
    assert LfPiece + rest == "\"" + (['`', 'n'] + ("\"" + rest));
  }

  lemma CrTerm(rest: string)
    requires Follows(rest)
    ensures StringTerm(CrPiece + rest) == Some(("\r", rest))
  {
    DoubleQuotedClose(rest);
    DoubleQuotedEscape('r', "\"" + rest, [], rest);
    assert [BacktickEscape('r')] + [] == "\r";
    DoubleQuotedTerm(['`', 'r'] + ("\"" + rest), "\r", rest);
    assert CrPiece == "\"" + ['`', 'r'] + "\"";
    assert CrPiece + rest == "\"" + (['`', 'r'] + ("\"" + rest));
  }

  lemma CrLfTerm(rest: string)
    requires Follows(rest)
    ensures StringTerm(CrLfPiece + rest) == Some(("\r\n", rest))
  {
    DoubleQuotedClose(rest);
    var u := ['`', 'n'] + ("\"" + rest);
    DoubleQuotedEscape('n', "\"" + rest, [], rest);
    assert [BacktickEscape('n')] + [] == "\n";
    DoubleQuotedEscape('r', u, "\n", rest);
    assert [BacktickEscape('r')] + "\n" == "\r\n";
    DoubleQuotedTerm(['`', 'r'] + u, "\r\n", rest);
    assert CrLfPiece == "\"" + ['`', 'r'] + ['`', 'n'] + "\"";
    assert CrLfPiece + rest == "\"" + (['`', 'r'] + u);
  }

  /** Every piece is read back as its part, whatever the part. */
  lemma PieceTerm(p: string, rest: string)
    requires Follows(rest)
    ensures StringTerm(Piece(p) + rest) == Some((p, rest))
  {
    if p == "\n" {
      LfTerm(rest);
    } else if p == "\r" {
      CrTerm(rest);
    } else if p == "\r\n" {
      CrLfTerm(rest);
    } else {
      QuoteTerm(p, rest);
    }
  }

  lemma SumLast(t: string, v: string)
    requires StringTerm(t) == Some((v, []))
    ensures StringSum(t) == Some(v)
  {
  }

  lemma SumStep(t: string, v: string, tail: string, w: string)
    requires StringTerm(t) == Some((v, Plus + tail)) && StringSum(tail) == Some(w)
    ensures StringSum(t) == Some(v + w)
  {
    var rest := Plus + tail;
    assert Plus <= rest && rest != [];
    assert rest[|Plus|..] == tail;
  }

  lemma SumOne(p: string)
    ensures StringSum(Join(Pieces([p]), Plus)) == Some(Concat([p]))
  {
    assert [p][1..] == [];
    assert Pieces([p]) == [Piece(p)];
    assert Join(Pieces([p]), Plus) == Piece(p) + [];
    PieceTerm(p, []);
    SumLast(Piece(p) + [], p);
    assert Concat([p]) == p + Concat([]);
    assert p + [] == p;
  }

  /** The joined pieces of a longer list: its first piece, the separator and
      the joined rest. */
  lemma JoinPiecesCons(ps: seq<string>)
    requires |ps| > 1
    ensures Join(Pieces(ps), Plus) == Piece(ps[0]) + (Plus + Join(Pieces(ps[1..]), Plus))
  {
    var head := Piece(ps[0]);
    var tail := Pieces(ps[1..]);
    assert Pieces(ps) == [head] + tail;
    assert tail != [];
    JoinCons(head, tail, Plus);
    ConcatAssoc(head, Plus, Join(tail, Plus));
  }

  /** The sum of the pieces of a non-empty list of parts is their
      concatenation. */
  lemma {:induction false} SumOfPieces(ps: seq<string>)
    requires ps != []
    ensures StringSum(Join(Pieces(ps), Plus)) == Some(Concat(ps))
    decreases |ps|
  {
    if |ps| == 1 {
      SumOne(ps[0]);
      assert ps == [ps[0]];
    } else {
      var tail := Join(Pieces(ps[1..]), Plus);
      JoinPiecesCons(ps);
      assert Concat(ps) == ps[0] + Concat(ps[1..]);
      SumOfPieces(ps[1..]);
      PieceTerm(ps[0], Plus + tail);
      SumStep(Piece(ps[0]) + (Plus + tail), ps[0], tail, Concat(ps[1..]));
    }
  }

  /** Evaluating the literal as a PowerShell expression gives the value. */
  lemma PowershellLiteralRoundTrip(s: string)
    ensures StringSum(PowershellLiteral(s)) == Some(s)
  {
    if s == "" {
      QuoteTerm("", []);
      assert Quote("") + [] == "''";
    } else {
      PartsHead(s);
      PartsConcat(s);
      SumOfPieces(Parts(s));
    }
  }

  /** A value with no typographic single quote gets the same literal from both
      builders. */
  lemma {:induction false} DoubleQuotesAscii(s: string)
    requires forall k :: 0 <= k < |s| ==> IsSingleQuote(s[k]) ==> s[k] == '\''
    ensures DoubleQuotes(s) == ReplaceAll(s, '\'', "''")
    decreases |s|
  {
    if s != [] {
      assert forall k :: 0 <= k < |s[1..]| ==> s[1..][k] == s[k + 1];
      DoubleQuotesAscii(s[1..]);
    }
  }

  lemma {:induction false} PiecesAscii(ps: seq<string>)
    requires forall k, j :: 0 <= k < |ps| && 0 <= j < |ps[k]| ==> IsSingleQuote(ps[k][j]) ==> ps[k][j] == '\''
    ensures Pieces(ps) == PiecesAsWritten(ps)
    decreases |ps|
  {
    if ps != [] {
      assert forall k :: 0 <= k < |ps[1..]| ==> ps[1..][k] == ps[k + 1];
      PiecesAscii(ps[1..]);
      if ps[0] != "" {
        DoubleQuotesAscii(ps[0]);
      }
    }
  }

  /** The text holds no typographic single quote. */
  predicate PlainQuotes(s: string) {
    forall k :: 0 <= k < |s| ==> IsSingleQuote(s[k]) ==> s[k] == '\''
  }

  /** Every character of a part is a character of the concatenation. */
  lemma {:induction false} ConcatChars(ps: seq<string>)
    ensures forall k, j :: 0 <= k < |ps| && 0 <= j < |ps[k]| ==> ps[k][j] in Concat(ps)
    decreases |ps|
  {
    if ps != [] {
      ConcatChars(ps[1..]);
      assert Concat(ps) == ps[0] + Concat(ps[1..]);
      forall k, j | 0 <= k < |ps| && 0 <= j < |ps[k]|
        ensures ps[k][j] in Concat(ps)
      {
        if k == 0 {
          assert Concat(ps)[j] == ps[0][j];
        } else {
          assert ps[k] == ps[1..][k - 1];
          assert ps[k][j] in Concat(ps[1..]);
        }
      }
    }
  }

  /** A value without typographic single quotes gets the same quoted text from
      escapeForPS as written and from the corrected quoting. */
  lemma QuoteAgrees(s: string)
    requires PlainQuotes(s)
    ensures QuoteAsWritten(s) == Quote(s)
  {
    DoubleQuotesAscii(s);
  }

  /** A value without typographic single quotes gets the same literal from the
      builder as written and from the corrected builder. */
  lemma LiteralAgrees(s: string)
    requires PlainQuotes(s)
    ensures PowershellLiteralAsWritten(s) == PowershellLiteral(s)
  {
    if s != "" {
      var ps := Parts(s);
      PartsConcat(s);
      ConcatChars(ps);
      PiecesAscii(ps);
    }
  }

  /** Evaluating the literal as written gives the value back, when the value
      holds no typographic single quote (SmartQuoteAsWritten shows the other
      case). */
  lemma PowershellLiteralAsWrittenRoundTrip(s: string)
    requires PlainQuotes(s)
    ensures StringSum(PowershellLiteralAsWritten(s)) == Some(s)
  {
    LiteralAgrees(s);
    PowershellLiteralRoundTrip(s);
  }

  lemma SingleText(s: string)
    requires |s| == 1 && !IsNewline(s[0])
    ensures NewlineParts(s) == [s]
  {
    assert s[1..] == [];
    assert TextRun(s) == 1;
    assert s[..1] == s;
    assert Parts(s[1..]) == [];
    assert Parts(s) == [s[..1]] + Parts(s[1..]);
  }

  /** The text `’` (U+2019): the builder as written leaves the quote single,
      so the literal ends inside an unclosed string and does not read back. */
  lemma SmartQuoteAsWritten()
    ensures PowershellLiteralAsWritten("\U{2019}") == "'\U{2019}'"
    ensures StringSum(PowershellLiteralAsWritten("\U{2019}")) == None
  {
    var s := "\U{2019}";
    SingleText(s);
    assert PiecesAsWritten([s]) == [QuoteAsWritten(s)];
    assert ReplaceAll(s, '\'', "''") == s;
    var lit := "'\U{2019}'";
    assert lit[1..] == "\U{2019}'";
    assert lit[1..][2..] == [];
  }

  /** The corrected builder reads back the same text. */
  lemma SmartQuoteCorrected()
    ensures PowershellLiteral("\U{2019}") == "'\U{2019}\U{2019}'"
    ensures StringSum(PowershellLiteral("\U{2019}")) == Some("\U{2019}")
  {
    var s := "\U{2019}";
    SingleText(s);
    assert DoubleQuotes(s) == "\U{2019}\U{2019}";
    PowershellLiteralRoundTrip(s);
  }
}
