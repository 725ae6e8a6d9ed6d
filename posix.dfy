/**
  The POSIX shell literal of a value and a reader for the quoting it uses.
  The literal wraps the value in single quotes; a single quote inside the
  value closes the quoted span, is written as a backslash-escaped quote, and
  opens a new span. The reader follows the quoting rules of sections 2.2.1
  (Escape Character) and 2.2.2 (Single-Quotes) of the Shell Command Language
  of IEEE Std 1003.1-2017.
 */
module PosixQuoting {
  import opened Wrappers
  import opened Text

  /** The replacement of one single quote: close, escaped quote, reopen. */
  const QuoteEscape: string := "'\\''"

  /** buildShellLiteral. */
  function ShellLiteral(s: string): (r: string)
    ensures |r| >= 2 && r[0] == '\'' && r[|r| - 1] == '\''
  {
    if s == "" then "''"
    else if '\'' !in s then "'" + s + "'"
    else "'" + ReplaceAll(s, '\'', QuoteEscape) + "'"
  }

  // ------------------------------------------------------------ the reader

  /** The body of a single-quoted span up to its closing quote, and what
      follows that quote; None when the quote is never closed. Inside the
      span every character stands for itself. */
  function SingleQuoted(t: string): (r: Option<(string, string)>)
    ensures r.Some? ==> |r.value.1| < |t|
  {
    if t == [] then None
    else if t[0] == '\'' then Some(([], t[1..]))
    else
      match SingleQuoted(t[1..])
      case None => None
      case Some((body, rest)) => Some(([t[0]] + body, rest))
  }

  /** The value of one shell word made of single-quoted spans and
      backslash escapes. A backslash keeps the next character literally and a
      backslash before a newline is a line continuation that disappears. A
      trailing backslash, an unclosed quote and any other unquoted character
      (which this reader does not interpret) give None. */
  function PosixWord(t: string): Option<string>
    decreases |t|
  {
    if t == [] then Some([])
    else if t[0] == '\'' then
      match SingleQuoted(t[1..])
      case None => None
      case Some((body, rest)) =>
        match PosixWord(rest)
        case None => None
        case Some(w) => Some(body + w)
    else if t[0] == '\\' then
      if |t| < 2 then None
      else if t[1] == '\n' then PosixWord(t[2..])
      else
        match PosixWord(t[2..])
        case None => None
        case Some(w) => Some([t[1]] + w)
    else None
  }

  // ----------------------------------------------------------- round trip

  /** Text without a quote, then a closing quote, is read as a span. */
  lemma {:induction false} SingleQuotedPlain(a: string, rest: string)
    requires '\'' !in a
    ensures SingleQuoted(a + "'" + rest) == Some((a, rest))
    decreases |a|
  {
    var t := a + "'" + rest;
    if a == [] {
      assert t == "'" + rest;
    } else {
      assert t[0] == a[0] && a[0] != '\'';
      assert t[1..] == a[1..] + "'" + rest;
      SingleQuotedPlain(a[1..], rest);
      assert [a[0]] + a[1..] == a;
    }
  }

  /** A quoted span of quote-free text, then a word. */
  lemma OpenSpan(a: string, x: string, v: string)
    requires '\'' !in a && PosixWord(x) == Some(v)
    ensures PosixWord("'" + a + "'" + x) == Some(a + v)
  {
    var t := "'" + a + "'" + x;
    assert t[1..] == a + "'" + x;
    SingleQuotedPlain(a, x);
  }

  /** A backslash-escaped quote, then a word. */
  lemma EscapedQuote(u: string, v: string)
    requires PosixWord(u) == Some(v)
    ensures PosixWord("\\'" + u) == Some("'" + v)
  {
    var t := "\\'" + u;
    assert t[0] == '\\' && t[1] == '\'' && t[2..] == u;
  }

  /** The escaped text after an opened quote, with the quote-free text `a`
      already read: the reader gives `a`, then `s`, then the value of what
      follows the closing quote. */
  lemma {:induction false} EscapedSpan(a: string, s: string, rest: string, w: string)
    requires '\'' !in a && PosixWord(rest) == Some(w)
    ensures PosixWord("'" + a + ReplaceAll(s, '\'', QuoteEscape) + "'" + rest) == Some(a + s + w)
    decreases |s|
  {
    var e := ReplaceAll(s, '\'', QuoteEscape);
    if s == [] {
      assert e == [];
      assert "'" + a + e + "'" + rest == "'" + a + "'" + rest;
      OpenSpan(a, rest, w);
      assert a + s + w == a + w;
    } else if s[0] != '\'' {
      var e1 := ReplaceAll(s[1..], '\'', QuoteEscape);
      assert e == [s[0]] + e1;
      PlainStep(a, s[0], e1, rest);
      EscapedSpan(a + [s[0]], s[1..], rest, w);
      ConsValue(a, s, w);
    } else {
      var e1 := ReplaceAll(s[1..], '\'', QuoteEscape);
      var u := "'" + e1 + "'" + rest;
      assert e == QuoteEscape + e1;
      EscapedSpan([], s[1..], rest, w);
      assert "'" + [] + e1 + "'" + rest == u;
      EscapedQuote(u, [] + s[1..] + w);
      OpenSpan(a, "\\'" + u, "'" + ([] + s[1..] + w));
      QuoteStep(a, e1, rest);
      QuoteValue(a, s, w);
    }
  }

  // The regroupings of the text and of the value that EscapedSpan needs.

  lemma PlainStep(a: string, c: char, e1: string, rest: string)
    ensures "'" + a + ([c] + e1) + "'" + rest == "'" + (a + [c]) + e1 + "'" + rest
  {
  }

  lemma ConsValue(a: string, s: string, w: string)
    requires s != []
    ensures (a + [s[0]]) + s[1..] + w == a + s + w
  {
    assert [s[0]] + s[1..] == s;
  }

  lemma QuoteStep(a: string, e1: string, rest: string)
    ensures "'" + a + (QuoteEscape + e1) + "'" + rest == "'" + a + "'" + ("\\'" + ("'" + e1 + "'" + rest))
  {
    assert QuoteEscape == "'" + "\\'" + "'";
  }

  lemma QuoteValue(a: string, s: string, w: string)
    requires s != [] && s[0] == '\''
    ensures a + ("'" + ([] + s[1..] + w)) == a + s + w
  {
    assert "'" + s[1..] == s;
  }

  /** All three branches of the builder give the escaped text in quotes. */
  lemma ShellLiteralQuoted(s: string)
    ensures ShellLiteral(s) == "'" + ReplaceAll(s, '\'', QuoteEscape) + "'"
  {
    if s == "" {
      assert ReplaceAll(s, '\'', QuoteEscape) == "";
    }
  }

  /** Reading the literal under POSIX quoting gives the value back. */
  lemma ShellLiteralRoundTrip(s: string)
    ensures PosixWord(ShellLiteral(s)) == Some(s)
  {
    var e := ReplaceAll(s, '\'', QuoteEscape);
    assert PosixWord([]) == Some([]);
    EscapedSpan([], s, [], []);
    assert "'" + [] + e + "'" + [] == "'" + e + "'";
    assert [] + s + [] == s;
    ShellLiteralQuoted(s);
  }
}
