/**
  The cmd literal of a value: one double-quoted piece per line-break part,
  concatenated with no separator. A text piece escapes each double quote as
  `\"`; a line-break piece holds the two-backslash text `\\n`, `\\r` or
  `\\r\\n` in place of the break. A value holding that text itself gets the
  same literal as the line break, so the literal only reads back for values
  without a backslash.
 */
module CmdQuoting {
  import opened Wrappers
  import opened Text
  import opened Newlines

  /** The pieces of the three line-break parts: a quote, the escape text with
      two backslashes per break, a quote. */
  const LfPiece: string := "\"\\\\n\""
  const CrPiece: string := "\"\\\\r\""
  const CrLfPiece: string := "\"\\\\r\\\\n\""

  /** The escape of a double quote inside a text piece. */
  const QuoteEscape: string := "\\\""

  /** The piece of one part. */
  function Piece(p: string): (r: string)
    ensures |r| >= 2 && r[0] == '"' && r[|r| - 1] == '"'
  {
    if p == "\n" then LfPiece
    else if p == "\r" then CrPiece
    else if p == "\r\n" then CrLfPiece
    else
      var escaped := ReplaceAll(p, '"', QuoteEscape);
      if escaped == "" then "\"\"" else "\"" + escaped + "\""
  }

  function Pieces(ps: seq<string>): (r: seq<string>)
    ensures |r| == |ps|
  {
    if ps == [] then [] else [Piece(ps[0])] + Pieces(ps[1..])
  }

  /** buildCmdLiteral: the pieces joined with the empty separator. */
  function CmdLiteral(s: string): string {
    Join(Pieces(NewlineParts(s)), "")
  }

  lemma PiecesAppend(ps: seq<string>, p: string)
    ensures Pieces(ps + [p]) == Pieces(ps) + [Piece(p)]
  {
    if ps != [] {
      assert (ps + [p])[1..] == ps[1..] + [p];
      PiecesAppend(ps[1..], p);
    }
  }

  /** The builder loop: one piece per part, then the join. */
  method BuildCmdLiteral(s: string) returns (lit: string)
    ensures lit == CmdLiteral(s)
  {
    var parts := SplitPreserveNewlines(s);
    var out: seq<string> := [];
    for i := 0 to |parts|
      invariant out == Pieces(parts[..i])
    {
      var p := parts[i];
      PiecesAppend(parts[..i], p);
      assert parts[..i + 1] == parts[..i] + [p];
      if p == "\n" {
        out := out + [LfPiece];
      } else if p == "\r" {
        out := out + [CrPiece];
      } else if p == "\r\n" {
        out := out + [CrLfPiece];
      } else {
        var escaped := ReplaceAll(p, '"', QuoteEscape);
        if escaped == "" {
          out := out + ["\"\""];
        } else {
          out := out + ["\"" + escaped + "\""];
        }
      }
    }
    assert parts[..|parts|] == parts;
    lit := Join(out, "");
  }

  /** The empty value gives an empty quoted piece. */
  lemma CmdLiteralEmpty()
    ensures CmdLiteral("") == "\"\""
  {
    assert NewlineParts("") == [""];
    assert Pieces([""]) == ["\"\""];
  }

  /** A line feed and the three characters `\\n` get the same literal. */
  lemma CmdLiteralNotInjective()
    ensures "\n" != "\\\\n"
    ensures CmdLiteral("\n") == CmdLiteral("\\\\n")
  {
    var t := "\\\\n";
    assert Parts("\n") == ["\n"] + Parts([]);
    assert TextRun(t) == 3 by {
      assert t[1..][1..][1..] == [];
    }
    assert t[..3] == t && t[3..] == [];
    assert Parts(t) == [t];
    assert ReplaceAll(t, '"', QuoteEscape) == t;
  }

  // ------------------------------------------------------- the reader

  /** The body of a quoted piece after its opening quote, read with the
      escapes the builder writes: `\"` for a quote and `\\n`, `\\r` for a
      line break. It gives the body and the text after the closing quote. */
  function PieceBody(t: string): (r: Option<(string, string)>)
    ensures r.Some? ==> |r.value.1| < |t|
  {
    if t == [] then None
    else if t[0] == '"' then Some(([], t[1..]))
    else if t[0] == '\\' && |t| > 1 && t[1] == '"' then
      match PieceBody(t[2..])
      case None => None
      case Some((body, rest)) => Some(("\"" + body, rest))
    else if t[0] == '\\' && |t| > 2 && t[1] == '\\' && (t[2] == 'n' || t[2] == 'r') then
      match PieceBody(t[3..])
      case None => None
      case Some((body, rest)) => Some(([if t[2] == 'n' then '\n' else '\r'] + body, rest))
    else
      match PieceBody(t[1..])
      case None => None
      case Some((body, rest)) => Some(([t[0]] + body, rest))
  }

  /** The value of a sequence of quoted pieces. */
  function Unquote(t: string): Option<string>
    decreases |t|
  {
    if t == [] then Some([])
    else if t[0] != '"' then None
    else
      match PieceBody(t[1..])
      case None => None
      case Some((body, rest)) =>
        match Unquote(rest)
        case None => None
        case Some(w) => Some(body + w)
  }

  // ------------------------------------------- reading back a literal

  lemma BodyClose(rest: string)
    ensures PieceBody("\"" + rest) == Some(([], rest))
  {
    assert ("\"" + rest)[1..] == rest;
  }

  lemma BodyChar(c: char, u: string, body: string, rest: string)
    requires c != '"' && c != '\\' && PieceBody(u) == Some((body, rest))
    ensures PieceBody([c] + u) == Some(([c] + body, rest))
  {
    assert ([c] + u)[1..] == u;
  }

  lemma BodyQuote(u: string, body: string, rest: string)
    requires PieceBody(u) == Some((body, rest))
    ensures PieceBody(QuoteEscape + u) == Some(("\"" + body, rest))
  {
    var t := QuoteEscape + u;
    assert t[0] == '\\' && t[1] == '"' && t[2..] == u;
  }

  lemma BodyBreak(c: char, u: string, body: string, rest: string)
    requires (c == 'n' || c == 'r') && PieceBody(u) == Some((body, rest))
    ensures PieceBody(['\\', '\\', c] + u) == Some(([if c == 'n' then '\n' else '\r'] + body, rest))
  {
    var t := ['\\', '\\', c] + u;
    assert t[0] == '\\' && t[1] == '\\' && t[2] == c && t[3..] == u;
  }

  /** The escaped text of a backslash-free part is read back up to the
      closing quote. */
  lemma {:induction false} EscapedBody(p: string, rest: string)
    requires '\\' !in p
    ensures PieceBody(ReplaceAll(p, '"', QuoteEscape) + "\"" + rest) == Some((p, rest))
    decreases |p|
  {
    if p == [] {
      assert ReplaceAll(p, '"', QuoteEscape) + "\"" + rest == "\"" + rest;
      BodyClose(rest);
    } else {
      var u := ReplaceAll(p[1..], '"', QuoteEscape) + "\"" + rest;
      EscapedBody(p[1..], rest);
      EscapedCons(p, rest);
      assert [p[0]] + p[1..] == p;
      if p[0] == '"' {
        BodyQuote(u, p[1..], rest);
      } else {
        BodyChar(p[0], u, p[1..], rest);
      }
    }
  }

  lemma EscapedCons(p: string, rest: string)
    requires p != []
    ensures p[0] == '"' ==>
              ReplaceAll(p, '"', QuoteEscape) + "\"" + rest
              == QuoteEscape + (ReplaceAll(p[1..], '"', QuoteEscape) + "\"" + rest)
    ensures p[0] != '"' ==>
              ReplaceAll(p, '"', QuoteEscape) + "\"" + rest
              == [p[0]] + (ReplaceAll(p[1..], '"', QuoteEscape) + "\"" + rest)
  {
    var e1 := ReplaceAll(p[1..], '"', QuoteEscape);
    var head := if p[0] == '"' then QuoteEscape else [p[0]];
    assert ReplaceAll(p, '"', QuoteEscape) == head + e1;
    ConcatAssoc(head, e1, "\"");
    ConcatAssoc(head, e1 + "\"", rest);
  }

  /** Each piece opens with a quote and reads back as its part. */
  lemma BreakOpen(c: char, rest: string) returns (u: string)
    requires c == 'n' || c == 'r'
    ensures ['"', '\\', '\\', c, '"'] + rest == "\"" + u
    ensures PieceBody(u) == Some(([if c == 'n' then '\n' else '\r'], rest))
  {
    u := ['\\', '\\', c] + ("\"" + rest);
    BodyClose(rest);
    BodyBreak(c, "\"" + rest, [], rest);
    assert [if c == 'n' then '\n' else '\r'] + [] == [if c == 'n' then '\n' else '\r'];
  }

  lemma CrLfOpen(rest: string) returns (u: string)
    ensures CrLfPiece + rest == "\"" + u
    ensures PieceBody(u) == Some(("\r\n", rest))
  {
    var v := ['\\', '\\', 'n'] + ("\"" + rest);
    u := ['\\', '\\', 'r'] + v;
    BodyClose(rest);
    BodyBreak('n', "\"" + rest, [], rest);
    assert ['\n'] + [] == "\n";
    BodyBreak('r', v, "\n", rest);
    assert ['\r'] + "\n" == "\r\n";
    CrLfShape(rest);
  }

  lemma CrLfShape(rest: string)
    ensures CrLfPiece + rest == "\"" + (['\\', '\\', 'r'] + (['\\', '\\', 'n'] + ("\"" + rest)))
  {
    assert CrLfPiece == "\"" + ['\\', '\\', 'r'] + ['\\', '\\', 'n'] + "\"";
  }

  lemma TextOpen(p: string, rest: string) returns (u: string)
    requires '\\' !in p && p != "\n" && p != "\r" && p != "\r\n"
    ensures Piece(p) + rest == "\"" + u
    ensures PieceBody(u) == Some((p, rest))
  {
    var escaped := ReplaceAll(p, '"', QuoteEscape);
    u := escaped + "\"" + rest;
    EscapedBody(p, rest);
    assert Piece(p) == "\"" + escaped + "\"" by {
      if escaped == "" {
        assert "\"" + escaped + "\"" == "\"\"";
      }
    }
    ConcatAssoc("\"", escaped, "\"");
    ConcatAssoc("\"", escaped + "\"", rest);
  }

  lemma PieceOpen(p: string, rest: string) returns (u: string)
    requires '\\' !in p
    ensures Piece(p) + rest == "\"" + u
    ensures PieceBody(u) == Some((p, rest))
  {
    if p == "\n" {
      u := BreakOpen('n', rest);
      assert LfPiece == ['"', '\\', '\\', 'n', '"'];
    } else if p == "\r" {
      u := BreakOpen('r', rest);
      assert CrPiece == ['"', '\\', '\\', 'r', '"'];
    } else if p == "\r\n" {
      u := CrLfOpen(rest);
    } else {
      u := TextOpen(p, rest);
    }
  }

  /** One piece, then the rest of the literal. */
  lemma PieceRead(p: string, rest: string, w: string)
    requires '\\' !in p && Unquote(rest) == Some(w)
    ensures Unquote(Piece(p) + rest) == Some(p + w)
  {
    var u := PieceOpen(p, rest);
    UnquoteStep(u, p, rest, w);
  }

  lemma UnquoteStep(u: string, p: string, rest: string, w: string)
    requires PieceBody(u) == Some((p, rest)) && Unquote(rest) == Some(w)
    ensures Unquote("\"" + u) == Some(p + w)
  {
    assert ("\"" + u)[1..] == u;
  }

  /** The concatenated pieces of backslash-free parts read back as the
      concatenated parts. */
  lemma {:induction false} UnquotePieces(ps: seq<string>)
    requires forall k :: 0 <= k < |ps| ==> '\\' !in ps[k]
    ensures Unquote(Concat(Pieces(ps))) == Some(Concat(ps))
    decreases |ps|
  {
    if ps != [] {
      UnquotePieces(ps[1..]);
      assert Pieces(ps) == [Piece(ps[0])] + Pieces(ps[1..]);
      PieceRead(ps[0], Concat(Pieces(ps[1..])), Concat(ps[1..]));
    }
  }

  lemma {:induction false} JoinNoSeparator(ps: seq<string>)
    ensures Join(ps, "") == Concat(ps)
    decreases |ps|
  {
    if |ps| == 1 {
      assert Concat(ps) == ps[0] + Concat([]);
    } else if |ps| > 1 {
      JoinNoSeparator(ps[1..]);
    }
  }

  /** A character missing from a concatenation is missing from every part. */
  lemma {:induction false} NotInConcat(ps: seq<string>, c: char)
    requires c !in Concat(ps)
    ensures forall k :: 0 <= k < |ps| ==> c !in ps[k]
    decreases |ps|
  {
    if ps != [] {
      NotInConcat(ps[1..], c);
      assert forall k :: 1 <= k < |ps| ==> ps[k] == ps[1..][k - 1];
    }
  }

  /** A value without a backslash is read back from its literal. */
  lemma CmdLiteralRoundTrip(s: string)
    requires '\\' !in s
    ensures Unquote(CmdLiteral(s)) == Some(s)
  {
    var ps := NewlineParts(s);
    NewlinePartsConcat(s);
    NotInConcat(ps, '\\');
    UnquotePieces(ps);
    JoinNoSeparator(Pieces(ps));
  }
}
