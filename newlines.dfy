/**
  The split of a value into line-break parts and text parts that the PowerShell
  and cmd literal builders work on: every `\r\n`, `\r` and `\n` is a part of
  its own, and every maximal run of other characters is one text part.
 */
module Newlines {

  predicate IsNewline(c: char) {
    c == '\r' || c == '\n'
  }

  predicate NewlineFree(s: string) {
    forall i :: 0 <= i < |s| ==> !IsNewline(s[i])
  }

  /** A part of the split: a line-break sequence or a non-empty run of text. */
  predicate IsTextPart(p: string) {
    p != "" && NewlineFree(p)
  }

  predicate IsPart(p: string) {
    p == "\r\n" || p == "\r" || p == "\n" || IsTextPart(p)
  }

  /** A list of parts that no coarser split could give: two text runs are never
      neighbours and a `\r` is never followed by a `\n` part. */
  predicate Canonical(ps: seq<string>) {
    && (forall k :: 0 <= k < |ps| ==> IsPart(ps[k]))
    && (forall k :: 0 <= k < |ps| - 1 ==> !(IsTextPart(ps[k]) && IsTextPart(ps[k + 1])))
    && (forall k :: 0 <= k < |ps| - 1 ==> !(ps[k] == "\r" && ps[k + 1] == "\n"))
  }

  function Concat(ps: seq<string>): string {
    if ps == [] then "" else ps[0] + Concat(ps[1..])
  }

  /** The length of the leading run of characters that are not line breaks. */
  function TextRun(s: string): (n: nat)
    ensures n <= |s|
  {
    if s == [] || IsNewline(s[0]) then 0 else 1 + TextRun(s[1..])
  }

  /** The run holds no line break and stops at one or at the end. */
  lemma {:induction false} TextRunBounds(s: string)
    ensures forall i :: 0 <= i < TextRun(s) ==> !IsNewline(s[i])
    ensures TextRun(s) < |s| ==> IsNewline(s[TextRun(s)])
  {
    if s != [] && !IsNewline(s[0]) {
      TextRunBounds(s[1..]);
      assert forall i :: 1 <= i < |s| ==> s[1..][i - 1] == s[i];
    }
  }

  /** The parts of a string, read from the left. */
  function Parts(s: string): seq<string>
    decreases |s|
  {
    if s == [] then []
    else if s[0] == '\r' && |s| > 1 && s[1] == '\n' then ["\r\n"] + Parts(s[2..])
    else if IsNewline(s[0]) then [[s[0]]] + Parts(s[1..])
    else
      var n := TextRun(s);
      [s[..n]] + Parts(s[n..])
  }

  /** splitPreserveNewlines: the empty string gives one empty part. */
  function NewlineParts(s: string): seq<string> {
    if s == "" then [""] else Parts(s)
  }

  lemma NewlinePartsEmpty()
    ensures NewlineParts("") == [""]
  {
  }

  /** Concatenating the parts gives the string back. */
  lemma {:induction false} PartsConcat(s: string)
    ensures Concat(Parts(s)) == s
    decreases |s|
  {
    if s == [] {
    } else if s[0] == '\r' && |s| > 1 && s[1] == '\n' {
      PartsConcat(s[2..]);
      assert s == "\r\n" + s[2..];
    } else if IsNewline(s[0]) {
      PartsConcat(s[1..]);
      assert s == [s[0]] + s[1..];
    } else {
      var n := TextRun(s);
      PartsConcat(s[n..]);
      assert s == s[..n] + s[n..];
    }
  }

  lemma NewlinePartsConcat(s: string)
    ensures Concat(NewlineParts(s)) == s
  {
    PartsConcat(s);
  }

  /** The first part starts with the first character. */
  lemma PartsHead(s: string)
    requires s != []
    ensures Parts(s) != [] && Parts(s)[0] != [] && Parts(s)[0][0] == s[0]
  {
  }

  /** One more part in front of a canonical list. */
  lemma ConsCanonical(p: string, tail: seq<string>)
    requires Canonical(tail) && IsPart(p)
    requires tail != [] ==> !(IsTextPart(p) && IsTextPart(tail[0])) && !(p == "\r" && tail[0] == "\n")
    ensures Canonical([p] + tail)
  {
    var ps := [p] + tail;
    assert forall k :: 1 <= k < |ps| ==> ps[k] == tail[k - 1];
  }

  /** The parts are canonical. */
  lemma {:induction false} PartsCanonical(s: string)
    ensures Canonical(Parts(s))
    decreases |s|
  {
    if s != [] {
      if s[0] == '\r' && |s| > 1 && s[1] == '\n' {
        CrlfStep(s);
        PartsCanonical(s[2..]);
        assert "\r\n"[0] == '\r';
        ConsCanonical("\r\n", Parts(s[2..]));
      } else if IsNewline(s[0]) {
        NewlineStep(s);
        var rest := s[1..];
        if rest != [] {
          PartsHead(rest);
        }
        PartsCanonical(rest);
        assert [s[0]][0] == s[0];
        ConsCanonical([s[0]], Parts(rest));
      } else {
        var n := TextRun(s);
        var rest := s[n..];
        TextRunBounds(s);
        assert Parts(s) == [s[..n]] + Parts(rest);
        assert IsTextPart(s[..n]);
        if rest != [] {
          PartsHead(rest);
        }
        PartsCanonical(rest);
        ConsCanonical(s[..n], Parts(rest));
      }
    }
  }

  lemma CrlfStep(r: string)
    requires |r| > 1 && r[0] == '\r' && r[1] == '\n'
    ensures Parts(r) == ["\r\n"] + Parts(r[2..])
  {
  }

  lemma NewlineStep(r: string)
    requires r != [] && IsNewline(r[0]) && !(r[0] == '\r' && |r| > 1 && r[1] == '\n')
    ensures Parts(r) == [[r[0]]] + Parts(r[1..])
  {
  }

  /** A text run followed by nothing or by a line break is one part. */
  lemma {:induction false} TextRunOf(t: string, r: string)
    requires NewlineFree(t)
    requires r == [] || IsNewline(r[0])
    ensures TextRun(t + r) == |t|
    decreases |t|
  {
    if t == [] {
      assert t + r == r;
    } else {
      assert (t + r)[1..] == t[1..] + r;
      TextRunOf(t[1..], r);
    }
  }

  lemma TextPartFirst(t: string, r: string)
    requires IsTextPart(t)
    requires r == [] || IsNewline(r[0])
    ensures Parts(t + r) == [t] + Parts(r)
  {
    TextRunOf(t, r);
    var s := t + r;
    assert s[..|t|] == t && s[|t|..] == r;
  }

  /** A canonical list stays canonical without its head. */
  lemma CanonicalTail(ps: seq<string>)
    requires Canonical(ps) && ps != []
    ensures Canonical(ps[1..])
  {
    var tail := ps[1..];
    assert forall k :: 0 <= k < |tail| ==> tail[k] == ps[k + 1];
  }

  /** A break part starts with its break; only `\n` starts with `\n`. */
  lemma PartStart(q: string)
    requires IsPart(q)
    ensures q != [] && (IsNewline(q[0]) <==> !IsTextPart(q))
    ensures q[0] == '\n' ==> q == "\n"
  {
    if IsTextPart(q) {
      assert !IsNewline(q[0]);
    }
  }

  /** One part in front of the text whose parts are `tail`. */
  lemma JoinHead(p: string, r: string, tail: seq<string>)
    requires IsPart(p) && Parts(r) == tail
    requires tail == [] ==> r == []
    requires tail != [] ==> r != [] && tail[0] != [] && tail[0][0] == r[0] && IsPart(tail[0])
    requires tail != [] ==> !(IsTextPart(p) && IsTextPart(tail[0])) && !(p == "\r" && tail[0] == "\n")
    ensures Parts(p + r) == [p] + tail
  {
    if tail != [] {
      PartStart(tail[0]);
    }
    if p == "\r\n" {
      CrlfStep(p + r);
      assert (p + r)[2..] == r;
    } else if p == "\r" || p == "\n" {
      NewlineStep(p + r);
      assert (p + r)[1..] == r;
    } else {
      TextPartFirst(p, r);
    }
  }

  /** Canonical parts are the parts of their concatenation: the split is the
      only canonical one. */
  lemma {:induction false} CanonicalUnique(ps: seq<string>)
    requires Canonical(ps)
    ensures Parts(Concat(ps)) == ps
    decreases |ps|
  {
    if ps != [] {
      var tail := ps[1..];
      CanonicalTail(ps);
      CanonicalUnique(tail);
      var r := Concat(tail);
      if tail != [] {
        PartStart(tail[0]);
        PartsHead(r);
      } else {
        assert r == [];
      }
      JoinHead(ps[0], r, tail);
    }
  }

  /** The pending text of the builder loop, as parts. */
  function Flushed(buf: string): seq<string> {
    if buf == "" then [] else [buf]
  }

  /** The buffer flush of the builder loop. */
  lemma FlushStep(buf: string, r: string)
    requires NewlineFree(buf)
    requires r == [] || IsNewline(r[0])
    ensures Parts(buf + r) == Flushed(buf) + Parts(r)
  {
    if buf == "" {
      assert buf + r == r;
      assert Flushed(buf) + Parts(r) == Parts(r);
    } else {
      TextPartFirst(buf, r);
      assert Flushed(buf) == [buf];
    }
  }

  /** The parts at a line break, with the text before it. */
  lemma BreakParts(buf: string, s: string, i: nat)
    requires i < |s| && IsNewline(s[i]) && NewlineFree(buf)
    ensures s[i] == '\r' && i + 1 < |s| && s[i + 1] == '\n' ==>
              Parts(buf + s[i..]) == Flushed(buf) + ["\r\n"] + Parts(s[i + 2..])
    ensures !(s[i] == '\r' && i + 1 < |s| && s[i + 1] == '\n') ==>
              Parts(buf + s[i..]) == Flushed(buf) + [[s[i]]] + Parts(s[i + 1..])
  {
    var r := s[i..];
    FlushStep(buf, r);
    if s[i] == '\r' && i + 1 < |s| && s[i + 1] == '\n' {
      CrlfStep(r);
      assert r[2..] == s[i + 2..];
    } else {
      NewlineStep(r);
      assert r[1..] == s[i + 1..];
    }
  }

  /** The loop step over a character that is not a line break. */
  lemma TextStep(buf: string, s: string, i: nat)
    requires i < |s| && !IsNewline(s[i]) && NewlineFree(buf)
    ensures NewlineFree(buf + [s[i]]) && buf + s[i..] == (buf + [s[i]]) + s[i + 1..]
  {
  }

  /** Whether the line break at `i` is a `\r\n` pair. */
  predicate IsCrlfAt(s: string, i: nat) {
    i + 1 < |s| && s[i] == '\r' && s[i + 1] == '\n'
  }

  /** The part a line break at `i` gives, and its length. */
  function BreakAt(s: string, i: nat): string
    requires i < |s|
  {
    if IsCrlfAt(s, i) then "\r\n" else [s[i]]
  }

  function BreakWidth(s: string, i: nat): nat {
    if IsCrlfAt(s, i) then 2 else 1
  }

  /** The builder loop from position `i` with pending text `buf`, as a
      function of its state. */
  function Rest(s: string, i: nat, buf: string): seq<string>
    decreases |s| - i
  {
    if i >= |s| then Flushed(buf)
    else if IsNewline(s[i]) then Flushed(buf) + [BreakAt(s, i)] + Rest(s, i + BreakWidth(s, i), "")
    else Rest(s, i + 1, buf + [s[i]])
  }

  /** The loop computes the parts of what it has not yet emitted. */
  lemma {:induction false} RestParts(s: string, i: nat, buf: string)
    requires i <= |s| && NewlineFree(buf)
    ensures Rest(s, i, buf) == Parts(buf + s[i..])
    decreases |s| - i
  {
    if i >= |s| {
      FlushStep(buf, []);
      assert buf + [] == buf + s[i..];
    } else if IsNewline(s[i]) {
      BreakParts(buf, s, i);
      var j := i + BreakWidth(s, i);
      RestParts(s, j, "");
      assert "" + s[j..] == s[j..];
    } else {
      TextStep(buf, s, i);
      RestParts(s, i + 1, buf + [s[i]]);
    }
  }

  /** One step of the loop at a line break, in the shapes the loop builds. */
  lemma RestStep(s: string, i: nat, buf: string, done: seq<string>, total: seq<string>)
    requires i < |s| && IsNewline(s[i]) && done + Rest(s, i, buf) == total
    ensures |buf| > 0 ==> done + [buf] + [BreakAt(s, i)] + Rest(s, i + BreakWidth(s, i), "") == total
    ensures |buf| == 0 ==> done + [BreakAt(s, i)] + Rest(s, i + BreakWidth(s, i), "") == total
  {
  }

  method SplitPreserveNewlines(s: string) returns (parts: seq<string>)
    ensures parts == NewlineParts(s)
  {
    if s == "" {
      return [""];
    }
    parts := [];
    var buf := "";
    var i := 0;
    ghost var total := Rest(s, 0, "");
    while i < |s|
      invariant i <= |s|
      invariant parts + Rest(s, i, buf) == total
    {
      var ch := s[i];
      if ch == '\r' || ch == '\n' {
        RestStep(s, i, buf, parts, total);
        if |buf| > 0 {
          parts := parts + [buf];
          buf := "";
        }
        if ch == '\r' && i + 1 < |s| && s[i + 1] == '\n' {
          parts := parts + ["\r\n"];
          i := i + 2;
        } else {
          parts := parts + [[ch]];
          i := i + 1;
        }
      } else {
        buf := buf + [ch];
        i := i + 1;
      }
    }
    if |buf| > 0 {
      parts := parts + [buf];
    }
    RestParts(s, 0, "");
    assert "" + s[0..] == s;
  }
}
