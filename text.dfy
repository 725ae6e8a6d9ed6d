/**
  The few Go standard-library string and integer conversions the core relies on
  (`strings.TrimSpace`, `strings.Split`, `strings.Join`, `strings.ReplaceAll`,
  `strings.ToUpper`/`ToLower`, `strings.Index`, `strings.Count`, `strings.Contains`,
  `strings.Trim`, `strconv.Itoa`, `strconv.Atoi`), over ASCII characters.
 */
module Text {
  import opened Wrappers

  /** The ASCII white space that `strings.TrimSpace` removes. */
  predicate IsSpace(c: char) {
    c == ' ' || c == '\t' || c == '\n' || c == '\U{B}' || c == '\U{C}' || c == '\r'
  }

  predicate IsDigit(c: char) {
    '0' <= c <= '9'
  }

  predicate AllDigits(s: string) {
    forall i :: 0 <= i < |s| ==> IsDigit(s[i])
  }

  function DigitChar(d: nat): (c: char)
    requires d < 10
    ensures IsDigit(c)
  {
    ['0', '1', '2', '3', '4', '5', '6', '7', '8', '9'][d]
  }

  function DigitValue(c: char): (d: nat)
    requires IsDigit(c)
    ensures d < 10
  {
    (c as int - '0' as int) as nat
  }

  lemma DigitRoundTrip(d: nat)
    requires d < 10
    ensures DigitValue(DigitChar(d)) == d
  {
  }

  // ---------------------------------------------------------------- trimming

  function TrimLeft(s: string): (r: string)
    ensures |r| <= |s| && r == s[|s| - |r|..]
    ensures r != [] ==> !IsSpace(r[0])
    ensures forall i :: 0 <= i < |s| - |r| ==> IsSpace(s[i])
  {
    if s != [] && IsSpace(s[0]) then
      var r := TrimLeft(s[1..]);
      assert s[1..][|s| - 1 - |r|..] == s[|s| - |r|..];
      assert forall i :: 1 <= i < |s| - |r| ==> s[i] == s[1..][i - 1];
      r
    else s
  }

  function TrimRight(s: string): (r: string)
    ensures |r| <= |s| && r == s[..|r|]
    ensures r != [] ==> !IsSpace(r[|r| - 1])
    ensures forall i :: |r| <= i < |s| ==> IsSpace(s[i])
  {
    if s != [] && IsSpace(s[|s| - 1]) then TrimRight(s[..|s| - 1]) else s
  }

  /** `strings.TrimSpace`: white space removed from both ends; the result neither
      starts nor ends with white space, and TrimSpaceTrims shows it is a slice of
      `s` with only white space cut away. */
  function TrimSpace(s: string): (r: string)
    ensures |r| <= |s|
    ensures r != [] ==> !IsSpace(r[0]) && !IsSpace(r[|r| - 1])
  {
    TrimRight(TrimLeft(s))
  }

  /** Concatenation regrouped. */
  lemma ConcatAssoc(a: string, b: string, c: string)
    ensures (a + b) + c == a + (b + c)
  {
  }

  /** TrimSpace removes white space, and only white space, from the two ends:
      the result is the slice of s between a white-space prefix and a
      white-space suffix. */
  lemma {:induction false} TrimSpaceTrims(s: string)
    ensures var r, k := TrimSpace(s), |s| - |TrimLeft(s)|;
            && k + |r| <= |s| && r == s[k..k + |r|]
            && (forall i :: 0 <= i < k ==> IsSpace(s[i]))
            && (forall i :: k + |r| <= i < |s| ==> IsSpace(s[i]))
  {
    var l := TrimLeft(s);
    var r := TrimRight(l);
    TrimmedSlice(s, l, r, |s| - |l|);
  }

  /** A prefix r of the suffix l of s, with white space after r in l, is a
      slice of s followed only by white space. */
  lemma TrimmedSlice(s: string, l: string, r: string, k: nat)
    requires k <= |s| && l == s[k..] && |r| <= |l| && r == l[..|r|]
    requires forall i :: |r| <= i < |l| ==> IsSpace(l[i])
    ensures k + |r| <= |s| && r == s[k..k + |r|]
    ensures forall i :: k + |r| <= i < |s| ==> IsSpace(s[i])
  {
    forall i | k + |r| <= i < |s| ensures IsSpace(s[i]) {
      assert s[i] == l[i - k];
    }
  }

  lemma TrimSpaceUnchanged(s: string)
    requires s != [] ==> !IsSpace(s[0]) && !IsSpace(s[|s| - 1])
    ensures TrimSpace(s) == s
  {
  }

  lemma TrimSpaceEmpty(s: string)
    requires TrimSpace(s) == []
    ensures forall i :: 0 <= i < |s| ==> IsSpace(s[i])
  {
  }

  /** `strings.Trim(s, cutset)` for a one-character cut set: every leading and
      every trailing occurrence of `c` is removed. */
  function TrimChar(s: string, c: char): (r: string)
    ensures |r| <= |s|
    ensures r != [] ==> r[0] != c && r[|r| - 1] != c
    decreases |s|
  {
    if s == [] then []
    else if s[0] == c then TrimChar(s[1..], c)
    else if s[|s| - 1] == c then TrimChar(s[..|s| - 1], c)
    else s
  }

  // ----------------------------------------------------------- searching

  /** `strings.Index` for a one-character pattern: -1 when absent. */
  function IndexOf(s: string, c: char): (i: int)
    ensures -1 <= i < |s|
    ensures i == -1 <==> c !in s
    ensures i >= 0 ==> s[i] == c && c !in s[..i]
  {
    if s == [] then -1
    else if s[0] == c then 0
    else
      var j := IndexOf(s[1..], c);
      if j == -1 then -1 else j + 1
  }

  /** The index of the first occurrence is determined by that occurrence. */
  lemma IndexOfFirst(s: string, c: char, k: nat)
    requires k < |s| && s[k] == c && c !in s[..k]
    ensures IndexOf(s, c) == k
  {
  }

  /** `strings.Count` for a one-character pattern. */
  function CountChar(s: string, c: char): (n: nat)
    ensures n == multiset(s)[c]
  {
    if s == [] then 0
    else
      assert s == [s[0]] + s[1..];
      (if s[0] == c then 1 else 0) + CountChar(s[1..], c)
  }

  /** `strings.Contains` for a substring. */
  predicate ContainsString(s: string, sub: string) {
    sub <= s || (s != [] && ContainsString(s[1..], sub))
  }

  lemma ContainsStringAt(s: string, sub: string, k: nat)
    requires k + |sub| <= |s| && s[k..k + |sub|] == sub
    ensures ContainsString(s, sub)
  {
    if k > 0 {
      assert s[1..][k - 1..k - 1 + |sub|] == sub;
      ContainsStringAt(s[1..], sub, k - 1);
    }
  }

  // ------------------------------------------------- splitting and joining

  /** `strings.Split` for a one-character separator: never empty; SplitJoin and
      JoinSplit relate it to Join. */
  function Split(s: string, c: char): (parts: seq<string>)
    ensures |parts| >= 1
    decreases |s|
  {
    var i := IndexOf(s, c);
    if i == -1 then [s] else [s[..i]] + Split(s[i + 1..], c)
  }

  /** One step of Split at the first separator. */
  lemma {:induction false} SplitAt(s: string, c: char, i: int)
    requires i == IndexOf(s, c) && i != -1
    ensures Split(s, c) == [s[..i]] + Split(s[i + 1..], c)
  {
    assert i != -1 && IndexOf(s, c) == i;
  }

  /** One step of Join at the first piece. */
  lemma JoinCons(p: string, rest: seq<string>, sep: string)
    requires rest != []
    ensures Join([p] + rest, sep) == p + sep + Join(rest, sep)
  {
    assert ([p] + rest)[1..] == rest;
  }

  /** Split loses nothing: joining the pieces back gives the input. */
  lemma {:induction false} SplitJoin(s: string, c: char)
    ensures Join(Split(s, c), [c]) == s
    decreases |s|
  {
    var i := IndexOf(s, c);
    if i != -1 {
      var left, right := s[..i], s[i + 1..];
      assert s == left + [c] + right;
      SplitAt(s, c, i);
      JoinCons(left, Split(right, c), [c]);
      SplitJoin(right, c);
    }
  }

  /** Split inverts Join when no piece holds the separator. */
  lemma {:induction false} JoinSplit(parts: seq<string>, c: char)
    requires |parts| >= 1 && forall i :: 0 <= i < |parts| ==> c !in parts[i]
    ensures Split(Join(parts, [c]), c) == parts
    decreases |parts|
  {
    if |parts| == 1 {
      assert Join(parts, [c]) == parts[0];
    } else {
      var p, rest := parts[0], parts[1..];
      assert parts == [p] + rest;
      JoinCons(p, rest, [c]);
      var tail := Join(rest, [c]);
      var s := p + [c] + tail;
      assert s[..|p|] == p && s[|p| + 1..] == tail;
      IndexOfFirst(s, c, |p|);
      SplitAt(s, c, |p|);
      JoinSplit(rest, c);
    }
  }

  /** `strings.Join`. */
  function Join(parts: seq<string>, sep: string): string {
    if parts == [] then []
    else if |parts| == 1 then parts[0]
    else parts[0] + sep + Join(parts[1..], sep)
  }

  /** Joining one more element at the end. */
  lemma JoinAppend(parts: seq<string>, p: string, sep: string)
    requires parts != []
    ensures Join(parts + [p], sep) == Join(parts, sep) + sep + p
  {
    if |parts| > 1 {
      assert (parts + [p])[1..] == parts[1..] + [p];
      JoinAppend(parts[1..], p, sep);
    }
  }

  // ---------------------------------------------------------- rewriting

  /** `strings.ReplaceAll` for a one-character pattern. */
  function ReplaceAll(s: string, c: char, rep: string): (r: string)
    ensures c !in s ==> r == s
  {
    if s == [] then []
    else
      (if s[0] == c then rep else [s[0]]) + ReplaceAll(s[1..], c, rep)
  }

  lemma ReplaceAllConcat(a: string, b: string, c: char, rep: string)
    ensures ReplaceAll(a + b, c, rep) == ReplaceAll(a, c, rep) + ReplaceAll(b, c, rep)
  {
    if a != [] {
      assert (a + b)[0] == a[0] && (a + b)[1..] == a[1..] + b;
      assert ReplaceAll(a + b, c, rep)
          == (if a[0] == c then rep else [a[0]]) + ReplaceAll(a[1..] + b, c, rep);
      ReplaceAllConcat(a[1..], b, c, rep);
    } else {
      assert a + b == b;
    }
  }

  /** Replacing a character by a single character keeps the length and acts
      position by position. */
  lemma {:induction false} ReplaceAllChar(s: string, c: char, d: char)
    ensures |ReplaceAll(s, c, [d])| == |s|
    ensures forall i :: 0 <= i < |s| ==> ReplaceAll(s, c, [d])[i] == (if s[i] == c then d else s[i])
  {
    if s != [] {
      ReplaceAllChar(s[1..], c, d);
      var r := ReplaceAll(s, c, [d]);
      var t := ReplaceAll(s[1..], c, [d]);
      var h := if s[0] == c then d else s[0];
      assert r == [h] + t;
      forall i | 0 <= i < |s|
        ensures r[i] == (if s[i] == c then d else s[i])
      {
        if i > 0 {
          assert r[i] == t[i - 1] && s[1..][i - 1] == s[i];
        }
      }
    }
  }

  function UpperChar(c: char): char {
    if 'a' <= c <= 'z' then (c as int - 32) as char else c
  }

  function LowerChar(c: char): char {
    if 'A' <= c <= 'Z' then (c as int + 32) as char else c
  }

  /** `strings.ToUpper` over ASCII letters. */
  function ToUpper(s: string): (r: string)
    ensures |r| == |s| && forall i :: 0 <= i < |s| ==> r[i] == UpperChar(s[i])
  {
    if s == [] then [] else [UpperChar(s[0])] + ToUpper(s[1..])
  }

  /** `strings.ToLower` over ASCII letters. */
  function ToLower(s: string): (r: string)
    ensures |r| == |s| && forall i :: 0 <= i < |s| ==> r[i] == LowerChar(s[i])
  {
    if s == [] then [] else [LowerChar(s[0])] + ToLower(s[1..])
  }

  /** Lower-casing forgets an earlier upper-casing. */
  lemma LowerOfUpper(s: string)
    ensures ToLower(ToUpper(s)) == ToLower(s)
  {
    var a := ToLower(ToUpper(s));
    var b := ToLower(s);
    forall i | 0 <= i < |s|
      ensures a[i] == b[i]
    {
      assert ToUpper(s)[i] == UpperChar(s[i]);
    }
  }

  // ------------------------------------------------ integers as decimal text

  /** The decimal digits of a natural number, without leading zeros. */
  function NatToDigits(n: nat): (s: string)
    ensures s != [] && AllDigits(s)
    decreases n
  {
    if n < 10 then [DigitChar(n)] else NatToDigits(n / 10) + [DigitChar(n % 10)]
  }

  function DigitsValue(s: string): nat
    requires AllDigits(s)
  {
    if s == [] then 0 else DigitsValue(s[..|s| - 1]) * 10 + DigitValue(s[|s| - 1])
  }

  lemma {:induction false} DigitsValueOfNatToDigits(n: nat)
    ensures DigitsValue(NatToDigits(n)) == n
    decreases n
  {
    if n >= 10 {
      var s := NatToDigits(n);
      assert s[..|s| - 1] == NatToDigits(n / 10);
      DigitsValueOfNatToDigits(n / 10);
      DigitRoundTrip(n % 10);
    } else {
      DigitRoundTrip(n);
    }
  }

  /** `strconv.Itoa`. */
  function Itoa(n: int): (s: string)
    ensures s != []
    ensures n >= 0 ==> AllDigits(s)
    ensures n < 0 ==> s[0] == '-' && AllDigits(s[1..]) && |s| >= 2
  {
    if n < 0 then "-" + NatToDigits(-n) else NatToDigits(n)
  }

  /** `strconv.Atoi` on its syntax: an optional `+` or `-` followed by at least one
      ASCII decimal digit, and nothing else. */
  function Atoi(s: string): (r: Option<int>)
    ensures r.Some? ==> s != [] && (IsDigit(s[0]) || s[0] == '+' || s[0] == '-')
    ensures r.Some? ==> forall i :: 1 <= i < |s| ==> IsDigit(s[i])
  {
    if s == [] then None
    else if s[0] == '+' || s[0] == '-' then
      if |s| > 1 && AllDigits(s[1..]) then
        var v: int := DigitsValue(s[1..]);
        Some(if s[0] == '-' then -v else v)
      else None
    else if AllDigits(s) then Some(DigitsValue(s))
    else None
  }

  /** Atoi inverts Itoa. */
  lemma AtoiItoa(n: int)
    ensures Atoi(Itoa(n)) == Some(n)
  {
    if n < 0 {
      AtoiNegative(NatToDigits(-n), -n);
    } else {
      DigitsValueOfNatToDigits(n);
      AtoiDigits(NatToDigits(n), n);
    }
  }

  lemma AtoiDigits(d: string, v: nat)
    requires d != [] && AllDigits(d) && DigitsValue(d) == v
    ensures Atoi(d) == Some(v)
  {
    assert IsDigit(d[0]);
  }

  lemma AtoiNegative(d: string, v: nat)
    requires d == NatToDigits(v) && v > 0
    ensures Atoi("-" + d) == Some(-(v as int))
  {
    DigitsValueOfNatToDigits(v);
    var t := "-" + d;
    assert t[0] == '-' && t[1..] == d;
  }

  /** The decimal form of an integer holds only digits and an optional leading minus. */
  lemma ItoaChars(n: int)
    ensures forall i :: 0 <= i < |Itoa(n)| ==> IsDigit(Itoa(n)[i]) || (i == 0 && n < 0 && Itoa(n)[i] == '-')
  {
  }
}
