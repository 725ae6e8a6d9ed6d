/**
  A filter over the natural numbers: a union of IntRanges, written as tokens
  separated by `_` (`N`, `N-M`, `N-`, `-M`, `all`), whose numbers must not
  decrease from left to right.
 */
module NaturalRangeFilters {
  import opened Wrappers
  import opened Text
  import opened IntRanges

  /** No ranges: the filter accepts nothing. */
  datatype NaturalRangeFilter = NaturalRangeFilter(Ranges: seq<IntRange>)

  /** Why a filter text is refused. */
  datatype FilterError =
    | EmptyToken(position: nat)
    | InvalidToken(token: string)
    | NotNaturalNumber(text: string)
    | MinAboveMax(token: string)
    | Decreasing(n: int, prev: int)

  /** n is a natural number inside one of the filter's ranges. */
  ghost predicate Accepts(f: NaturalRangeFilter, n: int) {
    n >= 0 && InUnion(f.Ranges, n)
  }

  function NewAllNaturalRangeFilter(): (f: NaturalRangeFilter)
    ensures forall n :: Accepts(f, n) <==> n >= 0
  {
    var f := NaturalRangeFilter([NewGreaterOrEqualThanIntRange(0)]);
    forall n ensures Accepts(f, n) <==> n >= 0 {
      InUnionSingle(f.Ranges[0], n);
    }
    f
  }

  /** Atoi, refusing negative values. */
  function ParseNaturalNumber(s: string): (r: Result<nat, FilterError>)
    ensures r.Success? <==> Atoi(s).Some? && Atoi(s).value >= 0
    ensures r.Success? ==> r.value == Atoi(s).value
  {
    match Atoi(s)
    case Some(n) => if n < 0 then Failure(NotNaturalNumber(s)) else Success(n)
    case None => Failure(NotNaturalNumber(s))
  }

  lemma ParseNaturalNumberItoa(n: nat)
    ensures ParseNaturalNumber(Itoa(n)) == Success(n)
  {
    AtoiItoa(n);
  }

  // ----------------------------------------------------------------- tokens

  /** The numbers a token range was written with, read left to right: its first
      and its last. */
  function Lo(r: IntRange): int {
    if r.MinUnbounded then r.Max else r.Min
  }

  function Hi(r: IntRange): int {
    if r.MaxUnbounded then r.Min else r.Max
  }

  /** The four shapes a token denotes, all over natural numbers. */
  predicate TokenRange(r: IntRange) {
    || (r == NewInclusiveIntRange(r.Min, r.Max) && 0 <= r.Min <= r.Max)
    || (r == NewGreaterOrEqualThanIntRange(r.Min) && r.Min >= 0)
    || (r == NewLessOrEqualThanIntRange(r.Max) && r.Max >= 0)
  }

  /** The numbers of the ranges never decrease from one range to the next. */
  ghost predicate Ordered(rs: seq<IntRange>) {
    forall i, j :: 0 <= i < j < |rs| ==> Hi(rs[i]) <= Lo(rs[j])
  }

  datatype TokenOutcome =
    | Refused(error: FilterError)
    | AllNaturals                      // "-N-": the whole filter is every natural number
    | Append(range: IntRange, next: int) // one more range, and the new lower limit

  /** One trimmed, non-empty token, read against the last number seen. */
  function ParseToken(tok: string, prev: int): (out: TokenOutcome)
    requires tok != ""
    ensures out.Append? ==> TokenRange(out.range) && prev <= Lo(out.range) && Hi(out.range) == out.next
    ensures out.Append? ==> Lo(out.range) <= Hi(out.range)
    ensures out.AllNaturals? ==> CountChar(tok, '-') > 1
  {
    if CountChar(tok, '-') > 1 then
      if tok != "--" && tok[0] == '-' && tok[|tok| - 1] == '-' then
        match ParseNaturalNumber(tok[1..|tok| - 1])
        case Failure(e) => Refused(e)
        case Success(_) => AllNaturals
      else Refused(InvalidToken(tok))
    else if '-' in tok then
      var sep := IndexOf(tok, '-');
      var left := tok[..sep];
      var right := tok[sep + 1..];
      if left == "" && right == "" then Refused(InvalidToken(tok))
      else if left != "" && right != "" then
        match ParseNaturalNumber(left)
        case Failure(e) => Refused(e)
        case Success(n1) =>
          match ParseNaturalNumber(right)
          case Failure(e) => Refused(e)
          case Success(n2) =>
            if n1 > n2 then Refused(MinAboveMax(tok))
            else if n1 < prev then Refused(Decreasing(n1, prev))
            else if n2 < prev then Refused(Decreasing(n2, prev))
            else Append(NewInclusiveIntRange(n1, n2), n2)
      else if left != "" then
        match ParseNaturalNumber(left)
        case Failure(e) => Refused(e)
        case Success(n) =>
          if n < prev then Refused(Decreasing(n, prev))
          else Append(NewGreaterOrEqualThanIntRange(n), n)
      else
        match ParseNaturalNumber(right)
        case Failure(e) => Refused(e)
        case Success(n) =>
          if n < prev then Refused(Decreasing(n, prev))
          else Append(NewLessOrEqualThanIntRange(n), n)
    else
      match ParseNaturalNumber(tok)
      case Failure(e) => Refused(e)
      case Success(n) =>
        if n < prev then Refused(Decreasing(n, prev))
        else Append(NewSingleValueIntRange(n), n)
  }

  /** The tokens from position i on, with the ranges read so far in acc. */
  function ParseTokens(tokens: seq<string>, i: nat, prev: int, acc: seq<IntRange>): Result<NaturalRangeFilter, FilterError>
    requires i <= |tokens|
    decreases |tokens| - i
  {
    if i == |tokens| then Success(NaturalRangeFilter(acc))
    else
      var tok := TrimSpace(tokens[i]);
      if tok == "" then Failure(EmptyToken(i))
      else
        match ParseToken(tok, prev)
        case Refused(e) => Failure(e)
        case AllNaturals => Success(NewAllNaturalRangeFilter())
        case Append(r, next) => ParseTokens(tokens, i + 1, next, acc + [r])
  }

  /** The outcome of token i, given that it is not blank. */
  function ParseTokensStep(tokens: seq<string>, i: nat, prev: int, acc: seq<IntRange>, out: TokenOutcome): Result<NaturalRangeFilter, FilterError>
    requires i < |tokens|
  {
    match out
    case Refused(e) => Failure(e)
    case AllNaturals => Success(NewAllNaturalRangeFilter())
    case Append(r, next) => ParseTokens(tokens, i + 1, next, acc + [r])
  }

  /** The filter a text denotes: empty text is the empty filter, `all` is the
      unbounded range, anything else is a list of tokens. */
  function ParseFilter(v: string): (r: Result<NaturalRangeFilter, FilterError>)
    ensures TrimSpace(v) == "" ==> r == Success(NaturalRangeFilter([]))
    ensures TrimSpace(v) == "all" ==> r == Success(NaturalRangeFilter([NewUnboundedIntRange()]))
  {
    var s := TrimSpace(v);
    if s == "" then Success(NaturalRangeFilter([]))
    else if s == "all" then Success(NaturalRangeFilter([NewUnboundedIntRange()]))
    else ParseTokens(Split(s, '_'), 0, 0, [])
  }

  /** Reads a filter text, token by token, keeping the last number seen. */
  method NewNaturalRangeFilter(v: string) returns (r: Result<NaturalRangeFilter, FilterError>)
    ensures r == ParseFilter(v)
  {
    var s := TrimSpace(v);
    if s == "" {
      return Success(NaturalRangeFilter([]));
    }
    if s == "all" {
      return Success(NaturalRangeFilter([NewUnboundedIntRange()]));
    }
    r := ReadTokens(Split(s, '_'));
  }

  /** The token loop of NewNaturalRangeFilter. */
  method ReadTokens(tokens: seq<string>) returns (r: Result<NaturalRangeFilter, FilterError>)
    ensures r == ParseTokens(tokens, 0, 0, [])
  {
    var prev := 0;
    var ranges: seq<IntRange> := [];
    for i := 0 to |tokens|
      invariant ParseTokens(tokens, i, prev, ranges) == ParseTokens(tokens, 0, 0, [])
    {
      var tok := TrimSpace(tokens[i]);
      if tok == "" {
        return Failure(EmptyToken(i));
      }
      var out := ParseToken(tok, prev);
      assert ParseTokens(tokens, i, prev, ranges) == ParseTokensStep(tokens, i, prev, ranges, out);
      if out.Refused? {
        return Failure(out.error);
      } else if out.AllNaturals? {
        return Success(NewAllNaturalRangeFilter());
      }
      ranges := ranges + [out.range];
      prev := out.next;
    }
    return Success(NaturalRangeFilter(ranges));
  }

  /** Every filter read from text other than `all` is made of token ranges whose
      numbers never decrease. */
  lemma ParsedRangesOrdered(v: string)
    requires ParseFilter(v).Success? && TrimSpace(v) != "all"
    ensures var f := ParseFilter(v).value;
            (forall k :: 0 <= k < |f.Ranges| ==> TokenRange(f.Ranges[k])) && Ordered(f.Ranges)
  {
    var s := TrimSpace(v);
    if s != "" {
      ParseTokensOrdered(Split(s, '_'), 0, 0, []);
    }
  }

  lemma {:induction false} ParseTokensOrdered(tokens: seq<string>, i: nat, prev: int, acc: seq<IntRange>)
    requires i <= |tokens| && prev >= 0
    requires forall k :: 0 <= k < |acc| ==> TokenRange(acc[k]) && Hi(acc[k]) <= prev
    requires Ordered(acc)
    requires ParseTokens(tokens, i, prev, acc).Success?
    ensures var f := ParseTokens(tokens, i, prev, acc).value;
            (forall k :: 0 <= k < |f.Ranges| ==> TokenRange(f.Ranges[k])) && Ordered(f.Ranges)
    decreases |tokens| - i
  {
    if i < |tokens| {
      var tok := TrimSpace(tokens[i]);
      var out := ParseToken(tok, prev);
      if tok != "" && out.Append? {
        var acc' := acc + [out.range];
        OrderedAppend(acc, out.range, prev);
        assert ParseTokens(tokens, i, prev, acc) == ParseTokens(tokens, i + 1, out.next, acc');
        ParseTokensOrdered(tokens, i + 1, out.next, acc');
      }
    }
  }

  lemma OrderedAppend(acc: seq<IntRange>, r: IntRange, prev: int)
    requires forall k :: 0 <= k < |acc| ==> TokenRange(acc[k]) && Hi(acc[k]) <= prev
    requires Ordered(acc)
    requires TokenRange(r) && prev <= Lo(r) <= Hi(r)
    ensures forall k :: 0 <= k < |acc + [r]| ==> TokenRange((acc + [r])[k]) && Hi((acc + [r])[k]) <= Hi(r)
    ensures Ordered(acc + [r])
  {
    var acc' := acc + [r];
    assert forall k :: 0 <= k < |acc| ==> acc'[k] == acc[k];
  }

  // ------------------------------------------------ what each token means

  /** A dash between two dash-free texts is the only dash of the token. */
  lemma OneDash(a: string, b: string)
    requires '-' !in a && '-' !in b
    ensures CountChar(a + "-" + b, '-') == 1 && IndexOf(a + "-" + b, '-') == |a|
    ensures (a + "-" + b)[..|a|] == a && (a + "-" + b)[|a| + 1..] == b
  {
    var t := a + "-" + b;
    assert multiset(t) == multiset(a) + multiset{'-'} + multiset(b);
    assert t[..|a|] == a && t[|a| + 1..] == b;
    IndexOfFirst(t, '-', |a|);
  }

  /** A non-empty string of digits is the natural number it spells. */
  lemma DigitsNatural(d: string)
    requires d != [] && AllDigits(d)
    ensures ParseNaturalNumber(d) == Success(DigitsValue(d)) && '-' !in d
  {
    AtoiDigits(d, DigitsValue(d));
  }

  /** `N`, for digits N: the single value N, refused when below the last number. */
  lemma ValueTokenMeans(d: string, prev: int)
    requires d != [] && AllDigits(d)
    ensures var a := DigitsValue(d);
            ParseToken(d, prev) ==
              if a < prev then Refused(Decreasing(a, prev)) else Append(NewSingleValueIntRange(a), a)
  {
    AtoiDigits(d, DigitsValue(d));
    assert '-' !in d;
    assert CountChar(d, '-') == 0;
  }

  /** `N-M`: the closed interval [N, M], refused when N > M or when N is below
      the last number. */
  lemma IntervalTokenMeans(d: string, e: string, prev: int)
    requires d != [] && AllDigits(d) && e != [] && AllDigits(e)
    ensures var a, b, t := DigitsValue(d), DigitsValue(e), d + "-" + e;
            ParseToken(t, prev) ==
              if a > b then Refused(MinAboveMax(t))
              else if a < prev then Refused(Decreasing(a, prev))
              else Append(NewInclusiveIntRange(a, b), b)
  {
    DigitsNatural(d);
    DigitsNatural(e);
    OneDash(d, e);
  }

  /** `N-`: the numbers from N on, refused when N is below the last number. */
  lemma FromTokenMeans(d: string, prev: int)
    requires d != [] && AllDigits(d)
    ensures var a := DigitsValue(d);
            ParseToken(d + "-", prev) ==
              if a < prev then Refused(Decreasing(a, prev)) else Append(NewGreaterOrEqualThanIntRange(a), a)
  {
    AtoiDigits(d, DigitsValue(d));
    assert '-' !in d;
    OneDash(d, "");
    assert d + "-" == d + "-" + "";
  }

  /** `-M`: the numbers up to M, refused when M is below the last number. */
  lemma UpToTokenMeans(e: string, prev: int)
    requires e != [] && AllDigits(e)
    ensures var b := DigitsValue(e);
            ParseToken("-" + e, prev) ==
              if b < prev then Refused(Decreasing(b, prev)) else Append(NewLessOrEqualThanIntRange(b), b)
  {
    AtoiDigits(e, DigitsValue(e));
    assert '-' !in e;
    OneDash("", e);
    assert "-" + e == "" + "-" + e;
  }

  /** `-N-`: every natural number, whatever the last number was. */
  lemma AllNaturalsTokenMeans(d: string, prev: int)
    requires d != [] && AllDigits(d)
    ensures ParseToken("-" + d + "-", prev) == AllNaturals
  {
    AtoiDigits(d, DigitsValue(d));
    var t := "-" + d + "-";
    assert '-' !in d;
    assert multiset(t) == multiset{'-'} + multiset(d) + multiset{'-'};
    assert t[1..|t| - 1] == d;
  }

  /** A token of several dashes that is not `-X-` (so also `--`) is refused. */
  lemma ManyDashesRefused(tok: string, prev: int)
    requires tok != [] && CountChar(tok, '-') > 1
    requires tok == "--" || tok[0] != '-' || tok[|tok| - 1] != '-'
    ensures ParseToken(tok, prev) == Refused(InvalidToken(tok))
  {
  }

  /** A lone dash is refused. */
  lemma LoneDashRefused(prev: int)
    ensures ParseToken("-", prev) == Refused(InvalidToken("-"))
  {
    OneDash("", "");
    assert "-" == "" + "-" + "";
  }

  /** An `-X-` token whose X is not a natural number is refused for X. */
  lemma AllNaturalsNotNatural(x: string, prev: int)
    requires x != [] && ParseNaturalNumber(x).Failure?
    ensures ParseToken("-" + x + "-", prev) == Refused(NotNaturalNumber(x))
  {
    var t := "-" + x + "-";
    assert multiset(t) == multiset{'-'} + multiset(x) + multiset{'-'};
    assert t[1..|t| - 1] == x;
  }

  /** A token without a dash that is not a natural number is refused for itself. */
  lemma NoDashNotNatural(tok: string, prev: int)
    requires tok != [] && '-' !in tok && ParseNaturalNumber(tok).Failure?
    ensures ParseToken(tok, prev) == Refused(NotNaturalNumber(tok))
  {
    assert CountChar(tok, '-') == 0;
  }

  /** A token with one dash is refused for its first side that is written and
      is not a natural number. */
  lemma OneDashNotNatural(l: string, r: string, prev: int)
    requires '-' !in l && '-' !in r
    ensures l != [] && ParseNaturalNumber(l).Failure? ==>
              ParseToken(l + "-" + r, prev) == Refused(NotNaturalNumber(l))
    ensures r != [] && ParseNaturalNumber(r).Failure? && (l == [] || ParseNaturalNumber(l).Success?) ==>
              ParseToken(l + "-" + r, prev) == Refused(NotNaturalNumber(r))
  {
    OneDash(l, r);
  }

  // ------------------------------------------- reading the tokens in order

  /** The last number and the ranges read after the first i tokens, when each of
      them adds a range; None when one of them is blank or adds none. */
  function ReadPrefix(tokens: seq<string>, i: nat): (st: Option<(int, seq<IntRange>)>)
    requires i <= |tokens|
    ensures i == 0 ==> st == Some((0, []))
    ensures st.Some? ==> |st.value.1| == i
    ensures st.Some? && i > 0 ==> st.value.0 == Hi(st.value.1[i - 1])

  {
    if i == 0 then Some((0, []))
    else
      var before := ReadPrefix(tokens, i - 1);
      if before.None? then None
      else
        var tok := TrimSpace(tokens[i - 1]);
        if tok == "" then None
        else
          var out := ParseToken(tok, before.value.0);
          if out.Append? then Some((out.next, before.value.1 + [out.range])) else None
  }

  /** A prefix one token longer that adds ranges extends the shorter one by that
      token's range. */
  lemma PrefixStep(tokens: seq<string>, i: nat)
    requires i < |tokens| && ReadPrefix(tokens, i + 1).Some?
    ensures ReadPrefix(tokens, i).Some?
    ensures var st, tok := ReadPrefix(tokens, i).value, TrimSpace(tokens[i]);
            tok != "" && ParseToken(tok, st.0).Append? &&
            ReadPrefix(tokens, i + 1).value == (ParseToken(tok, st.0).next, st.1 + [ParseToken(tok, st.0).range])
  {
  }

  /** A token that adds a range extends the prefix read before it. */
  lemma PrefixNext(tokens: seq<string>, i: nat, prev: int, acc: seq<IntRange>, r: IntRange, next: int)
    requires i < |tokens| && ReadPrefix(tokens, i) == Some((prev, acc))
    requires TrimSpace(tokens[i]) != "" && ParseToken(TrimSpace(tokens[i]), prev) == Append(r, next)
    ensures ReadPrefix(tokens, i + 1) == Some((next, acc + [r]))
  {
  }

  /** After a prefix of tokens that each add a range, reading goes on from there. */
  lemma {:induction false} PrefixResumes(tokens: seq<string>, i: nat, prev: int, acc: seq<IntRange>)
    requires i <= |tokens| && ReadPrefix(tokens, i) == Some((prev, acc))
    ensures ParseTokens(tokens, 0, 0, []) == ParseTokens(tokens, i, prev, acc)
    decreases i
  {
    if i > 0 {
      var j := i - 1;
      PrefixStep(tokens, j);
      var st := ReadPrefix(tokens, j).value;
      var out := ParseToken(TrimSpace(tokens[j]), st.0);
      assert j + 1 == i;
      assert (prev, acc) == (out.next, st.1 + [out.range]);
      PrefixResumes(tokens, j, st.0, st.1);
      ParseTokensAppends(tokens, j, st.0, st.1);
      assert ParseTokens(tokens, j, st.0, st.1) == ParseTokens(tokens, i, prev, acc);
    }
  }

  /** A token that adds a range passes reading on to the next token. */
  lemma ParseTokensAppends(tokens: seq<string>, i: nat, prev: int, acc: seq<IntRange>)
    requires i < |tokens| && TrimSpace(tokens[i]) != "" && ParseToken(TrimSpace(tokens[i]), prev).Append?
    ensures var out := ParseToken(TrimSpace(tokens[i]), prev);
            ParseTokens(tokens, i, prev, acc) == ParseTokens(tokens, i + 1, out.next, acc + [out.range])
  {
  }

  /** A `-N-` token gives every natural number, whatever the ranges read before
      it and the tokens after it. */
  lemma AllNaturalsTokenStops(tokens: seq<string>, i: nat, prev: int, acc: seq<IntRange>, d: string)
    requires i < |tokens| && d != [] && AllDigits(d) && TrimSpace(tokens[i]) == "-" + d + "-"
    ensures ParseTokens(tokens, i, prev, acc) == Success(NewAllNaturalRangeFilter())
  {
    AllNaturalsTokenMeans(d, prev);
  }

  /** A value token below the last number makes reading fail. */
  lemma DecreasingValueFails(tokens: seq<string>, i: nat, prev: int, acc: seq<IntRange>, d: string)
    requires i < |tokens| && d != [] && AllDigits(d) && TrimSpace(tokens[i]) == d && DigitsValue(d) < prev
    ensures ParseTokens(tokens, i, prev, acc) == Failure(Decreasing(DigitsValue(d), prev))
  {
    ValueTokenMeans(d, prev);
  }

  /** A refused token makes reading fail with its error. */
  lemma RefusedTokenFails(tokens: seq<string>, i: nat, prev: int, acc: seq<IntRange>)
    requires i < |tokens| && TrimSpace(tokens[i]) != "" && ParseToken(TrimSpace(tokens[i]), prev).Refused?
    ensures ParseTokens(tokens, i, prev, acc) == Failure(ParseToken(TrimSpace(tokens[i]), prev).error)
  {
  }

  /** When every token adds a range, the filter is those ranges, one per token. */
  lemma PrefixAll(tokens: seq<string>)
    requires ReadPrefix(tokens, |tokens|).Some?
    ensures ParseTokens(tokens, 0, 0, []) == Success(NaturalRangeFilter(ReadPrefix(tokens, |tokens|).value.1))
  {
    var st := ReadPrefix(tokens, |tokens|).value;
    PrefixResumes(tokens, |tokens|, st.0, st.1);
  }

  /** Reading stops at the first token that adds no range: a blank token fails
      with its position, a refused token fails with its error, and a `-N-` token
      gives every natural number, dropping the ranges read before it and never
      looking at the tokens after it. */
  lemma PrefixStops(tokens: seq<string>, i: nat)
    requires i < |tokens| && ReadPrefix(tokens, i).Some? && ReadPrefix(tokens, i + 1).None?
    ensures var prev, tok := ReadPrefix(tokens, i).value.0, TrimSpace(tokens[i]);
            ParseTokens(tokens, 0, 0, []) ==
              if tok == "" then Failure(EmptyToken(i))
              else if ParseToken(tok, prev).Refused? then Failure(ParseToken(tok, prev).error)
              else Success(NewAllNaturalRangeFilter())
  {
    var st := ReadPrefix(tokens, i).value;
    PrefixResumes(tokens, i, st.0, st.1);
    var tok := TrimSpace(tokens[i]);
    if tok != "" {
      assert ParseTokens(tokens, i, st.0, st.1) == ParseTokensStep(tokens, i, st.0, st.1, ParseToken(tok, st.0));
    }
  }

  /** Every token list is read to its end or stops at some token: i counts the
      tokens that add a range. */
  lemma {:induction false} PrefixEnds(tokens: seq<string>, j: nat) returns (i: nat)
    requires j <= |tokens| && ReadPrefix(tokens, j).Some?
    ensures j <= i <= |tokens| && ReadPrefix(tokens, i).Some?
    ensures i == |tokens| || ReadPrefix(tokens, i + 1).None?
    decreases |tokens| - j
  {
    i := j;
    if j < |tokens| {
      var next := ReadPrefix(tokens, j + 1);
      if next.Some? {
        i := PrefixEnds(tokens, j + 1);
      }
    }
  }

  // ------------------------------------------------- reading a filter text

  /** The tokens of a filter text that is neither blank nor `all`. */
  function FilterTokens(v: string): (tokens: seq<string>)
    ensures |tokens| >= 1
  {
    Split(TrimSpace(v), '_')
  }

  /** A text that is neither blank nor `all` is read as its tokens. */
  lemma FilterIsTokens(v: string)
    requires TrimSpace(v) != "" && TrimSpace(v) != "all"
    ensures ParseFilter(v) == ParseTokens(FilterTokens(v), 0, 0, [])
  {
  }

  /** A text whose tokens each add a range is the filter of those ranges, one
      per token and in their order. */
  lemma FilterReadToEnd(v: string)
    requires TrimSpace(v) != "" && TrimSpace(v) != "all"
    requires ReadPrefix(FilterTokens(v), |FilterTokens(v)|).Some?
    ensures ParseFilter(v) == Success(NaturalRangeFilter(ReadPrefix(FilterTokens(v), |FilterTokens(v)|).value.1))
    ensures |ParseFilter(v).value.Ranges| == |FilterTokens(v)|
  {
    PrefixAll(FilterTokens(v));
  }

  /** Reading a filter text goes through its tokens up to the first that adds no
      range, i counting those before it: the text is the ranges read, one per
      token, when there is no such token, and otherwise that token decides. */
  lemma FilterReading(v: string) returns (i: nat)
    requires TrimSpace(v) != "" && TrimSpace(v) != "all"
    ensures i <= |FilterTokens(v)| && ReadPrefix(FilterTokens(v), i).Some?
    ensures i < |FilterTokens(v)| ==> ReadPrefix(FilterTokens(v), i + 1).None?
    ensures var tokens, st := FilterTokens(v), ReadPrefix(FilterTokens(v), i).value;
            ParseFilter(v) ==
              if i == |tokens| then Success(NaturalRangeFilter(st.1))
              else if TrimSpace(tokens[i]) == "" then Failure(EmptyToken(i))
              else if ParseToken(TrimSpace(tokens[i]), st.0).Refused? then Failure(ParseToken(TrimSpace(tokens[i]), st.0).error)
              else Success(NewAllNaturalRangeFilter())
  {
    var tokens := FilterTokens(v);
    i := PrefixEnds(tokens, 0);
    if i == |tokens| {
      PrefixAll(tokens);
    } else {
      PrefixStops(tokens, i);
    }
  }

  /** A `-N-` token after tokens that each add a range makes the text every
      natural number, whatever was read before it and whatever follows it. */
  lemma FilterAllNaturalsToken(v: string, i: nat, d: string)
    requires TrimSpace(v) != "" && TrimSpace(v) != "all"
    requires i < |FilterTokens(v)| && ReadPrefix(FilterTokens(v), i).Some?
    requires d != [] && AllDigits(d) && TrimSpace(FilterTokens(v)[i]) == "-" + d + "-"
    ensures ParseFilter(v) == Success(NewAllNaturalRangeFilter())
  {
    var tokens := FilterTokens(v);
    AllNaturalsTokenMeans(d, ReadPrefix(tokens, i).value.0);
    PrefixStops(tokens, i);
  }

  /** A blank token after tokens that each add a range makes the text fail with
      its position. */
  lemma FilterBlankToken(v: string, i: nat)
    requires TrimSpace(v) != "" && TrimSpace(v) != "all"
    requires i < |FilterTokens(v)| && ReadPrefix(FilterTokens(v), i).Some?
    requires TrimSpace(FilterTokens(v)[i]) == ""
    ensures ParseFilter(v) == Failure(EmptyToken(i))
  {
    PrefixStops(FilterTokens(v), i);
  }

  /** A refused token after tokens that each add a range makes the text fail
      with that token's error: among them a number below the last one read. */
  lemma FilterRefusedToken(v: string, i: nat)
    requires TrimSpace(v) != "" && TrimSpace(v) != "all"
    requires i < |FilterTokens(v)| && ReadPrefix(FilterTokens(v), i).Some?
    requires TrimSpace(FilterTokens(v)[i]) != ""
    requires ParseToken(TrimSpace(FilterTokens(v)[i]), ReadPrefix(FilterTokens(v), i).value.0).Refused?
    ensures ParseFilter(v) == Failure(ParseToken(TrimSpace(FilterTokens(v)[i]), ReadPrefix(FilterTokens(v), i).value.0).error)
  {
    PrefixStops(FilterTokens(v), i);
  }

  /** A value token below the number of the range before it makes the text fail. */
  lemma FilterDecreasingValue(v: string, i: nat, d: string)
    requires TrimSpace(v) != "" && TrimSpace(v) != "all"
    requires 0 < i < |FilterTokens(v)| && ReadPrefix(FilterTokens(v), i).Some?
    requires d != [] && AllDigits(d) && TrimSpace(FilterTokens(v)[i]) == d
    requires DigitsValue(d) < Hi(ReadPrefix(FilterTokens(v), i).value.1[i - 1])
    ensures ParseFilter(v) == Failure(Decreasing(DigitsValue(d), Hi(ReadPrefix(FilterTokens(v), i).value.1[i - 1])))
  {
    ValueTokenMeans(d, ReadPrefix(FilterTokens(v), i).value.0);
    FilterRefusedToken(v, i);
  }

  // ------------------------------------------------------------------ queries

  /** Test: n is natural and lies in some range. */
  method Test(f: NaturalRangeFilter, n: int) returns (accepted: bool)
    ensures accepted <==> Accepts(f, n)
  {
    if n < 0 {
      return false;
    }
    for i := 0 to |f.Ranges|
      invariant forall k :: 0 <= k < i ==> !Contains(f.Ranges[k], n)
    {
      if Contains(f.Ranges[i], n) {
        return true;
      }
    }
    return false;
  }

  /** Some range meets the natural half-line [0, +inf). */
  method IsNotEmpty(f: NaturalRangeFilter) returns (notEmpty: bool)
    ensures notEmpty <==> exists n :: Accepts(f, n)
  {
    if |f.Ranges| == 0 {
      return false;
    }
    var greaterOrEqualThanZero := NewGreaterOrEqualThanIntRange(0);
    for i := 0 to |f.Ranges|
      invariant forall k :: 0 <= k < i ==> !HasIntesect(f.Ranges[k], greaterOrEqualThanZero)
    {
      if HasIntesect(f.Ranges[i], greaterOrEqualThanZero) {
        ghost var n :| Contains(f.Ranges[i], n) && Contains(greaterOrEqualThanZero, n);
        assert Accepts(f, n);
        return true;
      }
    }
    MeetsNaturals(f);
    return false;
  }

  /** A filter accepts some number exactly when one of its ranges meets [0, +inf). */
  lemma MeetsNaturals(f: NaturalRangeFilter)
    ensures (exists k :: 0 <= k < |f.Ranges| && HasIntesect(f.Ranges[k], NewGreaterOrEqualThanIntRange(0)))
        <==> exists n :: Accepts(f, n)
  {
    var g := NewGreaterOrEqualThanIntRange(0);
    if exists n :: Accepts(f, n) {
      var n :| Accepts(f, n);
      var r :| r in f.Ranges && Contains(r, n);
      var k :| 0 <= k < |f.Ranges| && f.Ranges[k] == r;
      assert Contains(g, n);
      assert HasIntesect(f.Ranges[k], g);
    }
    if exists k :: 0 <= k < |f.Ranges| && HasIntesect(f.Ranges[k], g) {
      var k :| 0 <= k < |f.Ranges| && HasIntesect(f.Ranges[k], g);
      var n :| Contains(f.Ranges[k], n) && Contains(g, n);
      assert Accepts(f, n);
    }
  }

  lemma InUnionConcat(a: seq<IntRange>, b: seq<IntRange>, n: int)
    ensures InUnion(a + b, n) <==> InUnion(a, n) || InUnion(b, n)
  {
    if InUnion(a + b, n) {
      var p :| p in a + b && Contains(p, n);
      if p in a { assert InUnion(a, n); } else { assert InUnion(b, n); }
    }
    if InUnion(a, n) {
      var p :| p in a && Contains(p, n);
      assert p in a + b;
    }
    if InUnion(b, n) {
      var p :| p in b && Contains(p, n);
      assert p in a + b;
    }
  }

  lemma InUnionSingle(p: IntRange, n: int)
    ensures InUnion([p], n) <==> Contains(p, n)
  {
    if Contains(p, n) {
      assert p in [p];
    }
  }

  /** Whether the filter accepts every natural number. The natural numbers not yet
      covered are kept as a list of valid ranges in one of two alternating
      buffers; each range of the filter is subtracted from every piece. */
  method IsAllNatural(f: NaturalRangeFilter) returns (all: bool)
    ensures all <==> forall n :: n >= 0 ==> Accepts(f, n)
  {
    if |f.Ranges| == 0 {
      assert !Accepts(f, 0);
      return false;
    }
    var leftRangesCollection := new seq<IntRange>[2];
    leftRangesCollection[0] := [NewGreaterOrEqualThanIntRange(0)];
    leftRangesCollection[1] := [];
    var leftRangesIndex := 0;
    forall n ensures InUnion(leftRangesCollection[0], n) <==> n >= 0 && !InUnion(f.Ranges[..0], n) {
      InUnionSingle(NewGreaterOrEqualThanIntRange(0), n);
    }
    for i := 0 to |f.Ranges|
      invariant leftRangesIndex == 0 || leftRangesIndex == 1
      invariant leftRangesCollection[leftRangesIndex] != []
      invariant forall p :: p in leftRangesCollection[leftRangesIndex] ==> IsValid(p)
      invariant forall n :: InUnion(leftRangesCollection[leftRangesIndex], n) <==> n >= 0 && !InUnion(f.Ranges[..i], n)
    {
      var r := f.Ranges[i];
      var src := leftRangesCollection[leftRangesIndex];
      var tgtIndex := 1 - leftRangesIndex;  // the other buffer
      leftRangesCollection[tgtIndex] := [];
      for j := 0 to |src|
        invariant leftRangesCollection[leftRangesIndex] == src
        invariant forall p :: p in leftRangesCollection[tgtIndex] ==> IsValid(p)
        invariant forall n :: InUnion(leftRangesCollection[tgtIndex], n) <==> InUnion(src[..j], n) && !Contains(r, n)
      {
        var newLeftRanges := Substract(src[j], r);
        ghost var before := leftRangesCollection[tgtIndex];
        for k := 0 to |newLeftRanges|
          invariant leftRangesCollection[leftRangesIndex] == src
          invariant forall p :: p in leftRangesCollection[tgtIndex] ==> IsValid(p)
          invariant forall n :: InUnion(leftRangesCollection[tgtIndex], n) <==> InUnion(before, n) || InUnion(newLeftRanges[..k], n)
        {
          ghost var cur := leftRangesCollection[tgtIndex];
          if IsValid(newLeftRanges[k]) {
            leftRangesCollection[tgtIndex] := leftRangesCollection[tgtIndex] + [newLeftRanges[k]];
          }
          forall n ensures InUnion(leftRangesCollection[tgtIndex], n) <==> InUnion(before, n) || InUnion(newLeftRanges[..k + 1], n) {
            assert newLeftRanges[..k + 1] == newLeftRanges[..k] + [newLeftRanges[k]];
            InUnionConcat(newLeftRanges[..k], [newLeftRanges[k]], n);
            InUnionSingle(newLeftRanges[k], n);
            InUnionConcat(cur, [newLeftRanges[k]], n);
          }
        }
        assert newLeftRanges[..|newLeftRanges|] == newLeftRanges;
        forall n ensures InUnion(leftRangesCollection[tgtIndex], n) <==> InUnion(src[..j + 1], n) && !Contains(r, n) {
          assert src[..j + 1] == src[..j] + [src[j]];
          InUnionConcat(src[..j], [src[j]], n);
          InUnionSingle(src[j], n);
        }
      }
      assert src[..|src|] == src;
      forall n ensures InUnion(leftRangesCollection[tgtIndex], n) <==> n >= 0 && !InUnion(f.Ranges[..i + 1], n) {
        assert f.Ranges[..i + 1] == f.Ranges[..i] + [r];
        InUnionConcat(f.Ranges[..i], [r], n);
        InUnionSingle(r, n);
      }
      if |leftRangesCollection[tgtIndex]| == 0 {
        forall n | n >= 0 ensures Accepts(f, n) {
          assert !InUnion(leftRangesCollection[tgtIndex], n);
          PrefixUnion(f.Ranges, i + 1, n);
        }
        return true;
      }
      leftRangesIndex := tgtIndex;
    }
    var left := leftRangesCollection[leftRangesIndex];
    var w := Witness(left[0]);
    assert left[0] in left;
    assert InUnion(left, w);
    assert f.Ranges[..|f.Ranges|] == f.Ranges;
    assert !Accepts(f, w);
    return false;
  }

  lemma PrefixUnion(rs: seq<IntRange>, i: nat, n: int)
    requires i <= |rs|
    ensures InUnion(rs[..i], n) ==> InUnion(rs, n)
  {
    if InUnion(rs[..i], n) {
      var p :| p in rs[..i] && Contains(p, n);
      assert p in rs;
    }
  }
}
