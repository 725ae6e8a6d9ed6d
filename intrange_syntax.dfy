/**
  The textual forms of an IntRange: the parser (`N`, `=N`, `>N`, `>=N`, `<N`,
  `<=N`, and the interval forms `(a,b)`, `[a,b]`, `( ,b]`, ...) and the two
  printers, the human one with infinity signs and the parseable one.
 */
module IntRangeSyntax {
  import opened Wrappers
  import opened Text
  import opened IntRanges

  /** Why a range text is refused; one kind per error return of the parser. */
  datatype RangeError =
    | EmptyRange               // "" and empty-as-unbounded not asked
    | InvalidOperand(op: string) // the integer after =, >=, >, <=, < is missing or not an integer
    | InvalidIntervalSyntax    // no comma between the brackets
    | LeftInfiniteClosed       // "[" with an empty left side
    | InvalidLeftInteger
    | RightInfiniteClosed      // "]" with an empty right side
    | InvalidRightInteger
    | MinAboveMax
    | EmptyEqualBounds         // equal ends that are not both inclusive
    | Unrecognized

  /** The ranges the parser can produce: unbounded ends are open and carry 0, and
      two bounded ends are ordered, equal ends being both inclusive. */
  predicate WellFormed(r: IntRange) {
    && (r.MinUnbounded ==> !r.MinInclude && r.Min == 0)
    && (r.MaxUnbounded ==> !r.MaxInclude && r.Max == 0)
    && (!r.MinUnbounded && !r.MaxUnbounded ==>
          r.Min < r.Max || (r.Min == r.Max && r.MinInclude && r.MaxInclude))
  }

  /** The integer after a prefix operator: trimmed, and refused when empty. */
  function ParseInt(tok: string): (n: Option<int>)
    ensures n == Atoi(TrimSpace(tok))
  {
    var t := TrimSpace(tok);
    if t == "" then None else Atoi(t)
  }

  /** Reads a range. The empty text is special (decided before trimming); the rest
      is trimmed and read by ParseTrimmed. */
  function NewIntRange(value: string, emptyAsUnbounded: bool): (r: Result<IntRange, RangeError>)
    ensures value == "" ==>
              r == if emptyAsUnbounded then Success(NewUnboundedIntRange()) else Failure(EmptyRange)
    ensures r.Success? ==> WellFormed(r.value)
  {
    if value == "" then
      if emptyAsUnbounded then Success(NewUnboundedIntRange()) else Failure(EmptyRange)
    else
      ParseTrimmed(TrimSpace(value))
  }

  /** The prefix operators are tried in the order =, >=, >, <=, <; then the
      interval form; then a plain integer. */
  function ParseTrimmed(s: string): (r: Result<IntRange, RangeError>)
    ensures r.Success? ==> WellFormed(r.value)
  {
    if |s| >= 1 && s[0] == '=' then
      match ParseInt(s[1..])
      case None => Failure(InvalidOperand("="))
      case Some(n) => Success(NewSingleValueIntRange(n))
    else if |s| >= 2 && s[0] == '>' && s[1] == '=' then
      match ParseInt(s[2..])
      case None => Failure(InvalidOperand(">="))
      case Some(n) => Success(NewGreaterOrEqualThanIntRange(n))
    else if |s| >= 1 && s[0] == '>' then
      match ParseInt(s[1..])
      case None => Failure(InvalidOperand(">"))
      case Some(n) => Success(NewGreaterThanIntRange(n))
    else if |s| >= 2 && s[0] == '<' && s[1] == '=' then
      match ParseInt(s[2..])
      case None => Failure(InvalidOperand("<="))
      case Some(n) => Success(NewLessOrEqualThanIntRange(n))
    else if |s| >= 1 && s[0] == '<' then
      match ParseInt(s[1..])
      case None => Failure(InvalidOperand("<"))
      case Some(n) => Success(NewLessThanIntRange(n))
    else if |s| >= 2 && (s[0] == '(' || s[0] == '[') && (s[|s| - 1] == ')' || s[|s| - 1] == ']') then
      ParseInterval(s)
    else
      match Atoi(s)
      case Some(n) => Success(NewSingleValueIntRange(n))
      case None => Failure(Unrecognized)
  }

  /** Whether empty text counts as unbounded matters only for the empty text. */
  lemma EmptyFlagOnlyForEmpty(value: string, b: bool)
    requires value != ""
    ensures NewIntRange(value, b) == NewIntRange(value, !b) == ParseTrimmed(TrimSpace(value))
  {
  }

  /** The interval form: brackets give the inclusivity, the inner text is trimmed
      and split at its first comma. */
  function ParseInterval(s: string): (r: Result<IntRange, RangeError>)
    requires |s| >= 2
    ensures r.Success? ==> WellFormed(r.value)
    ensures r.Success? ==> (r.value.MinInclude <==> s[0] == '[' && !r.value.MinUnbounded)
    ensures r.Success? ==> (r.value.MaxInclude <==> s[|s| - 1] == ']' && !r.value.MaxUnbounded)
  {
    ParseSides(s[0] == '[', s[|s| - 1] == ']', TrimSpace(s[1..|s| - 1]))
  }

  function ParseSides(leftInclusive: bool, rightInclusive: bool, inner: string): (r: Result<IntRange, RangeError>)
    ensures r.Success? ==> WellFormed(r.value)
    ensures r.Success? ==> (r.value.MinInclude <==> leftInclusive && !r.value.MinUnbounded)
    ensures r.Success? ==> (r.value.MaxInclude <==> rightInclusive && !r.value.MaxUnbounded)
  {
    var i := IndexOf(inner, ',');
    if i == -1 then Failure(InvalidIntervalSyntax)
    else BuildInterval(leftInclusive, rightInclusive, TrimSpace(inner[..i]), TrimSpace(inner[i + 1..]))
  }

  /** An empty side is unbounded and must be open; two bounded sides must be
      ordered, and equal only when both are inclusive. */
  function BuildInterval(leftInclusive: bool, rightInclusive: bool, left: string, right: string): (r: Result<IntRange, RangeError>)
    ensures r.Success? ==> WellFormed(r.value)
    ensures r.Success? ==> (r.value.MinInclude <==> leftInclusive && !r.value.MinUnbounded)
    ensures r.Success? ==> (r.value.MaxInclude <==> rightInclusive && !r.value.MaxUnbounded)
    ensures r.Success? ==> (r.value.MinUnbounded <==> left == "") && (r.value.MaxUnbounded <==> right == "")
  {
    if left == "" && leftInclusive then Failure(LeftInfiniteClosed)
    else if left != "" && Atoi(left).None? then Failure(InvalidLeftInteger)
    else if right == "" && rightInclusive then Failure(RightInfiniteClosed)
    else if right != "" && Atoi(right).None? then Failure(InvalidRightInteger)
    else
      var r := IntRange(
        if left == "" then 0 else Atoi(left).value, left != "" && leftInclusive,
        if right == "" then 0 else Atoi(right).value, right != "" && rightInclusive,
        left == "", right == "");
      if !r.MinUnbounded && !r.MaxUnbounded && r.Min > r.Max then Failure(MinAboveMax)
      else if !r.MinUnbounded && !r.MaxUnbounded && r.Min == r.Max && (!r.MinInclude || !r.MaxInclude) then
        Failure(EmptyEqualBounds)
      else Success(r)
  }

  // ---------------------------------------------------------------- printing

  const Infinity: string := "\U{221E}"

  /** Single integers print as `N`, one-sided ranges in operator form, the rest in
      interval form, where an unbounded side prints as an infinity sign or as
      nothing. */
  function Format(r: IntRange, showInfty: bool): string {
    if IsSingleValue(r) then Itoa(r.Min)
    else if r.MinUnbounded && !r.MaxUnbounded then
      (if r.MaxInclude then "<=" else "<") + Itoa(r.Max)
    else if r.MaxUnbounded && !r.MinUnbounded then
      (if r.MinInclude then ">=" else ">") + Itoa(r.Min)
    else
      var leftB := if r.MinInclude then "[" else "(";
      var rightB := if r.MaxInclude then "]" else ")";
      var leftStr := if r.MinUnbounded then (if showInfty then "-" + Infinity else "") else Itoa(r.Min);
      var rightStr := if r.MaxUnbounded then (if showInfty then Infinity else "") else Itoa(r.Max);
      leftB + leftStr + "," + rightStr + rightB
  }

  /** The human form: differs from the parseable one only for a range unbounded on
      both sides, and only that form shows an infinity sign. */
  function String(r: IntRange): (s: string)
    ensures !r.MinUnbounded || !r.MaxUnbounded ==> s == ToParseableString(r)
    ensures '\U{221E}' in s <==> r.MinUnbounded && r.MaxUnbounded
  {
    var s := Format(r, true);
    NoInfinityInDigits(r);
    s
  }

  lemma NoInfinityInDigits(r: IntRange)
    ensures '\U{221E}' !in Itoa(r.Min) && '\U{221E}' !in Itoa(r.Max)
  {
    ItoaChars(r.Min);
    ItoaChars(r.Max);
  }

  /** The form the parser reads back: every printable range survives the trip,
      up to the values stored on its unbounded sides, which are not printed. */
  function ToParseableString(r: IntRange): (s: string)
    ensures s != ""
    ensures Printable(r) ==>
              NewIntRange(s, false) == Success(ZeroUnbounded(r)) && NewIntRange(s, true) == Success(ZeroUnbounded(r))
  {
    var s := Format(r, false);
    ParseableRoundTrip(r);
    s
  }

  /** The ranges whose parseable text means them: WellFormed, except that an
      unbounded side may store any value. */
  predicate Printable(r: IntRange) {
    && (r.MinUnbounded ==> !r.MinInclude)
    && (r.MaxUnbounded ==> !r.MaxInclude)
    && (!r.MinUnbounded && !r.MaxUnbounded ==>
          r.Min < r.Max || (r.Min == r.Max && r.MinInclude && r.MaxInclude))
  }

  /** The range with 0 stored on its unbounded sides, as the parser stores it. */
  function ZeroUnbounded(r: IntRange): IntRange {
    r.(Min := if r.MinUnbounded then 0 else r.Min, Max := if r.MaxUnbounded then 0 else r.Max)
  }

  /** The stored values of unbounded sides are not printed, and zeroing them
      makes a printable range well-formed. */
  lemma ZeroUnboundedFormat(r: IntRange, showInfty: bool)
    requires Printable(r)
    ensures WellFormed(ZeroUnbounded(r))
    ensures Format(ZeroUnbounded(r), showInfty) == Format(r, showInfty)
  {
  }

  // ------------------------------------------------------------ round trip

  /** t is the text of the integer n as the parser sees it: no surrounding space,
      no operator or bracket in front, no comma, and Atoi reads n. */
  predicate DecimalText(t: string, n: int) {
    && t != [] && !IsSpace(t[0]) && !IsSpace(t[|t| - 1])
    && t[0] != '=' && t[0] != '>' && t[0] != '<' && t[0] != '(' && t[0] != '['
    && ',' !in t
    && Atoi(t) == Some(n)
  }

  /** One side of an interval text: empty for an unbounded side. */
  predicate SideText(t: string, v: Option<int>) {
    if v.None? then t == [] else DecimalText(t, v.value)
  }

  lemma ItoaShape(n: int)
    ensures DecimalText(Itoa(n), n)
  {
    ItoaChars(n);
    AtoiItoa(n);
  }

  lemma DecimalTrim(t: string, n: int)
    requires DecimalText(t, n)
    ensures TrimSpace(t) == t && ParseInt(t) == Some(n)
  {
    TrimSpaceUnchanged(t);
  }

  /** An operator in front of a decimal text: nothing to trim, and the operand reads back. */
  lemma PrefixedText(op: string, t: string, n: int)
    requires op != [] && !IsSpace(op[0]) && DecimalText(t, n)
    ensures TrimSpace(op + t) == op + t
    ensures (op + t)[0] == op[0] && (op + t)[|op|..] == t && ParseInt(t) == Some(n)
    ensures |op + t| > |op| && (op + t)[|op|] == t[0]
  {
    DecimalTrim(t, n);
    var e := op + t;
    assert e[|e| - 1] == t[|t| - 1];
    TrimSpaceUnchanged(e);
    assert e[|op|..] == t;
  }

  lemma ParsePlain(t: string, n: int, b: bool)
    requires DecimalText(t, n)
    ensures NewIntRange(t, b) == Success(NewSingleValueIntRange(n))
  {
    DecimalTrim(t, n);
  }

  lemma ParseExact(t: string, n: int, b: bool)
    requires DecimalText(t, n)
    ensures NewIntRange("=" + t, b) == Success(NewSingleValueIntRange(n))
  {
    PrefixedText("=", t, n);
  }

  lemma ParseGreaterOrEqual(t: string, n: int, b: bool)
    requires DecimalText(t, n)
    ensures NewIntRange(">=" + t, b) == Success(NewGreaterOrEqualThanIntRange(n))
  {
    PrefixedText(">=", t, n);
    assert (">=" + t)[1] == '=';
  }

  lemma ParseGreater(t: string, n: int, b: bool)
    requires DecimalText(t, n)
    ensures NewIntRange(">" + t, b) == Success(NewGreaterThanIntRange(n))
  {
    var s := ">" + t;
    PrefixedText(">", t, n);
    assert s[1..] == t && s[1] != '=';
    assert ParseTrimmed(s) == Success(NewGreaterThanIntRange(n));
  }

  lemma ParseLessOrEqual(t: string, n: int, b: bool)
    requires DecimalText(t, n)
    ensures NewIntRange("<=" + t, b) == Success(NewLessOrEqualThanIntRange(n))
  {
    PrefixedText("<=", t, n);
    assert ("<=" + t)[1] == '=';
  }

  lemma ParseLess(t: string, n: int, b: bool)
    requires DecimalText(t, n)
    ensures NewIntRange("<" + t, b) == Success(NewLessThanIntRange(n))
  {
    var s := "<" + t;
    PrefixedText("<", t, n);
    assert s[1..] == t && s[1] != '=';
    assert ParseTrimmed(s) == Success(NewLessThanIntRange(n));
  }

  /** An interval text needs no trimming and is read by ParseSides on its inner text. */
  lemma IntervalOuter(lb: char, body: string, rb: char)
    requires lb == '(' || lb == '['
    requires rb == ')' || rb == ']'
    requires body != [] && !IsSpace(body[0]) && !IsSpace(body[|body| - 1])
    ensures var s := [lb] + body + [rb];
            NewIntRange(s, false) == ParseSides(lb == '[', rb == ']', body)
  {
    var s := [lb] + body + [rb];
    assert s[1..|s| - 1] == body;
    assert s[0] == lb && s[|s| - 1] == rb;
    TrimSpaceUnchanged(s);
    TrimSpaceUnchanged(body);
    IntervalDispatch(s);
  }

  lemma IntervalDispatch(s: string)
    requires |s| >= 2 && (s[0] == '(' || s[0] == '[') && (s[|s| - 1] == ')' || s[|s| - 1] == ']')
    ensures ParseTrimmed(s) == ParseInterval(s)
  {
  }

  /** The inner text of an interval splits at its comma into its two sides. */
  lemma IntervalInner(li: bool, ri: bool, ls: string, lo: Option<int>, rs: string, hi: Option<int>)
    requires SideText(ls, lo) && SideText(rs, hi)
    ensures var body := ls + "," + rs;
            && body != [] && !IsSpace(body[0]) && !IsSpace(body[|body| - 1])
            && ParseSides(li, ri, body) == BuildInterval(li, ri, ls, rs)
  {
    var body := ls + "," + rs;
    if ls != [] { assert body[0] == ls[0]; } else { assert body[0] == ','; }
    if rs != [] { assert body[|body| - 1] == rs[|rs| - 1]; } else { assert body[|body| - 1] == ','; }
    assert body[..|ls|] == ls;
    IndexOfFirst(body, ',', |ls|);
    assert body[|ls| + 1..] == rs;
    TrimSpaceUnchanged(ls);
    TrimSpaceUnchanged(rs);
  }

  /** What BuildInterval makes of two well-formed sides. */
  lemma IntervalReading(li: bool, ri: bool, ls: string, lo: Option<int>, rs: string, hi: Option<int>)
    requires SideText(ls, lo) && SideText(rs, hi)
    ensures BuildInterval(li, ri, ls, rs) ==
              if lo.None? && li then Failure(LeftInfiniteClosed)
              else if hi.None? && ri then Failure(RightInfiniteClosed)
              else if lo.Some? && hi.Some? && lo.value > hi.value then Failure(MinAboveMax)
              else if lo.Some? && hi.Some? && lo.value == hi.value && (!li || !ri) then
                Failure(EmptyEqualBounds)
              else Success(IntRange(if lo.None? then 0 else lo.value, lo.Some? && li,
                                    if hi.None? then 0 else hi.value, hi.Some? && ri,
                                    lo.None?, hi.None?))
  {
  }

  /** An interval text made of two well-formed sides reads as BuildInterval says. */
  lemma IntervalText(lb: char, ls: string, lo: Option<int>, rs: string, hi: Option<int>, rb: char)
    requires lb == '(' || lb == '['
    requires rb == ')' || rb == ']'
    requires SideText(ls, lo) && SideText(rs, hi)
    ensures NewIntRange([lb] + (ls + "," + rs) + [rb], false) == BuildInterval(lb == '[', rb == ']', ls, rs)
  {
    var body := ls + "," + rs;
    IntervalInner(lb == '[', rb == ']', ls, lo, rs, hi);
    IntervalOuter(lb, body, rb);
  }

  /** The parseable text of a printable range is read back as that range with
      0 on its unbounded sides; a well-formed range comes back unchanged. */
  lemma ParseableRoundTrip(r: IntRange)
    ensures Printable(r) ==> NewIntRange(Format(r, false), false) == Success(ZeroUnbounded(r))
    ensures WellFormed(r) ==> ZeroUnbounded(r) == r
  {
    if Printable(r) {
      ZeroUnboundedFormat(r, false);
      WellFormedRoundTrip(ZeroUnbounded(r));
    }
  }

  lemma WellFormedRoundTrip(r: IntRange)
    requires WellFormed(r)
    ensures NewIntRange(Format(r, false), false) == Success(r)
  {
    if IsSingleValue(r) {
      ItoaShape(r.Min);
      ParsePlain(Itoa(r.Min), r.Min, false);
    } else if r.MinUnbounded && !r.MaxUnbounded {
      ItoaShape(r.Max);
      if r.MaxInclude {
        ParseLessOrEqual(Itoa(r.Max), r.Max, false);
      } else {
        ParseLess(Itoa(r.Max), r.Max, false);
      }
    } else if r.MaxUnbounded && !r.MinUnbounded {
      ItoaShape(r.Min);
      if r.MinInclude {
        ParseGreaterOrEqual(Itoa(r.Min), r.Min, false);
      } else {
        ParseGreater(Itoa(r.Min), r.Min, false);
      }
    } else {
      IntervalRoundTrip(r);
    }
  }

  lemma IntervalRoundTrip(r: IntRange)
    requires WellFormed(r) && !IsSingleValue(r)
    requires r.MinUnbounded == r.MaxUnbounded
    ensures NewIntRange(Format(r, false), false) == Success(r)
  {
    var lb := if r.MinInclude then '[' else '(';
    var rb := if r.MaxInclude then ']' else ')';
    var lo: Option<int> := if r.MinUnbounded then None else Some(r.Min);
    var hi: Option<int> := if r.MaxUnbounded then None else Some(r.Max);
    var ls := if r.MinUnbounded then "" else Itoa(r.Min);
    var rs := if r.MaxUnbounded then "" else Itoa(r.Max);
    ItoaShape(r.Min);
    ItoaShape(r.Max);
    IntervalFormat(r);
    IntervalText(lb, ls, lo, rs, hi, rb);
    IntervalReading(lb == '[', rb == ']', ls, lo, rs, hi);
  }

  lemma Bracketed(lb: char, ls: string, rs: string, rb: char)
    ensures [lb] + ls + "," + rs + [rb] == [lb] + (ls + "," + rs) + [rb]
  {
  }

  /** The interval form of a range: brackets around the two sides and a comma. */
  lemma IntervalFormat(r: IntRange)
    requires !IsSingleValue(r) && r.MinUnbounded == r.MaxUnbounded
    ensures Format(r, false)
            == [if r.MinInclude then '[' else '(']
               + ((if r.MinUnbounded then "" else Itoa(r.Min)) + "," + (if r.MaxUnbounded then "" else Itoa(r.Max)))
               + [if r.MaxInclude then ']' else ')']
  {
    var lb := if r.MinInclude then '[' else '(';
    var rb := if r.MaxInclude then ']' else ')';
    var ls := if r.MinUnbounded then "" else Itoa(r.Min);
    var rs := if r.MaxUnbounded then "" else Itoa(r.Max);
    var leftB := if r.MinInclude then "[" else "(";
    var rightB := if r.MaxInclude then "]" else ")";
    assert leftB == [lb] && rightB == [rb];
    assert Format(r, false) == leftB + ls + "," + rs + rightB;
    Bracketed(lb, ls, rs, rb);
  }

  // -------------------------------------------------------- parser behaviour

  /** A decimal integer alone, or after `=`, reads as the range of that integer. */
  lemma ParseSingle(n: int, b: bool)
    ensures NewIntRange(Itoa(n), b) == Success(NewSingleValueIntRange(n))
    ensures NewIntRange("=" + Itoa(n), b) == Success(NewSingleValueIntRange(n))
  {
    ItoaShape(n);
    ParsePlain(Itoa(n), n, b);
    ParseExact(Itoa(n), n, b);
  }

  /** The one-sided operators read as their half-lines. */
  lemma ParseOperators(n: int, b: bool)
    ensures NewIntRange(">=" + Itoa(n), b) == Success(NewGreaterOrEqualThanIntRange(n))
    ensures NewIntRange(">" + Itoa(n), b) == Success(NewGreaterThanIntRange(n))
    ensures NewIntRange("<=" + Itoa(n), b) == Success(NewLessOrEqualThanIntRange(n))
    ensures NewIntRange("<" + Itoa(n), b) == Success(NewLessThanIntRange(n))
  {
    ItoaShape(n);
    ParseGreaterOrEqual(Itoa(n), n, b);
    ParseGreater(Itoa(n), n, b);
    ParseLessOrEqual(Itoa(n), n, b);
    ParseLess(Itoa(n), n, b);
  }

  /** An interval text given as a whole reads as BuildInterval says. */
  lemma IntervalTextIs(t: string, lb: char, ls: string, lo: Option<int>, rs: string, hi: Option<int>, rb: char)
    requires lb == '(' || lb == '['
    requires rb == ')' || rb == ']'
    requires SideText(ls, lo) && SideText(rs, hi)
    requires t == [lb] + ls + "," + rs + [rb]
    ensures NewIntRange(t, false) == BuildInterval(lb == '[', rb == ']', ls, rs)
  {
    assert t == [lb] + (ls + "," + rs) + [rb];
    IntervalText(lb, ls, lo, rs, hi, rb);
  }

  /** The consistency check looks at the bounds only: an open interval between two
      adjacent integers is accepted although it holds no integer. */
  lemma ParseAcceptsAdjacentOpenInterval(n: int)
    ensures NewIntRange("(" + Itoa(n) + "," + Itoa(n + 1) + ")", false)
            == Success(NewExclusiveIntRange(n, n + 1))
    ensures !IsValid(NewExclusiveIntRange(n, n + 1))
  {
    ItoaShape(n);
    ItoaShape(n + 1);
    IntervalTextIs("(" + Itoa(n) + "," + Itoa(n + 1) + ")", '(', Itoa(n), Some(n), Itoa(n + 1), Some(n + 1), ')');
    IntervalReading(false, false, Itoa(n), Some(n), Itoa(n + 1), Some(n + 1));
  }

  /** Equal bounds that are not both inclusive, and reversed bounds, are refused,
      whatever the brackets. */
  lemma ParseRefusesEmptyIntervals(lb: char, rb: char, n: int, m: int)
    requires lb == '(' || lb == '['
    requires rb == ')' || rb == ']'
    requires n > m
    ensures lb == '(' || rb == ')' ==>
              NewIntRange([lb] + Itoa(n) + "," + Itoa(n) + [rb], false) == Failure(EmptyEqualBounds)
    ensures NewIntRange([lb] + Itoa(n) + "," + Itoa(m) + [rb], false) == Failure(MinAboveMax)
  {
    ItoaShape(n);
    ItoaShape(m);
    IntervalTextIs([lb] + Itoa(n) + "," + Itoa(n) + [rb], lb, Itoa(n), Some(n), Itoa(n), Some(n), rb);
    IntervalReading(lb == '[', rb == ']', Itoa(n), Some(n), Itoa(n), Some(n));
    IntervalTextIs([lb] + Itoa(n) + "," + Itoa(m) + [rb], lb, Itoa(n), Some(n), Itoa(m), Some(m), rb);
    IntervalReading(lb == '[', rb == ']', Itoa(n), Some(n), Itoa(m), Some(m));
  }

  /** A closed bracket on an empty side is refused, on either side. */
  lemma ParseRefusesClosedInfinity(n: int)
    ensures NewIntRange("[," + Itoa(n) + ")", false) == Failure(LeftInfiniteClosed)
    ensures NewIntRange("(" + Itoa(n) + ",]", false) == Failure(RightInfiniteClosed)
  {
    ItoaShape(n);
    LeftClosedInfinity(n);
    RightClosedInfinity(n);
  }

  lemma LeftClosedInfinity(n: int)
    requires DecimalText(Itoa(n), n)
    ensures NewIntRange("[," + Itoa(n) + ")", false) == Failure(LeftInfiniteClosed)
  {
    var t := "[," + Itoa(n) + ")";
    assert t == ['['] + "" + "," + Itoa(n) + [')'];
    IntervalTextIs(t, '[', "", None, Itoa(n), Some(n), ')');
    IntervalReading(true, false, "", None, Itoa(n), Some(n));
  }

  lemma RightClosedInfinity(n: int)
    requires DecimalText(Itoa(n), n)
    ensures NewIntRange("(" + Itoa(n) + ",]", false) == Failure(RightInfiniteClosed)
  {
    var t := "(" + Itoa(n) + ",]";
    assert t == ['('] + Itoa(n) + "," + "" + [']'];
    IntervalTextIs(t, '(', Itoa(n), Some(n), "", None, ']');
    IntervalReading(false, true, Itoa(n), Some(n), "", None);
  }
}
