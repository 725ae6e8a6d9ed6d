/**
  The integer interval of the binder (a value type): each end is bounded or
  unbounded, inclusive or exclusive. An invalid range is the empty set: every
  query below answers as for the empty set.
 */
module IntRanges {
  import opened Wrappers

  datatype IntRange = IntRange(
    Min: int,
    MinInclude: bool,
    Max: int,
    MaxInclude: bool,
    MinUnbounded: bool,  // the lower end is -infinity
    MaxUnbounded: bool   // the upper end is +infinity
  )

  // ------------------------------------------------------ named constructors

  function NewUnboundedIntRange(): (r: IntRange)
    ensures IsValid(r) && forall n :: Contains(r, n)
  {
    IntRange(0, false, 0, false, true, true)
  }

  function NewSingleValueIntRange(v: int): (r: IntRange)
    ensures forall n :: Contains(r, n) <==> n == v
  {
    IntRange(v, true, v, true, false, false)
  }

  function NewGreaterThanIntRange(v: int): (r: IntRange)
    ensures forall n :: Contains(r, n) <==> n > v
  {
    IntRange(v, false, 0, false, false, true)
  }

  function NewGreaterOrEqualThanIntRange(v: int): (r: IntRange)
    ensures forall n :: Contains(r, n) <==> n >= v
  {
    IntRange(v, true, 0, false, false, true)
  }

  function NewLessThanIntRange(v: int): (r: IntRange)
    ensures forall n :: Contains(r, n) <==> n < v
  {
    IntRange(0, false, v, false, true, false)
  }

  function NewLessOrEqualThanIntRange(v: int): (r: IntRange)
    ensures forall n :: Contains(r, n) <==> n <= v
  {
    IntRange(0, false, v, true, true, false)
  }

  function NewInclusiveIntRange(lo: int, hi: int): (r: IntRange)
    ensures forall n :: Contains(r, n) <==> lo <= n <= hi
  {
    IntRange(lo, true, hi, true, false, false)
  }

  function NewExclusiveIntRange(lo: int, hi: int): (r: IntRange)
    ensures forall n :: Contains(r, n) <==> lo < n < hi
  {
    IntRange(lo, false, hi, false, false, false)
  }

  function NewBoundedIntRange(lo: int, loInclude: bool, hi: int, hiInclude: bool): (r: IntRange)
    ensures forall n :: Contains(r, n) <==>
              (if loInclude then lo <= n else lo < n) && (if hiInclude then n <= hi else n < hi)
  {
    IntRange(lo, loInclude, hi, hiInclude, false, false)
  }

  // ------------------------------------------------------ validity, members

  /** Non-emptiness, decided on the fields alone: no infinite end is
      inclusive, and when both ends are bounded the least integer the lower end
      admits is at most the greatest integer the upper end admits. */
  predicate IsValid(r: IntRange)
    ensures IsValid(r) <==>
              && !(r.MinUnbounded && r.MinInclude) && !(r.MaxUnbounded && r.MaxInclude)
              && (!r.MinUnbounded && !r.MaxUnbounded ==>
                    (if r.MinInclude then r.Min else r.Min + 1) <= (if r.MaxInclude then r.Max else r.Max - 1))
  {
    if r.MinUnbounded && r.MinInclude then false
    else if r.MaxUnbounded && r.MaxInclude then false
    else if !r.MinUnbounded && !r.MaxUnbounded then
      if r.Min > r.Max then false
      else if r.Min == r.Max then r.MinInclude && r.MaxInclude
      else if r.Max - r.Min == 1 then r.MinInclude || r.MaxInclude
      else true
    else true
  }

  /** n satisfies the lower end, read with its own inclusivity. */
  predicate AboveMin(r: IntRange, n: int) {
    r.MinUnbounded || (if r.MinInclude then n >= r.Min else n > r.Min)
  }

  /** n satisfies the upper end, read with its own inclusivity. */
  predicate BelowMax(r: IntRange, n: int) {
    r.MaxUnbounded || (if r.MaxInclude then n <= r.Max else n < r.Max)
  }

  /** Membership: nothing belongs to an invalid range; otherwise n lies
      between the least integer the lower end admits and the greatest one the
      upper end admits. */
  predicate Contains(r: IntRange, n: int)
    ensures Contains(r, n) ==> IsValid(r)
    ensures IsValid(r) ==>
              (Contains(r, n) <==>
                 && (r.MinUnbounded || (if r.MinInclude then r.Min else r.Min + 1) <= n)
                 && (r.MaxUnbounded || n <= (if r.MaxInclude then r.Max else r.Max - 1)))
  {
    IsValid(r) && AboveMin(r, n) && BelowMax(r, n)
  }

  /** Some member of a valid range. */
  function Witness(r: IntRange): (n: int)
    requires IsValid(r)
    ensures Contains(r, n)
  {
    if !r.MinUnbounded then (if r.MinInclude then r.Min else r.Min + 1)
    else if !r.MaxUnbounded then (if r.MaxInclude then r.Max else r.Max - 1)
    else 0
  }

  /** A range whose open unbounded ends are not inclusive is valid as soon as one
      integer meets both ends. */
  lemma BoundsImplyValid(r: IntRange, n: int)
    requires !(r.MinUnbounded && r.MinInclude) && !(r.MaxUnbounded && r.MaxInclude)
    requires AboveMin(r, n) && BelowMax(r, n)
    ensures IsValid(r) && Contains(r, n)
  {
  }

  /** Validity is exactly non-emptiness. */
  lemma ValidIffNonEmpty(r: IntRange)
    ensures IsValid(r) <==> exists n :: Contains(r, n)
  {
    if IsValid(r) {
      var w := Witness(r);
      assert Contains(r, w);
    }
  }

  /** The interface name of validity. */
  predicate IsNotEmpty(r: IntRange)
    ensures IsNotEmpty(r) <==> exists n :: Contains(r, n)
  {
    ValidIffNonEmpty(r);
    IsValid(r)
  }

  /** Some member of the range is n. */
  ghost predicate InUnion(rs: seq<IntRange>, n: int) {
    exists p :: p in rs && Contains(p, n)
  }

  // --------------------------------------------------- lowest and highest

  /** The smallest member, or None when the lower end is unbounded. */
  function Lowest(r: IntRange): (lo: Option<int>)
    ensures lo.None? <==> r.MinUnbounded
    ensures IsValid(r) && lo.Some? ==>
              Contains(r, lo.value) && !Contains(r, lo.value - 1)
              && forall n :: Contains(r, n) ==> lo.value <= n
  {
    if r.MinUnbounded then None
    else if r.MinInclude then Some(r.Min)
    else Some(r.Min + 1)
  }

  /** The largest member, or None when the upper end is unbounded. */
  function Highest(r: IntRange): (hi: Option<int>)
    ensures hi.None? <==> r.MaxUnbounded
    ensures IsValid(r) && hi.Some? ==>
              Contains(r, hi.value) && !Contains(r, hi.value + 1)
              && forall n :: Contains(r, n) ==> n <= hi.value
  {
    if r.MaxUnbounded then None
    else if r.MaxInclude then Some(r.Max)
    else Some(r.Max - 1)
  }

  /** Below Lowest and above Highest nothing meets the ends. */
  lemma LowestHighestBounds(r: IntRange, n: int)
    ensures AboveMin(r, n) <==> (Lowest(r).None? || Lowest(r).value <= n)
    ensures BelowMax(r, n) <==> (Highest(r).None? || n <= Highest(r).value)
  {
  }

  // ----------------------------------------------------------- intersection

  /** Whether some integer lies in both ranges. */
  predicate HasIntesect(r: IntRange, other: IntRange)
    ensures HasIntesect(r, other) <==> exists n :: Contains(r, n) && Contains(other, n)
  {
    var result :=
      if !IsValid(r) || !IsValid(other) then false
      else if !r.MaxUnbounded && !other.MinUnbounded && Highest(r).value < Lowest(other).value then false
      else if !r.MinUnbounded && !other.MaxUnbounded && Lowest(r).value > Highest(other).value then false
      else true;
    CommonMember(r, other, result);
    result
  }

  lemma CommonMember(r: IntRange, other: IntRange, result: bool)
    requires result ==
      if !IsValid(r) || !IsValid(other) then false
      else if !r.MaxUnbounded && !other.MinUnbounded && Highest(r).value < Lowest(other).value then false
      else if !r.MinUnbounded && !other.MaxUnbounded && Lowest(r).value > Highest(other).value then false
      else true
    ensures result <==> exists n :: Contains(r, n) && Contains(other, n)
  {
    if result {
      var n :=
        if !r.MinUnbounded && !other.MinUnbounded then
          (if Lowest(r).value >= Lowest(other).value then Lowest(r).value else Lowest(other).value)
        else if !r.MinUnbounded then Lowest(r).value
        else if !other.MinUnbounded then Lowest(other).value
        else if !r.MaxUnbounded && !other.MaxUnbounded then
          (if Highest(r).value <= Highest(other).value then Highest(r).value else Highest(other).value)
        else if !r.MaxUnbounded then Highest(r).value
        else if !other.MaxUnbounded then Highest(other).value
        else 0;
      LowestHighestBounds(r, n);
      LowestHighestBounds(other, n);
      assert Contains(r, n) && Contains(other, n);
    } else if IsValid(r) && IsValid(other) {
      forall n | Contains(r, n) ensures !Contains(other, n) {
        LowestHighestBounds(r, n);
        LowestHighestBounds(other, n);
      }
    }
  }

  /** Interval intersection; where both lower (or both upper) ends are equal, the
      receiver's inclusivity is kept, so the result lies between the exact
      intersection and the receiver. */
  function Intersect(r: IntRange, other: IntRange): (x: IntRange)
    ensures IsValid(r) && IsValid(other) ==>
              forall n :: Contains(r, n) && Contains(other, n) ==> Contains(x, n)
    ensures IsValid(r) ==> forall n :: Contains(x, n) ==> Contains(r, n)
  {
    var (newMin, newMinInclude, newMinUnbounded) :=
      if r.MinUnbounded && other.MinUnbounded then (0, false, true)
      else if r.MinUnbounded then (other.Min, other.MinInclude, false)
      else if other.MinUnbounded then (r.Min, r.MinInclude, false)
      else if r.Min > other.Min then (r.Min, r.MinInclude, false)
      else if r.Min < other.Min then (other.Min, other.MinInclude, false)
      else (r.Min, r.MinInclude, false);
    var (newMax, newMaxInclude, newMaxUnbounded) :=
      if r.MaxUnbounded && other.MaxUnbounded then (0, false, true)
      else if r.MaxUnbounded then (other.Max, other.MaxInclude, false)
      else if other.MaxUnbounded then (r.Max, r.MaxInclude, false)
      else if r.Max < other.Max then (r.Max, r.MaxInclude, false)
      else if r.Max > other.Max then (other.Max, other.MaxInclude, false)
      else (r.Max, r.MaxInclude, false);
    var x := IntRange(newMin, newMinInclude, newMax, newMaxInclude, newMinUnbounded, newMaxUnbounded);
    IntersectMembers(r, other, x);
    x
  }

  lemma IntersectMembers(r: IntRange, other: IntRange, x: IntRange)
    requires x.MinUnbounded == (r.MinUnbounded && other.MinUnbounded)
    requires x.MinUnbounded ==> !x.MinInclude
    requires !x.MinUnbounded ==>
      if r.MinUnbounded then x.Min == other.Min && x.MinInclude == other.MinInclude
      else if other.MinUnbounded || r.Min >= other.Min then x.Min == r.Min && x.MinInclude == r.MinInclude
      else x.Min == other.Min && x.MinInclude == other.MinInclude
    requires x.MaxUnbounded == (r.MaxUnbounded && other.MaxUnbounded)
    requires x.MaxUnbounded ==> !x.MaxInclude
    requires !x.MaxUnbounded ==>
      if r.MaxUnbounded then x.Max == other.Max && x.MaxInclude == other.MaxInclude
      else if other.MaxUnbounded || r.Max <= other.Max then x.Max == r.Max && x.MaxInclude == r.MaxInclude
      else x.Max == other.Max && x.MaxInclude == other.MaxInclude
    ensures IsValid(r) && IsValid(other) ==>
              forall n :: Contains(r, n) && Contains(other, n) ==> Contains(x, n)
    ensures IsValid(r) ==> forall n :: Contains(x, n) ==> Contains(r, n)
  {
    forall n | IsValid(r) && IsValid(other) && Contains(r, n) && Contains(other, n)
      ensures Contains(x, n)
    {
      BoundsImplyValid(x, n);
    }
  }

  /** When equal bounded ends agree on inclusivity, Intersect is the exact
      intersection. */
  lemma IntersectExact(r: IntRange, other: IntRange)
    requires IsValid(r) && IsValid(other)
    requires !r.MinUnbounded && !other.MinUnbounded && r.Min == other.Min ==> r.MinInclude == other.MinInclude
    requires !r.MaxUnbounded && !other.MaxUnbounded && r.Max == other.Max ==> r.MaxInclude == other.MaxInclude
    ensures forall n :: Contains(Intersect(r, other), n) <==> Contains(r, n) && Contains(other, n)
  {
  }

  /** A valid range meets itself, and intersecting it with itself keeps its members. */
  lemma SelfIntersect(r: IntRange)
    ensures HasIntesect(r, r) == IsNotEmpty(r)
    ensures IsValid(r) ==> forall n :: Contains(Intersect(r, r), n) <==> Contains(r, n)
  {
    if IsValid(r) {
      IntersectExact(r, r);
      assert Contains(r, Witness(r));
    }
  }

  // ----------------------------------------------------------- subtraction

  /** The parts of r not covered by other: r itself when they do not meet,
      otherwise a left remainder and a right remainder, each kept only when valid. */
  method Substract(r: IntRange, other: IntRange) returns (results: seq<IntRange>)
    ensures !HasIntesect(r, other) ==> results == [r]
    ensures HasIntesect(r, other) ==> |results| <= 2 && forall p :: p in results ==> IsValid(p)
    ensures IsValid(r) ==> forall n :: InUnion(results, n) <==> Contains(r, n) && !Contains(other, n)
    ensures IsValid(r) && (other == r || other == NewUnboundedIntRange()) ==> results == []
  {
    results := [];
    if !HasIntesect(r, other) {
      results := results + [r];
      return;
    }

    // the remainder left of other
    if !other.MinUnbounded {
      var rMin := Lowest(r);
      var otherMin := Lowest(other).value;
      if rMin.None? || rMin.value < otherMin {
        var newRange := IntRange(r.Min, r.MinInclude, other.Min, !other.MinInclude, r.MinUnbounded, false);
        if IsValid(newRange) {
          results := results + [newRange];
        }
      }
    }

    // the remainder right of other
    if !other.MaxUnbounded {
      var rMax := Highest(r);
      var otherMax := Highest(other).value;
      if rMax.None? || rMax.value > otherMax {
        var newRange := IntRange(other.Max, !other.MaxInclude, r.Max, r.MaxInclude, false, r.MaxUnbounded);
        if IsValid(newRange) {
          results := results + [newRange];
        }
      }
    }
    assert results == LeftRest(r, other) + RightRest(r, other);
    SubstractMembers(r, other, results);
  }

  /** The part of r below other's lower end, when there is one. */
  function LeftRest(r: IntRange, other: IntRange): seq<IntRange> {
    var p := IntRange(r.Min, r.MinInclude, other.Min, !other.MinInclude, r.MinUnbounded, false);
    if !other.MinUnbounded && (r.MinUnbounded || Lowest(r).value < Lowest(other).value) && IsValid(p)
    then [p] else []
  }

  /** The part of r above other's upper end, when there is one. */
  function RightRest(r: IntRange, other: IntRange): seq<IntRange> {
    var p := IntRange(other.Max, !other.MaxInclude, r.Max, r.MaxInclude, false, r.MaxUnbounded);
    if !other.MaxUnbounded && (r.MaxUnbounded || Highest(r).value > Highest(other).value) && IsValid(p)
    then [p] else []
  }

  lemma SubstractMembers(r: IntRange, other: IntRange, results: seq<IntRange>)
    requires HasIntesect(r, other)
    requires results == LeftRest(r, other) + RightRest(r, other)
    ensures |results| <= 2 && forall p :: p in results ==> IsValid(p)
    ensures IsValid(r) ==> forall n :: InUnion(results, n) <==> Contains(r, n) && !Contains(other, n)
    ensures IsValid(r) && (other == r || other == NewUnboundedIntRange()) ==> results == []
  {
    forall n ensures InUnion(results, n) <==> Contains(r, n) && !Contains(other, n) {
      RestMember(r, other, results, n);
    }
    if other == r || other == NewUnboundedIntRange() {
      assert LeftRest(r, other) == [] && RightRest(r, other) == [];
    }
  }

  lemma RestMember(r: IntRange, other: IntRange, results: seq<IntRange>, n: int)
    requires HasIntesect(r, other)
    requires results == LeftRest(r, other) + RightRest(r, other)
    ensures InUnion(results, n) <==> Contains(r, n) && !Contains(other, n)
  {
    var w :| Contains(r, w) && Contains(other, w);
    var l := LeftRest(r, other);
    if InUnion(results, n) {
      var p :| p in results && Contains(p, n);
      if p in l {
        LeftRestSound(r, other, w, n);
      } else {
        RightRestSound(r, other, w, n);
      }
    }
    if Contains(r, n) && !Contains(other, n) {
      RestComplete(r, other, w, n);
    }
  }

  lemma LeftRestSound(r: IntRange, other: IntRange, w: int, n: int)
    requires Contains(r, w) && Contains(other, w)
    requires LeftRest(r, other) != [] && Contains(LeftRest(r, other)[0], n)
    ensures Contains(r, n) && !Contains(other, n)
  {
    LowestHighestBounds(r, n);
    LowestHighestBounds(other, n);
  }

  lemma RightRestSound(r: IntRange, other: IntRange, w: int, n: int)
    requires Contains(r, w) && Contains(other, w)
    requires RightRest(r, other) != [] && Contains(RightRest(r, other)[0], n)
    ensures Contains(r, n) && !Contains(other, n)
  {
    LowestHighestBounds(r, n);
    LowestHighestBounds(other, n);
  }

  lemma RestComplete(r: IntRange, other: IntRange, w: int, n: int)
    requires Contains(r, w) && Contains(other, w)
    requires Contains(r, n) && !Contains(other, n)
    ensures InUnion(LeftRest(r, other) + RightRest(r, other), n)
  {
    var results := LeftRest(r, other) + RightRest(r, other);
    var leftR := IntRange(r.Min, r.MinInclude, other.Min, !other.MinInclude, r.MinUnbounded, false);
    var rightR := IntRange(other.Max, !other.MaxInclude, r.Max, r.MaxInclude, false, r.MaxUnbounded);
    LowestHighestBounds(r, n);
    LowestHighestBounds(other, n);
    LowestHighestBounds(r, w);
    LowestHighestBounds(other, w);
    if !AboveMin(other, n) {
      BoundsImplyValid(leftR, n);
      assert leftR in results;
    } else {
      assert !BelowMax(other, n);
      BoundsImplyValid(rightR, n);
      assert rightR in results;
    }
  }

  /** A valid range meets itself and the unbounded range, so subtracting either
      takes the splitting path, which leaves nothing. */
  lemma SubstractSelfEmpty(r: IntRange)
    requires IsValid(r)
    ensures HasIntesect(r, r) && HasIntesect(r, NewUnboundedIntRange())
  {
    assert Contains(r, Witness(r));
  }

  // ---------------------------------------------------------- closed form

  /** The same members with every bounded end inclusive. */
  function TryMyBestToClosedInterval(r: IntRange): (x: IntRange)
    ensures IsValid(r) ==> IsValid(x) && forall n :: Contains(x, n) <==> Contains(r, n)
    ensures x.MinUnbounded == r.MinUnbounded && x.MaxUnbounded == r.MaxUnbounded
    ensures (!x.MinUnbounded ==> x.MinInclude) && (!x.MaxUnbounded ==> x.MaxInclude)
    ensures (x.MinUnbounded ==> !x.MinInclude) && (x.MaxUnbounded ==> !x.MaxInclude)
  {
    var lowest := Lowest(r);
    var highest := Highest(r);
    if lowest.Some? && highest.Some? then NewInclusiveIntRange(lowest.value, highest.value)
    else if lowest.Some? then NewGreaterOrEqualThanIntRange(lowest.value)
    else if highest.Some? then NewLessOrEqualThanIntRange(highest.value)
    else NewUnboundedIntRange()
  }

  // ------------------------------------------------- comparison predicates

  /** Every member is below n (false for an invalid or upper-unbounded range). */
  predicate LessThan(r: IntRange, n: int)
    ensures LessThan(r, n) <==> IsValid(r) && forall m :: Contains(r, m) ==> m < n
  {
    var result :=
      if !IsValid(r) || r.MaxUnbounded then false
      else
        var maxAllowed := if !r.MaxInclude then r.Max - 1 else r.Max;
        maxAllowed < n;
    UpperComparison(r, n, result, false);
    result
  }

  /** Every member is at most n. */
  predicate LessOrEqualThan(r: IntRange, n: int)
    ensures LessOrEqualThan(r, n) <==> IsValid(r) && forall m :: Contains(r, m) ==> m <= n
  {
    var result :=
      if !IsValid(r) || r.MaxUnbounded then false
      else
        var maxAllowed := if !r.MaxInclude then r.Max - 1 else r.Max;
        maxAllowed <= n;
    UpperComparison(r, n + 1, result, true);
    result
  }

  lemma UpperComparison(r: IntRange, k: int, result: bool, orEqual: bool)
    requires result == (IsValid(r) && !r.MaxUnbounded && Highest(r).value < k)
    ensures result <==> IsValid(r) && forall m :: Contains(r, m) ==> m < k
  {
    if IsValid(r) && r.MaxUnbounded {
      var m := if r.MinUnbounded then k else (if Lowest(r).value > k then Lowest(r).value else k);
      LowestHighestBounds(r, m);
      assert Contains(r, m);
    }
  }

  /** Every member is above n (false for an invalid or lower-unbounded range). */
  predicate GreaterThan(r: IntRange, n: int)
    ensures GreaterThan(r, n) <==> IsValid(r) && forall m :: Contains(r, m) ==> m > n
  {
    var result :=
      if !IsValid(r) || r.MinUnbounded then false
      else
        var minAllowed := if !r.MinInclude then r.Min + 1 else r.Min;
        minAllowed > n;
    LowerComparison(r, n, result);
    result
  }

  /** Every member is at least n. */
  predicate GreaterOrEqualThan(r: IntRange, n: int)
    ensures GreaterOrEqualThan(r, n) <==> IsValid(r) && forall m :: Contains(r, m) ==> m >= n
  {
    var result :=
      if !IsValid(r) || r.MinUnbounded then false
      else
        var minAllowed := if !r.MinInclude then r.Min + 1 else r.Min;
        minAllowed >= n;
    LowerComparison(r, n - 1, result);
    result
  }

  lemma LowerComparison(r: IntRange, k: int, result: bool)
    requires result == (IsValid(r) && !r.MinUnbounded && Lowest(r).value > k)
    ensures result <==> IsValid(r) && forall m :: Contains(r, m) ==> m > k
  {
    if IsValid(r) && r.MinUnbounded {
      var m := if r.MaxUnbounded then k else (if Highest(r).value < k then Highest(r).value else k);
      LowestHighestBounds(r, m);
      assert Contains(r, m);
    }
  }

  // ------------------------------------------------------ shape predicates

  /** Both ends bounded, equal and inclusive: the range holds one integer. */
  predicate IsSingleValue(r: IntRange)
    ensures IsSingleValue(r) ==> IsValid(r) && forall n :: Contains(r, n) <==> n == r.Min
  {
    !r.MinUnbounded && !r.MaxUnbounded && r.Min == r.Max && r.MinInclude && r.MaxInclude
  }

  function SingleValue(r: IntRange): (v: Option<int>)
    ensures v.Some? <==> IsSingleValue(r)
    ensures v.Some? ==> forall n :: Contains(r, n) <==> n == v.value
  {
    if IsSingleValue(r) then Some(r.Min) else None
  }

  /** The shape (-inf, Max). */
  predicate IsLessThan(r: IntRange)
    ensures IsLessThan(r) && !r.MinInclude ==> forall n :: Contains(r, n) <==> n < r.Max
  {
    r.MinUnbounded && !r.MaxUnbounded && !r.MaxInclude
  }

  /** The shape (-inf, Max]. */
  predicate IsLessOrEqualThan(r: IntRange)
    ensures IsLessOrEqualThan(r) && !r.MinInclude ==> forall n :: Contains(r, n) <==> n <= r.Max
  {
    r.MinUnbounded && !r.MaxUnbounded && r.MaxInclude
  }

  /** The shape (Min, +inf). */
  predicate IsGreaterThan(r: IntRange)
    ensures IsGreaterThan(r) && !r.MaxInclude ==> forall n :: Contains(r, n) <==> n > r.Min
  {
    !r.MinUnbounded && !r.MinInclude && r.MaxUnbounded
  }

  /** The shape [Min, +inf). */
  predicate IsGreaterOrEqualThan(r: IntRange)
    ensures IsGreaterOrEqualThan(r) && !r.MaxInclude ==> forall n :: Contains(r, n) <==> n >= r.Min
  {
    !r.MinUnbounded && r.MinInclude && r.MaxUnbounded
  }

  /** k is at most every member of r. */
  ghost predicate IsLowerBoundOf(k: int, r: IntRange) {
    forall n :: Contains(r, n) ==> k <= n
  }

  /** k is at least every member of r. */
  ghost predicate IsUpperBoundOf(k: int, r: IntRange) {
    forall n :: Contains(r, n) ==> n <= k
  }

  /** A lower end exists; for a valid range, exactly when its members are bounded below. */
  predicate IsLowerBounded(r: IntRange)
    ensures IsLowerBounded(r) <==> Lowest(r).Some?
    ensures IsValid(r) ==> (IsLowerBounded(r) <==> exists k :: IsLowerBoundOf(k, r))
  {
    LowerBoundWitness(r);
    !r.MinUnbounded
  }

  lemma LowerBoundWitness(r: IntRange)
    ensures IsValid(r) ==> (!r.MinUnbounded <==> exists k :: IsLowerBoundOf(k, r))
  {
    if IsValid(r) {
      if !r.MinUnbounded {
        assert IsLowerBoundOf(Lowest(r).value, r);
      } else {
        forall k ensures !IsLowerBoundOf(k, r) {
          var m := if r.MaxUnbounded then k - 1 else (if Highest(r).value < k - 1 then Highest(r).value else k - 1);
          LowestHighestBounds(r, m);
          assert Contains(r, m);
        }
      }
    }
  }

  /** An upper end exists; for a valid range, exactly when its members are bounded above. */
  predicate IsUpperBounded(r: IntRange)
    ensures IsUpperBounded(r) <==> Highest(r).Some?
    ensures IsValid(r) ==> (IsUpperBounded(r) <==> exists k :: IsUpperBoundOf(k, r))
  {
    UpperBoundWitness(r);
    !r.MaxUnbounded
  }

  lemma UpperBoundWitness(r: IntRange)
    ensures IsValid(r) ==> (!r.MaxUnbounded <==> exists k :: IsUpperBoundOf(k, r))
  {
    if IsValid(r) {
      if !r.MaxUnbounded {
        assert IsUpperBoundOf(Highest(r).value, r);
      } else {
        forall k ensures !IsUpperBoundOf(k, r) {
          var m := if r.MinUnbounded then k + 1 else (if Lowest(r).value > k + 1 then Lowest(r).value else k + 1);
          LowestHighestBounds(r, m);
          assert Contains(r, m);
        }
      }
    }
  }

  /** Neither end exists: a valid such range holds every integer. */
  predicate IsUnbounded(r: IntRange)
    ensures IsUnbounded(r) <==> Lowest(r).None? && Highest(r).None?
    ensures IsUnbounded(r) && IsValid(r) ==> forall n :: Contains(r, n)
  {
    r.MinUnbounded && r.MaxUnbounded
  }
}
