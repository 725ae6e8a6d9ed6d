/**
  Normalisation of a NaturalRangeFilter: the ranges are clamped to the natural
  numbers, the right-unbounded ones are merged into one, the rest become closed
  intervals, everything is sorted, and overlapping or adjacent intervals are
  merged. Normalize and String follow the merge as the source writes it, in
  which an absorbed interval takes over the next one's upper end as it is; the
  corrected merge, which keeps the larger end, is modelled beside it.
 */
module FilterNormalization {
  import opened Wrappers
  import opened Text
  import opened IntRanges
  import opened NaturalRangeFilters

  /** A closed integer interval [min, max], or [min, +inf) when maxUn. */
  datatype SRange = SRange(min: int, max: int, maxUn: bool)

  predicate InS(s: SRange, n: int) {
    s.min <= n && (s.maxUn || n <= s.max)
  }

  ghost predicate InSUnion(ss: seq<SRange>, n: int) {
    exists s :: s in ss && InS(s, n)
  }

  /** A range whose unbounded ends are open: the only kind Contains reads as written. */
  predicate OpenAtInfinity(r: IntRange) {
    !(r.MinUnbounded && r.MinInclude) && !(r.MaxUnbounded && r.MaxInclude)
  }

  // -------------------------------------------------------- 1. clamp, keep

  /** The closed form of r, with its lower end raised to 0 when below or absent. */
  function Clamp(r: IntRange): (n: IntRange)
    ensures !n.MinUnbounded && n.MinInclude && n.Min >= 0
    ensures n.MaxUnbounded ==> !n.MaxInclude
    ensures !n.MaxUnbounded ==> n.MaxInclude
    ensures OpenAtInfinity(r) ==> forall k :: k >= 0 ==> (Contains(n, k) <==> Contains(r, k))
  {
    var n := TryMyBestToClosedInterval(r);
    var c := if n.MinUnbounded || n.Min < 0 then n.(MinUnbounded := false, MinInclude := true, Min := 0) else n;
    ClampMembers(r, n, c);
    c
  }

  lemma ClampMembers(r: IntRange, n: IntRange, c: IntRange)
    requires n == TryMyBestToClosedInterval(r)
    requires c == if n.MinUnbounded || n.Min < 0 then n.(MinUnbounded := false, MinInclude := true, Min := 0) else n
    ensures OpenAtInfinity(r) ==> forall k :: k >= 0 ==> (Contains(c, k) <==> Contains(r, k))
  {
    if OpenAtInfinity(r) {
      forall k | k >= 0 ensures Contains(c, k) <==> Contains(r, k) {
        if IsValid(r) {
          assert Contains(n, k) <==> Contains(r, k);
          if Contains(n, k) {
            BoundsImplyValid(c, k);
          }
        } else {
          // the lower end and the upper end of r are both bounded and cross
          assert !r.MinUnbounded && !r.MaxUnbounded;
          assert !Contains(c, k);
        }
      }
    }
  }

  /** A clamped range is kept when it is valid and reaches 0. */
  predicate Keep(n: IntRange) {
    IsValid(n) && (n.MaxUnbounded || n.Max >= 0)
  }

  /** The kept clamped ranges, in order. */
  function Valids(rs: seq<IntRange>): (vs: seq<IntRange>)
    ensures forall k :: 0 <= k < |vs| ==> Keep(vs[k]) && IsClosedNatural(vs[k])
  {
    if rs == [] then []
    else
      var n := Clamp(rs[|rs| - 1]);
      Valids(rs[..|rs| - 1]) + (if Keep(n) then [n] else [])
  }

  /** What every kept range looks like: bounded below at a natural number,
      inclusive at every bounded end. */
  predicate IsClosedNatural(v: IntRange) {
    !v.MinUnbounded && v.MinInclude && v.Min >= 0
    && (v.MaxUnbounded ==> !v.MaxInclude) && (!v.MaxUnbounded ==> v.MaxInclude)
  }

  // ------------------------------------------------ 2. and 3. interval list

  /** The smallest lower end among the right-unbounded ranges. */
  function RightMin(vs: seq<IntRange>): (m: Option<int>)
    ensures m.None? <==> forall k :: 0 <= k < |vs| ==> !vs[k].MaxUnbounded
    ensures m.Some? ==> forall k :: 0 <= k < |vs| && vs[k].MaxUnbounded ==> m.value <= vs[k].Min
    ensures m.Some? ==> exists k :: 0 <= k < |vs| && vs[k].MaxUnbounded && vs[k].Min == m.value
  {
    if vs == [] then None
    else
      var m := RightMin(vs[..|vs| - 1]);
      var r := vs[|vs| - 1];
      var m' := if r.MaxUnbounded && (m.None? || r.Min < m.value) then Some(r.Min) else m;
      assert forall k :: 0 <= k < |vs| - 1 ==> vs[..|vs| - 1][k] == vs[k];
      m'
  }

  /** The fully bounded ranges as closed intervals. */
  function BoundedPart(vs: seq<IntRange>): seq<SRange> {
    if vs == [] then []
    else
      var r := vs[|vs| - 1];
      BoundedPart(vs[..|vs| - 1])
        + (if r.MinUnbounded || r.MaxUnbounded then [] else [SRange(r.Min, r.Max, false)])
  }

  /** The interval list before sorting: the merged unbounded interval first. */
  function Collect(vs: seq<IntRange>): seq<SRange> {
    (if RightMin(vs).Some? then [SRange(RightMin(vs).value, 0, true)] else []) + BoundedPart(vs)
  }

  // ------------------------------------------------------------- 4. sort

  /** The sort order: by lower end, a bounded interval before an unbounded one
      with the same lower end, then by upper end. */
  predicate Less(a: SRange, b: SRange) {
    if a.min != b.min then a.min < b.min
    else if a.maxUn != b.maxUn then !a.maxUn && b.maxUn
    else a.max < b.max
  }

  ghost predicate Sorted(ss: seq<SRange>) {
    forall i, j :: 0 <= i < j < |ss| ==> !Less(ss[j], ss[i])
  }

  function Insert(x: SRange, ss: seq<SRange>): (r: seq<SRange>)
    ensures multiset(r) == multiset(ss) + multiset{x}
    ensures Sorted(ss) ==> Sorted(r)
  {
    if ss == [] then [x]
    else if Less(ss[0], x) then
      var r := [ss[0]] + Insert(x, ss[1..]);
      assert ss == [ss[0]] + ss[1..];
      InsertSorted(x, ss, r);
      r
    else
      InsertFront(x, ss);
      [x] + ss
  }

  lemma InsertFront(x: SRange, ss: seq<SRange>)
    requires ss == [] || !Less(ss[0], x)
    ensures Sorted(ss) ==> Sorted([x] + ss)
  {
    if Sorted(ss) && ss != [] {
      var r := [x] + ss;
      forall i, j | 0 <= i < j < |r| ensures !Less(r[j], r[i]) {
        if i == 0 {
          assert r[j] == ss[j - 1];
          if j > 1 {
            NotLessTrans(x, ss[0], ss[j - 1]);
          }
        } else {
          assert r[i] == ss[i - 1] && r[j] == ss[j - 1];
        }
      }
    }
  }

  /** Not being below is transitive. */
  lemma NotLessTrans(a: SRange, b: SRange, c: SRange)
    requires !Less(b, a) && !Less(c, b)
    ensures !Less(c, a)
  {
  }

  lemma InsertSorted(x: SRange, ss: seq<SRange>, r: seq<SRange>)
    requires ss != [] && Less(ss[0], x)
    requires r == [ss[0]] + Insert(x, ss[1..])
    requires multiset(Insert(x, ss[1..])) == multiset(ss[1..]) + multiset{x}
    requires Sorted(ss[1..]) ==> Sorted(Insert(x, ss[1..]))
    ensures Sorted(ss) ==> Sorted(r)
  {
    if Sorted(ss) {
      var t := Insert(x, ss[1..]);
      forall k | 0 <= k < |t| ensures !Less(t[k], ss[0]) {
        assert t[k] in multiset(t);
        if t[k] != x {
          assert t[k] in multiset(ss[1..]);
          var j :| 0 <= j < |ss[1..]| && ss[1..][j] == t[k];
          assert ss[j + 1] == t[k];
        }
      }
    }
  }

  /** The sort order is total: it tells any two distinct intervals apart. */
  lemma LessTotal(x: SRange, y: SRange)
    ensures x == y || Less(x, y) || Less(y, x)
  {
  }

  /** sort.Slice with the comparator above; as the order is total on SRange, any
      correct sort gives this result (SortedUnique). */
  function SortSRanges(ss: seq<SRange>): (r: seq<SRange>)
    ensures multiset(r) == multiset(ss) && Sorted(r)
  {
    if ss == [] then []
    else
      assert ss == [ss[0]] + ss[1..];
      Insert(ss[0], SortSRanges(ss[1..]))
  }

  /** Two sorted orderings of the same intervals are the same sequence. */
  lemma {:induction false} SortedUnique(a: seq<SRange>, b: seq<SRange>)
    requires Sorted(a) && Sorted(b) && multiset(a) == multiset(b)
    ensures a == b
    decreases |a|
  {
    if a != [] {
      assert a == [a[0]] + a[1..];
      assert |b| == |a| by {
        assert |multiset(a)| == |a| && |multiset(b)| == |b|;
      }
      assert b == [b[0]] + b[1..];
      SortedHeads(a, b);
      assert multiset(a[1..]) == multiset(a) - multiset{a[0]};
      assert multiset(b[1..]) == multiset(b) - multiset{b[0]};
      SortedUnique(a[1..], b[1..]);
    }
  }

  /** Two sorted orderings of the same intervals start alike. */
  lemma SortedHeads(a: seq<SRange>, b: seq<SRange>)
    requires Sorted(a) && Sorted(b) && multiset(a) == multiset(b) && a != [] && b != []
    ensures a[0] == b[0]
  {
    assert a[0] in multiset(b) && b[0] in multiset(a);
    var i :| 0 <= i < |a| && a[i] == b[0];
    var j :| 0 <= j < |b| && b[j] == a[0];
    assert !Less(b[0], a[0]) by {
      if i > 0 { assert !Less(a[i], a[0]); }
    }
    assert !Less(a[0], b[0]) by {
      if j > 0 { assert !Less(b[j], b[0]); }
    }
    LessTotal(a[0], b[0]);
  }


  // ------------------------------------------------------------- 5. merge

  /** The merge loop as the source writes it, from the intervals merged so far
      and the ones still to see. An interval that overlaps or touches the last
      merged one replaces that one's upper end by its own, whether larger,
      smaller or unbounded (an unbounded interval carries 0 there); the loop
      stops at an unbounded merged interval. */
  function MergeRestAsWritten(merged: seq<SRange>, rest: seq<SRange>): seq<SRange>
    decreases |rest|
  {
    if rest == [] then merged
    else
      var cur := rest[0];
      if merged == [] then MergeRestAsWritten([cur], rest[1..])
      else
        var last := merged[|merged| - 1];
        if last.maxUn then merged
        else if last.max + 1 >= cur.min then
          MergeRestAsWritten(merged[..|merged| - 1] + [last.(max := cur.max)], rest[1..])
        else
          MergeRestAsWritten(merged + [cur], rest[1..])
  }

  /** What the merge as written leaves: natural lower ends in ascending order,
      and every interval but the last bounded and ending more than one below
      the start of the next. An interval that absorbed another may end below
      its own start. */
  ghost predicate WrittenShape(ms: seq<SRange>) {
    && (forall i :: 0 <= i < |ms| ==> ms[i].min >= 0)
    && (forall i :: 0 <= i < |ms| - 1 ==>
          !ms[i].maxUn && ms[i].max + 1 < ms[i + 1].min && ms[i].min <= ms[i + 1].min)
  }

  /** The merge as written keeps the shape above, never loses all of a
      non-empty input, and never adds an integer that its input lacked. */
  lemma {:induction false} MergeAsWrittenShape(merged: seq<SRange>, rest: seq<SRange>)
    requires WrittenShape(merged) && AllProperNatural(rest) && MinSorted(rest)
    requires merged != [] ==> AtLeast(rest, merged[|merged| - 1].min)
    ensures var m := MergeRestAsWritten(merged, rest);
            && WrittenShape(m)
            && (merged != [] || rest != [] ==> m != [])
            && forall n :: InSUnion(m, n) ==> InSUnion(merged, n) || InSUnion(rest, n)
    decreases |rest|, 1
  {
    if rest != [] {
      var cur := rest[0];
      forall n ensures InSUnion(rest, n) <==> InS(cur, n) || InSUnion(rest[1..], n) {
        assert rest == [cur] + rest[1..];
        InSUnionConcat([cur], rest[1..], n);
        InSUnionSingle(cur, n);
      }
      if merged == [] {
        forall n ensures InSUnion([cur], n) <==> InS(cur, n) {
          InSUnionSingle(cur, n);
        }
        MergeAsWrittenShape([cur], rest[1..]);
      } else if !merged[|merged| - 1].maxUn {
        if merged[|merged| - 1].max + 1 >= cur.min {
          WrittenAbsorbs(merged, rest);
        } else {
          WrittenAppends(merged, rest);
        }
      }
    }
  }

  /** MergeAsWrittenShape when the next interval touches the last merged one. */
  lemma {:induction false} WrittenAbsorbs(merged: seq<SRange>, rest: seq<SRange>)
    requires WrittenShape(merged) && AllProperNatural(rest) && MinSorted(rest)
    requires merged != [] && rest != [] && AtLeast(rest, merged[|merged| - 1].min)
    requires !merged[|merged| - 1].maxUn && merged[|merged| - 1].max + 1 >= rest[0].min
    ensures var m := MergeRestAsWritten(merged, rest);
            && WrittenShape(m) && m != []
            && forall n :: InSUnion(m, n) ==> InSUnion(merged, n) || InSUnion(rest, n)
    decreases |rest|, 0
  {
    var cur := rest[0];
    forall n ensures InSUnion(rest, n) <==> InS(cur, n) || InSUnion(rest[1..], n) {
      assert rest == [cur] + rest[1..];
      InSUnionConcat([cur], rest[1..], n);
      InSUnionSingle(cur, n);
    }
    var last := merged[|merged| - 1];
    var front := merged[..|merged| - 1];
    assert merged == front + [last];
    forall n ensures InSUnion(merged, n) <==> InSUnion(front, n) || InS(last, n) {
      InSUnionConcat(front, [last], n);
      InSUnionSingle(last, n);
    }
    var a := last.(max := cur.max);
    var merged' := front + [a];
    forall n ensures InSUnion(merged', n) <==> InSUnion(front, n) || InS(a, n) {
      InSUnionConcat(front, [a], n);
      InSUnionSingle(a, n);
    }
    WrittenShapeWiden(merged, cur.max);
    RestTail(rest);
    assert MergeRestAsWritten(merged, rest) == MergeRestAsWritten(merged', rest[1..]);
    MergeAsWrittenShape(merged', rest[1..]);
  }

  /** MergeAsWrittenShape when the next interval starts a new merged one. */
  lemma {:induction false} WrittenAppends(merged: seq<SRange>, rest: seq<SRange>)
    requires WrittenShape(merged) && AllProperNatural(rest) && MinSorted(rest)
    requires merged != [] && rest != [] && AtLeast(rest, merged[|merged| - 1].min)
    requires !merged[|merged| - 1].maxUn && merged[|merged| - 1].max + 1 < rest[0].min
    ensures var m := MergeRestAsWritten(merged, rest);
            && WrittenShape(m) && m != []
            && forall n :: InSUnion(m, n) ==> InSUnion(merged, n) || InSUnion(rest, n)
    decreases |rest|, 0
  {
    var cur := rest[0];
    forall n ensures InSUnion(rest, n) <==> InS(cur, n) || InSUnion(rest[1..], n) {
      assert rest == [cur] + rest[1..];
      InSUnionConcat([cur], rest[1..], n);
      InSUnionSingle(cur, n);
    }
    var merged' := merged + [cur];
    forall n ensures InSUnion(merged', n) <==> InSUnion(merged, n) || InS(cur, n) {
      InSUnionConcat(merged, [cur], n);
      InSUnionSingle(cur, n);
    }
    WrittenShapeSnoc(merged, cur);
    RestTail(rest);
    assert MergeRestAsWritten(merged, rest) == MergeRestAsWritten(merged', rest[1..]);
    MergeAsWrittenShape(merged', rest[1..]);
  }

  /** A natural interval starting more than one past the end of the last one
      extends the written shape. */
  lemma WrittenShapeSnoc(merged: seq<SRange>, cur: SRange)
    requires WrittenShape(merged) && merged != [] && cur.min >= 0
    requires !merged[|merged| - 1].maxUn && merged[|merged| - 1].max + 1 < cur.min
    requires merged[|merged| - 1].min <= cur.min
    ensures WrittenShape(merged + [cur])
  {
    var m := merged + [cur];
    assert forall i :: 0 <= i < |merged| ==> m[i] == merged[i];
  }

  /** Giving the last interval another upper end keeps the written shape. */
  lemma WrittenShapeWiden(merged: seq<SRange>, max: int)
    requires WrittenShape(merged) && merged != []
    ensures var last := merged[|merged| - 1];
            WrittenShape(merged[..|merged| - 1] + [last.(max := max)])
  {
    var last := merged[|merged| - 1];
    var m := merged[..|merged| - 1] + [last.(max := max)];
    assert forall i :: 0 <= i < |merged| - 1 ==> m[i] == merged[i];
  }

  /** The remaining intervals after the first keep the properties of the list. */
  lemma RestTail(rest: seq<SRange>)
    requires AllProperNatural(rest) && MinSorted(rest) && rest != []
    ensures AllProperNatural(rest[1..]) && MinSorted(rest[1..]) && AtLeast(rest[1..], rest[0].min)
  {
    assert forall i :: 0 <= i < |rest| - 1 ==> rest[1..][i] == rest[i + 1];
  }

  // The corrected merge: an absorbed interval keeps the larger upper end and
  // any unboundedness, so that merging loses no integer.

  /** Proper: a bounded interval is not empty. */
  predicate Proper(s: SRange) {
    s.maxUn || s.min <= s.max
  }

  ghost predicate AllProperNatural(ss: seq<SRange>) {
    forall i :: 0 <= i < |ss| ==> Proper(ss[i]) && ss[i].min >= 0
  }

  /** Increasing, with a gap of at least one integer between neighbours, and
      unbounded at most at the end. */
  ghost predicate Separated(ms: seq<SRange>) {
    forall i :: 0 <= i < |ms| - 1 ==> !ms[i].maxUn && ms[i].max + 1 < ms[i + 1].min
  }

  ghost predicate MinSorted(ss: seq<SRange>) {
    forall i, j :: 0 <= i < j < |ss| ==> ss[i].min <= ss[j].min
  }

  ghost predicate AtLeast(ss: seq<SRange>, m: int) {
    forall i :: 0 <= i < |ss| ==> ss[i].min >= m
  }

  /** last absorbs cur, which starts no later than one past last's end. */
  function Absorb(last: SRange, cur: SRange): (s: SRange)
    requires !last.maxUn && Proper(last) && Proper(cur)
    requires last.min <= cur.min <= last.max + 1
    ensures s.min == last.min && Proper(s)
    ensures forall n :: InS(s, n) <==> InS(last, n) || InS(cur, n)
  {
    if cur.maxUn then last.(maxUn := true)
    else if cur.max > last.max then last.(max := cur.max)
    else last
  }

  /** The merge loop, from the intervals merged so far and the ones still to see:
      it stops at an unbounded interval, which covers everything after it. */
  function MergeRest(merged: seq<SRange>, rest: seq<SRange>): seq<SRange>
    requires AllProperNatural(merged) && AllProperNatural(rest)
    requires merged != [] ==> AtLeast(rest, merged[|merged| - 1].min)
    requires MinSorted(rest)
    decreases |rest|
  {
    if rest == [] then merged
    else
      var cur := rest[0];
      if merged == [] then MergeRest([cur], rest[1..])
      else
        var last := merged[|merged| - 1];
        if last.maxUn then merged
        else if last.max + 1 >= cur.min then
          MergeRest(merged[..|merged| - 1] + [Absorb(last, cur)], rest[1..])
        else
          MergeRest(merged + [cur], rest[1..])
  }

  lemma InSUnionConcat(a: seq<SRange>, b: seq<SRange>, n: int)
    ensures InSUnion(a + b, n) <==> InSUnion(a, n) || InSUnion(b, n)
  {
    if InSUnion(a + b, n) {
      var p :| p in a + b && InS(p, n);
      if p in a { assert InSUnion(a, n); } else { assert InSUnion(b, n); }
    }
    if InSUnion(a, n) {
      var p :| p in a && InS(p, n);
      assert p in a + b;
    }
    if InSUnion(b, n) {
      var p :| p in b && InS(p, n);
      assert p in a + b;
    }
  }

  lemma InSUnionSingle(p: SRange, n: int)
    ensures InSUnion([p], n) <==> InS(p, n)
  {
    if InS(p, n) {
      assert p in [p];
    }
  }

  /** The merge keeps exactly the integers of its input and leaves the intervals
      separated. */
  lemma {:induction false} MergeRestCorrect(merged: seq<SRange>, rest: seq<SRange>)
    requires AllProperNatural(merged) && AllProperNatural(rest)
    requires merged != [] ==> AtLeast(rest, merged[|merged| - 1].min)
    requires MinSorted(rest) && Separated(merged)
    ensures var m := MergeRest(merged, rest);
            AllProperNatural(m) && Separated(m)
            && forall n :: InSUnion(m, n) <==> InSUnion(merged, n) || InSUnion(rest, n)
    decreases |rest|, 1
  {
    if rest != [] {
      var cur := rest[0];
      forall n ensures InSUnion(rest, n) <==> InS(cur, n) || InSUnion(rest[1..], n) {
        assert rest == [cur] + rest[1..];
        InSUnionConcat([cur], rest[1..], n);
        InSUnionSingle(cur, n);
      }
      if merged == [] {
        forall n ensures InSUnion([cur], n) <==> InS(cur, n) {
          InSUnionSingle(cur, n);
        }
        MergeRestCorrect([cur], rest[1..]);
      } else {
        var last := merged[|merged| - 1];
        var front := merged[..|merged| - 1];
        assert merged == front + [last];
        forall n ensures InSUnion(merged, n) <==> InSUnion(front, n) || InS(last, n) {
          InSUnionConcat(front, [last], n);
          InSUnionSingle(last, n);
        }
        if last.maxUn {
          forall n | InSUnion(rest, n) ensures InS(last, n) {
            var s :| s in rest && InS(s, n);
            var k :| 0 <= k < |rest| && rest[k] == s;
          }
        } else if last.max + 1 >= cur.min {
          MergeRestAbsorbs(merged, rest);
        } else {
          MergeRestAppends(merged, rest);
        }
      }
    }
  }

  /** MergeRestCorrect when the next range touches the last merged one. */
  lemma {:induction false} MergeRestAbsorbs(merged: seq<SRange>, rest: seq<SRange>)
    requires AllProperNatural(merged) && AllProperNatural(rest)
    requires merged != [] && rest != [] && AtLeast(rest, merged[|merged| - 1].min)
    requires MinSorted(rest) && Separated(merged)
    requires !merged[|merged| - 1].maxUn && merged[|merged| - 1].max + 1 >= rest[0].min
    ensures var m := MergeRest(merged, rest);
            AllProperNatural(m) && Separated(m)
            && forall n :: InSUnion(m, n) <==> InSUnion(merged, n) || InSUnion(rest, n)
    decreases |rest|, 0
  {
    var cur := rest[0];
    forall n ensures InSUnion(rest, n) <==> InS(cur, n) || InSUnion(rest[1..], n) {
      assert rest == [cur] + rest[1..];
      InSUnionConcat([cur], rest[1..], n);
      InSUnionSingle(cur, n);
    }
    var last := merged[|merged| - 1];
    var front := merged[..|merged| - 1];
    assert merged == front + [last];
    forall n ensures InSUnion(merged, n) <==> InSUnion(front, n) || InS(last, n) {
      InSUnionConcat(front, [last], n);
      InSUnionSingle(last, n);
    }
    var a := Absorb(last, cur);
    var merged' := front + [a];
    forall n ensures InSUnion(merged', n) <==> InSUnion(front, n) || InS(a, n) {
      InSUnionConcat(front, [a], n);
      InSUnionSingle(a, n);
    }
    assert forall k :: 0 <= k < |front| ==> merged'[k] == merged[k];
    MergeRestCorrect(merged', rest[1..]);
  }

  /** MergeRestCorrect when the next range starts a new merged one. */
  lemma {:induction false} MergeRestAppends(merged: seq<SRange>, rest: seq<SRange>)
    requires AllProperNatural(merged) && AllProperNatural(rest)
    requires merged != [] && rest != [] && AtLeast(rest, merged[|merged| - 1].min)
    requires MinSorted(rest) && Separated(merged)
    requires !merged[|merged| - 1].maxUn && merged[|merged| - 1].max + 1 < rest[0].min
    ensures var m := MergeRest(merged, rest);
            AllProperNatural(m) && Separated(m)
            && forall n :: InSUnion(m, n) <==> InSUnion(merged, n) || InSUnion(rest, n)
    decreases |rest|, 0
  {
    var cur := rest[0];
    forall n ensures InSUnion(rest, n) <==> InS(cur, n) || InSUnion(rest[1..], n) {
      assert rest == [cur] + rest[1..];
      InSUnionConcat([cur], rest[1..], n);
      InSUnionSingle(cur, n);
    }
    var merged' := merged + [cur];
    forall n ensures InSUnion(merged', n) <==> InSUnion(merged, n) || InS(cur, n) {
      InSUnionConcat(merged, [cur], n);
      InSUnionSingle(cur, n);
    }
    MergeRestCorrect(merged', rest[1..]);
  }

  // ------------------------------------------------------- 6. back to ranges

  function ToRange(m: SRange): IntRange {
    if m.maxUn then NewGreaterOrEqualThanIntRange(m.min)
    else if m.min == m.max then NewSingleValueIntRange(m.min)
    else NewInclusiveIntRange(m.min, m.max)
  }

  function ToRanges(ms: seq<SRange>): (rs: seq<IntRange>)
    ensures |rs| == |ms| && forall k :: 0 <= k < |ms| ==> rs[k] == ToRange(ms[k])
  {
    if ms == [] then [] else ToRanges(ms[..|ms| - 1]) + [ToRange(ms[|ms| - 1])]
  }

  // ------------------------------------------------------------- the whole

  /** The normalised ranges, as the source computes them. */
  function NormalizeAsWritten(rs: seq<IntRange>): seq<IntRange> {
    var vs := Valids(rs);
    if vs == [] then []
    else
      var srs := Collect(vs);
      if srs == [] then [] else ToRanges(MergeRestAsWritten([], SortSRanges(srs)))
  }

  /** The normalised ranges with the corrected merge. */
  function NormalizeCorrected(rs: seq<IntRange>): seq<IntRange> {
    var vs := Valids(rs);
    if vs == [] then []
    else
      var srs := Collect(vs);
      if srs == [] then []
      else
        var sorted := SortSRanges(srs);
        CollectShape(vs);
        SortedShape(srs, sorted);
        ToRanges(MergeRest([], sorted))
  }

  lemma CollectShape(vs: seq<IntRange>)
    requires forall k :: 0 <= k < |vs| ==> Keep(vs[k]) && IsClosedNatural(vs[k])
    ensures AllProperNatural(Collect(vs))
  {
    BoundedShape(vs);
    if RightMin(vs).Some? {
      var k :| 0 <= k < |vs| && vs[k].MaxUnbounded && vs[k].Min == RightMin(vs).value;
    }
  }

  lemma BoundedShape(vs: seq<IntRange>)
    requires forall k :: 0 <= k < |vs| ==> Keep(vs[k]) && IsClosedNatural(vs[k])
    ensures AllProperNatural(BoundedPart(vs))
  {
    if vs != [] {
      BoundedShape(vs[..|vs| - 1]);
    }
  }

  lemma SortedShape(srs: seq<SRange>, sorted: seq<SRange>)
    requires AllProperNatural(srs) && multiset(sorted) == multiset(srs) && Sorted(sorted)
    ensures AllProperNatural(sorted) && MinSorted(sorted)
  {
    forall i | 0 <= i < |sorted| ensures Proper(sorted[i]) && sorted[i].min >= 0 {
      assert sorted[i] in multiset(srs);
    }
  }

  /** Normalize: one helper per loop of the source. */
  method Normalize(f: NaturalRangeFilter) returns (out: seq<IntRange>)
    ensures out == NormalizeAsWritten(f.Ranges)
  {
    var valids := ClampAll(f.Ranges);
    if |valids| == 0 {
      return [];
    }
    var rightMin, rightMinSet := FindRightMin(valids);
    var srs: seq<SRange> := [];
    if rightMinSet {
      srs := srs + [SRange(rightMin, 0, true)];
    }
    var bounded := CollectBounded(valids);
    srs := srs + bounded;
    assert srs == Collect(valids);
    if |srs| == 0 {
      return [];
    }
    srs := SortSRanges(srs);
    var merged := Merge(srs);
    out := FromIntervals(merged);
  }

  /** Stage 1: the clamped ranges that are kept. */
  method ClampAll(rs: seq<IntRange>) returns (valids: seq<IntRange>)
    ensures valids == Valids(rs)
  {
    valids := [];
    for i := 0 to |rs|
      invariant valids == Valids(rs[..i])
    {
      var n := TryMyBestToClosedInterval(rs[i]);
      if n.MinUnbounded || n.Min < 0 {
        n := n.(MinUnbounded := false, MinInclude := true, Min := 0);
      }
      if IsValid(n) && (n.MaxUnbounded || n.Max >= 0) {
        valids := valids + [n];
      }
      assert rs[..i + 1][..i] == rs[..i];
    }
    assert rs[..|rs|] == rs;
  }

  /** Stage 2: the smallest lower end of a right-unbounded range, if any. */
  method FindRightMin(valids: seq<IntRange>) returns (rightMin: int, rightMinSet: bool)
    ensures RightMin(valids) == if rightMinSet then Some(rightMin) else None
  {
    rightMin := 0;
    rightMinSet := false;
    for i := 0 to |valids|
      invariant RightMin(valids[..i]) == if rightMinSet then Some(rightMin) else None
    {
      var r := valids[i];
      if r.MaxUnbounded {
        if !rightMinSet || r.Min < rightMin {
          rightMin := r.Min;
          rightMinSet := true;
        }
      }
      assert valids[..i + 1][..i] == valids[..i];
    }
    assert valids[..|valids|] == valids;
  }

  /** Stage 3: the bounded ranges as closed intervals. */
  method CollectBounded(valids: seq<IntRange>) returns (srs: seq<SRange>)
    ensures srs == BoundedPart(valids)
  {
    srs := [];
    for i := 0 to |valids|
      invariant srs == BoundedPart(valids[..i])
    {
      var r := valids[i];
      if !(r.MinUnbounded || r.MaxUnbounded) {
        srs := srs + [SRange(r.Min, r.Max, false)];
      }
      assert valids[..i + 1][..i] == valids[..i];
    }
    assert valids[..|valids|] == valids;
  }

  /** Stage 5: merging sorted intervals that overlap or touch, as written. */
  method Merge(srs: seq<SRange>) returns (merged: seq<SRange>)
    ensures merged == MergeRestAsWritten([], srs)
  {
    merged := [];
    var i := 0;
    while i < |srs|
      invariant 0 <= i <= |srs|
      invariant MergeRestAsWritten(merged, srs[i..]) == MergeRestAsWritten([], srs)
    {
      var cur := srs[i];
      assert srs[i..][0] == cur && srs[i..][1..] == srs[i + 1..];
      if |merged| == 0 {
        merged := [cur];
      } else {
        var last := merged[|merged| - 1];
        if last.maxUn {
          break;
        }
        if last.max + 1 >= cur.min {
          last := last.(max := cur.max);
          merged := merged[..|merged| - 1] + [last];
        } else {
          merged := merged + [cur];
        }
      }
      i := i + 1;
    }
    if i == |srs| {
      assert srs[i..] == [];
    }
  }

  /** Stage 6: the intervals as IntRange values. */
  method FromIntervals(merged: seq<SRange>) returns (out: seq<IntRange>)
    ensures out == ToRanges(merged)
  {
    out := [];
    for k := 0 to |merged|
      invariant out == ToRanges(merged[..k])
    {
      var m := merged[k];
      if m.maxUn {
        out := out + [NewGreaterOrEqualThanIntRange(m.min)];
      } else if m.min == m.max {
        out := out + [NewSingleValueIntRange(m.min)];
      } else {
        out := out + [NewInclusiveIntRange(m.min, m.max)];
      }
      assert merged[..k + 1][..k] == merged[..k];
    }
    assert merged[..|merged|] == merged;
  }

  // --------------------------------------------------------------- theorems

  /** The kept clamped ranges hold exactly the natural members of the input. */
  lemma {:induction false} ValidsMembers(rs: seq<IntRange>, n: int)
    requires forall k :: 0 <= k < |rs| ==> OpenAtInfinity(rs[k])
    ensures InUnion(Valids(rs), n) <==> n >= 0 && InUnion(rs, n)
    decreases |rs|
  {
    if rs != [] {
      var front := rs[..|rs| - 1];
      var r := rs[|rs| - 1];
      var c := Clamp(r);
      assert rs == front + [r];
      InUnionConcat(front, [r], n);
      InUnionSingle(r, n);
      ValidsMembers(front, n);
      var tail := if Keep(c) then [c] else [];
      assert Valids(rs) == Valids(front) + tail;
      InUnionConcat(Valids(front), tail, n);
      if Keep(c) {
        InUnionSingle(c, n);
      } else {
        assert !InUnion(tail, n);
      }
    }
  }

  /** n lies in a bounded range of vs. */
  ghost predicate InBounded(vs: seq<IntRange>, n: int) {
    exists k :: 0 <= k < |vs| && !vs[k].MaxUnbounded && Contains(vs[k], n)
  }

  /** n lies in a right-unbounded range of vs. */
  ghost predicate InUnboundedRange(vs: seq<IntRange>, n: int) {
    exists k :: 0 <= k < |vs| && vs[k].MaxUnbounded && Contains(vs[k], n)
  }

  lemma {:induction false} BoundedMembers(vs: seq<IntRange>, n: int)
    requires forall k :: 0 <= k < |vs| ==> Keep(vs[k]) && IsClosedNatural(vs[k])
    ensures InSUnion(BoundedPart(vs), n) <==> InBounded(vs, n)
    decreases |vs|
  {
    if vs != [] {
      var front := vs[..|vs| - 1];
      var r := vs[|vs| - 1];
      var tail := if r.MinUnbounded || r.MaxUnbounded then [] else [SRange(r.Min, r.Max, false)];
      assert BoundedPart(vs) == BoundedPart(front) + tail;
      InSUnionConcat(BoundedPart(front), tail, n);
      BoundedMembers(front, n);
      if tail != [] {
        InSUnionSingle(tail[0], n);
      }
      if InBounded(vs, n) {
        var k :| 0 <= k < |vs| && !vs[k].MaxUnbounded && Contains(vs[k], n);
        if k < |front| {
          assert front[k] == vs[k];
        }
      }
      if InBounded(front, n) {
        var k :| 0 <= k < |front| && !front[k].MaxUnbounded && Contains(front[k], n);
        assert vs[k] == front[k];
      }
      if tail != [] && InS(tail[0], n) {
        assert Contains(vs[|vs| - 1], n);
      }
    }
  }

  lemma UnboundedMembers(vs: seq<IntRange>, n: int)
    requires forall k :: 0 <= k < |vs| ==> Keep(vs[k]) && IsClosedNatural(vs[k])
    ensures InUnboundedRange(vs, n) <==> RightMin(vs).Some? && RightMin(vs).value <= n
  {
    var m := RightMin(vs);
    if InUnboundedRange(vs, n) {
      var k :| 0 <= k < |vs| && vs[k].MaxUnbounded && Contains(vs[k], n);
    }
    if m.Some? && m.value <= n {
      var k :| 0 <= k < |vs| && vs[k].MaxUnbounded && vs[k].Min == m.value;
      assert Contains(vs[k], n);
    }
  }

  lemma CollectMembers(vs: seq<IntRange>, n: int)
    requires forall k :: 0 <= k < |vs| ==> Keep(vs[k]) && IsClosedNatural(vs[k])
    ensures InSUnion(Collect(vs), n) <==> InUnion(vs, n)
  {
    var head := if RightMin(vs).Some? then [SRange(RightMin(vs).value, 0, true)] else [];
    InSUnionConcat(head, BoundedPart(vs), n);
    if head != [] {
      InSUnionSingle(head[0], n);
    }
    BoundedMembers(vs, n);
    UnboundedMembers(vs, n);
    if InUnion(vs, n) {
      var p :| p in vs && Contains(p, n);
      var k :| 0 <= k < |vs| && vs[k] == p;
      if p.MaxUnbounded { assert InUnboundedRange(vs, n); } else { assert InBounded(vs, n); }
    }
    if InBounded(vs, n) {
      var k :| 0 <= k < |vs| && !vs[k].MaxUnbounded && Contains(vs[k], n);
      assert vs[k] in vs;
    }
    if InUnboundedRange(vs, n) {
      var k :| 0 <= k < |vs| && vs[k].MaxUnbounded && Contains(vs[k], n);
      assert vs[k] in vs;
    }
  }

  lemma PermutationMembers(a: seq<SRange>, b: seq<SRange>, n: int)
    requires multiset(a) == multiset(b)
    ensures InSUnion(a, n) <==> InSUnion(b, n)
  {
    if InSUnion(a, n) {
      var p :| p in a && InS(p, n);
      assert p in multiset(b);
    }
    if InSUnion(b, n) {
      var p :| p in b && InS(p, n);
      assert p in multiset(a);
    }
  }

  lemma ToRangeMembers(m: SRange, n: int)
    ensures Contains(ToRange(m), n) <==> InS(m, n)
  {
  }

  lemma ToRangesMembers(ms: seq<SRange>, n: int)
    ensures InUnion(ToRanges(ms), n) <==> InSUnion(ms, n)
  {
    var rs := ToRanges(ms);
    if InUnion(rs, n) {
      var p :| p in rs && Contains(p, n);
      var k :| 0 <= k < |rs| && rs[k] == p;
      ToRangeMembers(ms[k], n);
      assert ms[k] in ms;
    }
    if InSUnion(ms, n) {
      var s :| s in ms && InS(s, n);
      var k :| 0 <= k < |ms| && ms[k] == s;
      ToRangeMembers(s, n);
      assert rs[k] in rs;
    }
  }

  /** The intervals of a normalised range list, read back as intervals. */
  function Intervals(vs: seq<IntRange>): (merged: seq<SRange>)
    requires vs != [] && forall k :: 0 <= k < |vs| ==> Keep(vs[k]) && IsClosedNatural(vs[k])
    ensures AllProperNatural(merged) && Separated(merged)
    ensures forall n :: InSUnion(merged, n) <==> InUnion(vs, n)
  {
    var srs := Collect(vs);
    var sorted := SortSRanges(srs);
    CollectShape(vs);
    SortedShape(srs, sorted);
    var merged := MergeRest([], sorted);
    MergeRestCorrect([], sorted);
    forall n ensures InSUnion(merged, n) <==> InUnion(vs, n) {
      PermutationMembers(srs, sorted, n);
      CollectMembers(vs, n);
    }
    merged
  }

  /** Normalisation keeps exactly the natural members of ranges that are open
      at infinity. */
  lemma NormalizeMembers(rs: seq<IntRange>)
    requires forall k :: 0 <= k < |rs| ==> OpenAtInfinity(rs[k])
    ensures forall n :: InUnion(NormalizeCorrected(rs), n) <==> n >= 0 && InUnion(rs, n)
  {
    var vs := Valids(rs);
    forall n ensures InUnion(NormalizeCorrected(rs), n) <==> n >= 0 && InUnion(rs, n) {
      ValidsMembers(rs, n);
      if vs != [] {
        var merged := Intervals(vs);
        assert NormalizeCorrected(rs) == ToRanges(merged);
        ToRangesMembers(merged, n);
      }
    }
  }

  /** The shape of a normalised list: closed intervals and single values over
      the natural numbers, perhaps a right-unbounded range at the end, each
      separated from the next by at least one missing number. */
  ghost predicate Canonical(rs: seq<IntRange>) {
    && (forall k :: 0 <= k < |rs| ==> TokenRange(rs[k]) && !rs[k].MinUnbounded)
    && (forall k :: 0 <= k < |rs| - 1 ==> !rs[k].MaxUnbounded && rs[k].Max + 1 < rs[k + 1].Min)
  }

  lemma NormalizeCanonical(rs: seq<IntRange>)
    ensures Canonical(NormalizeCorrected(rs))
  {
    var vs := Valids(rs);
    if vs != [] {
      var merged := Intervals(vs);
      assert NormalizeCorrected(rs) == ToRanges(merged);
      ToRangesCanonical(merged);
    }
  }

  lemma ToRangesCanonical(ms: seq<SRange>)
    requires AllProperNatural(ms) && Separated(ms)
    ensures Canonical(ToRanges(ms))
  {
    var rs := ToRanges(ms);
    forall k | 0 <= k < |rs| ensures TokenRange(rs[k]) && !rs[k].MinUnbounded {
      assert rs[k] == ToRange(ms[k]);
    }
    forall k | 0 <= k < |rs| - 1 ensures !rs[k].MaxUnbounded && rs[k].Max + 1 < rs[k + 1].Min {
      assert rs[k] == ToRange(ms[k]) && rs[k + 1] == ToRange(ms[k + 1]);
    }
  }

  /** For a parsed filter, normalisation keeps exactly the accepted numbers. */
  lemma NormalizeParsed(v: string)
    requires ParseFilter(v).Success?
    ensures var f := ParseFilter(v).value;
            forall n :: InUnion(NormalizeCorrected(f.Ranges), n) <==> Accepts(f, n)
  {
    var f := ParseFilter(v).value;
    ParsedOpen(v);
    NormalizeMembers(f.Ranges);
  }

  /** A parsed filter has no range closed at an infinity. */
  lemma ParsedOpen(v: string)
    requires ParseFilter(v).Success?
    ensures var f := ParseFilter(v).value;
            forall k :: 0 <= k < |f.Ranges| ==> OpenAtInfinity(f.Ranges[k])
  {
    if TrimSpace(v) != "all" {
      ParsedRangesOrdered(v);
      TokenRangesOpen(ParseFilter(v).value.Ranges);
    }
  }

  lemma TokenRangesOpen(rs: seq<IntRange>)
    requires forall k :: 0 <= k < |rs| ==> TokenRange(rs[k])
    ensures forall k :: 0 <= k < |rs| ==> OpenAtInfinity(rs[k])
  {
  }

  // ------------------------------------------- the normalisation as written

  /** The shape of a list normalised as written: every range is a single
      value, a closed interval or a range from a natural number on; the lower
      ends ascend; every range but the last is bounded and ends more than one
      below the start of the next. A closed interval may be empty. */
  ghost predicate WrittenCanonical(rs: seq<IntRange>) {
    && (forall k :: 0 <= k < |rs| ==>
          && rs[k].Min >= 0
          && (|| rs[k] == NewSingleValueIntRange(rs[k].Min)
              || rs[k] == NewInclusiveIntRange(rs[k].Min, rs[k].Max)
              || rs[k] == NewGreaterOrEqualThanIntRange(rs[k].Min)))
    && (forall k :: 0 <= k < |rs| - 1 ==>
          !rs[k].MaxUnbounded && rs[k].Max + 1 < rs[k + 1].Min && rs[k].Min <= rs[k + 1].Min)
  }

  lemma ToRangesWrittenShape(ms: seq<SRange>)
    requires WrittenShape(ms)
    ensures WrittenCanonical(ToRanges(ms))
  {
    var rs := ToRanges(ms);
    forall k | 0 <= k < |rs| - 1
      ensures !rs[k].MaxUnbounded && rs[k].Max + 1 < rs[k + 1].Min && rs[k].Min <= rs[k + 1].Min
    {
      assert rs[k] == ToRange(ms[k]) && rs[k + 1] == ToRange(ms[k + 1]);
    }
  }

  /** The normalisation as written gives a list of the shape above, and the
      empty list exactly when no range survives the clamping. */
  lemma NormalizeAsWrittenShape(rs: seq<IntRange>)
    ensures WrittenCanonical(NormalizeAsWritten(rs))
    ensures NormalizeAsWritten(rs) == [] <==> Valids(rs) == []
  {
    var vs := Valids(rs);
    if vs != [] {
      var srs := Collect(vs);
      CollectShape(vs);
      CollectNonEmpty(vs);
      var sorted := SortSRanges(srs);
      SortedShape(srs, sorted);
      MergeAsWrittenShape([], sorted);
      ToRangesWrittenShape(MergeRestAsWritten([], sorted));
    }
  }

  /** The normalisation as written never adds a number: what it keeps is a
      natural member of the input. */
  lemma NormalizeAsWrittenSound(rs: seq<IntRange>)
    requires forall k :: 0 <= k < |rs| ==> OpenAtInfinity(rs[k])
    ensures forall n :: InUnion(NormalizeAsWritten(rs), n) ==> n >= 0 && InUnion(rs, n)
  {
    var vs := Valids(rs);
    forall n | InUnion(NormalizeAsWritten(rs), n) ensures n >= 0 && InUnion(rs, n) {
      ValidsMembers(rs, n);
      var srs := Collect(vs);
      CollectShape(vs);
      var sorted := SortSRanges(srs);
      SortedShape(srs, sorted);
      MergeAsWrittenShape([], sorted);
      var merged := MergeRestAsWritten([], sorted);
      assert NormalizeAsWritten(rs) == ToRanges(merged);
      ToRangesMembers(merged, n);
      PermutationMembers(srs, sorted, n);
      CollectMembers(vs, n);
    }
  }

  /** For a parsed filter, every number the normalisation as written keeps is
      accepted by the filter. */
  lemma NormalizeAsWrittenParsed(v: string)
    requires ParseFilter(v).Success?
    ensures var f := ParseFilter(v).value;
            forall n :: InUnion(NormalizeAsWritten(f.Ranges), n) ==> Accepts(f, n)
  {
    var f := ParseFilter(v).value;
    ParsedOpen(v);
    NormalizeAsWrittenSound(f.Ranges);
  }

  /** A list of the written shape with no empty range has the shape the
      parser reads back. */
  lemma WrittenCanonicalValid(rs: seq<IntRange>)
    requires WrittenCanonical(rs)
    requires forall k :: 0 <= k < |rs| ==> IsValid(rs[k])
    ensures Canonical(rs)
  {
    forall k | 0 <= k < |rs| ensures TokenRange(rs[k]) && !rs[k].MinUnbounded {
      assert IsValid(rs[k]);
    }
  }

  // ------------------------------------------------------------------ String

  /** The text of one normalised range: `N-`, `N` or `N-M`. */
  function Part(r: IntRange): string {
    if !IsUpperBounded(r) then Itoa(r.Min) + "-"
    else if r.Min == r.Max then Itoa(r.Min)
    else Itoa(r.Min) + "-" + Itoa(r.Max)
  }

  function Parts(rs: seq<IntRange>): (ps: seq<string>)
    ensures |ps| == |rs|
    ensures forall k :: 0 <= k < |rs| ==> ps[k] == Part(rs[k])
  {
    if rs == [] then []
    else
      var init := rs[..|rs| - 1];
      Parts(init) + [Part(rs[|rs| - 1])]
  }

  /** One more range, one more part at the end. */
  lemma PartsSnoc(rs: seq<IntRange>, i: nat)
    requires i < |rs|
    ensures Parts(rs[..i + 1]) == Parts(rs[..i]) + [Part(rs[i])]
  {
    assert rs[..i + 1][..i] == rs[..i];
  }

  /** The text of a filter: the text of its normalised ranges. */
  function FilterString(f: NaturalRangeFilter): string {
    RangesText(NormalizeAsWritten(f.Ranges))
  }

  /** The text of a filter with the corrected normalisation. */
  function FilterStringCorrected(f: NaturalRangeFilter): string {
    RangesText(NormalizeCorrected(f.Ranges))
  }

  /** The text of a normalised list: empty, `all` for every natural number, or
      the ranges' texts joined by `_`. */
  function RangesText(norm: seq<IntRange>): string {
    if |norm| == 0 then ""
    else if |norm| == 1 && norm[0].MaxUnbounded && norm[0].Min == 0 then "all"
    else Join(Parts(norm), "_")
  }

  method String(f: NaturalRangeFilter) returns (s: string)
    ensures s == FilterString(f)
  {
    var norm := Normalize(f);
    s := WriteRanges(norm);
  }

  /** The text loop of String. */
  method WriteRanges(norm: seq<IntRange>) returns (s: string)
    ensures s == RangesText(norm)
  {
    if |norm| == 0 {
      return "";
    }
    if |norm| == 1 && norm[0].MaxUnbounded && norm[0].Min == 0 {
      return "all";
    }
    var parts: seq<string> := [];
    for i := 0 to |norm|
      invariant parts == Parts(norm[..i])
    {
      var r := norm[i];
      var p: string;
      if !IsUpperBounded(r) {
        p := Itoa(r.Min) + "-";
      } else if r.Min == r.Max {
        p := Itoa(r.Min);
      } else {
        p := Itoa(r.Min) + "-" + Itoa(r.Max);
      }
      assert p == Part(r);
      PartsSnoc(norm, i);
      parts := parts + [p];
    }
    assert norm[..|norm|] == norm;
    s := Join(parts, "_");
  }

  predicate PartChar(c: char) {
    IsDigit(c) || c == '-'
  }

  /** The text of a range of a normalised list is made of digits and dashes only. */
  lemma PartShape(r: IntRange)
    requires TokenRange(r) && !r.MinUnbounded
    ensures Part(r) != [] && forall i :: 0 <= i < |Part(r)| ==> PartChar(Part(r)[i])
  {
  }

  lemma CountDashes(a: string, b: string)
    requires AllDigits(a) && AllDigits(b)
    ensures CountChar(a + "-" + b, '-') == 1 && IndexOf(a + "-" + b, '-') == |a|
  {
    var t := a + "-" + b;
    assert '-' !in a && '-' !in b;
    assert multiset(t) == multiset(a) + multiset{'-'} + multiset(b);
    assert t[..|a|] == a;
    IndexOfFirst(t, '-', |a|);
  }

  /** `N-` is read as [N, +inf). */
  lemma ParseFromToken(d: string, a: nat, prev: int)
    requires d != [] && AllDigits(d) && ParseNaturalNumber(d) == Success(a) && prev <= a
    ensures ParseToken(d + "-", prev) == Append(NewGreaterOrEqualThanIntRange(a), a)
  {
    var t := d + "-";
    CountDashes(d, "");
    assert t == d + "-" + "";
    assert t[..|d|] == d && t[|d| + 1..] == "";
  }

  /** `N` is read as the single value N. */
  lemma ParseValueToken(d: string, a: nat, prev: int)
    requires d != [] && AllDigits(d) && ParseNaturalNumber(d) == Success(a) && prev <= a
    ensures ParseToken(d, prev) == Append(NewSingleValueIntRange(a), a)
  {
    assert '-' !in d;
    assert CountChar(d, '-') == 0;
  }

  /** `N-M` is read as [N, M]. */
  lemma ParseIntervalToken(d: string, e: string, a: nat, b: nat, prev: int)
    requires d != [] && AllDigits(d) && ParseNaturalNumber(d) == Success(a)
    requires e != [] && AllDigits(e) && ParseNaturalNumber(e) == Success(b)
    requires prev <= a <= b
    ensures ParseToken(d + "-" + e, prev) == Append(NewInclusiveIntRange(a, b), b)
  {
    var t := d + "-" + e;
    CountDashes(d, e);
    assert t[..|d|] == d && t[|d| + 1..] == e;
  }

  /** The parser reads the text of a range of a normalised list back as that
      range, given that no earlier number exceeds its lower end. */
  lemma PartParses(r: IntRange, prev: int)
    requires TokenRange(r) && !r.MinUnbounded && prev <= r.Min
    ensures Part(r) != "" && ParseToken(Part(r), prev) == Append(r, Hi(r))
  {
    var a: nat := r.Min;
    ParseNaturalNumberItoa(a);
    if !IsUpperBounded(r) {
      ParseFromToken(Itoa(a), a, prev);
    } else if r.Min == r.Max {
      ParseValueToken(Itoa(a), a, prev);
    } else {
      var b: nat := r.Max;
      ParseNaturalNumberItoa(b);
      ParseIntervalToken(Itoa(a), Itoa(b), a, b, prev);
    }
  }

  /** The tokens from position i on are read back as the rest of the list. */
  lemma {:induction false} CanonicalTokensParse(norm: seq<IntRange>, i: nat, prev: int)
    requires Canonical(norm) && i <= |norm|
    requires i < |norm| ==> prev <= norm[i].Min
    ensures ParseTokens(Parts(norm), i, prev, norm[..i]) == Success(NaturalRangeFilter(norm))
    decreases |norm| - i
  {
    var tokens := Parts(norm);
    if i == |norm| {
      assert norm[..i] == norm;
      TokensDone(tokens, prev, norm);
    } else {
      var next := TokenStep(norm, i, prev);
      CanonicalTokensParse(norm, i + 1, next);
    }
  }

  /** Past the last token, the filter is the ranges read so far. */
  lemma TokensDone(tokens: seq<string>, prev: int, acc: seq<IntRange>)
    ensures ParseTokens(tokens, |tokens|, prev, acc) == Success(NaturalRangeFilter(acc))
  {
  }

  /** Reading token i of a normalised list gives its range i, and the number
      handed on does not exceed the next lower end. */
  lemma TokenStep(norm: seq<IntRange>, i: nat, prev: int) returns (next: int)
    requires Canonical(norm) && i < |norm| && prev <= norm[i].Min
    ensures ParseTokens(Parts(norm), i, prev, norm[..i]) == ParseTokens(Parts(norm), i + 1, next, norm[..i + 1])
    ensures i + 1 < |norm| ==> next <= norm[i + 1].Min
  {
    assert norm[..i] + [norm[i]] == norm[..i + 1];
    var r := norm[i];
    var tokens := Parts(norm);
    PartShape(r);
    TrimSpaceUnchanged(tokens[i]);
    PartParses(r, prev);
    next := Hi(r);
    ParseTokensAppend(tokens, i, prev, norm[..i], r, next);
  }

  lemma JoinLength(parts: seq<string>, sep: string)
    requires parts != []
    ensures |Join(parts, sep)| >= |parts[0]|
  {
  }

  /** The joined text keeps to digits, dashes and underscores. */
  lemma {:induction false} JoinedChars(parts: seq<string>)
    requires forall k, i :: 0 <= k < |parts| && 0 <= i < |parts[k]| ==> PartChar(parts[k][i])
    ensures forall i :: 0 <= i < |Join(parts, "_")| ==> PartChar(Join(parts, "_")[i]) || Join(parts, "_")[i] == '_'
    decreases |parts|
  {
    if |parts| > 1 {
      JoinedChars(parts[1..]);
      assert Join(parts, "_") == parts[0] + "_" + Join(parts[1..], "_");
    }
  }

  /** With the corrected normalisation, the text is always read back by the
      parser as the normalised ranges themselves, except `all`, which is read
      as the unbounded range with the same natural members. */
  lemma StringRoundTrip(f: NaturalRangeFilter)
    ensures ParseFilter(FilterStringCorrected(f)).Success?
    ensures var g := ParseFilter(FilterStringCorrected(f)).value;
            var norm := NormalizeCorrected(f.Ranges);
            && (FilterStringCorrected(f) != "all" ==> g.Ranges == norm)
            && forall n :: Accepts(g, n) <==> n >= 0 && InUnion(norm, n)
  {
    NormalizeCanonical(f.Ranges);
    RangesTextRoundTrip(NormalizeCorrected(f.Ranges));
  }

  lemma RangesTextRoundTrip(norm: seq<IntRange>)
    requires Canonical(norm)
    ensures ParseFilter(RangesText(norm)).Success?
    ensures var g := ParseFilter(RangesText(norm)).value;
            && (RangesText(norm) != "all" ==> g.Ranges == norm)
            && forall n :: Accepts(g, n) <==> n >= 0 && InUnion(norm, n)
  {
    if |norm| == 0 {
      assert RangesText(norm) == "";
    } else if |norm| == 1 && norm[0].MaxUnbounded && norm[0].Min == 0 {
      assert TokenRange(norm[0]) && !norm[0].MinUnbounded;
      assert norm == [NewGreaterOrEqualThanIntRange(0)];
      assert RangesText(norm) == "all";
      AllTextParses();
      AllTextMembers(norm);
    } else {
      assert RangesText(norm) == Join(Parts(norm), "_");
      JoinedParses(norm);
    }
  }

  /** The text `all` is read as the unbounded range. */
  lemma AllTextParses()
    ensures ParseFilter("all") == Success(NaturalRangeFilter([NewUnboundedIntRange()]))
  {
    TrimSpaceUnchanged("all");
  }

  /** The unbounded range has the natural members of [0, +inf). */
  lemma AllTextMembers(norm: seq<IntRange>)
    requires norm == [NewGreaterOrEqualThanIntRange(0)]
    ensures forall n :: Accepts(NaturalRangeFilter([NewUnboundedIntRange()]), n) <==> n >= 0 && InUnion(norm, n)
  {
    forall n ensures Accepts(NaturalRangeFilter([NewUnboundedIntRange()]), n) <==> n >= 0 && InUnion(norm, n) {
      InUnionSingle(norm[0], n);
      InUnionSingle(NewUnboundedIntRange(), n);
    }
  }

  /** The joined texts of a non-empty normalised list are read back as the list. */
  lemma JoinedParses(norm: seq<IntRange>)
    requires Canonical(norm) && norm != []
    ensures ParseFilter(Join(Parts(norm), "_")) == Success(NaturalRangeFilter(norm))
  {
    var s := Join(Parts(norm), "_");
    JoinedText(norm);
    ParseFilterTokens(s);
    CanonicalTokensParseAll(norm);
  }

  lemma CanonicalTokensParseAll(norm: seq<IntRange>)
    requires Canonical(norm)
    ensures ParseTokens(Parts(norm), 0, 0, []) == Success(NaturalRangeFilter(norm))
  {
    assert norm[..0] == [];
    if norm != [] {
      assert 0 <= norm[0].Min;
    }
    CanonicalTokensParse(norm, 0, 0);
  }

  /** The joined text needs no trimming, is neither empty nor `all`, and splits
      back into its parts. */
  lemma JoinedText(norm: seq<IntRange>)
    requires Canonical(norm) && norm != []
    ensures var s := Join(Parts(norm), "_");
            TrimSpace(s) == s && s != "" && s[0] != 'a' && Split(s, '_') == Parts(norm)
  {
    var parts := Parts(norm);
    var s := Join(parts, "_");
    forall k | 0 <= k < |parts| ensures parts[k] != [] && forall i :: 0 <= i < |parts[k]| ==> PartChar(parts[k][i]) {
      PartShape(norm[k]);
    }
    JoinedChars(parts);
    JoinLength(parts, "_");
    TrimSpaceUnchanged(s);
    assert s[0] != 'a';
    forall k | 0 <= k < |parts| ensures '_' !in parts[k] {
      assert forall i :: 0 <= i < |parts[k]| ==> PartChar(parts[k][i]);
    }
    JoinSplit(parts, '_');
  }

  /** With the corrected normalisation, the text of a filter read from text
      is read back as a filter accepting the same numbers. */
  lemma StringPreservesAccepted(v: string)
    requires ParseFilter(v).Success?
    ensures var f := ParseFilter(v).value;
            ParseFilter(FilterStringCorrected(f)).Success?
            && forall n :: Accepts(ParseFilter(FilterStringCorrected(f)).value, n) <==> Accepts(f, n)
  {
    var f := ParseFilter(v).value;
    StringRoundTrip(f);
    NormalizeParsed(v);
  }

  /** The text String gives is read back by the parser whenever the
      normalisation as written left no empty interval: as the normalised
      ranges themselves, except `all`, and accepting exactly their natural
      members. */
  lemma StringReadsBack(f: NaturalRangeFilter)
    ensures var norm := NormalizeAsWritten(f.Ranges);
            (forall k :: 0 <= k < |norm| ==> IsValid(norm[k])) ==>
              && ParseFilter(FilterString(f)).Success?
              && (FilterString(f) != "all" ==> ParseFilter(FilterString(f)).value.Ranges == norm)
              && forall n :: Accepts(ParseFilter(FilterString(f)).value, n) <==> n >= 0 && InUnion(norm, n)
  {
    var norm := NormalizeAsWritten(f.Ranges);
    if forall k :: 0 <= k < |norm| ==> IsValid(norm[k]) {
      NormalizeAsWrittenShape(f.Ranges);
      WrittenCanonicalValid(norm);
      RangesTextRoundTrip(norm);
    }
  }

  /** For a filter read from text, the text String gives, when the
      normalisation left no empty interval, is read back as a filter that
      accepts no number the original refuses. */
  lemma StringAcceptsNoMore(v: string)
    requires ParseFilter(v).Success?
    ensures var f := ParseFilter(v).value;
            var norm := NormalizeAsWritten(f.Ranges);
            (forall k :: 0 <= k < |norm| ==> IsValid(norm[k])) ==>
              && ParseFilter(FilterString(f)).Success?
              && forall n :: Accepts(ParseFilter(FilterString(f)).value, n) ==> Accepts(f, n)
  {
    var f := ParseFilter(v).value;
    StringReadsBack(f);
    NormalizeAsWrittenParsed(v);
  }

  // ------------------------------------------ examples and the merge's loss

  /** Reading a token that needs no trimming and is read as a range. */
  lemma ParseTokensAppend(tokens: seq<string>, i: nat, prev: int, acc: seq<IntRange>, r: IntRange, next: int)
    requires i < |tokens| && tokens[i] != "" && TrimSpace(tokens[i]) == tokens[i]
    requires ParseToken(tokens[i], prev) == Append(r, next)
    ensures ParseTokens(tokens, i, prev, acc) == ParseTokens(tokens, i + 1, next, acc + [r])
  {
  }

  /** The value a followed by the range from a + 1 on: for a = 1, `1_2-`. */
  function AdjacentPair(a: nat): seq<IntRange> {
    [NewSingleValueIntRange(a), NewGreaterOrEqualThanIntRange(a + 1)]
  }

  function AdjacentPairText(a: nat): string {
    Itoa(a) + "_" + Itoa(a + 1) + "-"
  }

  lemma AdjacentPairTokens(a: nat)
    ensures TrimSpace(AdjacentPairText(a)) == AdjacentPairText(a)
    ensures Split(AdjacentPairText(a), '_') == [Itoa(a), Itoa(a + 1) + "-"]
  {
    var p0, p1 := Itoa(a), Itoa(a + 1) + "-";
    assert AdjacentPairText(a) == p0 + "_" + p1;
    assert p0 != [] && '_' !in p0 && '_' !in p1;
    TwoPartsSplit(p0, p1, '_');
    assert !IsSpace(p0[0]);
    TwoPartsTrim(p0, p1, "_");
  }

  lemma TwoPartsSplit(p0: string, p1: string, c: char)
    requires c !in p0 && c !in p1
    ensures Split(p0 + [c] + p1, c) == [p0, p1]
  {
    assert [p0, p1][1..] == [p1];
    JoinCons(p0, [p1], [c]);
    JoinSplit([p0, p1], c);
  }

  lemma TwoPartsTrim(p0: string, p1: string, sep: string)
    requires p0 != [] && !IsSpace(p0[0]) && p1 != [] && !IsSpace(p1[|p1| - 1])
    ensures TrimSpace(p0 + sep + p1) == p0 + sep + p1
  {
    var t := p0 + sep + p1;
    assert t[0] == p0[0] && t[|t| - 1] == p1[|p1| - 1];
    TrimSpaceUnchanged(t);
  }

  /** Two tokens, each read as a range, make a filter of those two ranges. */
  lemma TwoTokensParse(t0: string, t1: string, r1: IntRange, n1: int, r2: IntRange, n2: int)
    requires t0 != "" && TrimSpace(t0) == t0 && ParseToken(t0, 0) == Append(r1, n1)
    requires t1 != "" && TrimSpace(t1) == t1 && ParseToken(t1, n1) == Append(r2, n2)
    ensures ParseTokens([t0, t1], 0, 0, []) == Success(NaturalRangeFilter([r1, r2]))
  {
    assert [] + [r1] == [r1] && [r1] + [r2] == [r1, r2];
    ParseTokensAppend([t0, t1], 0, 0, [], r1, n1);
    ParseTokensAppend([t0, t1], 1, n1, [r1], r2, n2);
  }

  /** The filter text of the pair is read as the pair. */
  lemma AdjacentPairParses(a: nat)
    ensures ParseFilter(AdjacentPairText(a)) == Success(NaturalRangeFilter(AdjacentPair(a)))
  {
    var t := AdjacentPairText(a);
    AdjacentPairTokens(a);
    assert t[0] == Itoa(a)[0];
    ParseFilterTokens(t);
    AdjacentTokensRead(a);
    TwoTokensParse(Itoa(a), Itoa(a + 1) + "-", NewSingleValueIntRange(a), a, NewGreaterOrEqualThanIntRange(a + 1), a + 1);
  }

  /** How the two tokens of the pair text are read. */
  lemma AdjacentTokensRead(a: nat)
    ensures Itoa(a) != "" && TrimSpace(Itoa(a)) == Itoa(a)
    ensures ParseToken(Itoa(a), 0) == Append(NewSingleValueIntRange(a), a)
    ensures TrimSpace(Itoa(a + 1) + "-") == Itoa(a + 1) + "-"
    ensures ParseToken(Itoa(a + 1) + "-", a) == Append(NewGreaterOrEqualThanIntRange(a + 1), a + 1)
  {
    ValueTokenRead(a, 0);
    FromTokenRead(a + 1, a);
  }

  /** The decimal text of a natural number is read as that single value. */
  lemma ValueTokenRead(a: nat, prev: int)
    requires prev <= a
    ensures Itoa(a) != "" && TrimSpace(Itoa(a)) == Itoa(a)
    ensures ParseToken(Itoa(a), prev) == Append(NewSingleValueIntRange(a), a)
  {
    ParseNaturalNumberItoa(a);
    ParseValueToken(Itoa(a), a, prev);
    TrimSpaceUnchanged(Itoa(a));
  }

  /** The decimal text of a natural number and a dash is read as the range from it on. */
  lemma FromTokenRead(a: nat, prev: int)
    requires prev <= a
    ensures TrimSpace(Itoa(a) + "-") == Itoa(a) + "-"
    ensures ParseToken(Itoa(a) + "-", prev) == Append(NewGreaterOrEqualThanIntRange(a), a)
  {
    ParseNaturalNumberItoa(a);
    ParseFromToken(Itoa(a), a, prev);
    TrimSpaceUnchanged(Itoa(a) + "-");
  }

  /** A text that needs no trimming and is neither empty nor `all` is read as
      its tokens. */
  lemma ParseFilterTokens(t: string)
    requires TrimSpace(t) == t && t != [] && t[0] != 'a'
    ensures ParseFilter(t) == ParseTokens(Split(t, '_'), 0, 0, [])
  {
  }

  /** Two ranges that clamping leaves alone and keeps. */
  lemma TwoValids(r1: IntRange, r2: IntRange)
    requires Clamp(r1) == r1 && Keep(r1) && Clamp(r2) == r2 && Keep(r2)
    ensures Valids([r1, r2]) == [r1, r2]
  {
    assert [r1][..0] == [] && [r1, r2][..1] == [r1];
    assert Valids([r1]) == [r1];
  }

  lemma ClampSingle(a: nat)
    ensures Clamp(NewSingleValueIntRange(a)) == NewSingleValueIntRange(a) && Keep(NewSingleValueIntRange(a))
  {
  }

  lemma ClampFrom(a: nat)
    ensures Clamp(NewGreaterOrEqualThanIntRange(a)) == NewGreaterOrEqualThanIntRange(a)
    ensures Keep(NewGreaterOrEqualThanIntRange(a))
  {
  }

  lemma AdjacentPairValids(a: nat)
    ensures Valids(AdjacentPair(a)) == AdjacentPair(a)
  {
    ClampSingle(a);
    ClampFrom(a + 1);
    TwoValids(NewSingleValueIntRange(a), NewGreaterOrEqualThanIntRange(a + 1));
  }

  /** The stages of NormalizeCorrected, for a list with kept ranges. */
  lemma NormalizeCorrectedStages(rs: seq<IntRange>)
    requires Valids(rs) != []
    ensures var sorted := SortSRanges(Collect(Valids(rs)));
            && AllProperNatural(sorted) && MinSorted(sorted)
            && NormalizeCorrected(rs) == ToRanges(MergeRest([], sorted))
  {
    var vs := Valids(rs);
    CollectShape(vs);
    SortedShape(Collect(vs), SortSRanges(Collect(vs)));
    CollectNonEmpty(vs);
  }

  lemma CollectNonEmpty(vs: seq<IntRange>)
    requires vs != [] && forall k :: 0 <= k < |vs| ==> IsClosedNatural(vs[k])
    ensures Collect(vs) != []
  {
    var r := vs[|vs| - 1];
    if !r.MaxUnbounded {
      assert BoundedPart(vs) != [];
    } else {
      assert RightMin(vs).Some?;
    }
  }

  /** Merging two intervals where the second starts within one of the first's end. */
  lemma MergeTwo(x: SRange, y: SRange)
    requires Proper(x) && Proper(y) && 0 <= x.min <= y.min
    requires !x.maxUn && x.max + 1 >= y.min
    ensures AllProperNatural([x, y]) && MinSorted([x, y])
    ensures MergeRest([], [x, y]) == [Absorb(x, y)]
  {
    assert [x, y][1..] == [y] && [y][1..] == [];
    assert [x][..0] + [Absorb(x, y)] == [Absorb(x, y)];
    assert MergeRest([], [x, y]) == MergeRest([x], [y]);
    assert MergeRest([x], [y]) == MergeRest([Absorb(x, y)], []);
  }

  lemma MergeTwoAsWritten(x: SRange, y: SRange)
    requires !x.maxUn && x.max + 1 >= y.min
    ensures MergeRestAsWritten([], [x, y]) == [x.(max := y.max)]
  {
    assert [x, y][1..] == [y] && [y][1..] == [];
    assert [x][..0] + [x.(max := y.max)] == [x.(max := y.max)];
    assert MergeRestAsWritten([], [x, y]) == MergeRestAsWritten([x], [y]);
    assert MergeRestAsWritten([x], [y]) == MergeRestAsWritten([x.(max := y.max)], []);
  }

  /** The pair before merging: the value, then the unbounded range. */
  lemma AdjacentPairSorted(a: nat)
    ensures SortSRanges(Collect(AdjacentPair(a))) == [SRange(a, a, false), SRange(a + 1, 0, true)]
  {
    var r1 := NewSingleValueIntRange(a);
    var r2 := NewGreaterOrEqualThanIntRange(a + 1);
    assert [r1][..0] == [] && AdjacentPair(a)[..1] == [r1];
    assert RightMin([r1]) == None;
    assert RightMin(AdjacentPair(a)) == Some(a + 1);
    assert BoundedPart([r1]) == [SRange(a, a, false)];
    assert BoundedPart(AdjacentPair(a)) == [SRange(a, a, false)];
    var srs := [SRange(a + 1, 0, true), SRange(a, a, false)];
    assert Collect(AdjacentPair(a)) == srs;
    assert srs[1..] == [SRange(a, a, false)];
    assert SortSRanges(srs[1..]) == [SRange(a, a, false)];
    assert Insert(SRange(a + 1, 0, true), [SRange(a, a, false)]) == [SRange(a, a, false), SRange(a + 1, 0, true)];
  }

  /** The merge as written turns the pair, which accepts every number from a
      on, into the interval [a, 0]: empty for a > 0, and missing a + 1 always. */
  lemma MergeAsWrittenLosesNumbers(a: nat)
    ensures NormalizeAsWritten(AdjacentPair(a)) == [ToRange(SRange(a, 0, false))]
    ensures InUnion(AdjacentPair(a), a + 1) && !InUnion(NormalizeAsWritten(AdjacentPair(a)), a + 1)
  {
    AdjacentPairValids(a);
    AdjacentPairSorted(a);
    var x, y := SRange(a, a, false), SRange(a + 1, 0, true);
    MergeTwoAsWritten(x, y);
    var out := [ToRange(SRange(a, 0, false))];
    assert ToRanges([SRange(a, 0, false)]) == out;
    assert AdjacentPair(a)[1] in AdjacentPair(a);
    InUnionSingle(out[0], a + 1);
  }

  /** The corrected merge gives back [a, +inf) for the pair. */
  lemma MergeCorrectedKeepsNumbers(a: nat)
    ensures NormalizeCorrected(AdjacentPair(a)) == [NewGreaterOrEqualThanIntRange(a)]
  {
    AdjacentPairValids(a);
    NormalizeCorrectedStages(AdjacentPair(a));
    AdjacentPairSorted(a);
    var x, y := SRange(a, a, false), SRange(a + 1, 0, true);
    MergeTwo(x, y);
    assert Absorb(x, y) == SRange(a, a, true);
    assert ToRanges([SRange(a, a, true)]) == [NewGreaterOrEqualThanIntRange(a)];
  }

  // ------------------------------------------------- the documented examples

  /** A digit is printed and read as itself. */
  lemma Digit(d: nat)
    requires d < 10
    ensures Itoa(d) == [DigitChar(d)] && ParseNaturalNumber([DigitChar(d)]) == Success(d)
  {
    ParseNaturalNumberItoa(d);
  }

  /** A text of two tokens that need no trimming, each read as a range. */
  lemma TwoTokenText(p0: string, p1: string, r1: IntRange, n1: int, r2: IntRange, n2: int)
    requires p0 != "" && p1 != "" && '_' !in p0 && '_' !in p1 && p0[0] != 'a'
    requires !IsSpace(p0[0]) && !IsSpace(p0[|p0| - 1]) && !IsSpace(p1[0]) && !IsSpace(p1[|p1| - 1])
    requires ParseToken(p0, 0) == Append(r1, n1) && ParseToken(p1, n1) == Append(r2, n2)
    ensures ParseFilter(p0 + "_" + p1) == Success(NaturalRangeFilter([r1, r2]))
  {
    TwoPartsSplit(p0, p1, '_');
    assert p0 + "_" + p1 == p0 + ['_'] + p1;
    TwoPartsTrim(p0, p1, "_");
    var t := p0 + "_" + p1;
    assert t[0] == p0[0];
    ParseFilterTokens(t);
    TrimSpaceUnchanged(p0);
    TrimSpaceUnchanged(p1);
    TwoTokensParse(p0, p1, r1, n1, r2, n2);
  }

  lemma TouchingParses()
    ensures ParseFilter("1-3_4") == Success(NaturalRangeFilter([NewInclusiveIntRange(1, 3), NewSingleValueIntRange(4)]))
  {
    TouchingTokens();
    assert "1-3_4" == "1-3" + "_" + "4";
    TwoTokenText("1-3", "4", NewInclusiveIntRange(1, 3), 3, NewSingleValueIntRange(4), 4);
  }

  lemma TouchingTokens()
    ensures ParseToken("1-3", 0) == Append(NewInclusiveIntRange(1, 3), 3)
    ensures ParseToken("4", 3) == Append(NewSingleValueIntRange(4), 4)
  {
    Digit(1); Digit(3); Digit(4);
    assert "1-3" == "1" + "-" + "3";
    ParseIntervalToken("1", "3", 1, 3, 0);
    ParseValueToken("4", 4, 3);
  }

  /** Two closed intervals that clamping keeps, the second starting within
      one of the first's end, normalise as written to one interval. */
  lemma TwoTouchingNormalize(r1: IntRange, r2: IntRange)
    requires Clamp(r1) == r1 && Keep(r1) && Clamp(r2) == r2 && Keep(r2)
    requires !r1.MaxUnbounded && !r2.MaxUnbounded && r1.Min < r2.Min && r1.Max + 1 >= r2.Min
    ensures NormalizeAsWritten([r1, r2]) == [ToRange(SRange(r1.Min, r2.Max, false))]
  {
    TwoValids(r1, r2);
    TwoCollect(r1, r2);
    var x, y := SRange(r1.Min, r1.Max, false), SRange(r2.Min, r2.Max, false);
    assert Sorted([x, y]);
    SortSorted([x, y]);
    MergeTwoAsWritten(x, y);
  }

  lemma TwoCollect(r1: IntRange, r2: IntRange)
    requires !r1.MinUnbounded && !r2.MinUnbounded && !r1.MaxUnbounded && !r2.MaxUnbounded
    ensures Collect([r1, r2]) == [SRange(r1.Min, r1.Max, false), SRange(r2.Min, r2.Max, false)]
  {
    var x, y := SRange(r1.Min, r1.Max, false), SRange(r2.Min, r2.Max, false);
    assert [r1, r2][..1] == [r1] && [r1][..0] == [];
    assert BoundedPart([r1]) == [x];
    assert BoundedPart([r1, r2]) == [x, y];
    assert RightMin([r1, r2]) == None;
  }

  /** The text of a filter is the text of its ranges normalised as written. */
  lemma TextOfNormalized(f: NaturalRangeFilter, out: seq<IntRange>)
    requires NormalizeAsWritten(f.Ranges) == out
    ensures FilterString(f) == RangesText(out)
  {
  }

  /** The text of two such touching intervals is the text of their merge. */
  lemma TwoTouchingText(r1: IntRange, r2: IntRange)
    requires Clamp(r1) == r1 && Keep(r1) && Clamp(r2) == r2 && Keep(r2)
    requires !r1.MaxUnbounded && !r2.MaxUnbounded && r1.Min < r2.Min && r1.Max + 1 >= r2.Min
    ensures FilterString(NaturalRangeFilter([r1, r2])) == Part(ToRange(SRange(r1.Min, r2.Max, false)))
  {
    var m := ToRange(SRange(r1.Min, r2.Max, false));
    TwoTouchingNormalize(r1, r2);
    TextOfNormalized(NaturalRangeFilter([r1, r2]), [m]);
    assert !m.MaxUnbounded;
    assert RangesText([m]) == Join(Parts([m]), "_");
    assert Parts([m]) == [Part(m)];
  }

  lemma TouchingText()
    ensures FilterString(NaturalRangeFilter([NewInclusiveIntRange(1, 3), NewSingleValueIntRange(4)])) == "1-4"
  {
    Digit(1); Digit(4);
    assert Part(ToRange(SRange(1, 4, false))) == "1-4";
    ClampInclusive(1, 3);
    ClampSingle(4);
    TwoTouchingText(NewInclusiveIntRange(1, 3), NewSingleValueIntRange(4));
  }

  lemma AdjacentValuesParses()
    ensures ParseFilter("1_2") == Success(NaturalRangeFilter([NewSingleValueIntRange(1), NewSingleValueIntRange(2)]))
  {
    ValueTokenRead(1, 0);
    ValueTokenRead(2, 1);
    Digit(1); Digit(2);
    assert "1_2" == "1" + "_" + "2";
    TwoTokenText("1", "2", NewSingleValueIntRange(1), 1, NewSingleValueIntRange(2), 2);
  }

  lemma AdjacentValuesText()
    ensures FilterString(NaturalRangeFilter([NewSingleValueIntRange(1), NewSingleValueIntRange(2)])) == "1-2"
  {
    Digit(1); Digit(2);
    assert Part(ToRange(SRange(1, 2, false))) == "1-2";
    ClampSingle(1);
    ClampSingle(2);
    TwoTouchingText(NewSingleValueIntRange(1), NewSingleValueIntRange(2));
  }

  /** `-M` is read as (-inf, M]. */
  lemma ParseUpToToken(e: string, b: nat, prev: int)
    requires e != [] && AllDigits(e) && ParseNaturalNumber(e) == Success(b) && prev <= b
    ensures ParseToken("-" + e, prev) == Append(NewLessOrEqualThanIntRange(b), b)
  {
    var t := "-" + e;
    CountDashes("", e);
    assert t == "" + "-" + e;
    assert t[..0] == "" && t[1..] == e;
  }

  /** A text of one token that needs no trimming, read as a range. */
  lemma OneTokenText(p: string, r: IntRange, n: int)
    requires p != "" && '_' !in p && p[0] != 'a' && !IsSpace(p[0]) && !IsSpace(p[|p| - 1])
    requires ParseToken(p, 0) == Append(r, n)
    ensures ParseFilter(p) == Success(NaturalRangeFilter([r]))
  {
    assert Split(p, '_') == [p];
    TrimSpaceUnchanged(p);
    ParseFilterTokens(p);
    assert [] + [r] == [r];
    ParseTokensAppend([p], 0, 0, [], r, n);
  }

  lemma UpToParses()
    ensures ParseFilter("-4") == Success(NaturalRangeFilter([NewLessOrEqualThanIntRange(4)]))
  {
    Digit(4);
    ParseUpToToken("4", 4, 0);
    assert "-4" == "-" + "4";
    OneTokenText("-4", NewLessOrEqualThanIntRange(4), 4);
  }

  /** One bounded range that clamping turns into a kept interval normalises
      as written to that interval. */
  lemma OneBoundedNormalize(r: IntRange)
    requires Keep(Clamp(r)) && !r.MaxUnbounded
    ensures NormalizeAsWritten([r]) == [ToRange(SRange(Clamp(r).Min, Clamp(r).Max, false))]
  {
    var c := Clamp(r);
    var x := SRange(c.Min, c.Max, false);
    OneValid(r);
    OneCollect(c);
    assert SortSRanges([x]) == [x];
    assert MergeRestAsWritten([], [x]) == [x];
  }

  lemma OneValid(r: IntRange)
    requires Keep(Clamp(r))
    ensures Valids([r]) == [Clamp(r)]
  {
    assert [r][..0] == [];
  }

  lemma OneCollect(c: IntRange)
    requires !c.MinUnbounded && !c.MaxUnbounded
    ensures Collect([c]) == [SRange(c.Min, c.Max, false)]
  {
    assert [c][..0] == [];
    assert BoundedPart([c]) == [SRange(c.Min, c.Max, false)];
  }

  /** (-inf, b] is clamped to [0, b]. */
  lemma ClampUpTo(b: nat)
    ensures Clamp(NewLessOrEqualThanIntRange(b)) == NewInclusiveIntRange(0, b)
    ensures Keep(NewInclusiveIntRange(0, b))
  {
  }

  /** The text of (-inf, b] is `0-b`. */
  lemma UpToTextOf(b: nat)
    requires b > 0
    ensures FilterString(NaturalRangeFilter([NewLessOrEqualThanIntRange(b)])) == Itoa(0) + "-" + Itoa(b)
  {
    var r := NewLessOrEqualThanIntRange(b);
    ClampUpTo(b);
    OneBoundedNormalize(r);
    var c := NewInclusiveIntRange(0, b);
    assert NormalizeAsWritten([r]) == [c];
    assert RangesText([c]) == Part(c);
  }

  lemma UpToText()
    ensures FilterString(NaturalRangeFilter([NewLessOrEqualThanIntRange(4)])) == "0-4"
  {
    Digit(0); Digit(4);
    assert Itoa(0) + "-" + Itoa(4) == "0-4";
    UpToTextOf(4);
  }

  /** A closed interval over the natural numbers is left alone and kept. */
  lemma ClampInclusive(a: nat, b: nat)
    requires a <= b
    ensures Clamp(NewInclusiveIntRange(a, b)) == NewInclusiveIntRange(a, b) && Keep(NewInclusiveIntRange(a, b))
  {
  }

  /** Three parts without the separator, joined by it, split back into them. */
  lemma ThreePartsSplit(p0: string, p1: string, p2: string)
    requires '_' !in p0 && '_' !in p1 && '_' !in p2
    ensures Split(p0 + "_" + p1 + "_" + p2, '_') == [p0, p1, p2]
  {
    var tokens := [p0, p1, p2];
    assert tokens[1..] == [p1, p2] && tokens[1..][1..] == [p2];
    assert [p1, p2][1..] == [p2];
    JoinCons(p1, [p2], "_");
    JoinCons(p0, [p1, p2], "_");
    assert Join(tokens, "_") == p0 + "_" + p1 + "_" + p2;
    JoinSplit(tokens, '_');
  }

  /** Three tokens, each read as a range, make a filter of those three ranges. */
  lemma ThreeTokensParse(t0: string, t1: string, t2: string, r1: IntRange, n1: int, r2: IntRange, n2: int, r3: IntRange, n3: int)
    requires t0 != "" && TrimSpace(t0) == t0 && ParseToken(t0, 0) == Append(r1, n1)
    requires t1 != "" && TrimSpace(t1) == t1 && ParseToken(t1, n1) == Append(r2, n2)
    requires t2 != "" && TrimSpace(t2) == t2 && ParseToken(t2, n2) == Append(r3, n3)
    ensures ParseTokens([t0, t1, t2], 0, 0, []) == Success(NaturalRangeFilter([r1, r2, r3]))
  {
    var ts := [t0, t1, t2];
    assert ts[0] == t0 && ts[1] == t1 && ts[2] == t2;
    assert [] + [r1] == [r1];
    ParseTokensAppend(ts, 0, 0, [], r1, n1);
    LastTwoTokensParse(ts, r1, n1, r2, n2, r3, n3);
  }

  /** The second and third of three tokens, each read as a range, finish the filter. */
  lemma LastTwoTokensParse(ts: seq<string>, r1: IntRange, n1: int, r2: IntRange, n2: int, r3: IntRange, n3: int)
    requires |ts| == 3
    requires ts[1] != "" && TrimSpace(ts[1]) == ts[1] && ParseToken(ts[1], n1) == Append(r2, n2)
    requires ts[2] != "" && TrimSpace(ts[2]) == ts[2] && ParseToken(ts[2], n2) == Append(r3, n3)
    ensures ParseTokens(ts, 1, n1, [r1]) == Success(NaturalRangeFilter([r1, r2, r3]))
  {
    assert [r1] + [r2] == [r1, r2] && [r1, r2] + [r3] == [r1, r2, r3];
    ParseTokensAppend(ts, 1, n1, [r1], r2, n2);
    ParseTokensAppend(ts, 2, n2, [r1, r2], r3, n3);
  }

  /** A text of three tokens that need no trimming, each read as a range. */
  lemma ThreeTokenText(p0: string, p1: string, p2: string, r1: IntRange, n1: int, r2: IntRange, n2: int, r3: IntRange, n3: int)
    requires p0 != "" && p1 != "" && p2 != "" && '_' !in p0 && '_' !in p1 && '_' !in p2 && p0[0] != 'a'
    requires !IsSpace(p0[0]) && !IsSpace(p0[|p0| - 1]) && !IsSpace(p1[0]) && !IsSpace(p1[|p1| - 1])
    requires !IsSpace(p2[0]) && !IsSpace(p2[|p2| - 1])
    requires ParseToken(p0, 0) == Append(r1, n1) && ParseToken(p1, n1) == Append(r2, n2)
    requires ParseToken(p2, n2) == Append(r3, n3)
    ensures ParseFilter(p0 + "_" + p1 + "_" + p2) == Success(NaturalRangeFilter([r1, r2, r3]))
  {
    var t := p0 + "_" + p1 + "_" + p2;
    ThreePartsSplit(p0, p1, p2);
    assert t[0] == p0[0] && t[|t| - 1] == p2[|p2| - 1];
    TrimSpaceUnchanged(t);
    ParseFilterTokens(t);
    TrimSpaceUnchanged(p0);
    TrimSpaceUnchanged(p1);
    TrimSpaceUnchanged(p2);
    ThreeTokensParse(p0, p1, p2, r1, n1, r2, n2, r3, n3);
  }

  lemma SeparatedTokens()
    ensures ParseToken("1", 0) == Append(NewSingleValueIntRange(1), 1)
    ensures ParseToken("3-5", 1) == Append(NewInclusiveIntRange(3, 5), 5)
    ensures ParseToken("7-7", 5) == Append(NewInclusiveIntRange(7, 7), 7)
  {
    Digit(1); Digit(3); Digit(5); Digit(7);
    ParseValueToken("1", 1, 0);
    assert "3-5" == "3" + "-" + "5" && "7-7" == "7" + "-" + "7";
    ParseIntervalToken("3", "5", 3, 5, 1);
    ParseIntervalToken("7", "7", 7, 7, 5);
  }

  lemma SeparatedTextParts()
    ensures "1_3-5_7-7" == "1" + "_" + "3-5" + "_" + "7-7"
    ensures '_' !in "1" && '_' !in "3-5" && '_' !in "7-7"
    ensures !IsSpace('1') && !IsSpace('3') && !IsSpace('5') && !IsSpace('7')
  {
    assert "1_3-5_7-7" == "1" + "_" + "3-5" + "_" + "7-7";
  }

  lemma SeparatedParses()
    ensures ParseFilter("1_3-5_7-7") == Success(NaturalRangeFilter(
              [NewSingleValueIntRange(1), NewInclusiveIntRange(3, 5), NewInclusiveIntRange(7, 7)]))
  {
    SeparatedTextParts();
    SeparatedTokens();
    ThreeTokenText("1", "3-5", "7-7", NewSingleValueIntRange(1), 1, NewInclusiveIntRange(3, 5), 5,
                   NewInclusiveIntRange(7, 7), 7);
  }

  lemma ThreeValids(r1: IntRange, r2: IntRange, r3: IntRange)
    requires Clamp(r1) == r1 && Keep(r1) && Clamp(r2) == r2 && Keep(r2) && Clamp(r3) == r3 && Keep(r3)
    ensures Valids([r1, r2, r3]) == [r1, r2, r3]
  {
    TwoValids(r1, r2);
    assert [r1, r2, r3][..2] == [r1, r2];
  }

  lemma ThreeCollect(r1: IntRange, r2: IntRange, r3: IntRange)
    requires !r1.MinUnbounded && !r2.MinUnbounded && !r3.MinUnbounded
    requires !r1.MaxUnbounded && !r2.MaxUnbounded && !r3.MaxUnbounded
    ensures Collect([r1, r2, r3]) == [SRange(r1.Min, r1.Max, false), SRange(r2.Min, r2.Max, false), SRange(r3.Min, r3.Max, false)]
  {
    var rs := [r1, r2, r3];
    assert rs[..2] == [r1, r2] && [r1, r2][..1] == [r1] && [r1][..0] == [];
    var x, y, z := SRange(r1.Min, r1.Max, false), SRange(r2.Min, r2.Max, false), SRange(r3.Min, r3.Max, false);
    assert BoundedPart([r1]) == [x];
    assert BoundedPart([r1, r2]) == [x, y];
    assert BoundedPart(rs) == [x, y, z];
    assert RightMin(rs) == None;
  }

  /** Sorting an already sorted list leaves it as it is. */
  lemma SortSorted(ss: seq<SRange>)
    requires Sorted(ss)
    ensures SortSRanges(ss) == ss
  {
    SortedUnique(SortSRanges(ss), ss);
  }

  lemma ThreeMergeAsWritten(x: SRange, y: SRange, z: SRange)
    requires !x.maxUn && !y.maxUn && x.max + 1 < y.min && y.max + 1 < z.min
    ensures MergeRestAsWritten([], [x, y, z]) == [x, y, z]
  {
    assert [x, y, z][1..] == [y, z] && [y, z][1..] == [z] && [z][1..] == [];
    assert [x] + [y] == [x, y] && [x, y] + [z] == [x, y, z];
    assert MergeRestAsWritten([], [x, y, z]) == MergeRestAsWritten([x], [y, z]);
    assert MergeRestAsWritten([x], [y, z]) == MergeRestAsWritten([x, y], [z]);
    assert [x, y][1] == y;
    assert MergeRestAsWritten([x, y], [z]) == MergeRestAsWritten([x, y, z], []);
  }

  /** Three closed intervals that clamping keeps, each ending more than one
      below the start of the next, normalise as written to themselves. */
  lemma ThreeSeparatedNormalize(r1: IntRange, r2: IntRange, r3: IntRange)
    requires Clamp(r1) == r1 && Keep(r1) && Clamp(r2) == r2 && Keep(r2) && Clamp(r3) == r3 && Keep(r3)
    requires !r1.MaxUnbounded && !r2.MaxUnbounded && !r3.MaxUnbounded
    requires r1.Max + 1 < r2.Min && r2.Max + 1 < r3.Min
    ensures var x, y, z := SRange(r1.Min, r1.Max, false), SRange(r2.Min, r2.Max, false), SRange(r3.Min, r3.Max, false);
            NormalizeAsWritten([r1, r2, r3]) == ToRanges([x, y, z])
  {
    ThreeValids(r1, r2, r3);
    ThreeCollect(r1, r2, r3);
    var x, y, z := SRange(r1.Min, r1.Max, false), SRange(r2.Min, r2.Max, false), SRange(r3.Min, r3.Max, false);
    assert Sorted([x, y, z]);
    SortSorted([x, y, z]);
    ThreeMergeAsWritten(x, y, z);
  }

  /** The text of three such ranges is their three parts joined by `_`. */
  lemma ThreeSeparatedText(r1: IntRange, r2: IntRange, r3: IntRange)
    requires Clamp(r1) == r1 && Keep(r1) && Clamp(r2) == r2 && Keep(r2) && Clamp(r3) == r3 && Keep(r3)
    requires !r1.MaxUnbounded && !r2.MaxUnbounded && !r3.MaxUnbounded
    requires r1.Max + 1 < r2.Min && r2.Max + 1 < r3.Min
    ensures FilterString(NaturalRangeFilter([r1, r2, r3]))
            == Part(ToRange(SRange(r1.Min, r1.Max, false))) + "_" + Part(ToRange(SRange(r2.Min, r2.Max, false)))
               + "_" + Part(ToRange(SRange(r3.Min, r3.Max, false)))
  {
    ThreeSeparatedNormalize(r1, r2, r3);
    var x, y, z := SRange(r1.Min, r1.Max, false), SRange(r2.Min, r2.Max, false), SRange(r3.Min, r3.Max, false);
    TextOfNormalized(NaturalRangeFilter([r1, r2, r3]), ToRanges([x, y, z]));
    ThreeConvertedText(x, y, z);
  }

  /** The text of three converted ranges. */
  lemma ThreeConvertedText(x: SRange, y: SRange, z: SRange)
    ensures RangesText(ToRanges([x, y, z])) == Part(ToRange(x)) + "_" + Part(ToRange(y)) + "_" + Part(ToRange(z))
  {
    var out := ToRanges([x, y, z]);
    assert out == [ToRange(x), ToRange(y), ToRange(z)];
    ThreeRangesText(ToRange(x), ToRange(y), ToRange(z));
  }

  /** The text of three ranges is their parts joined by `_`. */
  lemma ThreeRangesText(a: IntRange, b: IntRange, c: IntRange)
    ensures RangesText([a, b, c]) == Part(a) + "_" + Part(b) + "_" + Part(c)
  {
    var out := [a, b, c];
    assert RangesText(out) == Join(Parts(out), "_");
    assert Parts(out) == [Part(a), Part(b), Part(c)];
    JoinThree(Part(a), Part(b), Part(c));
  }

  lemma JoinThree(a: string, b: string, c: string)
    ensures Join([a, b, c], "_") == a + "_" + b + "_" + c
  {
    assert [a, b, c] == [a] + [b, c] && [b, c] == [b] + [c];
    JoinCons(b, [c], "_");
    JoinCons(a, [b, c], "_");
  }

  lemma SeparatedText()
    ensures FilterString(NaturalRangeFilter(
              [NewSingleValueIntRange(1), NewInclusiveIntRange(3, 5), NewInclusiveIntRange(7, 7)])) == "1_3-5_7"
  {
    Digit(1); Digit(3); Digit(5); Digit(7);
    ClampSingle(1);
    ClampInclusive(3, 5);
    ClampInclusive(7, 7);
    assert Itoa(1) + "_" + (Itoa(3) + "-" + Itoa(5)) + "_" + Itoa(7) == "1_3-5_7";
    ThreeSeparatedText(NewSingleValueIntRange(1), NewInclusiveIntRange(3, 5), NewInclusiveIntRange(7, 7));
  }

  /** `1-3_4` is read as [1, 3] and {4}, and printed as `1-4`. */
  lemma ExampleRangeAndValueMerge()
    ensures ParseFilter("1-3_4") == Success(NaturalRangeFilter([NewInclusiveIntRange(1, 3), NewSingleValueIntRange(4)]))
    ensures FilterString(NaturalRangeFilter([NewInclusiveIntRange(1, 3), NewSingleValueIntRange(4)])) == "1-4"
  {
    TouchingParses();
    TouchingText();
  }

  /** `1_2` is read as {1} and {2}, and printed as `1-2`. */
  lemma ExampleAdjacentValuesMerge()
    ensures ParseFilter("1_2") == Success(NaturalRangeFilter([NewSingleValueIntRange(1), NewSingleValueIntRange(2)]))
    ensures FilterString(NaturalRangeFilter([NewSingleValueIntRange(1), NewSingleValueIntRange(2)])) == "1-2"
  {
    AdjacentValuesParses();
    AdjacentValuesText();
  }

  /** `-4` is read as (-inf, 4], and printed as `0-4`. */
  lemma ExampleLeftOpen()
    ensures ParseFilter("-4") == Success(NaturalRangeFilter([NewLessOrEqualThanIntRange(4)]))
    ensures FilterString(NaturalRangeFilter([NewLessOrEqualThanIntRange(4)])) == "0-4"
  {
    UpToParses();
    UpToText();
  }

  /** `1_3-5_7-7` is read as {1}, [3, 5] and [7, 7], and printed as `1_3-5_7`. */
  lemma ExampleCompound()
    ensures ParseFilter("1_3-5_7-7") == Success(NaturalRangeFilter(
              [NewSingleValueIntRange(1), NewInclusiveIntRange(3, 5), NewInclusiveIntRange(7, 7)]))
    ensures FilterString(NaturalRangeFilter(
              [NewSingleValueIntRange(1), NewInclusiveIntRange(3, 5), NewInclusiveIntRange(7, 7)])) == "1_3-5_7"
  {
    SeparatedParses();
    SeparatedText();
  }

  // ---------------------------------------------- examples of refused texts

  /** A text of one token that needs no trimming is read as that token. */
  lemma OneTokenFilter(p: string)
    requires p != "" && p != "all" && '_' !in p && !IsSpace(p[0]) && !IsSpace(p[|p| - 1])
    ensures TrimSpace(p) == p && FilterTokens(p) == [p]
  {
    TrimSpaceUnchanged(p);
    assert Split(p, '_') == [p];
  }

  /** A one-token text whose token is refused fails with the token's error. */
  lemma OneTokenRefused(p: string)
    requires p != "" && p != "all" && '_' !in p && !IsSpace(p[0]) && !IsSpace(p[|p| - 1])
    requires ParseToken(p, 0).Refused?
    ensures ParseFilter(p) == Failure(ParseToken(p, 0).error)
  {
    OneTokenFilter(p);
    FilterRefusedToken(p, 0);
  }

  /** `-N-` alone is every natural number. */
  lemma AllNaturalsText(d: string)
    requires d != [] && AllDigits(d)
    ensures ParseFilter("-" + d + "-") == Success(NewAllNaturalRangeFilter())
  {
    var p := "-" + d + "-";
    assert p[0] == '-' && p[|p| - 1] == '-' && p != "all";
    assert '_' !in p;
    OneTokenFilter(p);
    FilterAllNaturalsToken(p, 0, d);
  }

  /** A token of digits with two dashes is invalid unless it is `-N-`. */
  lemma TwoDashesText(a: string, b: string, c: string)
    requires AllDigits(a) && AllDigits(b) && AllDigits(c) && (a != [] || c != [] || b == [])
    ensures ParseFilter(a + "-" + b + "-" + c) == Failure(InvalidToken(a + "-" + b + "-" + c))
  {
    var p := a + "-" + b + "-" + c;
    TwoDashes(a, b, c);
    ManyDashesRefused(p, 0);
    OneTokenRefused(p);
  }

  lemma TwoDashes(a: string, b: string, c: string)
    requires AllDigits(a) && AllDigits(b) && AllDigits(c) && (a != [] || c != [] || b == [])
    ensures var p := a + "-" + b + "-" + c;
            && p != "" && p != "all" && '_' !in p && !IsSpace(p[0]) && !IsSpace(p[|p| - 1])
            && CountChar(p, '-') == 2 && (p == "--" || p[0] != '-' || p[|p| - 1] != '-')
  {
    var p := a + "-" + b + "-" + c;
    TwoDashesCount(a, b, c);
    assert p[0] == (if a != [] then a[0] else '-');
    assert p[|p| - 1] == (if c != [] then c[|c| - 1] else '-');
    assert p[|a|] == '-';
    if a == [] && b == [] && c == [] {
      assert p == "--";
    }
  }

  lemma TwoDashesCount(a: string, b: string, c: string)
    requires AllDigits(a) && AllDigits(b) && AllDigits(c)
    ensures CountChar(a + "-" + b + "-" + c, '-') == 2 && '_' !in a + "-" + b + "-" + c
  {
    var p := a + "-" + b + "-" + c;
    assert '-' !in a && '-' !in b && '-' !in c && '_' !in a && '_' !in b && '_' !in c;
    assert multiset(p) == multiset(a) + multiset{'-'} + multiset(b) + multiset{'-'} + multiset(c);
  }

  /** A one-dash token is refused for its first side that is not a natural number. */
  lemma OneDashText(l: string, r: string)
    requires l != [] && r != [] && '-' !in l && '-' !in r && '_' !in l && '_' !in r
    requires !IsSpace(l[0]) && !IsSpace(r[|r| - 1])
    ensures ParseNaturalNumber(l).Failure? ==> ParseFilter(l + "-" + r) == Failure(NotNaturalNumber(l))
    ensures ParseNaturalNumber(l).Success? && ParseNaturalNumber(r).Failure? ==>
              ParseFilter(l + "-" + r) == Failure(NotNaturalNumber(r))
  {
    var p := l + "-" + r;
    assert p[0] == l[0] && p[|p| - 1] == r[|r| - 1] && '_' !in p;
    OneDashNotNatural(l, r, 0);
    OneDash(l, r);
    if ParseNaturalNumber(l).Failure? || ParseNaturalNumber(r).Failure? {
      assert p != "all";
      OneTokenRefused(p);
    }
  }

  /** Two tokens that need no trimming, joined by the separator. */
  lemma TwoTokenSplit(t0: string, t1: string)
    requires t0 != [] && t1 != [] && '_' !in t0 && '_' !in t1
    requires !IsSpace(t0[0]) && !IsSpace(t0[|t0| - 1]) && !IsSpace(t1[0]) && !IsSpace(t1[|t1| - 1])
    ensures var v := t0 + "_" + t1;
            TrimSpace(v) == v && v != "" && v != "all" && FilterTokens(v) == [t0, t1]
    ensures TrimSpace(t0) == t0 && TrimSpace(t1) == t1
  {
    var v := t0 + "_" + t1;
    assert v == t0 + ['_'] + t1;
    TwoPartsSplit(t0, t1, '_');
    assert v[0] == t0[0] && v[|v| - 1] == t1[|t1| - 1];
    assert v[|t0|] == '_';
    TrimSpaceUnchanged(v);
    TrimSpaceUnchanged(t0);
    TrimSpaceUnchanged(t1);
  }

  /** Three tokens, joined by the separator, the first and last needing no trimming. */
  lemma ThreeTokenSplit(t0: string, t1: string, t2: string)
    requires t0 != [] && t2 != [] && '_' !in t0 && '_' !in t1 && '_' !in t2
    requires !IsSpace(t0[0]) && !IsSpace(t2[|t2| - 1])
    ensures var v := t0 + "_" + t1 + "_" + t2;
            TrimSpace(v) == v && v != "" && v != "all" && FilterTokens(v) == [t0, t1, t2]
  {
    var v := t0 + "_" + t1 + "_" + t2;
    ThreePartsSplit(t0, t1, t2);
    assert v[0] == t0[0] && v[|v| - 1] == t2[|t2| - 1] && v[|t0|] == '_';
    TrimSpaceUnchanged(v);
  }

  /** A text whose first token adds a range and whose second is refused fails
      with the second's error. */
  lemma SecondTokenRefused(v: string, t0: string, t1: string, r: IntRange, next: int, e: FilterError)
    requires TrimSpace(v) != "" && TrimSpace(v) != "all" && FilterTokens(v) == [t0, t1]
    requires t0 != "" && TrimSpace(t0) == t0 && ParseToken(t0, 0) == Append(r, next)
    requires t1 != "" && TrimSpace(t1) == t1 && ParseToken(t1, next) == Refused(e)
    ensures ParseFilter(v) == Failure(e)
  {
    FilterIsTokens(v);
    var tokens := FilterTokens(v);
    assert tokens[0] == t0 && tokens[1] == t1;
    TokensSecondRefused(tokens, r, next, e);
  }

  lemma TokensSecondRefused(tokens: seq<string>, r: IntRange, next: int, e: FilterError)
    requires |tokens| == 2
    requires tokens[0] != "" && TrimSpace(tokens[0]) == tokens[0] && ParseToken(tokens[0], 0) == Append(r, next)
    requires tokens[1] != "" && TrimSpace(tokens[1]) == tokens[1] && ParseToken(tokens[1], next) == Refused(e)
    ensures ParseTokens(tokens, 0, 0, []) == Failure(e)
  {
    ParseTokensAppends(tokens, 0, 0, []);
    RefusedTokenFails(tokens, 1, next, [] + [r]);
  }

  lemma TokensThirdRefused(tokens: seq<string>, r1: IntRange, n1: int, r2: IntRange, n2: int, e: FilterError)
    requires |tokens| == 3
    requires tokens[0] != "" && TrimSpace(tokens[0]) == tokens[0] && ParseToken(tokens[0], 0) == Append(r1, n1)
    requires tokens[1] != "" && TrimSpace(tokens[1]) == tokens[1] && ParseToken(tokens[1], n1) == Append(r2, n2)
    requires tokens[2] != "" && TrimSpace(tokens[2]) == tokens[2] && ParseToken(tokens[2], n2) == Refused(e)
    ensures ParseTokens(tokens, 0, 0, []) == Failure(e)
  {
    ParseTokensAppends(tokens, 0, 0, []);
    ParseTokensAppends(tokens, 1, n1, [] + [r1]);
    RefusedTokenFails(tokens, 2, n2, [] + [r1] + [r2]);
  }

  /** A value token followed by a refused token fails with the second's error. */
  lemma ValueThenRefused(d: string, t: string, err: FilterError)
    requires d != [] && AllDigits(d) && t != [] && '_' !in t && !IsSpace(t[0]) && !IsSpace(t[|t| - 1])
    requires ParseToken(t, DigitsValue(d)) == Refused(err)
    ensures ParseFilter(d + "_" + t) == Failure(err)
  {
    assert '_' !in d;
    TwoTokenSplit(d, t);
    ValueTokenMeans(d, 0);
    SecondTokenRefused(d + "_" + t, d, t, NewSingleValueIntRange(DigitsValue(d)), DigitsValue(d), err);
  }

  /** Two value tokens, the second not below the first, followed by a refused
      token fail with the third's error. */
  lemma ValuesThenRefused(d: string, e: string, t: string, err: FilterError)
    requires d != [] && AllDigits(d) && e != [] && AllDigits(e) && DigitsValue(d) <= DigitsValue(e)
    requires t != [] && '_' !in t && !IsSpace(t[0]) && !IsSpace(t[|t| - 1])
    requires ParseToken(t, DigitsValue(e)) == Refused(err)
    ensures ParseFilter(d + "_" + e + "_" + t) == Failure(err)
  {
    assert '_' !in d && '_' !in e;
    ThreeTokenSplit(d, e, t);
    FilterIsTokens(d + "_" + e + "_" + t);
    ValuesTokensRefused(d, e, t, err);
  }

  lemma ValuesTokensRefused(d: string, e: string, t: string, err: FilterError)
    requires d != [] && AllDigits(d) && e != [] && AllDigits(e) && DigitsValue(d) <= DigitsValue(e)
    requires t != [] && !IsSpace(t[0]) && !IsSpace(t[|t| - 1])
    requires ParseToken(t, DigitsValue(e)) == Refused(err)
    ensures ParseTokens([d, e, t], 0, 0, []) == Failure(err)
  {
    TrimSpaceUnchanged(d);
    TrimSpaceUnchanged(e);
    TrimSpaceUnchanged(t);
    ValueTokenMeans(d, 0);
    ValueTokenMeans(e, DigitsValue(d));
    var tokens := [d, e, t];
    assert tokens[0] == d && tokens[1] == e && tokens[2] == t;
    TokensThirdRefused(tokens, NewSingleValueIntRange(DigitsValue(d)), DigitsValue(d),
                       NewSingleValueIntRange(DigitsValue(e)), DigitsValue(e), err);
  }

  /** `N_M-K` with M below N fails at M. */
  lemma DecreasingIntervalText(d: string, e: string, f: string)
    requires d != [] && AllDigits(d) && e != [] && AllDigits(e) && f != [] && AllDigits(f)
    requires DigitsValue(e) <= DigitsValue(f) && DigitsValue(e) < DigitsValue(d)
    ensures ParseFilter(d + "_" + e + "-" + f) == Failure(Decreasing(DigitsValue(e), DigitsValue(d)))
  {
    var t := e + "-" + f;
    assert t[0] == e[0] && t[|t| - 1] == f[|f| - 1] && '_' !in t;
    IntervalAfter(d, e, f);
    IntervalTokenMeans(e, f, DigitsValue(d));
    ValueThenRefused(d, t, Decreasing(DigitsValue(e), DigitsValue(d)));
  }

  lemma IntervalAfter(d: string, e: string, f: string)
    ensures d + "_" + e + "-" + f == d + "_" + (e + "-" + f)
  {
    ConcatAssoc(d + "_", e, "-");
    ConcatAssoc(d + "_", e + "-", f);
  }

  /** `N_M_K` with N <= M and K below M fails at K. */
  lemma DecreasingValueText(d: string, e: string, f: string)
    requires d != [] && AllDigits(d) && e != [] && AllDigits(e) && f != [] && AllDigits(f)
    requires DigitsValue(d) <= DigitsValue(e) && DigitsValue(f) < DigitsValue(e)
    ensures ParseFilter(d + "_" + e + "_" + f) == Failure(Decreasing(DigitsValue(f), DigitsValue(e)))
  {
    assert '_' !in f;
    ValueTokenMeans(f, DigitsValue(e));
    ValuesThenRefused(d, e, f, Decreasing(DigitsValue(f), DigitsValue(e)));
  }

  /** `-M_N` with N below M fails at N. */
  lemma DecreasingUpToText(e: string, d: string)
    requires e != [] && AllDigits(e) && d != [] && AllDigits(d) && DigitsValue(d) < DigitsValue(e)
    ensures ParseFilter("-" + e + "_" + d) == Failure(Decreasing(DigitsValue(d), DigitsValue(e)))
  {
    var t := "-" + e;
    assert t[0] == '-' && t[|t| - 1] == e[|e| - 1] && '_' !in t && '_' !in d;
    TwoTokenSplit(t, d);
    UpToTokenMeans(e, 0);
    ValueTokenMeans(d, DigitsValue(e));
    SecondTokenRefused(t + "_" + d, t, d, NewLessOrEqualThanIntRange(DigitsValue(e)), DigitsValue(e),
                       Decreasing(DigitsValue(d), DigitsValue(e)));
  }

  /** `N__M` fails at its blank second token. */
  lemma BlankSecondText(d: string, e: string)
    requires d != [] && AllDigits(d) && e != [] && AllDigits(e)
    ensures ParseFilter(d + "_" + "" + "_" + e) == Failure(EmptyToken(1))
  {
    var v := d + "_" + "" + "_" + e;
    assert '_' !in d && '_' !in e;
    ThreeTokenSplit(d, "", e);
    TrimSpaceUnchanged(d);
    var tokens := FilterTokens(v);
    ValueTokenMeans(d, 0);
    PrefixNext(tokens, 0, 0, [], NewSingleValueIntRange(DigitsValue(d)), DigitsValue(d));
    FilterBlankToken(v, 1);
  }

  /** A lone separator fails at its first, blank token. */
  lemma LoneSeparatorText()
    ensures ParseFilter("_") == Failure(EmptyToken(0))
  {
    assert "_" == "" + ['_'] + "";
    TwoPartsSplit("", "", '_');
    TrimSpaceUnchanged("_");
    TrimSpaceUnchanged("");
    FilterBlankToken("_", 0);
  }

  /** `-5-` is every natural number. */
  lemma ExampleAllNaturalsToken()
    ensures ParseFilter("-5-") == Success(NewAllNaturalRangeFilter())
  {
    var d := "5";
    assert "-" + d + "-" == "-5-";
    AllNaturalsText(d);
  }

  /** `--`, `1--2`, `1-2-3`, `-1-3` and `2--` are refused as invalid tokens. */
  lemma ExampleInvalidTokens()
    ensures ParseFilter("--") == Failure(InvalidToken("--"))
    ensures ParseFilter("1--2") == Failure(InvalidToken("1--2"))
    ensures ParseFilter("1-2-3") == Failure(InvalidToken("1-2-3"))
    ensures ParseFilter("-1-3") == Failure(InvalidToken("-1-3"))
    ensures ParseFilter("2--") == Failure(InvalidToken("2--"))
  {
    InvalidDoubleDash();
    InvalidInnerDashes();
    InvalidThreeNumbers();
    InvalidLeadingDash();
    InvalidTrailingDashes();
  }

  lemma InvalidDoubleDash()
    ensures ParseFilter("--") == Failure(InvalidToken("--"))
  {
    var a, b, c := "", "", "";
    assert a + "-" + b + "-" + c == "--";
    TwoDashesText(a, b, c);
  }

  lemma InvalidInnerDashes()
    ensures ParseFilter("1--2") == Failure(InvalidToken("1--2"))
  {
    var a, b, c := "1", "", "2";
    assert a + "-" + b + "-" + c == "1--2";
    TwoDashesText(a, b, c);
  }

  lemma InvalidThreeNumbers()
    ensures ParseFilter("1-2-3") == Failure(InvalidToken("1-2-3"))
  {
    var a, b, c := "1", "2", "3";
    assert a + "-" + b + "-" + c == "1-2-3";
    TwoDashesText(a, b, c);
  }

  lemma InvalidLeadingDash()
    ensures ParseFilter("-1-3") == Failure(InvalidToken("-1-3"))
  {
    var a, b, c := "", "1", "3";
    assert a + "-" + b + "-" + c == "-1-3";
    TwoDashesText(a, b, c);
  }

  lemma InvalidTrailingDashes()
    ensures ParseFilter("2--") == Failure(InvalidToken("2--"))
  {
    var a, b, c := "2", "", "";
    assert a + "-" + b + "-" + c == "2--";
    TwoDashesText(a, b, c);
  }

  /** `x`, `a-b`, `2-b`, `a-3` and `-x-` are refused for the part that is not a
      natural number. */
  lemma ExampleNotNatural()
    ensures ParseFilter("x") == Failure(NotNaturalNumber("x"))
    ensures ParseFilter("a-b") == Failure(NotNaturalNumber("a"))
    ensures ParseFilter("2-b") == Failure(NotNaturalNumber("b"))
    ensures ParseFilter("a-3") == Failure(NotNaturalNumber("a"))
    ensures ParseFilter("-x-") == Failure(NotNaturalNumber("x"))
  {
    NotNaturalLetter();
    NotNaturalLetters();
    NotNaturalRight();
    NotNaturalLeft();
    NotNaturalBetweenDashes();
  }

  lemma NotNaturalLetters()
    ensures ParseFilter("a-b") == Failure(NotNaturalNumber("a"))
  {
    var l, r := "a", "b";
    assert l + "-" + r == "a-b";
    OneDashText(l, r);
  }

  lemma NotNaturalRight()
    ensures ParseFilter("2-b") == Failure(NotNaturalNumber("b"))
  {
    var l, r := "2", "b";
    assert l + "-" + r == "2-b";
    DigitsNatural(l);
    OneDashText(l, r);
  }

  lemma NotNaturalLeft()
    ensures ParseFilter("a-3") == Failure(NotNaturalNumber("a"))
  {
    var l, r := "a", "3";
    assert l + "-" + r == "a-3";
    OneDashText(l, r);
  }

  lemma NotNaturalLetter()
    ensures ParseFilter("x") == Failure(NotNaturalNumber("x"))
  {
    NoDashNotNatural("x", 0);
    OneTokenRefused("x");
  }

  lemma NotNaturalBetweenDashes()
    ensures ParseFilter("-x-") == Failure(NotNaturalNumber("x"))
  {
    var x := "x";
    assert "-" + x + "-" == "-x-";
    DashedNotNaturalText(x);
  }

  /** `-X-` whose X is not a natural number is refused for X. */
  lemma DashedNotNaturalText(x: string)
    requires x != [] && '_' !in x && ParseNaturalNumber(x).Failure?
    ensures ParseFilter("-" + x + "-") == Failure(NotNaturalNumber(x))
  {
    var p := "-" + x + "-";
    assert p[0] == '-' && p[|p| - 1] == '-' && '_' !in p && p != "all";
    AllNaturalsNotNatural(x, 0);
    OneTokenRefused(p);
  }

  /** `_` and `1__2` are refused for their first blank token. */
  lemma ExampleBlankTokens()
    ensures ParseFilter("_") == Failure(EmptyToken(0))
    ensures ParseFilter("1__2") == Failure(EmptyToken(1))
  {
    LoneSeparatorText();
    BlankAfterValue();
  }

  lemma BlankAfterValue()
    ensures ParseFilter("1__2") == Failure(EmptyToken(1))
  {
    var d, e := "1", "2";
    assert d + "_" + "" + "_" + e == "1__2";
    BlankSecondText(d, e);
  }

  /** `3_1-4`, `1_2_1` and `-5_3` are refused because a number decreases. */
  lemma ExampleDecreasing()
    ensures ParseFilter("3_1-4") == Failure(Decreasing(1, 3))
    ensures ParseFilter("1_2_1") == Failure(Decreasing(1, 2))
    ensures ParseFilter("-5_3") == Failure(Decreasing(3, 5))
  {
    DecreasingAfterValue();
    DecreasingAfterValues();
    DecreasingAfterUpTo();
  }

  lemma DecreasingAfterValue()
    ensures ParseFilter("3_1-4") == Failure(Decreasing(1, 3))
  {
    var d, e, f := "3", "1", "4";
    assert d + "_" + e + "-" + f == "3_1-4";
    assert DigitsValue(d) == 3 && DigitsValue(e) == 1 && DigitsValue(f) == 4;
    DecreasingIntervalText(d, e, f);
  }

  lemma DecreasingAfterValues()
    ensures ParseFilter("1_2_1") == Failure(Decreasing(1, 2))
  {
    var d, e, f := "1", "2", "1";
    assert d + "_" + e + "_" + f == "1_2_1";
    assert DigitsValue(d) == 1 && DigitsValue(e) == 2 && DigitsValue(f) == 1;
    DecreasingValueText(d, e, f);
  }

  lemma DecreasingAfterUpTo()
    ensures ParseFilter("-5_3") == Failure(Decreasing(3, 5))
  {
    var e, d := "5", "3";
    assert "-" + e + "_" + d == "-5_3";
    assert DigitsValue(e) == 5 && DigitsValue(d) == 3;
    DecreasingUpToText(e, d);
  }
}
