/**
  The order `sort.Strings` puts the flag keys in: byte-wise lexicographic
  order, which on Unicode text encoded as UTF-8 is the lexicographic order of
  the code points that the model's characters are.
 */
module StringOrder {

  /** Lexicographic "less than". */
  predicate StringLess(a: string, b: string) {
    if a == [] then b != []
    else b != [] && (a[0] < b[0] || (a[0] == b[0] && StringLess(a[1..], b[1..])))
  }

  lemma {:induction false} LessIrreflexive(a: string)
    ensures !StringLess(a, a)
  {
    if a != [] {
      LessIrreflexive(a[1..]);
    }
  }

  lemma {:induction false} LessTransitive(a: string, b: string, c: string)
    requires StringLess(a, b) && StringLess(b, c)
    ensures StringLess(a, c)
  {
    if a != [] && a[0] == b[0] && b[0] == c[0] {
      LessTransitive(a[1..], b[1..], c[1..]);
    }
  }

  lemma {:induction false} LessTotal(a: string, b: string)
    requires a != b
    ensures StringLess(a, b) || StringLess(b, a)
  {
    if a != [] && b != [] && a[0] == b[0] {
      assert a == [a[0]] + a[1..] && b == [b[0]] + b[1..];
      LessTotal(a[1..], b[1..]);
    }
  }

  /** Each string is less than every later one. */
  predicate Ascending(s: seq<string>) {
    forall i, j :: 0 <= i < j < |s| ==> StringLess(s[i], s[j])
  }

  /** `m` is the least element of `s`. */
  predicate IsLeast(m: string, s: set<string>) {
    m in s && forall x :: x in s ==> !StringLess(x, m)
  }

  lemma {:induction false} LeastExists(s: set<string>)
    requires s != {}
    ensures exists m :: IsLeast(m, s)
    decreases |s|
  {
    var y :| y in s;
    var rest := s - {y};
    if rest == {} {
      assert s == {y};
      LessIrreflexive(y);
      assert IsLeast(y, s);
    } else {
      LeastExists(rest);
      var m :| IsLeast(m, rest);
      if StringLess(y, m) {
        forall x | x in s
          ensures !StringLess(x, y)
        {
          if x == y {
            LessIrreflexive(y);
          } else if StringLess(x, y) {
            LessTransitive(x, y, m);
          }
        }
        assert IsLeast(y, s);
      } else {
        assert IsLeast(m, s);
      }
    }
  }

  lemma LeastUnique(m1: string, m2: string, s: set<string>)
    requires IsLeast(m1, s) && IsLeast(m2, s)
    ensures m1 == m2
  {
    if m1 != m2 {
      LessTotal(m1, m2);
    }
  }

  lemma LeastUniqueAll(s: set<string>)
    ensures forall m1, m2 :: IsLeast(m1, s) && IsLeast(m2, s) ==> m1 == m2
  {
    forall m1, m2 | IsLeast(m1, s) && IsLeast(m2, s)
      ensures m1 == m2
    {
      LeastUnique(m1, m2, s);
    }
  }

  /** A set of strings in ascending order. */
  function SortStrings(s: set<string>): (r: seq<string>)
    ensures |r| == |s|
    ensures forall x :: x in r <==> x in s
    ensures Ascending(r)
    decreases s
  {
    if s == {} then []
    else
      LeastExists(s);
      LeastUniqueAll(s);
      var m :| IsLeast(m, s);
      LeastFirst(m, s, SortStrings(s - {m}));
      [m] + SortStrings(s - {m})
  }

  /** The least element in front of the sorted rest keeps the order. */
  lemma LeastFirst(m: string, s: set<string>, rest: seq<string>)
    requires IsLeast(m, s)
    requires forall x :: x in rest <==> x in s - {m}
    requires Ascending(rest)
    ensures Ascending([m] + rest)
  {
    var r := [m] + rest;
    forall i, j | 0 <= i < j < |r|
      ensures StringLess(r[i], r[j])
    {
      if i == 0 {
        assert r[j] == rest[j - 1] && r[j] in rest;
        LessTotal(m, r[j]);
      } else {
        assert r[i] == rest[i - 1] && r[j] == rest[j - 1];
      }
    }
  }

  /** Two ascending orders of the same set are the same sequence. */
  lemma {:induction false} SortedUnique(a: seq<string>, b: seq<string>)
    requires Ascending(a)
    requires Ascending(b)
    requires forall x :: x in a <==> x in b
    ensures a == b
    decreases |a|
  {
    SameEmptiness(a, b);
    if a != [] {
      HeadsEqual(a, b);
      TailMembers(a, b);
      SortedUnique(a[1..], b[1..]);
      assert a == [a[0]] + a[1..] && b == [b[0]] + b[1..];
    }
  }

  lemma SameEmptiness(a: seq<string>, b: seq<string>)
    requires forall x :: x in a <==> x in b
    ensures a == [] <==> b == []
  {
    if a != [] {
      assert a[0] in b;
    }
    if b != [] {
      assert b[0] in a;
    }
  }

  lemma HeadsEqual(a: seq<string>, b: seq<string>)
    requires a != [] && b != []
    requires Ascending(a)
    requires Ascending(b)
    requires forall x :: x in a <==> x in b
    ensures a[0] == b[0]
  {
    assert b[0] in a && a[0] in b;
    var ia :| 0 <= ia < |a| && a[ia] == b[0];
    var ib :| 0 <= ib < |b| && b[ib] == a[0];
    if ia != 0 && ib != 0 {
      LessTransitive(a[0], b[0], a[0]);
      LessIrreflexive(a[0]);
    }
  }

  /** With equal heads, two ascending orders of the same set have tails with
      the same members. */
  lemma TailMembers(a: seq<string>, b: seq<string>)
    requires a != [] && b != [] && a[0] == b[0]
    requires Ascending(a)
    requires Ascending(b)
    requires forall x :: x in a <==> x in b
    ensures forall x :: x in a[1..] <==> x in b[1..]
  {
    assert a == [a[0]] + a[1..] && b == [b[0]] + b[1..];
    forall x | x in a[1..]
      ensures x in b[1..]
    {
      var k :| 0 <= k < |a[1..]| && a[1..][k] == x;
      assert StringLess(a[0], a[k + 1]) && x in b;
      LessIrreflexive(x);
      assert x != b[0];
    }
    forall x | x in b[1..]
      ensures x in a[1..]
    {
      var k :| 0 <= k < |b[1..]| && b[1..][k] == x;
      assert StringLess(b[0], b[k + 1]) && x in a;
      LessIrreflexive(x);
      assert x != a[0];
    }
  }
}
