/**
  The order the default comparison of `Array.prototype.sort` puts strings
  in: character by character, a proper prefix before its extensions.  The
  in-place sort of `formatPaths` is modelled by an insertion sort on an
  array of strings.
*/
module CodeUnitOrder {

  /** `a` sorts no later than `b`. */
  predicate LessEq(a: string, b: string) {
    a == [] || (b != [] && (a[0] < b[0] || (a[0] == b[0] && LessEq(a[1..], b[1..]))))
  }

  /** The independent definition: `a` is a prefix of `b`, or `a` is smaller at the first difference. */
  ghost predicate FirstDifferenceOrder(a: string, b: string) {
    a <= b || exists i :: 0 <= i < |a| && i < |b| && a[..i] == b[..i] && a[i] < b[i]
  }

  lemma {:induction false} LessEqIsFirstDifferenceOrder(a: string, b: string)
    ensures LessEq(a, b) <==> FirstDifferenceOrder(a, b)
  {
    if a != [] && b != [] {
      LessEqIsFirstDifferenceOrder(a[1..], b[1..]);
      if a[0] == b[0] {
        if LessEq(a, b) && !(a[1..] <= b[1..]) {
          var i :| 0 <= i < |a[1..]| && i < |b[1..]| && a[1..][..i] == b[1..][..i] && a[1..][i] < b[1..][i];
          assert a[..i + 1] == [a[0]] + a[1..][..i];
          assert b[..i + 1] == [b[0]] + b[1..][..i];
        }
        if FirstDifferenceOrder(a, b) && !(a <= b) {
          var i :| 0 <= i < |a| && i < |b| && a[..i] == b[..i] && a[i] < b[i];
          assert i > 0;
          assert a[1..][..i - 1] == a[..i][1..];
          assert b[1..][..i - 1] == b[..i][1..];
        }
        if a <= b {
          assert a[1..] <= b[1..];
        }
      } else {
        if FirstDifferenceOrder(a, b) && !(a <= b) {
          var i :| 0 <= i < |a| && i < |b| && a[..i] == b[..i] && a[i] < b[i];
          FirstDifferenceHead(a, b, i);
        }
        if a[0] < b[0] {
          assert a[..0] == b[..0];
        }
      }
    }
  }

  /** A first difference at `i` puts the first characters in order. */
  lemma FirstDifferenceHead(a: string, b: string, i: int)
    requires 0 <= i < |a| && i < |b| && a[..i] == b[..i] && a[i] < b[i]
    ensures a[0] <= b[0]
  {
    if i > 0 {
      assert a[0] == a[..i][0] && b[0] == b[..i][0];
    }
  }

  lemma {:induction false} LessEqReflexive(a: string)
    ensures LessEq(a, a)
  {
    if a != [] { LessEqReflexive(a[1..]); }
  }

  lemma {:induction false} LessEqTotal(a: string, b: string)
    ensures LessEq(a, b) || LessEq(b, a)
  {
    if a != [] && b != [] && a[0] == b[0] { LessEqTotal(a[1..], b[1..]); }
  }

  lemma {:induction false} LessEqAntisymmetric(a: string, b: string)
    requires LessEq(a, b) && LessEq(b, a)
    ensures a == b
  {
    if a != [] && b != [] {
      LessEqAntisymmetric(a[1..], b[1..]);
      assert a == [a[0]] + a[1..] && b == [b[0]] + b[1..];
    }
  }

  lemma {:induction false} LessEqTransitive(a: string, b: string, c: string)
    requires LessEq(a, b) && LessEq(b, c)
    ensures LessEq(a, c)
  {
    if a != [] && a[0] == b[0] && b[0] == c[0] { LessEqTransitive(a[1..], b[1..], c[1..]); }
  }

  /** Neighbours are in order. */
  predicate Sorted(s: seq<string>) {
    forall k :: 0 < k < |s| ==> LessEq(s[k - 1], s[k])
  }

  lemma {:induction false} SortedPair(s: seq<string>, i: int, j: int)
    requires Sorted(s) && 0 <= i <= j < |s|
    ensures LessEq(s[i], s[j])
    decreases j - i
  {
    if i == j {
      LessEqReflexive(s[i]);
    } else {
      SortedPair(s, i, j - 1);
      LessEqTransitive(s[i], s[j - 1], s[j]);
    }
  }

  /** A sorted list has every pair in order, not only neighbours. */
  lemma SortedAllPairs(s: seq<string>)
    requires Sorted(s)
    ensures forall i, j :: 0 <= i <= j < |s| ==> LessEq(s[i], s[j])
  {
    forall i, j | 0 <= i <= j < |s| ensures LessEq(s[i], s[j]) { SortedPair(s, i, j); }
  }

  /** The head of a sorted list is no later than any of its elements. */
  lemma HeadIsLeast(s: seq<string>, x: string)
    requires Sorted(s) && x in s
    ensures LessEq(s[0], x)
  {
    var i :| 0 <= i < |s| && s[i] == x;
    SortedPair(s, 0, i);
  }

  lemma TailSorted(s: seq<string>)
    requires Sorted(s) && s != []
    ensures Sorted(s[1..])
  {
    assert forall k :: 0 < k < |s| - 1 ==> s[1..][k - 1] == s[k] && s[1..][k] == s[k + 1];
  }

  lemma MultisetOfTail(s: seq<string>)
    requires s != []
    ensures multiset(s[1..]) == multiset(s) - multiset{s[0]}
  {
    assert s == [s[0]] + s[1..];
  }

  /**
    Sorting is deterministic: two sorted lists with the same elements are
    equal, so any correct sort (stable or not) gives the list our sort gives.
  */
  lemma {:induction false} SortedUnique(s: seq<string>, t: seq<string>)
    requires Sorted(s) && Sorted(t) && multiset(s) == multiset(t)
    ensures s == t
    decreases |s|
  {
    assert |s| == |multiset(s)| == |multiset(t)| == |t|;
    if s != [] {
      SortedUniqueStep(s, t);
      SortedUnique(s[1..], t[1..]);
      ConsEqual(s, t);
    }
  }

  /** Two sorted lists with the same elements start alike and leave tails of the same kind. */
  lemma SortedUniqueStep(s: seq<string>, t: seq<string>)
    requires Sorted(s) && Sorted(t) && multiset(s) == multiset(t) && s != [] && t != []
    ensures s[0] == t[0]
    ensures Sorted(s[1..]) && Sorted(t[1..]) && multiset(s[1..]) == multiset(t[1..])
  {
    assert s[0] in multiset(t) && t[0] in multiset(s);
    HeadIsLeast(t, s[0]);
    HeadIsLeast(s, t[0]);
    LessEqAntisymmetric(s[0], t[0]);
    MultisetOfTail(s);
    MultisetOfTail(t);
    TailSorted(s);
    TailSorted(t);
  }

  lemma ConsEqual(s: seq<string>, t: seq<string>)
    requires s != [] && t != [] && s[0] == t[0] && s[1..] == t[1..]
    ensures s == t
  {
    assert s == [s[0]] + s[1..] && t == [t[0]] + t[1..];
  }

  /** Exchanges `a[j - 1]` and `a[j]`. */
  method SwapDown(a: array<string>, j: int)
    requires 0 < j < a.Length
    modifies a
    ensures a[j - 1] == old(a[j]) && a[j] == old(a[j - 1])
    ensures forall k :: 0 <= k < a.Length && k != j - 1 && k != j ==> a[k] == old(a[k])
    ensures multiset(a[..]) == old(multiset(a[..]))
  {
    a[j - 1], a[j] := a[j], a[j - 1];
  }

  /** `a.sort()` with the default comparison. */
  method InsertionSort(a: array<string>)
    modifies a
    ensures Sorted(a[..])
    ensures multiset(a[..]) == old(multiset(a[..]))
  {
    var i := 0;
    while i < a.Length
      invariant 0 <= i <= a.Length
      invariant forall k :: 0 < k < i ==> LessEq(a[k - 1], a[k])
      invariant multiset(a[..]) == old(multiset(a[..]))
    {
      var j := i;
      while j > 0 && !LessEq(a[j - 1], a[j])
        invariant 0 <= j <= i
        invariant forall k :: 0 < k < j ==> LessEq(a[k - 1], a[k])
        invariant forall k :: j < k <= i ==> LessEq(a[k - 1], a[k])
        invariant 0 < j < i ==> LessEq(a[j - 1], a[j + 1])
        invariant multiset(a[..]) == old(multiset(a[..]))
      {
        LessEqTotal(a[j - 1], a[j]);
        SwapDown(a, j);
        j := j - 1;
      }
      i := i + 1;
    }
  }
}
