/** `Array.prototype.sort(compare)`, which JavaScript engines implement as a stable sort.
    It is modelled as insertion sort: `le(a, b)` stands for `compare(a, b) <= 0`, and an
    element is placed after every earlier element that does not compare greater. */
module Sorting {

  predicate Sorted<T>(s: seq<T>, le: (T, T) -> bool) {
    forall i :: 0 < i < |s| ==> le(s[i - 1], s[i])
  }

  /** A sorted list stays sorted when an element that is not below its last one is added. */
  lemma SortedAppend<T>(s: seq<T>, x: T, le: (T, T) -> bool)
    ensures Sorted(s + [x], le) <==> Sorted(s, le) && (s == [] || le(s[|s| - 1], x))
  {
    var t := s + [x];
    if Sorted(t, le) {
      forall i | 0 < i < |s|
        ensures le(s[i - 1], s[i])
      {
        assert t[i - 1] == s[i - 1] && t[i] == s[i];
      }
      if s != [] {
        assert t[|s| - 1] == s[|s| - 1] && t[|s|] == x;
        assert le(t[|s| - 1], t[|s|]);
      }
    } else if Sorted(s, le) && (s == [] || le(s[|s| - 1], x)) {
      forall i | 0 < i < |t|
        ensures le(t[i - 1], t[i])
      {
        if i < |s| {
          assert t[i - 1] == s[i - 1] && t[i] == s[i];
        }
      }
    }
  }

  /** Any two values compare one way or the other. */
  ghost predicate Total<T(!new)>(le: (T, T) -> bool) {
    forall a, b :: le(a, b) || le(b, a)
  }

  /** `x` placed into `s` after the last element that is not greater than it. */
  function Insert<T>(x: T, s: seq<T>, le: (T, T) -> bool): (r: seq<T>)
    ensures |r| == |s| + 1
  {
    if s == [] || le(s[|s| - 1], x) then s + [x]
    else Insert(x, s[..|s| - 1], le) + [s[|s| - 1]]
  }

  /** The stable sort of `s`: every element in turn inserted into the sorted prefix. */
  function SortSpec<T>(s: seq<T>, le: (T, T) -> bool): (r: seq<T>)
    ensures |r| == |s|
  {
    if s == [] then [] else Insert(s[|s| - 1], SortSpec(s[..|s| - 1], le), le)
  }

  /** Inserting adds exactly `x`. */
  lemma {:induction false} InsertPermutes<T>(x: T, s: seq<T>, le: (T, T) -> bool)
    ensures multiset(Insert(x, s, le)) == multiset(s) + multiset{x}
  {
    if s != [] && !le(s[|s| - 1], x) {
      var init := s[..|s| - 1];
      InsertPermutes(x, init, le);
      assert s == init + [s[|s| - 1]];
    }
  }

  /** The sort only reorders: its output is a permutation of its input. */
  lemma {:induction false} SortSpecPermutes<T>(s: seq<T>, le: (T, T) -> bool)
    ensures multiset(SortSpec(s, le)) == multiset(s)
  {
    if s != [] {
      var init := s[..|s| - 1];
      SortSpecPermutes(init, le);
      InsertPermutes(s[|s| - 1], SortSpec(init, le), le);
      assert s == init + [s[|s| - 1]];
    }
  }

  /** Where `Insert` puts `x`: after position `j - 1`, when everything after it is greater. */
  lemma {:induction false} InsertAt<T>(x: T, s: seq<T>, le: (T, T) -> bool, j: nat)
    requires j <= |s|
    requires j == 0 || le(s[j - 1], x)
    requires forall k :: j <= k < |s| ==> !le(s[k], x)
    ensures Insert(x, s, le) == s[..j] + [x] + s[j..]
  {
    if j < |s| {
      var init, last := s[..|s| - 1], s[|s| - 1];
      assert !le(last, x);
      assert Insert(x, s, le) == Insert(x, init, le) + [last];
      InsertAt(x, init, le, j);
      assert init[..j] == s[..j];
      assert s[j..] == init[j..] + [last];
    } else {
      assert s[..j] == s;
    }
  }

  /** Inserting into a sorted list keeps it sorted; the new last element is `x` or the old one. */
  lemma {:induction false} InsertSorted<T(!new)>(x: T, s: seq<T>, le: (T, T) -> bool)
    requires Total(le)
    requires Sorted(s, le)
    ensures Sorted(Insert(x, s, le), le)
    ensures Insert(x, s, le)[|s|] == x || Insert(x, s, le)[|s|] == s[|s| - 1]
  {
    if s != [] && !le(s[|s| - 1], x) {
      var init := s[..|s| - 1];
      assert Sorted(init, le);
      InsertSorted(x, init, le);
      var r := Insert(x, init, le);
      assert le(r[|init|], s[|s| - 1]) by {
        assert le(x, s[|s| - 1]);
        if |init| > 0 {
          assert le(init[|init| - 1], s[|s| - 1]);
        }
      }
    }
  }

  /** With a total comparison the stable sort's output is sorted. */
  lemma {:induction false} SortSpecSorted<T(!new)>(s: seq<T>, le: (T, T) -> bool)
    requires Total(le)
    ensures Sorted(SortSpec(s, le), le)
  {
    if s != [] {
      SortSpecSorted(s[..|s| - 1], le);
      InsertSorted(s[|s| - 1], SortSpec(s[..|s| - 1], le), le);
    }
  }

  /** Sorting a list that is already sorted leaves it exactly as it was. */
  lemma {:induction false} SortSpecOfSorted<T>(s: seq<T>, le: (T, T) -> bool)
    requires Sorted(s, le)
    ensures SortSpec(s, le) == s
  {
    if s != [] {
      var init := s[..|s| - 1];
      assert Sorted(init, le);
      SortSpecOfSorted(init, le);
      assert s == init + [s[|s| - 1]];
    }
  }

  /** A value that compares below a second, which compares below a third, compares below the third. */
  ghost predicate Transitive<T(!new)>(le: (T, T) -> bool) {
    forall a, b, c :: le(a, b) && le(b, c) ==> le(a, c)
  }

  /** `y` and `x` compare equal: each is not greater than the other. */
  predicate Tied<T>(x: T, y: T, le: (T, T) -> bool) {
    le(x, y) && le(y, x)
  }

  /** The elements of `s` that compare equal to `x`, in their order in `s`. */
  function Ties<T>(s: seq<T>, x: T, le: (T, T) -> bool): (r: seq<T>)
    ensures |r| <= |s|
  {
    if s == [] then []
    else Ties(s[..|s| - 1], x, le) + (if Tied(x, s[|s| - 1], le) then [s[|s| - 1]] else [])
  }

  /** `Ties` of a concatenation is the concatenation of the `Ties`. */
  lemma {:induction false} TiesAppend<T>(a: seq<T>, b: seq<T>, x: T, le: (T, T) -> bool)
    decreases |b|
    ensures Ties(a + b, x, le) == Ties(a, x, le) + Ties(b, x, le)
  {
    if b != [] {
      var init := b[..|b| - 1];
      TiesAppend(a, init, x, le);
      assert (a + b)[..|a + b| - 1] == a + init;
    } else {
      assert a + b == a;
    }
  }

  /** One insertion keeps the elements tied with `x` in their order, with `y` after them
      when it is tied too: an element never moves past one it compares equal to. */
  lemma {:induction false} InsertTies<T(!new)>(y: T, s: seq<T>, x: T, le: (T, T) -> bool)
    requires Transitive(le)
    ensures Ties(Insert(y, s, le), x, le) == Ties(s, x, le) + Ties([y], x, le)
  {
    if s == [] || le(s[|s| - 1], y) {
      TiesAppend(s, [y], x, le);
    } else {
      var init, last := s[..|s| - 1], s[|s| - 1];
      InsertTies(y, init, x, le);
      TiesAppend(Insert(y, init, le), [last], x, le);
      assert Ties([last], x, le) == [] || Ties([y], x, le) == [];
    }
  }

  /** The sort is stable: the elements that compare equal to any `x` keep their input order. */
  lemma {:induction false} SortSpecStable<T(!new)>(s: seq<T>, x: T, le: (T, T) -> bool)
    requires Transitive(le)
    ensures Ties(SortSpec(s, le), x, le) == Ties(s, x, le)
  {
    if s != [] {
      var init := s[..|s| - 1];
      SortSpecStable(init, x, le);
      InsertTies(s[|s| - 1], SortSpec(init, le), x, le);
    }
  }

  /** One step of the in-place sort: `a[i]` moves down into the sorted prefix `a[..i]`,
      shifting the greater elements up by one; the rest of the array is untouched. */
  method InsertLast<T>(a: array<T>, i: nat, le: (T, T) -> bool)
    requires i < a.Length
    modifies a
    ensures a[..i + 1] == Insert(old(a[i]), old(a[..i]), le)
    ensures a[i + 1..] == old(a[i + 1..])
  {
    ghost var sorted := a[..i];
    var x := a[i];
    var j := i;
    while j > 0 && !le(a[j - 1], x)
      invariant 0 <= j <= i
      invariant a[..j] == sorted[..j]
      invariant a[j + 1..i + 1] == sorted[j..]
      invariant forall k :: j <= k < i ==> !le(sorted[k], x)
      invariant a[i + 1..] == old(a[i + 1..])
    {
      a[j] := a[j - 1];
      j := j - 1;
    }
    a[j] := x;
    InsertAt(x, sorted, le, j);
    PlacedAt(a[..], sorted, x, j);
  }

  /** A sequence that agrees with `s` before `j`, holds `x` at `j` and `s[j..]` after it
      starts with `s` with `x` placed at `j`. */
  lemma PlacedAt<T>(t: seq<T>, s: seq<T>, x: T, j: nat)
    requires j <= |s| < |t|
    requires t[..j] == s[..j] && t[j] == x && t[j + 1..|s| + 1] == s[j..]
    ensures t[..|s| + 1] == s[..j] + [x] + s[j..]
  {
    assert t[..|s| + 1] == t[..j] + [t[j]] + t[j + 1..|s| + 1];
  }

  /** `SortSpec` of one more element is its insertion into the sort of the others. */
  lemma SortSpecStep<T>(s: seq<T>, i: nat, le: (T, T) -> bool)
    requires i < |s|
    ensures SortSpec(s[..i + 1], le) == Insert(s[i], SortSpec(s[..i], le), le)
  {
    assert s[..i + 1][..i] == s[..i];
  }

  /** The in-place sort: afterwards the array holds the stable sort of what it held before. */
  method Sort<T>(a: array<T>, le: (T, T) -> bool)
    modifies a
    ensures a[..] == SortSpec(old(a[..]), le)
  {
    ghost var orig := a[..];
    var i := 0;
    while i < a.Length
      invariant 0 <= i <= a.Length
      invariant a[..i] == SortSpec(orig[..i], le)
      invariant a[i..] == orig[i..]
    {
      assert a[i] == orig[i];
      InsertLast(a, i, le);
      SortSpecStep(orig, i, le);
      assert a[i + 1..] == orig[i + 1..];
      i := i + 1;
    }
    assert orig[..a.Length] == orig;
  }
}
