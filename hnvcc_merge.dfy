/** `mergeCourses` of the HNVCC adapter (resources/HNVCC/HNVCC_01.js): the course list is
    sorted in place by day, weeks and first period, then one scan joins each record onto the
    block before it when the two are the same class in consecutive periods. */
module HnvccMerge {
  import opened JsText
  import opened Schedule
  import opened Sorting

  // ---------------------------------------------------------------- the weeks key

  /** The numbers of a week list as `JSON.stringify` writes them between the brackets. */
  function WeeksText(weeks: seq<int>): string
  {
    if weeks == [] then ""
    else if |weeks| == 1 then IntToString(weeks[0])
    else IntToString(weeks[0]) + "," + WeeksText(weeks[1..])
  }

  /** `JSON.stringify(weeks)` for a list of integers, such as `[1,2,3]`. */
  function WeeksKey(weeks: seq<int>): string
  {
    "[" + WeeksText(weeks) + "]"
  }

  lemma IntToStringNoComma(n: int)
    ensures ',' !in IntToString(n)
  {
    var r := IntToString(n);
    if n >= 0 {
      assert forall i :: 0 <= i < |r| ==> r[i] != ',' by {
        assert AllDigits(r);
      }
    } else {
      assert forall i :: 1 <= i < |r| ==> r[i] != ',' by {
        assert forall i :: 1 <= i < |r| ==> r[i] == r[1..][i - 1];
      }
    }
  }

  /** Different integers are written differently. */
  lemma IntToStringInjective(m: int, n: int)
    requires IntToString(m) == IntToString(n)
    ensures m == n
  {
    var r := IntToString(m);
    if m >= 0 {
      assert IsDigit(r[0]);
    }
    if n >= 0 {
      assert IsDigit(r[0]);
    }
  }

  /** A text split at its first separator: the parts before it and after it are determined. */
  lemma FirstSeparator(a: string, ra: string, b: string, rb: string, sep: char)
    requires sep !in a && sep !in b
    requires a + [sep] + ra == b + [sep] + rb
    ensures a == b && ra == rb
  {
    var s := a + [sep] + ra;
    IndexOfFirst(a, ra, sep);
    IndexOfFirst(b, rb, sep);
    assert a == s[..|a|] && b == s[..|b|];
    assert ra == s[|a| + 1..];
  }

  lemma {:induction false} WeeksTextCommas(weeks: seq<int>)
    requires |weeks| > 1
    ensures ',' in WeeksText(weeks)
  {
    var w := WeeksText(weeks);
    assert w[|IntToString(weeks[0])|] == ',';
  }

  lemma WeeksTextEmpty(weeks: seq<int>)
    ensures WeeksText(weeks) == [] <==> weeks == []
  {
    if weeks != [] {
      assert |IntToString(weeks[0])| >= 1;
    }
  }

  lemma {:induction false} WeeksTextInjective(a: seq<int>, b: seq<int>)
    requires WeeksText(a) == WeeksText(b)
    decreases |a|
    ensures a == b
  {
    if a == [] || b == [] {
      WeeksTextEmpty(a);
      WeeksTextEmpty(b);
    } else if |a| == 1 && |b| == 1 {
      IntToStringInjective(a[0], b[0]);
    } else if |a| == 1 {
      IntToStringNoComma(a[0]);
      WeeksTextCommas(b);
    } else if |b| == 1 {
      IntToStringNoComma(b[0]);
      WeeksTextCommas(a);
    } else {
      IntToStringNoComma(a[0]);
      IntToStringNoComma(b[0]);
      assert WeeksText(a) == IntToString(a[0]) + [','] + WeeksText(a[1..]);
      assert WeeksText(b) == IntToString(b[0]) + [','] + WeeksText(b[1..]);
      FirstSeparator(IntToString(a[0]), WeeksText(a[1..]), IntToString(b[0]), WeeksText(b[1..]), ',');
      IntToStringInjective(a[0], b[0]);
      WeeksTextInjective(a[1..], b[1..]);
      assert a == [a[0]] + a[1..] && b == [b[0]] + b[1..];
    }
  }

  /** Two week lists have the same JSON text exactly when they are the same list. */
  lemma WeeksKeyInjective(a: seq<int>, b: seq<int>)
    ensures WeeksKey(a) == WeeksKey(b) <==> a == b
  {
    if WeeksKey(a) == WeeksKey(b) {
      assert WeeksText(a) == WeeksKey(a)[1..|WeeksKey(a)| - 1];
      assert WeeksText(b) == WeeksKey(b)[1..|WeeksKey(b)| - 1];
      WeeksTextInjective(a, b);
    }
  }

  // ---------------------------------------------------------------- the sort order

  /** `weekA.localeCompare(weekB)`, taken as plain code-point order. */
  function LocaleCompare(a: string, b: string): int
  {
    if a == b then 0 else if LexLess(a, b) then -1 else 1
  }

  /** The comparator of the sort: day, then the weeks' JSON text, then the first period. */
  function Compare(a: Course, b: Course): int
  {
    if a.day != b.day then a.day - b.day
    else
      var ka, kb := WeeksKey(a.weeks), WeeksKey(b.weeks);
      if ka != kb then LocaleCompare(ka, kb) else a.startSection - b.startSection
  }

  /** `a` may stay before `b`: the comparator does not put it after. */
  function CourseLe(a: Course, b: Course): bool
  {
    Compare(a, b) <= 0
  }

  /** The order is lexicographic on (day, weeks text, first period). */
  lemma CourseLeSpec(a: Course, b: Course)
    ensures CourseLe(a, b) <==>
      || a.day < b.day
      || (a.day == b.day && LexLess(WeeksKey(a.weeks), WeeksKey(b.weeks)))
      || (a.day == b.day && WeeksKey(a.weeks) == WeeksKey(b.weeks) && a.startSection <= b.startSection)
  {
    LexTotal(WeeksKey(a.weeks), WeeksKey(b.weeks));
  }

  /** Any two courses are ordered one way or the other. */
  lemma CourseLeTotal()
    ensures Total(CourseLe)
  {
    forall a: Course, b: Course
      ensures CourseLe(a, b) || CourseLe(b, a)
    {
      LexTotal(WeeksKey(a.weeks), WeeksKey(b.weeks));
    }
  }

  lemma CourseLeTrans(a: Course, b: Course, c: Course)
    requires CourseLe(a, b) && CourseLe(b, c)
    ensures CourseLe(a, c)
  {
    var ka, kb, kc := WeeksKey(a.weeks), WeeksKey(b.weeks), WeeksKey(c.weeks);
    CourseLeSpec(a, b);
    CourseLeSpec(b, c);
    CourseLeSpec(a, c);
    if a.day == b.day == c.day && LexLess(ka, kb) && LexLess(kb, kc) {
      LexTrans(ka, kb, kc);
    }
  }

  /** Two courses compare equal exactly when they share the day, the weeks and the first period. */
  lemma CourseTied(a: Course, b: Course)
    ensures Tied(a, b, CourseLe) <==> a.day == b.day && a.weeks == b.weeks && a.startSection == b.startSection
  {
    CourseLeSpec(a, b);
    CourseLeSpec(b, a);
    LexTotal(WeeksKey(a.weeks), WeeksKey(b.weeks));
    WeeksKeyInjective(a.weeks, b.weeks);
  }

  /** The sort of `mergeCourses` is stable: the courses that share the day, the weeks and the
      first period with `x` come out in their input order. */
  lemma CourseSortStable(s: seq<Course>, x: Course)
    ensures Ties(SortSpec(s, CourseLe), x, CourseLe) == Ties(s, x, CourseLe)
  {
    forall a, b, c | CourseLe(a, b) && CourseLe(b, c)
      ensures CourseLe(a, c)
    {
      CourseLeTrans(a, b, c);
    }
    SortSpecStable(s, x, CourseLe);
  }

  // ---------------------------------------------------------------- the scan

  /** The merge test: same day, weeks, name, teacher and location, and `next` starts in the
      period right after the block ends. */
  predicate CanMerge(cur: Course, next: Course)
  {
    && next.day == cur.day && WeeksKey(next.weeks) == WeeksKey(cur.weeks)
    && next.name == cur.name && next.teacher == cur.teacher && next.position == cur.position
    && next.startSection == cur.endSection + 1
  }

  /** The weeks test through `JSON.stringify` is the plain equality of the week lists. */
  lemma CanMergeSpec(cur: Course, next: Course)
    ensures CanMerge(cur, next) <==>
      && next.day == cur.day && next.weeks == cur.weeks
      && next.name == cur.name && next.teacher == cur.teacher && next.position == cur.position
      && next.startSection == cur.endSection + 1
  {
    WeeksKeyInjective(next.weeks, cur.weeks);
  }

  /** The scan's variables: the blocks already pushed and the block being extended. */
  datatype ScanState = ScanState(done: seq<Course>, cur: Course)

  /** The state after the first `n` records of the sorted list: a record that can merge
      extends the current block to its last period, any other starts a new block. */
  function Scan(t: seq<Course>, n: nat): ScanState
    requires 1 <= n <= |t|
  {
    if n == 1 then ScanState([], t[0])
    else
      var st := Scan(t, n - 1);
      var next := t[n - 1];
      if CanMerge(st.cur, next) then ScanState(st.done, st.cur.(endSection := next.endSection))
      else ScanState(st.done + [st.cur], next)
  }

  /** The scan over a sorted list, with the last block pushed. */
  function MergeSorted(t: seq<Course>): seq<Course>
  {
    if t == [] then [] else Scan(t, |t|).done + [Scan(t, |t|).cur]
  }

  /** What `mergeCourses` returns for a list: the scan over its stable sort. */
  function Merge(s: seq<Course>): seq<Course>
  {
    MergeSorted(SortSpec(s, CourseLe))
  }

  /** The number of neighbours among the first `n` records that can merge. */
  function Joins(t: seq<Course>, n: nat): nat
    requires n <= |t|
  {
    if n <= 1 then 0 else Joins(t, n - 1) + (if CanMerge(t[n - 2], t[n - 1]) then 1 else 0)
  }

  /** No two neighbours can merge. */
  predicate Separated(t: seq<Course>)
  {
    forall i :: 0 < i < |t| ==> !CanMerge(t[i - 1], t[i])
  }

  /** Record `i` opens a block that runs on to record `n - 1`: it cannot join the record
      before it, and every later record up to `n - 1` joins its predecessor. */
  predicate OpensBlock<T>(t: seq<T>, joins: (T, T) -> bool, i: nat, n: nat)
    requires i < n <= |t|
  {
    && (i == 0 || !joins(t[i - 1], t[i]))
    && forall j :: i < j < n ==> joins(t[j - 1], t[j])
  }

  /** The scan's invariant: the current block is the last record read with the first period
      of the record that opened the block, and every join removed one record. */
  lemma {:induction false} ScanTail(t: seq<Course>, n: nat)
    requires 1 <= n <= |t|
    ensures Scan(t, n).cur.(startSection := t[n - 1].startSection) == t[n - 1]
    ensures |Scan(t, n).done| + 1 + Joins(t, n) == n
  {
    if n > 1 {
      ScanTail(t, n - 1);
      var st := Scan(t, n - 1);
      var next := t[n - 1];
      assert CanMerge(st.cur, next) == CanMerge(t[n - 2], next);
      if CanMerge(st.cur, next) {
        CanMergeSpec(st.cur, next);
      }
    }
  }

  /** The open block passes the merge test with the next record exactly when the last
      record read does. */
  lemma ScanMergeTest(t: seq<Course>, n: nat)
    requires 2 <= n <= |t|
    ensures CanMerge(Scan(t, n - 1).cur, t[n - 1]) == CanMerge(t[n - 2], t[n - 1])
  {
    ScanTail(t, n - 1);
  }

  /** The record that opens the block running on to record `n - 1`. */
  function BlockStart<T>(t: seq<T>, joins: (T, T) -> bool, n: nat): nat
    requires 1 <= n <= |t|
    decreases n
  {
    if n == 1 || !joins(t[n - 2], t[n - 1]) then n - 1 else BlockStart(t, joins, n - 1)
  }

  /** `BlockStart` does open that block. */
  lemma {:induction false} BlockStartOpens<T>(t: seq<T>, joins: (T, T) -> bool, n: nat)
    requires 1 <= n <= |t|
    ensures BlockStart(t, joins, n) < n && OpensBlock(t, joins, BlockStart(t, joins, n), n)
  {
    if n > 1 && joins(t[n - 2], t[n - 1]) {
      BlockStartOpens(t, joins, n - 1);
    }
  }

  /** The scan's open block keeps the first period of the record at `BlockStart`. */
  lemma {:induction false} ScanBlockStart(t: seq<Course>, n: nat)
    requires 1 <= n <= |t|
    ensures BlockStart(t, CanMerge, n) < n && Scan(t, n).cur.startSection == t[BlockStart(t, CanMerge, n)].startSection
  {
    if n > 1 {
      ScanMergeTest(t, n);
      ScanBlockStart(t, n - 1);
    }
  }

  /** The open block's first period is that of the record that opened it. */
  lemma ScanStart(t: seq<Course>, n: nat)
    requires 1 <= n <= |t|
    ensures exists i :: 0 <= i < n && OpensBlock(t, CanMerge, i, n) && Scan(t, n).cur.startSection == t[i].startSection
  {
    BlockStartOpens(t, CanMerge, n);
    ScanBlockStart(t, n);
  }

  /** Two records: a pair that can merge becomes one block ending where the second ends,
      any other pair comes out unchanged. */
  lemma MergeTwo(a: Course, b: Course)
    ensures CanMerge(a, b) ==> MergeSorted([a, b]) == [a.(endSection := b.endSection)]
    ensures !CanMerge(a, b) ==> MergeSorted([a, b]) == [a, b]
  {
    assert Scan([a, b], 1) == ScanState([], a);
  }

  /** The order does not look at a block's last period. */
  lemma CourseLeIgnoresEnd(a: Course, e: int)
    ensures forall b :: CourseLe(a.(endSection := e), b) == CourseLe(a, b)
    ensures forall b :: CourseLe(b, a.(endSection := e)) == CourseLe(b, a)
  {
  }

  /** Over a sorted list the blocks come out sorted, and the current block is not after the
      last record read. */
  lemma {:induction false} ScanSorted(t: seq<Course>, n: nat)
    requires 1 <= n <= |t| && Sorted(t, CourseLe)
    ensures Sorted(Scan(t, n).done + [Scan(t, n).cur], CourseLe)
    ensures CourseLe(Scan(t, n).cur, t[n - 1])
  {
    if n > 1 {
      ScanSorted(t, n - 1);
      var st := Scan(t, n - 1);
      var next := t[n - 1];
      assert CourseLe(t[n - 2], next);
      CourseLeTrans(st.cur, t[n - 2], next);
      SortedAppend(st.done, st.cur, CourseLe);
      if CanMerge(st.cur, next) {
        var cur := st.cur.(endSection := next.endSection);
        CourseLeIgnoresEnd(st.cur, next.endSection);
        SortedAppend(st.done, cur, CourseLe);
      } else {
        SortedAppend(st.done + [st.cur], next, CourseLe);
      }
    }
  }

  /** A list with one more record is separated exactly when the list is and the record
      cannot merge onto its last one. */
  lemma SeparatedAppend(s: seq<Course>, x: Course)
    ensures Separated(s + [x]) <==> Separated(s) && (s == [] || !CanMerge(s[|s| - 1], x))
  {
    var t := s + [x];
    if Separated(t) {
      forall i | 0 < i < |s|
        ensures !CanMerge(s[i - 1], s[i])
      {
        assert t[i - 1] == s[i - 1] && t[i] == s[i];
      }
      if s != [] {
        assert t[|s| - 1] == s[|s| - 1] && t[|s|] == x;
      }
    } else if Separated(s) && (s == [] || !CanMerge(s[|s| - 1], x)) {
      forall i | 0 < i < |t|
        ensures !CanMerge(t[i - 1], t[i])
      {
        if i < |s| {
          assert t[i - 1] == s[i - 1] && t[i] == s[i];
        }
      }
    }
  }

  /** No two blocks the scan has produced can merge. */
  lemma {:induction false} ScanSeparated(t: seq<Course>, n: nat)
    requires 1 <= n <= |t|
    ensures Separated(Scan(t, n).done + [Scan(t, n).cur])
  {
    if n > 1 {
      ScanSeparated(t, n - 1);
      var st := Scan(t, n - 1);
      var next := t[n - 1];
      SeparatedAppend(st.done, st.cur);
      if CanMerge(st.cur, next) {
        SeparatedAppend(st.done, st.cur.(endSection := next.endSection));
      } else {
        SeparatedAppend(st.done + [st.cur], next);
      }
    }
  }

  /** Without neighbours that can merge, the scan pushes every record as it is. */
  lemma {:induction false} ScanIdentity(t: seq<Course>, n: nat)
    requires 1 <= n <= |t| && Joins(t, n) == 0
    ensures Scan(t, n) == ScanState(t[..n - 1], t[n - 1])
  {
    if n > 1 {
      ScanIdentity(t, n - 1);
      assert t[..n - 2] + [t[n - 2]] == t[..n - 1];
    }
  }

  lemma {:induction false} JoinsZero(t: seq<Course>, n: nat)
    requires n <= |t|
    ensures Joins(t, n) == 0 <==> forall i :: 0 < i < n ==> !CanMerge(t[i - 1], t[i])
  {
    if n > 1 {
      JoinsZero(t, n - 1);
    }
  }

  // ---------------------------------------------------------------- what the merge promises

  /** A non-empty list merges into at least one block and at most as many blocks as it has
      records: one fewer for every pair of neighbours that can merge. */
  lemma MergeSortedLength(t: seq<Course>)
    requires t != []
    ensures |MergeSorted(t)| == |t| - Joins(t, |t|)
    ensures 1 <= |MergeSorted(t)| <= |t|
  {
    ScanTail(t, |t|);
  }

  /** No two neighbouring blocks of the result can merge. */
  lemma MergeSortedSeparated(t: seq<Course>)
    ensures Separated(MergeSorted(t))
  {
    if t != [] {
      ScanSeparated(t, |t|);
    }
  }

  /** The scan changes a list exactly when two of its neighbours can merge. */
  lemma MergeSortedIdentity(t: seq<Course>)
    ensures MergeSorted(t) == t <==> Separated(t)
  {
    if t != [] {
      JoinsZero(t, |t|);
      if Separated(t) {
        ScanIdentity(t, |t|);
        assert t[..|t| - 1] + [t[|t| - 1]] == t;
      } else {
        MergeSortedSeparated(t);
      }
    }
  }

  /** The blocks of a sorted list are sorted. */
  lemma MergeSortedSorted(t: seq<Course>)
    requires Sorted(t, CourseLe)
    ensures Sorted(MergeSorted(t), CourseLe)
  {
    if t != [] {
      ScanSorted(t, |t|);
    }
  }

  /** The result of `mergeCourses` is ordered by (day, weeks, first period), and merging it
      again changes nothing. */
  lemma MergeIdempotent(s: seq<Course>)
    ensures Sorted(Merge(s), CourseLe)
    ensures Separated(Merge(s))
    ensures Merge(Merge(s)) == Merge(s)
  {
    var m := Merge(s);
    CourseLeTotal();
    SortSpecSorted(s, CourseLe);
    MergeSortedSorted(SortSpec(s, CourseLe));
    MergeSortedSeparated(SortSpec(s, CourseLe));
    SortSpecOfSorted(m, CourseLe);
    MergeSortedIdentity(m);
  }

  /** `mergeCourses(courses)`: `[]` for a missing or empty list; otherwise the array is left
      holding its stable sort, a permutation of the same records, and the result is the scan
      over it. */
  method MergeCourses(courses: array?<Course>) returns (merged: seq<Course>)
    modifies courses
    ensures courses == null || courses.Length == 0 ==> merged == []
    ensures courses != null && courses.Length > 0 ==> 1 <= |merged| <= courses.Length
    ensures courses != null ==> courses[..] == SortSpec(old(courses[..]), CourseLe)
    ensures courses != null ==> multiset(courses[..]) == multiset(old(courses[..]))
    ensures courses != null ==> merged == MergeSorted(courses[..]) == Merge(old(courses[..]))
  {
    if courses == null || courses.Length == 0 {
      return [];
    }
    SortSpecPermutes(courses[..], CourseLe);
    Sort(courses, CourseLe);
    var t := courses[..];
    merged := MergeScan(t);
    MergeSortedLength(t);
  }

  /** The `for` loop of `mergeCourses` over the sorted records. */
  method MergeScan(t: seq<Course>) returns (merged: seq<Course>)
    requires t != []
    ensures merged == MergeSorted(t)
  {
    var cur := t[0];
    merged := [];
    var i := 1;
    while i < |t|
      invariant 1 <= i <= |t|
      invariant Scan(t, i) == ScanState(merged, cur)
    {
      var next := t[i];
      if CanMerge(cur, next) {
        cur := cur.(endSection := next.endSection);
      } else {
        merged := merged + [cur];
        cur := next;
      }
      i := i + 1;
    }
    merged := merged + [cur];
  }
}
