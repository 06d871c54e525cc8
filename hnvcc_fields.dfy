/** The field extractors of the HNVCC timetable adapter (resources/HNVCC/HNVCC_01.js):
    the academic-year validator, the week-text parser, the period-label parser and the
    two preset daily timetables. */
module HnvccFields {
  import opened Wrappers
  import opened JsText
  import opened Schedule
  import opened Sorting

  // ---------------------------------------------------------------- validateYearInput

  const YearMessage := "请输入四位数字的学年！"

  /** `/^[0-9]{4}$/.test(input)`: accepted exactly when the input is four ASCII digits. */
  function ValidateYearInput(input: string): (r: Verdict)
    ensures r == Accepted <==> |input| == 4 && AllDigits(input)
    ensures r.Rejected? ==> r.message == YearMessage
  {
    if |input| == 4 && DigitRunEnd(input, 0) == 4 then Accepted else Rejected(YearMessage)
  }

  // ---------------------------------------------------------------- parseWeeks

  /** The text `/第(.*?)(周|\()/` captures: what stands between `第` and the next `周` or `(`. */
  function WeekSpan(weekStr: string): Option<string>
  {
    LazyCapture(weekStr, '第', {'周', '('})
  }

  function Min(a: int, b: int): int { if a <= b then a else b }
  function Max(a: int, b: int): int { if a <= b then b else a }

  /** The weeks `lo..hi`. */
  function Interval(lo: int, hi: int): (r: set<int>)
    decreases hi - lo
    ensures forall w :: w in r <==> lo <= w <= hi
  {
    if hi < lo then {} else Interval(lo, hi - 1) + {hi}
  }

  /** The first and last week one comma-separated token names: `a-b` runs between the two
      numbers whichever is written first, a single number is a one-week run, and a token with
      a part that is not a number, or with more than one dash, names nothing. */
  function TokenBounds(token: string): (r: Option<(int, int)>)
    ensures r.Some? ==> r.value.0 <= r.value.1
  {
    var parts := Split(token, '-');
    if |parts| == 2 then
      var start := ParseInt(Trim(parts[0]));
      var end := ParseInt(Trim(parts[1]));
      if start.Some? && end.Some? then Some((Min(start.value, end.value), Max(start.value, end.value)))
      else None
    else if |parts| == 1 then
      var week := ParseInt(Trim(parts[0]));
      if week.Some? then Some((week.value, week.value)) else None
    else None
  }

  /** The weeks one token stands for. */
  function TokenWeeks(token: string): set<int>
  {
    match TokenBounds(token)
    case Some((lo, hi)) => Interval(lo, hi)
    case None => {}
  }

  function TokensWeeks(tokens: seq<string>): set<int>
  {
    if tokens == [] then {} else TokensWeeks(tokens[..|tokens| - 1]) + TokenWeeks(tokens[|tokens| - 1])
  }

  /** The set of weeks a week text describes. */
  function WeekSet(weekStr: string): set<int>
  {
    match WeekSpan(weekStr)
    case None => {}
    case Some(span) => TokensWeeks(Split(span, ','))
  }

  /** `if (!weeks.includes(w)) weeks.push(w)`. */
  function PushNew(acc: seq<int>, w: int): seq<int>
  {
    if w in acc then acc else acc + [w]
  }

  /** The pushes of `for (let i = lo; i <= hi; i++)`. */
  function PushRange(acc: seq<int>, lo: int, hi: int): seq<int>
    decreases hi - lo
  {
    if hi < lo then acc else PushNew(PushRange(acc, lo, hi - 1), hi)
  }

  /** The pushes one token causes, in the order the loop performs them. */
  function PushToken(acc: seq<int>, token: string): seq<int>
  {
    match TokenBounds(token)
    case Some((lo, hi)) => PushRange(acc, lo, hi)
    case None => acc
  }

  function PushTokens(tokens: seq<string>): seq<int>
  {
    if tokens == [] then [] else PushToken(PushTokens(tokens[..|tokens| - 1]), tokens[|tokens| - 1])
  }

  /** `(a, b) => a - b` as a comparison: `a` may precede `b`. */
  function IntLe(a: int, b: int): bool { a <= b }

  /** What `parseWeeks` returns: the collected weeks, sorted with `(a, b) => a - b`. */
  function WeeksOf(weekStr: string): seq<int>
  {
    match WeekSpan(weekStr)
    case None => []
    case Some(span) => SortSpec(PushTokens(Split(span, ',')), IntLe)
  }

  lemma PushNewSpec(acc: seq<int>, w: int)
    requires Distinct(acc)
    ensures Distinct(PushNew(acc, w))
    ensures forall v :: v in PushNew(acc, w) <==> v in acc || v == w
  {
    if w !in acc {
      assert multiset(acc + [w]) == multiset(acc) + multiset{w};
    }
  }

  lemma {:induction false} PushRangeSpec(acc: seq<int>, lo: int, hi: int)
    requires Distinct(acc)
    decreases hi - lo
    ensures Distinct(PushRange(acc, lo, hi))
    ensures forall v :: v in PushRange(acc, lo, hi) <==> v in acc || lo <= v <= hi
  {
    if hi >= lo {
      PushRangeSpec(acc, lo, hi - 1);
      PushNewSpec(PushRange(acc, lo, hi - 1), hi);
    }
  }

  lemma PushTokenSpec(acc: seq<int>, token: string)
    requires Distinct(acc)
    ensures Distinct(PushToken(acc, token))
    ensures forall v :: v in PushToken(acc, token) <==> v in acc || v in TokenWeeks(token)
  {
    match TokenBounds(token)
    case Some((lo, hi)) => PushRangeSpec(acc, lo, hi);
    case None =>
  }

  lemma {:induction false} PushTokensSpec(tokens: seq<string>)
    ensures Distinct(PushTokens(tokens))
    ensures forall v :: v in PushTokens(tokens) <==> v in TokensWeeks(tokens)
  {
    if tokens != [] {
      PushTokensSpec(tokens[..|tokens| - 1]);
      PushTokenSpec(PushTokens(tokens[..|tokens| - 1]), tokens[|tokens| - 1]);
    }
  }

  /** In a list without repetitions, neighbours differ. */
  lemma DistinctNeighbours(s: seq<int>, i: nat)
    requires Distinct(s) && 0 < i < |s|
    ensures s[i - 1] != s[i]
  {
    assert s == s[..i - 1] + [s[i - 1], s[i]] + s[i + 1..];
    assert multiset(s)[s[i]] >= (if s[i - 1] == s[i] then 2 else 1);
  }

  /** A list sorted by `<=` without repetitions is strictly ascending. */
  lemma {:induction false} SortedDistinctAscending(s: seq<int>)
    requires Sorted(s, IntLe) && Distinct(s)
    ensures StrictlyAscending(s)
  {
    if |s| > 1 {
      var init := s[..|s| - 1];
      assert Distinct(init) by {
        assert s == init + [s[|s| - 1]];
        forall x ensures multiset(init)[x] <= 1 {
          assert multiset(s)[x] == multiset(init)[x] + (if x == s[|s| - 1] then 1 else 0);
        }
      }
      assert Sorted(init, IntLe);
      SortedDistinctAscending(init);
      DistinctNeighbours(s, |s| - 1);
      forall i, j | 0 <= i < j < |s| ensures s[i] < s[j] {
        if j < |s| - 1 {
          assert init[i] < init[j];
        } else if i < |s| - 2 {
          assert init[i] < init[|s| - 2];
        }
      }
    }
  }

  /** `parseWeeks`'s promise: an ascending list of distinct weeks holding exactly the weeks
      the text describes, empty when the text has no `第…周` or `第…(` part. */
  lemma WeeksOfSpec(weekStr: string)
    ensures WeekSpan(weekStr).None? ==> WeeksOf(weekStr) == []
    ensures StrictlyAscending(WeeksOf(weekStr))
    ensures forall w :: w in WeeksOf(weekStr) <==> w in WeekSet(weekStr)
  {
    match WeekSpan(weekStr)
    case None =>
    case Some(span) =>
      var pushed := PushTokens(Split(span, ','));
      PushTokensSpec(Split(span, ','));
      SortSpecPermutes(pushed, IntLe);
      SortSpecSorted(pushed, IntLe);
      var sorted := SortSpec(pushed, IntLe);
      assert Distinct(sorted);
      SortedDistinctAscending(sorted);
      assert forall w :: w in sorted <==> w in multiset(sorted);
  }

  /** `for (let i = lo; i <= hi; i++) if (!weeks.includes(i)) weeks.push(i)`. */
  method PushWeekRange(weeks: seq<int>, lo: int, hi: int) returns (pushed: seq<int>)
    ensures pushed == PushRange(weeks, lo, hi)
  {
    pushed := weeks;
    var i := lo;
    while i <= hi
      invariant lo <= i && (i <= hi + 1 || i == lo)
      invariant pushed == PushRange(weeks, lo, i - 1)
    {
      if i !in pushed {
        pushed := pushed + [i];
      }
      i := i + 1;
    }
  }

  /** `parseWeeks(weekStr)`: collects the weeks of every token, skipping repeats, then sorts.
      A single-number token is pushed as the one-week range it stands for. */
  method ParseWeeks(weekStr: string) returns (weeks: seq<int>)
    ensures weeks == WeeksOf(weekStr)
    ensures WeekSpan(weekStr).None? ==> weeks == []
    ensures StrictlyAscending(weeks)
    ensures forall w :: w in weeks <==> w in WeekSet(weekStr)
  {
    WeeksOfSpec(weekStr);
    weeks := [];
    var span := WeekSpan(weekStr);
    if span.None? {
      return;
    }
    weeks := PushAllTokens(Split(span.value, ','));
    var a := new int[|weeks|](i requires 0 <= i < |weeks| => weeks[i]);
    assert a[..] == weeks;
    Sort(a, IntLe);
    weeks := a[..];
  }

  /** One more token extends the pushes by that token's own. */
  lemma PushTokensStep(ranges: seq<string>, k: nat)
    requires k < |ranges|
    ensures PushTokens(ranges[..k + 1]) == PushToken(PushTokens(ranges[..k]), ranges[k])
  {
    assert ranges[..k + 1][..k] == ranges[..k];
  }

  /** The loop over the comma-separated tokens. */
  method PushAllTokens(ranges: seq<string>) returns (weeks: seq<int>)
    ensures weeks == PushTokens(ranges)
  {
    weeks := [];
    var k := 0;
    while k < |ranges|
      invariant 0 <= k <= |ranges|
      invariant weeks == PushTokens(ranges[..k])
    {
      PushTokensStep(ranges, k);
      var bounds := TokenBounds(ranges[k]);
      if bounds.Some? {
        weeks := PushWeekRange(weeks, bounds.value.0, bounds.value.1);
      }
      k := k + 1;
    }
    assert ranges[..k] == ranges;
  }

  /** A token `a-b` of two numbers runs from the smaller to the larger, whichever is first. */
  lemma RangeTokenBounds(a: string, b: string)
    requires a != [] && AllDigits(a) && b != [] && AllDigits(b)
    ensures TokenBounds(a + "-" + b)
         == Some((Min(DigitsValue(a), DigitsValue(b)), Max(DigitsValue(a), DigitsValue(b))))
  {
    assert '-' !in a by { assert forall i :: 0 <= i < |a| ==> a[i] != '-'; }
    assert '-' !in b by { assert forall i :: 0 <= i < |b| ==> b[i] != '-'; }
    SplitFirst(a, b, '-');
    SplitWithoutSeparator(b, '-');
    assert Split(a + "-" + b, '-') == [a, b];
    TrimIdentity(a);
    TrimIdentity(b);
    ParseIntDigits(a);
    ParseIntDigits(b);
  }

  /** A token that is a single number is a one-week run. */
  lemma SingleTokenBounds(d: string)
    requires d != [] && AllDigits(d)
    ensures TokenBounds(d) == Some((DigitsValue(d), DigitsValue(d)))
  {
    assert '-' !in d by { assert forall i :: 0 <= i < |d| ==> d[i] != '-'; }
    SplitWithoutSeparator(d, '-');
    TrimIdentity(d);
    ParseIntDigits(d);
  }

  /** A token without a dash that does not start with a digit or a sign names no week. */
  lemma NonNumericTokenBounds(t: string)
    requires '-' !in t
    requires Trim(t) == [] || (!IsDigit(Trim(t)[0]) && Trim(t)[0] != '+')
    ensures TokenBounds(t) == None
  {
    SplitWithoutSeparator(t, '-');
    var u := Trim(t);
    if u != [] {
      TrimSpec(t);
      assert u[0] != '-' by { assert u[0] == t[|t| - |TrimStart(t)|]; }
      assert TrimStart(u) == u;
      assert DigitRunEnd(u, 0) == 0;
    }
  }

  lemma ExampleSpan()
    ensures WeekSpan("第1-3,5周") == Some("1-3,5")
  {
    LazyCaptureFront('第', "1-3,5", '周', "", {'周', '('});
    assert ['第'] + "1-3,5" + ['周'] + "" == "第1-3,5周";
  }

  lemma ExampleTokens()
    ensures Split("1-3,5", ',') == ["1-3", "5"]
  {
    SplitFirst("1-3", "5", ',');
    SplitWithoutSeparator("5", ',');
    assert "1-3" + [','] + "5" == "1-3,5";
  }

  lemma ExampleRangeBounds()
    ensures TokenBounds("1-3") == Some((1, 3))
  {
    assert "1" + "-" + "3" == "1-3";
    DigitsValueOfDigit('1');
    DigitsValueOfDigit('3');
    RangeTokenBounds("1", "3");
  }

  lemma ExampleSingleBounds()
    ensures TokenBounds("5") == Some((5, 5))
  {
    DigitsValueOfDigit('5');
    SingleTokenBounds("5");
  }

  lemma ExampleWeeks()
    ensures Interval(1, 3) + Interval(5, 5) == {1, 2, 3, 5}
  {
    assert Interval(1, 0) == {};
    assert Interval(1, 1) == {1};
    assert Interval(1, 2) == {1, 2};
    assert Interval(5, 5) == Interval(5, 4) + {5};
  }

  lemma ExampleSplit()
    ensures WeekSet("第1-3,5周") == TokensWeeks(["1-3", "5"])
  {
    ExampleSpan();
    ExampleTokens();
  }

  lemma ExampleTokensWeeks()
    ensures TokensWeeks(["1-3", "5"]) == {1, 2, 3, 5}
  {
    ExampleRangeBounds();
    ExampleSingleBounds();
    var tokens := ["1-3", "5"];
    assert tokens[..1] == ["1-3"] && tokens[..1][..0] == [];
    assert TokensWeeks(tokens) == Interval(1, 3) + Interval(5, 5);
    ExampleWeeks();
  }

  /** The text `第1-3,5周` stands for weeks 1, 2, 3 and 5. */
  lemma WeekSetExample()
    ensures WeekSet("第1-3,5周") == {1, 2, 3, 5}
  {
    ExampleSplit();
    ExampleTokensWeeks();
  }

  // ---------------------------------------------------------------- parseSections

  datatype Sections = Sections(start: int, end: int)

  /** `/(\d+)\s*-\s*(\d+)/` matches at position `p`. */
  predicate RangeAt(s: string, p: nat)
  {
    && p < |s| && IsDigit(s[p])
    && var f := SpaceRunEnd(s, DigitRunEnd(s, p));
    && f < |s| && s[f] == '-'
    && var g := SpaceRunEnd(s, f + 1);
    && g < |s| && IsDigit(s[g])
  }

  /** The leftmost position at or after `from` where the range pattern matches. */
  function FindRange(s: string, from: nat): (r: Option<nat>)
    requires from <= |s|
    decreases |s| - from
    ensures r.Some? ==> from <= r.value && RangeAt(s, r.value)
    ensures r.Some? ==> forall p :: from <= p < r.value ==> !RangeAt(s, p)
    ensures r.None? ==> forall p :: from <= p < |s| ==> !RangeAt(s, p)
  {
    if from == |s| then None
    else if RangeAt(s, from) then Some(from)
    else FindRange(s, from + 1)
  }

  /** The leftmost digit at or after `from` (where `/(\d+)/` matches). */
  function FirstDigit(s: string, from: nat): (r: Option<nat>)
    requires from <= |s|
    decreases |s| - from
    ensures r.Some? ==> from <= r.value < |s| && IsDigit(s[r.value])
    ensures r.Some? ==> forall p :: from <= p < r.value ==> !IsDigit(s[p])
    ensures r.None? ==> forall p :: from <= p < |s| ==> !IsDigit(s[p])
  {
    if from == |s| then None
    else if IsDigit(s[from]) then Some(from)
    else FirstDigit(s, from + 1)
  }

  /** The two numbers of the range that matches at `p`, in the order written. */
  function RangeValues(s: string, p: nat): (nat, nat)
    requires RangeAt(s, p)
  {
    var e := DigitRunEnd(s, p);
    var g := SpaceRunEnd(s, SpaceRunEnd(s, e) + 1);
    (RunValue(s, p, e), RunValue(s, g, DigitRunEnd(s, g)))
  }

  /** `parseSections(sectionStr)`: the numbers of the first `N-M` in the order written,
      otherwise the first number `N` as `N-N` when it is positive, otherwise nothing. */
  function ParseSections(s: string): (r: Option<Sections>)
    ensures r.Some? ==> r.value.start >= 0 && r.value.end >= 0
    ensures r.Some? && FindRange(s, 0).None? ==> r.value.start == r.value.end > 0
    ensures FirstDigit(s, 0).None? ==> r == None
  {
    match FindRange(s, 0)
    case Some(p) =>
      var (start, end) := RangeValues(s, p);
      Some(Sections(start, end))
    case None =>
      match FirstDigit(s, 0)
      case None => None
      case Some(q) =>
        var n := RunValue(s, q, DigitRunEnd(s, q));
        if n > 0 then Some(Sections(n, n)) else None
  }

  /** A run of `n` digits at `p` followed by a non-digit ends at `p + n`. */
  lemma {:induction false} DigitRunEndAt(s: string, p: nat, n: nat)
    requires p + n <= |s| && forall k :: p <= k < p + n ==> IsDigit(s[k])
    requires p + n == |s| || !IsDigit(s[p + n])
    decreases n
    ensures DigitRunEnd(s, p) == p + n
  {
    if n > 0 {
      DigitRunEndAt(s, p + 1, n - 1);
    }
  }

  /** A block of digits `d` at `p` that no digit follows is the digit run starting at `p`. */
  lemma DigitBlock(s: string, p: nat, d: string)
    requires d != [] && AllDigits(d)
    requires p + |d| <= |s| && s[p..p + |d|] == d
    requires p + |d| == |s| || !IsDigit(s[p + |d|])
    ensures p < |s| && IsDigit(s[p])
    ensures DigitRunEnd(s, p) == p + |d| && RunValue(s, p, p + |d|) == DigitsValue(d)
  {
    assert forall k :: p <= k < p + |d| ==> s[k] == d[k - p];
    RunValueShift(s, p, d, |d|);
    DigitRunEndAt(s, p, |d|);
  }

  /** The range pattern is found at `p` when it matches there and nowhere before. */
  lemma FindRangeAt(s: string, p: nat)
    requires RangeAt(s, p)
    requires forall q :: 0 <= q < p ==> !RangeAt(s, q)
    ensures FindRange(s, 0) == Some(p)
  {
    var r := FindRange(s, 0);
    assert r.Some?;
    assert !(r.value < p) && !(p < r.value);
  }

  /** A text without digits. */
  predicate DigitFree(s: string) {
    forall i :: 0 <= i < |s| ==> !IsDigit(s[i])
  }

  /** A dash between two digit runs that end where shown: the range matches at `p`, and its
      values are those of the two runs. */
  lemma RangeEndsAt(s: string, p: nat, n: nat, m: nat)
    requires n > 0 && m > 0 && p + n + 1 + m <= |s|
    requires DigitRunEnd(s, p) == p + n
    requires s[p + n] == '-'
    requires DigitRunEnd(s, p + n + 1) == p + n + 1 + m
    ensures RangeAt(s, p)
    ensures RangeValues(s, p) == (RunValue(s, p, p + n), RunValue(s, p + n + 1, p + n + 1 + m))
  {
    assert SpaceRunEnd(s, p + n) == p + n;
    assert SpaceRunEnd(s, p + n + 1) == p + n + 1;
  }

  /** `n` digits, a dash and `m` digits at `p`, no digit after them: the range matches at `p`
      and reads the two runs. */
  lemma RangeMatchAt(s: string, p: nat, n: nat, m: nat)
    requires n > 0 && m > 0 && p + n + 1 + m <= |s|
    requires forall k :: p <= k < p + n ==> IsDigit(s[k])
    requires s[p + n] == '-'
    requires forall k :: p + n + 1 <= k < p + n + 1 + m ==> IsDigit(s[k])
    requires p + n + 1 + m == |s| || !IsDigit(s[p + n + 1 + m])
    ensures RangeAt(s, p)
    ensures RangeValues(s, p) == (RunValue(s, p, p + n), RunValue(s, p + n + 1, p + n + 1 + m))
  {
    DigitRunEndAt(s, p, n);
    DigitRunEndAt(s, p + n + 1, m);
    RangeEndsAt(s, p, n, m);
  }

  /** The first range of a label whose digits before `p` are none is the one at `p`. */
  lemma ParseSectionsAt(s: string, p: nat, n: nat, m: nat)
    requires n > 0 && m > 0 && p + n + 1 + m <= |s|
    requires forall k :: 0 <= k < p ==> !IsDigit(s[k])
    requires forall k :: p <= k < p + n ==> IsDigit(s[k])
    requires s[p + n] == '-'
    requires forall k :: p + n + 1 <= k < p + n + 1 + m ==> IsDigit(s[k])
    requires p + n + 1 + m == |s| || !IsDigit(s[p + n + 1 + m])
    ensures ParseSections(s) == Some(Sections(RunValue(s, p, p + n), RunValue(s, p + n + 1, p + n + 1 + m)))
  {
    RangeMatchAt(s, p, n, m);
    FindRangeAt(s, p);
  }

  /** Where the pieces of `pre + a + "-" + b + post` stand. */
  lemma RangeLabelLayout(pre: string, a: string, b: string, post: string)
    ensures var s, p, e := pre + a + "-" + b + post, |pre|, |pre| + |a|;
      && |s| == e + 1 + |b| + |post|
      && (forall k :: 0 <= k < p ==> s[k] == pre[k])
      && (forall k :: p <= k < e ==> s[k] == a[k - p])
      && s[e] == '-'
      && (forall k :: e + 1 <= k < e + 1 + |b| ==> s[k] == b[k - (e + 1)])
      && (post != [] ==> s[e + 1 + |b|] == post[0])
  {
  }

  /** Digits `a`, a dash and digits `b` at `p`, no digit before them and none right after:
      the label reads `a` and `b`. */
  lemma ParseSectionsPieces(s: string, p: nat, a: string, b: string)
    requires a != [] && AllDigits(a) && b != [] && AllDigits(b)
    requires p + |a| + 1 + |b| <= |s|
    requires forall k :: 0 <= k < p ==> !IsDigit(s[k])
    requires forall k :: p <= k < p + |a| ==> s[k] == a[k - p]
    requires s[p + |a|] == '-'
    requires forall k :: p + |a| + 1 <= k < p + |a| + 1 + |b| ==> s[k] == b[k - (p + |a| + 1)]
    requires p + |a| + 1 + |b| == |s| || !IsDigit(s[p + |a| + 1 + |b|])
    ensures ParseSections(s) == Some(Sections(DigitsValue(a), DigitsValue(b)))
  {
    RunValueShift(s, p, a, |a|);
    RunValueShift(s, p + |a| + 1, b, |b|);
    ParseSectionsAt(s, p, |a|, |b|);
  }

  /** The range in a label is read in the order it is written, never reordered:
      a label `…a-b…` gives start `a` and end `b`, even when `a > b`. */
  lemma ParseSectionsWrittenOrder(pre: string, a: string, b: string, post: string)
    requires DigitFree(pre)
    requires a != [] && AllDigits(a) && b != [] && AllDigits(b)
    requires post == [] || !IsDigit(post[0])
    ensures ParseSections(pre + a + "-" + b + post) == Some(Sections(DigitsValue(a), DigitsValue(b)))
  {
    RangeLabelLayout(pre, a, b, post);
    ParseSectionsPieces(pre + a + "-" + b + post, |pre|, a, b);
  }

  /** No range matches anywhere in a label whose only digits are one block. */
  lemma NoRangeInSingle(pre: string, d: string, post: string)
    requires DigitFree(pre) && DigitFree(post)
    requires d != [] && AllDigits(d)
    ensures forall q :: 0 <= q < |pre + d + post| ==> !RangeAt(pre + d + post, q)
  {
    var s := pre + d + post;
    var p := |pre|;
    var e := p + |d|;
    assert forall q :: 0 <= q < p ==> s[q] == pre[q];
    assert forall q :: e <= q < |s| ==> s[q] == post[q - e];
    assert forall q :: p <= q < e ==> s[q] == d[q - p];
    forall q | 0 <= q < |s| && IsDigit(s[q]) ensures DigitRunEnd(s, q) == e {
      assert p <= q < e;
      DigitRunEndAt(s, q, e - q);
    }
  }

  /** A label with one number and no other digits gives that number twice when it is
      positive, and nothing when it is zero. */
  lemma ParseSectionsSingle(pre: string, d: string, post: string)
    requires DigitFree(pre) && DigitFree(post)
    requires d != [] && AllDigits(d)
    ensures ParseSections(pre + d + post)
         == if DigitsValue(d) > 0 then Some(Sections(DigitsValue(d), DigitsValue(d))) else None
  {
    var s := pre + d + post;
    var p := |pre|;
    NoRangeInSingle(pre, d, post);
    assert s[p..p + |d|] == d;
    assert p + |d| == |s| || s[p + |d|] == post[0];
    DigitBlock(s, p, d);
    assert forall q :: 0 <= q < p ==> s[q] == pre[q];
    assert FirstDigit(s, 0) == Some(p);
  }

  /** A label without any digit gives nothing. */
  lemma ParseSectionsNoDigit(s: string)
    requires DigitFree(s)
    ensures ParseSections(s) == None
  {
  }

  /** `第1-2节`, the usual period label. */
  lemma SectionLabelRange()
    ensures ParseSections("第1-2节") == Some(Sections(1, 2))
  {
    assert "第" + "1" + "-" + "2" + "节" == "第1-2节";
    DigitsValueOfDigit('1');
    DigitsValueOfDigit('2');
    ParseSectionsWrittenOrder("第", "1", "2", "节");
  }

  /** A label with a Chinese ordinal line before the range. */
  lemma SectionLabelTwoLines()
    ensures ParseSections("第一大节\n第1-2节") == Some(Sections(1, 2))
  {
    assert "第一大节\n第" + "1" + "-" + "2" + "节" == "第一大节\n第1-2节";
    DigitsValueOfDigit('1');
    DigitsValueOfDigit('2');
    ParseSectionsWrittenOrder("第一大节\n第", "1", "2", "节");
  }

  /** `第3节`, a single period. */
  lemma SectionLabelSingle()
    ensures ParseSections("第3节") == Some(Sections(3, 3))
  {
    assert "第" + "3" + "节" == "第3节";
    DigitsValueOfDigit('3');
    ParseSectionsSingle("第", "3", "节");
  }

  // ---------------------------------------------------------------- preset timetables

  /** Periods 1-4, the same in both presets. */
  function MorningPeriods(): seq<TimeSlot>
  {
    [ TimeSlot(1, Hm(8, 20), Hm(9, 5)), TimeSlot(2, Hm(9, 15), Hm(10, 0)),
      TimeSlot(3, Hm(10, 20), Hm(11, 5)), TimeSlot(4, Hm(11, 15), Hm(12, 0)) ]
  }

  /** Periods 5-8 of the summer preset. */
  function SummerAfternoonPeriods(): seq<TimeSlot>
  {
    [ TimeSlot(5, Hm(14, 0), Hm(14, 45)), TimeSlot(6, Hm(14, 55), Hm(15, 40)),
      TimeSlot(7, Hm(15, 55), Hm(16, 40)), TimeSlot(8, Hm(16, 50), Hm(17, 35)) ]
  }

  /** Periods 5-8 of the winter preset. */
  function WinterAfternoonPeriods(): seq<TimeSlot>
  {
    [ TimeSlot(5, Hm(14, 30), Hm(15, 15)), TimeSlot(6, Hm(15, 25), Hm(16, 10)),
      TimeSlot(7, Hm(16, 25), Hm(17, 10)), TimeSlot(8, Hm(17, 20), Hm(18, 5)) ]
  }

  /** Periods 9-12, the same in both presets. */
  function EveningPeriods(): seq<TimeSlot>
  {
    [ TimeSlot(9, Hm(19, 0), Hm(19, 45)), TimeSlot(10, Hm(19, 55), Hm(20, 40)),
      TimeSlot(11, Hm(20, 45), Hm(21, 30)), TimeSlot(12, Hm(21, 35), Hm(22, 20)) ]
  }

  /** `generateSummerTimeSlots()`: the summer preset the user may pick. */
  function SummerTimeSlots(): seq<TimeSlot>
  {
    MorningPeriods() + SummerAfternoonPeriods() + EveningPeriods()
  }

  /** `generateWinterTimeSlots()`: the winter preset the user may pick. */
  function WinterTimeSlots(): seq<TimeSlot>
  {
    MorningPeriods() + WinterAfternoonPeriods() + EveningPeriods()
  }

  /** Periods 1-4 run in order and the morning ends at noon. */
  lemma MorningPlan()
    ensures PlanFrom(MorningPeriods(), 1)
    ensures Minutes(MorningPeriods()[3].endTime) == 12 * 60
  {
    PlanOfFour(
      TimeSlot(1, Hm(8, 20), Hm(9, 5)), TimeSlot(2, Hm(9, 15), Hm(10, 0)),
      TimeSlot(3, Hm(10, 20), Hm(11, 5)), TimeSlot(4, Hm(11, 15), Hm(12, 0)), 1);
  }

  /** Summer periods 5-8 run in order, from 14:00 to 17:35. */
  lemma SummerAfternoonPlan()
    ensures PlanFrom(SummerAfternoonPeriods(), 5)
    ensures Minutes(SummerAfternoonPeriods()[0].startTime) == 14 * 60
    ensures Minutes(SummerAfternoonPeriods()[3].endTime) == 17 * 60 + 35
  {
    PlanOfFour(
      TimeSlot(5, Hm(14, 0), Hm(14, 45)), TimeSlot(6, Hm(14, 55), Hm(15, 40)),
      TimeSlot(7, Hm(15, 55), Hm(16, 40)), TimeSlot(8, Hm(16, 50), Hm(17, 35)), 5);
  }

  /** Winter periods 5-8 run in order, from 14:30 to 18:05. */
  lemma WinterAfternoonPlan()
    ensures PlanFrom(WinterAfternoonPeriods(), 5)
    ensures Minutes(WinterAfternoonPeriods()[0].startTime) == 14 * 60 + 30
    ensures Minutes(WinterAfternoonPeriods()[3].endTime) == 18 * 60 + 5
  {
    PlanOfFour(
      TimeSlot(5, Hm(14, 30), Hm(15, 15)), TimeSlot(6, Hm(15, 25), Hm(16, 10)),
      TimeSlot(7, Hm(16, 25), Hm(17, 10)), TimeSlot(8, Hm(17, 20), Hm(18, 5)), 5);
  }

  /** Periods 9-12 run in order, from 19:00. */
  lemma EveningPlan()
    ensures PlanFrom(EveningPeriods(), 9)
    ensures Minutes(EveningPeriods()[0].startTime) == 19 * 60
  {
    PlanOfFour(
      TimeSlot(9, Hm(19, 0), Hm(19, 45)), TimeSlot(10, Hm(19, 55), Hm(20, 40)),
      TimeSlot(11, Hm(20, 45), Hm(21, 30)), TimeSlot(12, Hm(21, 35), Hm(22, 20)), 9);
  }

  /** Morning, afternoon and evening runs of four periods each, in order, make a day plan
      of twelve periods. */
  lemma ThreeRunsPlan(morning: seq<TimeSlot>, afternoon: seq<TimeSlot>, evening: seq<TimeSlot>)
    requires |morning| == 4 && |afternoon| == 4 && |evening| == 4
    requires PlanFrom(morning, 1) && PlanFrom(afternoon, 5) && PlanFrom(evening, 9)
    requires Minutes(morning[3].endTime) < Minutes(afternoon[0].startTime)
    requires Minutes(afternoon[3].endTime) < Minutes(evening[0].startTime)
    ensures |morning + afternoon + evening| == 12 && IsDayPlan(morning + afternoon + evening)
  {
    PlanConcat(morning, afternoon, 1);
    PlanConcat(morning + afternoon, evening, 1);
  }

  /** The summer preset is a day plan of twelve periods. */
  lemma SummerTimeSlotsPlan()
    ensures |SummerTimeSlots()| == 12 && IsDayPlan(SummerTimeSlots())
  {
    MorningPlan();
    SummerAfternoonPlan();
    EveningPlan();
    ThreeRunsPlan(MorningPeriods(), SummerAfternoonPeriods(), EveningPeriods());
  }

  /** The winter preset is a day plan of twelve periods. */
  lemma WinterTimeSlotsPlan()
    ensures |WinterTimeSlots()| == 12 && IsDayPlan(WinterTimeSlots())
  {
    MorningPlan();
    WinterAfternoonPlan();
    EveningPlan();
    ThreeRunsPlan(MorningPeriods(), WinterAfternoonPeriods(), EveningPeriods());
  }

  /** The padded clock texts: `08:20` and `14:30`, as the presets write them. */
  lemma ClockTexts()
    ensures Hm(8, 20) == "08:20" && Hm(14, 30) == "14:30"
  {
  }
}
