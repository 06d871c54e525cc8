/** The WakeUp share-code adapter (resources/GLOBAL_TOOLS/wake_up.js): the key check, the split
    of the shared blob into its five JSON parts, the start-date conversion, the period list and
    time-slot filter, and the join of the course catalog with the scheduling details. JSON
    parsing is not modelled: the records arrive already decoded. */
module WakeUp {
  import opened Wrappers
  import opened JsText
  import opened Schedule

  // ---------------------------------------------------------------- the key

  const KeyMessage := "课表分享 Key 不能为空！"

  /** `validateKey(key)`: `None` stands for `null`. */
  function ValidateKey(key: Option<string>): Verdict
  {
    if key.None? || |Trim(key.value)| == 0 then Rejected(KeyMessage) else Accepted
  }

  /** A key is refused exactly when it is missing or only white space; the refusal always
      carries the same message. */
  lemma ValidateKeySpec(key: Option<string>)
    ensures ValidateKey(key).Rejected? <==> key.None? || AllSpace(key.value)
    ensures ValidateKey(key).Rejected? ==> ValidateKey(key).message == KeyMessage
  {
    if key.Some? {
      TrimSpec(key.value);
    }
  }

  // ---------------------------------------------------------------- the blob

  const BlobMessage := "数据格式不完整，预期至少包含 5 个部分。"

  /** The five JSON texts of a share blob, in the order they appear. */
  datatype Parts = Parts(baseConfig: string, timeSlotsRaw: string, uiConfig: string,
                         coursesRaw: string, courseDetailRaw: string)

  /** `parseRawScheduleData(rawData)` up to `JSON.parse`: the trimmed blob split on line feeds;
      an error when there are fewer than five lines. */
  function ParseRawScheduleData(rawData: string): Result<Parts>
  {
    var parts := Split(Trim(rawData), '\n');
    if |parts| < 5 then Err(BlobMessage)
    else Ok(Parts(parts[0], parts[1], parts[2], parts[3], parts[4]))
  }

  /** The blob is accepted exactly when its trimmed text has at least four line feeds, and
      then each part is one whole line. */
  lemma ParseRawScheduleDataSpec(rawData: string)
    ensures ParseRawScheduleData(rawData).Ok? <==> CountChar(Trim(rawData), '\n') >= 4
    ensures ParseRawScheduleData(rawData).Err? ==> ParseRawScheduleData(rawData).message == BlobMessage
    ensures ParseRawScheduleData(rawData).Ok? ==>
      var p := ParseRawScheduleData(rawData).value;
      && '\n' !in p.baseConfig && '\n' !in p.timeSlotsRaw && '\n' !in p.uiConfig
      && '\n' !in p.coursesRaw && '\n' !in p.courseDetailRaw
  {
    SplitCount(Trim(rawData), '\n');
    SplitParts(Trim(rawData), '\n');
  }

  /** Lines joined by line feeds, with no white space around the blob, give their first
      five lines in order; any further lines are ignored. */
  lemma ParseRawScheduleDataLines(lines: seq<string>)
    requires |lines| >= 5
    requires forall k :: 0 <= k < |lines| ==> '\n' !in lines[k]
    requires Trim(Join(lines, '\n')) == Join(lines, '\n')
    ensures ParseRawScheduleData(Join(lines, '\n')) == Ok(Parts(lines[0], lines[1], lines[2], lines[3], lines[4]))
  {
    SplitOfJoin(lines, '\n');
  }

  // ---------------------------------------------------------------- dates

  /** A calendar date as `Date` reports it: `getMonth()` counts from 0. */
  datatype Date = Date(year: int, month: int, date: int)

  predicate ValidDate(d: Date)
  {
    1000 <= d.year <= 9999 && 0 <= d.month < 12 && 1 <= d.date <= 31
  }

  /** `formatDateToYYYYMMDD(dateObj)`: year, month counted from 1 and day, the last two
      padded to two digits, joined by `-`. */
  function FormatDate(d: Date): string
  {
    IntToString(d.year) + "-" + PadStart2(IntToString(d.month + 1)) + "-" + PadStart2(IntToString(d.date))
  }

  /** Text of the shape `YYYY-MM-DD`. */
  predicate IsIsoDate(s: string)
  {
    && |s| == 10 && s[4] == '-' && s[7] == '-'
    && AllDigits(s[..4]) && AllDigits(s[5..7]) && AllDigits(s[8..])
  }

  /** With a four-digit year the formatted date is `YYYY-MM-DD`, and its three fields read
      back as the year, the month counted from 1 and the day. */
  lemma FormatDateSpec(d: Date)
    requires ValidDate(d)
    ensures IsIsoDate(FormatDate(d))
    ensures DigitsValue(FormatDate(d)[..4]) == d.year
    ensures DigitsValue(FormatDate(d)[5..7]) == d.month + 1
    ensures DigitsValue(FormatDate(d)[8..]) == d.date
  {
    var y := IntToString(d.year);
    var m := PadStart2(IntToString(d.month + 1));
    var dd := PadStart2(IntToString(d.date));
    PadStart2Digits(d.month + 1);
    PadStart2Digits(d.date);
    NatDigitsLength(d.year);
    IsoLayout(y, m, dd);
  }

  /** Where the three fields sit in `YYYY-MM-DD`. */
  lemma IsoLayout(y: string, m: string, dd: string)
    requires |y| == 4 && |m| == 2 && |dd| == 2
    requires AllDigits(y) && AllDigits(m) && AllDigits(dd)
    ensures var s := y + "-" + m + "-" + dd;
      && IsIsoDate(s) && s[..4] == y && s[5..7] == m && s[8..] == dd
  {
    var s := y + "-" + m + "-" + dd;
    assert s[..4] == y && s[5..7] == m && s[8..] == dd;
  }

  /** Numbers from 1000 to 9999 have four digits. */
  lemma NatDigitsLength(n: nat)
    requires 1000 <= n <= 9999
    ensures |NatToString(n)| == 4
  {
    assert NatToString(n / 1000) == [DigitChar(n / 1000)];
    assert |NatToString(n / 100)| == 2;
    assert |NatToString(n / 10)| == 3;
  }

  /** The text to parse: `String(rawDate).trim()` with every `/` turned into `-`. */
  function DateText(s: string): string
  {
    ReplaceChar(Trim(s), '/', '-')
  }

  /** `convertToSemesterStartDate(rawDate)`. `rawDate` is the value's text, `None` when the
      value is falsy (`undefined`, `null`, `0`, ...); `parse` stands for `new Date(...)`
      followed by the validity test, `None` for an invalid date. */
  function ConvertToSemesterStartDate(rawDate: Option<string>, parse: string -> Option<Date>): Option<string>
  {
    if rawDate.None? || rawDate.value == [] then None
    else if Trim(rawDate.value) == [] then None
    else
      var d := parse(DateText(rawDate.value));
      if d.None? then None else Some(FormatDate(d.value))
  }

  /** Missing or blank input gives `null`; otherwise the parser receives the trimmed text
      with no `/` left in it, an unparseable date gives `null`, and a parsed one the
      formatted date, which is `YYYY-MM-DD` text when the parser only yields valid dates. */
  lemma ConvertToSemesterStartDateSpec(rawDate: Option<string>, parse: string -> Option<Date>)
    ensures rawDate.None? || AllSpace(rawDate.value) ==> ConvertToSemesterStartDate(rawDate, parse).None?
    ensures rawDate.Some? && !AllSpace(rawDate.value) ==>
      && '/' !in DateText(rawDate.value)
      && (ConvertToSemesterStartDate(rawDate, parse).None? <==> parse(DateText(rawDate.value)).None?)
    ensures rawDate.Some? && !AllSpace(rawDate.value) && parse(DateText(rawDate.value)).Some? ==>
      ConvertToSemesterStartDate(rawDate, parse) == Some(FormatDate(parse(DateText(rawDate.value)).value))
    ensures (forall t :: parse(t).Some? ==> ValidDate(parse(t).value)) ==>
      ConvertToSemesterStartDate(rawDate, parse).Some? ==> IsIsoDate(ConvertToSemesterStartDate(rawDate, parse).value)
  {
    if rawDate.Some? {
      TrimSpec(rawDate.value);
      var t := DateText(rawDate.value);
      assert forall i :: 0 <= i < |t| ==> t[i] != '/';
      var d := parse(t);
      if !AllSpace(rawDate.value) && d.Some? && ValidDate(d.value) {
        FormatDateSpec(d.value);
      }
    }
  }

  /** A start date written with slashes and padded with spaces. */
  lemma ConvertToSemesterStartDateExample()
    ensures ConvertToSemesterStartDate(Some(" 2025/09/01 "),
      t => if t == "2025-09-01" then Some(Date(2025, 8, 1)) else None) == Some("2025-09-01")
  {
    DateTextExample();
    FormatDateExample();
  }

  lemma DateTextExample()
    ensures Trim(" 2025/09/01 ") != [] && DateText(" 2025/09/01 ") == "2025-09-01"
  {
    var s, u, v := " 2025/09/01 ", "2025/09/01 ", "2025/09/01";
    assert s[1..] == u;
    assert TrimStart(u) == u;
    assert TrimStart(s) == u;
    assert u[..|u| - 1] == v;
    assert TrimEnd(v) == v;
    assert TrimEnd(u) == v;
  }

  lemma FormatDateExample()
    ensures FormatDate(Date(2025, 8, 1)) == "2025-09-01"
  {
    assert NatToString(20) == "20";
    assert NatToString(202) == "202";
    assert NatToString(2025) == "2025";
    assert PadStart2(NatToString(9)) == "09";
    assert PadStart2(NatToString(1)) == "01";
  }

  // ---------------------------------------------------------------- periods and time slots

  /** The raw `uiConfig.nodes` value: an array, a number, or anything else. */
  datatype NodesValue = NodeArray(values: seq<int>) | NodeNumber(count: int) | NodeOther

  /** The normalisation of `nodes`: an array is kept, a positive count `n` becomes
      `1, 2, ..., n`, and anything else the empty list. */
  method NormaliseNodes(raw: NodesValue) returns (nodes: seq<int>)
    ensures raw.NodeArray? ==> nodes == raw.values
    ensures raw.NodeNumber? && raw.count > 0 ==>
      |nodes| == raw.count && forall i :: 0 <= i < |nodes| ==> nodes[i] == i + 1
    ensures raw.NodeOther? || (raw.NodeNumber? && raw.count <= 0) ==> nodes == []
  {
    if raw.NodeArray? {
      nodes := raw.values;
    } else if raw.NodeNumber? && raw.count > 0 {
      nodes := seq(raw.count, i => i + 1);
    } else {
      nodes := [];
    }
  }

  /** One entry of the raw time-slot list. */
  datatype RawSlot = RawSlot(node: int, startTime: string, endTime: string)

  /** `array.filter(keep)`. */
  function Filter<T>(s: seq<T>, keep: T -> bool): (r: seq<T>)
    ensures |r| <= |s|
  {
    if s == [] then [] else (if keep(s[0]) then [s[0]] else []) + Filter(s[1..], keep)
  }

  /** `array.map(f)`. */
  function Map<T, U>(s: seq<T>, f: T -> U): (r: seq<U>)
    ensures |r| == |s|
  {
    if s == [] then [] else [f(s[0])] + Map(s[1..], f)
  }

  /** Filtering keeps exactly the elements that pass. */
  lemma {:induction false} FilterMembers<T>(s: seq<T>, keep: T -> bool)
    ensures forall x :: x in Filter(s, keep) <==> x in s && keep(x)
  {
    if s != [] {
      FilterMembers(s[1..], keep);
      assert s == [s[0]] + s[1..];
    }
  }

  /** Filtering a concatenation filters each part in turn: the order is kept. */
  lemma {:induction false} FilterAppend<T>(a: seq<T>, b: seq<T>, keep: T -> bool)
    ensures Filter(a + b, keep) == Filter(a, keep) + Filter(b, keep)
  {
    if a != [] {
      FilterAppend(a[1..], b, keep);
      assert (a + b)[0] == a[0] && (a + b)[1..] == a[1..] + b;
    } else {
      assert a + b == b;
    }
  }

  /** Two filters in a row are one filter with both conditions. */
  lemma {:induction false} FilterFuse<T>(s: seq<T>, p: T -> bool, q: T -> bool, both: T -> bool)
    requires forall x :: both(x) == (p(x) && q(x))
    ensures Filter(Filter(s, p), q) == Filter(s, both)
  {
    if s != [] {
      FilterFuse(s[1..], p, q, both);
      var x, rest := s[0], Filter(s[1..], p);
      if p(x) {
        assert Filter(s, p) == [x] + rest;
        FilterAppend([x], rest, q);
        assert [x][1..] == [];
        assert Filter([x], q) == (if q(x) then [x] else []) + Filter([], q);
        assert both(x) == q(x);
      } else {
        assert Filter(s, p) == rest;
        assert !both(x);
      }
    }
  }

  lemma {:induction false} MapAppend<T, U>(a: seq<T>, b: seq<T>, f: T -> U)
    ensures Map(a + b, f) == Map(a, f) + Map(b, f)
  {
    if a != [] {
      MapAppend(a[1..], b, f);
      assert (a + b)[0] == a[0] && (a + b)[1..] == a[1..] + b;
    } else {
      assert a + b == b;
    }
  }

  lemma {:induction false} MapMembers<T, U>(s: seq<T>, f: T -> U)
    ensures forall i :: 0 <= i < |s| ==> Map(s, f)[i] == f(s[i])
  {
    if s != [] {
      MapMembers(s[1..], f);
    }
  }

  const Midnight := "00:00"

  predicate HasTimes(slot: RawSlot)
  {
    slot.startTime != Midnight && slot.endTime != Midnight
  }

  function AsSlot(slot: RawSlot): TimeSlot
  {
    TimeSlot(slot.node, slot.startTime, slot.endTime)
  }

  /** The time-slot pipeline: drop the slots with a `00:00` time, keep those whose node is a
      valid period, and rename `node` to `number`. */
  function TimeSlotsOf(raw: seq<RawSlot>, nodes: seq<int>): seq<TimeSlot>
  {
    var valid := set n | n in nodes;
    Map(Filter(Filter(raw, HasTimes), (slot: RawSlot) => slot.node in valid), AsSlot)
  }

  /** A slot survives when neither time is `00:00` and its node is one of the periods. */
  predicate Kept(slot: RawSlot, nodes: seq<int>)
  {
    HasTimes(slot) && slot.node in nodes
  }

  /** The pipeline is one filter followed by the renaming. */
  lemma TimeSlotsOfFused(raw: seq<RawSlot>, nodes: seq<int>)
    ensures TimeSlotsOf(raw, nodes) == Map(Filter(raw, (slot: RawSlot) => Kept(slot, nodes)), AsSlot)
  {
    var valid := set n | n in nodes;
    FilterFuse(raw, HasTimes, (slot: RawSlot) => slot.node in valid, (slot: RawSlot) => Kept(slot, nodes));
  }

  /** The slots of a concatenation are the slots of each part in turn: the input order is
      kept. */
  lemma TimeSlotsOfAppend(a: seq<RawSlot>, b: seq<RawSlot>, nodes: seq<int>)
    ensures TimeSlotsOf(a + b, nodes) == TimeSlotsOf(a, nodes) + TimeSlotsOf(b, nodes)
  {
    var keep := (slot: RawSlot) => Kept(slot, nodes);
    TimeSlotsOfFused(a + b, nodes);
    TimeSlotsOfFused(a, nodes);
    TimeSlotsOfFused(b, nodes);
    FilterAppend(a, b, keep);
    MapAppend(Filter(a, keep), Filter(b, keep), AsSlot);
  }

  /** A single raw slot gives its renamed copy when it survives, nothing otherwise. */
  lemma TimeSlotsOfOne(slot: RawSlot, nodes: seq<int>)
    ensures TimeSlotsOf([slot], nodes) == if Kept(slot, nodes) then [AsSlot(slot)] else []
  {
    TimeSlotsOfFused([slot], nodes);
    assert [slot][1..] == [];
  }

  /** Every resulting slot is a surviving raw slot renamed, and there are no more slots than
      raw ones. */
  lemma TimeSlotsOfMembers(raw: seq<RawSlot>, nodes: seq<int>)
    ensures |TimeSlotsOf(raw, nodes)| <= |raw|
    ensures forall t :: t in TimeSlotsOf(raw, nodes) ==>
      t.startTime != Midnight && t.endTime != Midnight && t.number in nodes
  {
    var keep := (slot: RawSlot) => Kept(slot, nodes);
    TimeSlotsOfFused(raw, nodes);
    var kept := Filter(raw, keep);
    FilterMembers(raw, keep);
    MapMembers(kept, AsSlot);
    forall t | t in TimeSlotsOf(raw, nodes)
      ensures t.startTime != Midnight && t.endTime != Midnight && t.number in nodes
    {
      var i :| 0 <= i < |kept| && Map(kept, AsSlot)[i] == t;
      assert kept[i] in kept;
    }
  }

  // ---------------------------------------------------------------- courses

  /** A catalog entry of `coursesRaw`. */
  datatype RawCourse = RawCourse(id: int, courseName: string)

  /** A scheduling entry of `courseDetailRaw`; `id` is `None` when it is `null` or missing,
      and `teacher` and `room` are `None` when missing. */
  datatype RawDetail = RawDetail(
    id: Option<int>, day: int, startNode: int, step: int,
    startWeek: int, endWeek: int, kind: int,
    teacher: Option<string>, room: Option<string>)

  /** The `reduce` that builds `courseMap`: each entry is stored under its id, so a later
      entry with the same id replaces an earlier one. */
  function CatalogMap(catalog: seq<RawCourse>): map<int, RawCourse>
  {
    if catalog == [] then map[]
    else CatalogMap(catalog[..|catalog| - 1])[catalog[|catalog| - 1].id := catalog[|catalog| - 1]]
  }

  /** Every id of the catalog is in the map, only those, and each maps to the last entry with
      that id. */
  lemma {:induction false} CatalogMapSpec(catalog: seq<RawCourse>)
    ensures forall i :: 0 <= i < |catalog| ==> catalog[i].id in CatalogMap(catalog)
    ensures forall k :: k in CatalogMap(catalog) ==>
      exists i :: 0 <= i < |catalog| && catalog[i] == CatalogMap(catalog)[k] && catalog[i].id == k
        && forall j :: i < j < |catalog| ==> catalog[j].id != k
  {
    if catalog != [] {
      var init, last := catalog[..|catalog| - 1], catalog[|catalog| - 1];
      CatalogMapSpec(init);
      var m := CatalogMap(catalog);
      forall i | 0 <= i < |catalog|
        ensures catalog[i].id in m
      {
        if i < |init| {
          assert catalog[i] == init[i];
        }
      }
      forall k | k in m
        ensures exists i :: 0 <= i < |catalog| && catalog[i] == m[k] && catalog[i].id == k
                            && forall j :: i < j < |catalog| ==> catalog[j].id != k
      {
        if k == last.id {
          assert catalog[|catalog| - 1] == m[k];
        } else {
          var i :| 0 <= i < |init| && init[i] == CatalogMap(init)[k] && init[i].id == k
            && forall j :: i < j < |init| ==> init[j].id != k;
          assert catalog[i] == init[i];
          assert forall j :: i < j < |catalog| ==> catalog[j].id != k by {
            forall j | i < j < |catalog|
              ensures catalog[j].id != k
            {
              if j < |init| {
                assert catalog[j] == init[j];
              }
            }
          }
        }
      }
    }
  }

  /** `coursesRaw.reduce((map, course) => { map[course.id] = course; return map; }, {})`. */
  method BuildCourseMap(catalog: seq<RawCourse>) returns (courseMap: map<int, RawCourse>)
    ensures courseMap == CatalogMap(catalog)
  {
    courseMap := map[];
    var k := 0;
    while k < |catalog|
      invariant 0 <= k <= |catalog|
      invariant courseMap == CatalogMap(catalog[..k])
    {
      assert catalog[..k + 1][..k] == catalog[..k];
      courseMap := courseMap[catalog[k].id := catalog[k]];
      k := k + 1;
    }
    assert catalog[..k] == catalog;
  }

  /** Week `w` is taught under the week type: 0 every week, 1 the odd weeks, 2 the even
      weeks, any other type none. The source's `i % 2 !== 0` is nonzero for the same weeks
      under JavaScript's truncating `%` and Dafny's Euclidean one. */
  predicate TaughtIn(kind: int, w: int)
  {
    kind == 0 || (kind == 1 && w % 2 != 0) || (kind == 2 && w % 2 == 0)
  }

  /** The weeks from `lo` to `hi` that the week type selects, in order. */
  function WeekList(lo: int, hi: int, kind: int): seq<int>
    decreases hi - lo
  {
    if hi < lo then [] else WeekList(lo, hi - 1, kind) + (if TaughtIn(kind, hi) then [hi] else [])
  }

  /** The week list is ascending and holds exactly the selected weeks of the range. */
  lemma {:induction false} WeekListSpec(lo: int, hi: int, kind: int)
    decreases hi - lo
    ensures StrictlyAscending(WeekList(lo, hi, kind))
    ensures forall w :: w in WeekList(lo, hi, kind) <==> lo <= w <= hi && TaughtIn(kind, w)
  {
    if hi >= lo {
      WeekListSpec(lo, hi - 1, kind);
      var init := WeekList(lo, hi - 1, kind);
      if TaughtIn(kind, hi) {
        var r := init + [hi];
        forall i, j | 0 <= i < j < |r|
          ensures r[i] < r[j]
        {
          assert r[i] == init[i] && init[i] in init;
          if j < |init| {
            assert r[j] == init[j];
          }
        }
      } else {
        assert WeekList(lo, hi, kind) == init + [];
      }
    }
  }

  /** Every week of the range for type 0; none at all for an unknown type. */
  lemma {:induction false} WeekListKinds(lo: int, hi: int, kind: int)
    decreases hi - lo
    ensures kind == 0 ==> |WeekList(lo, hi, kind)| == if hi < lo then 0 else hi - lo + 1
    ensures kind !in {0, 1, 2} ==> WeekList(lo, hi, kind) == []
  {
    if hi >= lo {
      WeekListKinds(lo, hi - 1, kind);
    }
  }

  /** `for (let i = detail.startWeek; i <= detail.endWeek; i++) if (...) weeks.push(i)`. */
  method ExpandWeeks(lo: int, hi: int, kind: int) returns (weeks: seq<int>)
    ensures weeks == WeekList(lo, hi, kind)
  {
    weeks := [];
    var i := lo;
    while i <= hi
      invariant lo <= i && (i <= hi + 1 || i == lo)
      invariant weeks == WeekList(lo, i - 1, kind)
    {
      if TaughtIn(kind, i) {
        weeks := weeks + [i];
      }
      i := i + 1;
    }
  }

  /** `x || ""` for an optional text. */
  function TextOr(t: Option<string>): string
  {
    if t.Some? then t.value else ""
  }

  /** The course built from a catalog entry and a scheduling entry. */
  function DetailCourse(info: RawCourse, detail: RawDetail): Course
  {
    Course(info.courseName, TextOr(detail.teacher), TextOr(detail.room), detail.day,
           detail.startNode, detail.startNode + detail.step - 1,
           WeekList(detail.startWeek, detail.endWeek, detail.kind))
  }

  /** A scheduling entry has an id that the catalog knows. */
  predicate Joins(courseMap: map<int, RawCourse>, detail: RawDetail)
  {
    detail.id.Some? && detail.id.value in courseMap
  }

  /** What `convertToCourseJsonModel` returns for the details: one course for each entry
      that joins, in their order. */
  function CoursesOf(courseMap: map<int, RawCourse>, details: seq<RawDetail>): seq<Course>
  {
    if details == [] then []
    else
      var d := details[|details| - 1];
      CoursesOf(courseMap, details[..|details| - 1])
        + (if Joins(courseMap, d) then [DetailCourse(courseMap[d.id.value], d)] else [])
  }

  /** The courses of a concatenation are those of each part in turn: the detail order is
      kept. */
  lemma {:induction false} CoursesOfAppend(courseMap: map<int, RawCourse>, a: seq<RawDetail>, b: seq<RawDetail>)
    decreases |b|
    ensures CoursesOf(courseMap, a + b) == CoursesOf(courseMap, a) + CoursesOf(courseMap, b)
  {
    if b == [] {
      assert a + b == a;
    } else {
      var init := b[..|b| - 1];
      CoursesOfAppend(courseMap, a, init);
      assert (a + b)[..|a + b| - 1] == a + init;
    }
  }

  /** One entry gives its course when it joins, and nothing when its id is missing or
      unknown. */
  lemma CoursesOfOne(courseMap: map<int, RawCourse>, d: RawDetail)
    ensures CoursesOf(courseMap, [d]) ==
      if Joins(courseMap, d) then [DetailCourse(courseMap[d.id.value], d)] else []
  {
    assert [d][..0] == [];
  }

  /** No more courses than entries; each has the entry's periods, `endSection` being
      `startNode + step - 1`, and ascending weeks. */
  lemma {:induction false} CoursesOfShape(courseMap: map<int, RawCourse>, details: seq<RawDetail>)
    ensures |CoursesOf(courseMap, details)| <= |details|
    ensures forall c :: c in CoursesOf(courseMap, details) ==> StrictlyAscending(c.weeks)
    ensures forall c :: c in CoursesOf(courseMap, details) ==>
      exists d :: d in details && Joins(courseMap, d) && c == DetailCourse(courseMap[d.id.value], d)
  {
    if details != [] {
      var init, d := details[..|details| - 1], details[|details| - 1];
      CoursesOfShape(courseMap, init);
      WeekListSpec(d.startWeek, d.endWeek, d.kind);
      assert forall x :: x in init ==> x in details;
    }
  }

  /** `courseDetailRaw.forEach(...)`: each entry with a known id gives one course. */
  method CollectCourses(courseMap: map<int, RawCourse>, details: seq<RawDetail>) returns (courses: seq<Course>)
    ensures courses == CoursesOf(courseMap, details)
  {
    courses := [];
    var k := 0;
    while k < |details|
      invariant 0 <= k <= |details|
      invariant courses == CoursesOf(courseMap, details[..k])
    {
      var detail := details[k];
      assert details[..k + 1][..k] == details[..k];
      if detail.id.Some? && detail.id.value in courseMap {
        var info := courseMap[detail.id.value];
        var weeks := ExpandWeeks(detail.startWeek, detail.endWeek, detail.kind);
        var course := Course(info.courseName, TextOr(detail.teacher), TextOr(detail.room), detail.day,
                             detail.startNode, detail.startNode + detail.step - 1, weeks);
        courses := courses + [course];
      }
      k := k + 1;
    }
    assert details[..k] == details;
  }

  /** `convertToCourseJsonModel(parsedData)`: the catalog map, then the walk of the details. */
  method ConvertToCourseJsonModel(catalog: seq<RawCourse>, details: seq<RawDetail>) returns (courses: seq<Course>)
    ensures courses == CoursesOf(CatalogMap(catalog), details)
    ensures |courses| <= |details|
  {
    var courseMap := BuildCourseMap(catalog);
    courses := CollectCourses(courseMap, details);
    CoursesOfShape(courseMap, details);
  }

  /** When the catalog repeats an id, a detail with that id takes the name of the last entry. */
  lemma LastCatalogEntryWins(a: RawCourse, b: RawCourse, d: RawDetail)
    requires a.id == b.id && d.id == Some(a.id)
    ensures CoursesOf(CatalogMap([a, b]), [d]) == [DetailCourse(b, d)]
  {
    assert [a, b][..1] == [a];
    CoursesOfOne(CatalogMap([a, b]), d);
  }
}
