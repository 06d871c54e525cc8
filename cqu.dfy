/** The Chongqing University adapter (resources/CQU/cqu.js): the student id read from the
    user label, the stored access token, and `parseSchedule`, which maps the timetable
    service's JSON records to the app's course configuration, time slots and courses.
    The records arrive already decoded; a field that is `null` or missing is `None`, except
    `periodFormat`, where the source tells the two apart. */
module Cqu {
  import opened Wrappers
  import opened JsText
  import Schedule

  // ---------------------------------------------------------------- login state

  /** `getStudentId()`: the text inside the first `[...]` of the user label
      (`/\[(.*?)\]/`), `None` for `undefined` when the label has no such part. */
  function StudentId(userName: string): Option<string>
  {
    LazyCapture(userName, '[', {']'})
  }

  /** The id holds neither `]` nor a line break, and a label without `[` has none. */
  lemma StudentIdSpec(userName: string)
    ensures StudentId(userName).Some? ==>
      forall c :: c in StudentId(userName).value ==> c != ']' && !IsLineTerminator(c)
    ensures '[' !in userName ==> StudentId(userName).None?
  {
    LazyCaptureChars(userName, '[', {']'});
    var m := LazyMatch(userName, 0, '[', {']'});
    assert m.Some? ==> userName[m.value.0] in userName;
  }

  /** A label `name[id]...` whose name holds no `[` gives the bracketed id. */
  lemma StudentIdOfLabel(name: string, id: string, rest: string)
    requires '[' !in name
    requires forall c :: c in id ==> c != ']' && !IsLineTerminator(c)
    ensures StudentId(name + "[" + id + "]" + rest) == Some(id)
  {
    LazyCaptureAfter(name, '[', id, ']', rest, {']'});
  }

  const Host := "my.cqu.edu.cn"

  /** `checkLogin()`: on the university's host, with a student id in the user label. */
  predicate CheckLogin(hostname: string, userName: string)
  {
    hostname == Host && StudentId(userName).Some?
  }

  /** Logged in on the host, with a label `name[id]`. */
  lemma CheckLoginOfLabel(name: string, id: string, rest: string)
    requires '[' !in name
    requires forall c :: c in id ==> c != ']' && !IsLineTerminator(c)
    ensures CheckLogin(Host, name + "[" + id + "]" + rest)
    ensures forall h :: h != Host ==> !CheckLogin(h, name + "[" + id + "]" + rest)
  {
    StudentIdOfLabel(name, id, rest);
  }

  /** `getAccessToken()`: the stored token with every `"` removed. `None` stands for the
      `TypeError` raised when nothing is stored (`getItem` gives `null`). */
  function AccessToken(stored: Option<string>): Option<string>
  {
    if stored.None? then None else Some(RemoveChar(stored.value, '"'))
  }

  /** A token comes back exactly when one is stored; it holds no `"`, keeps every other
      character, and is empty exactly when the stored text is made of quotes only. */
  lemma AccessTokenSpec(stored: Option<string>)
    ensures AccessToken(stored).Some? <==> stored.Some?
    ensures AccessToken(stored).Some? ==>
      && '"' !in AccessToken(stored).value
      && (forall c :: c in AccessToken(stored).value <==> c in stored.value && c != '"')
      && (AccessToken(stored).value == [] <==> CountChar(stored.value, '"') == |stored.value|)
  {
  }

  /** A token stored as a JSON string, `"t"`, is read back as `t`; reading a token again
      changes nothing. */
  lemma AccessTokenOfJsonString(t: string)
    requires '"' !in t
    ensures AccessToken(Some("\"" + t + "\"")) == Some(t)
    ensures AccessToken(AccessToken(Some(t))) == Some(t)
  {
    var q := "\"";
    RemoveCharAbsent(t, '"');
    assert RemoveChar(q, '"') == [] by {
      assert RemoveChar(q, '"') == [] + RemoveChar(q[1..], '"');
      assert q[1..] == [];
    }
    assert RemoveChar(q + t + q, '"') == t by {
      RemoveCharAppend(q + t, q, '"');
      RemoveCharAppend(q, t, '"');
    }
    assert q + t + q == "\"" + t + "\"";
  }

  // ---------------------------------------------------------------- records

  /** An entry of `classPeriodVOS`. */
  datatype RawSlot = RawSlot(periodOrder: Option<int>, startTime: Option<string>, endTime: Option<string>)

  /** The `periodFormat` field: missing (`undefined`), `null`, or a text. */
  datatype FormatField = Missing | Null | Present(text: string)

  /** An entry of `classTimetableVOList`. */
  datatype RawCourse = RawCourse(
    courseName: Option<string>, instructorName: Option<string>,
    position: Option<string>, roomName: Option<string>,
    weekDay: Option<int>, periodFormat: FormatField, teachingWeek: Option<string>)

  /** A course as `parseSchedule` builds it. The sections come from `Number(...)`, so each
      is `None` when it is `NaN`. */
  datatype Course = Course(
    name: string, teacher: string, position: string, day: int,
    startSection: Option<int>, endSection: Option<int>, weeks: seq<int>)

  datatype CourseConfig = CourseConfig(semesterStartDate: Option<string>, totalWeeks: Option<int>)

  /** What `parseSchedule` returns. */
  datatype Imported = Imported(courseConfig: CourseConfig, timeSlots: seq<Schedule.TimeSlot>, courses: seq<Course>)

  /** `x ?? ''` for an optional text. */
  function OrEmpty(t: Option<string>): string
  {
    if t.Some? then t.value else ""
  }

  // ---------------------------------------------------------------- time slots

  /** The slot at position `index`: `periodOrder ?? index + 1`, the times `?? ''`. */
  function SlotOf(raw: RawSlot, index: nat): Schedule.TimeSlot
  {
    Schedule.TimeSlot(if raw.periodOrder.Some? then raw.periodOrder.value else index + 1,
                      OrEmpty(raw.startTime), OrEmpty(raw.endTime))
  }

  /** `timeSlots.map((timeSlot, index) => ...)`. */
  function TimeSlotsOf(raw: seq<RawSlot>): seq<Schedule.TimeSlot>
  {
    seq(|raw|, i requires 0 <= i < |raw| => SlotOf(raw[i], i))
  }

  /** One slot per raw slot, in order: a given period number is kept and a missing one is
      the slot's position counted from 1; missing times become empty. */
  lemma TimeSlotsOfSpec(raw: seq<RawSlot>)
    ensures |TimeSlotsOf(raw)| == |raw|
    ensures forall i :: 0 <= i < |raw| ==>
      && TimeSlotsOf(raw)[i].number == (if raw[i].periodOrder.Some? then raw[i].periodOrder.value else i + 1)
      && (raw[i].startTime.Some? ==> TimeSlotsOf(raw)[i].startTime == raw[i].startTime.value)
      && (raw[i].startTime.None? ==> TimeSlotsOf(raw)[i].startTime == "")
      && (raw[i].endTime.Some? ==> TimeSlotsOf(raw)[i].endTime == raw[i].endTime.value)
      && (raw[i].endTime.None? ==> TimeSlotsOf(raw)[i].endTime == "")
  {
  }

  /** A raw slot whose two times are clock times, the start before the end. */
  predicate WellTimed(slot: RawSlot)
  {
    && Schedule.IsClockTime(OrEmpty(slot.startTime)) && Schedule.IsClockTime(OrEmpty(slot.endTime))
    && Schedule.Minutes(OrEmpty(slot.startTime)) < Schedule.Minutes(OrEmpty(slot.endTime))
  }

  /** Raw slot `a` ends before raw slot `b` starts. */
  predicate EndsBefore(a: RawSlot, b: RawSlot)
  {
    && Schedule.IsClockTime(OrEmpty(a.endTime)) && Schedule.IsClockTime(OrEmpty(b.startTime))
    && Schedule.Minutes(OrEmpty(a.endTime)) < Schedule.Minutes(OrEmpty(b.startTime))
  }

  /** Slots without period numbers are numbered 1, 2, 3, ... by position, so they form a
      daily timetable exactly when each one is a well-formed interval of the day that ends
      before the next one starts. */
  lemma TimeSlotsNumbered(raw: seq<RawSlot>)
    requires forall i :: 0 <= i < |raw| ==> raw[i].periodOrder.None?
    ensures forall i :: 0 <= i < |raw| ==> TimeSlotsOf(raw)[i].number == i + 1
    ensures Schedule.IsDayPlan(TimeSlotsOf(raw)) <==>
      && (forall i :: 0 <= i < |raw| ==> WellTimed(raw[i]))
      && (forall i :: 0 < i < |raw| ==> EndsBefore(raw[i - 1], raw[i]))
  {
    var t := TimeSlotsOf(raw);
    assert forall i :: 0 <= i < |raw| ==>
      t[i].number == i + 1 && t[i].startTime == OrEmpty(raw[i].startTime) && t[i].endTime == OrEmpty(raw[i].endTime);
  }

  // ---------------------------------------------------------------- course fields

  /** `instructorName?.slice(0, instructorName?.indexOf('-')) ?? ''`. */
  function TeacherName(instructorName: Option<string>): string
  {
    if instructorName.None? then ""
    else SlicePrefix(instructorName.value, IndexOf(instructorName.value, '-'))
  }

  /** The teacher is the text before the first `-`. Without a `-`, `indexOf` gives -1 and
      the slice drops the last character. A missing name gives the empty text. */
  lemma TeacherNameSpec(instructorName: Option<string>)
    ensures instructorName.None? ==> TeacherName(instructorName) == ""
    ensures instructorName.Some? && '-' in instructorName.value ==>
      var n, r := instructorName.value, TeacherName(instructorName);
      && '-' !in r && |r| < |n| && n[..|r| + 1] == r + "-"
    ensures instructorName.Some? && '-' !in instructorName.value ==>
      var n := instructorName.value;
      TeacherName(instructorName) == if n == [] then [] else n[..|n| - 1]
  {
    if instructorName.Some? {
      var n := instructorName.value;
      var i := IndexOf(n, '-');
      if i >= 0 {
        assert TeacherName(instructorName) == n[..i];
        assert n[..i + 1] == n[..i] + [n[i]];
      }
    }
  }

  /** A name with its department after a `-` gives the name. */
  lemma TeacherNameOfLabel(name: string, department: string)
    requires '-' !in name
    ensures TeacherName(Some(name + "-" + department)) == name
  {
    IndexOfFirst(name, department, '-');
    assert (name + "-" + department)[..|name|] == name;
  }

  /** The start and end sections of `periodFormat`. When a `-` stands after the first
      character they are the numbers of the first two `-`-separated parts; otherwise both
      are the number of the whole text. Without a text `?.indexOf` gives `undefined` and
      `?? 0` makes it 0: a missing format gives `Number(undefined)`, `NaN`, and a `null` one
      `Number(null)`, 0. */
  function Periods(periodFormat: FormatField): (Option<int>, Option<int>)
  {
    var hyphen := if periodFormat.Present? then IndexOf(periodFormat.text, '-') else 0;
    if hyphen > 0 then
      var parts := Split(periodFormat.text, '-');
      assert |parts| >= 2;
      (NumberOf(parts[0]), NumberOf(parts[1]))
    else
      match periodFormat
      case Missing => (None, None)
      case Null => (Some(0), Some(0))
      case Present(t) => (NumberOf(t), NumberOf(t))
  }

  /** The first two parts of `a-b-...` are `a` and `b`. */
  lemma SplitRange(a: string, b: string, rest: string)
    requires '-' !in a && '-' !in b
    requires rest == [] || rest[0] == '-'
    ensures var parts := Split(a + "-" + b + rest, '-');
      |parts| >= 2 && parts[0] == a && parts[1] == b
  {
    assert a + "-" + b + rest == a + ['-'] + (b + rest);
    SplitFirst(a, b + rest, '-');
    SplitHead(b, rest);
  }

  /** The first part of `b-...` is `b`. */
  lemma SplitHead(b: string, rest: string)
    requires '-' !in b
    requires rest == [] || rest[0] == '-'
    ensures Split(b + rest, '-')[0] == b
  {
    if rest == [] {
      assert b + rest == b;
      SplitWithoutSeparator(b, '-');
    } else {
      assert b + rest == b + ['-'] + rest[1..];
      SplitFirst(b, rest[1..], '-');
    }
  }

  /** `a-b` gives the numbers of `a` and `b`, whatever follows `b` after a further `-`. */
  lemma PeriodsOfRange(a: string, b: string, rest: string)
    requires a != [] && '-' !in a && '-' !in b
    requires rest == [] || rest[0] == '-'
    ensures Periods(Present(a + "-" + b + rest)) == (NumberOf(a), NumberOf(b))
  {
    var s := a + "-" + b + rest;
    assert s == a + ['-'] + (b + rest);
    IndexOfFirst(a, b + rest, '-');
    SplitRange(a, b, rest);
  }

  /** `3-4` gives sections 3 and 4. */
  lemma PeriodsOfDigits(a: string, b: string)
    requires a != [] && b != [] && AllDigits(a) && AllDigits(b)
    ensures Periods(Present(a + "-" + b)) == (Some(DigitsValue(a) as int), Some(DigitsValue(b) as int))
  {
    assert a + "-" + b == a + "-" + b + [];
    PeriodsOfRange(a, b, []);
    NumberOfDigits(a);
    NumberOfDigits(b);
  }

  /** `Number` of a digit string is its value. */
  lemma NumberOfDigits(d: string)
    requires d != [] && AllDigits(d)
    ensures NumberOf(d) == Some(DigitsValue(d) as int)
  {
    assert !IsSpace(d[0]) && !IsSpace(d[|d| - 1]);
    TrimIdentity(d);
  }

  /** Without a `-` after the first character both sections are the number of the text; a
      missing format gives `NaN` for both, and a `null` one 0 for both. */
  lemma PeriodsSingle(periodFormat: FormatField)
    requires periodFormat.Present? ==>
      forall i :: 0 < i < |periodFormat.text| ==> periodFormat.text[i] != '-'
    ensures periodFormat.Missing? ==> Periods(periodFormat) == (None, None)
    ensures periodFormat.Null? ==> Periods(periodFormat) == (Some(0), Some(0))
    ensures periodFormat.Present? ==>
      Periods(periodFormat) == (NumberOf(periodFormat.text), NumberOf(periodFormat.text))
  {
  }

  /** A leading `-` is not a range: `-3` is section -3 at both ends. */
  lemma PeriodsNegative()
    ensures Periods(Present("-3")) == (Some(-3), Some(-3))
  {
    PeriodsSingle(Present("-3"));
    assert Trim("-3") == "-3" by {
      TrimIdentity("-3");
    }
    DigitsValueOfDigit('3');
  }

  /** The weeks of `teachingWeek`, from position `k` on: the 1-based positions of the `1`s. */
  function OnesFrom(s: string, k: nat): seq<int>
    requires k <= |s|
    decreases |s| - k
  {
    if k == |s| then [] else (if s[k] == '1' then [k + 1] else []) + OnesFrom(s, k + 1)
  }

  /** `(teachingWeek ?? '').split('').map(...).filter(week => week !== null)`. */
  function TeachingWeeks(teachingWeek: Option<string>): seq<int>
  {
    OnesFrom(OrEmpty(teachingWeek), 0)
  }

  /** The positions found from `k` on are ascending and are exactly the positions after `k`
      that hold a `1`; there is one per `1`. */
  lemma {:induction false} OnesFromSpec(s: string, k: nat)
    requires k <= |s|
    decreases |s| - k
    ensures Schedule.StrictlyAscending(OnesFrom(s, k))
    ensures forall w :: w in OnesFrom(s, k) <==> k < w <= |s| && s[w - 1] == '1'
    ensures |OnesFrom(s, k)| == CountChar(s[k..], '1')
  {
    if k < |s| {
      OnesFromSpec(s, k + 1);
      var rest := OnesFrom(s, k + 1);
      assert s[k..][0] == s[k] && s[k..][1..] == s[k + 1..];
      if s[k] == '1' {
        var r := [k + 1] + rest;
        forall i, j | 0 <= i < j < |r|
          ensures r[i] < r[j]
        {
          assert r[j] == rest[j - 1] && rest[j - 1] in rest;
          if i > 0 {
            assert r[i] == rest[i - 1];
          }
        }
      } else {
        assert OnesFrom(s, k) == [] + rest;
      }
    }
  }

  /** The week list is ascending, holds week `w` exactly when character `w` of the bitmask
      (counting from 1) is `1`, and has one week per `1`; a missing bitmask gives no weeks. */
  lemma TeachingWeeksSpec(teachingWeek: Option<string>)
    ensures teachingWeek.None? ==> TeachingWeeks(teachingWeek) == []
    ensures Schedule.StrictlyAscending(TeachingWeeks(teachingWeek))
    ensures teachingWeek.Some? ==>
      var s := teachingWeek.value;
      && (forall w :: w in TeachingWeeks(teachingWeek) <==> 1 <= w <= |s| && s[w - 1] == '1')
      && |TeachingWeeks(teachingWeek)| == CountChar(s, '1')
  {
    var s := OrEmpty(teachingWeek);
    OnesFromSpec(s, 0);
    assert s[0..] == s;
  }

  /** `0110` is taught in weeks 2 and 3. */
  lemma TeachingWeeksExample()
    ensures TeachingWeeks(Some("0110")) == [2, 3]
  {
    var s := "0110";
    assert OnesFrom(s, 3) == [] + OnesFrom(s, 4);
    assert OnesFrom(s, 2) == [3] + OnesFrom(s, 3);
    assert OnesFrom(s, 1) == [2] + OnesFrom(s, 2);
  }

  /** `position ?? roomName ?? ''`. */
  function PositionOf(c: RawCourse): string
  {
    if c.position.Some? then c.position.value else OrEmpty(c.roomName)
  }

  /** The course built from one timetable entry. */
  function CourseOf(c: RawCourse): Course
  {
    var (start, end) := Periods(c.periodFormat);
    Course(OrEmpty(c.courseName), TeacherName(c.instructorName), PositionOf(c),
           if c.weekDay.Some? then c.weekDay.value else 0,
           start, end, TeachingWeeks(c.teachingWeek))
  }

  /** The fields of a course: the name `?? ''`, the day `?? 0`, the position falling back to
      the room and then to the empty text (an empty position is kept, since `??` only skips
      `null`), and weeks that are ascending and within the bitmask. */
  lemma CourseOfSpec(c: RawCourse)
    ensures CourseOf(c).name == (if c.courseName.Some? then c.courseName.value else "")
    ensures CourseOf(c).day == (if c.weekDay.Some? then c.weekDay.value else 0)
    ensures c.position.Some? ==> CourseOf(c).position == c.position.value
    ensures c.position.None? && c.roomName.Some? ==> CourseOf(c).position == c.roomName.value
    ensures c.position.None? && c.roomName.None? ==> CourseOf(c).position == ""
    ensures (CourseOf(c).startSection, CourseOf(c).endSection) == Periods(c.periodFormat)
    ensures Schedule.StrictlyAscending(CourseOf(c).weeks)
    ensures forall w :: w in CourseOf(c).weeks ==> 1 <= w <= |OrEmpty(c.teachingWeek)|
  {
    TeachingWeeksSpec(c.teachingWeek);
  }

  // ---------------------------------------------------------------- parseSchedule

  /** `schedule.map((course) => ...)`. */
  function CoursesOf(schedule: seq<RawCourse>): seq<Course>
  {
    seq(|schedule|, i requires 0 <= i < |schedule| => CourseOf(schedule[i]))
  }

  /** `parseSchedule(startDate, maxWeek, timeSlots, schedule)`. */
  function ParseSchedule(startDate: Option<string>, maxWeek: Option<int>,
                         timeSlots: seq<RawSlot>, schedule: seq<RawCourse>): Imported
  {
    Imported(CourseConfig(startDate, maxWeek), TimeSlotsOf(timeSlots), CoursesOf(schedule))
  }

  /** The configuration passes the start date and the week count through unchanged; there
      is one slot per raw slot and one course per timetable entry, each in its input
      position, and every course's weeks are ascending and within its bitmask. */
  lemma ParseScheduleSpec(startDate: Option<string>, maxWeek: Option<int>,
                          timeSlots: seq<RawSlot>, schedule: seq<RawCourse>)
    ensures var r := ParseSchedule(startDate, maxWeek, timeSlots, schedule);
      && r.courseConfig.semesterStartDate == startDate && r.courseConfig.totalWeeks == maxWeek
      && |r.timeSlots| == |timeSlots| && |r.courses| == |schedule|
      && (forall i :: 0 <= i < |timeSlots| ==> r.timeSlots[i] == SlotOf(timeSlots[i], i))
      && (forall i :: 0 <= i < |schedule| ==> r.courses[i] == CourseOf(schedule[i]))
      && (forall i :: 0 <= i < |schedule| ==>
            && Schedule.StrictlyAscending(r.courses[i].weeks)
            && forall w :: w in r.courses[i].weeks ==> 1 <= w <= |OrEmpty(schedule[i].teachingWeek)|)
  {
    forall i | 0 <= i < |schedule|
      ensures Schedule.StrictlyAscending(CourseOf(schedule[i]).weeks)
      ensures forall w :: w in CourseOf(schedule[i]).weeks ==> 1 <= w <= |OrEmpty(schedule[i].teachingWeek)|
    {
      CourseOfSpec(schedule[i]);
    }
  }

  /** An entry with every field present, a `start-end` format and a bitmask. */
  lemma CourseOfExample()
    ensures CourseOf(RawCourse(Some("高等数学"), Some("张三-数学学院"), None, Some("D1144"), Some(1), Present("1-2"), Some("0110")))
      == Course("高等数学", "张三", "D1144", 1, Some(1), Some(2), [2, 3])
  {
    TeacherNameExample();
    PeriodsExample();
    TeachingWeeksExample();
  }

  /** `张三-数学学院` is taught by `张三`. */
  lemma TeacherNameExample()
    ensures TeacherName(Some("张三-数学学院")) == "张三"
  {
    TeacherNameOfLabel("张三", "数学学院");
    assert "张三" + "-" + "数学学院" == "张三-数学学院";
  }

  /** `1-2` is sections 1 to 2. */
  lemma PeriodsExample()
    ensures Periods(Present("1-2")) == (Some(1), Some(2))
  {
    DigitsValueOfDigit('1');
    DigitsValueOfDigit('2');
    PeriodsOfDigits("1", "2");
    assert "1" + "-" + "2" == "1-2";
  }

  /** The configuration, one slot without a period number and one course. */
  lemma ParseScheduleExample()
    ensures ParseSchedule(Some("2025-09-01"), Some(18), [RawSlot(None, Some("08:30"), Some("09:15"))],
      [RawCourse(Some("高等数学"), Some("张三-数学学院"), None, Some("D1144"), Some(1), Present("1-2"), Some("0110"))])
      == Imported(CourseConfig(Some("2025-09-01"), Some(18)),
                  [Schedule.TimeSlot(1, "08:30", "09:15")],
                  [Course("高等数学", "张三", "D1144", 1, Some(1), Some(2), [2, 3])])
  {
    CourseOfExample();
    ParseScheduleOfOne(Some("2025-09-01"), Some(18), RawSlot(None, Some("08:30"), Some("09:15")),
      RawCourse(Some("高等数学"), Some("张三-数学学院"), None, Some("D1144"), Some(1), Present("1-2"), Some("0110")));
  }

  /** One raw slot and one entry give their slot and their course. */
  lemma ParseScheduleOfOne(startDate: Option<string>, maxWeek: Option<int>, slot: RawSlot, entry: RawCourse)
    ensures ParseSchedule(startDate, maxWeek, [slot], [entry])
      == Imported(CourseConfig(startDate, maxWeek), [SlotOf(slot, 0)], [CourseOf(entry)])
  {
    assert TimeSlotsOf([slot]) == [SlotOf(slot, 0)];
    assert CoursesOf([entry]) == [CourseOf(entry)];
  }

}
