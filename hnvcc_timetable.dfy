/** The table walk of the HNVCC adapter (`parseTimetable` in resources/HNVCC/HNVCC_01.js)
    over an abstract document: a table of rows, each row a list of cells, each cell a list of
    item boxes, and each box the ordered list of its child elements. */
module HnvccTimetable {
  import opened Wrappers
  import opened JsText
  import opened Schedule
  import opened HnvccFields

  // ---------------------------------------------------------------- the document

  /** One child element of an item box, with what the walk asks of it. */
  datatype Element = Element(
    tag: string,                // `tagName`, upper case as the DOM reports it
    text: string,               // `innerText`
    tchName: bool,              // its class list holds `tch-name`
    hasIcon: bool,              // it holds an `img` whose `src` contains `item1.png`
    firstSpan: Option<string>,  // the text of its first `span:nth-child(1)`, if any
    spans: seq<string>)         // the texts of the `span`s inside it, in document order

  /** A `.item-box`: its direct children in order. */
  datatype ItemBox = ItemBox(children: seq<Element>)

  /** A `td`: its text, whether it carries `colspan="7"`, and its item boxes in order. */
  datatype Cell = Cell(text: string, colspanSeven: bool, boxes: seq<ItemBox>)

  /** A `tbody > tr`. */
  datatype Row = Row(cells: seq<Cell>)

  /** The parsed page: the rows of `#timetable` when the page has that table, and the
      `innerHTML` of `#li_showWeek` when the page has that element. */
  datatype Document = Document(timetable: Option<seq<Row>>, showWeek: Option<string>)

  datatype Config = Config(semesterTotalWeeks: int, firstDayOfWeek: int)

  /** What `parseTimetable` returns when the page has a timetable. */
  datatype Timetable = Timetable(courses: seq<Course>, config: Config)

  // ---------------------------------------------------------------- total weeks

  /** `/\/(\d+)周/` matches at `k`: a slash, a run of digits, then `周`. */
  predicate WeekTotalAt(s: string, k: nat)
  {
    && k + 1 < |s| && s[k] == '/' && IsDigit(s[k + 1])
    && var e := DigitRunEnd(s, k + 1);
    && e < |s| && s[e] == '周'
  }

  /** The leftmost match of the total-weeks pattern at or after `from`. */
  function FindWeekTotal(s: string, from: nat): (r: Option<nat>)
    requires from <= |s|
    decreases |s| - from
    ensures r.Some? ==> from <= r.value && WeekTotalAt(s, r.value)
    ensures r.Some? ==> forall k :: from <= k < r.value ==> !WeekTotalAt(s, k)
    ensures r.None? ==> forall k :: from <= k < |s| ==> !WeekTotalAt(s, k)
  {
    if from == |s| then None
    else if WeekTotalAt(s, from) then Some(from)
    else FindWeekTotal(s, from + 1)
  }

  const DefaultTotalWeeks := 20

  /** The semester length read from the week indicator's markup: the number of the first
      `/N周`, or 20 when there is none. */
  function TotalWeeksOf(html: string): (n: int)
    ensures FindWeekTotal(html, 0).None? ==> n == DefaultTotalWeeks
    ensures n >= 0
  {
    match FindWeekTotal(html, 0)
    case None => DefaultTotalWeeks
    case Some(k) => RunValue(html, k + 1, DigitRunEnd(html, k + 1))
  }

  /** The markup searched for the total: empty when the page has no `#li_showWeek`. */
  function ShowWeekHtml(doc: Document): string
  {
    if doc.showWeek.Some? then doc.showWeek.value else ""
  }

  /** A page whose indicator reads `第1周/18周` has eighteen weeks. */
  lemma TotalWeeksExample()
    ensures TotalWeeksOf("第1周/18周") == 18
  {
    var s := "第1周/18周";
    assert !WeekTotalAt(s, 0) && !WeekTotalAt(s, 1) && !WeekTotalAt(s, 2);
    assert DigitRunEnd(s, 4) == 6;
    assert WeekTotalAt(s, 3);
    assert FindWeekTotal(s, 0) == Some(3);
  }

  /** Without a total in the markup the semester has twenty weeks. */
  lemma TotalWeeksDefault(html: string)
    requires '/' !in html
    ensures TotalWeeksOf(html) == 20
  {
    assert forall k :: 0 <= k < |html| ==> !WeekTotalAt(html, k) by {
      forall k | 0 <= k < |html| ensures html[k] != '/' {
        assert html[k] in html;
      }
    }
  }

  // ---------------------------------------------------------------- the sibling searches

  /** Where the search for the teacher element, starting at sibling `k`, stops: the first
      element from `k` on whose class list holds `tch-name`. */
  function TchNameFrom(children: seq<Element>, k: nat): (r: Option<nat>)
    requires k <= |children|
    decreases |children| - k
    ensures r.Some? ==> k <= r.value < |children|
  {
    if k == |children| then None
    else if children[k].tchName then Some(k)
    else TchNameFrom(children, k + 1)
  }

  /** The search finds the first teacher element from `k` on, and fails only when there is
      none. */
  lemma {:induction false} TchNameFromSpec(children: seq<Element>, k: nat)
    requires k <= |children|
    decreases |children| - k
    ensures var r := TchNameFrom(children, k);
      && (r.Some? ==> children[r.value].tchName && forall j :: k <= j < r.value ==> !children[j].tchName)
      && (r.None? ==> forall j :: k <= j < |children| ==> !children[j].tchName)
  {
    if k < |children| && !children[k].tchName {
      TchNameFromSpec(children, k + 1);
    }
  }

  /** The element that holds the location and the weeks: a `DIV` with the location icon. */
  predicate IsInfo(e: Element)
  {
    e.tag == "DIV" && e.hasIcon
  }

  /** No course-name `P` stands at positions `k..j`. */
  predicate NoNameBetween(children: seq<Element>, k: nat, j: nat)
    requires k <= j <= |children|
  {
    forall m :: k <= m < j ==> children[m].tag != "P"
  }

  /** Where the search for the location element, starting at sibling `k`, stops: the first
      `DIV` with the icon, unless a `P` comes first. */
  function InfoFrom(children: seq<Element>, k: nat): (r: Option<nat>)
    requires k <= |children|
    decreases |children| - k
    ensures r.Some? ==> k <= r.value < |children|
  {
    if k == |children| then None
    else if IsInfo(children[k]) then Some(k)
    else if children[k].tag == "P" then None
    else InfoFrom(children, k + 1)
  }

  /** The search finds the first location element from `k` on when no name element comes
      before it, and fails exactly when every location element has a name element before it. */
  lemma {:induction false} InfoFromSpec(children: seq<Element>, k: nat)
    requires k <= |children|
    decreases |children| - k
    ensures var r := InfoFrom(children, k);
      && (r.Some? ==> IsInfo(children[r.value]) && NoNameBetween(children, k, r.value))
      && (r.Some? ==> forall j :: k <= j < r.value ==> !IsInfo(children[j]))
      && (r.None? ==> forall j :: k <= j < |children| && IsInfo(children[j]) ==> !NoNameBetween(children, k, j))
  {
    if k < |children| && !IsInfo(children[k]) {
      if children[k].tag == "P" {
        forall j | k < j < |children|
          ensures !NoNameBetween(children, k, j)
        {
          assert children[k].tag == "P";
        }
      } else {
        InfoFromSpec(children, k + 1);
        var r := InfoFrom(children, k);
        if r.Some? {
          assert NoNameBetween(children, k + 1, r.value);
        } else {
          forall j | k < j < |children| && IsInfo(children[j])
            ensures !NoNameBetween(children, k, j)
          {
            assert !NoNameBetween(children, k + 1, j);
          }
        }
      }
    }
  }

  /** `let t = nameP.nextElementSibling; while (t && !t.classList.contains('tch-name')) ...`:
      the siblings after the name are scanned one by one. */
  method FindTchName(children: seq<Element>, i: nat) returns (t: Option<nat>)
    requires i < |children|
    ensures t == TchNameFrom(children, i + 1)
  {
    var k := i + 1;
    while k < |children| && !children[k].tchName
      invariant i + 1 <= k <= |children|
      invariant TchNameFrom(children, k) == TchNameFrom(children, i + 1)
    {
      k := k + 1;
    }
    t := if k < |children| then Some(k) else None;
  }

  /** The scan for the location `DIV` after the teacher element, which gives up at the next
      `P`. */
  method FindInfo(children: seq<Element>, t: nat) returns (f: Option<nat>)
    requires t < |children|
    ensures f == InfoFrom(children, t + 1)
  {
    var k := t + 1;
    f := None;
    while k < |children|
      invariant t + 1 <= k <= |children|
      invariant InfoFrom(children, k) == InfoFrom(children, t + 1)
    {
      if IsInfo(children[k]) {
        f := Some(k);
        return;
      }
      if children[k].tag == "P" {
        return;
      }
      k := k + 1;
    }
  }

  // ---------------------------------------------------------------- one course entry

  const TeacherLabel := "教师："

  /** The teacher: the first span's text without its `教师：` label, trimmed; empty without
      such a span. */
  function TeacherOf(e: Element): string
  {
    if e.firstSpan.Some? then Trim(ReplaceFirst(e.firstSpan.value, TeacherLabel, "")) else ""
  }

  /** The location: the first span's text, trimmed; empty without spans. */
  function PositionOf(e: Element): string
  {
    if |e.spans| >= 1 then Trim(e.spans[0]) else ""
  }

  /** The week text: the second span's text, trimmed; empty with fewer than two spans. */
  function WeekTextOf(e: Element): string
  {
    if |e.spans| >= 2 then Trim(e.spans[1]) else ""
  }

  /** The course the name element at `i` stands for, or `None` when the entry is skipped:
      an empty name, no teacher element after it, no location element before the next name,
      or no weeks. */
  function ItemCourse(children: seq<Element>, i: nat, day: int, sections: Sections): (r: Option<Course>)
    requires i < |children|
    ensures r.Some? && 1 <= day <= 7 ==> Emitted(r.value, sections)
  {
    var name := Trim(children[i].text);
    var t := TchNameFrom(children, i + 1);
    if name == [] || t.None? then None
    else
      var f := InfoFrom(children, t.value + 1);
      if f.None? then None
      else EntryCourse(name, TeacherOf(children[t.value]), children[f.value], day, sections)
  }

  /** The course of an entry whose name, teacher and location element were found: `None`
      when its week text names no week. */
  function EntryCourse(name: string, teacher: string, info: Element, day: int, sections: Sections): (r: Option<Course>)
    ensures r.Some? && name != [] && 1 <= day <= 7 ==> Emitted(r.value, sections)
  {
    var weeks := WeeksOf(WeekTextOf(info));
    WeeksOfSpec(WeekTextOf(info));
    if weeks == [] then None
    else Some(Course(name, teacher, PositionOf(info), day, sections.start, sections.end, weeks))
  }

  function Emit(c: Option<Course>): seq<Course>
  {
    if c.Some? then [c.value] else []
  }

  /** An entry yields a course exactly when its name is not empty, a teacher element follows
      it, a location element follows that before the next name, and the week text names at
      least one week. */
  lemma ItemCourseSkips(children: seq<Element>, i: nat, day: int, sections: Sections)
    requires i < |children|
    ensures ItemCourse(children, i, day, sections).Some? <==>
      && Trim(children[i].text) != []
      && TchNameFrom(children, i + 1).Some?
      && InfoFrom(children, TchNameFrom(children, i + 1).value + 1).Some?
      && WeeksOf(WeekTextOf(children[InfoFrom(children, TchNameFrom(children, i + 1).value + 1).value])) != []
  {
  }

  /** What every emitted course satisfies: a weekday from 1 to 7, a name, and an ascending,
      non-empty list of weeks. */
  predicate WellFormed(c: Course)
  {
    1 <= c.day <= 7 && c.name != [] && c.weeks != [] && StrictlyAscending(c.weeks)
  }

  /** A well-formed course that occupies the given periods. */
  predicate Emitted(c: Course, sections: Sections)
  {
    WellFormed(c) && c.startSection == sections.start && c.endSection == sections.end
  }

  /** Every course of `cs` is well formed and occupies the given periods. */
  predicate AllEmitted(cs: seq<Course>, sections: Sections)
  {
    forall c :: c in cs ==> Emitted(c, sections)
  }

  predicate AllWellFormed(cs: seq<Course>)
  {
    forall c :: c in cs ==> WellFormed(c)
  }

  lemma AllWellFormedConcat(a: seq<Course>, b: seq<Course>)
    requires AllWellFormed(a) && AllWellFormed(b)
    ensures AllWellFormed(a + b)
  {
  }

  lemma AllEmittedWellFormed(cs: seq<Course>, sections: Sections)
    requires AllEmitted(cs, sections)
    ensures AllWellFormed(cs)
  {
  }

  lemma AllEmittedConcat(a: seq<Course>, b: seq<Course>, sections: Sections)
    requires AllEmitted(a, sections) && AllEmitted(b, sections)
    ensures AllEmitted(a + b, sections)
  {
  }

  /** The entry that `CollectItem` reads: the name, the teacher, the location and the weeks,
      each found by its own search. */
  method CollectItem(courses: seq<Course>, children: seq<Element>, i: nat, day: int, sections: Sections)
    returns (out: seq<Course>)
    requires i < |children|
    ensures out == courses + Emit(ItemCourse(children, i, day, sections))
  {
    out := courses;
    var name := Trim(children[i].text);
    if name == [] {
      return;
    }
    var t := FindTchName(children, i);
    if t.None? {
      return;
    }
    var teacher := TeacherOf(children[t.value]);
    var f := FindInfo(children, t.value);
    if f.None? {
      return;
    }
    out := CollectEntry(courses, name, teacher, children[f.value], day, sections);
  }

  /** The tail of one entry: the location and the weeks from the location element, and the
      push when the weeks are not empty. */
  method CollectEntry(courses: seq<Course>, name: string, teacher: string, info: Element, day: int, sections: Sections)
    returns (out: seq<Course>)
    ensures out == courses + Emit(EntryCourse(name, teacher, info, day, sections))
  {
    out := courses;
    var position := PositionOf(info);
    var weeks := ParseWeeks(WeekTextOf(info));
    if |weeks| > 0 {
      out := courses + [Course(name, teacher, position, day, sections.start, sections.end, weeks)];
    }
  }

  // ---------------------------------------------------------------- boxes, cells, rows

  /** The courses of the name elements (`:scope > p`) among the first `k` children of a box. */
  function BoxCourses(children: seq<Element>, k: nat, day: int, sections: Sections): seq<Course>
    requires k <= |children|
  {
    if k == 0 then []
    else BoxCourses(children, k - 1, day, sections)
         + (if children[k - 1].tag == "P" then Emit(ItemCourse(children, k - 1, day, sections)) else [])
  }

  /** The courses of the first `k` item boxes of a cell. */
  function BoxesCourses(boxes: seq<ItemBox>, k: nat, day: int, sections: Sections): seq<Course>
    requires k <= |boxes|
  {
    if k == 0 then []
    else BoxesCourses(boxes, k - 1, day, sections)
         + BoxCourses(boxes[k - 1].children, |boxes[k - 1].children|, day, sections)
  }

  /** The courses of the day cells for weekdays `1..d`; a weekday without a cell has none. */
  function DaysCourses(cells: seq<Cell>, d: nat, sections: Sections): seq<Course>
  {
    if d == 0 then [] else DaysCourses(cells, d - 1, sections) + DayCourses(cells, d, sections)
  }

  /** The courses of the cell of weekday `d` (`allCells[day]`); none when the row is shorter. */
  function DayCourses(cells: seq<Cell>, d: nat, sections: Sections): seq<Course>
  {
    if d < |cells| then BoxesCourses(cells[d].boxes, |cells[d].boxes|, d, sections) else []
  }

  predicate HasColspanSeven(cells: seq<Cell>)
  {
    exists k :: 0 <= k < |cells| && cells[k].colspanSeven
  }

  /** Whether a row holds courses at all: two cells or more, none spanning the whole week,
      and a period label that parses. */
  function RowSections(row: Row): Option<Sections>
  {
    if |row.cells| < 2 || HasColspanSeven(row.cells) then None
    else ParseSections(Trim(row.cells[0].text))
  }

  /** The courses of one row: those of its seven day cells, when the row has periods. */
  function RowCourses(row: Row): seq<Course>
  {
    var sections := RowSections(row);
    if sections.None? then [] else DaysCourses(row.cells, 7, sections.value)
  }

  /** The courses of the first `n` rows. */
  function RowsCourses(rows: seq<Row>, n: nat): seq<Course>
    requires n <= |rows|
  {
    if n == 0 then [] else RowsCourses(rows, n - 1) + RowCourses(rows[n - 1])
  }

  /** What `parseTimetable` computes: nothing without a `#timetable`, otherwise the courses
      of every row and the configuration. */
  function TimetableOf(doc: Document): Option<Timetable>
  {
    if doc.timetable.None? then None
    else
      var rows := doc.timetable.value;
      Some(Timetable(RowsCourses(rows, |rows|), Config(TotalWeeksOf(ShowWeekHtml(doc)), 1)))
  }

  /** Rows with fewer than two cells, rows with a cell spanning seven columns and rows whose
      label gives no periods contribute nothing. */
  lemma SkippedRows(row: Row)
    requires |row.cells| < 2 || HasColspanSeven(row.cells) || ParseSections(Trim(row.cells[0].text)).None?
    ensures RowCourses(row) == []
  {
  }

  lemma {:induction false} BoxCoursesEmitted(children: seq<Element>, k: nat, day: int, sections: Sections)
    requires k <= |children| && 1 <= day <= 7
    ensures AllEmitted(BoxCourses(children, k, day, sections), sections)
  {
    if k > 0 {
      BoxCoursesEmitted(children, k - 1, day, sections);
      if children[k - 1].tag == "P" {
        var item := Emit(ItemCourse(children, k - 1, day, sections));
        AllEmittedConcat(BoxCourses(children, k - 1, day, sections), item, sections);
        assert BoxCourses(children, k, day, sections) == BoxCourses(children, k - 1, day, sections) + item;
      } else {
        assert BoxCourses(children, k, day, sections) == BoxCourses(children, k - 1, day, sections) + [];
      }
    }
  }

  lemma {:induction false} BoxesCoursesEmitted(boxes: seq<ItemBox>, k: nat, day: int, sections: Sections)
    requires k <= |boxes| && 1 <= day <= 7
    ensures AllEmitted(BoxesCourses(boxes, k, day, sections), sections)
  {
    if k > 0 {
      BoxesCoursesEmitted(boxes, k - 1, day, sections);
      var box := boxes[k - 1].children;
      BoxCoursesEmitted(box, |box|, day, sections);
      AllEmittedConcat(BoxesCourses(boxes, k - 1, day, sections), BoxCourses(box, |box|, day, sections), sections);
    }
  }

  lemma {:induction false} DaysCoursesEmitted(cells: seq<Cell>, d: nat, sections: Sections)
    requires d <= 7
    ensures AllEmitted(DaysCourses(cells, d, sections), sections)
  {
    if d > 0 {
      DaysCoursesEmitted(cells, d - 1, sections);
      if d < |cells| {
        BoxesCoursesEmitted(cells[d].boxes, |cells[d].boxes|, d, sections);
      }
      AllEmittedConcat(DaysCourses(cells, d - 1, sections), DayCourses(cells, d, sections), sections);
    }
  }

  /** Every course of a row carries the periods its label gives. */
  lemma RowCoursesEmitted(row: Row)
    ensures RowSections(row).None? ==> RowCourses(row) == []
    ensures RowSections(row).Some? ==> AllEmitted(RowCourses(row), RowSections(row).value)
  {
    if RowSections(row).Some? {
      DaysCoursesEmitted(row.cells, 7, RowSections(row).value);
    }
  }

  /** Every course of the table has a weekday from 1 to 7, a name and ascending non-empty
      weeks. */
  lemma {:induction false} RowsCoursesEmitted(rows: seq<Row>, n: nat)
    requires n <= |rows|
    ensures AllWellFormed(RowsCourses(rows, n))
  {
    if n > 0 {
      RowsCoursesEmitted(rows, n - 1);
      RowCoursesEmitted(rows[n - 1]);
      RowsCoursesStep(rows, n - 1);
      var row := rows[n - 1];
      if RowSections(row).Some? {
        AllEmittedWellFormed(RowCourses(row), RowSections(row).value);
      }
      AllWellFormedConcat(RowsCourses(rows, n - 1), RowCourses(row));
    }
  }

  // ---------------------------------------------------------------- the walk

  /** `box.querySelectorAll(':scope > p').forEach(...)`. */
  method CollectBox(courses: seq<Course>, children: seq<Element>, day: int, sections: Sections)
    returns (out: seq<Course>)
    ensures out == courses + BoxCourses(children, |children|, day, sections)
  {
    var found := [];
    var k := 0;
    while k < |children|
      invariant 0 <= k <= |children|
      invariant found == BoxCourses(children, k, day, sections)
    {
      BoxCoursesStep(children, k, day, sections);
      if children[k].tag == "P" {
        found := CollectItem(found, children, k, day, sections);
      }
      k := k + 1;
    }
    out := courses + found;
  }

  /** `dayCell.querySelectorAll('.item-box').forEach(...)`. */
  method CollectCell(courses: seq<Course>, boxes: seq<ItemBox>, day: int, sections: Sections)
    returns (out: seq<Course>)
    ensures out == courses + BoxesCourses(boxes, |boxes|, day, sections)
  {
    var found := [];
    var k := 0;
    while k < |boxes|
      invariant 0 <= k <= |boxes|
      invariant found == BoxesCourses(boxes, k, day, sections)
    {
      BoxesCoursesStep(boxes, k, day, sections);
      found := CollectBox(found, boxes[k].children, day, sections);
      k := k + 1;
    }
    out := courses + found;
  }

  /** One row: the filters, the label, then `for (let day = 1; day <= 7; day++)`. */
  method CollectRow(courses: seq<Course>, row: Row) returns (out: seq<Course>)
    ensures out == courses + RowCourses(row)
  {
    out := courses;
    var cells := row.cells;
    if |cells| < 2 || HasColspanSeven(cells) {
      return;
    }
    var sections := ParseSections(Trim(cells[0].text));
    if sections.None? {
      return;
    }
    out := CollectDays(courses, cells, sections.value);
  }

  /** `for (let day = 1; day <= 7; day++)`: the cell of each weekday, when the row has one.
      `done` counts the weekdays walked so far, so `day` is `done + 1`. */
  method CollectDays(courses: seq<Course>, cells: seq<Cell>, sections: Sections) returns (out: seq<Course>)
    ensures out == courses + DaysCourses(cells, 7, sections)
  {
    var found := [];
    var done := 0;
    while done < 7
      invariant 0 <= done <= 7
      invariant found == DaysCourses(cells, done, sections)
    {
      DaysCoursesStep(cells, done, sections);
      found := CollectDay(found, cells, done + 1, sections);
      done := done + 1;
    }
    out := courses + found;
  }

  /** `const dayCell = allCells[day]; if (!dayCell) return;` and the walk of that cell. */
  method CollectDay(courses: seq<Course>, cells: seq<Cell>, day: nat, sections: Sections)
    returns (out: seq<Course>)
    ensures out == courses + DayCourses(cells, day, sections)
  {
    out := courses;
    if day < |cells| {
      out := CollectCell(courses, cells[day].boxes, day, sections);
    }
  }

  /** `parseTimetable(doc)`: `None` when the page has no timetable; otherwise the courses of
      all rows, in the order the walk meets them, and the configuration. */
  method ParseTimetable(doc: Document) returns (r: Option<Timetable>)
    ensures r == TimetableOf(doc)
    ensures doc.timetable.None? <==> r.None?
    ensures r.Some? ==> r.value.config == Config(TotalWeeksOf(ShowWeekHtml(doc)), 1)
  {
    if doc.timetable.None? {
      return None;
    }
    var totalWeeks := TotalWeeksOf(ShowWeekHtml(doc));
    var courses := CollectRows(doc.timetable.value);
    r := Some(Timetable(courses, Config(totalWeeks, 1)));
  }

  /** `rows.forEach(...)`: the courses of every row, in row order. */
  method CollectRows(rows: seq<Row>) returns (courses: seq<Course>)
    ensures courses == RowsCourses(rows, |rows|)
  {
    courses := [];
    var n := 0;
    while n < |rows|
      invariant 0 <= n <= |rows|
      invariant courses == RowsCourses(rows, n)
    {
      RowsCoursesStep(rows, n);
      courses := CollectRow(courses, rows[n]);
      n := n + 1;
    }
  }

  // One step of each walk, stated apart so that the loops that take it stay small.


  lemma BoxCoursesStep(children: seq<Element>, k: nat, day: int, sections: Sections)
    requires k < |children|
    ensures BoxCourses(children, k + 1, day, sections) == BoxCourses(children, k, day, sections)
      + (if children[k].tag == "P" then Emit(ItemCourse(children, k, day, sections)) else [])
  {
  }

  lemma BoxesCoursesStep(boxes: seq<ItemBox>, k: nat, day: int, sections: Sections)
    requires k < |boxes|
    ensures BoxesCourses(boxes, k + 1, day, sections) == BoxesCourses(boxes, k, day, sections)
      + BoxCourses(boxes[k].children, |boxes[k].children|, day, sections)
  {
  }

  lemma DaysCoursesStep(cells: seq<Cell>, d: nat, sections: Sections)
    ensures DaysCourses(cells, d + 1, sections) == DaysCourses(cells, d, sections) + DayCourses(cells, d + 1, sections)
  {
  }

  lemma RowsCoursesStep(rows: seq<Row>, n: nat)
    requires n < |rows|
    ensures RowsCourses(rows, n + 1) == RowsCourses(rows, n) + RowCourses(rows[n])
  {
  }

  /** Every course `parseTimetable` emits has a weekday from 1 to 7, a name and ascending
      non-empty weeks; `RowCoursesEmitted` adds that it carries the periods of its row. */
  lemma TimetableEmitted(doc: Document)
    requires TimetableOf(doc).Some?
    ensures AllWellFormed(TimetableOf(doc).value.courses)
  {
    var rows := doc.timetable.value;
    RowsCoursesEmitted(rows, |rows|);
  }
}
