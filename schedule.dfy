/** The canonical records every adapter produces, and facts about week lists. */
module Schedule {
  import opened JsText

  /** One contiguous occupation of periods `startSection..endSection` on weekday `day`
      (Monday is 1), recurring in the listed weeks. */
  datatype Course = Course(
    name: string,
    teacher: string,
    position: string,
    day: int,
    startSection: int,
    endSection: int,
    weeks: seq<int>)

  /** One named class period of the daily timetable. */
  datatype TimeSlot = TimeSlot(number: int, startTime: string, endTime: string)

  /** What a prompt validator returns: JavaScript `false` (accepted) or an error message. */
  datatype Verdict = Accepted | Rejected(message: string)

  predicate StrictlyAscending(s: seq<int>) {
    forall i, j :: 0 <= i < j < |s| ==> s[i] < s[j]
  }

  /** No value occurs twice. */
  ghost predicate Distinct(s: seq<int>) {
    forall x :: multiset(s)[x] <= 1
  }

  /** A clock time written `HH:MM` on the 24-hour clock. */
  predicate IsClockTime(t: string) {
    && |t| == 5 && IsDigit(t[0]) && IsDigit(t[1]) && t[2] == ':' && IsDigit(t[3]) && IsDigit(t[4])
    && DigitValue(t[0]) * 10 + DigitValue(t[1]) < 24
    && DigitValue(t[3]) * 10 + DigitValue(t[4]) < 60
  }

  /** Minutes since midnight of an `HH:MM` time. */
  function Minutes(t: string): (m: nat)
    requires IsClockTime(t)
    ensures m < 24 * 60
  {
    (DigitValue(t[0]) * 10 + DigitValue(t[1])) * 60 + DigitValue(t[3]) * 10 + DigitValue(t[4])
  }

  /** The `HH:MM` text of the time `h:m`, with both fields padded to two digits. */
  function Hm(h: nat, m: nat): (t: string)
    requires h < 24 && m < 60
    ensures IsClockTime(t) && Minutes(t) == h * 60 + m
  {
    [DigitChar(h / 10), DigitChar(h % 10), ':', DigitChar(m / 10), DigitChar(m % 10)]
  }

  /** Periods numbered `first`, `first + 1`, ... in order, each a well-formed interval that
      ends before the next one starts. */
  predicate PlanFrom(slots: seq<TimeSlot>, first: int) {
    forall i :: 0 <= i < |slots| ==>
      && slots[i].number == first + i
      && IsClockTime(slots[i].startTime) && IsClockTime(slots[i].endTime)
      && Minutes(slots[i].startTime) < Minutes(slots[i].endTime)
      && (i > 0 ==> IsClockTime(slots[i - 1].endTime) && Minutes(slots[i - 1].endTime) < Minutes(slots[i].startTime))
  }

  /** Period `n`, a well-formed interval of the day. */
  predicate SlotAt(x: TimeSlot, n: int) {
    && x.number == n && IsClockTime(x.startTime) && IsClockTime(x.endTime)
    && Minutes(x.startTime) < Minutes(x.endTime)
  }

  /** Four periods numbered from `first`, each ending before the next starts, form a run. */
  lemma PlanOfFour(a: TimeSlot, b: TimeSlot, c: TimeSlot, d: TimeSlot, first: int)
    requires SlotAt(a, first) && SlotAt(b, first + 1) && SlotAt(c, first + 2) && SlotAt(d, first + 3)
    requires Minutes(a.endTime) < Minutes(b.startTime)
    requires Minutes(b.endTime) < Minutes(c.startTime)
    requires Minutes(c.endTime) < Minutes(d.startTime)
    ensures PlanFrom([a, b, c, d], first)
  {
  }

  /** A daily timetable: the periods are numbered from 1. */
  predicate IsDayPlan(slots: seq<TimeSlot>) {
    PlanFrom(slots, 1)
  }

  /** Two consecutive runs of periods form one when the first ends before the second starts. */
  lemma PlanConcat(a: seq<TimeSlot>, b: seq<TimeSlot>, first: int)
    requires PlanFrom(a, first) && PlanFrom(b, first + |a|)
    requires a != [] && b != [] ==> Minutes(a[|a| - 1].endTime) < Minutes(b[0].startTime)
    ensures PlanFrom(a + b, first)
  {
    var s := a + b;
    forall i | 0 <= i < |s|
      ensures s[i].number == first + i
      ensures IsClockTime(s[i].startTime) && IsClockTime(s[i].endTime)
      ensures Minutes(s[i].startTime) < Minutes(s[i].endTime)
      ensures i > 0 ==> IsClockTime(s[i - 1].endTime) && Minutes(s[i - 1].endTime) < Minutes(s[i].startTime)
    {
      if i < |a| {
        assert s[i] == a[i];
        if i > 0 { assert s[i - 1] == a[i - 1]; }
      } else {
        assert s[i] == b[i - |a|];
        if i > |a| { assert s[i - 1] == b[i - 1 - |a|]; }
        else if i > 0 { assert s[i - 1] == a[|a| - 1]; }
      }
    }
  }
}
