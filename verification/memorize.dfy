/**
  Creating a memorization target for a student (`createMemorizeStudent`). The
  guards run in a fixed order; a target that passes them copies the student's
  class and halaqa, starts its current position at the start position and
  falls due a whole number of calendar months after its start date.
 */
module Memorize {
  import opened Js
  import opened Calendar
  import opened Store

  const Incomplete: string := "fadlan gali xogta o dhamaystiran"
  const AyahTooSmall: string := "fadlan tirada ayaadaha waa inaad ka badisaa 0"
  const NoStudent: string := "ardaygan mid jira maaha"
  const NoClass: string := "ardaygan kama tirsana fasal, fadlan marka hore kusoo dar fasal"
  const NoHalaqa: string := "ardaygan kama tirsana xalqad, fadlan marka hore kusoo dar xalqad"
  const AlreadyActive: string := "ardaygan taxdiid socda ayuu lee yahay"
  const Created: string := "taxdiidka si guul leh ayaa loo abuuray"

  /** `durationMonths = 3` in the destructuring: only an absent value takes the default. */
  const DefaultMonths: int := 3

  /**
    The status a new target receives. The handler does not set one, so it is
    the column default of the database schema, which is not part of this
    model; the enum's first value is assumed.
   */
  const InitialStatus: TargetStatus := PENDING

  /**
    The body's `startDate`: falsy (the clock is used), a string `new Date`
    cannot parse (an Invalid Date, which the insert rejects), or a parsed
    instant.
   */
  datatype StartInput = NoStart | BadStart | StartAt(at: DateTime)

  datatype CreateRequest = CreateRequest(
    studentId: Field<int>,
    startSurah: Field<string>,
    startAyah: Field<int>,
    targetSurah: Field<string>,
    targetAyah: Field<int>,
    startDate: StartInput,
    durationMonths: Field<int>)

  predicate RequestComplete(q: CreateRequest) {
    TruthyInt(q.studentId) && TruthyStr(q.startSurah) && TruthyInt(q.startAyah)
    && TruthyInt(q.targetAyah) && TruthyStr(q.targetSurah)
  }

  /** A truthy foreign key: set and not 0. */
  predicate Linked(o: Option<nat>) {
    o.Some? && o.value != 0
  }

  /** Whether the student has a PENDING or IN_PROGRESS target. */
  predicate HasActiveTarget(s: Store, studentId: int) {
    exists k :: k in s.targets && s.targets[k].studentId == studentId && IsActiveStatus(s.targets[k].status)
  }

  /** The invariant the guard keeps: no student has two active targets. */
  predicate AtMostOneActive(s: Store) {
    forall i, j ::
      (i in s.targets && j in s.targets
       && IsActiveStatus(s.targets[i].status) && IsActiveStatus(s.targets[j].status)
       && s.targets[i].studentId == s.targets[j].studentId) ==> i == j
  }

  /**
    How many months `setMonth(getMonth() + durationMonths)` adds: the default
    when absent, and none for `null` (which adds as 0).
   */
  function Months(f: Field<int>): (k: int)
    ensures f.Undefined? ==> k == DefaultMonths
    ensures f.Null? ==> k == 0
    ensures f.Present? ==> k == f.value
  {
    match f
    case Undefined => DefaultMonths
    case Null => 0
    case Present(k) => k
  }

  function StartOf(q: CreateRequest, now: DateTime): DateTime {
    if q.startDate.StartAt? then q.startDate.at else now
  }

  /** The row the handler inserts for a student that passed every guard. */
  function NewTarget(q: CreateRequest, st: Student, now: DateTime): Target
    requires RequestComplete(q) && q.studentId.value >= 0 && Linked(st.classId) && Linked(st.halaqaId)
  {
    var start := StartOf(q, now);
    Target(
      q.studentId.value, st.classId.value, st.halaqaId.value,
      q.startSurah.value, q.startAyah.value, q.targetSurah.value, q.targetAyah.value,
      q.startSurah.value, q.startAyah.value,
      start, AddMonths(start, Months(q.durationMonths)), None, InitialStatus)
  }

  /** The request is complete, the ayahs are positive, and the student exists, is placed, and has no active target. */
  predicate GuardsPass(s: Store, q: CreateRequest) {
    && RequestComplete(q) && q.startAyah.value >= 1 && q.targetAyah.value >= 1
    && q.studentId.value in s.students
    && Linked(s.students[q.studentId.value].classId)
    && Linked(s.students[q.studentId.value].halaqaId)
    && !HasActiveTarget(s, q.studentId.value)
  }

  /**
    `createMemorizeStudent`, with `now` the clock reading. The guards answer
    400 or 404; past them, an unparsable start date makes the insert throw.
   */
  function Create(s: Store, q: CreateRequest, now: DateTime): (r: Reply)
    ensures r.status == 201 <==> GuardsPass(s, q) && !q.startDate.BadStart?
    ensures r.status != 201 ==> r.store == s
    ensures !RequestComplete(q) ==> r.status == 400 && r.message == Incomplete
    ensures RequestComplete(q) && (q.startAyah.value < 1 || q.targetAyah.value < 1) ==> r.status == 400 && r.message == AyahTooSmall
    ensures RequestComplete(q) && q.startAyah.value >= 1 && q.targetAyah.value >= 1 && q.studentId.value !in s.students
      ==> r.status == 404
    ensures GuardsPass(s, q) && q.startDate.BadStart? ==> r == Fail500(s)
    ensures r.status == 201 ==>
      r.store == s.(targets := s.targets[s.nextId := NewTarget(q, s.students[q.studentId.value], now)], nextId := s.nextId + 1)
  {
    if !RequestComplete(q) then Reply(s, 400, Incomplete)
    else if q.startAyah.value < 1 || q.targetAyah.value < 1 then Reply(s, 400, AyahTooSmall)
    else if q.studentId.value !in s.students then Reply(s, 404, NoStudent)
    else
      var st := s.students[q.studentId.value];
      if !Linked(st.classId) then Reply(s, 400, NoClass)
      else if !Linked(st.halaqaId) then Reply(s, 400, NoHalaqa)
      else if HasActiveTarget(s, q.studentId.value) then Reply(s, 400, AlreadyActive)
      else if q.startDate.BadStart? then Fail500(s)
      else
        var t := NewTarget(q, st, now);
        Reply(s.(targets := s.targets[s.nextId := t], nextId := s.nextId + 1), 201, Created)
  }

  /** For an existing student the class link is checked first, then the halaqa link. */
  lemma ClassCheckedBeforeHalaqa(s: Store, q: CreateRequest, now: DateTime)
    requires RequestComplete(q) && q.startAyah.value >= 1 && q.targetAyah.value >= 1
    requires q.studentId.value in s.students
    ensures !Linked(s.students[q.studentId.value].classId) ==> Create(s, q, now).message == NoClass
    ensures Linked(s.students[q.studentId.value].classId) && !Linked(s.students[q.studentId.value].halaqaId)
      ==> Create(s, q, now).message == NoHalaqa
  {
  }

  /** A successful creation keeps every student at no more than one active target. */
  lemma CreateKeepsOneActive(s: Store, q: CreateRequest, now: DateTime)
    requires Valid(s) && AtMostOneActive(s)
    ensures AtMostOneActive(Create(s, q, now).store)
    ensures Valid(Create(s, q, now).store)
  {
    var r := Create(s, q, now);
    if r.status == 201 {
      var n := s.nextId;
      var t := r.store.targets;
      assert t[n].studentId == q.studentId.value && IsActiveStatus(t[n].status);
      assert !HasActiveTarget(s, q.studentId.value);
      forall i, j | i in t && j in t && IsActiveStatus(t[i].status) && IsActiveStatus(t[j].status)
          && t[i].studentId == t[j].studentId
        ensures i == j
      {
        if i != n && j != n {
          assert s.targets[i] == t[i] && s.targets[j] == t[j];
        }
      }
    }
  }

  /**
    The new target copies the student's class and halaqa at creation time,
    starts at its start position with no completion date, and starts on the
    given date or, without one, now.
   */
  lemma CreatedTargetSnapshot(s: Store, q: CreateRequest, now: DateTime)
    requires Create(s, q, now).status == 201
    ensures var t := Create(s, q, now).store.targets[s.nextId];
      && t.classId == s.students[q.studentId.value].classId.value
      && t.halaqaId == s.students[q.studentId.value].halaqaId.value
      && t.currentSurah == t.startSurah == q.startSurah.value
      && t.currentAyah == t.startAyah == q.startAyah.value
      && t.completeDate.None?
      && t.startDate == (if q.startDate.StartAt? then q.startDate.at else now)
      && t.status == InitialStatus
  {
  }

  /**
    Starting on a day no later than the 28th, the due date keeps the day of
    the month and lies exactly `durationMonths` calendar months later
    (three when absent, none when `null`).
   */
  lemma DueDateWholeMonths(s: Store, q: CreateRequest, now: DateTime)
    requires Create(s, q, now).status == 201
    requires ValidDate(StartOf(q, now).date) && StartOf(q, now).date.day <= 28
    ensures var t := Create(s, q, now).store.targets[s.nextId];
      && t.dueDate.date.day == t.startDate.date.day
      && MonthIndex(t.dueDate.date) == MonthIndex(t.startDate.date) + Months(q.durationMonths)
      && (q.durationMonths.Undefined? ==> MonthIndex(t.dueDate.date) == MonthIndex(t.startDate.date) + 3)
      && (q.durationMonths.Null? ==> t.dueDate == t.startDate)
  {
    AddMonthsEarlyDay(StartOf(q, now), Months(q.durationMonths));
    var d := AddMonths(StartOf(q, now), Months(q.durationMonths));
    if q.durationMonths.Null? {
      assert d.date.year * 12 + d.date.month == StartOf(q, now).date.year * 12 + StartOf(q, now).date.month;
      assert d.date.month == StartOf(q, now).date.month;
    }
  }
}
