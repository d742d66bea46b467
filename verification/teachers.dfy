/**
  The teacher handlers: creation (one teacher row per TEACHER user), the
  salary update, the guarded delete with its cascade, switching the linked
  account on and off, and the two history reports with their sums and
  counts.
 */
module Teachers {
  import opened Js
  import opened Calendar
  import opened Store
  import Attendance

  const MissingInput: string := "fadlan gali xogta"
  const BadSalary: string := "fadlan mushahar saxan gali"
  const NoUser: string := "user-kan lama helin"
  const NotTeacher: string := "id ga aad doratay maha macalin"
  const AlreadyTeacher: string := "macalinkan hore ayuu u jiray"
  const Created: string := "macalin si guul leh ayaa loo abuuray"
  const BadId: string := "fadlan si sax ah ugali id-ga macalinka "
  const NoSalary: string := "fadlan fali mushaharka cusub e macalinka"
  const NoTeacher: string := "macalinka lama helin"
  const Updated: string := "macalinka si guul leh ayaa loo cusbonaysiyay"
  const HasClassesMessage: string := "macalinku wuxu lee yahay fasalo, marka hore ka saar"
  const HasHalaqasMessage: string := "macalinku wuxu lee yahay xalqado, marka hore ka saar"
  const UnpaidMessage: string := "macalinka wuxu lee yahay mushahar, aan la bixinin"
  const Deleted: string := "macalinka si guul leh ayaa loo tirtiray"
  const ActiveBadId: string := "fadlan si saxan u gali id-ga macalinka"
  const Deactivated: string := "macalinka si guul leh ayaad shaqada uga joojisay"
  const Activated: string := "macalinka si guul leh ayaa loo hawl galiyay"

  /** Some teacher row belongs to the user. */
  predicate IsTeacherUser(s: Store, userId: int) {
    exists k :: k in s.teachers && s.teachers[k].userId == userId
  }

  /** The invariant creation keeps: a user has at most one teacher row, and it is a TEACHER account. */
  predicate TeacherRowsSound(s: Store) {
    && (forall i, j :: i in s.teachers && j in s.teachers && i != j ==> s.teachers[i].userId != s.teachers[j].userId)
    && (forall k :: k in s.teachers ==> s.teachers[k].userId in s.users && s.users[s.teachers[k].userId].role == TEACHER)
  }

  /** `createTeacher`; a `null` salary fails `salary <= 0`. */
  function Create(s: Store, userId: Field<int>, salary: Field<int>): (r: Reply)
    ensures r.status == 201 <==>
      TruthyInt(userId) && salary.Present? && salary.value > 0
      && userId.value in s.users && s.users[userId.value].role == TEACHER && !IsTeacherUser(s, userId.value)
    ensures r.status != 201 ==> r.store == s
    ensures TruthyInt(userId) && (salary.Null? || (salary.Present? && salary.value <= 0)) ==> r == Reply(s, 400, BadSalary)
    ensures r.status == 201 ==>
      r.store == s.(teachers := s.teachers[s.nextId := Teacher(userId.value, salary.value)], nextId := s.nextId + 1)
  {
    if !TruthyInt(userId) || salary.Undefined? then Reply(s, 400, MissingInput)
    else if salary.Null? || salary.value <= 0 then Reply(s, 400, BadSalary)
    else if userId.value !in s.users then Reply(s, 404, NoUser)
    else if s.users[userId.value].role != TEACHER then Reply(s, 400, NotTeacher)
    else if IsTeacherUser(s, userId.value) then Reply(s, 400, AlreadyTeacher)
    else Reply(s.(teachers := s.teachers[s.nextId := Teacher(userId.value, salary.value)], nextId := s.nextId + 1), 201, Created)
  }

  lemma CreateKeepsTeacherRowsSound(s: Store, userId: Field<int>, salary: Field<int>)
    requires Valid(s) && TeacherRowsSound(s)
    ensures TeacherRowsSound(Create(s, userId, salary).store)
    ensures Valid(Create(s, userId, salary).store)
  {
    var r := Create(s, userId, salary);
    if r.status == 201 {
      var t := r.store.teachers;
      forall i, j | i in t && j in t && i != j
        ensures t[i].userId != t[j].userId
      {
        if i == s.nextId {
          assert j in s.teachers;
        } else if j == s.nextId {
          assert i in s.teachers;
        }
      }
    }
  }

  /** `updateTeacher`: a falsy salary is refused before the teacher is looked up, a negative one after. */
  function Update(s: Store, id: Option<int>, salary: Field<int>): (r: Reply)
    ensures r.status == 200 <==> id.Some? && TruthyInt(salary) && id.value in s.teachers && salary.value > 0
    ensures r.status != 200 ==> r.store == s
    ensures id.Some? && !TruthyInt(salary) ==> r == Reply(s, 400, NoSalary)
    ensures id.Some? && TruthyInt(salary) && id.value !in s.teachers ==> r.status == 404
    ensures r.status == 200 ==>
      && r.store.teachers.Keys == s.teachers.Keys
      && r.store.teachers[id.value].salary == salary.value
      && r.store.teachers[id.value].userId == s.teachers[id.value].userId
      && (forall k :: k in s.teachers && k != id.value ==> r.store.teachers[k] == s.teachers[k])
      && r.store == s.(teachers := r.store.teachers)
  {
    if id.None? then Reply(s, 400, BadId)
    else if !TruthyInt(salary) then Reply(s, 400, NoSalary)
    else if id.value !in s.teachers then Reply(s, 404, "lama helin macalinka")
    else if salary.value <= 0 then Reply(s, 400, BadSalary)
    else Reply(s.(teachers := s.teachers[id.value := s.teachers[id.value].(salary := salary.value)]), 200, Updated)
  }

  /** Repeating an update changes nothing more, and updates keep the teacher rows sound. */
  lemma UpdateIdempotent(s: Store, id: Option<int>, salary: Field<int>)
    requires TeacherRowsSound(s)
    ensures Update(s, id, salary).status == 200 ==>
      Update(Update(s, id, salary).store, id, salary) == Update(s, id, salary)
    ensures TeacherRowsSound(Update(s, id, salary).store)
  {
    var r := Update(s, id, salary);
    if r.status == 200 {
      var s1 := r.store;
      assert s1.teachers[id.value := s1.teachers[id.value].(salary := salary.value)] == s1.teachers;
    }
  }

  predicate HasClasses(s: Store, id: nat) {
    exists k :: k in s.classes && s.classes[k].teacherId == id
  }

  predicate HasHalaqas(s: Store, id: nat) {
    exists k :: k in s.halaqas && s.halaqas[k].teacherId == id
  }

  predicate HasUnpaid(s: Store, id: nat) {
    exists k :: k in s.salaries && s.salaries[k].teacherId == id && s.salaries[k].status != "PAID"
  }

  /** The guards `deleteTeacher` runs before its transaction; `None` lets it through. */
  function DeleteGuard(s: Store, id: Option<int>): (r: Option<Reply>)
    ensures r.None? <==> id.Some? && id.value in s.teachers && !HasClasses(s, id.value) && !HasHalaqas(s, id.value) && !HasUnpaid(s, id.value)
    ensures r.Some? ==> r.value.store == s && r.value.status in {400, 404}
    ensures id.Some? && id.value in s.teachers && (HasClasses(s, id.value) || HasHalaqas(s, id.value) || HasUnpaid(s, id.value))
      ==> r.Some? && r.value.status == 400
  {
    if id.None? then Some(Reply(s, 400, BadId))
    else if id.value !in s.teachers then Some(Reply(s, 404, NoTeacher))
    else if HasClasses(s, id.value) then Some(Reply(s, 400, HasClassesMessage))
    else if HasHalaqas(s, id.value) then Some(Reply(s, 400, HasHalaqasMessage))
    else if HasUnpaid(s, id.value) then Some(Reply(s, 400, UnpaidMessage))
    else None
  }

  /**
    Some row in a table the teacher delete clears or checks still refers to
    teacher `t` under an id other than `t` itself.
   */
  predicate OwnRowsUnderOtherIds(s: Store, t: nat) {
    || (exists j :: j in s.schedules && j != t && s.schedules[j].teacherId == t)
    || (exists j :: j in s.teacherAttendance && j != t && s.teacherAttendance[j].teacherId == t)
    || (exists j :: j in s.salaries && j != t && s.salaries[j].teacherId == t)
  }

  /** Account `u` is still held by a student, a parent, or a teacher row other than `t`. */
  predicate AccountHeldElsewhere(s: Store, u: nat, t: nat) {
    || (exists j :: j in s.teachers && j != t && s.teachers[j].userId == u)
    || (exists j :: j in s.students && s.students[j].userId == u)
    || (exists j :: j in s.parents && s.parents[j].userId == u)
  }

  /** Halaqa `h` exists and a student or a target is placed in it. */
  predicate HalaqaInUse(s: Store, h: nat) {
    h in s.halaqas
    && ((exists j :: j in s.students && s.students[j].halaqaId == Some(h))
        || (exists j :: j in s.targets && s.targets[j].halaqaId == h))
  }

  /**
    `deleteTeacher` as written: every `deleteMany` and the final user delete
    filter on `id` equal to the teacher's id, so they remove the rows that
    happen to share that id, not the teacher's rows. The relations restrict
    deletes, so the transaction rolls back with the generic 500 when the
    teacher still has schedule, attendance or salary rows under other ids,
    when the account with the teacher's id is missing or still held by
    another row, or when the halaqa with that id is in use.
   */
  function DeleteAsWritten(s: Store, id: Option<int>): (r: Reply)
    ensures r.status == 200 <==>
      DeleteGuard(s, id).None? && id.value in s.users && !OwnRowsUnderOtherIds(s, id.value)
      && !AccountHeldElsewhere(s, id.value, id.value) && !HalaqaInUse(s, id.value)
    ensures DeleteGuard(s, id).None? && OwnRowsUnderOtherIds(s, id.value) ==> r == Fail500(s)
    ensures r.status != 200 ==> r.store == s
    ensures r.status == 200 ==>
      r.store == s.(schedules := s.schedules - {id.value}, halaqas := s.halaqas - {id.value},
                    teacherAttendance := s.teacherAttendance - {id.value},
                    salaries := s.salaries - {id.value}, teachers := s.teachers - {id.value},
                    users := s.users - {id.value})
  {
    if DeleteGuard(s, id).Some? then DeleteGuard(s, id).value
    else
      var k := id.value;
      if k !in s.users || OwnRowsUnderOtherIds(s, k) || AccountHeldElsewhere(s, k, k) || HalaqaInUse(s, k) then Fail500(s)
      else
        Reply(s.(schedules := s.schedules - {k}, halaqas := s.halaqas - {k},
                 teacherAttendance := s.teacherAttendance - {k}, salaries := s.salaries - {k},
                 teachers := s.teachers - {k}, users := s.users - {k}), 200, Deleted)
  }

  /**
    As written, a teacher with a schedule, attendance or salary row under
    another id can never be deleted, and when the delete does go through the
    account removed is the one whose id equals the teacher's id: the
    teacher's own account survives whenever the two ids differ.
   */
  lemma DeleteAsWrittenMissesTeacherRows(s: Store, id: nat)
    requires DeleteGuard(s, Some(id)).None?
    ensures OwnRowsUnderOtherIds(s, id) ==> DeleteAsWritten(s, Some(id)) == Fail500(s)
    ensures DeleteAsWritten(s, Some(id)).status == 200 && s.teachers[id].userId != id ==>
      var t := DeleteAsWritten(s, Some(id)).store;
      && id !in t.users
      && (s.teachers[id].userId in s.users ==> s.teachers[id].userId in t.users)
  {
  }

  /**
    A paid salary row filed under another id blocks the written delete,
    while the intended one goes through whenever the account is free.
   */
  lemma PaidSalaryBlocksWrittenDelete(s: Store, id: nat, k: nat)
    requires DeleteGuard(s, Some(id)).None?
    requires k in s.salaries && k != id && s.salaries[k].teacherId == id
    requires s.teachers[id].userId in s.users && !AccountHeldElsewhere(s, s.teachers[id].userId, id)
    ensures DeleteAsWritten(s, Some(id)) == Fail500(s)
    ensures DeleteIntended(s, Some(id)).status == 200
  {
  }

  /** A concrete case: teacher 5 belongs to user 3, yet user 5 is the one deleted. */
  lemma DeleteAsWrittenRemovesWrongUser()
    ensures var u := User("t@x.so", "+252611111111", "Teacher", TEACHER, Crypto.Hash("pw"), true, true, true);
      var v := User("a@x.so", "+252622222222", "Admin", ADMIN, Crypto.Hash("pw"), true, true, true);
      var s := Store(map[3 := u, 5 := v], map[], map[], map[], map[], map[5 := Teacher(3, 100)],
                     map[], map[], map[], map[], map[], map[], map[], map[], map[], 6);
      var r := DeleteAsWritten(s, Some(5));
      r.status == 200 && r.store.users == map[3 := u]
  {
    var u := User("t@x.so", "+252611111111", "Teacher", TEACHER, Crypto.Hash("pw"), true, true, true);
    var v := User("a@x.so", "+252622222222", "Admin", ADMIN, Crypto.Hash("pw"), true, true, true);
    assert map[3 := u, 5 := v] - {5} == map[3 := u];
  }

  /**
    The cascade the delete evidently wants: the teacher's schedules,
    attendance and salary rows, the teacher, then the teacher's own account,
    which must not be held by any other row.
   */
  function DeleteIntended(s: Store, id: Option<int>): (r: Reply)
    ensures r.status == 200 <==>
      DeleteGuard(s, id).None? && s.teachers[id.value].userId in s.users
      && !AccountHeldElsewhere(s, s.teachers[id.value].userId, id.value)
    ensures r.status != 200 ==> r.store == s
  {
    if DeleteGuard(s, id).Some? then DeleteGuard(s, id).value
    else
      var k := id.value;
      var u := s.teachers[k].userId;
      if u !in s.users || AccountHeldElsewhere(s, u, k) then Fail500(s)
      else
        Reply(s.(schedules := Without(s.schedules, Where(s.schedules, (c: Schedule) => c.teacherId == k)),
                 teacherAttendance := Without(s.teacherAttendance, Where(s.teacherAttendance, (a: TeacherAttendance) => a.teacherId == k)),
                 salaries := Without(s.salaries, Where(s.salaries, (p: Salary) => p.teacherId == k)),
                 teachers := s.teachers - {k},
                 users := s.users - {u}), 200, Deleted)
  }

  /**
    After the intended delete no schedule, teacher-attendance or salary row
    refers to the teacher and its account is gone. Every other row of those
    tables survives unchanged, and the other tables are kept.
   */
  lemma DeleteIntendedLeavesNoOrphans(s: Store, id: nat)
    requires DeleteIntended(s, Some(id)).status == 200
    ensures var t := DeleteIntended(s, Some(id)).store;
      && id !in t.teachers
      && s.teachers[id].userId !in t.users
      && (forall k :: k in t.schedules ==> t.schedules[k].teacherId != id)
      && (forall k :: k in t.teacherAttendance ==> t.teacherAttendance[k].teacherId != id)
      && (forall k :: k in t.salaries ==> t.salaries[k].teacherId != id)
      && (forall k :: k in s.schedules && s.schedules[k].teacherId != id ==> k in t.schedules)
      && (forall k :: k in s.teacherAttendance && s.teacherAttendance[k].teacherId != id ==> k in t.teacherAttendance)
      && (forall k :: k in s.salaries && s.salaries[k].teacherId != id ==> k in t.salaries)
      && (forall k :: k in t.schedules ==> k in s.schedules && t.schedules[k] == s.schedules[k])
      && (forall k :: k in t.teacherAttendance ==> k in s.teacherAttendance && t.teacherAttendance[k] == s.teacherAttendance[k])
      && (forall k :: k in t.salaries ==> k in s.salaries && t.salaries[k] == s.salaries[k])
      && t == s.(schedules := t.schedules, teacherAttendance := t.teacherAttendance, salaries := t.salaries,
                 teachers := s.teachers - {id}, users := s.users - {s.teachers[id].userId})
  {
  }

  /** `deActiveTeacher` (`active` false) and `activeTeacher` (`active` true). */
  function SetActive(s: Store, id: Option<int>, active: bool): (r: Reply)
    ensures r.status == 200 <==> id.Some? && id.value in s.teachers && s.teachers[id.value].userId in s.users
    ensures r.status != 200 ==> r.store == s
    ensures id.Some? && id.value in s.teachers && s.teachers[id.value].userId !in s.users ==> r.status == 500
    ensures r.status == 200 ==>
      var u := s.teachers[id.value].userId;
      r.store == s.(users := s.users[u := s.users[u].(isActive := active)])
  {
    if id.None? then Reply(s, 400, ActiveBadId)
    else if id.value !in s.teachers then Reply(s, 404, NoTeacher)
    else
      var u := s.teachers[id.value].userId;
      if u !in s.users then Fail500(s)
      else Reply(s.(users := s.users[u := s.users[u].(isActive := active)]), 200, if active then Activated else Deactivated)
  }

  /**
    Switching is idempotent, touches only the linked account's flag, and
    switching an active teacher off and on again restores the store.
   */
  lemma SetActiveIdempotent(s: Store, id: Option<int>, active: bool)
    ensures var r := SetActive(s, id, active);
      r.status == 200 ==> SetActive(r.store, id, active) == r
    ensures var r := SetActive(s, id, active);
      r.status == 200 ==>
        && r.store.users[s.teachers[id.value].userId].isActive == active
        && (forall k :: k in s.users && k != s.teachers[id.value].userId ==> r.store.users[k] == s.users[k])
  {
    var r := SetActive(s, id, active);
    if r.status == 200 {
      var u := s.teachers[id.value].userId;
      assert r.store.users[u := r.store.users[u].(isActive := active)] == r.store.users;
    }
  }

  lemma DeactivateThenActivate(s: Store, id: nat)
    requires SetActive(s, Some(id), false).status == 200
    requires s.users[s.teachers[id].userId].isActive
    ensures SetActive(SetActive(s, Some(id), false).store, Some(id), true).store == s
  {
    var u := s.teachers[id].userId;
    assert s.users[u := s.users[u].(isActive := false)][u := s.users[u]] == s.users;
  }

  /** The ids below `n` of the rows of `m` that satisfy `p`. */
  function IdsBelow<V>(m: map<nat, V>, p: V -> bool, n: nat): set<nat> {
    set k | k in m && k < n && p(m[k])
  }

  /** The rows of `m` below `n` that satisfy `p`, in ascending id order: one entry per matching row. */
  function Matching<V(==)>(m: map<nat, V>, p: V -> bool, n: nat): (r: seq<V>)
    ensures |r| == |IdsBelow(m, p, n)|
    ensures forall i :: 0 <= i < |r| ==> p(r[i]) && r[i] in m.Values
    ensures forall k :: k < n && k in m && p(m[k]) ==> m[k] in r
    decreases n
  {
    if n == 0 then
      assert IdsBelow(m, p, n) == {};
      []
    else
      var prev := Matching(m, p, n - 1);
      if (n - 1) in m && p(m[n - 1]) then
        assert IdsBelow(m, p, n) == IdsBelow(m, p, n - 1) + {n - 1};
        prev + [m[n - 1]]
      else
        assert IdsBelow(m, p, n) == IdsBelow(m, p, n - 1);
        prev
  }

  /** A read-only handler's answer: a refusal, or the value it reports. */
  datatype Answer<T> = Refused(status: int, message: string) | Answered(value: T)

  /** The three sums of the salary summary. */
  datatype SalarySummary = SalarySummary(total: int, totalEarn: int, totalPaid: int)

  /** The salary report: the matching rows (`data`) and their summary. */
  datatype SalaryReport = SalaryReport(data: seq<Salary>, summary: SalarySummary)

  function Earned(rows: seq<Salary>): int {
    if |rows| == 0 then 0 else Earned(rows[..|rows| - 1]) + rows[|rows| - 1].totalSalary
  }

  function Paid(rows: seq<Salary>): int {
    if |rows| == 0 then 0 else Paid(rows[..|rows| - 1]) + rows[|rows| - 1].paidAmount
  }

  /** What is still owed, row by row: the independent reading of `total`. */
  function Owed(rows: seq<Salary>): int {
    if |rows| == 0 then 0 else Owed(rows[..|rows| - 1]) + (rows[|rows| - 1].totalSalary - rows[|rows| - 1].paidAmount)
  }

  /** The summary's difference of two sums is the sum of what each row still owes. */
  lemma {:induction false} DifferenceIsOwed(rows: seq<Salary>)
    ensures Earned(rows) - Paid(rows) == Owed(rows)
    decreases |rows|
  {
    if |rows| > 0 {
      DifferenceIsOwed(rows[..|rows| - 1]);
    }
  }

  /** When every row is settled in full, nothing is owed. */
  lemma {:induction false} SettledOwesNothing(rows: seq<Salary>)
    requires forall i :: 0 <= i < |rows| ==> rows[i].paidAmount == rows[i].totalSalary
    ensures Earned(rows) - Paid(rows) == 0
    decreases |rows|
  {
    if |rows| > 0 {
      SettledOwesNothing(rows[..|rows| - 1]);
    }
  }

  function Summarize(rows: seq<Salary>): (r: SalarySummary)
    ensures r.totalEarn == Earned(rows) && r.totalPaid == Paid(rows)
    ensures r.total == r.totalEarn - r.totalPaid
    ensures r.total == Owed(rows)
  {
    DifferenceIsOwed(rows);
    SalarySummary(Earned(rows) - Paid(rows), Earned(rows), Paid(rows))
  }

  /** The salary filter: the teacher's rows, the status when one is asked for, and the year's months. */
  predicate SalaryFilter(p: Salary, id: int, status: Field<string>, year: Field<string>) {
    && p.teacherId == id
    && (TruthyStr(status) ==> p.status == status.value)
    && (TruthyStr(year) ==> year.value <= p.month)
  }

  function SalaryRows(s: Store, id: int, status: Field<string>, year: Field<string>): seq<Salary> {
    Matching(s.salaries, (p: Salary) => SalaryFilter(p, id, status, year), s.nextId)
  }

  /** `teacherHistorySalary` as written: a year filter uses the unknown operator `startWith` and fails. */
  function SalaryHistoryAsWritten(s: Store, id: Option<int>, status: Field<string>, year: Field<string>): (r: Answer<SalaryReport>)
    ensures r.Answered? <==> id.Some? && id.value in s.teachers && !TruthyStr(year)
    ensures id.Some? && id.value in s.teachers && TruthyStr(year) ==> r == Refused(500, ServerError)
    ensures r.Answered? ==>
      var rows := r.value.data;
      && rows == SalaryRows(s, id.value, status, Undefined)
      && (forall i :: 0 <= i < |rows| ==> rows[i].teacherId == id.value && (TruthyStr(status) ==> rows[i].status == status.value))
      && r.value.summary.totalEarn == Earned(rows)
      && r.value.summary.totalPaid == Paid(rows)
      && r.value.summary.total == Owed(rows)
  {
    if id.None? then Refused(400, ActiveBadId)
    else if id.value !in s.teachers then Refused(404, NoTeacher)
    else if TruthyStr(year) then Refused(500, ServerError)
    else
      var rows := SalaryRows(s, id.value, status, Undefined);
      Answered(SalaryReport(rows, Summarize(rows)))
  }

  /** The evidently intended year filter: months whose label starts with the year. */
  function SalaryHistoryIntended(s: Store, id: Option<int>, status: Field<string>, year: Field<string>): (r: Answer<SalaryReport>)
    ensures r.Answered? <==> id.Some? && id.value in s.teachers
    ensures r.Answered? ==>
      var rows := r.value.data;
      && rows == SalaryRows(s, id.value, status, year)
      && (forall i :: 0 <= i < |rows| ==>
            && rows[i].teacherId == id.value
            && (TruthyStr(status) ==> rows[i].status == status.value)
            && (TruthyStr(year) ==> year.value <= rows[i].month))
      && r.value.summary.totalEarn == Earned(rows)
      && r.value.summary.totalPaid == Paid(rows)
      && r.value.summary.total == Owed(rows)
  {
    if id.None? then Refused(400, ActiveBadId)
    else if id.value !in s.teachers then Refused(404, NoTeacher)
    else
      var rows := SalaryRows(s, id.value, status, year);
      Answered(SalaryReport(rows, Summarize(rows)))
  }

  /** A year makes the written report fail, while the intended one counts the rows of that year. */
  lemma YearFilterRefusedAsWritten(s: Store, id: nat, k: nat)
    requires id in s.teachers && k in s.salaries && Valid(s)
    requires s.salaries[k].teacherId == id && |s.salaries[k].month| >= 4
    ensures SalaryHistoryAsWritten(s, Some(id), Undefined, Present(s.salaries[k].month[..4])) == Refused(500, ServerError)
    ensures s.salaries[k] in SalaryRows(s, id, Undefined, Present(s.salaries[k].month[..4]))
  {
    assert k < s.nextId;
  }

  /** Without a year the two reports agree. */
  lemma SalaryHistoriesAgreeWithoutYear(s: Store, id: Option<int>, status: Field<string>)
    ensures SalaryHistoryAsWritten(s, id, status, Undefined) == SalaryHistoryIntended(s, id, status, Undefined)
  {
  }

  /** The date window of the attendance history. */
  datatype Window = Window(from: Option<Date>, to: Option<Date>)

  /**
    A "YYYY-MM" filter (already split into numbers) wins over the explicit
    start and end dates; each end of the window is open when absent.
   */
  function WindowOf(month: Option<(int, int)>, startDate: Option<Date>, endDate: Option<Date>): Window {
    if month.Some? then
      var (y, m) := month.value;
      Window(Some(MonthRange(y, m).0), Some(MonthRange(y, m).1))
    else Window(startDate, endDate)
  }

  predicate InWindow(w: Window, d: Date) {
    (w.from.Some? ==> DateLe(w.from.value, d)) && (w.to.Some? ==> DateLe(d, w.to.value))
  }

  /** For a real month, the window holds exactly the days of that month. */
  lemma MonthWindowIsTheMonth(y: int, m: int, d: Date)
    requires y >= 100 && 1 <= m <= 12 && ValidDate(d)
    ensures InWindow(WindowOf(Some((y, m)), None, None), d) <==> d.year == y && d.month == m - 1
  {
    MonthRangeCoversMonth(y, m);
  }

  /** The history's filter on the attendance table: the teacher's rows, the status when one is asked for, the window. */
  function HistoryFilter(id: int, status: Option<Attendance.AttendanceStatus>, w: Window): AttendanceRow -> bool {
    (a: AttendanceRow) => a.teacherId == id && (status.Some? ==> a.status == status.value) && InWindow(w, a.date)
  }

  /** `p` narrowed to the rows of one status. */
  function WithStatus(p: AttendanceRow -> bool, st: Attendance.AttendanceStatus): AttendanceRow -> bool {
    (a: AttendanceRow) => p(a) && a.status == st
  }

  function AsRecords(rows: seq<AttendanceRow>): (r: seq<Attendance.Record>)
    ensures |r| == |rows|
    ensures forall i :: 0 <= i < |rows| ==> r[i].status == rows[i].status
  {
    seq(|rows|, i requires 0 <= i < |rows| => Attendance.Record(rows[i].studentId, rows[i].status))
  }

  /** One more id either joins the matching ids or leaves them as they were. */
  lemma IdsBelowStep<V>(m: map<nat, V>, p: V -> bool, n: nat)
    requires n > 0
    ensures (n - 1) in m && p(m[n - 1]) ==> |IdsBelow(m, p, n)| == |IdsBelow(m, p, n - 1)| + 1
    ensures !((n - 1) in m && p(m[n - 1])) ==> |IdsBelow(m, p, n)| == |IdsBelow(m, p, n - 1)|
  {
    if (n - 1) in m && p(m[n - 1]) {
      assert IdsBelow(m, p, n) == IdsBelow(m, p, n - 1) + {n - 1};
    } else {
      assert IdsBelow(m, p, n) == IdsBelow(m, p, n - 1);
    }
  }

  /** Appending a row to the records adds its one contribution to the counts. */
  lemma TallyOfAppendRow(rows: seq<AttendanceRow>, a: AttendanceRow)
    ensures Attendance.TallyOf(AsRecords(rows + [a]), None)
      == Attendance.Add(Attendance.TallyOf(AsRecords(rows), None), Attendance.Unit(a.status))
  {
    var rs := AsRecords(rows + [a]);
    assert rs[..|rs| - 1] == AsRecords(rows);
    assert Attendance.Contribution(None, rs[|rs| - 1]) == Attendance.Unit(a.status);
  }

  /** The count a tally keeps for PRESENT or for ABSENT. */
  function CountOf(t: Attendance.Tally, st: Attendance.AttendanceStatus): nat
    requires st == Attendance.PRESENT || st == Attendance.ABSENT
  {
    if st == Attendance.PRESENT then t.present else t.absent
  }

  /**
    Counting the matching rows as the handler does gives, for the total and
    for each of the two statuses, the number of rows that match.
   */
  lemma CountsMatchRows(m: map<nat, AttendanceRow>, p: AttendanceRow -> bool, n: nat)
    ensures Attendance.TallyOf(AsRecords(Matching(m, p, n)), None).total == |IdsBelow(m, p, n)|
    ensures Attendance.TallyOf(AsRecords(Matching(m, p, n)), None).present == |IdsBelow(m, WithStatus(p, Attendance.PRESENT), n)|
    ensures Attendance.TallyOf(AsRecords(Matching(m, p, n)), None).absent == |IdsBelow(m, WithStatus(p, Attendance.ABSENT), n)|
  {
    StatusCountMatchesRows(m, p, n, Attendance.PRESENT);
    StatusCountMatchesRows(m, p, n, Attendance.ABSENT);
  }

  /** The count of one status equals the number of matching rows of that status. */
  lemma {:induction false} StatusCountMatchesRows(m: map<nat, AttendanceRow>, p: AttendanceRow -> bool, n: nat,
                                                  st: Attendance.AttendanceStatus)
    requires st == Attendance.PRESENT || st == Attendance.ABSENT
    ensures CountOf(Attendance.TallyOf(AsRecords(Matching(m, p, n)), None), st) == |IdsBelow(m, WithStatus(p, st), n)|
    decreases n
  {
    if n == 0 {
      assert IdsBelow(m, WithStatus(p, st), n) == {};
    } else {
      StatusCountMatchesRows(m, p, n - 1, st);
      StatusCountStep(m, p, n, st);
    }
  }

  /** The step of the count: one more id keeps the count equal to the number of matching rows. */
  lemma StatusCountStep(m: map<nat, AttendanceRow>, p: AttendanceRow -> bool, n: nat, st: Attendance.AttendanceStatus)
    requires n > 0 && (st == Attendance.PRESENT || st == Attendance.ABSENT)
    requires CountOf(Attendance.TallyOf(AsRecords(Matching(m, p, n - 1)), None), st) == |IdsBelow(m, WithStatus(p, st), n - 1)|
    ensures CountOf(Attendance.TallyOf(AsRecords(Matching(m, p, n)), None), st) == |IdsBelow(m, WithStatus(p, st), n)|
  {
    var q := WithStatus(p, st);
    IdsBelowStep(m, q, n);
    TallyOfMatchingStep(m, p, n);
    if (n - 1) in m && p(m[n - 1]) {
      assert q(m[n - 1]) <==> m[n - 1].status == st;
    } else {
      assert !((n - 1) in m && q(m[n - 1]));
    }
  }

  /** One more id adds that row's contribution to the counts when it matches, and nothing otherwise. */
  lemma TallyOfMatchingStep(m: map<nat, AttendanceRow>, p: AttendanceRow -> bool, n: nat)
    requires n > 0
    ensures var before := Attendance.TallyOf(AsRecords(Matching(m, p, n - 1)), None);
      Attendance.TallyOf(AsRecords(Matching(m, p, n)), None)
        == if (n - 1) in m && p(m[n - 1]) then Attendance.Add(before, Attendance.Unit(m[n - 1].status)) else before
  {
    var prev := Matching(m, p, n - 1);
    if (n - 1) in m && p(m[n - 1]) {
      assert Matching(m, p, n) == prev + [m[n - 1]];
      TallyOfAppendRow(prev, m[n - 1]);
    } else {
      assert Matching(m, p, n) == prev;
    }
  }

  /** The history's answer: the matching rows and their counts. */
  datatype AttendanceReport = AttendanceReport(data: seq<AttendanceRow>, summary: Attendance.Tally)

  /** The status a query string names: the two counted ones, or another enum member by name. */
  function StatusOf(name: string): (st: Attendance.AttendanceStatus)
    ensures st == Attendance.PRESENT <==> name == "PRESENT"
    ensures st == Attendance.ABSENT <==> name == "ABSENT"
    ensures st.OtherStatus? ==> st.name == name
  {
    if name == "PRESENT" then Attendance.PRESENT
    else if name == "ABSENT" then Attendance.ABSENT
    else Attendance.OtherStatus(name)
  }

  /** `if (status) where.status = status`: an absent or empty query filters nothing. */
  function StatusQuery(q: Option<string>): (r: Option<Attendance.AttendanceStatus>)
    ensures r.Some? <==> q.Some? && q.value != ""
    ensures r.Some? ==> r.value == StatusOf(q.value)
  {
    if q.Some? && q.value != "" then Some(StatusOf(q.value)) else None
  }

  /**
    A status query the database rejects: a non-empty string that names no
    member of the status enum (`statuses`, the enum's names), which makes
    `findMany` throw.
   */
  predicate StatusRefused(q: Option<string>, statuses: set<string>) {
    q.Some? && q.value != "" && q.value !in statuses
  }

  /**
    `teacherAttendanceHistory`: it reads the attendance table (the records
    the teacher took), not the teacher attendance table. The status arrives
    as the raw query string; `statuses` are the names of the database's
    status enum. The answer holds the matching rows and their counts: in
    all, PRESENT and ABSENT.
   */
  function AttendanceHistory(s: Store, id: Option<int>, status: Option<string>, statuses: set<string>,
                             month: Option<(int, int)>, startDate: Option<Date>, endDate: Option<Date>): (r: Answer<AttendanceReport>)
    ensures r.Answered? <==> id.Some? && id.value in s.teachers && !StatusRefused(status, statuses)
    ensures id.Some? && id.value in s.teachers && StatusRefused(status, statuses) ==> r == Refused(500, ServerError)
    ensures r.Answered? ==>
      var p := HistoryFilter(id.value, StatusQuery(status), WindowOf(month, startDate, endDate));
      var rows := r.value.data;
      && rows == Matching(s.attendance, p, s.nextId)
      && (forall i :: 0 <= i < |rows| ==>
            && rows[i].teacherId == id.value
            && (StatusQuery(status).Some? ==> rows[i].status == StatusQuery(status).value)
            && InWindow(WindowOf(month, startDate, endDate), rows[i].date))
      && r.value.summary.total == |rows| == |IdsBelow(s.attendance, p, s.nextId)|
      && r.value.summary.present == |IdsBelow(s.attendance, WithStatus(p, Attendance.PRESENT), s.nextId)|
      && r.value.summary.absent == |IdsBelow(s.attendance, WithStatus(p, Attendance.ABSENT), s.nextId)|
    ensures r.Answered? && status == Some("PRESENT") ==> r.value.summary.present == r.value.summary.total && r.value.summary.absent == 0
    ensures r.Answered? && status == Some("ABSENT") ==> r.value.summary.absent == r.value.summary.total && r.value.summary.present == 0
  {
    if id.None? then Refused(400, ActiveBadId)
    else if id.value !in s.teachers then Refused(404, NoTeacher)
    else if StatusRefused(status, statuses) then Refused(500, ServerError)
    else
      var w := WindowOf(month, startDate, endDate);
      OneStatusFilterCounts(s.attendance, id.value, StatusQuery(status), w, s.nextId);
      Answered(ReportOf(s.attendance, HistoryFilter(id.value, StatusQuery(status), w), s.nextId))
  }

  /** The rows of a filter below `n` and their counts. */
  function ReportOf(m: map<nat, AttendanceRow>, p: AttendanceRow -> bool, n: nat): (r: AttendanceReport)
    ensures r.data == Matching(m, p, n)
    ensures r.summary.total == |r.data| == |IdsBelow(m, p, n)|
    ensures r.summary.present == |IdsBelow(m, WithStatus(p, Attendance.PRESENT), n)|
    ensures r.summary.absent == |IdsBelow(m, WithStatus(p, Attendance.ABSENT), n)|
  {
    CountsMatchRows(m, p, n);
    var rows := Matching(m, p, n);
    AttendanceReport(rows, Attendance.TallyOf(AsRecords(rows), None))
  }

  /** Under a filter on one status, that status holds every matching row and the other counted status none. */
  lemma OneStatusFilterCounts(m: map<nat, AttendanceRow>, id: int, q: Option<Attendance.AttendanceStatus>, w: Window, n: nat)
    ensures var p := HistoryFilter(id, q, w);
      && (q.Some? ==> IdsBelow(m, WithStatus(p, q.value), n) == IdsBelow(m, p, n))
      && (q == Some(Attendance.PRESENT) ==> IdsBelow(m, WithStatus(p, Attendance.ABSENT), n) == {})
      && (q == Some(Attendance.ABSENT) ==> IdsBelow(m, WithStatus(p, Attendance.PRESENT), n) == {})
  {
  }

  /** When the table holds only PRESENT and ABSENT rows, the two counts make up the total. */
  lemma HistoryCountsCover(s: Store, id: int, status: Option<string>, statuses: set<string>,
                           month: Option<(int, int)>, startDate: Option<Date>, endDate: Option<Date>)
    requires id in s.teachers && !StatusRefused(status, statuses)
    requires forall a :: a in s.attendance.Values ==> a.status == Attendance.PRESENT || a.status == Attendance.ABSENT
    ensures var t := AttendanceHistory(s, Some(id), status, statuses, month, startDate, endDate).value.summary;
      t.present + t.absent == t.total
  {
    var rows := Matching(s.attendance, HistoryFilter(id, StatusQuery(status), WindowOf(month, startDate, endDate)), s.nextId);
    Attendance.TwoStatusesCover(AsRecords(rows), None);
  }

  /** Filtering on one status counts every matching row under that status and none under the other. */
  lemma {:induction false} OneStatusCounts(rs: seq<Attendance.Record>, st: Attendance.AttendanceStatus)
    requires forall i :: 0 <= i < |rs| ==> rs[i].status == st
    ensures st == Attendance.PRESENT ==> Attendance.TallyOf(rs, None).present == |rs| && Attendance.TallyOf(rs, None).absent == 0
    ensures st == Attendance.ABSENT ==> Attendance.TallyOf(rs, None).absent == |rs| && Attendance.TallyOf(rs, None).present == 0
    decreases |rs|
  {
    if |rs| > 0 {
      var init := rs[..|rs| - 1];
      assert forall i :: 0 <= i < |init| ==> init[i].status == st;
      OneStatusCounts(init, st);
      assert Attendance.Contribution(None, rs[|rs| - 1]) == Attendance.Unit(st);
      assert Attendance.TallyOf(rs, None) == Attendance.Add(Attendance.TallyOf(init, None), Attendance.Unit(st));
    }
  }
}
