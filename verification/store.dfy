/**
  The abstract database the handlers read and write. Every table maps a row
  id to its row; ids come from one auto-increment counter, so every key of
  every table lies below `nextId`. A handler is a pure function from a store
  and a request to a new store, an HTTP status and a message.
 */
module Store {
  import opened Js
  import opened Calendar
  import opened Crypto
  import Attendance

  datatype Role = ADMIN | TEACHER | STUDENT | PARENT

  function RoleName(r: Role): string {
    match r
    case ADMIN => "ADMIN"
    case TEACHER => "TEACHER"
    case STUDENT => "STUDENT"
    case PARENT => "PARENT"
  }

  /** The database accepts a role string only when it names an enum value. */
  function ParseRole(s: string): (r: Option<Role>)
    ensures r.Some? ==> RoleName(r.value) == s
  {
    if s == "ADMIN" then Some(ADMIN)
    else if s == "TEACHER" then Some(TEACHER)
    else if s == "STUDENT" then Some(STUDENT)
    else if s == "PARENT" then Some(PARENT)
    else None
  }

  lemma ParseRoleRoundTrip(r: Role)
    ensures ParseRole(RoleName(r)) == Some(r)
  {
  }

  datatype User = User(
    email: string,
    phone: string,
    fullName: string,
    role: Role,
    password: Digest,
    isActive: bool,
    isEmailVerify: bool,
    isPhoneVerify: bool)

  /** A one-time code row; times are milliseconds since the epoch. */
  datatype OneTimeCode = OneTimeCode(userId: nat, code: string, expiresAt: int, createdAt: int, isVerified: bool)

  datatype Gender = MALE | FEMALE

  /** `parentId` is the single parent relation the expiry sweep follows. */
  datatype Student = Student(
    userId: nat,
    gender: Gender,
    classId: Option<nat>,
    halaqaId: Option<nat>,
    parentId: Option<nat>)

  datatype Class = Class(name: string, teacherId: nat, rank: Option<int>, averageScore: Option<int>)

  datatype Halaqa = Halaqa(name: string, teacherId: nat, classId: nat)

  datatype Teacher = Teacher(userId: nat, salary: int)

  datatype Parent = Parent(userId: nat)

  datatype StudentParent = StudentParent(parentId: nat, studentId: nat)

  datatype TargetStatus = PENDING | IN_PROGRESS | ACHIEVED | FAILED

  /** A memorization target; `classId` and `halaqaId` are copied from the student when it is created. */
  datatype Target = Target(
    studentId: nat,
    classId: nat,
    halaqaId: nat,
    startSurah: string,
    startAyah: int,
    targetSurah: string,
    targetAyah: int,
    currentSurah: string,
    currentAyah: int,
    startDate: DateTime,
    dueDate: DateTime,
    completeDate: Option<DateTime>,
    status: TargetStatus)

  predicate IsActiveStatus(st: TargetStatus) {
    st == PENDING || st == IN_PROGRESS
  }

  datatype Exam = Exam(classId: nat)

  datatype ExamResult = ExamResult(examId: nat)

  datatype Schedule = Schedule(classId: nat, teacherId: nat)

  /** A row of the teacher attendance table; only its teacher matters to the handlers modelled here. */
  datatype TeacherAttendance = TeacherAttendance(teacherId: nat)

  /** A row of the attendance table: a student's status on a day, filed under the teacher who took it. */
  datatype AttendanceRow = AttendanceRow(studentId: nat, teacherId: nat, date: Date, status: Attendance.AttendanceStatus)

  /**
    A salary row; `month` is its "YYYY-MM" label and `status` the payment
    status name, "PAID" once settled.
   */
  datatype Salary = Salary(teacherId: nat, month: string, status: string, totalSalary: int, paidAmount: int)

  datatype Store = Store(
    users: map<nat, User>,
    otps: map<nat, OneTimeCode>,
    students: map<nat, Student>,
    classes: map<nat, Class>,
    halaqas: map<nat, Halaqa>,
    teachers: map<nat, Teacher>,
    parents: map<nat, Parent>,
    studentParents: map<nat, StudentParent>,
    targets: map<nat, Target>,
    exams: map<nat, Exam>,
    results: map<nat, ExamResult>,
    schedules: map<nat, Schedule>,
    teacherAttendance: map<nat, TeacherAttendance>,
    attendance: map<nat, AttendanceRow>,
    salaries: map<nat, Salary>,
    nextId: nat)

  predicate KeysBelow<V>(m: map<nat, V>, n: nat) {
    forall k :: k in m ==> k < n
  }

  /** Every row id was handed out by the counter. */
  predicate Valid(s: Store) {
    && KeysBelow(s.users, s.nextId)
    && KeysBelow(s.otps, s.nextId)
    && KeysBelow(s.students, s.nextId)
    && KeysBelow(s.classes, s.nextId)
    && KeysBelow(s.halaqas, s.nextId)
    && KeysBelow(s.teachers, s.nextId)
    && KeysBelow(s.parents, s.nextId)
    && KeysBelow(s.studentParents, s.nextId)
    && KeysBelow(s.targets, s.nextId)
    && KeysBelow(s.exams, s.nextId)
    && KeysBelow(s.results, s.nextId)
    && KeysBelow(s.schedules, s.nextId)
    && KeysBelow(s.teacherAttendance, s.nextId)
    && KeysBelow(s.attendance, s.nextId)
    && KeysBelow(s.salaries, s.nextId)
  }

  /** What a handler returns: the store after it, the HTTP status and the message. */
  datatype Reply = Reply(store: Store, status: int, message: string)

  /** The generic message of `cathError`, sent with status 500. */
  const ServerError: string := "Oops! something went wrong please try again!"

  /** A Prisma call that throws: the response is the generic 500 and the store is untouched. */
  function Fail500(s: Store): Reply {
    Reply(s, 500, ServerError)
  }

  /**
    The first row (lowest id below `n`) satisfying `p`: a `findFirst` or
    `findUnique` with a `where` filter.
   */
  function FindFirst<V>(m: map<nat, V>, p: V -> bool, n: nat): (r: Option<nat>)
    ensures r.Some? ==> r.value < n && r.value in m && p(m[r.value])
    ensures r.Some? ==> forall k :: k < r.value && k in m ==> !p(m[k])
    ensures r.None? ==> forall k :: k < n && k in m ==> !p(m[k])
    decreases n
  {
    if n == 0 then None
    else
      var r := FindFirst(m, p, n - 1);
      if r.Some? then r
      else if (n - 1) in m && p(m[n - 1]) then Some(n - 1)
      else None
  }

  /** Two searches that agree on every row agree on the row they find. */
  lemma {:induction false} FindFirstCongruent<V>(a: map<nat, V>, b: map<nat, V>, p: V -> bool, q: V -> bool, n: nat)
    requires a.Keys == b.Keys
    requires forall k :: k in a ==> p(a[k]) == q(b[k])
    ensures FindFirst(a, p, n) == FindFirst(b, q, n)
    decreases n
  {
    if n > 0 {
      FindFirstCongruent(a, b, p, q, n - 1);
    }
  }

  /** Raising the bound past every key finds nothing new. */
  lemma {:induction false} FindFirstPastKeys<V>(m: map<nat, V>, p: V -> bool, n: nat, n': nat)
    requires KeysBelow(m, n) && n <= n'
    ensures FindFirst(m, p, n') == FindFirst(m, p, n)
    decreases n'
  {
    if n' > n {
      FindFirstPastKeys(m, p, n, n' - 1);
    }
  }

  /** With every key below `n`, the search finds a row exactly when one satisfies `p`. */
  lemma FindFirstComplete<V>(m: map<nat, V>, p: V -> bool, n: nat)
    requires KeysBelow(m, n)
    ensures FindFirst(m, p, n).Some? <==> exists k :: k in m && p(m[k])
  {
  }

  /** All rows satisfying `p`, as a set of ids (the rows a `findMany` returns). */
  function Where<V>(m: map<nat, V>, p: V -> bool): set<nat> {
    set k | k in m && p(m[k])
  }

  /** `m` without the rows whose ids are in `ks` (a `deleteMany`). */
  function Without<V>(m: map<nat, V>, ks: set<nat>): (r: map<nat, V>)
    ensures r.Keys == m.Keys - ks
    ensures forall k :: k in r ==> r[k] == m[k]
  {
    map k | k in m && k !in ks :: m[k]
  }

  /**
    `findFirst({ where: { id } })` on the users for an id that may be
    `undefined` (`None`): Prisma drops an undefined filter, so the first
    account matches.
   */
  function UserById(s: Store, id: Option<nat>): (r: Option<nat>)
    ensures r.Some? ==> r.value in s.users
    ensures id.Some? ==> r == (if id.value in s.users then id else None)
    ensures id.None? ==> (r.Some? <==> exists k :: k in s.users && k < s.nextId)
    ensures id.None? && r.Some? ==> forall k :: k in s.users && k < s.nextId ==> r.value <= k
  {
    match id
    case Some(k) => if k in s.users then Some(k) else None
    case None => FindFirst(s.users, (u: User) => true, s.nextId)
  }

  function UserByEmail(s: Store, email: string): Option<nat> {
    FindFirst(s.users, (u: User) => u.email == email, s.nextId)
  }

  predicate EmailTaken(s: Store, email: string) {
    exists k :: k in s.users && s.users[k].email == email
  }

  predicate PhoneTaken(s: Store, phone: string) {
    exists k :: k in s.users && s.users[k].phone == phone
  }

  lemma UserByEmailFinds(s: Store, email: string)
    requires Valid(s)
    ensures UserByEmail(s, email).Some? <==> EmailTaken(s, email)
    ensures UserByEmail(s, email).Some? ==> s.users[UserByEmail(s, email).value].email == email
  {
    FindFirstComplete(s.users, (u: User) => u.email == email, s.nextId);
  }
}
