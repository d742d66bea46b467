/**
  Creating a student (`createStudent`): the guard chain over the account,
  the class, the parent list and the halaqa, then one transaction that
  inserts the student row and one student-parent link per listed parent.
 */
module Students {
  import opened Js
  import opened Store

  const MissingInput: string := "fadlan gali xogtada"
  const BadGender: string := "jinsiyadu sax maahan"
  const NoUser: string := "user-kan lama helin"
  const NotStudent: string := "user-kan mahan arday"
  const AlreadyStudent: string := "ardaygan hore ayuu u jiray"
  const NoClass: string := "fasalkan lama helin"
  const MissingParents: string := "qaar ka mid ah waalidiinta lama helin"
  const NoHalaqa: string := "xalqadan lama helin"
  const WrongClass: string := "xalqadani kama tirsana fasalkan"
  const Created: string := "ardayga si guul leh ayaa loo abuuray"

  datatype CreateRequest = CreateRequest(
    gender: Field<string>,
    userId: Field<int>,
    halaqaId: Field<int>,
    /** The list of parent ids. */
    parentId: Field<seq<int>>,
    classId: Field<int>)

  function ParseGender(g: string): (r: Option<Gender>)
    ensures r.Some? <==> g == "MALE" || g == "FEMALE"
    ensures r == Some(MALE) <==> g == "MALE"
  {
    if g == "MALE" then Some(MALE) else if g == "FEMALE" then Some(FEMALE) else None
  }

  function Elems(ids: seq<int>): set<int> {
    set x | x in ids
  }

  predicate Distinct(ids: seq<int>) {
    forall i, j :: 0 <= i < j < |ids| ==> ids[i] != ids[j]
  }

  /** The parent rows `findMany({ where: { id: { in: ids } } })` returns. */
  function FoundParents(s: Store, ids: seq<int>): set<int> {
    set x | x in ids && x in s.parents
  }

  /** The guard `parents.length !== parentId.length` lets the list through. */
  predicate ParentsResolve(s: Store, ids: seq<int>) {
    |FoundParents(s, ids)| == |ids|
  }

  predicate ParentsListed(q: CreateRequest) {
    q.parentId.Present? && |q.parentId.value| > 0
  }

  predicate IsStudentUser(s: Store, userId: int) {
    exists k :: k in s.students && s.students[k].userId == userId
  }

  /** The id of the `i`-th inserted link. */
  function Key(base: nat, i: nat): nat {
    base + i
  }

  /** The links the transaction inserts, under ids `base`, `base + 1`, ..., one per listed parent. */
  function Links(ids: seq<nat>, studentId: nat, base: nat): map<nat, StudentParent>
    decreases |ids|
  {
    if |ids| == 0 then map[]
    else Links(ids[..|ids| - 1], studentId, base)[base + |ids| - 1 := StudentParent(ids[|ids| - 1], studentId)]
  }

  /** The links occupy exactly the ids `base` to `base + |ids| - 1`, the `i`-th naming the `i`-th parent. */
  lemma {:induction false} LinksShape(ids: seq<nat>, studentId: nat, base: nat)
    ensures forall k :: k in Links(ids, studentId, base) <==> base <= k < base + |ids|
    ensures forall i {:trigger Key(base, i)} :: 0 <= i < |ids| ==>
      Key(base, i) in Links(ids, studentId, base) && Links(ids, studentId, base)[Key(base, i)] == StudentParent(ids[i], studentId)
    ensures |Links(ids, studentId, base)| == |ids|
    decreases |ids|
  {
    if |ids| > 0 {
      var init := ids[..|ids| - 1];
      LinksShape(init, studentId, base);
      var r := Links(ids, studentId, base);
      assert r == Links(init, studentId, base)[base + |ids| - 1 := StudentParent(ids[|ids| - 1], studentId)];
      assert base + |ids| - 1 !in Links(init, studentId, base);
      forall i | 0 <= i < |ids|
        ensures Key(base, i) in r && r[Key(base, i)] == StudentParent(ids[i], studentId)
      {
        if i < |ids| - 1 {
          assert Key(base, i) in Links(init, studentId, base) && init[i] == ids[i];
        }
      }
    }
  }

  /** Each inserted link names the student and a listed parent; distinct ids give distinct parents. */
  lemma LinksNameListedParents(ids: seq<nat>, studentId: nat, base: nat)
    ensures forall k :: k in Links(ids, studentId, base) ==>
      base <= k < base + |ids| && Links(ids, studentId, base)[k] == StudentParent(ids[k - base], studentId)
  {
    LinksShape(ids, studentId, base);
    var r := Links(ids, studentId, base);
    forall k | k in r
      ensures base <= k < base + |ids| && r[k] == StudentParent(ids[k - base], studentId)
    {
      assert Key(base, k - base) == k;
    }
  }

  function NewStudent(q: CreateRequest, g: Gender): Student
    requires q.userId.Present? && q.userId.value >= 0
    requires TruthyInt(q.classId) ==> q.classId.value >= 0
    requires TruthyInt(q.halaqaId) ==> q.halaqaId.value >= 0
  {
    Student(q.userId.value, g,
      if TruthyInt(q.classId) then Some(q.classId.value) else None,
      if TruthyInt(q.halaqaId) then Some(q.halaqaId.value) else None,
      None)
  }

  /** The transaction: the student row under the next id, then its links under the ids after it. */
  function Enrol(s: Store, st: Student, ids: seq<nat>): Store
  {
    s.(students := s.students[s.nextId := st],
       studentParents := s.studentParents + Links(ids, s.nextId, s.nextId + 1),
       nextId := s.nextId + 1 + |ids|)
  }

  /** The parent ids the request lists; an absent, `null` or empty list lists none. */
  function ParentList(q: CreateRequest): seq<int> {
    if ParentsListed(q) then q.parentId.value else []
  }

  /** Everything `createStudent` checks before its transaction. */
  predicate Admissible(s: Store, q: CreateRequest) {
    && TruthyStr(q.gender) && ParseGender(q.gender.value).Some?
    && q.userId.Present? && q.userId.value in s.users
    && s.users[q.userId.value].role == STUDENT && !IsStudentUser(s, q.userId.value)
    && (TruthyInt(q.classId) ==> q.classId.value in s.classes)
    && (ParentsListed(q) ==> ParentsResolve(s, q.parentId.value))
    && (TruthyInt(q.halaqaId) ==>
          (q.halaqaId.value in s.halaqas
           && (TruthyInt(q.classId) ==> s.halaqas[q.halaqaId.value].classId == q.classId.value)))
  }

  /** The guard chain in its order; `None` lets the request through. A `null` user id reaches the lookup, which throws. */
  function Guard(s: Store, q: CreateRequest): (r: Option<Reply>)
    ensures r.None? <==> Admissible(s, q)
    ensures r.Some? ==> r.value.store == s && r.value.status in {400, 404, 500}
    ensures !TruthyStr(q.gender) || q.userId.Undefined? ==> r == Some(Reply(s, 400, MissingInput))
    ensures TruthyStr(q.gender) && ParseGender(q.gender.value).Some? && q.userId.Null? ==> r == Some(Fail500(s))
    ensures TruthyStr(q.gender) && q.userId.Present? && ParseGender(q.gender.value).Some? && q.userId.value in s.users
      && s.users[q.userId.value].role == STUDENT && !IsStudentUser(s, q.userId.value)
      && (TruthyInt(q.classId) ==> q.classId.value in s.classes)
      && ParentsListed(q) && !ParentsResolve(s, q.parentId.value)
      ==> r == Some(Reply(s, 404, MissingParents))
  {
    if !TruthyStr(q.gender) || q.userId.Undefined? then Some(Reply(s, 400, MissingInput))
    else if ParseGender(q.gender.value).None? then Some(Reply(s, 400, BadGender))
    else if q.userId.Null? then Some(Fail500(s))
    else if q.userId.value !in s.users then Some(Reply(s, 404, NoUser))
    else if s.users[q.userId.value].role != STUDENT then Some(Reply(s, 400, NotStudent))
    else if IsStudentUser(s, q.userId.value) then Some(Reply(s, 400, AlreadyStudent))
    else if TruthyInt(q.classId) && q.classId.value !in s.classes then Some(Reply(s, 404, NoClass))
    else if ParentsListed(q) && !ParentsResolve(s, q.parentId.value) then Some(Reply(s, 404, MissingParents))
    else if TruthyInt(q.halaqaId) && q.halaqaId.value !in s.halaqas then Some(Reply(s, 404, NoHalaqa))
    else if TruthyInt(q.halaqaId) && TruthyInt(q.classId) && s.halaqas[q.halaqaId.value].classId != q.classId.value
    then Some(Reply(s, 400, WrongClass))
    else None
  }

  /** `createStudent`. */
  function Create(s: Store, q: CreateRequest): (r: Reply)
    ensures r.status == 201 <==> Admissible(s, q)
    ensures r.status != 201 ==> r == Guard(s, q).value
    ensures r.status == 201 ==>
      (forall i :: 0 <= i < |ParentList(q)| ==> ParentList(q)[i] in s.parents)
      && r.store == Enrol(s, NewStudent(q, ParseGender(q.gender.value).value), ParentList(q))
  {
    if Guard(s, q).Some? then Guard(s, q).value
    else
      ParentsResolveIff(s, ParentList(q));
      Reply(Enrol(s, NewStudent(q, ParseGender(q.gender.value).value), ParentList(q)), 201, Created)
  }

  /** A list has as many distinct values as entries exactly when no value repeats. */
  lemma {:induction false} ElemsCard(ids: seq<int>)
    ensures |Elems(ids)| <= |ids|
    ensures |Elems(ids)| == |ids| <==> Distinct(ids)
    decreases |ids|
  {
    if |ids| > 0 {
      var rest := ids[1..];
      ElemsCard(rest);
      assert Elems(ids) == {ids[0]} + Elems(rest);
      if ids[0] in Elems(rest) {
        assert Elems(ids) == Elems(rest);
        var j :| 0 <= j < |rest| && rest[j] == ids[0];
        assert ids[0] == ids[j + 1];
      } else {
        assert |Elems(ids)| == 1 + |Elems(rest)|;
        if Distinct(rest) {
          forall i, j | 0 <= i < j < |ids|
            ensures ids[i] != ids[j]
          {
            if i == 0 {
              assert ids[j] == rest[j - 1];
            } else {
              assert ids[i] == rest[i - 1] && ids[j] == rest[j - 1];
            }
          }
        } else {
          var i, j :| 0 <= i < j < |rest| && rest[i] == rest[j];
          assert ids[i + 1] == ids[j + 1];
        }
      }
    }
  }

  lemma SubsetCard(a: set<int>, b: set<int>)
    requires a <= b
    ensures |a| <= |b|
    ensures |a| == |b| ==> a == b
  {
    assert a - b == {};
    assert |a - b| + |b - a| + |a * b| == |a + b|;
    assert a * b == a && a + b == b;
    if |a| == |b| {
      assert b - a == {};
    }
  }

  /**
    A parent list passes exactly when its ids are all different and all
    name existing parents: a repeated id makes the found rows fewer than
    the ids, so it is refused with 404 as if a parent were missing.
   */
  lemma ParentsResolveIff(s: Store, ids: seq<int>)
    ensures ParentsResolve(s, ids) <==> Distinct(ids) && forall i :: 0 <= i < |ids| ==> ids[i] in s.parents
  {
    ElemsCard(ids);
    var found := FoundParents(s, ids);
    assert found <= Elems(ids);
    SubsetCard(found, Elems(ids));
    if ParentsResolve(s, ids) {
      forall i | 0 <= i < |ids|
        ensures ids[i] in s.parents
      {
        assert ids[i] in Elems(ids);
      }
    }
    if Distinct(ids) && forall i :: 0 <= i < |ids| ==> ids[i] in s.parents {
      assert found == Elems(ids);
    }
  }

  /** A list naming one existing parent twice is refused. */
  lemma DuplicateParentRefused(s: Store, q: CreateRequest, p: int)
    requires q.parentId == Present([p, p])
    ensures Create(s, q).status != 201
  {
    ParentsResolveIff(s, [p, p]);
    assert [p, p][0] == [p, p][1];
  }

  /** One student row per account, and only for STUDENT accounts. */
  predicate StudentRowsSound(s: Store) {
    && (forall i, j :: i in s.students && j in s.students && i != j ==> s.students[i].userId != s.students[j].userId)
    && (forall k :: k in s.students ==> s.students[k].userId in s.users && s.users[s.students[k].userId].role == STUDENT)
  }

  /** Every link names an existing parent and an existing student. */
  predicate LinksResolve(s: Store) {
    forall k :: k in s.studentParents ==> s.studentParents[k].parentId in s.parents && s.studentParents[k].studentId in s.students
  }

  /** The keys of the links to student `n`. */
  function LinksOf(sp: map<nat, StudentParent>, n: nat): set<nat> {
    set k | k in sp && sp[k].studentId == n
  }

  lemma EnrolKeepsStudentRows(s: Store, st: Student, ids: seq<nat>)
    requires KeysBelow(s.students, s.nextId) && StudentRowsSound(s)
    requires st.userId in s.users && s.users[st.userId].role == STUDENT && !IsStudentUser(s, st.userId)
    ensures StudentRowsSound(Enrol(s, st, ids))
  {
    var students := s.students[s.nextId := st];
    assert Enrol(s, st, ids).students == students;
    forall i, j | i in students && j in students && i != j
      ensures students[i].userId != students[j].userId
    {
      if i == s.nextId {
        assert j in s.students;
      } else if j == s.nextId {
        assert i in s.students;
      }
    }
  }

  /** A merge of two maps of resolving links resolves. */
  lemma MergeResolves(sp: map<nat, StudentParent>, links: map<nat, StudentParent>, parents: set<nat>, students: set<nat>)
    requires forall k :: k in sp ==> sp[k].parentId in parents && sp[k].studentId in students
    requires forall k :: k in links ==> links[k].parentId in parents && links[k].studentId in students
    ensures forall k :: k in sp + links ==> (sp + links)[k].parentId in parents && (sp + links)[k].studentId in students
  {
  }

  /** Merging links to `n` into links to other students: the links to `n` are the merged-in ones. */
  lemma MergedOwners(sp: map<nat, StudentParent>, links: map<nat, StudentParent>, n: nat)
    requires forall k :: k in sp ==> sp[k].studentId != n
    requires forall k :: k in links ==> links[k].studentId == n
    ensures LinksOf(sp + links, n) == links.Keys
  {
  }

  lemma EnrolKeepsLinksResolved(s: Store, st: Student, ids: seq<nat>)
    requires LinksResolve(s)
    requires forall i :: 0 <= i < |ids| ==> ids[i] in s.parents
    ensures LinksResolve(Enrol(s, st, ids))
  {
    var n := s.nextId;
    var links := Links(ids, n, n + 1);
    LinksNameListedParents(ids, n, n + 1);
    var t := Enrol(s, st, ids);
    forall k | k in links
      ensures links[k].parentId in s.parents.Keys && links[k].studentId in t.students.Keys
    {
      assert links[k].parentId == ids[k - (n + 1)];
    }
    MergeResolves(s.studentParents, links, s.parents.Keys, t.students.Keys);
  }

  /** The links to the new student are exactly the inserted ones. */
  lemma EnrolLinksOf(s: Store, st: Student, ids: seq<nat>)
    requires KeysBelow(s.students, s.nextId) && LinksResolve(s)
    ensures LinksOf(Enrol(s, st, ids).studentParents, s.nextId) == Links(ids, s.nextId, s.nextId + 1).Keys
  {
    var n := s.nextId;
    LinksNameListedParents(ids, n, n + 1);
    forall k | k in s.studentParents
      ensures s.studentParents[k].studentId != n
    {
      assert s.studentParents[k].studentId in s.students;
    }
    MergedOwners(s.studentParents, Links(ids, n, n + 1), n);
  }

  /** Distinct ids give distinct parents, one per inserted link. */
  lemma LinksDistinctParents(ids: seq<nat>, studentId: nat, base: nat)
    requires Distinct(ids)
    ensures forall k1, k2 :: k1 in Links(ids, studentId, base) && k2 in Links(ids, studentId, base) && k1 != k2 ==>
      Links(ids, studentId, base)[k1].parentId != Links(ids, studentId, base)[k2].parentId
  {
    LinksNameListedParents(ids, studentId, base);
  }

  /**
    The links to student `n` name each of `ids` exactly once, the `i`-th
    under id `n + 1 + i`.
   */
  predicate OneLinkPerParent(sp: map<nat, StudentParent>, n: nat, ids: seq<int>) {
    && |LinksOf(sp, n)| == |ids|
    && (forall k :: k in LinksOf(sp, n) ==> sp[k].parentId in ids)
    && (forall i :: 0 <= i < |ids| ==> Key(n + 1, i) in LinksOf(sp, n) && sp[Key(n + 1, i)].parentId == ids[i])
    && (forall k1, k2 :: k1 in LinksOf(sp, n) && k2 in LinksOf(sp, n) && k1 != k2 ==> sp[k1].parentId != sp[k2].parentId)
  }

  /** Merging the links for distinct ids into links to other students links each id once. */
  lemma MergedOnce(sp: map<nat, StudentParent>, ids: seq<nat>, n: nat)
    requires forall k :: k in sp ==> sp[k].studentId != n
    requires Distinct(ids)
    ensures OneLinkPerParent(sp + Links(ids, n, n + 1), n, ids)
  {
    var links := Links(ids, n, n + 1);
    var m := sp + links;
    LinksShape(ids, n, n + 1);
    LinksNameListedParents(ids, n, n + 1);
    LinksDistinctParents(ids, n, n + 1);
    MergedOwners(sp, links, n);
    forall k | k in links
      ensures m[k] == links[k]
    {
    }
    assert |links.Keys| == |links|;
  }

  lemma EnrolLinksEachParentOnce(s: Store, st: Student, ids: seq<nat>)
    requires KeysBelow(s.students, s.nextId) && LinksResolve(s)
    requires Distinct(ids)
    ensures OneLinkPerParent(Enrol(s, st, ids).studentParents, s.nextId, ids)
  {
    forall k | k in s.studentParents
      ensures s.studentParents[k].studentId != s.nextId
    {
      assert s.studentParents[k].studentId in s.students;
    }
    MergedOnce(s.studentParents, ids, s.nextId);
  }

  /** Creation keeps the rows sound: one student row per STUDENT account, and every link resolves. */
  lemma CreateKeepsRowsSound(s: Store, q: CreateRequest)
    requires Valid(s) && StudentRowsSound(s) && LinksResolve(s)
    ensures StudentRowsSound(Create(s, q).store) && LinksResolve(Create(s, q).store)
  {
    if Create(s, q).status == 201 {
      var ids := ParentList(q);
      var st := NewStudent(q, ParseGender(q.gender.value).value);
      EnrolKeepsStudentRows(s, st, ids);
      EnrolKeepsLinksResolved(s, st, ids);
    }
  }

  /**
    The new student has exactly one link per listed parent: the links to it
    are the ones just inserted, their parents are the listed ids, and no
    parent is linked twice.
   */
  lemma CreateLinksEachParentOnce(s: Store, q: CreateRequest)
    requires Valid(s) && LinksResolve(s)
    requires Create(s, q).status == 201
    ensures OneLinkPerParent(Create(s, q).store.studentParents, s.nextId, ParentList(q))
  {
    var ids := ParentList(q);
    ParentsResolveIff(s, ids);
    EnrolLinksEachParentOnce(s, NewStudent(q, ParseGender(q.gender.value).value), ids);
  }

  /** The class and halaqa are stored only when truthy, and a stored pair agrees. */
  lemma CreatedPlacement(s: Store, q: CreateRequest)
    requires Create(s, q).status == 201
    ensures var st := Create(s, q).store.students[s.nextId];
      && (st.classId.Some? <==> TruthyInt(q.classId))
      && (st.halaqaId.Some? <==> TruthyInt(q.halaqaId))
      && (st.classId.Some? && st.halaqaId.Some? ==> s.halaqas[st.halaqaId.value].classId == st.classId.value)
      && st.userId == q.userId.value && st.parentId.None?
  {
  }
}
