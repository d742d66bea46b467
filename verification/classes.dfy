/**
  The class handlers: creation with a case-insensitive unique name, a
  partial update that changes only the supplied fields, a delete that is
  refused while halaqas or students remain and otherwise removes the class
  with its exams, their results and its schedules in one transaction, and
  the listing's name filter.
 */
module Classes {
  import opened Js
  import opened Store
  import Paging

  const MissingInput: string := "fadlan gali xogta fasalka cusub"
  const NameExists: string := "fasalkan hore ayaa loo sameeyay"
  const NoTeacher: string := "macalinkan mid jira maaha"
  const Created: string := "fasalka si guul leh ayaa loo sameeyay"
  const BadId: string := "fadlan id-ga fasalka sax"
  const NothingToUpdate: string := "fadlan ugu yaraan hal xog soo geli"
  const NoClass: string := "fasalkan mid jira maaha"
  const SameName: string := "magacan hore ayuu u haystay fasalkan"
  const NewNameTaken: string := "magaca cusub e fasalkan hore ayuu u jiray"
  const Updated: string := "si guul leh ayaa loo badalay fasalkan"
  const Deleted: string := "si guul leh ayaa fasalkan loo saaray"

  /** Another class than `except` already has this name, ignoring case. */
  predicate NameUsed(s: Store, name: string, except: int) {
    exists k :: k in s.classes && k != except && EqualsIgnoreCase(s.classes[k].name, name)
  }

  /** No two classes have names that differ only in letter case. */
  predicate UniqueNames(s: Store) {
    forall i, j :: i in s.classes && j in s.classes && i != j ==> !EqualsIgnoreCase(s.classes[i].name, s.classes[j].name)
  }

  /** `createClass`. */
  function Create(s: Store, name: Field<string>, teacherId: Field<int>): (r: Reply)
    ensures r.status == 201 <==>
      TruthyStr(name) && TruthyInt(teacherId) && !NameUsed(s, name.value, -1) && teacherId.value in s.teachers
    ensures r.status != 201 ==> r.store == s
    ensures TruthyStr(name) && TruthyInt(teacherId) && NameUsed(s, name.value, -1) ==> r.status == 400 && r.message == NameExists
    ensures r.status == 201 ==>
      r.store == s.(classes := s.classes[s.nextId := Class(name.value, teacherId.value, None, None)], nextId := s.nextId + 1)
  {
    if !TruthyStr(name) || !TruthyInt(teacherId) then Reply(s, 400, MissingInput)
    else if NameUsed(s, name.value, -1) then Reply(s, 400, NameExists)
    else if teacherId.value !in s.teachers then Reply(s, 404, NoTeacher)
    else Reply(s.(classes := s.classes[s.nextId := Class(name.value, teacherId.value, None, None)], nextId := s.nextId + 1), 201, Created)
  }

  /** Creation keeps class names unique up to letter case. */
  lemma CreateKeepsNamesUnique(s: Store, name: Field<string>, teacherId: Field<int>)
    requires Valid(s) && UniqueNames(s)
    ensures UniqueNames(Create(s, name, teacherId).store)
  {
    var r := Create(s, name, teacherId);
    if r.status == 201 {
      forall i, j | i in r.store.classes && j in r.store.classes && i != j
        ensures !EqualsIgnoreCase(r.store.classes[i].name, r.store.classes[j].name)
      {
        if i == s.nextId {
          assert j in s.classes && j != -1;
          EqualsIgnoreCaseIsEquivalence(r.store.classes[i].name, r.store.classes[j].name, name.value);
        } else if j == s.nextId {
          assert i in s.classes && i != -1;
        }
      }
    }
  }

  datatype UpdateRequest = UpdateRequest(
    teacherId: Field<int>,
    name: Field<string>,
    rank: Field<int>,
    averageScore: Field<int>)

  /** A nullable column written with a field that may be absent: `undefined` keeps it. */
  function Write(current: Option<int>, f: Field<int>): (r: Option<int>)
    ensures f.Undefined? ==> r == current
    ensures f.Null? ==> r.None?
    ensures f.Present? ==> r == Some(f.value)
  {
    match f
    case Undefined => current
    case Null => None
    case Present(v) => Some(v)
  }

  /** The row after the update: name and teacher only when truthy, rank and score unless absent. */
  function Apply(c: Class, q: UpdateRequest): Class
    requires TruthyInt(q.teacherId) ==> q.teacherId.value >= 0
  {
    Class(
      if TruthyStr(q.name) then q.name.value else c.name,
      if TruthyInt(q.teacherId) then q.teacherId.value else c.teacherId,
      Write(c.rank, q.rank),
      Write(c.averageScore, q.averageScore))
  }

  predicate NothingGiven(q: UpdateRequest) {
    q.teacherId.Undefined? && q.name.Undefined? && q.rank.Undefined? && q.averageScore.Undefined?
  }

  /** `updateClass`; `id` is the path parameter as a number, `None` when empty or not a number. */
  function Update(s: Store, id: Option<int>, q: UpdateRequest): (r: Reply)
    ensures r.status == 200 <==>
      id.Some? && !NothingGiven(q) && id.value in s.classes
      && !(TruthyStr(q.name) && q.name.value == s.classes[id.value].name)
      && !(TruthyStr(q.name) && NameUsed(s, q.name.value, id.value))
      && (TruthyInt(q.teacherId) ==> q.teacherId.value in s.teachers)
    ensures r.status != 200 ==> r.store == s
    ensures id.Some? && NothingGiven(q) ==> r == Reply(s, 400, NothingToUpdate)
    ensures r.status == 200 ==>
      && r.store.classes.Keys == s.classes.Keys
      && r.store.classes[id.value].name == (if TruthyStr(q.name) then q.name.value else s.classes[id.value].name)
      && r.store.classes[id.value].teacherId == (if TruthyInt(q.teacherId) then q.teacherId.value else s.classes[id.value].teacherId)
      && (q.rank.Undefined? ==> r.store.classes[id.value].rank == s.classes[id.value].rank)
      && (q.averageScore.Undefined? ==> r.store.classes[id.value].averageScore == s.classes[id.value].averageScore)
      && (q.rank.Null? ==> r.store.classes[id.value].rank.None?)
      && (q.rank.Present? ==> r.store.classes[id.value].rank == Some(q.rank.value))
      && (q.averageScore.Null? ==> r.store.classes[id.value].averageScore.None?)
      && (q.averageScore.Present? ==> r.store.classes[id.value].averageScore == Some(q.averageScore.value))
      && (forall k :: k in s.classes && k != id.value ==> r.store.classes[k] == s.classes[k])
      && r.store == s.(classes := r.store.classes)
  {
    if id.None? then Reply(s, 400, BadId)
    else if NothingGiven(q) then Reply(s, 400, NothingToUpdate)
    else if id.value !in s.classes then Reply(s, 404, NoClass)
    else
      var c := s.classes[id.value];
      if TruthyStr(q.name) && q.name.value == c.name then Reply(s, 400, SameName)
      else if TruthyStr(q.name) && NameUsed(s, q.name.value, id.value) then Reply(s, 400, NewNameTaken)
      else if TruthyInt(q.teacherId) && q.teacherId.value !in s.teachers then Reply(s, 404, NoTeacher)
      else Reply(s.(classes := s.classes[id.value := Apply(c, q)]), 200, Updated)
  }

  /** A `null` teacher passes the "something given" check and then changes nothing. */
  lemma NullTeacherUpdatesNothing(s: Store, id: nat)
    requires id in s.classes
    ensures Update(s, Some(id), UpdateRequest(Null, Undefined, Undefined, Undefined)) == Reply(s, 200, Updated)
  {
    var c := s.classes[id];
    assert Apply(c, UpdateRequest(Null, Undefined, Undefined, Undefined)) == c;
    assert s.classes[id := c] == s.classes;
  }

  /** Updates keep class names unique up to letter case. */
  lemma UpdateKeepsNamesUnique(s: Store, id: Option<int>, q: UpdateRequest)
    requires UniqueNames(s)
    ensures UniqueNames(Update(s, id, q).store)
  {
    var r := Update(s, id, q);
    if r.status == 200 {
      var cs := r.store.classes;
      forall i, j | i in cs && j in cs && i != j
        ensures !EqualsIgnoreCase(cs[i].name, cs[j].name)
      {
        if TruthyStr(q.name) && (i == id.value || j == id.value) {
          var other := if i == id.value then j else i;
          assert other in s.classes && other != id.value;
          assert !EqualsIgnoreCase(s.classes[other].name, q.name.value);
          EqualsIgnoreCaseIsEquivalence(cs[i].name, cs[j].name, q.name.value);
        }
      }
    }
  }

  /** The ids of the class's exams, whose results go first. */
  function ExamsOf(s: Store, id: nat): set<nat> {
    Where(s.exams, (e: Exam) => e.classId == id)
  }

  /** `deleteClass`'s transaction: results of the class's exams, its exams, its schedules, then the class. */
  function DeleteCascade(s: Store, id: nat): Store {
    var examIds := ExamsOf(s, id);
    s.(results := Without(s.results, Where(s.results, (x: ExamResult) => x.examId in examIds)),
       exams := Without(s.exams, examIds),
       schedules := Without(s.schedules, Where(s.schedules, (c: Schedule) => c.classId == id)),
       classes := s.classes - {id})
  }

  predicate HasHalaqas(s: Store, id: nat) {
    exists k :: k in s.halaqas && s.halaqas[k].classId == id
  }

  predicate HasStudents(s: Store, id: nat) {
    exists k :: k in s.students && s.students[k].classId == Some(id)
  }

  /** A memorization target still names the class; it keeps the class it copied from its student. */
  predicate HasTargets(s: Store, id: nat) {
    exists k :: k in s.targets && s.targets[k].classId == id
  }

  /**
    `deleteClass`. The guards look only at halaqas and students. The
    transaction clears the results, exams and schedules, but a memorization
    target can still name the class (its student may have moved to another
    class since), and the relation refuses the class delete: the transaction
    rolls back with the generic 500.
   */
  function Delete(s: Store, id: Option<int>): (r: Reply)
    ensures r.status == 200 <==>
      id.Some? && id.value in s.classes && !HasHalaqas(s, id.value) && !HasStudents(s, id.value) && !HasTargets(s, id.value)
    ensures r.status != 200 ==> r.store == s
    ensures id.Some? && id.value in s.classes && (HasHalaqas(s, id.value) || HasStudents(s, id.value)) ==> r.status == 400
    ensures id.Some? && id.value in s.classes && !HasHalaqas(s, id.value) && !HasStudents(s, id.value) && HasTargets(s, id.value)
      ==> r == Fail500(s)
    ensures r.status == 200 ==> r.store == DeleteCascade(s, id.value)
  {
    if id.None? then Reply(s, 400, "fadlan id-ga sax")
    else if id.value !in s.classes then Reply(s, 404, NoClass)
    else if HasHalaqas(s, id.value) then Reply(s, 400, "fasalkan masaari kartid, waxa uu lee yahay xalqadood")
    else if HasStudents(s, id.value) then Reply(s, 400, "fasalkan masaari kartid, waxa uu lee yahay arday")
    else if HasTargets(s, id.value) then Fail500(s)
    else Reply(DeleteCascade(s, id.value), 200, Deleted)
  }

  /**
    After a delete, nothing refers to the class: no exam, schedule or
    target, and no result of one of its exams remains. Every row that
    survives is unchanged, and every other table is untouched.
   */
  lemma DeleteLeavesNoOrphans(s: Store, id: nat)
    requires Delete(s, Some(id)).status == 200
    ensures var t := Delete(s, Some(id)).store;
      && id !in t.classes
      && (forall k :: k in t.exams ==> t.exams[k].classId != id)
      && (forall k :: k in t.schedules ==> t.schedules[k].classId != id)
      && (forall k :: k in t.results ==> t.results[k].examId !in ExamsOf(s, id))
      && (forall k :: k in s.exams && s.exams[k].classId != id ==> k in t.exams)
      && (forall k :: k in t.targets ==> t.targets[k].classId != id)
      && (forall k :: k in s.classes && k != id ==> k in t.classes && t.classes[k] == s.classes[k])
      && (forall k :: k in t.exams ==> t.exams[k] == s.exams[k])
      && (forall k :: k in t.schedules ==> t.schedules[k] == s.schedules[k])
      && (forall k :: k in t.results ==> t.results[k] == s.results[k])
      && t == s.(results := t.results, exams := t.exams, schedules := t.schedules, classes := t.classes)
  {
  }

  /** A target that still names an emptied class makes its delete fail with 500 and change nothing. */
  lemma TargetBlocksDelete(s: Store, id: nat, k: nat)
    requires id in s.classes && !HasHalaqas(s, id) && !HasStudents(s, id)
    requires k in s.targets && s.targets[k].classId == id
    ensures Delete(s, Some(id)) == Fail500(s)
  {
  }

  /** `s` contains `needle` as a contiguous piece. */
  predicate Contains(s: string, needle: string) {
    exists i :: 0 <= i <= |s| && needle <= s[i..]
  }

  /** A listing: the database refused the query, or the ids that match the filter and the page data. */
  datatype Listing = Refused | Listed(ids: set<nat>, paging: Paging.ClassPage)

  predicate OfTeacher(c: Class, teacherId: Option<int>) {
    teacherId.None? || c.teacherId == teacherId.value
  }

  /**
    `getAllClasses` as written: the search term is passed under the
    misspelled key `contians`, which the database rejects, so any search
    fails with the generic 500. A page query the database refuses fails in
    the same way. Otherwise the answer holds the teacher's classes, their
    count and the page data.
   */
  function ListAsWritten(s: Store, search: Field<string>, teacherId: Option<int>,
                         page: Option<JsNumber>, limit: Option<JsNumber>): (r: Listing)
    ensures r.Refused? <==> TruthyStr(search) || Paging.ClassQueryRefused(page, limit)
    ensures r.Listed? ==>
      && r.ids == (set k | k in s.classes && OfTeacher(s.classes[k], teacherId))
      && r.paging == Paging.ClassPaging(page, limit, |r.ids|)
  {
    if TruthyStr(search) || Paging.ClassQueryRefused(page, limit) then Refused
    else
      var ids := set k | k in s.classes && OfTeacher(s.classes[k], teacherId);
      Listed(ids, Paging.ClassPaging(page, limit, |ids|))
  }

  /** The filter with `contains`: names containing the term, ignoring case. */
  function ListIntended(s: Store, search: Field<string>, teacherId: Option<int>,
                        page: Option<JsNumber>, limit: Option<JsNumber>): (r: Listing)
    ensures r.Refused? <==> Paging.ClassQueryRefused(page, limit)
    ensures r.Listed? ==>
      && (forall k :: k in r.ids <==>
            (k in s.classes && OfTeacher(s.classes[k], teacherId)
             && (TruthyStr(search) ==> Contains(Lower(s.classes[k].name), Lower(search.value)))))
      && r.paging == Paging.ClassPaging(page, limit, |r.ids|)
  {
    if Paging.ClassQueryRefused(page, limit) then Refused
    else
      var ids := set k | k in s.classes && OfTeacher(s.classes[k], teacherId)
                         && (TruthyStr(search) ==> Contains(Lower(s.classes[k].name), Lower(search.value)));
      Listed(ids, Paging.ClassPaging(page, limit, |ids|))
  }

  /** Any search makes the written listing fail, while the intended one finds the class by part of its name. */
  lemma SearchRefusedAsWritten(s: Store, k: nat, term: string)
    requires k in s.classes && term != "" && Contains(Lower(s.classes[k].name), Lower(term))
    ensures ListAsWritten(s, Present(term), None, None, None) == Refused
    ensures k in ListIntended(s, Present(term), None, None, None).ids
  {
  }

  /** Without a search term the two listings agree. */
  lemma ListingsAgreeWithoutSearch(s: Store, teacherId: Option<int>, page: Option<JsNumber>, limit: Option<JsNumber>)
    ensures ListAsWritten(s, Undefined, teacherId, page, limit) == ListIntended(s, Undefined, teacherId, page, limit)
  {
    var a := ListAsWritten(s, Undefined, teacherId, page, limit);
    var b := ListIntended(s, Undefined, teacherId, page, limit);
    if a.Listed? {
      assert a.ids == b.ids;
    }
  }
}
