/**
  Creating a halaqa (a study circle inside a class). Its name must be new
  within its class, ignoring case. The handler looks the class up by the
  teacher's id; the evidently intended lookup by the class id is modelled
  beside it.
 */
module Halaqas {
  import opened Js
  import opened Store

  const MissingInput: string := "fadlan gali xogta xalaqada"
  const NoTeacher: string := "macalinkan mid jira maaha"
  const NoClass: string := "fasalkan mid jira maaha"
  const NameTaken: string := "magaca xalqadani hore ayuu u jiray"
  const Created: string := "si guul leh ayaa loo sameeyay xalqada"

  /** A halaqa of class `classId` already has this name, ignoring case. */
  predicate NameUsedInClass(s: Store, name: string, classId: int) {
    exists k :: k in s.halaqas && s.halaqas[k].classId == classId && EqualsIgnoreCase(s.halaqas[k].name, name)
  }

  /** Within each class, no two halaqas have names that differ only in letter case. */
  predicate NamesUniquePerClass(s: Store) {
    forall i, j :: i in s.halaqas && j in s.halaqas && i != j && s.halaqas[i].classId == s.halaqas[j].classId
      ==> !EqualsIgnoreCase(s.halaqas[i].name, s.halaqas[j].name)
  }

  predicate Complete(teacherId: Field<int>, classId: Field<int>, name: Field<string>) {
    TruthyInt(teacherId) && TruthyInt(classId) && TruthyStr(name)
  }

  /** The insert at the end of both versions; the class reference must exist or the insert throws. */
  function Insert(s: Store, teacherId: nat, classId: int, name: string): (r: Reply)
    ensures r.status == 201 <==> classId in s.classes
    ensures r.status != 201 ==> r == Fail500(s)
    ensures r.status == 201 ==>
      r.store == s.(halaqas := s.halaqas[s.nextId := Halaqa(name, teacherId, classId)], nextId := s.nextId + 1)
  {
    if classId !in s.classes then Fail500(s)
    else Reply(s.(halaqas := s.halaqas[s.nextId := Halaqa(name, teacherId, classId)], nextId := s.nextId + 1), 201, Created)
  }

  /** `createHalaqa` as written: the class lookup uses `teacherId`. */
  function CreateAsWritten(s: Store, teacherId: Field<int>, classId: Field<int>, name: Field<string>): (r: Reply)
    ensures r.status == 201 <==>
      Complete(teacherId, classId, name) && teacherId.value in s.teachers && teacherId.value in s.classes
      && !NameUsedInClass(s, name.value, classId.value) && classId.value in s.classes
    ensures r.status != 201 ==> r.store == s
    ensures Complete(teacherId, classId, name) && teacherId.value in s.teachers && teacherId.value !in s.classes
      ==> r == Reply(s, 404, NoClass)
  {
    if !Complete(teacherId, classId, name) then Reply(s, 400, MissingInput)
    else if teacherId.value !in s.teachers then Reply(s, 404, NoTeacher)
    else if teacherId.value !in s.classes then Reply(s, 404, NoClass)
    else if NameUsedInClass(s, name.value, classId.value) then Reply(s, 400, NameTaken)
    else Insert(s, teacherId.value, classId.value, name.value)
  }

  /** `createHalaqa` with the class looked up by `classId`. */
  function CreateIntended(s: Store, teacherId: Field<int>, classId: Field<int>, name: Field<string>): (r: Reply)
    ensures r.status == 201 <==>
      Complete(teacherId, classId, name) && teacherId.value in s.teachers && classId.value in s.classes
      && !NameUsedInClass(s, name.value, classId.value)
    ensures r.status != 201 ==> r.store == s
    ensures r.status != 500
    ensures Complete(teacherId, classId, name) && teacherId.value in s.teachers && classId.value !in s.classes
      ==> r == Reply(s, 404, NoClass)
    ensures r.status == 201 ==>
      s.nextId in r.store.halaqas && r.store.halaqas[s.nextId] == Halaqa(name.value, teacherId.value, classId.value)
  {
    if !Complete(teacherId, classId, name) then Reply(s, 400, MissingInput)
    else if teacherId.value !in s.teachers then Reply(s, 404, NoTeacher)
    else if classId.value !in s.classes then Reply(s, 404, NoClass)
    else if NameUsedInClass(s, name.value, classId.value) then Reply(s, 400, NameTaken)
    else Insert(s, teacherId.value, classId.value, name.value)
  }

  /**
    The written lookup refuses a halaqa for an existing class whenever no
    class happens to have the teacher's id; the intended one creates it.
   */
  lemma ClassLookupByTeacherId(s: Store, teacherId: nat, classId: nat, name: string)
    requires teacherId != 0 && classId != 0 && name != ""
    requires teacherId in s.teachers && classId in s.classes && teacherId !in s.classes
    requires !NameUsedInClass(s, name, classId)
    ensures CreateAsWritten(s, Present(teacherId), Present(classId), Present(name)).status == 404
    ensures CreateIntended(s, Present(teacherId), Present(classId), Present(name)).status == 201
  {
  }

  /** Conversely, an unknown class gets past the written lookup and fails only at the insert. */
  lemma UnknownClassReachesInsert(s: Store, teacherId: nat, classId: nat, name: string)
    requires teacherId != 0 && classId != 0 && name != ""
    requires teacherId in s.teachers && teacherId in s.classes && classId !in s.classes
    requires !NameUsedInClass(s, name, classId)
    ensures CreateAsWritten(s, Present(teacherId), Present(classId), Present(name)) == Fail500(s)
    ensures CreateIntended(s, Present(teacherId), Present(classId), Present(name)) == Reply(s, 404, NoClass)
  {
  }

  /** Whenever both succeed they create the same row. */
  lemma VersionsAgreeOnSuccess(s: Store, teacherId: Field<int>, classId: Field<int>, name: Field<string>)
    requires CreateAsWritten(s, teacherId, classId, name).status == 201
    ensures CreateIntended(s, teacherId, classId, name) == CreateAsWritten(s, teacherId, classId, name)
  {
  }

  lemma {:induction false} InsertKeepsNamesUnique(s: Store, teacherId: nat, classId: int, name: string)
    requires Valid(s) && NamesUniquePerClass(s) && !NameUsedInClass(s, name, classId)
    ensures NamesUniquePerClass(Insert(s, teacherId, classId, name).store)
    ensures Valid(Insert(s, teacherId, classId, name).store)
  {
    var r := Insert(s, teacherId, classId, name);
    if r.status == 201 {
      var h := r.store.halaqas;
      forall i, j | i in h && j in h && i != j && h[i].classId == h[j].classId
        ensures !EqualsIgnoreCase(h[i].name, h[j].name)
      {
        if i == s.nextId {
          assert j in s.halaqas && s.halaqas[j].classId == classId;
          EqualsIgnoreCaseIsEquivalence(h[i].name, h[j].name, name);
        } else if j == s.nextId {
          assert i in s.halaqas && s.halaqas[i].classId == classId;
        } else {
          assert i in s.halaqas && j in s.halaqas;
        }
      }
    }
  }

  /** Both versions keep halaqa names unique within each class. */
  lemma CreateKeepsNamesUnique(s: Store, teacherId: Field<int>, classId: Field<int>, name: Field<string>)
    requires Valid(s) && NamesUniquePerClass(s)
    ensures NamesUniquePerClass(CreateAsWritten(s, teacherId, classId, name).store)
    ensures NamesUniquePerClass(CreateIntended(s, teacherId, classId, name).store)
  {
    if Complete(teacherId, classId, name) && !NameUsedInClass(s, name.value, classId.value) && teacherId.value >= 0 {
      InsertKeepsNamesUnique(s, teacherId.value, classId.value, name.value);
    }
  }
}
