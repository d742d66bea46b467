/**
  Attendance counting shared by the class report and the teacher history:
  how many records are PRESENT, how many ABSENT, how many in all, overall and
  per student. Percentages are floating point and are not modelled.
 */
module Attendance {
  import opened Js

  /** A record's status; statuses other than the two counted ones are kept by name. */
  datatype AttendanceStatus = PRESENT | ABSENT | OtherStatus(name: string)

  datatype Record = Record(studentId: nat, status: AttendanceStatus)

  datatype Tally = Tally(present: nat, absent: nat, total: nat)

  const Zero: Tally := Tally(0, 0, 0)

  function Add(a: Tally, b: Tally): Tally {
    Tally(a.present + b.present, a.absent + b.absent, a.total + b.total)
  }

  /** What one record contributes: one to the total, and one to its status's count. */
  function Unit(st: AttendanceStatus): (t: Tally)
    ensures t.total == 1 && t.present + t.absent <= 1
    ensures t.present == 1 <==> st == PRESENT
    ensures t.absent == 1 <==> st == ABSENT
  {
    Tally(if st == PRESENT then 1 else 0, if st == ABSENT then 1 else 0, 1)
  }

  /** Whether a record is counted for `who`: every record, or one student's. */
  predicate Counts(who: Option<nat>, a: Record) {
    who.None? || who.value == a.studentId
  }

  /** What one record contributes to the counts of `who`. */
  function Contribution(who: Option<nat>, a: Record): Tally {
    if Counts(who, a) then Unit(a.status) else Zero
  }

  /**
    The counts over the records of `who`, as the report's `filter(...).length`
    and `length` compute them.
   */
  function TallyOf(rs: seq<Record>, who: Option<nat>): (t: Tally)
    ensures t.present + t.absent <= t.total
    ensures t.total <= |rs|
    ensures who.None? ==> t.total == |rs|
    decreases |rs|
  {
    if |rs| == 0 then Zero
    else Add(TallyOf(rs[..|rs| - 1], who), Contribution(who, rs[|rs| - 1]))
  }

  /** With only PRESENT and ABSENT records, the two counts make up the total. */
  lemma {:induction false} TwoStatusesCover(rs: seq<Record>, who: Option<nat>)
    requires forall i :: 0 <= i < |rs| ==> rs[i].status == PRESENT || rs[i].status == ABSENT
    ensures TallyOf(rs, who).present + TallyOf(rs, who).absent == TallyOf(rs, who).total
    decreases |rs|
  {
    if |rs| > 0 {
      TwoStatusesCover(rs[..|rs| - 1], who);
    }
  }

  /** A per-student summary: student id and its counts. */
  type Summary = seq<(nat, Tally)>

  function Find(ps: Summary, sid: nat): (r: Option<nat>)
    ensures r.Some? ==> r.value < |ps| && ps[r.value].0 == sid
    ensures r.None? ==> forall j :: 0 <= j < |ps| ==> ps[j].0 != sid
  {
    if |ps| == 0 then None
    else if ps[|ps| - 1].0 == sid then Some(|ps| - 1)
    else Find(ps[..|ps| - 1], sid)
  }

  /** The counts of all entries added up. */
  function Sum(ps: Summary): Tally
    decreases |ps|
  {
    if |ps| == 0 then Zero else Add(Sum(ps[..|ps| - 1]), ps[|ps| - 1].1)
  }

  lemma {:induction false} SumReplace(ps: Summary, j: nat, x: (nat, Tally))
    requires j < |ps|
    ensures Add(Sum(ps[j := x]), ps[j].1) == Add(Sum(ps), x.1)
    decreases |ps|
  {
    var n := |ps| - 1;
    if j < n {
      assert ps[j := x][..n] == ps[..n][j := x];
      SumReplace(ps[..n], j, x);
    } else {
      assert ps[j := x][..n] == ps[..n];
    }
  }

  /** Files one more record into the per-student table. */
  function Insert(ps: Summary, a: Record): Summary {
    match Find(ps, a.studentId)
    case None => ps + [(a.studentId, Unit(a.status))]
    case Some(j) => ps[j := (a.studentId, Add(ps[j].1, Unit(a.status)))]
  }

  /** The table is right for the records `rs`. */
  ghost predicate TableFor(rs: seq<Record>, ps: Summary) {
    && (forall j :: 0 <= j < |ps| ==> ps[j].1 == TallyOf(rs, Some(ps[j].0)))
    && (forall j, k :: 0 <= j < k < |ps| ==> ps[j].0 != ps[k].0)
    && (forall sid :: Find(ps, sid).Some? <==> TallyOf(rs, Some(sid)).total > 0)
    && Sum(ps) == TallyOf(rs, None)
  }

  lemma {:induction false} TallyOfAppend(rs: seq<Record>, a: Record, who: Option<nat>)
    ensures TallyOf(rs + [a], who) == Add(TallyOf(rs, who), Contribution(who, a))
  {
    assert (rs + [a])[..|rs|] == rs;
  }

  /** A record for another student leaves an entry's counts as they were. */
  lemma {:induction false} OtherEntryUnchanged(rs: seq<Record>, a: Record, e: (nat, Tally))
    requires e.1 == TallyOf(rs, Some(e.0)) && e.0 != a.studentId
    ensures e.1 == TallyOf(rs + [a], Some(e.0))
  {
    TallyOfAppend(rs, a, Some(e.0));
  }

  lemma {:induction false} InsertKeepsEntries(rs: seq<Record>, ps: Summary, a: Record)
    requires forall j :: 0 <= j < |ps| ==> ps[j].1 == TallyOf(rs, Some(ps[j].0))
    requires Find(ps, a.studentId).None? ==> TallyOf(rs, Some(a.studentId)).total == 0
    requires forall j, k :: 0 <= j < k < |ps| ==> ps[j].0 != ps[k].0
    ensures var ps' := Insert(ps, a);
      forall j :: 0 <= j < |ps'| ==> ps'[j].1 == TallyOf(rs + [a], Some(ps'[j].0))
  {
    match Find(ps, a.studentId)
    case None =>
      NewEntry(rs, ps, a);
    case Some(i) =>
      BumpedEntry(rs, ps, a, i);
  }

  lemma {:induction false} OthersUnchanged(rs: seq<Record>, ps: Summary, a: Record)
    requires forall j :: 0 <= j < |ps| ==> ps[j].1 == TallyOf(rs, Some(ps[j].0))
    requires forall j :: 0 <= j < |ps| ==> ps[j].0 != a.studentId
    ensures forall j :: 0 <= j < |ps| ==> ps[j].1 == TallyOf(rs + [a], Some(ps[j].0))
  {
    forall j | 0 <= j < |ps|
      ensures ps[j].1 == TallyOf(rs + [a], Some(ps[j].0))
    {
      OtherEntryUnchanged(rs, a, ps[j]);
    }
  }

  lemma {:induction false} AppendEntry(rs: seq<Record>, ps: Summary, x: (nat, Tally))
    requires forall j :: 0 <= j < |ps| ==> ps[j].1 == TallyOf(rs, Some(ps[j].0))
    requires x.1 == TallyOf(rs, Some(x.0))
    ensures forall j :: 0 <= j < |ps + [x]| ==> (ps + [x])[j].1 == TallyOf(rs, Some((ps + [x])[j].0))
  {
  }

  lemma {:induction false} NewEntry(rs: seq<Record>, ps: Summary, a: Record)
    requires forall j :: 0 <= j < |ps| ==> ps[j].1 == TallyOf(rs, Some(ps[j].0))
    requires forall j :: 0 <= j < |ps| ==> ps[j].0 != a.studentId
    requires TallyOf(rs, Some(a.studentId)).total == 0
    ensures var ps' := ps + [(a.studentId, Unit(a.status))];
      forall j :: 0 <= j < |ps'| ==> ps'[j].1 == TallyOf(rs + [a], Some(ps'[j].0))
  {
    FirstRecord(rs, a);
    OthersUnchanged(rs, ps, a);
    AppendEntry(rs + [a], ps, (a.studentId, Unit(a.status)));
  }

  /** A student's first record gives that student the counts of that one record. */
  lemma {:induction false} FirstRecord(rs: seq<Record>, a: Record)
    requires TallyOf(rs, Some(a.studentId)).total == 0
    ensures TallyOf(rs + [a], Some(a.studentId)) == Unit(a.status)
  {
    TallyOfAppend(rs, a, Some(a.studentId));
    assert Contribution(Some(a.studentId), a) == Unit(a.status);
  }

  /** Every entry of `ps` holds its student's counts over `rs`. */
  ghost predicate EntriesRight(rs: seq<Record>, ps: Summary) {
    forall j :: 0 <= j < |ps| ==> ps[j].1 == TallyOf(rs, Some(ps[j].0))
  }

  lemma {:induction false} BumpedEntry(rs: seq<Record>, ps: Summary, a: Record, i: nat)
    requires EntriesRight(rs, ps)
    requires i < |ps| && ps[i].0 == a.studentId
    requires forall j, k :: 0 <= j < k < |ps| ==> ps[j].0 != ps[k].0
    ensures EntriesRight(rs + [a], ps[i := (a.studentId, Add(ps[i].1, Unit(a.status)))])
  {
    var ps' := ps[i := (a.studentId, Add(ps[i].1, Unit(a.status)))];
    TallyOfAppend(rs, a, Some(a.studentId));
    assert ps'[i].1 == TallyOf(rs + [a], Some(ps'[i].0));
    forall j | 0 <= j < |ps'| && j != i
      ensures ps'[j].1 == TallyOf(rs + [a], Some(ps'[j].0))
    {
      assert ps'[j] == ps[j] && ps[j].0 != a.studentId;
      OtherEntryUnchanged(rs, a, ps[j]);
    }
  }

  lemma {:induction false} InsertKeepsDistinct(ps: Summary, a: Record)
    requires forall j, k :: 0 <= j < k < |ps| ==> ps[j].0 != ps[k].0
    ensures var ps' := Insert(ps, a);
      forall j, k :: 0 <= j < k < |ps'| ==> ps'[j].0 != ps'[k].0
  {
  }

  lemma {:induction false} FindAfterInsert(ps: Summary, a: Record, sid: nat)
    ensures Find(Insert(ps, a), sid).Some? <==> Find(ps, sid).Some? || sid == a.studentId
  {
    var ps' := Insert(ps, a);
    if Find(ps, sid).Some? {
      assert ps'[Find(ps, sid).value].0 == sid;
    }
    if Find(ps', sid).Some? && sid != a.studentId {
      assert ps[Find(ps', sid).value].0 == sid;
    }
    if sid == a.studentId {
      match Find(ps, a.studentId)
      case None => assert ps'[|ps|].0 == sid;
      case Some(j) => assert ps'[j].0 == sid;
    }
  }

  lemma {:induction false} TotalAfterAppend(rs: seq<Record>, a: Record, sid: nat)
    ensures TallyOf(rs + [a], Some(sid)).total > 0 <==> TallyOf(rs, Some(sid)).total > 0 || sid == a.studentId
  {
    TallyOfAppend(rs, a, Some(sid));
  }

  lemma {:induction false} InsertKeepsFind(rs: seq<Record>, ps: Summary, a: Record)
    requires forall sid :: Find(ps, sid).Some? <==> TallyOf(rs, Some(sid)).total > 0
    ensures forall sid :: Find(Insert(ps, a), sid).Some? <==> TallyOf(rs + [a], Some(sid)).total > 0
  {
    forall sid
      ensures Find(Insert(ps, a), sid).Some? <==> TallyOf(rs + [a], Some(sid)).total > 0
    {
      FindAfterInsert(ps, a, sid);
      TotalAfterAppend(rs, a, sid);
    }
  }

  lemma {:induction false} InsertKeepsSum(rs: seq<Record>, ps: Summary, a: Record)
    requires Sum(ps) == TallyOf(rs, None)
    ensures Sum(Insert(ps, a)) == TallyOf(rs + [a], None)
  {
    TallyOfAppend(rs, a, None);
    assert Contribution(None, a) == Unit(a.status);
    var ps' := Insert(ps, a);
    match Find(ps, a.studentId)
    case None =>
      assert ps'[..|ps|] == ps;
      assert Sum(ps') == Add(Sum(ps), Unit(a.status));
    case Some(j) =>
      var e := (a.studentId, Add(ps[j].1, Unit(a.status)));
      assert ps' == ps[j := e];
      SumReplace(ps, j, e);
      assert Add(Sum(ps'), ps[j].1) == Add(Sum(ps), Add(ps[j].1, Unit(a.status)));
  }

  lemma {:induction false} InsertKeepsTable(rs: seq<Record>, ps: Summary, a: Record)
    requires TableFor(rs, ps)
    ensures TableFor(rs + [a], Insert(ps, a))
  {
    InsertKeepsEntries(rs, ps, a);
    InsertKeepsDistinct(ps, a);
    InsertKeepsFind(rs, ps, a);
    InsertKeepsSum(rs, ps, a);
  }

  /**
    The report's overall summary and per-student table. Each student with a
    record has exactly one entry, holding that student's counts, and the
    entries add up to the overall counts.
   */
  method Report(rs: seq<Record>) returns (summary: Tally, perStudent: Summary)
    ensures summary == TallyOf(rs, None)
    ensures summary.total == |rs|
    ensures forall j :: 0 <= j < |perStudent| ==> perStudent[j].1 == TallyOf(rs, Some(perStudent[j].0))
    ensures forall j, k :: 0 <= j < k < |perStudent| ==> perStudent[j].0 != perStudent[k].0
    ensures forall sid :: Find(perStudent, sid).Some? <==> TallyOf(rs, Some(sid)).total > 0
    ensures Sum(perStudent) == summary
  {
    summary := Zero;
    perStudent := [];
    var i := 0;
    while i < |rs|
      invariant 0 <= i <= |rs|
      invariant summary == TallyOf(rs[..i], None)
      invariant TableFor(rs[..i], perStudent)
    {
      assert rs[..i + 1] == rs[..i] + [rs[i]];
      InsertKeepsTable(rs[..i], perStudent, rs[i]);
      TallyOfAppend(rs[..i], rs[i], None);
      perStudent := Insert(perStudent, rs[i]);
      summary := Add(summary, Unit(rs[i].status));
      i := i + 1;
    }
    assert rs[..i] == rs;
  }
}
