/**
  The daily sweep over expired memorization targets (the body of the midnight
  job). It selects every IN_PROGRESS target whose due date has passed and, for
  each in turn, writes an in-app notice to the student, the student's parent
  and the halaqa's teacher when these resolve, then sends a WhatsApp message
  and an e-mail to the student. Sending is an event; a WhatsApp failure is
  rethrown and ends the sweep, while in-app and e-mail failures are swallowed.
 */
module Sweep {
  import opened Js
  import opened Calendar
  import opened Store

  const Title: string := "Taxdiid Dhamaaday"

  const MessageHead: string := "Mudadii taxdiidka ardayga "
  const MessageTail: string := " way dhamaatay."

  /** The notice text: the student's name between a fixed head and tail. */
  function Message(fullName: string): (m: string)
    ensures |m| == |MessageHead| + |fullName| + |MessageTail|
    ensures m[..|MessageHead|] == MessageHead
    ensures m[|MessageHead|..|MessageHead| + |fullName|] == fullName
    ensures m[|MessageHead| + |fullName|..] == MessageTail
  {
    MessageHead + fullName + MessageTail
  }

  /** Different names give different notices: the text identifies the student. */
  lemma MessageNamesTheStudent(a: string, b: string)
    requires Message(a) == Message(b)
    ensures a == b
  {
    assert |a| == |b|;
    assert a == Message(a)[|MessageHead|..|MessageHead| + |a|];
  }

  /** The selection filter: due on or before today and IN_PROGRESS. */
  predicate Due(t: Target, today: DateTime) {
    Le(t.dueDate, today) && t.status == IN_PROGRESS
  }

  /** The selected target ids below `n`, in ascending id order. */
  function SelectBelow(s: Store, today: DateTime, n: nat): (r: seq<nat>)
    ensures forall i, j :: 0 <= i < j < |r| ==> r[i] < r[j]
    ensures forall i :: 0 <= i < |r| ==> r[i] < n
    ensures forall k :: k in r <==> k < n && k in s.targets && Due(s.targets[k], today)
    decreases n
  {
    if n == 0 then []
    else
      var prev := SelectBelow(s, today, n - 1);
      if (n - 1) in s.targets && Due(s.targets[n - 1], today) then prev + [n - 1] else prev
  }

  function Selected(s: Store, today: DateTime): seq<nat> {
    SelectBelow(s, today, s.nextId)
  }

  /** The sweep picks exactly the overdue IN_PROGRESS targets; a PENDING one is never picked. */
  lemma SelectionIsExact(s: Store, today: DateTime, k: nat)
    requires Valid(s)
    ensures k in Selected(s, today) <==> k in s.targets && Le(s.targets[k].dueDate, today) && s.targets[k].status == IN_PROGRESS
    ensures k in s.targets && s.targets[k].status == PENDING ==> k !in Selected(s, today)
  {
    if k in s.targets {
      assert k < s.nextId;
    }
  }

  /** What the sweep sends: a notification row, a WhatsApp message or an e-mail. */
  datatype Event =
    | InApp(userId: nat, message: string, title: string)
    | WhatsApp(to: string, message: string)
    | Email(to: string, subject: string, text: string)

  /** The parent's user id, when the student's parent relation resolves. */
  function ParentUser(s: Store, st: Student): Option<nat> {
    if st.parentId.Some? && st.parentId.value in s.parents
       && s.parents[st.parentId.value].userId in s.users && s.parents[st.parentId.value].userId != 0
    then Some(s.parents[st.parentId.value].userId)
    else None
  }

  /**
    The teacher's user id, reached through the student's halaqa as it is
    now, not through the halaqa recorded on the target.
   */
  function TeacherUser(s: Store, st: Student): Option<nat> {
    if st.halaqaId.Some? && st.halaqaId.value in s.halaqas
       && s.halaqas[st.halaqaId.value].teacherId in s.teachers
       && s.teachers[s.halaqas[st.halaqaId.value].teacherId].userId in s.users
       && s.teachers[s.halaqas[st.halaqaId.value].teacherId].userId != 0
    then Some(s.teachers[s.halaqas[st.halaqaId.value].teacherId].userId)
    else None
  }

  /** The target's student and its user exist; otherwise reading the name throws. */
  predicate Resolves(s: Store, k: nat) {
    k in s.targets && s.targets[k].studentId in s.students
    && s.students[s.targets[k].studentId].userId in s.users
  }

  /** The in-app notices for one target: student, then parent, then teacher. */
  function Notices(s: Store, k: nat): (r: seq<Event>)
    requires Resolves(s, k)
    ensures 1 <= |r| <= 3
  {
    var st := s.students[s.targets[k].studentId];
    var u := s.users[st.userId];
    var msg := Message(u.fullName);
    [InApp(st.userId, msg, Title)]
      + (if ParentUser(s, st).Some? then [InApp(ParentUser(s, st).value, msg, Title)] else [])
      + (if TeacherUser(s, st).Some? then [InApp(TeacherUser(s, st).value, msg, Title)] else [])
  }

  /** The WhatsApp message and the e-mail to the student of target `k`. */
  function Sends(s: Store, k: nat): (r: seq<Event>)
    requires Resolves(s, k)
    ensures |r| == 2 && r[0].WhatsApp? && r[1].Email?
  {
    var u := s.users[s.students[s.targets[k].studentId].userId];
    [WhatsApp(u.phone, Message(u.fullName)), Email(u.email, Title, Message(u.fullName))]
  }

  /** The events of a sweep and whether it ended early with an exception. */
  datatype Outcome = Outcome(events: seq<Event>, aborted: bool)

  /**
    The reference meaning of the sweep over `ids`, one target after another.
    `whatsAppOk(k)` says whether the WhatsApp send for target `k` succeeds.
   */
  function SweepOver(s: Store, ids: seq<nat>, whatsAppOk: nat -> bool): Outcome
    decreases |ids|
  {
    if |ids| == 0 then Outcome([], false)
    else
      var k := ids[0];
      if !Resolves(s, k) then Outcome([], true)
      else if !whatsAppOk(k) then Outcome(Notices(s, k), true)
      else
        var rest := SweepOver(s, ids[1..], whatsAppOk);
        Outcome(Notices(s, k) + Sends(s, k) + rest.events, rest.aborted)
  }

  function Prepend(e: seq<Event>, o: Outcome): Outcome {
    Outcome(e + o.events, o.aborted)
  }

  lemma PrependTwice(a: seq<Event>, b: seq<Event>, o: Outcome)
    ensures Prepend(a + b, o) == Prepend(a, Prepend(b, o))
  {
    assert a + b + o.events == a + (b + o.events);
  }

  /** The sweep run as a loop over the selection. */
  method Run(s: Store, today: DateTime, whatsAppOk: nat -> bool) returns (events: seq<Event>, aborted: bool)
    ensures Outcome(events, aborted) == SweepOver(s, Selected(s, today), whatsAppOk)
  {
    var ids := Selected(s, today);
    events := [];
    aborted := false;
    var i := 0;
    while i < |ids|
      invariant 0 <= i <= |ids|
      invariant Prepend(events, SweepOver(s, ids[i..], whatsAppOk)) == SweepOver(s, ids, whatsAppOk)
    {
      var k := ids[i];
      assert ids[i..][0] == k && ids[i..][1..] == ids[i + 1..];
      if !Resolves(s, k) {
        aborted := true;
        return;
      }
      if !whatsAppOk(k) {
        events := events + Notices(s, k);
        aborted := true;
        return;
      }
      var sent := Notices(s, k) + Sends(s, k);
      PrependTwice(events, sent, SweepOver(s, ids[i + 1..], whatsAppOk));
      events := events + sent;
      i := i + 1;
    }
    assert ids[i..] == [];
  }

  /**
    Without an abort, every selected target's student receives the in-app
    notice with the student's own name.
   */
  lemma {:induction false} EveryStudentNotified(s: Store, ids: seq<nat>, whatsAppOk: nat -> bool, k: nat)
    requires !SweepOver(s, ids, whatsAppOk).aborted
    requires k in ids
    ensures Resolves(s, k)
    ensures var st := s.students[s.targets[k].studentId];
      InApp(st.userId, Message(s.users[st.userId].fullName), Title) in SweepOver(s, ids, whatsAppOk).events
  {
    var k0 := ids[0];
    assert Resolves(s, k0) && whatsAppOk(k0);
    var rest := SweepOver(s, ids[1..], whatsAppOk);
    if k == k0 {
      assert Notices(s, k)[0] in SweepOver(s, ids, whatsAppOk).events;
    } else {
      assert k in ids[1..];
      EveryStudentNotified(s, ids[1..], whatsAppOk, k);
      var st := s.students[s.targets[k].studentId];
      var e := InApp(st.userId, Message(s.users[st.userId].fullName), Title);
      assert e in rest.events;
    }
  }

  /**
    The parent gets a notice exactly when the parent relation resolves to a
    user, and the teacher exactly when the current halaqa's teacher does.
   */
  lemma NoticeRecipients(s: Store, k: nat)
    requires Resolves(s, k)
    ensures var st := s.students[s.targets[k].studentId];
      |Notices(s, k)| == 1 + (if ParentUser(s, st).Some? then 1 else 0) + (if TeacherUser(s, st).Some? then 1 else 0)
    ensures var st := s.students[s.targets[k].studentId];
      ParentUser(s, st).Some? ==> InApp(ParentUser(s, st).value, Message(s.users[st.userId].fullName), Title) in Notices(s, k)
    ensures var st := s.students[s.targets[k].studentId];
      TeacherUser(s, st).Some? ==> InApp(TeacherUser(s, st).value, Message(s.users[st.userId].fullName), Title) in Notices(s, k)
    ensures forall e :: e in Notices(s, k) ==>
      (e.InApp? && e.title == Title
       && e.message == Message(s.users[s.students[s.targets[k].studentId].userId].fullName))
  {
  }

  /**
    Once a WhatsApp send fails, the sweep ends: the outcome is that of the
    targets up to and including the failing one, and later targets get nothing.
   */
  lemma {:induction false} FailedWhatsAppStopsSweep(s: Store, ids: seq<nat>, whatsAppOk: nat -> bool, j: nat)
    requires j < |ids| && Resolves(s, ids[j]) && !whatsAppOk(ids[j])
    ensures SweepOver(s, ids, whatsAppOk) == SweepOver(s, ids[..j + 1], whatsAppOk)
    ensures SweepOver(s, ids, whatsAppOk).aborted
  {
    if j == 0 {
      assert ids[..1][0] == ids[0];
    } else {
      assert ids[..j + 1][0] == ids[0];
      assert ids[..j + 1][1..] == ids[1..][..j];
      FailedWhatsAppStopsSweep(s, ids[1..], whatsAppOk, j - 1);
    }
  }
}
