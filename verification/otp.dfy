/**
  One-time codes. Every code-issuing action inserts a row that expires two
  minutes after `now`; every check reads only the user's most recent row by
  creation time. Rows are not tagged with a purpose, so the e-mail, phone and
  password-reset flows all read the same "latest" row.
 */
module Otp {
  import opened Js
  import opened Store

  /** `2 * 60 * 1000` milliseconds. */
  const LifetimeMs: int := 120_000

  /**
    `a` is at least as recent as `b`: created later, or at the same instant
    with an id at least as large (the order the database leaves open for ties
    is taken to be insertion order).
   */
  predicate AtLeastAsRecent(otps: map<nat, OneTimeCode>, a: nat, b: nat)
    requires a in otps && b in otps
  {
    otps[a].createdAt > otps[b].createdAt || (otps[a].createdAt == otps[b].createdAt && a >= b)
  }

  /** `findFirst({ where: { userId }, orderBy: { createdAt: "desc" } })` over ids below `n`. */
  function LatestBelow(otps: map<nat, OneTimeCode>, userId: nat, n: nat): (r: Option<nat>)
    ensures r.Some? ==> r.value < n && r.value in otps && otps[r.value].userId == userId
    ensures r.Some? ==> forall k :: k < n && k in otps && otps[k].userId == userId ==> AtLeastAsRecent(otps, r.value, k)
    ensures r.None? ==> forall k :: k < n && k in otps ==> otps[k].userId != userId
    decreases n
  {
    if n == 0 then None
    else
      var prev := LatestBelow(otps, userId, n - 1);
      var k := n - 1;
      if k in otps && otps[k].userId == userId && (prev.None? || otps[k].createdAt >= otps[prev.value].createdAt)
      then Some(k)
      else prev
  }

  function Latest(s: Store, userId: nat): Option<nat> {
    LatestBelow(s.otps, userId, s.nextId)
  }

  /** With every id below the counter, the latest row exists exactly when the user has any row. */
  lemma LatestExists(s: Store, userId: nat)
    requires Valid(s)
    ensures Latest(s, userId).Some? <==> exists k :: k in s.otps && s.otps[k].userId == userId
  {
    if Latest(s, userId).None? {
      forall k | k in s.otps
        ensures s.otps[k].userId != userId
      {
        assert k < s.nextId;
      }
    }
  }

  /**
    `prisma.oTP.create({ code, expiresAt: now + 2 min, userId })`: the new row
    takes the next id and is not yet verified.
   */
  function Issue(s: Store, userId: nat, code: string, now: int): (r: Store)
    ensures r.nextId == s.nextId + 1
    ensures r.otps.Keys == s.otps.Keys + {s.nextId}
    ensures r.otps[s.nextId] == OneTimeCode(userId, code, now + LifetimeMs, now, false)
    ensures forall k :: k in s.otps && k != s.nextId ==> r.otps[k] == s.otps[k]
    ensures r == s.(otps := r.otps, nextId := r.nextId)
  {
    s.(otps := s.otps[s.nextId := OneTimeCode(userId, code, now + LifetimeMs, now, false)], nextId := s.nextId + 1)
  }

  /**
    Only the owner and creation time of the rows below `n` decide the latest
    row below `n`: rows at or above `n`, codes and verified flags do not.
   */
  lemma {:induction false} LatestBelowFrame(a: map<nat, OneTimeCode>, b: map<nat, OneTimeCode>, userId: nat, n: nat)
    requires forall k :: k < n ==> (k in a <==> k in b)
    requires forall k :: k < n && k in a ==> a[k].userId == b[k].userId && a[k].createdAt == b[k].createdAt
    ensures LatestBelow(a, userId, n) == LatestBelow(b, userId, n)
  {
    if n > 0 {
      LatestBelowFrame(a, b, userId, n - 1);
    }
  }

  /**
    With a clock that never runs backwards (no stored row was created after
    `now`), a freshly issued code becomes the user's latest code.
   */
  lemma IssueBecomesLatest(s: Store, userId: nat, code: string, now: int)
    requires Valid(s)
    requires forall k :: k in s.otps ==> s.otps[k].createdAt <= now
    ensures Latest(Issue(s, userId, code, now), userId) == Some(s.nextId)
  {
    var s' := Issue(s, userId, code, now);
    LatestBelowFrame(s.otps, s'.otps, userId, s.nextId);
  }

  /** Issuing a code for one user leaves every other user's latest code where it was. */
  lemma IssueKeepsOthersLatest(s: Store, userId: nat, other: nat, code: string, now: int)
    requires Valid(s) && other != userId
    ensures Latest(Issue(s, userId, code, now), other) == Latest(s, other)
  {
    var s' := Issue(s, userId, code, now);
    LatestBelowFrame(s.otps, s'.otps, other, s.nextId);
    assert KeysBelow(s.otps, s.nextId);
  }

  /** `expiresAt.getTime() < Date.now()`: a code is still good at exactly its expiry instant. */
  predicate Expired(o: OneTimeCode, now: int) {
    o.expiresAt < now
  }

  lemma FreshCodeLivesTwoMinutes(s: Store, userId: nat, code: string, now: int, later: int)
    ensures !Expired(Issue(s, userId, code, now).otps[s.nextId], later) <==> later <= now + LifetimeMs
  {
  }

  /** Outcome of checking a submitted code against the latest row. */
  datatype Check = NoCode | ExpiredCode(id: nat) | WrongCode(id: nat) | Matched(id: nat)

  /** The shared lookup, expiry and comparison steps of the verify handlers. */
  function CheckCode(s: Store, userId: nat, code: string, now: int): (r: Check)
    ensures r.NoCode? <==> Latest(s, userId).None?
    ensures !r.NoCode? ==> Latest(s, userId) == Some(r.id)
    ensures r.ExpiredCode? <==> Latest(s, userId).Some? && Expired(s.otps[Latest(s, userId).value], now)
    ensures r.Matched? <==> Latest(s, userId).Some? && !Expired(s.otps[r.id], now) && s.otps[r.id].code == code
  {
    match Latest(s, userId)
    case None => NoCode
    case Some(id) =>
      if Expired(s.otps[id], now) then ExpiredCode(id)
      else if s.otps[id].code != code then WrongCode(id)
      else Matched(id)
  }

  /** `prisma.oTP.delete({ where: { id } })`. */
  function DeleteOtp(s: Store, id: nat): (r: Store)
    ensures r.otps.Keys == s.otps.Keys - {id}
    ensures forall k :: k in r.otps ==> r.otps[k] == s.otps[k]
    ensures r == s.(otps := r.otps)
  {
    s.(otps := s.otps - {id})
  }

  /** `prisma.oTP.update({ where: { id }, data: { isVerified: true } })`. */
  function MarkVerified(s: Store, id: nat): (r: Store)
    ensures r.otps.Keys == s.otps.Keys
    ensures id in s.otps ==> r.otps[id].isVerified && r.otps[id].(isVerified := false) == s.otps[id].(isVerified := false)
    ensures forall k :: k in s.otps && k != id ==> r.otps[k] == s.otps[k]
    ensures r == s.(otps := r.otps)
  {
    if id in s.otps then s.(otps := s.otps[id := s.otps[id].(isVerified := true)]) else s
  }
}
