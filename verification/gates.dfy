/**
  The two request gates every protected route passes: `authenticationMiddleware`
  (bearer token from the Authorization header, 401 on any problem) and
  `authorized(roles)` (the caller's role must be in the route's list, 403
  otherwise). A gate either lets the request through (`next()`) or answers it.
 */
module Gates {
  import opened Js
  import opened Store

  const LoginFirst: string := "Please log in to continue"
  const Unauthorized: string := "Unauthorized"
  const Forbidden: string := "Forbidden: looma ogala doorkaga inuu arko qaybtan"

  /** The first index of `c` in `s`. */
  function IndexOf(s: string, c: char): (r: Option<nat>)
    ensures r.Some? ==> r.value < |s| && s[r.value] == c && forall j :: 0 <= j < r.value ==> s[j] != c
    ensures r.None? ==> forall j :: 0 <= j < |s| ==> s[j] != c
  {
    if |s| == 0 then None
    else if s[0] == c then Some(0)
    else match IndexOf(s[1..], c)
      case None => None
      case Some(i) => Some(i + 1)
  }

  /** `s.split(" ")`: the pieces between single spaces, empty pieces included. */
  function Split(s: string): (r: seq<string>)
    ensures |r| >= 1
    decreases |s|
  {
    match IndexOf(s, ' ')
    case None => [s]
    case Some(i) => [s[..i]] + Split(s[i + 1..])
  }

  predicate NoSpace(s: string) {
    forall i :: 0 <= i < |s| ==> s[i] != ' '
  }

  /** `split(" ")[1]`: `None` stands for `undefined` when there is no space at all. */
  function SecondPiece(h: string): Option<string> {
    var pieces := Split(h);
    if |pieces| > 1 then Some(pieces[1]) else None
  }

  lemma SplitWithoutSpace(s: string)
    requires NoSpace(s)
    ensures Split(s) == [s]
  {
  }

  lemma SplitAtFirstSpace(w: string, rest: string)
    requires NoSpace(w)
    ensures Split(w + " " + rest) == [w] + Split(rest)
  {
    var h := w + " " + rest;
    assert h[|w|] == ' ';
    assert forall j :: 0 <= j < |w| ==> h[j] == w[j];
    assert IndexOf(h, ' ') == Some(|w|);
    assert h[..|w|] == w;
    assert h[|w| + 1..] == rest;
  }

  /**
    For a header "<scheme> <token>" with no further spaces, the token is the
    second piece, whatever the scheme word is.
   */
  lemma TokenIsSecondWord(scheme: string, token: string)
    requires NoSpace(scheme) && NoSpace(token)
    ensures SecondPiece(scheme + " " + token) == Some(token)
  {
    SplitAtFirstSpace(scheme, token);
    SplitWithoutSpace(token);
  }

  /** A header without any space has no second piece. */
  lemma NoSpaceNoToken(h: string)
    requires NoSpace(h)
    ensures SecondPiece(h).None?
  {
    SplitWithoutSpace(h);
  }

  /** What `jwt.verify` makes of a token: it throws, or yields a payload that may carry a user id. */
  datatype Decoded = Rejected | Payload(userId: Option<nat>)

  datatype Gate = Next(userId: Option<nat>) | Deny(status: int, message: string)

  /** The token `authenticationMiddleware` checks, if the header yields a non-empty one. */
  function BearerToken(header: Option<string>): Option<string> {
    if header.None? || header.value == "" then None
    else match SecondPiece(header.value)
      case None => None
      case Some(t) => if t == "" then None else Some(t)
  }

  /**
    `authenticationMiddleware`. Every failure is a 401, never a 500; the
    request goes on exactly when the header yields a token the verifier
    accepts, and then carries the payload's user id.
   */
  function Authenticate(header: Option<string>, verify: string -> Decoded): (r: Gate)
    ensures r.Deny? ==> r.status == 401
    ensures r.Next? <==> BearerToken(header).Some? && verify(BearerToken(header).value).Payload?
    ensures r.Next? ==> r.userId == verify(BearerToken(header).value).userId
    ensures header.None? ==> r == Deny(401, LoginFirst)
  {
    if header.None? || header.value == "" then Deny(401, LoginFirst)
    else match SecondPiece(header.value)
      case None => Deny(401, LoginFirst)
      case Some(token) =>
        if token == "" then Deny(401, LoginFirst)
        else match verify(token)
          case Rejected => Deny(401, Unauthorized)
          case Payload(id) => Next(id)
  }

  /** Any scheme word is accepted in front of a good token: "Basic t" passes like "Bearer t". */
  lemma SchemeWordNotChecked(scheme: string, token: string, verify: string -> Decoded)
    requires NoSpace(scheme) && NoSpace(token) && token != ""
    ensures Authenticate(Some(scheme + " " + token), verify)
         == Authenticate(Some("Bearer " + token), verify)
  {
    TokenIsSecondWord(scheme, token);
    TokenIsSecondWord("Bearer", token);
    assert "Bearer" + " " + token == "Bearer " + token;
  }

  /**
    `authorized(roles)`: a failing lookup is the generic 500; an unknown user
    is 401; a role outside the list is 403; otherwise the request goes on
    with the same user id. A missing id matches the first account
    (`Store.UserById`).
   */
  function Authorize(roles: seq<Role>, s: Store, userId: Option<nat>, lookupThrows: bool): (r: Gate)
    ensures r.Next? <==> !lookupThrows && UserById(s, userId).Some? && s.users[UserById(s, userId).value].role in roles
    ensures r.Next? ==> r.userId == userId
    ensures !lookupThrows && UserById(s, userId).None? ==> r == Deny(401, LoginFirst)
    ensures !lookupThrows && UserById(s, userId).Some? && s.users[UserById(s, userId).value].role !in roles
      ==> r == Deny(403, Forbidden)
    ensures lookupThrows ==> r == Deny(500, ServerError)
  {
    if lookupThrows then Deny(500, ServerError)
    else match UserById(s, userId)
      case None => Deny(401, LoginFirst)
      case Some(id) =>
        if s.users[id].role !in roles then Deny(403, Forbidden)
        else Next(userId)
  }

  /** The role lists the routes configure. */
  const AdminOnly: seq<Role> := [ADMIN]
  const AdminOrTeacher: seq<Role> := [ADMIN, TEACHER]
  const AdminParentOrTeacher: seq<Role> := [ADMIN, PARENT, TEACHER]

  /** The two gates in sequence, as a protected route runs them. */
  function Protect(roles: seq<Role>, s: Store, header: Option<string>, verify: string -> Decoded, lookupThrows: bool): (r: Gate)
    ensures r.Next? <==>
      Authenticate(header, verify).Next? && Authorize(roles, s, Authenticate(header, verify).userId, lookupThrows).Next?
    ensures Authenticate(header, verify).Deny? ==> r == Authenticate(header, verify)
  {
    match Authenticate(header, verify)
    case Deny(st, m) => Deny(st, m)
    case Next(id) => Authorize(roles, s, id, lookupThrows)
  }

  /** No caller whose token names a student, parent or teacher gets past an admin-only route. */
  lemma AdminOnlyKeepsOthersOut(s: Store, header: Option<string>, verify: string -> Decoded, id: nat)
    requires Authenticate(header, verify) == Next(Some(id))
    requires id in s.users && s.users[id].role != ADMIN
    ensures Protect(AdminOnly, s, header, verify, false) == Deny(403, Forbidden)
  {
  }

  /**
    For a caller with a good token and an account, the admin-or-teacher
    routes turn away exactly parents and students, and the routes that also
    admit parents turn away exactly students.
   */
  lemma RoleListsAdmit(s: Store, header: Option<string>, verify: string -> Decoded, id: nat)
    requires Authenticate(header, verify) == Next(Some(id))
    requires id in s.users
    ensures Protect(AdminOrTeacher, s, header, verify, false).Next?
        <==> s.users[id].role == ADMIN || s.users[id].role == TEACHER
    ensures Protect(AdminParentOrTeacher, s, header, verify, false).Next?
        <==> s.users[id].role != STUDENT
    ensures !Protect(AdminParentOrTeacher, s, header, verify, false).Next?
        ==> Protect(AdminParentOrTeacher, s, header, verify, false) == Deny(403, Forbidden)
  {
  }
}
