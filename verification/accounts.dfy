/**
  The account handlers of `auth.controller.ts`: registration, login, the
  soft-delete and restore flags, role change, password change, the one-time
  code flows (issue, verify e-mail, verify phone, verify reset code, reset
  password) and the user list counts.
 */
module Accounts {
  import opened Js
  import opened Crypto
  import opened Store
  import Otp
  import Paging

  const Fill: string := "Please fill all inputs "
  const EmailExists: string := "email already exist"
  const PasswordMismatch: string := "The password must match confirm password"
  const Created: string := "Successfully Created"
  const BadCredentials: string := "email or password incorrect"
  const Disabled: string := "Your account is disabled. Contact the administrator to reactivate it."

  // ---------------------------------------------------------------- register

  datatype RegisterRequest = RegisterRequest(
    name: Field<string>,
    email: Field<string>,
    password: Field<string>,
    confirm: Field<string>,
    phone: Field<string>,
    role: Field<string>)

  predicate RegisterComplete(q: RegisterRequest) {
    TruthyStr(q.confirm) && TruthyStr(q.name) && TruthyStr(q.password)
    && TruthyStr(q.phone) && TruthyStr(q.role) && TruthyStr(q.email)
  }

  /** The account `registerUser` stores: the password only as its hash, active, nothing verified. */
  function NewAccount(q: RegisterRequest, role: Role): User
    requires RegisterComplete(q)
  {
    User(q.email.value, q.phone.value, q.name.value, role, Hash(q.password.value), true, false, false)
  }

  /**
    `registerUser`. The checks run in this order: all six fields, e-mail
    taken, phone taken (reported with the e-mail message), confirmation equal
    to password; a role the database enum does not know makes the insert
    throw. Only a request passing all of them adds a row, with status 201.
   */
  function Register(s: Store, q: RegisterRequest): (r: Reply)
    requires Valid(s)
    ensures Valid(r.store)
    ensures r.status == 201 <==>
      RegisterComplete(q) && !EmailTaken(s, q.email.value) && !PhoneTaken(s, q.phone.value)
      && q.confirm.value == q.password.value && ParseRole(q.role.value).Some?
    ensures r.status != 201 ==> r.store == s
    ensures r.status == 201 ==>
      r.store == s.(users := s.users[s.nextId := NewAccount(q, ParseRole(q.role.value).value)], nextId := s.nextId + 1)
    ensures !RegisterComplete(q) ==> r.status == 400 && r.message == Fill
  {
    if !RegisterComplete(q) then Reply(s, 400, Fill)
    else if EmailTaken(s, q.email.value) then Reply(s, 400, EmailExists)
    else if PhoneTaken(s, q.phone.value) then Reply(s, 400, EmailExists)
    else if q.confirm.value != q.password.value then Reply(s, 400, PasswordMismatch)
    else match ParseRole(q.role.value)
      case None => Fail500(s)
      case Some(role) =>
        Reply(s.(users := s.users[s.nextId := NewAccount(q, role)], nextId := s.nextId + 1), 201, Created)
  }

  /** A duplicate e-mail is reported first, whatever else is wrong with the request. */
  lemma RegisterReportsEmailFirst(s: Store, q: RegisterRequest)
    requires Valid(s) && RegisterComplete(q) && EmailTaken(s, q.email.value)
    ensures Register(s, q) == Reply(s, 400, EmailExists)
  {
  }

  /** A duplicate phone is reported before a mismatched confirmation, and with the e-mail message. */
  lemma RegisterReportsPhoneBeforeMismatch(s: Store, q: RegisterRequest)
    requires Valid(s) && RegisterComplete(q) && !EmailTaken(s, q.email.value) && PhoneTaken(s, q.phone.value)
    ensures Register(s, q) == Reply(s, 400, EmailExists)
  {
  }

  /**
    After a successful registration the stored credential verifies the
    submitted password and no other string, and e-mail and phone are taken.
   */
  lemma RegisterStoresOnlyTheHash(s: Store, q: RegisterRequest, other: string)
    requires Valid(s) && Register(s, q).status == 201
    ensures Verify(Register(s, q).store.users[s.nextId].password, q.password.value)
    ensures other != q.password.value ==> !Verify(Register(s, q).store.users[s.nextId].password, other)
    ensures EmailTaken(Register(s, q).store, q.email.value) && PhoneTaken(Register(s, q).store, q.phone.value)
  {
    var u := Register(s, q).store.users[s.nextId];
    assert u.email == q.email.value && u.phone == q.phone.value;
  }

  /**
    Registration does not consult the sign-up schema, so it accepts the
    ADMIN role: anyone can create an administrator account.
   */
  lemma RegisterAcceptsAdmin(s: Store, q: RegisterRequest)
    requires Valid(s) && RegisterComplete(q) && q.role.value == "ADMIN"
    requires !EmailTaken(s, q.email.value) && !PhoneTaken(s, q.phone.value)
    requires q.confirm.value == q.password.value
    ensures Register(s, q).status == 201
    ensures Register(s, q).store.users[s.nextId].role == ADMIN
  {
  }

  // ---------------------------------------------------------------- login

  /** The user object login returns: every column except the password. */
  datatype PublicUser = PublicUser(
    id: nat,
    email: string,
    phone: string,
    fullName: string,
    role: Role,
    isActive: bool,
    isEmailVerify: bool,
    isPhoneVerify: bool)

  function WithoutPassword(id: nat, u: User): PublicUser {
    PublicUser(id, u.email, u.phone, u.fullName, u.role, u.isActive, u.isEmailVerify, u.isPhoneVerify)
  }

  datatype LoginReply = LoginReply(status: int, message: string, user: Option<PublicUser>, token: Option<Token>)

  /**
    `loginUser`: the first account with the e-mail; the password is checked
    before the disabled flag, and an unknown e-mail and a wrong password get
    the same answer. Login changes nothing in the store.
   */
  function Login(s: Store, email: Field<string>, password: Field<string>): (r: LoginReply)
    ensures r.status == 200 <==>
      TruthyStr(email) && TruthyStr(password) && UserByEmail(s, email.value).Some?
      && Verify(s.users[UserByEmail(s, email.value).value].password, password.value)
      && s.users[UserByEmail(s, email.value).value].isActive
    ensures r.status == 200 ==>
      var id := UserByEmail(s, email.value).value;
      r.user == Some(WithoutPassword(id, s.users[id])) && r.token == Some(Sign(id))
    ensures r.status != 200 ==> r.status == 400 && r.user.None? && r.token.None?
  {
    if !TruthyStr(email) || !TruthyStr(password) then LoginReply(400, Fill, None, None)
    else match UserByEmail(s, email.value)
      case None => LoginReply(400, BadCredentials, None, None)
      case Some(id) =>
        var u := s.users[id];
        if !Verify(u.password, password.value) then LoginReply(400, BadCredentials, None, None)
        else if !u.isActive then LoginReply(400, Disabled, None, None)
        else LoginReply(200, "Successfully Login", Some(WithoutPassword(id, u)), Some(Sign(id)))
  }

  /** No account enumeration: an unknown e-mail and a wrong password are answered identically. */
  lemma LoginHidesWhichCredentialFailed(s: Store, email: string, password: string)
    requires Valid(s) && email != "" && password != ""
    requires !EmailTaken(s, email)
      || !Verify(s.users[UserByEmail(s, email).value].password, password)
    ensures Login(s, Present(email), Present(password)) == LoginReply(400, BadCredentials, None, None)
  {
    UserByEmailFinds(s, email);
  }

  /** A disabled account is reported as disabled only to someone who knows its password. */
  lemma LoginDisabledOnlyAfterPassword(s: Store, email: string, password: string)
    requires Valid(s) && email != "" && password != ""
    requires EmailTaken(s, email) && !s.users[UserByEmail(s, email).value].isActive
    ensures Login(s, Present(email), Present(password)).message == Disabled
      <==> Verify(s.users[UserByEmail(s, email).value].password, password)
  {
    UserByEmailFinds(s, email);
  }

  // ---------------------------------------------------------------- soft delete, restore, role

  /**
    `userDeleteTemporery`, as written: it refuses an ACTIVE user ("already
    deleted") and otherwise writes `isActive: false` onto a user that is
    already inactive. The guard is inverted, so the store never changes.
   */
  function DeleteTemporary(s: Store, id: nat): (r: Reply)
    ensures r.store == s
    ensures r.status == 200 <==> id in s.users && !s.users[id].isActive
    ensures id !in s.users ==> r.status == 404
    ensures id in s.users && s.users[id].isActive ==> r.status == 400
  {
    if id !in s.users then Reply(s, 404, "user not found")
    else if s.users[id].isActive then Reply(s, 400, "user already deleted")
    else Reply(s.(users := s.users[id := s.users[id].(isActive := false)]), 200, "user successfully deleted")
  }

  /** The deactivation the handler evidently intends: an active user becomes inactive, nothing else changes. */
  function DeleteTemporaryIntended(s: Store, id: nat): (r: Reply)
    ensures r.status == 200 <==> id in s.users && s.users[id].isActive
    ensures r.status == 200 ==> r.store == s.(users := s.users[id := s.users[id].(isActive := false)])
    ensures r.status != 200 ==> r.store == s
  {
    if id !in s.users then Reply(s, 404, "user not found")
    else if !s.users[id].isActive then Reply(s, 400, "user already deleted")
    else Reply(s.(users := s.users[id := s.users[id].(isActive := false)]), 200, "user successfully deleted")
  }

  /** The two differ on every active user: the intended version deactivates it, the written one refuses. */
  lemma DeleteTemporaryNeverDeactivates(s: Store, id: nat)
    requires id in s.users && s.users[id].isActive
    ensures DeleteTemporary(s, id).status == 400 && DeleteTemporary(s, id).store.users[id].isActive
    ensures DeleteTemporaryIntended(s, id).status == 200 && !DeleteTemporaryIntended(s, id).store.users[id].isActive
  {
  }

  /**
    `restorUser`: id 0 is "not provided" (404), an active user is refused
    (404), a missing user makes the update throw (500); otherwise the user
    becomes active and nothing else changes.
   */
  function Restore(s: Store, id: nat): (r: Reply)
    ensures r.status == 200 <==> id != 0 && id in s.users && !s.users[id].isActive
    ensures r.status == 200 ==> r.store == s.(users := s.users[id := s.users[id].(isActive := true)])
    ensures r.status != 200 ==> r.store == s
    ensures id != 0 && id !in s.users ==> r.status == 500
  {
    if id == 0 then Reply(s, 404, "you must provide ID")
    else if id in s.users && s.users[id].isActive then Reply(s, 404, "user already is not deleted")
    else if id !in s.users then Fail500(s)
    else Reply(s.(users := s.users[id := s.users[id].(isActive := true)]), 200, "user seccessfully restored")
  }

  /** Restoring is idempotent: a second restore is refused and changes nothing. */
  lemma RestoreIdempotent(s: Store, id: nat)
    requires Restore(s, id).status == 200
    ensures Restore(Restore(s, id).store, id) == Reply(Restore(s, id).store, 404, "user already is not deleted")
  {
  }

  /** A body field used as a query value: a present value, otherwise `undefined`. */
  function AsQuery(f: Field<nat>): Option<nat> {
    if f.Present? then Some(f.value) else None
  }

  /**
    The role an update writes for `data.role as Role`: an absent role leaves
    the column as it is, and a `null` or a name outside the enum makes the
    update throw (`None`).
   */
  function NewRole(f: Field<string>, current: Role): (r: Option<Role>)
    ensures f.Undefined? ==> r == Some(current)
    ensures f.Null? ==> r.None?
    ensures f.Present? ==> (r.Some? <==> f.value in {"ADMIN", "TEACHER", "STUDENT", "PARENT"})
    ensures f.Present? && r.Some? ==> RoleName(r.value) == f.value
  {
    match f
    case Undefined => Some(current)
    case Null => None
    case Present(name) => ParseRole(name)
  }

  /**
    `changeRole`. A `null` id is refused. An absent id is dropped from the
    lookup, so the first account is found, and the update then throws for
    want of a unique key. A missing user is 404 and the current role is
    refused with 400. An absent role leaves the row as it is (Prisma drops
    `undefined` data), and a `null` or unknown role makes the update throw.
   */
  function ChangeRole(s: Store, id: Field<nat>, role: Field<string>): (r: Reply)
    ensures id.Null? ==> r == Reply(s, 400, "user ID is not provided")
    ensures id.Present? && id.value !in s.users ==> r == Reply(s, 404, "user not found")
    ensures id.Present? && id.value in s.users && role.Present? && role.value == RoleName(s.users[id.value].role)
      ==> r.status == 400 && r.store == s
    ensures id.Present? && id.value in s.users && role.Present? && ParseRole(role.value).Some?
      && ParseRole(role.value).value != s.users[id.value].role
      ==> r.status == 200 && r.store == s.(users := s.users[id.value := s.users[id.value].(role := ParseRole(role.value).value)])
    ensures r.status == 200 ==>
      id.Present? && id.value in s.users && !role.Null?
      && (role.Present? ==> ParseRole(role.value).Some? && ParseRole(role.value).value != s.users[id.value].role)
    ensures role.Undefined? && r.status == 200 ==> r.store == s
    ensures id.Undefined? && UserById(s, None).Some?
      && !(role.Present? && role.value == RoleName(s.users[UserById(s, None).value].role))
      ==> r == Fail500(s)
    ensures r.status != 200 ==> r.store == s
    ensures r.store.users.Keys == s.users.Keys
    ensures forall k :: k in s.users ==> r.store.users[k].(role := s.users[k].role) == s.users[k]
  {
    if id.Null? then Reply(s, 400, "user ID is not provided")
    else match UserById(s, AsQuery(id))
      case None => Reply(s, 404, "user not found")
      case Some(uid) =>
        var u := s.users[uid];
        if role.Present? && role.value == RoleName(u.role) then Reply(s, 400, "user role is already " + role.value)
        else if id.Undefined? then Fail500(s)
        else match role
          case Undefined => Reply(s, 200, "user successfully changes role to: undefined")
          case Null => Fail500(s)
          case Present(name) =>
            match ParseRole(name)
            case None => Fail500(s)
            case Some(newRole) =>
              Reply(s.(users := s.users[uid := u.(role := newRole)]), 200, "user successfully changes role to: " + name)
  }

  /** Changing a user's role and then changing it back restores the store. */
  lemma ChangeRoleBack(s: Store, id: nat, name: string)
    requires ChangeRole(s, Present(id), Present(name)).status == 200
    ensures var before := RoleName(s.users[id].role);
      ChangeRole(ChangeRole(s, Present(id), Present(name)).store, Present(id), Present(before))
        == Reply(s, 200, "user successfully changes role to: " + before)
  {
    var u := s.users[id];
    var newRole := ParseRole(name).value;
    ParseRoleRoundTrip(u.role);
    assert RoleName(newRole) == name;
    assert s.users[id := u.(role := newRole)][id := u] == s.users;
  }

  // ---------------------------------------------------------------- password change

  /** The body of `updateSome` (change password). */
  datatype PasswordChange = PasswordChange(
    id: Field<nat>,
    oldPassword: Field<string>,
    newPassword: Field<string>,
    confirm: Field<string>,
    name: Field<string>,
    role: Field<string>)

  /** What `updateSome` needs to go through: an existing id, the four fields, the old password and a matching confirmation. */
  predicate PasswordChangeAccepted(s: Store, q: PasswordChange) {
    && q.id.Present? && q.id.value in s.users
    && TruthyStr(q.oldPassword) && TruthyStr(q.confirm) && TruthyStr(q.name) && TruthyStr(q.newPassword)
    && Verify(s.users[q.id.value].password, q.oldPassword.value)
    && q.newPassword == q.confirm
    && NewRole(q.role, s.users[q.id.value].role).Some?
  }

  /**
    `updateSome`: the caller must prove the current password before a new
    one (equal to its confirmation) is hashed and stored, together with the
    new name and, when given, the role. The id comes from the body: a `null`
    makes the lookup throw, and an absent one finds the first account, whose
    password is then checked before the update throws for want of a key.
   */
  function ChangePassword(s: Store, q: PasswordChange): (r: Reply)
    ensures r.status == 200 <==> PasswordChangeAccepted(s, q)
    ensures r.store.users.Keys == s.users.Keys
    ensures r.status == 200 ==>
      var u := s.users[q.id.value];
      var u' := r.store.users[q.id.value];
      && u'.password == Hash(q.newPassword.value)
      && u'.fullName == q.name.value
      && u'.role == NewRole(q.role, u.role).value
      && u'.email == u.email && u'.phone == u.phone
      && u'.isActive == u.isActive && u'.isEmailVerify == u.isEmailVerify && u'.isPhoneVerify == u.isPhoneVerify
    ensures q.id.Present? && q.id.value in s.users && TruthyStr(q.oldPassword) && TruthyStr(q.confirm) && TruthyStr(q.name)
      && TruthyStr(q.newPassword) && !Verify(s.users[q.id.value].password, q.oldPassword.value)
      ==> r.status == 400 && r.store == s
    ensures q.id.Null? ==> r == Fail500(s)
    ensures q.id.Undefined? && UserById(s, None).Some?
      && TruthyStr(q.oldPassword) && TruthyStr(q.confirm) && TruthyStr(q.name) && TruthyStr(q.newPassword)
      ==> (r.status == 400 <==> !Verify(s.users[UserById(s, None).value].password, q.oldPassword.value) || q.newPassword != q.confirm)
    ensures r.status != 200 ==> r.store == s
    ensures r == Reply(s.(users := r.store.users), r.status, r.message)
    ensures forall k :: k in s.users && AsQuery(q.id) != Some(k) ==> r.store.users[k] == s.users[k]
  {
    if q.id.Null? then Fail500(s)
    else match UserById(s, AsQuery(q.id))
      case None => Reply(s, 400, "user is not exist")
      case Some(uid) =>
        var u := s.users[uid];
        if !TruthyStr(q.oldPassword) || !TruthyStr(q.confirm) || !TruthyStr(q.name) || !TruthyStr(q.newPassword)
        then Reply(s, 400, "please fill all inputs")
        else if !Verify(u.password, q.oldPassword.value) then Reply(s, 400, "your old password is not correct")
        else if q.newPassword.value != q.confirm.value then Reply(s, 400, "the password must mutch a cofirm password")
        else if q.id.Undefined? then Fail500(s)
        else match NewRole(q.role, u.role)
          case None => Fail500(s)
          case Some(role) =>
            var u' := u.(fullName := q.name.value, password := Hash(q.newPassword.value), role := role);
            Reply(s.(users := s.users[uid := u']), 200, "Successfully changed your password")
  }

  /** Login looks an account up by e-mail, so an update that keeps every e-mail keeps every lookup. */
  lemma UserByEmailFrame(s: Store, t: Store, email: string)
    requires s.users.Keys == t.users.Keys && s.nextId == t.nextId
    requires forall k :: k in s.users ==> t.users[k].email == s.users[k].email
    ensures UserByEmail(t, email) == UserByEmail(s, email)
  {
    FindFirstCongruent(s.users, t.users, (u: User) => u.email == email, (u: User) => u.email == email, s.nextId);
  }

  /**
    After a password change the account logs in with the new password, and
    no longer with the old one.
   */
  lemma ChangePasswordThenLogin(s: Store, q: PasswordChange, email: string)
    requires ChangePassword(s, q).status == 200
    requires email != "" && UserByEmail(s, email) == Some(q.id.value) && s.users[q.id.value].isActive
    ensures Login(ChangePassword(s, q).store, Present(email), q.newPassword).status == 200
    ensures q.oldPassword != q.newPassword ==> Login(ChangePassword(s, q).store, Present(email), q.oldPassword).status == 400
  {
    UserByEmailFrame(s, ChangePassword(s, q).store, email);
  }

  /** The body of `updateUserByself`. */
  datatype SelfUpdate = SelfUpdate(
    id: Field<nat>,
    oldPassword: Field<string>,
    newPassword: Field<string>,
    confirm: Field<string>,
    name: Field<string>,
    email: Field<string>,
    phone: Field<string>,
    role: Field<string>)

  /** `updateUserByself` refuses only fields that are the empty string; absent fields pass the check. */
  predicate AnyEmpty(q: SelfUpdate) {
    q.oldPassword == Present("") || q.confirm == Present("") || q.email == Present("")
    || q.name == Present("") || q.newPassword == Present("") || q.phone == Present("") || q.role == Present("")
  }

  /** A profile column the update sets when given and leaves alone when absent; a `null` makes it throw. */
  function Keep(f: Field<string>, current: string): (r: Option<string>)
    ensures r.None? <==> f.Null?
    ensures f.Present? ==> r == Some(f.value)
    ensures f.Undefined? ==> r == Some(current)
  {
    match f
    case Undefined => Some(current)
    case Null => None
    case Present(v) => Some(v)
  }

  /** What `updateUserByself` needs to go through. */
  predicate SelfUpdateAccepted(s: Store, q: SelfUpdate) {
    && q.id.Present? && !AnyEmpty(q) && q.id.value in s.users
    && q.oldPassword.Present? && Verify(s.users[q.id.value].password, q.oldPassword.value)
    && q.newPassword.Present? && q.newPassword == q.confirm
    && !q.name.Null? && !q.email.Null? && !q.phone.Null?
    && NewRole(q.role, s.users[q.id.value].role).Some?
  }

  /**
    `updateUserByself`: after the presence checks, the old password must
    verify and the new one must equal its confirmation; the profile columns
    and the new hash are then written together. A missing password makes
    argon2 throw (500). A `null` id is refused; an absent one finds the
    first account, whose password is checked before the update throws for
    want of a key.
   */
  function UpdateSelf(s: Store, q: SelfUpdate): (r: Reply)
    ensures r.status == 200 <==> SelfUpdateAccepted(s, q)
    ensures r.store.users.Keys == s.users.Keys
    ensures r.status == 200 ==>
      var u := s.users[q.id.value];
      var u' := r.store.users[q.id.value];
      && Verify(u'.password, q.newPassword.value)
      && u'.fullName == (if q.name.Present? then q.name.value else u.fullName)
      && u'.email == (if q.email.Present? then q.email.value else u.email)
      && u'.phone == (if q.phone.Present? then q.phone.value else u.phone)
      && u'.role == NewRole(q.role, u.role).value
      && u'.isActive == u.isActive && u'.isEmailVerify == u.isEmailVerify && u'.isPhoneVerify == u.isPhoneVerify
    ensures q.id.Null? ==> r == Reply(s, 400, "Please enter your id")
    ensures q.id.Undefined? && !AnyEmpty(q) && UserById(s, None).Some? && q.oldPassword.Present?
      && !Verify(s.users[UserById(s, None).value].password, q.oldPassword.value)
      ==> r == Reply(s, 400, "your old password is not correct")
    ensures r.status != 200 ==> r.store == s
    ensures r == Reply(s.(users := r.store.users), r.status, r.message)
    ensures forall k :: k in s.users && AsQuery(q.id) != Some(k) ==> r.store.users[k] == s.users[k]
  {
    if q.id.Null? then Reply(s, 400, "Please enter your id")
    else if AnyEmpty(q) then Reply(s, 400, "please fill all the inputs")
    else match UserById(s, AsQuery(q.id))
      case None => Reply(s, 400, "user is not exist")
      case Some(uid) =>
        var u := s.users[uid];
        if !q.oldPassword.Present? then Fail500(s)
        else if !Verify(u.password, q.oldPassword.value) then Reply(s, 400, "your old password is not correct")
        else if q.newPassword != q.confirm then Reply(s, 400, "the password must mutch a cofirm password")
        else if !q.newPassword.Present? then Fail500(s)
        else if q.id.Undefined? then Fail500(s)
        else
          var name := Keep(q.name, u.fullName);
          var email := Keep(q.email, u.email);
          var phone := Keep(q.phone, u.phone);
          var role := NewRole(q.role, u.role);
          if name.None? || email.None? || phone.None? || role.None? then Fail500(s)
          else
            var u' := u.(fullName := name.value, email := email.value, phone := phone.value,
                         role := role.value, password := Hash(q.newPassword.value));
            Reply(s.(users := s.users[uid := u']), 200, "Successfully updated")
  }

  /**
    A self-update is undone by a second one that swaps the two passwords and
    writes the old profile back.
   */
  lemma UpdateSelfUndo(s: Store, q: SelfUpdate)
    requires UpdateSelf(s, q).status == 200
    requires var u := s.users[q.id.value]; u.fullName != "" && u.email != "" && u.phone != ""
    ensures var u := s.users[q.id.value];
      var back := SelfUpdate(q.id, q.newPassword, q.oldPassword, q.oldPassword,
                             Present(u.fullName), Present(u.email), Present(u.phone), Present(RoleName(u.role)));
      UpdateSelf(UpdateSelf(s, q).store, back).store == s
  {
    var id := q.id.value;
    var u := s.users[id];
    var t := UpdateSelf(s, q).store;
    ParseRoleRoundTrip(u.role);
    assert t.users[id := u] == s.users;
  }

  // ---------------------------------------------------------------- issuing codes

  const CodeSent: string := "Verification code sent successfully"

  /**
    `sendEmailCode`. The two early answers for a missing user and a user
    without e-mail have no `return`. For a user without e-mail the 400 is
    sent and the code is still stored (the later 200 then fails on the
    already-sent response). For a missing user the 404 is sent and the
    following "no e-mail" answer throws on the already-sent response, so the
    insert is never reached.
   */
  function SendEmailCode(s: Store, userId: Option<nat>, code: string, now: int): (r: Reply)
    requires Valid(s)
    ensures Valid(r.store)
    ensures userId.Some? && userId.value != 0 && userId.value in s.users ==>
      r.store == Otp.Issue(s, userId.value, code, now)
    ensures userId.None? || userId.value == 0 || userId.value !in s.users ==> r.store == s
    ensures r.status == 200 <==> userId.Some? && userId.value != 0 && userId.value in s.users && s.users[userId.value].email != ""
  {
    if userId.None? || userId.value == 0 then Reply(s, 400, "user ID is not provided")
    else if userId.value !in s.users then Reply(s, 404, "user is not found")
    else
      var s' := Otp.Issue(s, userId.value, code, now);
      if s.users[userId.value].email == "" then Reply(s', 400, "user have not email")
      else Reply(s', 200, CodeSent)
  }

  /**
    `sendPhoneCode`: the code is stored before the WhatsApp message is sent,
    and a failed send throws (500) without removing it.
   */
  function SendPhoneCode(s: Store, userId: nat, code: string, now: int, whatsAppDelivered: bool): (r: Reply)
    requires Valid(s)
    ensures Valid(r.store)
    ensures r.store != s <==> userId in s.users && s.users[userId].phone != ""
    ensures r.store != s ==> r.store == Otp.Issue(s, userId, code, now)
    ensures r.status == 200 <==> userId in s.users && s.users[userId].phone != "" && whatsAppDelivered
  {
    if userId !in s.users then Reply(s, 404, "user not found")
    else if s.users[userId].phone == "" then Reply(s, 400, "Please enter phone number")
    else
      var s' := Otp.Issue(s, userId, code, now);
      assert s'.otps.Keys != s.otps.Keys;
      if !whatsAppDelivered then Fail500(s') else Reply(s', 200, CodeSent)
  }

  /**
    A code sent by e-mail confirms the address when it is entered before it
    expires (the clock not running backwards when it was issued).
   */
  lemma SendEmailCodeThenVerify(s: Store, userId: nat, code: string, now: int, later: int)
    requires Valid(s) && userId != 0 && userId in s.users && s.users[userId].email != ""
    requires !s.users[userId].isEmailVerify && code != ""
    requires forall k :: k in s.otps ==> s.otps[k].createdAt <= now
    requires later <= now + Otp.LifetimeMs
    ensures var s1 := SendEmailCode(s, Some(userId), code, now).store;
      var r := VerifyEmail(s1, userId, Present(code), later);
      r.status == 200 && r.store.users[userId].isEmailVerify
  {
    Otp.IssueBecomesLatest(s, userId, code, now);
  }

  /**
    A code sent by WhatsApp confirms the phone when it is entered before it
    expires. The code is stored before the send, so this holds even when the
    send fails.
   */
  lemma SendPhoneCodeThenVerify(s: Store, userId: nat, code: string, now: int, later: int, delivered: bool)
    requires Valid(s) && userId in s.users && s.users[userId].phone != ""
    requires !s.users[userId].isPhoneVerify && code != ""
    requires forall k :: k in s.otps ==> s.otps[k].createdAt <= now
    requires later <= now + Otp.LifetimeMs
    ensures var s1 := SendPhoneCode(s, userId, code, now, delivered).store;
      var r := VerifyPhone(s1, userId, Present(code), later);
      r.status == 200 && r.store.users[userId].isPhoneVerify
  {
    Otp.IssueBecomesLatest(s, userId, code, now);
  }

  /**
    `forgetPassword`: issues a code for the first account with the given
    e-mail. (Its "user have not email" branch cannot be reached: the account
    was found by that non-empty e-mail.)
   */
  function ForgetPassword(s: Store, email: Field<string>, code: string, now: int): (r: Reply)
    requires Valid(s)
    ensures Valid(r.store)
    ensures r.status == 200 <==> TruthyStr(email) && EmailTaken(s, email.value)
    ensures r.status == 200 ==> r.store == Otp.Issue(s, UserByEmail(s, email.value).value, code, now)
    ensures r.status != 200 ==> r.store == s
  {
    if !TruthyStr(email) then Reply(s, 400, "email is required")
    else
      UserByEmailFinds(s, email.value);
      match UserByEmail(s, email.value)
      case None => Reply(s, 404, "user not found")
      case Some(id) => Reply(Otp.Issue(s, id, code, now), 200, CodeSent)
  }

  // ---------------------------------------------------------------- redeeming codes

  const Expired: string := "Verification code expired"
  const NoCodeMessage: string := "No verification code registered"

  /**
    The common tail of `verifyEmail` and `verfyPhone` once the user is known
    not yet verified: an expired latest code is deleted, a wrong code leaves
    everything in place, a match sets the flag (via `setFlag`) and marks the
    code verified.
   */
  function Redeem(s: Store, userId: nat, code: string, now: int, setFlag: User -> User, success: string): (r: Reply)
    requires userId in s.users
    ensures r.status == 200 <==> Otp.CheckCode(s, userId, code, now).Matched?
  {
    match Otp.CheckCode(s, userId, code, now)
    case NoCode => Reply(s, 404, NoCodeMessage)
    case ExpiredCode(id) => Reply(Otp.DeleteOtp(s, id), 400, Expired)
    case WrongCode(_) => Reply(s, 400, "Verification code incorrect")
    case Matched(id) =>
      var s' := s.(users := s.users[userId := setFlag(s.users[userId])]);
      Reply(Otp.MarkVerified(s', id), 200, success)
  }

  /**
    `verifyEmail`: an already verified e-mail short-circuits; otherwise the
    latest code decides. Only a matching, unexpired latest code sets the
    e-mail flag; an expired one is deleted and the flag stays as it was.
   */
  function VerifyEmail(s: Store, userId: nat, code: Field<string>, now: int): (r: Reply)
    ensures r.status == 200 <==>
      userId in s.users && TruthyStr(code) && !s.users[userId].isEmailVerify
      && Otp.CheckCode(s, userId, code.value, now).Matched?
    ensures r.status == 200 ==>
      var id := Otp.Latest(s, userId).value;
      r.store == Otp.MarkVerified(s.(users := s.users[userId := s.users[userId].(isEmailVerify := true)]), id)
    ensures userId in s.users && TruthyStr(code) && !s.users[userId].isEmailVerify
      && Otp.CheckCode(s, userId, code.value, now).ExpiredCode?
      ==> r.status == 400 && r.store == Otp.DeleteOtp(s, Otp.Latest(s, userId).value)
    ensures r.store.users == s.users || r.status == 200
  {
    if userId !in s.users then Reply(s, 400, "user ID is not provided")
    else if !TruthyStr(code) then Reply(s, 400, "please enter your verification code")
    else if s.users[userId].isEmailVerify then Reply(s, 400, "user already verified")
    else Redeem(s, userId, code.value, now, (u: User) => u.(isEmailVerify := true), "Verification successful")
  }

  /** `verfyPhone`: the same flow for the phone flag; an unknown user is 404 here rather than 400. */
  function VerifyPhone(s: Store, userId: nat, code: Field<string>, now: int): (r: Reply)
    ensures r.status == 200 <==>
      userId in s.users && TruthyStr(code) && !s.users[userId].isPhoneVerify
      && Otp.CheckCode(s, userId, code.value, now).Matched?
    ensures r.status == 200 ==>
      var id := Otp.Latest(s, userId).value;
      r.store == Otp.MarkVerified(s.(users := s.users[userId := s.users[userId].(isPhoneVerify := true)]), id)
    ensures userId !in s.users ==> r.status == 404
    ensures r.store.users == s.users || r.status == 200
  {
    if userId !in s.users then Reply(s, 404, "user not found")
    else if !TruthyStr(code) then Reply(s, 400, "please enter your verification code")
    else if s.users[userId].isPhoneVerify then Reply(s, 400, "user already verified")
    else Redeem(s, userId, code.value, now, (u: User) => u.(isPhoneVerify := true), "Verification code successfully")
  }

  /** A wrong code leaves the latest row in place, so the user may try again until it expires. */
  lemma WrongCodeKeepsRow(s: Store, userId: nat, code: string, now: int)
    requires userId in s.users && !s.users[userId].isEmailVerify && code != ""
    requires Otp.CheckCode(s, userId, code, now).WrongCode?
    ensures VerifyEmail(s, userId, Present(code), now) == Reply(s, 400, "Verification code incorrect")
  {
  }

  /**
    An expired code is refused even when it is the right one: it is deleted
    and the e-mail flag stays unset.
   */
  lemma ExpiredCodeRefusedEvenIfCorrect(s: Store, userId: nat, now: int)
    requires userId in s.users && !s.users[userId].isEmailVerify
    requires Otp.Latest(s, userId).Some?
    requires Otp.Expired(s.otps[Otp.Latest(s, userId).value], now)
    requires s.otps[Otp.Latest(s, userId).value].code != ""
    ensures var r := VerifyEmail(s, userId, Present(s.otps[Otp.Latest(s, userId).value].code), now);
      r.status == 400 && Otp.Latest(s, userId).value !in r.store.otps && !r.store.users[userId].isEmailVerify
  {
  }

  /**
    The `===` of `verifyResetCode`: it compares the whole code ROW with the
    submitted string. An object is never strictly equal to a string.
   */
  predicate RowStrictEqualsString(row: OneTimeCode, submitted: string) {
    false
  }

  /**
    `verifyResetCode`, as written. Because of the row-to-string comparison,
    every unexpired code is "incorrect" and no code is ever marked verified.
   */
  function VerifyResetCode(s: Store, email: Field<string>, code: Field<string>, now: int): (r: Reply)
    ensures r.status != 200
    ensures r.store.users == s.users
    ensures forall k :: k in r.store.otps ==> k in s.otps && r.store.otps[k] == s.otps[k]
  {
    if !TruthyStr(email) || !TruthyStr(code) then Reply(s, 400, "please fill the inputs")
    else match UserByEmail(s, email.value)
      case None => Reply(s, 404, "user not found")
      case Some(uid) =>
        match Otp.Latest(s, uid)
        case None => Reply(s, 404, NoCodeMessage)
        case Some(id) =>
          if Otp.Expired(s.otps[id], now) then Reply(Otp.DeleteOtp(s, id), 400, Expired)
          else if !RowStrictEqualsString(s.otps[id], code.value) then Reply(s, 400, "Incorrect verification code")
          else Reply(Otp.MarkVerified(s, id), 200, "Verification code is correct, proceed to reset password")
  }

  /** `verifyResetCode` as evidently intended: the row's code is compared with the submitted one. */
  function VerifyResetCodeIntended(s: Store, email: Field<string>, code: Field<string>, now: int): (r: Reply)
    ensures r.status == 200 <==>
      TruthyStr(email) && TruthyStr(code) && UserByEmail(s, email.value).Some?
      && Otp.CheckCode(s, UserByEmail(s, email.value).value, code.value, now).Matched?
    ensures r.status == 200 ==> r.store == Otp.MarkVerified(s, Otp.Latest(s, UserByEmail(s, email.value).value).value)
  {
    if !TruthyStr(email) || !TruthyStr(code) then Reply(s, 400, "please fill the inputs")
    else match UserByEmail(s, email.value)
      case None => Reply(s, 404, "user not found")
      case Some(uid) =>
        match Otp.Latest(s, uid)
        case None => Reply(s, 404, NoCodeMessage)
        case Some(id) =>
          if Otp.Expired(s.otps[id], now) then Reply(Otp.DeleteOtp(s, id), 400, Expired)
          else if s.otps[id].code != code.value then Reply(s, 400, "Incorrect verification code")
          else Reply(Otp.MarkVerified(s, id), 200, "Verification code is correct, proceed to reset password")
  }

  /** The written and the intended check part ways exactly on a correct, unexpired code. */
  lemma VerifyResetCodeRefusesCorrectCode(s: Store, email: string, now: int)
    requires email != "" && UserByEmail(s, email).Some?
    requires Otp.Latest(s, UserByEmail(s, email).value).Some?
    requires var row := s.otps[Otp.Latest(s, UserByEmail(s, email).value).value];
      !Otp.Expired(row, now) && row.code != ""
    ensures var code := s.otps[Otp.Latest(s, UserByEmail(s, email).value).value].code;
      VerifyResetCode(s, Present(email), Present(code), now).status == 400
      && VerifyResetCodeIntended(s, Present(email), Present(code), now).status == 200
  {
  }

  /**
    `resetPassword`: the new password (equal to its confirmation) replaces
    the hash exactly when the account's latest code is marked verified.
    Neither the code's expiry nor its purpose is checked, and the code is not
    used up, so it can be reused. The account is looked up by `req.userId`;
    the route runs without the authentication middleware, so that id is
    always `undefined` (`None`) there and the first account is found.
   */
  function ResetPassword(s: Store, userId: Option<nat>, newPassword: Field<string>, confirm: Field<string>): (r: Reply)
    ensures r.status == 200 <==>
      TruthyStr(newPassword) && TruthyStr(confirm) && newPassword.value == confirm.value
      && UserById(s, userId).Some? && Otp.Latest(s, UserById(s, userId).value).Some?
      && s.otps[Otp.Latest(s, UserById(s, userId).value).value].isVerified
    ensures r.status == 200 ==>
      var uid := UserById(s, userId).value;
      r.store == s.(users := s.users[uid := s.users[uid].(password := Hash(newPassword.value))])
    ensures r.status != 200 ==> r.store == s
  {
    if !TruthyStr(newPassword) || !TruthyStr(confirm) then Reply(s, 400, "Please enter your new password")
    else if newPassword.value != confirm.value then Reply(s, 400, "the password must mutch a cofirm password")
    else match UserById(s, userId)
      case None => Reply(s, 404, "user not found")
      case Some(uid) =>
        match Otp.Latest(s, uid)
        case None => Reply(s, 404, "verification code not found")
        case Some(id) =>
          if !s.otps[id].isVerified then Reply(s, 400, "Not verified")
          else Reply(s.(users := s.users[uid := s.users[uid].(password := Hash(newPassword.value))]), 200, "password changed successfully")
  }

  /** A verified code is not consumed: the same reset succeeds again. */
  lemma ResetPasswordReplayable(s: Store, userId: Option<nat>, p: string, q: string)
    requires ResetPassword(s, userId, Present(p), Present(p)).status == 200 && q != ""
    ensures ResetPassword(ResetPassword(s, userId, Present(p), Present(p)).store, userId, Present(q), Present(q)).status == 200
  {
    var s' := ResetPassword(s, userId, Present(p), Present(p)).store;
    assert s'.otps == s.otps && s'.nextId == s.nextId;
    assert s'.users.Keys == s.users.Keys;
    if userId.None? {
      FindFirstCongruent(s.users, s'.users, (u: User) => true, (u: User) => true, s.nextId);
    }
  }

  /**
    On its route the reset carries no user id, so whoever calls it replaces
    the password of the first account as soon as that account's latest code
    is verified, for instance right after its owner verified an e-mail.
   */
  lemma AnonymousResetHitsFirstAccount(s: Store, p: string)
    requires Valid(s) && p != "" && |s.users| > 0
    requires var f := UserById(s, None); f.Some? ==>
      Otp.Latest(s, f.value).Some? && s.otps[Otp.Latest(s, f.value).value].isVerified
    ensures UserById(s, None).Some?
    ensures var f := UserById(s, None).value;
      var r := ResetPassword(s, None, Present(p), Present(p));
      r.status == 200 && r.store.users[f].password == Hash(p)
      && (forall k :: k in s.users && k != f ==> r.store.users[k] == s.users[k])
  {
    var k :| k in s.users;
    assert k < s.nextId;
  }

  /**
    `forgetPassword` for a taken e-mail leaves every account as it was and
    makes the fresh code the asking account's latest one (the clock not
    running backwards).
   */
  lemma ForgetIssuesLatest(s: Store, email: string, sent: string, now: int)
    requires Valid(s) && email != "" && EmailTaken(s, email)
    requires forall k :: k in s.otps ==> s.otps[k].createdAt <= now
    ensures UserByEmail(s, email).Some?
    ensures var uid := UserByEmail(s, email).value;
      var s1 := ForgetPassword(s, Present(email), sent, now).store;
      && s1 == Otp.Issue(s, uid, sent, now)
      && Otp.Latest(s1, uid) == Some(s.nextId)
      && UserByEmail(s1, email) == Some(uid)
      && UserById(s1, None) == UserById(s, None)
  {
    UserByEmailFinds(s, email);
    var uid := UserByEmail(s, email).value;
    var s1 := Otp.Issue(s, uid, sent, now);
    Otp.IssueBecomesLatest(s, uid, sent, now);
    FindFirstPastKeys(s.users, (u: User) => u.email == email, s.nextId, s1.nextId);
    FindFirstPastKeys(s.users, (u: User) => true, s.nextId, s1.nextId);
  }

  /** The store after `forgetPassword` and `verifyResetCode` as written, with any submitted code. */
  function WrittenFlowStore(s: Store, email: string, sent: string, now: int, submitted: Field<string>, later: int): Store
    requires Valid(s)
  {
    VerifyResetCode(ForgetPassword(s, Present(email), sent, now).store, Present(email), submitted, later).store
  }

  /**
    The first two steps as written only add the fresh code: the accounts are
    as they were, the first account is the same one, and any other account's
    latest code is the row it was before.
   */
  lemma WrittenFlowOnlyIssues(s: Store, email: string, sent: string, now: int, submitted: Field<string>, later: int)
    requires Valid(s) && email != "" && EmailTaken(s, email)
    requires forall k :: k in s.otps ==> s.otps[k].createdAt <= now
    requires later <= now + Otp.LifetimeMs
    ensures UserByEmail(s, email).Some?
    ensures var uid := UserByEmail(s, email).value;
      var s2 := WrittenFlowStore(s, email, sent, now, submitted, later);
      && s2 == Otp.Issue(s, uid, sent, now)
      && UserById(s2, None) == UserById(s, None)
      && (forall f :: f != uid ==> Otp.Latest(s2, f) == Otp.Latest(s, f))
  {
    ForgetIssuesLatest(s, email, sent, now);
    var uid := UserByEmail(s, email).value;
    var s1 := ForgetPassword(s, Present(email), sent, now).store;
    assert VerifyResetCode(s1, Present(email), submitted, later).store == s1;
    forall f | f != uid
      ensures Otp.Latest(s1, f) == Otp.Latest(s, f)
    {
      Otp.IssueKeepsOthersLatest(s, uid, f, sent, now);
    }
  }

  /**
    The three-step reset on its routes, as written: `forgetPassword` issues a
    fresh code (the clock not running backwards), `verifyResetCode` is
    called with any code before that code expires, and `resetPassword` runs
    without a user id. The forgetting account's password never changes. The
    reset answers 200 exactly when the first account is a different one
    whose latest code was already verified, and it then replaces that
    account's password.
   */
  lemma ForgottenPasswordFlowNeverResets(s: Store, email: string, sent: string, now: int,
                                         submitted: Field<string>, later: int, p: string)
    requires Valid(s) && email != "" && EmailTaken(s, email) && p != ""
    requires forall k :: k in s.otps ==> s.otps[k].createdAt <= now
    requires later <= now + Otp.LifetimeMs
    ensures UserByEmail(s, email).Some? && UserById(s, None).Some?
    ensures var uid := UserByEmail(s, email).value;
      var f := UserById(s, None).value;
      var r := ResetPassword(WrittenFlowStore(s, email, sent, now, submitted, later), None, Present(p), Present(p));
      && uid in r.store.users && r.store.users[uid] == s.users[uid]
      && (r.status == 200 <==> f != uid && Otp.Latest(s, f).Some? && s.otps[Otp.Latest(s, f).value].isVerified)
      && (r.status == 200 ==> f in r.store.users && r.store.users[f].password == Hash(p))
  {
    WrittenFlowOnlyIssues(s, email, sent, now, submitted, later);
    UserByEmailFinds(s, email);
    var uid := UserByEmail(s, email).value;
    assert uid < s.nextId;
    var s2 := WrittenFlowStore(s, email, sent, now, submitted, later);
    ForgetIssuesLatest(s, email, sent, now);
    assert s2.users == s.users;
    var f := UserById(s, None).value;
    assert UserById(s2, None) == Some(f);
    if f == uid {
      assert Otp.Latest(s2, uid) == Some(s.nextId);
      assert !s2.otps[s.nextId].isVerified;
    } else if Otp.Latest(s, f).Some? {
      var id := Otp.Latest(s, f).value;
      assert Otp.Latest(s2, f) == Some(id);
      assert id in s.otps && id < s.nextId;
      assert s2.otps[id] == s.otps[id];
    }
    AnonymousResetAfter(s, s2, uid, f, p);
  }

  /**
    The anonymous reset on a store whose accounts are those of `s`, whose
    first account is `f`, and where only `uid`'s latest code changed, to an
    unverified one.
   */
  lemma AnonymousResetAfter(s: Store, s2: Store, uid: nat, f: nat, p: string)
    requires p != "" && uid in s.users && s2.users == s.users && UserById(s2, None) == Some(f)
    requires f == uid ==> Otp.Latest(s2, uid).Some? && !s2.otps[Otp.Latest(s2, uid).value].isVerified
    requires f != uid ==> Otp.Latest(s2, f) == Otp.Latest(s, f)
    requires f != uid && Otp.Latest(s, f).Some? ==> s2.otps[Otp.Latest(s, f).value] == s.otps[Otp.Latest(s, f).value]
    ensures var r := ResetPassword(s2, None, Present(p), Present(p));
      && uid in r.store.users && r.store.users[uid] == s.users[uid]
      && (r.status == 200 <==> f != uid && Otp.Latest(s, f).Some? && s.otps[Otp.Latest(s, f).value].isVerified)
      && (r.status == 200 ==> f in r.store.users && r.store.users[f].password == Hash(p))
  {
  }

  /**
    The reset as evidently intended: keyed on the e-mail the code was sent
    to, like `verifyResetCode`, rather than on an id the route never has.
   */
  function ResetPasswordIntended(s: Store, email: Field<string>, newPassword: Field<string>, confirm: Field<string>): (r: Reply)
    ensures r.status == 200 <==>
      TruthyStr(email) && TruthyStr(newPassword) && TruthyStr(confirm) && newPassword.value == confirm.value
      && UserByEmail(s, email.value).Some? && Otp.Latest(s, UserByEmail(s, email.value).value).Some?
      && s.otps[Otp.Latest(s, UserByEmail(s, email.value).value).value].isVerified
    ensures r.status == 200 ==>
      var uid := UserByEmail(s, email.value).value;
      r.store == s.(users := s.users[uid := s.users[uid].(password := Hash(newPassword.value))])
    ensures r.status != 200 ==> r.store == s
  {
    if !TruthyStr(email) then Reply(s, 400, "email is required")
    else if !TruthyStr(newPassword) || !TruthyStr(confirm) then Reply(s, 400, "Please enter your new password")
    else if newPassword.value != confirm.value then Reply(s, 400, "the password must mutch a cofirm password")
    else match UserByEmail(s, email.value)
      case None => Reply(s, 404, "user not found")
      case Some(uid) =>
        match Otp.Latest(s, uid)
        case None => Reply(s, 404, "verification code not found")
        case Some(id) =>
          if !s.otps[id].isVerified then Reply(s, 400, "Not verified")
          else Reply(s.(users := s.users[uid := s.users[uid].(password := Hash(newPassword.value))]), 200, "password changed successfully")
  }

  /** The store after `forgetPassword` and the intended `verifyResetCode` with the code that was sent. */
  function IntendedFlowStore(s: Store, email: string, sent: string, now: int, later: int): Store
    requires Valid(s)
  {
    VerifyResetCodeIntended(ForgetPassword(s, Present(email), sent, now).store, Present(email), Present(sent), later).store
  }

  /**
    The first two steps of the intended flow leave the accounts alone and
    leave the asking account's latest code verified.
   */
  lemma IntendedFlowVerifiesLatest(s: Store, email: string, sent: string, now: int, later: int)
    requires Valid(s) && email != "" && EmailTaken(s, email) && sent != ""
    requires forall k :: k in s.otps ==> s.otps[k].createdAt <= now
    requires later <= now + Otp.LifetimeMs
    ensures UserByEmail(s, email).Some?
    ensures var uid := UserByEmail(s, email).value;
      var s2 := IntendedFlowStore(s, email, sent, now, later);
      && s2.users == s.users
      && UserByEmail(s2, email) == Some(uid)
      && Otp.Latest(s2, uid).Some?
      && s2.otps[Otp.Latest(s2, uid).value].isVerified
  {
    ForgetIssuesLatest(s, email, sent, now);
    var uid := UserByEmail(s, email).value;
    var s1 := ForgetPassword(s, Present(email), sent, now).store;
    IntendedCheckMarksLatest(s1, email, uid, sent, later);
  }

  /**
    With the intended check and reset, the flow completes: the account that
    asked, given the code it was sent before it expires, ends up with the new
    password, and every other account is untouched.
   */
  lemma ForgottenPasswordFlowIntended(s: Store, email: string, sent: string, now: int, later: int, p: string)
    requires Valid(s) && email != "" && EmailTaken(s, email) && p != "" && sent != ""
    requires forall k :: k in s.otps ==> s.otps[k].createdAt <= now
    requires later <= now + Otp.LifetimeMs
    ensures UserByEmail(s, email).Some?
    ensures var uid := UserByEmail(s, email).value;
      var r := ResetPasswordIntended(IntendedFlowStore(s, email, sent, now, later), Present(email), Present(p), Present(p));
      && r.status == 200
      && uid in r.store.users && Verify(r.store.users[uid].password, p)
      && (forall k :: k in s.users && k != uid ==> k in r.store.users && r.store.users[k] == s.users[k])
  {
    IntendedFlowVerifiesLatest(s, email, sent, now, later);
    var uid := UserByEmail(s, email).value;
    var s2 := IntendedFlowStore(s, email, sent, now, later);
    IntendedResetSetsPassword(s2, email, uid, p);
  }

  /** Once the account's latest code is verified, the intended reset sets its password and nothing else. */
  lemma IntendedResetSetsPassword(s2: Store, email: string, uid: nat, p: string)
    requires email != "" && p != ""
    requires UserByEmail(s2, email) == Some(uid) && Otp.Latest(s2, uid).Some?
    requires s2.otps[Otp.Latest(s2, uid).value].isVerified
    ensures var r := ResetPasswordIntended(s2, Present(email), Present(p), Present(p));
      r.status == 200 && r.store.users == s2.users[uid := s2.users[uid].(password := Hash(p))]
  {
  }

  /** The intended check, given the latest code before it expires, marks that code verified and keeps the lookup. */
  lemma IntendedCheckMarksLatest(s1: Store, email: string, uid: nat, code: string, later: int)
    requires email != "" && code != ""
    requires UserByEmail(s1, email) == Some(uid) && Otp.Latest(s1, uid).Some?
    requires var c := s1.otps[Otp.Latest(s1, uid).value]; c.code == code && !Otp.Expired(c, later)
    ensures var s2 := VerifyResetCodeIntended(s1, Present(email), Present(code), later).store;
      && s2 == Otp.MarkVerified(s1, Otp.Latest(s1, uid).value)
      && UserByEmail(s2, email) == Some(uid)
      && Otp.Latest(s2, uid) == Otp.Latest(s1, uid)
      && s2.otps[Otp.Latest(s2, uid).value].isVerified
  {
    var s2 := VerifyResetCodeIntended(s1, Present(email), Present(code), later).store;
    Otp.LatestBelowFrame(s1.otps, s2.otps, uid, s1.nextId);
  }

  // ---------------------------------------------------------------- user list

  /**
    What `getAllusers` answers: the database refused the page query (the
    generic 500), or the counts and the page data.
   */
  datatype UserList =
    | UsersRefused
    | Users(number: nat, activeCount: nat, suspendCount: nat, page: int, limit: int, skip: int, totalPages: Option<int>)

  /** The role filter: only a query naming an enum value filters. */
  predicate RoleMatches(roleQuery: string, u: User) {
    ParseRole(roleQuery).None? || u.role == ParseRole(roleQuery).value
  }

  /** The status filter: "active" and "suspend" filter, anything else does not. */
  predicate StatusMatches(statusQuery: string, u: User) {
    (statusQuery == "active" ==> u.isActive) && (statusQuery == "suspend" ==> !u.isActive)
  }

  /**
    `getAllusers`. The page and limit fall back to 1 and 10 when missing,
    unparsable or zero; a negative `skip` is refused by the database. The
    active and suspended counts spread the filter and then overwrite its
    `isActive`, so they count within the role filter alone.
   */
  function ListUsers(s: Store, page: Option<int>, limit: Option<int>, statusQuery: string, roleQuery: string): (r: UserList)
    ensures r.UsersRefused? <==> Paging.Skip(Paging.ParsedOr(page, 1), Paging.ParsedOr(limit, 10)) < 0
    ensures r.Users? ==>
      && r.page == Paging.ParsedOr(page, 1)
      && r.limit == Paging.ParsedOr(limit, 10)
      && r.skip == Paging.Skip(r.page, r.limit) && r.skip >= 0
      && r.totalPages == Paging.UserPages(r.number, r.limit)
      && r.totalPages.Some?
      && r.number == |Where(s.users, (u: User) => RoleMatches(roleQuery, u) && StatusMatches(statusQuery, u))|
      && r.activeCount == |Where(s.users, (u: User) => RoleMatches(roleQuery, u) && u.isActive)|
      && r.suspendCount == |Where(s.users, (u: User) => RoleMatches(roleQuery, u) && !u.isActive)|
      && r.activeCount + r.suspendCount == |Where(s.users, (u: User) => RoleMatches(roleQuery, u))|
  {
    var p := Paging.ParsedOr(page, 1);
    var l := Paging.ParsedOr(limit, 10);
    if Paging.Skip(p, l) < 0 then UsersRefused
    else
      var matching := Where(s.users, (u: User) => RoleMatches(roleQuery, u) && StatusMatches(statusQuery, u));
      var active := Where(s.users, (u: User) => RoleMatches(roleQuery, u) && u.isActive);
      var suspended := Where(s.users, (u: User) => RoleMatches(roleQuery, u) && !u.isActive);
      assert active + suspended == Where(s.users, (u: User) => RoleMatches(roleQuery, u));
      assert active !! suspended;
      Users(|matching|, |active|, |suspended|, p, l, Paging.Skip(p, l), Paging.UserPages(|matching|, l))
  }

  /** Only a negative page (or a negative limit past page 1) makes the listing fail. */
  lemma ListUsersRefusesOnlyNegativeSkip(s: Store, page: Option<int>, limit: Option<int>, statusQuery: string, roleQuery: string)
    ensures (page.None? || page.value >= 0) && (limit.None? || limit.value >= 0)
      ==> ListUsers(s, page, limit, statusQuery, roleQuery).Users?
    ensures page.Some? && page.value < 0 && (limit.None? || limit.value >= 0)
      ==> ListUsers(s, page, limit, statusQuery, roleQuery).UsersRefused?
  {
    var p := Paging.ParsedOr(page, 1);
    var l := Paging.ParsedOr(limit, 10);
    if p >= 1 && l >= 1 {
      Paging.MulMonotone(0, p - 1, l);
    }
    if p < 0 && l > 0 {
      assert (p - 1) * l <= -l;
    }
  }

  /**
    With a positive limit, the pages of a listing hold every listed user
    exactly once: row `i` of the filtered users lies on one page only, and
    that page is within `1..totalPages`.
   */
  lemma ListUsersPagesCoverRows(s: Store, page: Option<int>, limit: Option<int>, statusQuery: string, roleQuery: string, i: nat)
    requires ListUsers(s, page, limit, statusQuery, roleQuery).Users?
    requires ListUsers(s, page, limit, statusQuery, roleQuery).limit > 0
    requires i < ListUsers(s, page, limit, statusQuery, roleQuery).number
    ensures var r := ListUsers(s, page, limit, statusQuery, roleQuery);
      && 1 <= Paging.PageOf(i, r.limit) <= r.totalPages.value
      && (forall p :: Paging.Skip(p, r.limit) <= i < Paging.Skip(p, r.limit) + r.limit <==> p == Paging.PageOf(i, r.limit))
  {
    var r := ListUsers(s, page, limit, statusQuery, roleQuery);
    Paging.EveryRowOnExactlyOnePage(r.number, r.limit, i);
  }

  /** Without a status filter, every listed user is either active or suspended. */
  lemma UserCountsAddUp(s: Store, page: Option<int>, limit: Option<int>, roleQuery: string)
    ensures var r := ListUsers(s, page, limit, "all", roleQuery);
      r.Users? ==> r.activeCount + r.suspendCount == r.number
  {
    assert Where(s.users, (u: User) => RoleMatches(roleQuery, u) && StatusMatches("all", u))
        == Where(s.users, (u: User) => RoleMatches(roleQuery, u));
  }
}
