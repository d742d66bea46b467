/**
  The request-body validators of the sign-up, login and admin-update routes.
  A field's chain runs every check and collects the message of each one that
  fails; the body passes when no field collects a message. Library checks
  other than the ones below (`isEmail`) are a parameter.
 */
module Schemas {
  import opened Js

  /** A body field as it arrives: absent, a string, or another JSON value with its string form. */
  datatype BodyValue = Missing | Str(s: string) | NonString(text: string)

  type Body = map<string, BodyValue>

  function Get(b: Body, key: string): BodyValue {
    if key in b then b[key] else Missing
  }

  /** The string the standard checks look at: absent values read as "". */
  function Text(v: BodyValue): string {
    match v
    case Missing => ""
    case Str(s) => s
    case NonString(t) => t
  }

  const Roles: seq<string> := ["TEACHER", "PARENT", "STUDENT"]

  predicate IsDigit(c: char) {
    '0' <= c <= '9'
  }

  predicate AllDigits(t: string) {
    forall i :: 0 <= i < |t| ==> IsDigit(t[i])
  }

  /** `/^\+[1-9]\d{7,14}$/`: a plus sign, a non-zero digit, then seven to fourteen digits. */
  predicate PhonePattern(s: string) {
    && |s| >= 2
    && s[0] == '+'
    && '1' <= s[1] <= '9'
    && AllDigits(s[2..])
    && 7 <= |s[2..]| <= 14
  }

  /** One step of a validation chain. */
  datatype Rule =
    | IsString
    | NotEmpty
    | MinLength(n: nat)
    | IsIn(allowed: seq<string>)
    | MatchesPhone
    | IsEmail
    /** `custom((value, { req }) => value === req.body)`: a field value is never the body object itself. */
    | SameAsWholeBody
    /** The comparison the confirmation evidently wants: equal to the body's `password` string. */
    | SameAsField(other: string)

  /** Whether `v` passes `rule` inside body `b`; `email` stands for the library's e-mail check. */
  predicate Passes(rule: Rule, v: BodyValue, b: Body, email: string -> bool) {
    match rule
    case IsString => v.Str?
    case NotEmpty => Text(v) != ""
    case MinLength(n) => |Text(v)| >= n
    case IsIn(allowed) => Text(v) in allowed
    case MatchesPhone => PhonePattern(Text(v))
    case IsEmail => email(Text(v))
    case SameAsWholeBody => false
    case SameAsField(other) => v.Str? && Get(b, other).Str? && v.s == Get(b, other).s
  }

  /** A field chain: each rule with the message `withMessage` gave it. */
  type Chain = seq<(Rule, string)>

  /** The messages of the failing rules, in chain order (no rule bails out early). */
  function Errors(chain: Chain, v: BodyValue, b: Body, email: string -> bool): (r: seq<string>)
    ensures |r| <= |chain|
    ensures r == [] <==> forall i :: 0 <= i < |chain| ==> Passes(chain[i].0, v, b, email)
  {
    if |chain| == 0 then []
    else
      var rest := Errors(chain[1..], v, b, email);
      assert forall i :: 1 <= i < |chain| ==> chain[i] == chain[1..][i - 1];
      if Passes(chain[0].0, v, b, email) then rest else [chain[0].1] + rest
  }

  const PasswordChain: Chain := [
    (IsString, "password must be a string"),
    (NotEmpty, "password is required"),
    (MinLength(8), "Password must be at least 8 characters")]

  const ConfirmChain: Chain := [
    (IsString, "Enter valid password"),
    (MinLength(8), "Password must be at least 8 characters"),
    (SameAsWholeBody, "Password do not match")]

  const ConfirmChainIntended: Chain := [
    (IsString, "Enter valid password"),
    (MinLength(8), "Password must be at least 8 characters"),
    (SameAsField("password"), "Password do not match")]

  const RoleChain: Chain := [
    (NotEmpty, "Role is required"),
    (IsString, "Role must be a string"),
    (IsIn(Roles), "Role must be one of: TEACHER, PARENT, STUDENT")]

  const PhoneChain: Chain := [
    (NotEmpty, "Phone number is required"),
    (IsString, "Phone number must be a string"),
    (MatchesPhone, "Phone number must be in international format (e.g. +252634345678)")]

  const FullNameChain: Chain := [
    (IsString, "fullName must be a string"),
    (NotEmpty, "fullName is required")]

  const EmailChain: Chain := [
    (NotEmpty, "email is required"),
    (IsEmail, "invalid format email")]

  /** Field name and chain, in declaration order. */
  type Schema = seq<(string, Chain)>

  const SignupSchema: Schema := [
    ("fullName", FullNameChain), ("email", EmailChain), ("password", PasswordChain),
    ("confirm_password", ConfirmChain), ("role", RoleChain), ("phone", PhoneChain)]

  const LoginSchema: Schema := [("email", EmailChain), ("password", PasswordChain)]

  const UpdateAdminSchema: Schema := [("role", RoleChain), ("phone", PhoneChain), ("fullName", FullNameChain)]

  /** All messages a schema collects from a body. */
  function SchemaErrors(schema: Schema, b: Body, email: string -> bool): (r: seq<string>)
    ensures r == [] <==> forall i :: 0 <= i < |schema| ==> Errors(schema[i].1, Get(b, schema[i].0), b, email) == []
  {
    if |schema| == 0 then []
    else
      assert forall i :: 1 <= i < |schema| ==> schema[i] == schema[1..][i - 1];
      Errors(schema[0].1, Get(b, schema[0].0), b, email) + SchemaErrors(schema[1..], b, email)
  }

  /** A three-rule chain passes exactly when each of its rules does. */
  lemma ThreeRules(chain: Chain, v: BodyValue, b: Body, email: string -> bool)
    requires |chain| == 3
    ensures Errors(chain, v, b, email) == []
        <==> Passes(chain[0].0, v, b, email) && Passes(chain[1].0, v, b, email) && Passes(chain[2].0, v, b, email)
  {
    if Passes(chain[0].0, v, b, email) && Passes(chain[1].0, v, b, email) && Passes(chain[2].0, v, b, email) {
      forall i | 0 <= i < |chain|
        ensures Passes(chain[i].0, v, b, email)
      {
        if i == 0 {} else if i == 1 {} else {}
      }
    }
  }

  /** A password passes exactly when it is a string of at least eight characters. */
  lemma PasswordRule(v: BodyValue, b: Body, email: string -> bool)
    ensures Errors(PasswordChain, v, b, email) == [] <==> v.Str? && |v.s| >= 8
  {
    ThreeRules(PasswordChain, v, b, email);
  }

  /** A role passes exactly when it is one of the three non-admin role names. */
  lemma RoleRule(v: BodyValue, b: Body, email: string -> bool)
    ensures Errors(RoleChain, v, b, email) == [] <==> v.Str? && v.s in Roles
  {
    ThreeRules(RoleChain, v, b, email);
  }

  lemma AdminRoleRefused(b: Body, email: string -> bool)
    ensures Errors(RoleChain, Str("ADMIN"), b, email) != []
  {
    RoleRule(Str("ADMIN"), b, email);
    assert Roles[0] != "ADMIN" && Roles[1] != "ADMIN" && Roles[2] != "ADMIN";
  }

  /** A phone passes exactly when it is a string matching the international pattern. */
  lemma PhoneRule(v: BodyValue, b: Body, email: string -> bool)
    ensures Errors(PhoneChain, v, b, email) == [] <==> v.Str? && PhonePattern(v.s)
  {
    ThreeRules(PhoneChain, v, b, email);
  }

  /** Every accepted phone number is nine to sixteen characters long. */
  lemma PhoneLengths(s: string)
    requires PhonePattern(s)
    ensures 9 <= |s| <= 16
  {
  }

  /** Conversely, every plus sign, non-zero digit and run of 7..14 digits is accepted. */
  lemma PhoneBuilt(d: char, digits: string)
    requires '1' <= d <= '9' && AllDigits(digits) && 7 <= |digits| <= 14
    ensures PhonePattern("+" + [d] + digits)
  {
    var s := "+" + [d] + digits;
    assert s[2..] == digits;
  }

  lemma PhoneExample()
    ensures PhonePattern("+252634345678")
    ensures !PhonePattern("+052634345678")
    ensures !PhonePattern("252634345678")
  {
    assert "+252634345678"[2..] == "52634345678";
    assert AllDigits("52634345678");
  }

  /** The confirmation check fails for every value, so it always reports "Password do not match". */
  lemma ConfirmAlwaysFails(v: BodyValue, b: Body, email: string -> bool)
    ensures "Password do not match" in Errors(ConfirmChain, v, b, email)
  {
    assert !Passes(ConfirmChain[2].0, v, b, email);
    assert Errors(ConfirmChain[2..], v, b, email) == ["Password do not match"];
  }

  /** Hence the sign-up schema rejects every body. */
  lemma SignupSchemaRejectsEverything(b: Body, email: string -> bool)
    ensures SchemaErrors(SignupSchema, b, email) != []
  {
    ConfirmAlwaysFails(Get(b, "confirm_password"), b, email);
    assert SignupSchema[3] == ("confirm_password", ConfirmChain);
  }

  /** An e-mail passes exactly when it is non-empty and the library accepts it. */
  lemma EmailRule(v: BodyValue, b: Body, email: string -> bool)
    ensures Errors(EmailChain, v, b, email) == [] <==> Text(v) != "" && email(Text(v))
  {
    if Text(v) != "" && email(Text(v)) {
      forall i | 0 <= i < |EmailChain|
        ensures Passes(EmailChain[i].0, v, b, email)
      {
        if i == 0 {} else {}
      }
    }
  }

  /** The login schema passes exactly when the e-mail is accepted and the password is a string of eight or more characters. */
  lemma {:induction false} LoginSchemaRule(b: Body, email: string -> bool)
    ensures SchemaErrors(LoginSchema, b, email) == []
        <==> && Text(Get(b, "email")) != "" && email(Text(Get(b, "email")))
             && Get(b, "password").Str? && |Get(b, "password").s| >= 8
  {
    EmailRule(Get(b, "email"), b, email);
    PasswordRule(Get(b, "password"), b, email);
    assert LoginSchema[0] == ("email", EmailChain);
    assert LoginSchema[1] == ("password", PasswordChain);
    if Errors(EmailChain, Get(b, "email"), b, email) == [] && Errors(PasswordChain, Get(b, "password"), b, email) == [] {
      forall i | 0 <= i < |LoginSchema|
        ensures Errors(LoginSchema[i].1, Get(b, LoginSchema[i].0), b, email) == []
      {
        if i == 0 {} else {}
      }
    }
  }

  /**
    The admin-update schema passes exactly when the role is one of the three
    non-admin names, the phone matches the pattern and the full name is a
    non-empty string: like sign-up, it never lets a body name the ADMIN role.
   */
  lemma {:induction false} UpdateAdminSchemaRule(b: Body, email: string -> bool)
    ensures SchemaErrors(UpdateAdminSchema, b, email) == []
        <==> && Get(b, "role").Str? && Get(b, "role").s in Roles
             && Get(b, "phone").Str? && PhonePattern(Get(b, "phone").s)
             && Get(b, "fullName").Str? && Get(b, "fullName").s != ""
  {
    RoleRule(Get(b, "role"), b, email);
    PhoneRule(Get(b, "phone"), b, email);
    var name := Get(b, "fullName");
    if name.Str? && name.s != "" {
      forall i | 0 <= i < |FullNameChain|
        ensures Passes(FullNameChain[i].0, name, b, email)
      {
        if i == 0 {} else {}
      }
    }
    if Errors(FullNameChain, name, b, email) == [] {
      assert Passes(FullNameChain[0].0, name, b, email) && Passes(FullNameChain[1].0, name, b, email);
    }
    assert UpdateAdminSchema[0] == ("role", RoleChain);
    assert UpdateAdminSchema[1] == ("phone", PhoneChain);
    assert UpdateAdminSchema[2] == ("fullName", FullNameChain);
    if && Errors(RoleChain, Get(b, "role"), b, email) == []
       && Errors(PhoneChain, Get(b, "phone"), b, email) == []
       && Errors(FullNameChain, name, b, email) == [] {
      forall i | 0 <= i < |UpdateAdminSchema|
        ensures Errors(UpdateAdminSchema[i].1, Get(b, UpdateAdminSchema[i].0), b, email) == []
      {
        if i == 0 {} else if i == 1 {} else {}
      }
    }
  }

  /** With the intended comparison, a confirmation passes exactly when it repeats a long-enough password. */
  lemma ConfirmIntendedRule(v: BodyValue, b: Body, email: string -> bool)
    ensures Errors(ConfirmChainIntended, v, b, email) == []
        <==> v.Str? && |v.s| >= 8 && Get(b, "password") == Str(v.s)
  {
    ThreeRules(ConfirmChainIntended, v, b, email);
  }
}
