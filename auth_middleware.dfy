/**
 * The signup and login payload checks: required fields, string type and
 * trimmed length, and the email and password checks whose last failure wins.
 * `isEmail` and `isStrongPassword` are the validator library's predicates,
 * taken as parameters.
 */
module AuthMiddleware {
  import opened Js
  import opened Common

  // ---------------------------------------------------------------------------
  // checkReqFields

  /** `body[item] === undefined || body[item] === ""`. */
  predicate Absent(body: Body, key: string) {
    Get(body, key) == Undefined || Get(body, key) == Str("")
  }

  /** The position `reqFields.find(...)` stops at. */
  function FirstAbsent(fields: seq<string>, body: Body): (r: Option<nat>)
    ensures r.None? <==> forall i | 0 <= i < |fields| :: !Absent(body, fields[i])
    ensures r.Some? ==> r.value < |fields| && Absent(body, fields[r.value])
    ensures r.Some? ==> forall j | 0 <= j < r.value :: !Absent(body, fields[j])
  {
    if fields == [] then None
    else if Absent(body, fields[0]) then Some(0)
    else
      var r := FirstAbsent(fields[1..], body);
      assert forall i | 1 <= i < |fields| :: fields[1..][i - 1] == fields[i];
      if r.None? then None else Some(r.value + 1)
  }

  function RequiredMessage(field: string): string {
    field + " is required!"
  }

  /**
   * `checkReqFields`: the message for the first listed field that is missing
   * or empty. `if (absentField)` tests the name found, so a field named ""
   * yields no message.
   */
  function CheckReqFields(fields: seq<string>, body: Body): (r: Option<string>)
    ensures (forall i | 0 <= i < |fields| :: !Absent(body, fields[i])) ==> r.None?
    ensures r.Some? ==> exists i | 0 <= i < |fields| ::
      && Absent(body, fields[i])
      && (forall j | 0 <= j < i :: !Absent(body, fields[j]))
      && r.value == RequiredMessage(fields[i])
  {
    match FirstAbsent(fields, body)
    case None => None
    case Some(i) => if fields[i] == "" then None else Some(RequiredMessage(fields[i]))
  }

  /** With non-empty names, a message comes back exactly when some field is absent. */
  lemma ReqFieldsIff(fields: seq<string>, body: Body)
    requires forall i | 0 <= i < |fields| :: fields[i] != ""
    ensures CheckReqFields(fields, body).Some? <==> exists i | 0 <= i < |fields| :: Absent(body, fields[i])
  {
    if exists i | 0 <= i < |fields| :: Absent(body, fields[i]) {
      var k := FirstAbsent(fields, body).value;
      assert fields[k] != "";
    }
  }

  // ---------------------------------------------------------------------------
  // stringTypeLengthCheck

  /** The `{ field, minLength, maxLength, text }` item handed to the check. */
  datatype LengthRule = LengthRule(field: Value, minLength: nat, maxLength: nat, text: string)

  function LengthMessage(text: string, minLength: nat, maxLength: nat): string {
    text + " should be a valid string, with length between " + NatToString(minLength) +
    " to " + NatToString(maxLength) + "!"
  }

  predicate FitsRule(item: LengthRule) {
    item.field.Str? && item.minLength <= Utf16Length(Trim(item.field.s)) <= item.maxLength
  }

  /** `stringTypeLengthCheck`: null for a string whose trimmed length is within the bounds. */
  function StringTypeLengthCheck(item: LengthRule): (r: Option<string>)
    ensures r.None? <==> FitsRule(item)
    ensures r.Some? ==> r.value == LengthMessage(item.text, item.minLength, item.maxLength)
  {
    if !FitsRule(item) then
      Some(LengthMessage(item.text, item.minLength, item.maxLength))
    else None
  }

  /** Surrounding whitespace never makes a string fit or miss its bounds. */
  lemma LengthCheckIgnoresPadding(s: string, pad: string, minLength: nat, maxLength: nat, text: string)
    requires s != [] && IsTrimmed(s)
    requires forall i | 0 <= i < |pad| :: IsSpace(pad[i])
    ensures StringTypeLengthCheck(LengthRule(Str(pad + s + pad), minLength, maxLength, text))
         == StringTypeLengthCheck(LengthRule(Str(s), minLength, maxLength, text))
  {
    TrimPadded(pad, s, pad);
  }

  // ---------------------------------------------------------------------------
  // checkEmailPasswordValues

  const EmailText: string := "EmailId"
  const PasswordText: string := "Password"
  const InvalidEmail: string := "Invalid EmailId!"
  const WeakPassword: string :=
    "Weak Password : Password must be at least 8 characters  long \n and include an uppercase letter, \n a lowercase letter, a number, \n and a special character"

  function EmailRule(body: Body): LengthRule {
    LengthRule(Get(body, "email"), 5, 254, EmailText)
  }

  function PasswordRule(body: Body): LengthRule {
    LengthRule(Get(body, "password"), 8, 128, PasswordText)
  }

  /** What one pass of the `forEach` callback sets `errMsg` to, if anything. */
  function ItemError(item: LengthRule, isEmail: string -> bool, isStrongPassword: string -> bool): (r: Option<string>)
    ensures !FitsRule(item) ==> r == StringTypeLengthCheck(item)
    ensures FitsRule(item) && item.text == EmailText ==> (r.Some? <==> !isEmail(Trim(item.field.s)))
    ensures FitsRule(item) && item.text == PasswordText ==> (r.Some? <==> !isStrongPassword(Trim(item.field.s)))
  {
    var typeLength := StringTypeLengthCheck(item);
    if typeLength.Some? then typeLength
    else if item.text == EmailText && !isEmail(Trim(item.field.s)) then Some(InvalidEmail)
    else if item.text == PasswordText && !isStrongPassword(Trim(item.field.s)) then Some(WeakPassword)
    else None
  }

  /** The errors of the two items, in the order they are checked. */
  function ItemErrors(body: Body, isEmail: string -> bool, isStrongPassword: string -> bool): seq<Option<string>> {
    [ItemError(EmailRule(body), isEmail, isStrongPassword), ItemError(PasswordRule(body), isEmail, isStrongPassword)]
  }

  /** The value `checkEmailPasswordValues` returns: the last error of the two items. */
  function EmailPasswordError(body: Body, isEmail: string -> bool, isStrongPassword: string -> bool): Option<string> {
    LastError(ItemErrors(body, isEmail, isStrongPassword))
  }

  /** `checkEmailPasswordValues`: both items are checked, in order, and each failure overwrites `errMsg`. */
  method CheckEmailPasswordValues(body: Body, isEmail: string -> bool, isStrongPassword: string -> bool)
    returns (errMsg: Option<string>)
    ensures errMsg == EmailPasswordError(body, isEmail, isStrongPassword)
  {
    var items := [EmailRule(body), PasswordRule(body)];
    ghost var errs := ItemErrors(body, isEmail, isStrongPassword);
    errMsg := None;
    var i := 0;
    while i < |items|
      invariant 0 <= i <= |items|
      invariant errMsg == LastError(errs[..i])
    {
      // the body of the `forEach` callback
      var itemErr := ItemError(items[i], isEmail, isStrongPassword);
      if itemErr.Some? {
        errMsg := itemErr;
      }
      LastErrorSnoc(errs[..i], errs[i]);
      assert errs[..i + 1] == errs[..i] + [errs[i]];
      i := i + 1;
    }
    assert errs[..i] == errs;
  }

  /** The password is checked after the email, so its error is the one reported. */
  lemma PasswordErrorWins(body: Body, isEmail: string -> bool, isStrongPassword: string -> bool)
    requires ItemError(PasswordRule(body), isEmail, isStrongPassword).Some?
    ensures EmailPasswordError(body, isEmail, isStrongPassword) == ItemError(PasswordRule(body), isEmail, isStrongPassword)
  {
  }

  /** With an acceptable password, the email's error (if any) is reported. */
  lemma EmailErrorShows(body: Body, isEmail: string -> bool, isStrongPassword: string -> bool)
    requires ItemError(PasswordRule(body), isEmail, isStrongPassword).None?
    ensures EmailPasswordError(body, isEmail, isStrongPassword) == ItemError(EmailRule(body), isEmail, isStrongPassword)
  {
    var e1 := ItemError(EmailRule(body), isEmail, isStrongPassword);
    var e2 := ItemError(PasswordRule(body), isEmail, isStrongPassword);
    LastErrorPair(e1, e2);
  }

  // ---------------------------------------------------------------------------
  // The two middlewares

  const SignupRequired: seq<string> := ["name", "email", "password"]
  const LoginRequired: seq<string> := ["email", "password"]

  function NameRule(body: Body): LengthRule {
    LengthRule(Get(body, "name"), 2, 50, "Name")
  }

  /** A failed check answers 400 with its message; otherwise control passes on. */
  function Reject(errMsg: Option<string>): (g: Gate)
    ensures g.Next? <==> errMsg.None?
    ensures errMsg.Some? ==> g == Stop(Reply(400, errMsg.value))
  {
    if errMsg.Some? then Stop(Reply(400, errMsg.value)) else Next
  }

  /** `signupPayloadCheck`: required fields, then the name, then email and password. */
  function SignupPayloadCheck(body: Body, isEmail: string -> bool, isStrongPassword: string -> bool): (g: Gate)
    ensures g.Next? <==>
      && (forall i | 0 <= i < |SignupRequired| :: !Absent(body, SignupRequired[i]))
      && FitsRule(NameRule(body))
      && EmailPasswordError(body, isEmail, isStrongPassword).None?
    ensures CheckReqFields(SignupRequired, body).Some? ==> g == Stop(Reply(400, CheckReqFields(SignupRequired, body).value))
    ensures CheckReqFields(SignupRequired, body).None? && !FitsRule(NameRule(body)) ==>
      g == Stop(Reply(400, LengthMessage("Name", 2, 50)))
    ensures (CheckReqFields(SignupRequired, body).None? && FitsRule(NameRule(body))
             && EmailPasswordError(body, isEmail, isStrongPassword).Some?) ==>
      g == Stop(Reply(400, EmailPasswordError(body, isEmail, isStrongPassword).value))
  {
    ReqFieldsIff(SignupRequired, body);
    Reject(OrElse(CheckReqFields(SignupRequired, body),
           OrElse(StringTypeLengthCheck(NameRule(body)),
                  EmailPasswordError(body, isEmail, isStrongPassword))))
  }

  /** `loginPayloadCheck`: required fields, then email and password. */
  function LoginPayloadCheck(body: Body, isEmail: string -> bool, isStrongPassword: string -> bool): (g: Gate)
    ensures g.Next? <==>
      && (forall i | 0 <= i < |LoginRequired| :: !Absent(body, LoginRequired[i]))
      && EmailPasswordError(body, isEmail, isStrongPassword).None?
    ensures CheckReqFields(LoginRequired, body).Some? ==> g == Stop(Reply(400, CheckReqFields(LoginRequired, body).value))
    ensures CheckReqFields(LoginRequired, body).None? && EmailPasswordError(body, isEmail, isStrongPassword).Some? ==>
      g == Stop(Reply(400, EmailPasswordError(body, isEmail, isStrongPassword).value))
  {
    ReqFieldsIff(LoginRequired, body);
    Reject(OrElse(CheckReqFields(LoginRequired, body), EmailPasswordError(body, isEmail, isStrongPassword)))
  }

  /** A body that passes signup also passes login: login checks a subset. */
  lemma SignupImpliesLogin(body: Body, isEmail: string -> bool, isStrongPassword: string -> bool)
    requires SignupPayloadCheck(body, isEmail, isStrongPassword).Next?
    ensures LoginPayloadCheck(body, isEmail, isStrongPassword).Next?
  {
    assert LoginRequired == SignupRequired[1..];
  }

  /** The stored form of a signup that passes: the setters keep the name within the schema's bounds. */
  lemma SignupNameFits(body: Body, isEmail: string -> bool, isStrongPassword: string -> bool)
    requires SignupPayloadCheck(body, isEmail, isStrongPassword).Next?
    ensures Get(body, "name").Str? && 2 <= Utf16Length(Trim(Get(body, "name").s)) <= 50
    ensures Get(body, "email").Str? && 5 <= Utf16Length(Trim(Get(body, "email").s)) <= 254
    ensures Get(body, "password").Str? && 8 <= Utf16Length(Trim(Get(body, "password").s)) <= 128
  {
    var es := ItemErrors(body, isEmail, isStrongPassword);
    assert es[0].None? && es[1].None?;
  }
}
