/**
 * The signup validator of the users table: the field declarations of
 * `validationDefault`, evaluated the way the framework's validator evaluates
 * them when a new record is created, together with a field-by-field
 * statement of what a signup must satisfy and a proof that the two agree.
 */
module UserValidation {
  import opened Basics
  import opened UserRecords

  /** The signup fields the validator declares rules for. */
  datatype Field =
    | Username | FirstName | LastName | Email | Birthdate | Password | Sex
    | Role | IsActivated | ActivationKey | ConfirmPassword

  const AllFields: set<Field> :=
    {Username, FirstName, LastName, Email, Birthdate, Password, Sex,
     Role, IsActivated, ActivationKey, ConfirmPassword}

  /** The request payload: each field the client sent, with its text. A field missing from the map was not sent. */
  type Form = map<Field, string>

  /**
   * The library checks the validator delegates to, and the clock: `isEmail`
   * is the email-format rule, `isDate` the date-format rule, `toTimestamp` the
   * `strtotime` parse (`None` where it returns `false`) and `now` the value of
   * `time()`.
   */
  datatype Env = Env(
    now: int,
    isEmail: string -> bool,
    isDate: string -> bool,
    toTimestamp: string -> Option<int>)

  /** The value rules `validationDefault` attaches to fields, apart from the presence and emptiness checks. */
  datatype Rule =
    | LengthBetween(min: nat, max: nat)
    | MaxLength(max: nat)
    | LettersOnly
    | Unique
    | EmailFormat
    | DateFormat
    | NotExceedCurrentDate
    | InList(options: seq<string>)
    | BooleanValue
    | CompareWith(other: Field)

  /** One entry of a field's error list: `_required`, `_empty`, or the name of a failed rule. */
  datatype Violation = Required | Empty | Broken(rule: Rule)

  /**
   * How one field is declared: whether it must be present on create, whether
   * the empty string is allowed (the last of `allowEmpty…`/`notEmpty…` wins),
   * and its value rules in declaration order.
   */
  datatype FieldRules = FieldRules(requiredOnCreate: bool, allowEmpty: bool, rules: seq<Rule>)

  function RulesOf(f: Field): FieldRules
  {
    match f
    case Username => FieldRules(true, false, [LengthBetween(6, 20), Unique])
    case FirstName => FieldRules(true, false, [MaxLength(70), LettersOnly])
    case LastName => FieldRules(true, false, [MaxLength(35), LettersOnly])
    case Email => FieldRules(true, false, [EmailFormat, Unique])
    case Birthdate => FieldRules(true, false, [DateFormat, NotExceedCurrentDate])
    case Password => FieldRules(true, false, [MaxLength(255)])
    case Sex => FieldRules(true, false, [InList(["M", "F"])])
    case Role => FieldRules(false, false, [])
    case IsActivated => FieldRules(false, false, [BooleanValue])
    case ActivationKey => FieldRules(true, true, [MaxLength(255)])
    case ConfirmPassword => FieldRules(true, false, [CompareWith(Password)])
  }

  /** The stored column a uniqueness rule on field `f` compares against. */
  function Column(u: User, f: Field): Option<string>
  {
    match f
    case Username => Some(u.username)
    case FirstName => Some(u.firstName)
    case LastName => Some(u.lastName)
    case Email => Some(u.email)
    case Birthdate => Some(u.birthdate)
    case Password => Some(u.password)
    case Sex => Some(u.sex)
    case Role => u.role
    case ActivationKey => Some(u.activationKey)
    case IsActivated => None
    case ConfirmPassword => None
  }

  /** Some visible user already stores `v` in the column of field `f`. */
  predicate Taken(users: seq<User>, f: Field, v: string)
  {
    exists u :: u in users && Visible(u) && Column(u, f) == Some(v)
  }

  /** The characters the names' character class excludes: `% # / * @ !` and the digits. */
  const ForbiddenNameChars: seq<char> := "%#/*@!0123456789"

  /**
   * The anchored regular expression "one or more characters outside the
   * class of `ForbiddenNameChars`", matched one character at a time.
   */
  predicate MatchesLettersOnly(v: string)
    decreases |v|
  {
    && |v| > 0
    && v[0] !in ForbiddenNameChars
    && (|v| == 1 || MatchesLettersOnly(v[1..]))
  }

  /**
   * `notExceedCurrentDate`: the parsed birthdate is strictly before `now`.
   * When `strtotime` fails it yields `false`, and PHP compares `false < $now`
   * as booleans, which holds exactly when `now` is non-zero.
   */
  predicate NotExceedingNow(v: string, env: Env)
  {
    match env.toTimestamp(v)
    case Some(t) => t < env.now
    case None => env.now != 0
  }

  predicate RulePasses(r: Rule, f: Field, v: string, form: Form, users: seq<User>, env: Env)
  {
    match r
    case LengthBetween(lo, hi) => lo <= |v| <= hi
    case MaxLength(n) => |v| <= n
    case LettersOnly => MatchesLettersOnly(v)
    case Unique => !Taken(users, f, v)
    case EmailFormat => env.isEmail(v)
    case DateFormat => env.isDate(v)
    case NotExceedCurrentDate => NotExceedingNow(v, env)
    case InList(options) => v in options
    case BooleanValue => v in ["0", "1"]
    case CompareWith(other) => other in form && form[other] == v
  }

  /**
   * The errors the validator records for field `f` of a new record: a
   * missing required field stops at `Required`, a disallowed empty value stops
   * at `Empty`, an allowed empty or missing optional value has none, and
   * otherwise every value rule runs and each failure is recorded.
   */
  function FieldErrors(f: Field, form: Form, users: seq<User>, env: Env): (errs: set<Violation>)
    ensures f !in form ==> errs == if f in RequiredOnCreate then {Required} else {}
    ensures f in form && form[f] == "" ==> errs == if f == ActivationKey then {} else {Empty}
    ensures f in form && form[f] != "" ==> Required !in errs && Empty !in errs
    ensures f in form && form[f] != "" ==>
      forall r :: Broken(r) in errs <==> r in RulesOf(f).rules && !RulePasses(r, f, form[f], form, users, env)
  {
    var spec := RulesOf(f);
    if f !in form then
      (if spec.requiredOnCreate then {Required} else {})
    else if form[f] == "" then
      (if spec.allowEmpty then {} else {Empty})
    else
      set r | r in spec.rules && !RulePasses(r, f, form[f], form, users, env) :: Broken(r)
  }

  /**
   * The error map of a new entity: a missing field is reported only when it
   * is required, and then only as `_required`; an empty value is reported,
   * only as `_empty`, unless the field allows it (the activation key alone
   * does); any other value is reported with exactly the rules it breaks.
   */
  function Validate(form: Form, users: seq<User>, env: Env): (errors: map<Field, set<Violation>>)
    ensures forall f :: f in errors <==> FieldErrors(f, form, users, env) != {}
    ensures forall f :: f in errors ==> errors[f] == FieldErrors(f, form, users, env)
    ensures forall f :: f !in form ==> (f in errors <==> f in RequiredOnCreate) && (f in errors ==> errors[f] == {Required})
    ensures forall f :: f in form && form[f] == "" ==> (f in errors <==> f != ActivationKey) && (f in errors ==> errors[f] == {Empty})
    ensures forall f :: f in form && form[f] != "" && f in errors ==> Required !in errors[f] && Empty !in errors[f]
    ensures forall f, r :: f in form && form[f] != "" ==>
      (f in errors && Broken(r) in errors[f] <==> r in RulesOf(f).rules && !RulePasses(r, f, form[f], form, users, env))
  {
    map f | f in AllFields && FieldErrors(f, form, users, env) != {} :: FieldErrors(f, form, users, env)
  }

  // ---------------------------------------------------------------------
  // The signup conditions stated field by field.
  // ---------------------------------------------------------------------

  /** The fields a new user record must carry. */
  const RequiredOnCreate: set<Field> :=
    {Username, FirstName, LastName, Email, Birthdate, Password, Sex, ActivationKey, ConfirmPassword}

  /** A first or last name: non-empty, at most `maxLen` characters, none of them excluded. */
  predicate NameAcceptable(v: string, maxLen: nat)
  {
    0 < |v| <= maxLen && forall i :: 0 <= i < |v| ==> v[i] !in ForbiddenNameChars
  }

  predicate AcceptableSignup(form: Form, users: seq<User>, env: Env)
  {
    && RequiredOnCreate <= form.Keys
    && 6 <= |form[Username]| <= 20
    && !(exists u :: u in users && Visible(u) && u.username == form[Username])
    && NameAcceptable(form[FirstName], 70)
    && NameAcceptable(form[LastName], 35)
    && form[Email] != ""
    && env.isEmail(form[Email])
    && !(exists u :: u in users && Visible(u) && u.email == form[Email])
    && form[Birthdate] != ""
    && env.isDate(form[Birthdate])
    && NotExceedingNow(form[Birthdate], env)
    && 0 < |form[Password]| <= 255
    && (form[Sex] == "M" || form[Sex] == "F")
    && |form[ActivationKey]| <= 255
    && form[ConfirmPassword] == form[Password]
    && (Role in form ==> form[Role] != "")
    && (IsActivated in form ==> form[IsActivated] == "0" || form[IsActivated] == "1")
  }

  lemma {:induction false} LettersOnlyMeansNoForbiddenChar(v: string)
    ensures MatchesLettersOnly(v) <==> |v| > 0 && forall i :: 0 <= i < |v| ==> v[i] !in ForbiddenNameChars
    decreases |v|
  {
    if |v| > 1 {
      LettersOnlyMeansNoForbiddenChar(v[1..]);
      assert forall i :: 1 <= i < |v| ==> v[i] == v[1..][i - 1];
    }
  }

  /** A field passes when its error set is empty. */
  lemma FieldPasses(f: Field, form: Form, users: seq<User>, env: Env)
    requires f in form && form[f] != ""
    requires forall r :: r in RulesOf(f).rules ==> RulePasses(r, f, form[f], form, users, env)
    ensures FieldErrors(f, form, users, env) == {}
  {
  }

  /** A present, non-empty field whose rule `r` fails records `Broken(r)`. */
  lemma RuleFailureRecorded(f: Field, r: Rule, form: Form, users: seq<User>, env: Env)
    requires f in form && form[f] != "" && r in RulesOf(f).rules
    requires !RulePasses(r, f, form[f], form, users, env)
    ensures Broken(r) in FieldErrors(f, form, users, env)
  {
  }

  /** A present, non-empty field without errors passes every one of its rules. */
  lemma CleanFieldPassesRules(f: Field, form: Form, users: seq<User>, env: Env)
    requires f in form && form[f] != ""
    requires FieldErrors(f, form, users, env) == {}
    ensures forall r :: r in RulesOf(f).rules ==> RulePasses(r, f, form[f], form, users, env)
  {
    forall r | r in RulesOf(f).rules ensures RulePasses(r, f, form[f], form, users, env) {
      if !RulePasses(r, f, form[f], form, users, env) {
        RuleFailureRecorded(f, r, form, users, env);
      }
    }
  }

  /** Every field condition holding leaves every field without errors. */
  lemma AcceptableIsClean(form: Form, users: seq<User>, env: Env)
    requires AcceptableSignup(form, users, env)
    ensures forall f :: FieldErrors(f, form, users, env) == {}
  {
    LettersOnlyMeansNoForbiddenChar(form[FirstName]);
    LettersOnlyMeansNoForbiddenChar(form[LastName]);
    forall f ensures FieldErrors(f, form, users, env) == {} {
      match f
      case Username =>
        assert !Taken(users, Username, form[Username]);
        FieldPasses(f, form, users, env);
      case Email =>
        assert !Taken(users, Email, form[Email]);
        FieldPasses(f, form, users, env);
      case FirstName => FieldPasses(f, form, users, env);
      case LastName => FieldPasses(f, form, users, env);
      case Birthdate => FieldPasses(f, form, users, env);
      case Password => FieldPasses(f, form, users, env);
      case Sex => FieldPasses(f, form, users, env);
      case ConfirmPassword => FieldPasses(f, form, users, env);
      case ActivationKey =>
      case Role =>
      case IsActivated =>
    }
  }

  /** Every required field of an error-free form is present, and non-empty unless empty is allowed. */
  lemma CleanFormHasRequiredFields(form: Form, users: seq<User>, env: Env)
    requires forall f :: FieldErrors(f, form, users, env) == {}
    ensures RequiredOnCreate <= form.Keys
    ensures forall f :: f in RequiredOnCreate && f != ActivationKey ==> form[f] != ""
  {
    forall f | f in RequiredOnCreate ensures f in form && (f != ActivationKey ==> form[f] != "") {
      assert FieldErrors(f, form, users, env) == {};
    }
  }

  /** A present, non-empty, error-free field passes rule `r` of its declaration. */
  lemma CleanFieldPassesRule(f: Field, r: Rule, form: Form, users: seq<User>, env: Env)
    requires f in form && form[f] != "" && FieldErrors(f, form, users, env) == {}
    requires r in RulesOf(f).rules
    ensures RulePasses(r, f, form[f], form, users, env)
  {
    CleanFieldPassesRules(f, form, users, env);
  }

  lemma CleanUsernameIsAcceptable(form: Form, users: seq<User>, env: Env)
    requires Username in form && form[Username] != "" && FieldErrors(Username, form, users, env) == {}
    ensures 6 <= |form[Username]| <= 20
    ensures !(exists u :: u in users && Visible(u) && u.username == form[Username])
  {
    CleanFieldPassesRule(Username, LengthBetween(6, 20), form, users, env);
    CleanFieldPassesRule(Username, Unique, form, users, env);
  }

  lemma CleanEmailIsAcceptable(form: Form, users: seq<User>, env: Env)
    requires Email in form && form[Email] != "" && FieldErrors(Email, form, users, env) == {}
    ensures env.isEmail(form[Email])
    ensures !(exists u :: u in users && Visible(u) && u.email == form[Email])
  {
    CleanFieldPassesRule(Email, EmailFormat, form, users, env);
    CleanFieldPassesRule(Email, Unique, form, users, env);
  }

  lemma CleanNameIsAcceptable(f: Field, maxLen: nat, form: Form, users: seq<User>, env: Env)
    requires (f == FirstName && maxLen == 70) || (f == LastName && maxLen == 35)
    requires f in form && form[f] != "" && FieldErrors(f, form, users, env) == {}
    ensures NameAcceptable(form[f], maxLen)
  {
    CleanFieldPassesRule(f, MaxLength(maxLen), form, users, env);
    CleanFieldPassesRule(f, LettersOnly, form, users, env);
    LettersOnlyMeansNoForbiddenChar(form[f]);
  }

  lemma CleanBirthdateIsAcceptable(form: Form, users: seq<User>, env: Env)
    requires Birthdate in form && form[Birthdate] != "" && FieldErrors(Birthdate, form, users, env) == {}
    ensures env.isDate(form[Birthdate]) && NotExceedingNow(form[Birthdate], env)
  {
    CleanFieldPassesRule(Birthdate, DateFormat, form, users, env);
    CleanFieldPassesRule(Birthdate, NotExceedCurrentDate, form, users, env);
  }

  lemma CleanSecretsAreAcceptable(form: Form, users: seq<User>, env: Env)
    requires Password in form && form[Password] != "" && FieldErrors(Password, form, users, env) == {}
    requires ConfirmPassword in form && form[ConfirmPassword] != "" && FieldErrors(ConfirmPassword, form, users, env) == {}
    requires ActivationKey in form && FieldErrors(ActivationKey, form, users, env) == {}
    ensures |form[Password]| <= 255
    ensures form[ConfirmPassword] == form[Password]
    ensures |form[ActivationKey]| <= 255
  {
    CleanFieldPassesRule(Password, MaxLength(255), form, users, env);
    CleanFieldPassesRule(ConfirmPassword, CompareWith(Password), form, users, env);
    if form[ActivationKey] != "" {
      CleanFieldPassesRule(ActivationKey, MaxLength(255), form, users, env);
    }
  }

  lemma CleanOptionalFieldsAreAcceptable(form: Form, users: seq<User>, env: Env)
    requires FieldErrors(Sex, form, users, env) == {} && Sex in form && form[Sex] != ""
    requires FieldErrors(Role, form, users, env) == {}
    requires FieldErrors(IsActivated, form, users, env) == {}
    ensures form[Sex] == "M" || form[Sex] == "F"
    ensures Role in form ==> form[Role] != ""
    ensures IsActivated in form ==> form[IsActivated] == "0" || form[IsActivated] == "1"
  {
    CleanFieldPassesRule(Sex, InList(["M", "F"]), form, users, env);
    if IsActivated in form && form[IsActivated] != "" {
      CleanFieldPassesRule(IsActivated, BooleanValue, form, users, env);
    }
  }

  /** A form without errors in any field satisfies every field condition. */
  lemma CleanIsAcceptable(form: Form, users: seq<User>, env: Env)
    requires forall f :: FieldErrors(f, form, users, env) == {}
    ensures AcceptableSignup(form, users, env)
  {
    CleanFormHasRequiredFields(form, users, env);
    assert Username in RequiredOnCreate && FirstName in RequiredOnCreate && LastName in RequiredOnCreate;
    assert Email in RequiredOnCreate && Birthdate in RequiredOnCreate && Password in RequiredOnCreate;
    assert Sex in RequiredOnCreate && ActivationKey in RequiredOnCreate && ConfirmPassword in RequiredOnCreate;
    CleanUsernameIsAcceptable(form, users, env);
    CleanEmailIsAcceptable(form, users, env);
    CleanNameIsAcceptable(FirstName, 70, form, users, env);
    CleanNameIsAcceptable(LastName, 35, form, users, env);
    CleanBirthdateIsAcceptable(form, users, env);
    CleanSecretsAreAcceptable(form, users, env);
    CleanOptionalFieldsAreAcceptable(form, users, env);
  }

  /**
   * The validator reports no error exactly when the signup satisfies every
   * field condition: the rule table and the field-by-field statement agree.
   */
  lemma ValidateAccepts(form: Form, users: seq<User>, env: Env)
    ensures Validate(form, users, env) == map[] <==> AcceptableSignup(form, users, env)
  {
    var errors := Validate(form, users, env);
    if AcceptableSignup(form, users, env) {
      AcceptableIsClean(form, users, env);
      assert errors.Keys == {};
    } else if errors == map[] {
      forall f ensures FieldErrors(f, form, users, env) == {} {
        assert f !in errors;
      }
      CleanIsAcceptable(form, users, env);
    }
  }

  /** A signup that leaves out a required field gets a `Required` error for it. */
  lemma MissingFieldRejected(form: Form, users: seq<User>, env: Env, f: Field)
    requires f in RequiredOnCreate && f !in form
    ensures f in Validate(form, users, env)
    ensures Validate(form, users, env)[f] == {Required}
  {
  }

  /** A birthdate that parses to a time at or after `now` is rejected by `notExceedCurrentDate`. */
  lemma FutureBirthdateRejected(form: Form, users: seq<User>, env: Env, t: int)
    requires Birthdate in form && form[Birthdate] != ""
    requires env.toTimestamp(form[Birthdate]) == Some(t) && t >= env.now
    ensures Birthdate in Validate(form, users, env)
    ensures Broken(NotExceedCurrentDate) in Validate(form, users, env)[Birthdate]
  {
    RuleFailureRecorded(Birthdate, NotExceedCurrentDate, form, users, env);
  }
}
