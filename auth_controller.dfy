/** The authentication controller (backend/controllers/authController.js): the validation
    chain of `register` (required fields, the password rule, the candidate's name split, the
    dispatch on the role), the way its failures are reported, and the decision order of
    `login`. Hashing, token signing and the database are inputs. */
module AuthController {
  import opened JsStrings
  import opened JsValues
  import opened Wrappers
  import opened Http

  // ---------------------------------------------------------------------------------------
  // the password rule /^(?=.*[A-Za-z])(?=.*\d)[A-Za-z\d@$!%*?&]{6,}$/

  /** The characters `.` does not match. */
  predicate IsLineTerminator(c: char) {
    c == '\n' || c == '\r' || c == '\U{2028}' || c == '\U{2029}'
  }

  /** The class `[A-Za-z\d@$!%*?&]`. */
  predicate InPasswordClass(c: char) {
    IsLetter(c) || IsDigit(c) || c in "@$!%*?&"
  }

  /** `[A-Za-z]` when `letter` holds, `\d` otherwise. */
  predicate Wanted(c: char, letter: bool) {
    if letter then IsLetter(c) else IsDigit(c)
  }

  /** The lookahead `(?=.*X)` at the start of `s`: `.*X` matches either X at once, or one
      character other than a line terminator followed by `.*X`. */
  predicate LookaheadMatches(s: string, letter: bool) {
    |s| > 0 && (Wanted(s[0], letter) || (!IsLineTerminator(s[0]) && LookaheadMatches(s[1..], letter)))
  }

  /** `[A-Za-z\d@$!%*?&]{min,}$` at the start of `s`. */
  predicate ClassRunMatches(s: string, min: nat) {
    if s == [] then min == 0
    else InPasswordClass(s[0]) && ClassRunMatches(s[1..], if min == 0 then 0 else min - 1)
  }

  /** `passwordRegex.test(s)`. */
  predicate PasswordRegexMatches(s: string) {
    LookaheadMatches(s, true) && LookaheadMatches(s, false) && ClassRunMatches(s, 6)
  }

  /** The rule in words: at least six characters, all from the class, at least one ASCII
      letter and at least one decimal digit. */
  predicate PasswordPolicy(s: string) {
    && |s| >= 6
    && (forall i :: 0 <= i < |s| ==> InPasswordClass(s[i]))
    && (exists i :: 0 <= i < |s| && IsLetter(s[i]))
    && (exists i :: 0 <= i < |s| && IsDigit(s[i]))
  }

  lemma {:induction false} ClassRunMeans(s: string, min: nat)
    ensures ClassRunMatches(s, min) <==>
              |s| >= min && forall i :: 0 <= i < |s| ==> InPasswordClass(s[i])
  {
    if s != [] {
      ClassRunMeans(s[1..], if min == 0 then 0 else min - 1);
      assert forall i :: 1 <= i < |s| ==> s[i] == s[1..][i - 1];
    }
  }

  lemma {:induction false} LookaheadFindsWanted(s: string, letter: bool)
    requires LookaheadMatches(s, letter)
    ensures exists i :: 0 <= i < |s| && Wanted(s[i], letter)
  {
    if !Wanted(s[0], letter) {
      LookaheadFindsWanted(s[1..], letter);
      var i :| 0 <= i < |s[1..]| && Wanted(s[1..][i], letter);
      assert Wanted(s[i + 1], letter);
    }
  }

  lemma {:induction false} LookaheadOverClass(s: string, letter: bool, i: nat)
    requires forall k :: 0 <= k < |s| ==> InPasswordClass(s[k])
    requires i < |s| && Wanted(s[i], letter)
    ensures LookaheadMatches(s, letter)
    decreases i
  {
    if i > 0 {
      assert !IsLineTerminator(s[0]);
      LookaheadOverClass(s[1..], letter, i - 1);
    }
  }

  /** The regular expression accepts exactly the passwords the rule describes. */
  lemma PasswordRegexMeansPolicy(s: string)
    ensures PasswordRegexMatches(s) <==> PasswordPolicy(s)
  {
    ClassRunMeans(s, 6);
    if PasswordRegexMatches(s) {
      LookaheadFindsWanted(s, true);
      LookaheadFindsWanted(s, false);
      var i :| 0 <= i < |s| && Wanted(s[i], true);
      var j :| 0 <= j < |s| && Wanted(s[j], false);
      assert IsLetter(s[i]) && IsDigit(s[j]);
    }
    if PasswordPolicy(s) {
      var i :| 0 <= i < |s| && IsLetter(s[i]);
      var j :| 0 <= j < |s| && IsDigit(s[j]);
      LookaheadOverClass(s, true, i);
      LookaheadOverClass(s, false, j);
    }
  }

  // ---------------------------------------------------------------------------------------
  // the candidate's name

  /** `full_name.split(' ')`: the first piece, and the other pieces joined back with " ". */
  function SplitFullName(full: string): (names: (string, string))
    ensures ' ' !in names.0
    ensures ' ' !in full ==> names == (full, "")
  {
    var parts := Split(full, ' ');
    JoinSplit(full, ' ');
    (parts[0], Join(parts[1..], " "))
  }

  /** When the full name holds a space, the first name, a space and the last name give back
      the full name exactly. */
  lemma FullNameRebuilt(full: string)
    requires ' ' in full
    ensures SplitFullName(full).0 + " " + SplitFullName(full).1 == full
  {
    var parts := Split(full, ' ');
    JoinSplit(full, ' ');
    assert |parts| >= 2;
  }

  const NamesRequired := "First Name and Last Name are required"
  const ServerErrorMessage := "Server Error"

  /** `fName`/`lName`: `first_name` and `last_name`, unless `first_name` is falsy and
      `full_name` truthy, in which case both come from splitting `full_name` (and a
      `full_name` that is not a string makes `split` throw, which ends in the generic 500).
      Both names must then be truthy. */
  function CandidateNames(body: Body): (d: Decision<(JsValue, JsValue)>)
    ensures d.Ok? ==> Truthy(d.args.0) && Truthy(d.args.1)
    ensures Truthy(Get(body, "first_name")) ==>
              d == (if Truthy(Get(body, "last_name"))
                    then Ok((Get(body, "first_name"), Get(body, "last_name")))
                    else Err(BadRequest, NamesRequired))
    ensures d.Err? ==> d == Err(BadRequest, NamesRequired) || d == Err(ServerError, ServerErrorMessage)
    ensures !Truthy(Get(body, "first_name")) && Truthy(Get(body, "full_name")) && !Get(body, "full_name").Str? ==>
              d == Err(ServerError, ServerErrorMessage)
    ensures !Truthy(Get(body, "first_name")) && !Truthy(Get(body, "full_name")) ==>
              d == Err(BadRequest, NamesRequired)
  {
    var first := Get(body, "first_name");
    var last := Get(body, "last_name");
    var full := Get(body, "full_name");
    var names: Decision<(JsValue, JsValue)> :=
      if !Truthy(first) && Truthy(full) then
        if full.Str? then
          var (f, l) := SplitFullName(full.s);
          Ok((Str(f), Str(l)))
        else Err(ServerError, ServerErrorMessage)
      else Ok((first, last));
    match names
    case Err(_, _) => names
    case Ok((f, l)) => if !Truthy(f) || !Truthy(l) then Err(BadRequest, NamesRequired) else names
  }

  /** A full name of one word leaves the last name empty, so the registration is refused
      whatever `last_name` says. */
  lemma OneWordFullNameRejected(body: Body)
    requires !Truthy(Get(body, "first_name"))
    requires Get(body, "full_name").Str? && Get(body, "full_name").s != ""
    requires ' ' !in Get(body, "full_name").s
    ensures CandidateNames(body) == Err(BadRequest, NamesRequired)
  {
  }

  /** A full name "first rest" with no space in `first` gives `first` as the first name
      and `rest`, spaces and all, as the last name. */
  lemma FullNameAtFirstSpace(first: string, rest: string)
    requires ' ' !in first
    ensures SplitFullName(first + " " + rest) == (first, rest)
  {
    SplitAtFirst(first, rest, ' ');
    JoinSplit(rest, ' ');
    assert Split(first + " " + rest, ' ')[1..] == Split(rest, ' ');
  }

  /** A non-empty first word and a non-empty remainder become the first and the last name. */
  lemma TwoWordFullName(body: Body, first: string, last: string)
    requires !Truthy(Get(body, "first_name"))
    requires first != "" && last != "" && ' ' !in first
    requires Get(body, "full_name") == Str(first + " " + last)
    ensures CandidateNames(body) == Ok((Str(first), Str(last)))
  {
    FullNameAtFirstSpace(first, last);
  }

  // ---------------------------------------------------------------------------------------
  // register

  /** The stored procedure `register` calls, with its arguments. The password is the value
      that `bcrypt.hash` receives. */
  datatype RegisterCall =
    | RegisterCandidate(username: JsValue, email: JsValue, password: JsValue,
                        firstName: JsValue, lastName: JsValue,
                        city: JsValue, division: JsValue, country: JsValue, experience: JsValue)
    | RegisterEmployer(username: JsValue, email: JsValue, password: JsValue,
                       companyName: JsValue, industry: JsValue, location: JsValue,
                       contactNumber: JsValue, website: JsValue)
    | RegisterTrainer(username: JsValue, email: JsValue, password: JsValue,
                      organizationName: JsValue, specialization: JsValue, contactNumber: JsValue)

  const FillRequired := "Please fill all required fields"
  const PasswordRule :=
    "Password must be at least 6 characters long and include at least one letter and one number."
  const CompanyRequired := "Company Name is required for Employers"
  const InvalidRole := "Invalid Role"

  predicate HasCredentials(body: Body) {
    Truthy(Get(body, "username")) && Truthy(Get(body, "email")) && Truthy(Get(body, "password"))
  }

  /** `passwordRegex.test(password)`; `test` reads its argument with `String(v)`. */
  predicate PasswordPasses(body: Body) {
    PasswordRegexMatches(ToStr(Get(body, "password")))
  }

  /** `experience_years !== undefined && experience_years !== '' ? experience_years : null`. */
  function Experience(v: JsValue): (r: JsValue)
    ensures v.Undefined? || v == Str("") ==> r == Null
    ensures !(v.Undefined? || v == Str("")) ==> r == v
  {
    if v.Undefined? || v == Str("") then Null else v
  }

  function RoleCall(body: Body): Decision<RegisterCall>
  {
    var username := Get(body, "username");
    var email := Get(body, "email");
    var password := Get(body, "password");
    var role := Get(body, "user_role");
    if role == Str("Candidate") then
      match CandidateNames(body)
      case Err(status, message) => Err(status, message)
      case Ok((f, l)) =>
        Ok(RegisterCandidate(username, email, password, f, l,
                             OrNull(Get(body, "city")), OrNull(Get(body, "division")),
                             OrNull(Get(body, "country")), Experience(Get(body, "experience_years"))))
    else if role == Str("Employer") then
      if !Truthy(Get(body, "company_name")) then Err(BadRequest, CompanyRequired)
      else
        Ok(RegisterEmployer(username, email, password, Get(body, "company_name"),
                            Get(body, "industry"), Get(body, "location"),
                            Get(body, "contact_number"), Get(body, "website")))
    else if role == Str("Trainer") then
      Ok(RegisterTrainer(username, email, password, Get(body, "organization_name"),
                         Get(body, "specialization"), Get(body, "contact_number")))
    else Err(BadRequest, InvalidRole)
  }

  /** `register` up to the procedure call: the required fields, then the password rule, then
      the checks of the chosen role. */
  function Register(body: Body): (d: Decision<RegisterCall>)
    ensures !HasCredentials(body) ==> d == Err(BadRequest, FillRequired)
    ensures HasCredentials(body) && !PasswordPolicy(ToStr(Get(body, "password"))) ==>
              d == Err(BadRequest, PasswordRule)
    ensures d.Ok? ==> HasCredentials(body) && PasswordPolicy(ToStr(Get(body, "password")))
    ensures d.Ok? ==> Get(body, "user_role") in {Str("Candidate"), Str("Employer"), Str("Trainer")}
    ensures d.Ok? ==> d.args.username == Get(body, "username") && d.args.email == Get(body, "email")
                      && d.args.password == Get(body, "password")
    ensures d.Err? ==> d.status in {BadRequest, ServerError}
  {
    PasswordRegexMeansPolicy(ToStr(Get(body, "password")));
    if !HasCredentials(body) then Err(BadRequest, FillRequired)
    else if !PasswordPasses(body) then Err(BadRequest, PasswordRule)
    else RoleCall(body)
  }

  /** Every role other than the three is refused with "Invalid Role", and only once the
      credentials and the password have passed. */
  lemma UnknownRoleRejected(body: Body)
    requires Get(body, "user_role") !in {Str("Candidate"), Str("Employer"), Str("Trainer")}
    ensures Register(body) == (if !HasCredentials(body) then Err(BadRequest, FillRequired)
                               else if !PasswordPolicy(ToStr(Get(body, "password")))
                               then Err(BadRequest, PasswordRule)
                               else Err(BadRequest, InvalidRole))
  {
    PasswordRegexMeansPolicy(ToStr(Get(body, "password")));
  }

  /** An employer registration goes through exactly when the company name is truthy. */
  lemma EmployerNeedsCompany(body: Body)
    requires HasCredentials(body) && PasswordPolicy(ToStr(Get(body, "password")))
    requires Get(body, "user_role") == Str("Employer")
    ensures Register(body).Ok? <==> Truthy(Get(body, "company_name"))
    ensures !Truthy(Get(body, "company_name")) ==> Register(body) == Err(BadRequest, CompanyRequired)
    ensures Truthy(Get(body, "company_name")) ==>
              Register(body) == Ok(RegisterEmployer(Get(body, "username"), Get(body, "email"),
                                                    Get(body, "password"), Get(body, "company_name"),
                                                    Get(body, "industry"), Get(body, "location"),
                                                    Get(body, "contact_number"), Get(body, "website")))
  {
    PasswordRegexMeansPolicy(ToStr(Get(body, "password")));
  }

  /** A trainer registration with valid credentials always goes through, with the
      organisation, specialisation and contact number as sent. */
  lemma TrainerRegistered(body: Body)
    requires HasCredentials(body) && PasswordPolicy(ToStr(Get(body, "password")))
    requires Get(body, "user_role") == Str("Trainer")
    ensures Register(body) == Ok(RegisterTrainer(Get(body, "username"), Get(body, "email"),
                                                 Get(body, "password"), Get(body, "organization_name"),
                                                 Get(body, "specialization"), Get(body, "contact_number")))
  {
    PasswordRegexMeansPolicy(ToStr(Get(body, "password")));
  }

  /** Past the credential and password checks, a candidate registration is decided by
      `CandidateNames`: its refusal is the reply, and otherwise its two names are passed on,
      with the credentials as sent. */
  lemma CandidateRegistration(body: Body)
    requires HasCredentials(body) && PasswordPolicy(ToStr(Get(body, "password")))
    requires Get(body, "user_role") == Str("Candidate")
    ensures Register(body).Ok? <==> CandidateNames(body).Ok?
    ensures CandidateNames(body).Err? ==>
              Register(body) == Err(CandidateNames(body).status, CandidateNames(body).message)
    ensures Register(body).Ok? ==>
              && Register(body).args.RegisterCandidate?
              && (Register(body).args.firstName, Register(body).args.lastName) == CandidateNames(body).args
  {
    PasswordRegexMeansPolicy(ToStr(Get(body, "password")));
  }

  /** A candidate who sends no `first_name` and a one-word `full_name` is refused, even
      with valid credentials. */
  lemma OneWordCandidateRejected(body: Body)
    requires HasCredentials(body) && PasswordPolicy(ToStr(Get(body, "password")))
    requires Get(body, "user_role") == Str("Candidate")
    requires !Truthy(Get(body, "first_name"))
    requires Get(body, "full_name").Str? && Get(body, "full_name").s != ""
    requires ' ' !in Get(body, "full_name").s
    ensures Register(body) == Err(BadRequest, NamesRequired)
  {
    PasswordRegexMeansPolicy(ToStr(Get(body, "password")));
    OneWordFullNameRejected(body);
  }

  /** A candidate who sends no `first_name` and a full name "first rest" is registered with
      those two names and the experience figure as `Experience` reads it. */
  lemma TwoWordCandidateRegistered(body: Body, first: string, last: string)
    requires HasCredentials(body) && PasswordPolicy(ToStr(Get(body, "password")))
    requires Get(body, "user_role") == Str("Candidate")
    requires !Truthy(Get(body, "first_name"))
    requires first != "" && last != "" && ' ' !in first
    requires Get(body, "full_name") == Str(first + " " + last)
    ensures var d := Register(body);
            && d.Ok? && d.args.RegisterCandidate?
            && d.args.firstName == Str(first) && d.args.lastName == Str(last)
            && d.args.experience == Experience(Get(body, "experience_years"))
  {
    PasswordRegexMeansPolicy(ToStr(Get(body, "password")));
    TwoWordFullName(body, first, last);
  }

  /** An accepted candidate registration has truthy names, NULL for every falsy address
      part, and an experience figure that is NULL only when it was absent or "" (so 0 is
      kept). */
  lemma CandidateArguments(body: Body)
    requires Register(body).Ok? && Get(body, "user_role") == Str("Candidate")
    ensures var c := Register(body).args;
            && c.RegisterCandidate?
            && Truthy(c.firstName) && Truthy(c.lastName)
            && c.city == OrNull(Get(body, "city"))
            && c.division == OrNull(Get(body, "division"))
            && c.country == OrNull(Get(body, "country"))
            && (c.experience == Null <==> Get(body, "experience_years") in {Undefined, Null, Str("")})
            && (Get(body, "experience_years") == Num(0) ==> c.experience == Num(0))
  {
  }

  /** What the client receives: the validation result, or after the procedure call either
      201, or for a database error 409 on a unique violation (code "23505") and 500 on any
      other. `failure` is the `code` of the error the procedure call raised, if any. */
  datatype Reply = Reply(status: nat, message: string)

  function RegisterReply(d: Decision<RegisterCall>, failure: Option<JsValue>): (r: Reply)
    ensures d.Err? ==> r == Reply(d.status, d.message)
    ensures d.Ok? && failure.None? ==> r == Reply(201, "Registered and logged in")
    ensures d.Ok? && failure.Some? ==>
              (r.status == Conflict <==> failure.value == Str("23505"))
    ensures d.Ok? && failure.Some? ==> r.status in {Conflict, ServerError}
  {
    match d
    case Err(status, message) => Reply(status, message)
    case Ok(_) =>
      match failure
      case None => Reply(201, "Registered and logged in")
      case Some(code) =>
        if code == Str("23505") then Reply(Conflict, "Username or Email already exists")
        else Reply(ServerError, ServerErrorMessage)
  }

  // ---------------------------------------------------------------------------------------
  // login

  /** A row of `users`. `is_active` may be NULL. */
  datatype UserRow = UserRow(userId: nat, email: string, username: string, role: string,
                             isActive: JsValue)

  /** The session a successful login signs into a token. */
  datatype Session = Session(userId: nat, username: string, role: string)

  const InvalidCredentials := "Invalid credentials"
  const Deactivated := "Account deactivated. Please contact support."

  /** `SELECT * FROM users WHERE email = $1`, first row. */
  function UserByEmail(users: seq<UserRow>, email: JsValue): (r: Option<UserRow>)
    ensures r.Some? ==> r.value in users && email == Str(r.value.email)
    ensures r.None? <==> forall k :: 0 <= k < |users| ==> email != Str(users[k].email)
  {
    if users == [] then None
    else if email == Str(users[0].email) then Some(users[0])
    else
      var r := UserByEmail(users[1..], email);
      assert forall k :: 1 <= k < |users| ==> users[k] == users[1..][k - 1];
      r
  }

  /** `login`: an unknown email, then a deactivated account (`is_active === false`), then a
      wrong password. `passwordMatches` is what `bcrypt.compare` answers for the row found. */
  function Login(users: seq<UserRow>, body: Body, passwordMatches: bool): (d: Decision<Session>)
    ensures UserByEmail(users, Get(body, "email")).None? ==> d == Err(BadRequest, InvalidCredentials)
    ensures d.Ok? <==> && UserByEmail(users, Get(body, "email")).Some?
                       && UserByEmail(users, Get(body, "email")).value.isActive != Bool(false)
                       && passwordMatches
    ensures d.Ok? ==> exists k :: 0 <= k < |users| && Get(body, "email") == Str(users[k].email)
                                  && d.args == Session(users[k].userId, users[k].username, users[k].role)
  {
    match UserByEmail(users, Get(body, "email"))
    case None => Err(BadRequest, InvalidCredentials)
    case Some(user) =>
      if user.isActive == Bool(false) then Err(Forbidden, Deactivated)
      else if !passwordMatches then Err(BadRequest, InvalidCredentials)
      else Ok(Session(user.userId, user.username, user.role))
  }

  /** A deactivated account is reported as such whatever password was given. */
  lemma DeactivatedBeforePassword(users: seq<UserRow>, body: Body, a: bool, b: bool)
    requires UserByEmail(users, Get(body, "email")).Some?
    requires UserByEmail(users, Get(body, "email")).value.isActive == Bool(false)
    ensures Login(users, body, a) == Login(users, body, b) == Err(Forbidden, Deactivated)
  {
  }

  /** A wrong password for an active account gets the very reply an unknown email gets. */
  lemma WrongPasswordLooksLikeUnknownEmail(users: seq<UserRow>, others: seq<UserRow>, body: Body, b: bool)
    requires UserByEmail(users, Get(body, "email")).Some?
    requires UserByEmail(users, Get(body, "email")).value.isActive != Bool(false)
    requires forall k :: 0 <= k < |others| ==> Get(body, "email") != Str(others[k].email)
    ensures Login(users, body, false) == Login(others, body, b)
  {
  }
}
