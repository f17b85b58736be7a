/** The sign-up and sign-in page (frontend/js/auth.js): the registration payload, whose
    fields depend on the chosen role, and the page a successful login lands on. */
module AuthPage {
  import opened JsStrings
  import opened JsValues
  import opened Wrappers
  import opened Http
  import AuthController

  /** The values of the registration form's inputs. */
  datatype RegisterForm = RegisterForm(
    username: string, email: string, password: string, fullName: string, role: string,
    location: string, experience: string,
    companyName: string, industry: string, contactNumber: string, website: string,
    organizationName: string, specialization: string, trainerContact: string)

  /** The fields every registration payload carries. */
  const BaseKeys: set<string> := {"username", "email", "password", "full_name", "user_role", "location"}

  /** The fields each role adds. */
  const CandidateKeys: set<string> := {"experience_years"}
  const EmployerKeys: set<string> := {"company_name", "industry", "contact_number", "website"}
  const TrainerKeys: set<string> := {"organization_name", "specialization", "contact_number"}

  function Base(form: RegisterForm): (p: Body)
    ensures p.Keys == BaseKeys
    ensures forall key :: key in p ==> p[key].Str?
    ensures p["username"] == Str(form.username) && p["email"] == Str(form.email)
    ensures p["password"] == Str(form.password) && p["full_name"] == Str(form.fullName)
    ensures p["user_role"] == Str(form.role) && p["location"] == Str(form.location)
  {
    map["username" := Str(form.username), "email" := Str(form.email),
        "password" := Str(form.password), "full_name" := Str(form.fullName),
        "user_role" := Str(form.role), "location" := Str(form.location)]
  }

  /** The fields of the chosen role, each with the form's string; none for another role. */
  function RoleFields(form: RegisterForm): (p: Body)
    ensures form.role == "Candidate" ==> p.Keys == CandidateKeys && p["experience_years"] == Str(form.experience)
    ensures form.role == "Employer" ==>
              && p.Keys == EmployerKeys
              && p["company_name"] == Str(form.companyName) && p["industry"] == Str(form.industry)
              && p["contact_number"] == Str(form.contactNumber) && p["website"] == Str(form.website)
    ensures form.role == "Trainer" ==>
              && p.Keys == TrainerKeys
              && p["organization_name"] == Str(form.organizationName)
              && p["specialization"] == Str(form.specialization)
              && p["contact_number"] == Str(form.trainerContact)
    ensures form.role !in {"Candidate", "Employer", "Trainer"} ==> p == map[]
  {
    if form.role == "Candidate" then
      map["experience_years" := Str(form.experience)]
    else if form.role == "Employer" then
      map["company_name" := Str(form.companyName), "industry" := Str(form.industry),
          "contact_number" := Str(form.contactNumber), "website" := Str(form.website)]
    else if form.role == "Trainer" then
      map["organization_name" := Str(form.organizationName),
          "specialization" := Str(form.specialization), "contact_number" := Str(form.trainerContact)]
    else map[]
  }

  /** No role field has the name of a common field. */
  lemma RoleKeysAreNotBase()
    ensures forall key :: key in BaseKeys ==> key !in CandidateKeys + EmployerKeys + TrainerKeys
  {
  }

  /** The payload `register` posts: the common fields, then those of the chosen role. */
  function RegisterPayload(form: RegisterForm): (p: Body)
    ensures BaseKeys <= p.Keys
    ensures forall key :: key in BaseKeys ==> p[key] == Base(form)[key]
    ensures form.role == "Candidate" ==>
              p.Keys == BaseKeys + CandidateKeys && p["experience_years"] == Str(form.experience)
    ensures form.role == "Employer" ==>
              && p.Keys == BaseKeys + EmployerKeys
              && p["company_name"] == Str(form.companyName) && p["industry"] == Str(form.industry)
              && p["contact_number"] == Str(form.contactNumber) && p["website"] == Str(form.website)
    ensures form.role == "Trainer" ==>
              && p.Keys == BaseKeys + TrainerKeys
              && p["organization_name"] == Str(form.organizationName)
              && p["specialization"] == Str(form.specialization)
              && p["contact_number"] == Str(form.trainerContact)
    ensures form.role !in {"Candidate", "Employer", "Trainer"} ==> p == Base(form)
  {
    RoleKeysAreNotBase();
    var p := Base(form) + RoleFields(form);
    assert form.role !in {"Candidate", "Employer", "Trainer"} ==> p == Base(form);
    p
  }

  /** A common field as the server reads it: the form's string, which JSON carries
      unchanged. */
  lemma CommonFieldReceived(form: RegisterForm, key: string)
    requires key in BaseKeys
    ensures Get(Transmit(RegisterPayload(form)), key) == Base(form)[key]
  {
    var p := RegisterPayload(form);
    assert key in p && p[key] == Base(form)[key] && p[key].Str?;
    TransmitGet(p, key);
  }

  /** What the server reads from the payload: the form's strings. */
  lemma PayloadReceived(form: RegisterForm)
    ensures var body := Transmit(RegisterPayload(form));
            && Get(body, "username") == Str(form.username)
            && Get(body, "email") == Str(form.email)
            && Get(body, "password") == Str(form.password)
            && Get(body, "user_role") == Str(form.role)
            && Get(body, "full_name") == Str(form.fullName)
  {
    CommonFieldReceived(form, "username");
    CommonFieldReceived(form, "email");
    CommonFieldReceived(form, "password");
    CommonFieldReceived(form, "user_role");
    CommonFieldReceived(form, "full_name");
  }

  lemma NoFirstNameKey(form: RegisterForm)
    ensures "first_name" !in RegisterPayload(form)
  {
    FirstNameIsNoFormKey();
    var p := RegisterPayload(form);
    if form.role == "Candidate" {
      assert p.Keys == BaseKeys + CandidateKeys;
    } else if form.role == "Employer" {
      assert p.Keys == BaseKeys + EmployerKeys;
    } else if form.role == "Trainer" {
      assert p.Keys == BaseKeys + TrainerKeys;
    } else {
      assert p.Keys == BaseKeys;
    }
  }

  lemma FirstNameIsNoFormKey()
    ensures "first_name" !in BaseKeys + CandidateKeys + EmployerKeys + TrainerKeys
  {
  }

  /** Whatever the role, the payload has no `first_name`. */
  lemma FirstNameNeverSent(form: RegisterForm)
    ensures Get(Transmit(RegisterPayload(form)), "first_name") == Undefined
  {
    NoFirstNameKey(form);
    TransmitGet(RegisterPayload(form), "first_name");
  }

  /** The role's own fields as the server reads them. */
  lemma RoleFieldsReceived(form: RegisterForm)
    ensures var body := Transmit(RegisterPayload(form));
            && (form.role == "Candidate" ==> Get(body, "experience_years") == Str(form.experience))
            && (form.role == "Employer" ==> Get(body, "company_name") == Str(form.companyName))
  {
    var p := RegisterPayload(form);
    TransmitGet(p, "experience_years");
    TransmitGet(p, "company_name");
  }

  /** The form never sends `first_name`, so the server always splits the full name: a
      one-word full name is refused even when everything else is valid. */
  lemma OneWordCandidateRefused(form: RegisterForm)
    requires form.role == "Candidate"
    requires form.username != "" && form.email != "" && form.password != ""
    requires AuthController.PasswordPolicy(form.password)
    requires form.fullName != "" && ' ' !in form.fullName
    ensures AuthController.Register(Transmit(RegisterPayload(form)))
            == Err(BadRequest, AuthController.NamesRequired)
  {
    PayloadReceived(form);
    FirstNameNeverSent(form);
    OneWordBodyRefused(Transmit(RegisterPayload(form)), form);
  }

  /** A candidate body carrying the form's strings, no `first_name` and a one-word full
      name is refused. */
  lemma OneWordBodyRefused(body: Body, form: RegisterForm)
    requires Get(body, "username") == Str(form.username) && Get(body, "email") == Str(form.email)
    requires Get(body, "password") == Str(form.password) && Get(body, "user_role") == Str("Candidate")
    requires Get(body, "full_name") == Str(form.fullName) && Get(body, "first_name") == Undefined
    requires form.username != "" && form.email != "" && form.password != ""
    requires AuthController.PasswordPolicy(form.password)
    requires form.fullName != "" && ' ' !in form.fullName
    ensures AuthController.Register(body) == Err(BadRequest, AuthController.NamesRequired)
  {
    assert AuthController.HasCredentials(body);
    assert ToStr(Get(body, "password")) == form.password;
    AuthController.OneWordCandidateRejected(body);
  }

  /** A candidate body carrying the form's strings and no `first_name` is registered with
      the parts of the full name. */
  lemma CandidateBodyRegistered(body: Body, form: RegisterForm, first: string, rest: string)
    requires Get(body, "username") == Str(form.username) && Get(body, "email") == Str(form.email)
    requires Get(body, "password") == Str(form.password) && Get(body, "user_role") == Str("Candidate")
    requires Get(body, "full_name") == Str(form.fullName) && Get(body, "first_name") == Undefined
    requires Get(body, "experience_years") == Str(form.experience)
    requires form.username != "" && form.email != "" && form.password != ""
    requires AuthController.PasswordPolicy(form.password)
    requires first != "" && rest != "" && ' ' !in first && form.fullName == first + " " + rest
    ensures var d := AuthController.Register(body);
            && d.Ok? && d.args.RegisterCandidate?
            && d.args.firstName == Str(first) && d.args.lastName == Str(rest)
            && (d.args.experience == Null <==> form.experience == "")
  {
    assert AuthController.HasCredentials(body);
    assert ToStr(Get(body, "password")) == form.password;
    AuthController.TwoWordCandidateRegistered(body, first, rest);
  }

  /** A candidate with a two-part full name is registered with the parts as names, and an
      empty experience field arrives as "" and is stored as NULL. */
  lemma CandidateRegistered(form: RegisterForm, first: string, rest: string)
    requires form.role == "Candidate"
    requires form.username != "" && form.email != "" && form.password != ""
    requires AuthController.PasswordPolicy(form.password)
    requires first != "" && rest != "" && ' ' !in first && form.fullName == first + " " + rest
    ensures var d := AuthController.Register(Transmit(RegisterPayload(form)));
            && d.Ok? && d.args.RegisterCandidate?
            && d.args.firstName == Str(first) && d.args.lastName == Str(rest)
            && (d.args.experience == Null <==> form.experience == "")
  {
    PayloadReceived(form);
    FirstNameNeverSent(form);
    RoleFieldsReceived(form);
    CandidateBodyRegistered(Transmit(RegisterPayload(form)), form, first, rest);
  }

  /** An employer form with an empty company name is refused by the server. */
  lemma EmployerWithoutCompanyRefused(form: RegisterForm)
    requires form.role == "Employer" && form.companyName == ""
    requires form.username != "" && form.email != "" && form.password != ""
    requires AuthController.PasswordPolicy(form.password)
    ensures AuthController.Register(Transmit(RegisterPayload(form)))
            == Err(BadRequest, AuthController.CompanyRequired)
  {
    PayloadReceived(form);
    RoleFieldsReceived(form);
    EmployerBodyRefused(Transmit(RegisterPayload(form)), form);
  }

  /** An employer body carrying the form's strings and an empty company name is refused. */
  lemma EmployerBodyRefused(body: Body, form: RegisterForm)
    requires Get(body, "username") == Str(form.username) && Get(body, "email") == Str(form.email)
    requires Get(body, "password") == Str(form.password) && Get(body, "user_role") == Str("Employer")
    requires Get(body, "company_name") == Str("")
    requires form.username != "" && form.email != "" && form.password != ""
    requires AuthController.PasswordPolicy(form.password)
    ensures AuthController.Register(body) == Err(BadRequest, AuthController.CompanyRequired)
  {
    assert AuthController.HasCredentials(body);
    assert ToStr(Get(body, "password")) == form.password;
    AuthController.EmployerNeedsCompany(body);
  }

  /** After the server's `register`: the sign-in page when `response.ok`, otherwise the
      page stays and shows the message. */
  function AfterRegister(reply: AuthController.Reply): (page: Option<string>)
    ensures page.Some? <==> 200 <= reply.status < 300
    ensures page.Some? ==> page.value == "login.html"
  {
    if 200 <= reply.status < 300 then Some("login.html") else None
  }

  /** A registration the server refuses, at validation or in the database, never leaves
      the page. */
  lemma RefusedRegistrationStays(body: Body, failure: Option<JsValue>)
    requires AuthController.Register(body).Err? || failure.Some?
    ensures AfterRegister(AuthController.RegisterReply(AuthController.Register(body), failure)).None?
  {
  }

  /** The page a signed-in user is sent to, by `data.user.role`. */
  function Redirect(role: JsValue): (page: string)
    ensures role == Str("Trainer") <==> page == "trainer_dashboard.html"
    ensures role == Str("Admin") <==> page == "admin_dashboard.html"
    ensures role != Str("Trainer") && role != Str("Admin") <==> page == "index.html"
  {
    if role == Str("Employer") then "index.html"
    else if role == Str("Trainer") then "trainer_dashboard.html"
    else if role == Str("Admin") then "admin_dashboard.html"
    else "index.html"
  }

  /** After the server's `login`: the page of the user's role on success, no navigation on
      a refusal. */
  function AfterLogin(d: Decision<AuthController.Session>): (page: Option<string>)
    ensures d.Err? <==> page.None?
    ensures d.Ok? ==> page == Some(Redirect(Str(d.args.role)))
  {
    if d.Ok? then Some(Redirect(Str(d.args.role))) else None
  }

  /** A deactivated account stays on the sign-in page whatever password was typed, and so
      does an unknown email. */
  lemma RefusedLoginStays(users: seq<AuthController.UserRow>, body: Body, matches: bool)
    requires AuthController.UserByEmail(users, Get(body, "email")).None?
             || AuthController.UserByEmail(users, Get(body, "email")).value.isActive == Bool(false)
    ensures AfterLogin(AuthController.Login(users, body, matches)).None?
  {
  }
}
