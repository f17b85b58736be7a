# HireUp request handling, modelled in Dafny

HireUp is a job and training marketplace. Employers post jobs, candidates list skills, and
trainers publish courses. Nearly all persistence lives in stored procedures. What the
JavaScript itself decides is modelled here, and properties of it are proved:

- the request handlers of the four backend controllers: which requests they refuse, with
  which status and message, and with which arguments they call a stored procedure;
- the skill table behind `POST /api/trainer/skills`, which resolves a skill name or creates
  it;
- the four dashboard scripts: the payloads they build, the replies they act on, and the
  trainer page's `selectedSkills` list.

Layout, one module per source file plus shared modules:

| file | module | models |
|---|---|---|
| `wrappers.dfy` | `Wrappers` | `Option` |
| `http.dfy` | `Http` | `Decision` = `Ok(arguments)` or `Err(status, message)`, and the status codes |
| `seqs.dfy` | `Seqs` | `flatMap` (a `map` followed by a `filter`), and a map built from a list in which later entries win |
| `js_strings.dfy` | `JsStrings` | JavaScript's white space, `trim`, `toLowerCase`, `split`/`join`, and number-to-string |
| `js_values.dfy` | `JsValues` | JavaScript values, truthiness, `||`, `String(v)`, `Number(v)`, `parseInt`, loose `==` with a string, and the JSON trip of a request body |
| `skill_registry.dfy` | `SkillRegistry` | slug derivation and `addSkill` of `trainerController.js`; class `SkillTable` |
| `trainer_controller.dfy` | `TrainerController` | `addCourse` and `updateProfile` |
| `candidate_controller.dfy` | `CandidateController` | `addSkill` |
| `auth_controller.dfy` | `AuthController` | `register` (the password regular expression, the name split, the role dispatch, the error reply) and `login` |
| `employer_controller.dfy` | `EmployerController` | `getEmployerId`, `postJob`, `getJobApplications` and `getApplicationCV` |
| `trainer_page.dfy` | `TrainerPage` | `addSelectedSkill`, `removeSkill` and `createCourse`; class `SkillSelection` holds `selectedSkills` |
| `employer_page.dfy` | `EmployerPage` | the `postJob` payload, and the cards of `viewApplications` |
| `candidate_page.dfy` | `CandidatePage` | the skill picker options, the `addSkill` payload, and the address line |
| `auth_page.dfy` | `AuthPage` | the `register` payload, and navigation after `register` and `login` |

How the model is built:

- A backend handler is a function from the decoded request body and the rows its queries
  would return to a `Decision`. `Err` carries no arguments, so a refused request calls no
  procedure.
- Password hashing and token signing are outside the model. The result of `bcrypt.compare`
  is a boolean parameter. The error a failing procedure raises is an optional parameter.
- Page lemmas connect the two sides. A payload built by a page is sent through `Transmit`,
  which models `JSON.stringify` on the client and `JSON.parse` on the server. The result is
  then given to the handler.

Two consequences of the code are worth knowing:

- `addSkill` does not trim. It only lowercases the name and replaces white-space runs with
  "-", so `"  node.js "` gets a different slug from `"Node.js"`
  (`SkillRegistry.PaddedNameSlug`). Only the trainer page trims before posting.
- The sign-up page never sends `first_name`. The server therefore always splits
  `full_name`, and a candidate with a one-word full name is refused
  (`AuthPage.OneWordCandidateRefused`).

## Model

| member | source | states |
|---|---|---|
| SkillRegistry.ReplaceWhitespaceRuns | backend/controllers/trainerController.js:227 | `replace(/\s+/g, '-')`; no contract of its own, see RunsReplaced, SlugRunBecomesOneHyphen and NoRunsNoChange |
| SkillRegistry.RunsReplaced | backend/controllers/trainerController.js:227 | replacing white-space runs by "-" leaves no white space, never lengthens the text, and adds no upper-case ASCII letter |
| SkillRegistry.Slugify | backend/controllers/trainerController.js:227 | the slug has no white space and no upper-case ASCII letter, and is no longer than the name |
| SkillRegistry.SlugRunBecomesOneHyphen | backend/controllers/trainerController.js:227 | a white-space run of any length between two words becomes exactly one "-" |
| SkillRegistry.NoRunsNoChange | backend/controllers/trainerController.js:227 | text without white space is unchanged by the replacement |
| SkillRegistry.SlugIdempotent | backend/controllers/trainerController.js:227 | the slug of a slug is the slug itself |
| SkillRegistry.SlugFixedPoints | backend/controllers/trainerController.js:227 | a string is its own slug if and only if it has no white space and no upper-case ASCII letter |
| SkillRegistry.TwoWordSlug | backend/controllers/trainerController.js:227 | "First Second" becomes the lower-case words joined by "-" |
| SkillRegistry.PaddedNameSlug | backend/controllers/trainerController.js:227 | a leading space becomes a leading "-", so a padded name's slug differs from the bare name's |
| SkillRegistry.Lookup | backend/controllers/trainerController.js:229-230 | the first row whose name equals the name or whose slug equals the slug; none exactly when no row matches |
| SkillRegistry.AddSkillSpec | backend/controllers/trainerController.js:224-243 | a non-string name gives 500 and no change; a matching row gives 200 with that row and no change; otherwise 201, with one row appended (next id, the name, its slug) and the other rows untouched |
| SkillRegistry.AddSkillKeepsValid | backend/controllers/trainerController.js:229-238 | resolve-or-create keeps the table invariant: increasing ids below the sequence value, slugs derived from names, no slug twice |
| SkillRegistry.InsertKeepsValid | backend/controllers/trainerController.js:234-238 | inserting a row with the next id and a fresh derived slug keeps the invariant |
| SkillRegistry.AddSkillIdempotent | backend/controllers/trainerController.js:229-238 | a second call with the same name changes nothing and returns the row the first call returned |
| SkillRegistry.SlugOwnerFound | backend/controllers/trainerController.js:229-231 | in a valid table, the row holding a name's slug is the row the existence query returns |
| SkillRegistry.StoredNameResolvesToItsRow | backend/controllers/trainerController.js:229-231 | in a valid table, adding a stored name returns 200 with that very row |
| SkillRegistry.CaseVariantsResolveToOneSkill | backend/controllers/trainerController.js:227-231 | names that differ only in ASCII case resolve to one skill: the second call inserts nothing and returns the first call's row |
| SkillRegistry.SkillTable.AddSkill | backend/controllers/trainerController.js:224-243 | the reply and the new rows and sequence value are those of `AddSkillSpec` on the old table; the invariant is kept |
| TrainerController.TrainerOf | backend/controllers/trainerController.js:85-90 | the profile found belongs to the user; none exactly when the user has no profile |
| TrainerController.AddCourse | backend/controllers/trainerController.js:78-106 | 404 exactly when there is no profile; 403 with the pending message while unverified; otherwise the call with the user's own trainer id and the title, description, duration, mode, fee and skill ids as sent |
| TrainerController.AddCourseAdmission | backend/controllers/trainerController.js:85-99 | with one profile per user, a course is admitted exactly when that profile exists and is verified |
| TrainerController.UnverifiedTrainerCannotCreateCourses | backend/controllers/trainerController.js:85-94 | without a verified profile the request is refused with 404 or 403, whatever the body says |
| TrainerController.UpdateProfile | backend/controllers/trainerController.js:27-34 | each of the three fields is passed when truthy and as NULL when falsy |
| JsValues.Or | backend/controllers/candidateController.js:46 | `a \|\| b` is `a` when `a` is truthy and `b` otherwise |
| JsValues.OrNull | backend/controllers/trainerController.js:33 | `v \|\| null` is NULL or `v`, has the truthiness of `v`, and is NULL when `v` is falsy |
| JsValues.OrNullIdempotent | backend/controllers/trainerController.js:33 | applying `\|\| null` twice is the same as applying it once |
| CandidateController.AddSkill | backend/controllers/candidateController.js:30-53 | an undefined proficiency gives 400 first; then a truthy years figure that `Number` reads as below 0 or above 50 gives 400; every other request is accepted, with skill_id and years defaulted to 0, custom_name to NULL, and the proficiency as given |
| CandidateController.YearsOutOfRange | backend/controllers/candidateController.js:39 | `years_experience && (years_experience < 0 \|\| years_experience > 50)`; no contract of its own, see AddSkill, YearsBounds and ObjectYearsPassed |
| CandidateController.YearsBounds | backend/controllers/candidateController.js:39-46 | an integer figure is accepted exactly when it lies in [0, 50]; an absent figure is accepted and passed as 0 |
| CandidateController.ObjectYearsPassed | backend/controllers/candidateController.js:39-46 | an object as years is truthy but compares as NaN, so it is accepted and passed on unchanged |
| CandidateController.AcceptedYearsInRange | backend/controllers/candidateController.js:39-46 | whatever value was sent, the years figure passed never reads as a number outside [0, 50] |
| JsValues.ToNumber | backend/controllers/candidateController.js:39 | `Number(v)`, used by `<` and `>`, is a number or NaN |
| AuthController.ClassRunMeans | backend/controllers/authController.js:19 | `[A-Za-z\d@$!%*?&]{n,}$` matches exactly the strings of length at least n made of those characters |
| AuthController.LookaheadFindsWanted | backend/controllers/authController.js:19 | a successful lookahead `(?=.*X)` means that some character is an X |
| AuthController.LookaheadOverClass | backend/controllers/authController.js:19 | over the password class, which has no line terminator, an X anywhere makes the lookahead succeed |
| AuthController.PasswordRegexMatches | backend/controllers/authController.js:19 | the two lookaheads and the class run of the regular expression; no contract of its own, see PasswordRegexMeansPolicy |
| AuthController.PasswordRegexMeansPolicy | backend/controllers/authController.js:19-22 | the regular expression accepts exactly the passwords of at least 6 class characters holding an ASCII letter and a digit |
| AuthController.SplitFullName | backend/controllers/authController.js:32-34 | the first name holds no space; a full name without a space gives itself and "" |
| AuthController.FullNameRebuilt | backend/controllers/authController.js:32-34 | when the full name holds a space, first name + " " + last name is the full name |
| AuthController.FullNameAtFirstSpace | backend/controllers/authController.js:32-34 | "first rest", with no space in first, splits into first and rest, spaces and all |
| AuthController.CandidateNames | backend/controllers/authController.js:29-38 | accepted names are truthy; a truthy first_name is used with last_name as given; without first_name, a truthy non-string full name gives 500 (its `split` throws) and a falsy one gives 400; the only refusals are 400 for missing names and that 500 |
| AuthController.OneWordFullNameRejected | backend/controllers/authController.js:31-38 | without first_name, a one-word full name gives 400 whatever last_name is |
| AuthController.TwoWordFullName | backend/controllers/authController.js:31-38 | without first_name, a full name "first rest" gives those two names |
| AuthController.Experience | backend/controllers/authController.js:46 | experience_years becomes NULL exactly when it is undefined or "", and is kept otherwise, 0 included |
| AuthController.Register | backend/controllers/authController.js:5-75 | missing credentials give 400, checked before the password rule, which gives its own 400; an accepted request had credentials, a valid password and one of the three roles, and passes those credentials on; refusals are 400, or 500 for a failed split |
| AuthController.RoleCall | backend/controllers/authController.js:28-75 | the dispatch on `user_role` to the three procedures; no contract of its own, see CandidateRegistration, EmployerNeedsCompany, TrainerRegistered and UnknownRoleRejected |
| AuthController.UnknownRoleRejected | backend/controllers/authController.js:15-75 | any other role gets "Invalid Role", but only after the credential and password checks pass |
| AuthController.EmployerNeedsCompany | backend/controllers/authController.js:53-64 | with valid credentials, an employer is registered exactly when company_name is truthy, and otherwise gets 400; a registered employer passes on the credentials, company name, industry, location, contact number and website as sent |
| AuthController.TrainerRegistered | backend/controllers/authController.js:66-71 | with valid credentials, a trainer is always registered, passing on the credentials, organisation, specialisation and contact number as sent |
| AuthController.CandidateRegistration | backend/controllers/authController.js:28-52 | past the credential and password checks, a candidate is registered exactly when `CandidateNames` accepts; its refusal is the reply, and otherwise its two names are passed in order |
| AuthController.OneWordCandidateRejected | backend/controllers/authController.js:28-38 | a candidate with valid credentials, no first_name and a one-word full name is refused |
| AuthController.TwoWordCandidateRegistered | backend/controllers/authController.js:28-52 | a candidate with valid credentials, no first_name and a full name "first rest" is registered with those names |
| AuthController.CandidateArguments | backend/controllers/authController.js:40-51 | an accepted candidate has truthy names and NULL for each falsy address part; experience is NULL exactly when absent, NULL or "", and 0 stays 0 |
| AuthController.RegisterReply | backend/controllers/authController.js:96-110 | a refusal goes out as it is; success gives 201; a database error gives 409 exactly for code "23505" and 500 otherwise |
| AuthController.UserByEmail | backend/controllers/authController.js:118-123 | the row found has the email; none exactly when no row has it |
| AuthController.Login | backend/controllers/authController.js:113-155 | an unknown email gives 400; success needs an existing, not deactivated account and a matching password, and signs that row's id, username and role |
| AuthController.DeactivatedBeforePassword | backend/controllers/authController.js:125-134 | `is_active === false` gives 403 whatever the password check says |
| AuthController.WrongPasswordLooksLikeUnknownEmail | backend/controllers/authController.js:119-134 | a wrong password gets the same reply as an unknown email |
| EmployerController.GetEmployerId | backend/controllers/employerController.js:4-7 | null exactly when no employer row has the user; otherwise the id of an employer row of the user |
| EmployerController.OrEmptyList | backend/controllers/employerController.js:57 | `list \|\| []` keeps a truthy value and turns a falsy one into `[]` |
| EmployerController.PostJob | backend/controllers/employerController.js:47-58 | no employer gives 404 "Employer not found" and no call; a post is accepted exactly when the user has an employer with a non-zero id, whatever the body; it carries that id, the title, description, location, salary range and expiry as sent, and the three lists defaulted to `[]` |
| EmployerController.PostJobListsAreArrays | backend/controllers/employerController.js:57 | when the body sends arrays or nothing, the procedure receives three arrays |
| EmployerController.GetJobApplications | backend/controllers/employerController.js:87-99 | the applications are listed exactly when the user has an employer and a job row pairs the job with that employer; otherwise 403 |
| EmployerController.NoEmployerNoApplications | backend/controllers/employerController.js:91-97 | a user without an employer profile always gets 403 |
| EmployerController.CvOf | backend/controllers/employerController.js:197 | the file of the first row with the application id; none exactly when there is no such row |
| EmployerController.GetApplicationCV | backend/controllers/employerController.js:179-203 | 403 when the application is not on the employer's job, checked first; the only refusals are that and 404 "CV not found"; a success returns the stored file of that application |
| EmployerController.AuthorisedCvRequest | backend/controllers/employerController.js:193-203 | when authorised and the id is unique, 404 exactly when there is no file, and otherwise that file |
| TrainerPage.Listed | frontend/js/trainer.js:109 | `selectedSkills.find(s => s.id == skillId)` finds an entry; no contract of its own, see AddIfAbsent and SelectorPathKeepsIdsDistinct |
| TrainerPage.AddIfAbsent | frontend/js/trainer.js:107-113 | the list is unchanged when some entry's id is loosely equal to the value; otherwise `{parseInt(value), text}` is appended |
| TrainerPage.Splice | frontend/js/trainer.js:129-132 | `splice(i, 1)`: removes index i when it is in range, counts a negative i from the end, and removes nothing past the end |
| TrainerPage.AddSelectedSkillSpec | frontend/js/trainer.js:70-115 | "NEW" with a blank name sends nothing and keeps the list; "NEW" with a name sends the trimmed name and appends the reply's skill when the reply is ok; another choice sends nothing and goes through `AddIfAbsent` |
| TrainerPage.Ids | frontend/js/trainer.js:15 | the ids of the list, in list order |
| TrainerPage.AddIfAbsentKeepsDistinct | frontend/js/trainer.js:109-110 | adding a value that reads as the number `id` keeps numeric ids numeric and distinct |
| TrainerPage.SelectorPathKeepsIdsDistinct | frontend/js/trainer.js:107-113 | picking an option (the decimal form of a skill id) never duplicates an id |
| TrainerPage.CreatePathCanDuplicate | frontend/js/trainer.js:93-94 | the create path appends without a check: an id already listed can appear twice |
| TrainerPage.RetypedSkillIsListedTwice | frontend/js/trainer.js:75-94 | retyping the name of a listed, stored skill makes the server return that skill, and the list then holds it twice |
| TrainerPage.RemoveKeepsOthers | frontend/js/trainer.js:129-132 | removing index i leaves one entry fewer, keeps the others in order, and drops exactly that entry from the multiset |
| TrainerPage.SkillSelection.AddSelectedSkill | frontend/js/trainer.js:70-115 | the request and the new list are those of `AddSelectedSkillSpec` on the old list |
| TrainerPage.SkillSelection.RemoveSkill | frontend/js/trainer.js:129-132 | the new list is `Splice` of the old one |
| TrainerPage.SkillSelection.CreateCourse | frontend/js/trainer.js:15-37 | an empty list sends nothing; otherwise the ids are sent in list order, and the list is emptied exactly when the server accepts |
| EmployerPage.SelectedValues | frontend/js/employer.js:142-147 | no picker gives `[]`; an array is kept; a single value is wrapped into a one-element array |
| EmployerPage.ParsedId | frontend/js/employer.js:148 | a value contributes its parse when that is a number and nothing when it is NaN |
| EmployerPage.ParsedIds | frontend/js/employer.js:148 | `map(parseInt)` then `filter(!isNaN)`; no contract of its own, see ParsedIdsMembers, ParsedIdsInOrder and DecimalValuesAllKept |
| EmployerPage.ParsedIdsMembers | frontend/js/employer.js:148 | an id is sent exactly when some value parses to it; there are never more ids than values |
| EmployerPage.ParsedIdsInOrder | frontend/js/employer.js:148 | the j-th id comes from a value preceded by values that give exactly j ids, so the ids follow the order of the values |
| EmployerPage.DecimalValuesAllKept | frontend/js/employer.js:148 | the picker's option values (decimal ids) all survive the parse, in order |
| EmployerPage.Proficiencies | frontend/js/employer.js:151 | one "Beginner" per id |
| EmployerPage.CleanQuestion | frontend/js/employer.js:155-156 | an input contributes nothing exactly when it trims to "", and otherwise its trimmed text |
| EmployerPage.CleanQuestions | frontend/js/employer.js:154-156 | `map(trim)` then `filter(val !== '')`; no contract of its own, see CleanQuestionsMembers and CleanQuestionsInOrder |
| EmployerPage.CleanQuestionsMembers | frontend/js/employer.js:154-156 | a question is sent exactly when it is non-empty and some input trims to it; each is trimmed; there are never more than the inputs |
| EmployerPage.CleanQuestionsInOrder | frontend/js/employer.js:154-156 | the j-th question comes from an input preceded by inputs that give exactly j questions, so the input order is kept |
| EmployerPage.JobBody | frontend/js/employer.js:158-167 | the payload has exactly the eight keys, the five text fields holding the form's strings and the three lists as collected |
| EmployerPage.JobBodyReceived | frontend/js/employer.js:158-176 | after JSON the server reads the three arrays and the title as built |
| EmployerPage.PostedJobReachesProcedure | frontend/js/employer.js:137-176 | for a user with an employer, `sp_post_job` gets the parsed ids, one "Beginner" per id and the cleaned questions; the server's `\|\| []` never applies |
| EmployerPage.ArraysReachProcedure | backend/controllers/employerController.js:47-58 | for a user with an employer, a body carrying three arrays and a title reaches the procedure with them unchanged |
| EmployerPage.Actions | frontend/js/employer.js:213-229 | "Applied" offers shortlist and reject; "Shortlisted" offers hire and reject; any other status offers nothing |
| EmployerPage.HireOnlyAfterShortlist | frontend/js/employer.js:214-223 | hire is offered exactly for "Shortlisted", reject exactly while a decision is open, shortlist exactly for "Applied" |
| EmployerPage.StatusColour | frontend/js/employer.js:224-228 | green exactly for "Hired", red exactly for "Rejected" |
| EmployerPage.ShownAnswers | frontend/js/employer.js:234-237 | only answers with a truthy question text |
| EmployerPage.ShownAnswersMembers | frontend/js/employer.js:234-237 | an answer is shown exactly when it is among the answers and its question text is truthy |
| EmployerPage.RenderAnswers | frontend/js/employer.js:231-240 | no block when the answers are null or empty; otherwise the shown answers, in order |
| EmployerPage.CardOf | frontend/js/employer.js:213-240 | the actions, status colour and answers of one card; no contract of its own, see Actions, StatusColour, ShownAnswersMembers and ViewApplications |
| EmployerPage.ViewApplications | frontend/js/employer.js:208-258 | one card per application, in order; a card offers hire only for a shortlisted application |
| CandidatePage.LoadOptions | frontend/js/candidate.js:34 | the picker's options keyed by skill id; no contract of its own, see LoadOptionsKeys |
| CandidatePage.LoadOptionsKeys | frontend/js/candidate.js:34 | the options are keyed exactly by the decimal ids of the list, and every option is standard |
| CandidatePage.SkillPayload | frontend/js/candidate.js:99-122 | an empty selection sends nothing; a standard option sends skill_id = parseInt(value) and no custom_name; anything else sends skill_id 0 and the text as custom_name |
| CandidatePage.StandardSkillPayload | frontend/js/candidate.js:113-117 | picking a listed skill sends its id and no custom name |
| CandidatePage.AcceptedBody | backend/controllers/candidateController.js:34-46 | a proficiency string and years NULL or in [0, 50] are accepted, with skill_id passed on |
| CandidatePage.StandardSkillReachesProcedure | frontend/js/candidate.js:106-117 | a listed skill reaches the procedure with its id, a NULL custom name and the proficiency |
| CandidatePage.CustomSkillReachesProcedure | frontend/js/candidate.js:118-121 | a typed skill reaches the procedure with id 0 and the typed text |
| CandidatePage.EmptyYearsStoredAsZero | frontend/js/candidate.js:106-109 | an empty years field (NaN) travels as null and is stored as 0 |
| CandidatePage.Present | frontend/js/candidate.js:59 | `.filter(Boolean)` keeps only truthy parts and never adds any |
| CandidatePage.FormatAddress | frontend/js/candidate.js:59-60 | `filter(Boolean).join(', ') \|\| 'Not set'`; no contract of its own, see AddressLine |
| CandidatePage.AddressLine | frontend/js/candidate.js:59-60 | "Not set" when no part is present; otherwise the present parts, in order city, division, country, joined by ", " |
| AuthPage.Base | frontend/js/auth.js:13-20 | the six common fields, with the form's strings |
| AuthPage.RoleFields | frontend/js/auth.js:22-43 | a candidate adds experience_years, an employer company, industry, contact and website, a trainer organisation, specialisation and contact, each with the form's string; any other role adds nothing |
| AuthPage.RegisterPayload | frontend/js/auth.js:13-43 | the common fields always; a candidate adds only experience_years; an employer adds company, industry, contact and website; a trainer adds organisation, specialisation and contact; each added field holds the form's string; any other role adds nothing |
| AuthPage.CommonFieldReceived | frontend/js/auth.js:13-54 | a common field reaches the server as the form's string |
| AuthPage.PayloadReceived | frontend/js/auth.js:13-54 | the server reads username, email, password, role and full name as typed |
| AuthPage.NoFirstNameKey | frontend/js/auth.js:13-43 | no payload has `first_name` |
| AuthPage.FirstNameNeverSent | frontend/js/auth.js:13-54 | the server always reads `first_name` as undefined |
| AuthPage.RoleFieldsReceived | frontend/js/auth.js:22-34 | a candidate's experience and an employer's company name reach the server as typed |
| AuthPage.OneWordCandidateRefused | frontend/js/auth.js:9-24 | a candidate form with a one-word full name is refused even when everything else is valid |
| AuthPage.OneWordBodyRefused | frontend/js/auth.js:13-24 | a candidate body with the form's credentials, no first_name and a one-word full name is refused with 400 |
| AuthPage.CandidateBodyRegistered | frontend/js/auth.js:13-24 | a candidate body with the form's strings and no first_name is registered with the parts of the full name |
| AuthPage.CandidateRegistered | frontend/js/auth.js:13-55 | a candidate form with a full name "first rest" is registered with those names; experience is stored as NULL exactly when the field was empty |
| AuthPage.EmployerWithoutCompanyRefused | frontend/js/auth.js:25-34 | an employer form with an empty company name is refused with 400 |
| AuthPage.EmployerBodyRefused | frontend/js/auth.js:25-34 | an employer body with the form's credentials and an empty company name is refused with 400 |
| AuthPage.AfterRegister | frontend/js/auth.js:59-64 | the sign-in page exactly on a 2xx reply; otherwise the page stays |
| AuthPage.RefusedRegistrationStays | frontend/js/auth.js:57-64 | a registration refused by validation or by the database never leaves the page |
| AuthPage.Redirect | frontend/js/auth.js:93-105 | Trainer goes to trainer_dashboard.html, Admin to admin_dashboard.html, and every other role, Employer included, to index.html |
| AuthPage.AfterLogin | frontend/js/auth.js:89-107 | no navigation exactly on a refusal; otherwise the page of the signed role |
| AuthPage.RefusedLoginStays | frontend/js/auth.js:89-107 | an unknown email or a deactivated account stays on the sign-in page |
| JsStrings.ToLower | backend/controllers/trainerController.js:227 | same length, each ASCII letter lowercased and every other character kept |
| JsStrings.Trim | frontend/js/trainer.js:76 | no longer than the input, with no white space at either end |
| JsStrings.TrimEmpty | frontend/js/employer.js:155-156 | the trim is empty exactly when every character is white space |
| JsStrings.TrimIsInfix | frontend/js/trainer.js:76 | the trim is the infix of the input after its leading white space |
| JsStrings.TrimDropsWhitespace | frontend/js/trainer.js:76 | everything the trim removes, before and after, is white space |
| JsStrings.TrimIdempotent | frontend/js/employer.js:155 | trimming twice is trimming once |
| JsStrings.Split | backend/controllers/authController.js:32 | at least one piece, no piece holds the separator, and one piece exactly when the separator is absent |
| JsStrings.JoinSplit | backend/controllers/authController.js:32-34 | joining the pieces with the separator gives the string back |
| JsStrings.SplitAtFirst | backend/controllers/authController.js:32-34 | the text before the first separator is the first piece, and the rest splits on its own |
| JsValues.ParseIntRoundTrip | frontend/js/trainer.js:110 | `parseInt` of an integer's decimal form is that integer |
| JsValues.NumberRoundTrip | frontend/js/trainer.js:109 | `Number` of an integer's decimal form is that integer, so a number is loosely equal to its own decimal form |
| JsValues.StringToNumber | frontend/js/trainer.js:109 | `Number(s)` is a number or NaN |
| JsValues.Wire | frontend/js/candidate.js:108 | after JSON no value is NaN or undefined |
| JsValues.Transmit | frontend/js/employer.js:176 | the server's body has exactly the properties that were not undefined, each after `Wire` |
| JsValues.TransmitGet | frontend/js/auth.js:54 | a property read after the JSON trip is `Wire` of what was sent, or undefined when nothing was sent |
| Seqs.FlatMapMembers | frontend/js/employer.js:148 | after a map and a filter, a value is present exactly when some element contributes it |
| Seqs.FlatMapSource | frontend/js/employer.js:154-156 | with at most one contribution per element, the result is a subsequence of the contributions, in order |
| Seqs.FlatMapAppend | frontend/js/employer.js:148 | mapping and filtering a concatenation gives the two results one after the other |
| Seqs.FlatMapOfSingletons | frontend/js/employer.js:148 | when every element contributes exactly one value, the result is those values in order |
| Seqs.FlatMapAtMostOne | frontend/js/employer.js:156 | a filter never lengthens the list |
| Seqs.KeyedByEntries | frontend/js/candidate.js:34 | the keys are those of the elements, and each entry is the value of an element with that key |

## Left out

- Stored procedures, SQL text and the database are not modelled. Query results are
  parameters: rows in storage order, with the first one taken where the code takes
  `rows[0]`.
- `SkillRegistry.Lookup`: returns the first matching row in storage order, because the query
  has no `ORDER BY`. The database may return any matching row.
- `SkillRegistry.SkillTable.AddSkill`: sequential only. The race between the existence check
  and the insert, when two requests run at once, is not modelled.
- `JsStrings.ToLower`: lowercases the ASCII letters only. JavaScript's `toLowerCase` also maps
  other letters, such as "É" to "é", and can change the length: `"İ".toLowerCase()` is two
  UTF-16 units long. Its "same length" clause holds for this ASCII-only version only.
- `SkillRegistry.SlugFixedPoints`: states the fixed points for ASCII-only lowercasing. In the program "É"
  is not its own slug, since `toLowerCase` turns it into "é"; here `Slugify("É") == "É"`.
- `SkillRegistry.Slugify`: "no longer than the name" holds for ASCII-only lowercasing only.
  In the program the slug of "İ" is two UTF-16 units long.
- `JsStrings.IntToString`: does not model the exponent form JavaScript uses for magnitudes at
  or above 10^21.
- `CandidateController.AddSkill`: a years figure sent as a string with a fraction or an exponent, such as "60.5" or "1e3", reads as NaN here and is accepted. The code compares its numeric value and refuses "60.5" with 400.
- `JsValues.StringToNumber`: reads only decimal integers (with a sign) and `0x` hexadecimal
  integers. Fractions, exponents, `Infinity`, and `0b`/`0o` literals read as NaN here.
- Numbers in `JsValues.JsValue` are integers or NaN. Floating point is not modelled, so
  `parseFloat(years)` is a parameter of `CandidatePage.SkillPayload`.
- Route parameters (`jobId`, `applicationId`) are natural numbers. The string-to-integer
  coercion done by the database is not modelled.
- `JsValues.JsValue`: a JSON object in a body field is `Obj`, whose properties are not
  modelled. `Obj` is truthy, `String` gives "[object Object]" and `Number` gives NaN.
- `AuthController.Register`: `bcrypt.hash` is not modelled. It rejects a password that is not
  a string but passes the regular expression through `String()`, such as `["abc123"]`, and
  `register` then answers 500 before the role checks; `Register` accepts such a password.
- `AuthController.Login`: `bcrypt.compare` is a boolean parameter. It throws when the sent password is
  missing or not a string, and `login` then answers 500, for a known email only.
- bcrypt and JWT are not modelled otherwise. `Login` takes the result of `bcrypt.compare` as a
  boolean. The auto-login lookup after registration, and the session token, are not
  modelled.
- `AuthController.RegisterReply`: database failures are modelled for `register` only.
  In the other handlers the `catch` blocks that answer 500 are not modelled.
- Handlers that only pass data through are not modelled: `getProfile` and
  `getPublicTrainerProfile`, the course, enrolment and skill listings, `getJobs`, the
  shortlist, hire and reject handlers, the employer's `updateProfile`, `deleteAccount` and
  `getTopSkills`.
- DOM rendering, TomSelect, `fetch`, `alert`, `localStorage` and `logout` are not modelled.
  `loadSkills` and `updateSkillTags` are display only.
- `CandidatePage.LoadOptions`: the picker's options are a map keyed by the option value.
  How TomSelect sorts and shows them is not modelled.
- `TrainerPage.SkillSelection.CreateCourse`: models the skill ids it sends, not the other
  form fields.
- The job expiry date comparison in `employer.js` is not modelled, because it needs a clock.
- `EmployerPage.ViewApplications`: the answer text and the HTML markup of the cards are
  not modelled.
