/** The employer dashboard (frontend/js/employer.js): how `postJob` shapes the selected
    skills and the question inputs into the job payload, and how `viewApplications` decides,
    per application, which status actions to offer and which answers to show. */
module EmployerPage {
  import opened JsStrings
  import opened JsValues
  import opened Wrappers
  import EmployerController
  import opened Seqs

  // ---------------------------------------------------------------------------------------
  // the job payload

  /** `skillSelectInstance ? skillSelectInstance.getValue() : []`, then wrapped into an array
      unless it is one. `instance` is the picker's value, or None before the picker exists. */
  function SelectedValues(instance: Option<JsValue>): (raw: seq<JsValue>)
    ensures instance.None? ==> raw == []
    ensures instance.Some? && instance.value.Arr? ==> raw == instance.value.elems
    ensures instance.Some? && !instance.value.Arr? ==> raw == [instance.value]
  {
    match instance
    case None => []
    case Some(v) => if v.Arr? then v.elems else [v]
  }

  /** What one selected value contributes: its `parseInt`, or nothing when that is NaN. */
  function ParsedId(v: JsValue): (r: seq<int>)
    ensures |r| <= 1
    ensures r == [] <==> ParseIntValue(v).NaN?
    ensures r != [] ==> ParseIntValue(v) == Num(r[0])
  {
    var p := ParseIntValue(v);
    if p.Num? then [p.n] else []
  }

  /** `raw.map(id => parseInt(id)).filter(id => !isNaN(id))`. */
  function ParsedIds(raw: seq<JsValue>): (ids: seq<int>)
  {
    FlatMap(ParsedId, raw)
  }

  /** An id is sent exactly when some selected value parses to it: nothing is invented and
      only the NaN results are dropped; there are never more ids than values. */
  lemma ParsedIdsMembers(raw: seq<JsValue>, x: int)
    ensures x in ParsedIds(raw) <==> exists k :: 0 <= k < |raw| && ParseIntValue(raw[k]) == Num(x)
    ensures |ParsedIds(raw)| <= |raw|
  {
    FlatMapMembers(ParsedId, raw, x);
    FlatMapAtMostOne(ParsedId, raw);
    assert forall k :: 0 <= k < |raw| ==> (x in ParsedId(raw[k]) <==> ParseIntValue(raw[k]) == Num(x));
  }

  /** The ids keep the order of the values they come from: the `j`-th id is the parse of
      a value preceded by values that give exactly `j` ids. */
  lemma ParsedIdsInOrder(raw: seq<JsValue>, j: nat)
    requires j < |ParsedIds(raw)|
    ensures exists k :: 0 <= k < |raw| && ParseIntValue(raw[k]) == Num(ParsedIds(raw)[j])
                        && |ParsedIds(raw[..k])| == j
  {
    FlatMapSource(ParsedId, raw, j);
  }

  /** The option values of the picker: the decimal forms of skill ids. */
  function Decimals(ns: seq<int>): (raw: seq<JsValue>)
    ensures |raw| == |ns| && forall k :: 0 <= k < |ns| ==> raw[k] == Str(IntToString(ns[k]))
  {
    seq(|ns|, k requires 0 <= k < |ns| => Str(IntToString(ns[k])))
  }

  /** Option values all survive the parse, in order. */
  lemma DecimalValuesAllKept(ns: seq<int>)
    ensures ParsedIds(Decimals(ns)) == ns
  {
    var raw := Decimals(ns);
    forall k | 0 <= k < |raw| ensures ParseIntValue(raw[k]) == Num(ns[k]) {
      ParseIntRoundTrip(ns[k]);
    }
    FlatMapOfSingletons(ParsedId, raw, ns);
  }

  /** `skillIds.map(() => 'Beginner')`. */
  function Proficiencies(ids: seq<int>): (ps: seq<string>)
    ensures |ps| == |ids|
    ensures forall k :: 0 <= k < |ps| ==> ps[k] == "Beginner"
  {
    seq(|ids|, k requires 0 <= k < |ids| => "Beginner")
  }

  /** What one question input contributes: its trimmed text, or nothing when that is empty. */
  function CleanQuestion(input: string): (r: seq<string>)
    ensures |r| <= 1
    ensures r == [] <==> Trim(input) == ""
    ensures r != [] ==> r[0] == Trim(input) && Trim(r[0]) == r[0]
  {
    TrimIdempotent(input);
    var q := Trim(input);
    if q != "" then [q] else []
  }

  /** `inputs.map(input => input.value.trim()).filter(val => val !== '')`. */
  function CleanQuestions(inputs: seq<string>): (qs: seq<string>)
  {
    FlatMap(CleanQuestion, inputs)
  }

  lemma CleanQuestionHas(input: string, q: string)
    ensures q in CleanQuestion(input) <==> q != "" && Trim(input) == q
  {
  }

  /** A question is sent exactly when some input trims to it and it is not empty; every
      question sent is trimmed and non-empty, and there are never more than inputs. */
  lemma CleanQuestionsMembers(inputs: seq<string>, q: string)
    ensures q in CleanQuestions(inputs) <==> q != "" && exists k :: 0 <= k < |inputs| && Trim(inputs[k]) == q
    ensures q in CleanQuestions(inputs) ==> Trim(q) == q
    ensures |CleanQuestions(inputs)| <= |inputs|
  {
    FlatMapMembers(CleanQuestion, inputs, q);
    FlatMapAtMostOne(CleanQuestion, inputs);
    forall k | 0 <= k < |inputs|
      ensures q in CleanQuestion(inputs[k]) <==> q != "" && Trim(inputs[k]) == q
    {
      CleanQuestionHas(inputs[k], q);
    }
    if q in CleanQuestions(inputs) {
      var k :| 0 <= k < |inputs| && q in CleanQuestion(inputs[k]);
      TrimIdempotent(inputs[k]);
    }
  }

  /** The questions keep the order of the inputs: the `j`-th question is the trimmed text
      of an input preceded by inputs that give exactly `j` questions. */
  lemma CleanQuestionsInOrder(inputs: seq<string>, j: nat)
    requires j < |CleanQuestions(inputs)|
    ensures exists k :: 0 <= k < |inputs| && Trim(inputs[k]) == CleanQuestions(inputs)[j]
                        && |CleanQuestions(inputs[..k])| == j
  {
    FlatMapSource(CleanQuestion, inputs, j);
  }

  /** The text fields of the job form. */
  datatype JobForm = JobForm(title: string, description: string, location: string,
                             salaryRange: string, expiresAt: string)

  function Nums(ns: seq<int>): (vs: seq<JsValue>)
    ensures |vs| == |ns| && forall k :: 0 <= k < |ns| ==> vs[k] == Num(ns[k])
  {
    seq(|ns|, k requires 0 <= k < |ns| => Num(ns[k]))
  }

  function Strs(ss: seq<string>): (vs: seq<JsValue>)
    ensures |vs| == |ss| && forall k :: 0 <= k < |ss| ==> vs[k] == Str(ss[k])
  {
    seq(|ss|, k requires 0 <= k < |ss| => Str(ss[k]))
  }

  /** The payload `postJob` sends, for the ids and questions it has collected. */
  function JobBody(form: JobForm, ids: seq<int>, questions: seq<string>): (p: Body)
    ensures p.Keys == {"title", "description", "location", "salary_range", "expires_at",
                       "skill_ids", "min_proficiencies", "questions"}
    ensures p["title"] == Str(form.title) && p["description"] == Str(form.description)
    ensures p["location"] == Str(form.location) && p["salary_range"] == Str(form.salaryRange)
    ensures p["expires_at"] == Str(form.expiresAt)
    ensures p["skill_ids"] == Arr(Nums(ids)) && p["min_proficiencies"] == Arr(Strs(Proficiencies(ids)))
    ensures p["questions"] == Arr(Strs(questions))
  {
    map["title" := Str(form.title), "description" := Str(form.description),
        "location" := Str(form.location), "salary_range" := Str(form.salaryRange),
        "expires_at" := Str(form.expiresAt),
        "skill_ids" := Arr(Nums(ids)), "min_proficiencies" := Arr(Strs(Proficiencies(ids))),
        "questions" := Arr(Strs(questions))]
  }

  /** The payload `postJob` sends. */
  function JobPayload(form: JobForm, instance: Option<JsValue>, questionInputs: seq<string>): Body
  {
    JobBody(form, ParsedIds(SelectedValues(instance)), CleanQuestions(questionInputs))
  }

  lemma WireKeepsPlainArrays(xs: seq<JsValue>)
    requires forall k :: 0 <= k < |xs| ==> xs[k].Num? || xs[k].Str?
    ensures Wire(Arr(xs)) == Arr(xs)
  {
  }

  /** What the server reads from the payload after JSON: the arrays as they were built. */
  lemma JobBodyReceived(form: JobForm, ids: seq<int>, questions: seq<string>)
    ensures var body := Transmit(JobBody(form, ids, questions));
            && Get(body, "skill_ids") == Arr(Nums(ids))
            && Get(body, "min_proficiencies") == Arr(Strs(Proficiencies(ids)))
            && Get(body, "questions") == Arr(Strs(questions))
            && Get(body, "title") == Str(form.title)
  {
    var p := JobBody(form, ids, questions);
    WireKeepsPlainArrays(Nums(ids));
    WireKeepsPlainArrays(Strs(Proficiencies(ids)));
    WireKeepsPlainArrays(Strs(questions));
    TransmitGet(p, "skill_ids");
    TransmitGet(p, "min_proficiencies");
    TransmitGet(p, "questions");
    TransmitGet(p, "title");
  }

  /** Sent through JSON to the server's `postJob`, the payload reaches `sp_post_job` with
      the parsed ids, one "Beginner" per id and the cleaned questions: the server's `|| []`
      defaults never apply, because arrays are truthy even when empty. */
  lemma PostedJobReachesProcedure(employers: seq<EmployerController.EmployerRow>, userId: nat,
                                  form: JobForm, instance: Option<JsValue>, questionInputs: seq<string>)
    requires EmployerController.GetEmployerId(employers, userId).Some?
    requires EmployerController.GetEmployerId(employers, userId).value != 0
    ensures var ids := ParsedIds(SelectedValues(instance));
            var d := EmployerController.PostJob(employers, userId,
                                                Transmit(JobPayload(form, instance, questionInputs)));
            && d.Ok?
            && d.args.skillIds == Arr(Nums(ids))
            && d.args.minProficiencies == Arr(Strs(Proficiencies(ids)))
            && d.args.questions == Arr(Strs(CleanQuestions(questionInputs)))
            && d.args.title == Str(form.title)
  {
    var ids := ParsedIds(SelectedValues(instance));
    var questions := CleanQuestions(questionInputs);
    assert JobPayload(form, instance, questionInputs) == JobBody(form, ids, questions);
    JobBodyReceived(form, ids, questions);
    ArraysReachProcedure(employers, userId, Transmit(JobBody(form, ids, questions)),
                         Nums(ids), Strs(Proficiencies(ids)), Strs(questions), Str(form.title));
  }

  /** A body carrying three arrays and a title reaches `sp_post_job` with them unchanged. */
  lemma ArraysReachProcedure(employers: seq<EmployerController.EmployerRow>, userId: nat, body: Body,
                             skillIds: seq<JsValue>, proficiencies: seq<JsValue>,
                             questions: seq<JsValue>, title: JsValue)
    requires EmployerController.GetEmployerId(employers, userId).Some?
    requires EmployerController.GetEmployerId(employers, userId).value != 0
    requires Get(body, "skill_ids") == Arr(skillIds) && Get(body, "min_proficiencies") == Arr(proficiencies)
    requires Get(body, "questions") == Arr(questions) && Get(body, "title") == title
    ensures var d := EmployerController.PostJob(employers, userId, body);
            && d.Ok? && d.args.skillIds == Arr(skillIds) && d.args.minProficiencies == Arr(proficiencies)
            && d.args.questions == Arr(questions) && d.args.title == title
  {
  }

  // ---------------------------------------------------------------------------------------
  // the applications of a job

  /** The buttons next to an application; each calls `updateAppStatus` with its name. */
  datatype Action = Shortlist | Hire | Reject

  /** The status → actions mapping: an applied candidate can be shortlisted or rejected, a
      shortlisted one hired or rejected, and any other status is final. */
  function Actions(status: JsValue): (acts: seq<Action>)
    ensures status == Str("Applied") ==> acts == [Shortlist, Reject]
    ensures status == Str("Shortlisted") ==> acts == [Hire, Reject]
    ensures status != Str("Applied") && status != Str("Shortlisted") ==> acts == []
  {
    if status == Str("Applied") then [Shortlist, Reject]
    else if status == Str("Shortlisted") then [Hire, Reject]
    else []
  }

  /** Hiring is offered only to a shortlisted application, so never straight from
      "Applied"; rejecting is offered exactly while a decision is open. */
  lemma HireOnlyAfterShortlist(status: JsValue)
    ensures Hire in Actions(status) <==> status == Str("Shortlisted")
    ensures Reject in Actions(status) <==> status in {Str("Applied"), Str("Shortlisted")}
    ensures Shortlist in Actions(status) <==> status == Str("Applied")
    ensures |Actions(status)| <= 2
  {
  }

  /** The colour of the status label shown instead of buttons. */
  datatype Colour = Muted | Green | Red

  function StatusColour(status: JsValue): (c: Colour)
    ensures c == Green <==> status == Str("Hired")
    ensures c == Red <==> status == Str("Rejected")
  {
    if status == Str("Rejected") then Red
    else if status == Str("Hired") then Green
    else Muted
  }

  /** An element of `app.answers` (`question_text`, `answer_text`). */
  datatype Answer = Answer(questionText: JsValue, answerText: JsValue)

  /** The answers that get a "Q:/A:" line: those with a truthy question text. */
  function ShownAnswers(answers: seq<Answer>): (shown: seq<Answer>)
    ensures |shown| <= |answers|
    ensures forall k :: 0 <= k < |shown| ==> Truthy(shown[k].questionText)
  {
    if answers == [] then []
    else ShownAnswers(answers[..|answers| - 1])
         + (if Truthy(answers[|answers| - 1].questionText) then [answers[|answers| - 1]] else [])
  }

  /** An answer is shown exactly when it is among the application's answers and its question
      text is truthy. */
  lemma {:induction false} ShownAnswersMembers(answers: seq<Answer>, a: Answer)
    ensures a in ShownAnswers(answers) <==> a in answers && Truthy(a.questionText)
  {
    if answers != [] {
      var init := answers[..|answers| - 1];
      ShownAnswersMembers(init, a);
      assert answers == init + [answers[|answers| - 1]];
    }
  }

  /** The answers block of `viewApplications`: none when `app.answers` is null or empty,
      otherwise the lines for the answers with a truthy question text, in order. */
  method RenderAnswers(answers: Option<seq<Answer>>) returns (block: Option<seq<Answer>>)
    ensures answers.None? || answers.value == [] ==> block.None?
    ensures answers.Some? && answers.value != [] ==> block == Some(ShownAnswers(answers.value))
  {
    if answers.None? || |answers.value| == 0 {
      return None;
    }
    var all := answers.value;
    var lines: seq<Answer> := [];
    var i := 0;
    while i < |all|
      invariant 0 <= i <= |all|
      invariant lines == ShownAnswers(all[..i])
    {
      assert all[..i + 1][..i] == all[..i];
      if Truthy(all[i].questionText) {
        lines := lines + [all[i]];
      }
      i := i + 1;
    }
    assert all[..|all|] == all;
    block := Some(lines);
  }

  /** A row of the applications list as the page reads it. */
  datatype Application = Application(applicationId: JsValue, status: JsValue,
                                     answers: Option<seq<Answer>>)

  /** What one application's card offers: the action buttons, or else the coloured status
      label, and the answers block. */
  datatype Card = Card(applicationId: JsValue, actions: seq<Action>, badge: Option<Colour>,
                       answers: Option<seq<Answer>>)

  function CardOf(app: Application): Card {
    var acts := Actions(app.status);
    Card(app.applicationId, acts, if acts == [] then Some(StatusColour(app.status)) else None,
         if app.answers.None? || app.answers.value == [] then None else Some(ShownAnswers(app.answers.value)))
  }

  /** `viewApplications`: one card per application, in the order the server lists them. */
  method ViewApplications(apps: seq<Application>) returns (cards: seq<Card>)
    ensures |cards| == |apps|
    ensures forall k :: 0 <= k < |apps| ==> cards[k] == CardOf(apps[k])
    ensures forall k :: 0 <= k < |apps| ==> Hire in cards[k].actions ==> apps[k].status == Str("Shortlisted")
  {
    cards := [];
    var i := 0;
    while i < |apps|
      invariant 0 <= i <= |apps|
      invariant |cards| == i
      invariant forall k :: 0 <= k < i ==> cards[k] == CardOf(apps[k])
    {
      var app := apps[i];
      var acts := Actions(app.status);
      var badge := if acts == [] then Some(StatusColour(app.status)) else None;
      var block := RenderAnswers(app.answers);
      cards := cards + [Card(app.applicationId, acts, badge, block)];
      i := i + 1;
    }
    forall k | 0 <= k < |apps| ensures Hire in cards[k].actions ==> apps[k].status == Str("Shortlisted") {
      HireOnlyAfterShortlist(apps[k].status);
    }
  }
}
