/** The candidate dashboard (frontend/js/candidate.js): the skill picker's options, the
    payload `addSkill` posts for a standard or a typed skill, and the address line of
    `renderProfile`. */
module CandidatePage {
  import opened JsStrings
  import opened JsValues
  import opened Wrappers
  import CandidateController
  import opened Seqs

  // ---------------------------------------------------------------------------------------
  // the skill picker

  /** A row of the master skill list (`skill_id`, `skill_name`). */
  datatype SkillRow = SkillRow(id: int, name: string)

  /** An option of the picker; options are keyed by their value as a string. */
  datatype PickerOption = PickerOption(text: string, standard: bool)

  /** The key of a skill's option: the decimal form of its id. */
  function OptionKey(skill: SkillRow): string {
    IntToString(skill.id)
  }

  /** `{ value: s.skill_id, text: s.skill_name, standard: true }`. */
  function OptionOf(skill: SkillRow): PickerOption {
    PickerOption(skill.name, true)
  }

  /** `skills.map(s => ({ value: s.skill_id, text: s.skill_name, standard: true }))`, keyed
      by the decimal form of the id. `skill_id` is the table's primary key, so no two rows
      share a key; for a list that repeated one, this map keeps the later row while
      TomSelect keeps the first. */
  function LoadOptions(skills: seq<SkillRow>): map<string, PickerOption>
  {
    KeyedBy(skills, OptionKey, OptionOf)
  }

  /** The options are exactly the skills of the list, keyed by their ids, and all of them
      are standard. */
  lemma LoadOptionsKeys(skills: seq<SkillRow>)
    ensures forall k :: 0 <= k < |skills| ==> IntToString(skills[k].id) in LoadOptions(skills)
    ensures forall v :: v in LoadOptions(skills) ==>
              LoadOptions(skills)[v].standard && exists k :: 0 <= k < |skills| && v == IntToString(skills[k].id)
  {
    KeyedByEntries(skills, OptionKey, OptionOf);
  }

  /** What `addSkill` posts, or None when nothing is selected. `selected` is the picker's
      value (an option's key, or the text the user typed for a new item), `years` is
      `parseFloat` of the years field. */
  function SkillPayload(selected: string, options: map<string, PickerOption>,
                        proficiency: string, years: JsValue): (p: Option<Body>)
    ensures selected == "" <==> p.None?
    ensures p.Some? ==> Get(p.value, "proficiency") == Str(proficiency)
                        && Get(p.value, "years_experience") == years
    ensures p.Some? && selected in options && options[selected].standard ==>
              Get(p.value, "skill_id") == ParseInt(selected) && "custom_name" !in p.value
    ensures p.Some? && !(selected in options && options[selected].standard) ==>
              Get(p.value, "skill_id") == Num(0) && Get(p.value, "custom_name") == Str(selected)
  {
    if selected == "" then None
    else
      var base := map["proficiency" := Str(proficiency), "years_experience" := years];
      if selected in options && options[selected].standard then
        Some(base["skill_id" := ParseInt(selected)])
      else
        Some(base["skill_id" := Num(0)]["custom_name" := Str(selected)])
  }

  /** Picking a skill of the master list sends its id and no custom name. */
  lemma StandardSkillPayload(skills: seq<SkillRow>, k: nat, proficiency: string, years: JsValue)
    requires k < |skills|
    ensures var p := SkillPayload(IntToString(skills[k].id), LoadOptions(skills), proficiency, years);
            && p.Some?
            && Get(p.value, "skill_id") == Num(skills[k].id)
            && "custom_name" !in p.value
  {
    ParseIntRoundTrip(skills[k].id);
    LoadOptionsKeys(skills);
  }

  /** The server accepts a body holding a proficiency string and a years figure that is
      NULL or in [0, 50], and passes the numeric `skill_id` it carries. */
  lemma AcceptedBody(candidateId: nat, body: Body, id: int)
    requires Get(body, "proficiency").Str?
    requires Get(body, "years_experience").Null?
             || (Get(body, "years_experience").Num? && 0 <= Get(body, "years_experience").n <= 50)
    requires Get(body, "skill_id") == Num(id)
    ensures var d := CandidateController.AddSkill(candidateId, body);
            && d.Ok? && d.args.skillId == Num(id) && d.args.proficiency == Get(body, "proficiency")
  {
  }

  /** A standard skill picked on the page reaches the procedure with its id and a NULL
      custom name. */
  lemma StandardSkillReachesProcedure(skills: seq<SkillRow>, k: nat, proficiency: string,
                                      years: JsValue, candidateId: nat)
    requires k < |skills|
    requires years.NaN? || (years.Num? && 0 <= years.n <= 50)
    ensures var p := SkillPayload(IntToString(skills[k].id), LoadOptions(skills), proficiency, years);
            && p.Some?
            && var d := CandidateController.AddSkill(candidateId, Transmit(p.value));
               d.Ok? && d.args.skillId == Num(skills[k].id) && d.args.customName == Null
               && d.args.proficiency == Str(proficiency)
  {
    StandardSkillPayload(skills, k, proficiency, years);
    var p := SkillPayload(IntToString(skills[k].id), LoadOptions(skills), proficiency, years);
    var body := Transmit(p.value);
    assert Get(body, "proficiency") == Str(proficiency);
    assert Get(body, "years_experience") == Wire(years);
    AcceptedBody(candidateId, body, skills[k].id);
    assert "custom_name" !in body;
  }

  /** A typed skill is sent with id 0 and the typed text as its name, and reaches the
      procedure that way. */
  lemma CustomSkillReachesProcedure(typed: string, options: map<string, PickerOption>,
                                    proficiency: string, years: JsValue, candidateId: nat)
    requires typed != "" && !(typed in options && options[typed].standard)
    requires years.NaN? || (years.Num? && 0 <= years.n <= 50)
    ensures var p := SkillPayload(typed, options, proficiency, years);
            && p.Some?
            && var d := CandidateController.AddSkill(candidateId, Transmit(p.value));
               d.Ok? && d.args.skillId == Num(0) && d.args.customName == Str(typed)
  {
    var p := SkillPayload(typed, options, proficiency, years);
    var body := Transmit(p.value);
    assert Get(body, "custom_name") == Str(typed);
    assert Get(body, "skill_id") == Num(0);
    assert Get(body, "proficiency") == Str(proficiency);
  }

  /** An empty years field (`parseFloat` gives NaN) travels as `null`, which is falsy, so the
      request is accepted and 0 years are stored. */
  lemma EmptyYearsStoredAsZero(selected: string, options: map<string, PickerOption>,
                               proficiency: string, candidateId: nat)
    requires selected != ""
    ensures var p := SkillPayload(selected, options, proficiency, NaN);
            && p.Some?
            && var d := CandidateController.AddSkill(candidateId, Transmit(p.value));
               d.Ok? && d.args.yearsExperience == Num(0)
  {
    var p := SkillPayload(selected, options, proficiency, NaN);
    var body := Transmit(p.value);
    assert Get(body, "years_experience") == Null;
    assert Get(body, "proficiency") == Str(proficiency);
  }

  // ---------------------------------------------------------------------------------------
  // the address line

  /** `.filter(Boolean)`. */
  function Present(parts: seq<JsValue>): (r: seq<JsValue>)
    ensures |r| <= |parts|
    ensures forall k :: 0 <= k < |r| ==> Truthy(r[k])
  {
    if parts == [] then []
    else (if Truthy(parts[0]) then [parts[0]] else []) + Present(parts[1..])
  }

  /** The strings `Array.prototype.join` writes for the parts. */
  function Texts(parts: seq<JsValue>): (ts: seq<string>)
    ensures |ts| == |parts| && forall k :: 0 <= k < |parts| ==> ts[k] == ToStr(parts[k])
  {
    seq(|parts|, k requires 0 <= k < |parts| => ToStr(parts[k]))
  }

  /** `[city, division, country].filter(Boolean).join(', ') || 'Not set'`. */
  function FormatAddress(city: JsValue, division: JsValue, country: JsValue): string
  {
    var line := Join(Texts(Present([city, division, country])), ", ");
    if line == "" then "Not set" else line
  }

  /** A part of an address as the profile returns it: text or NULL. */
  predicate TextOrNull(v: JsValue) { v.Null? || v.Str? }

  lemma PresentOfThree(a: JsValue, b: JsValue, c: JsValue)
    ensures Present([a, b, c]) == (if Truthy(a) then [a] else []) + (if Truthy(b) then [b] else [])
                                  + (if Truthy(c) then [c] else [])
  {
    assert [a, b, c][1..] == [b, c];
    assert [b, c][1..] == [c];
    assert [c][1..] == [];
    assert Present([c]) == (if Truthy(c) then [c] else []);
    assert Present([b, c]) == (if Truthy(b) then [b] else []) + Present([c]);
  }

  /** The address line for text-or-NULL parts: "Not set" when no part is a non-empty
      string, and otherwise the present parts, in the order city, division, country,
      joined with ", ". */
  lemma AddressLine(city: JsValue, division: JsValue, country: JsValue)
    requires TextOrNull(city) && TextOrNull(division) && TextOrNull(country)
    ensures var line := FormatAddress(city, division, country);
            && (!Truthy(city) && !Truthy(division) && !Truthy(country) ==> line == "Not set")
            && (Truthy(city) && Truthy(division) && Truthy(country) ==>
                  line == city.s + ", " + division.s + ", " + country.s)
            && (Truthy(city) && Truthy(division) && !Truthy(country) ==> line == city.s + ", " + division.s)
            && (Truthy(city) && !Truthy(division) && Truthy(country) ==> line == city.s + ", " + country.s)
            && (!Truthy(city) && Truthy(division) && Truthy(country) ==> line == division.s + ", " + country.s)
            && (Truthy(city) && !Truthy(division) && !Truthy(country) ==> line == city.s)
            && (!Truthy(city) && Truthy(division) && !Truthy(country) ==> line == division.s)
            && (!Truthy(city) && !Truthy(division) && Truthy(country) ==> line == country.s)
  {
    PresentOfThree(city, division, country);
    var parts := Present([city, division, country]);
    var texts := Texts(parts);
    if |parts| >= 2 {
      assert Join(texts, ", ") == texts[0] + ", " + Join(texts[1..], ", ");
    }
    if |parts| == 3 {
      assert Join(texts[1..], ", ") == texts[1] + ", " + texts[2];
    }
  }
}
