/** The trainer dashboard's skill picker (frontend/js/trainer.js): the module-level list
    `selectedSkills`, which the selector path extends only with skills not yet listed, the
    create-new path extends with whatever the server returns, `removeSkill` cuts by index,
    and a successful `createCourse` empties. Server replies are parameters. */
module TrainerPage {
  import opened JsStrings
  import opened JsValues
  import opened Wrappers
  import SkillRegistry

  /** An entry `{ id, name }` of `selectedSkills`. */
  datatype SkillTag = SkillTag(id: JsValue, name: JsValue)

  /** A reply to `POST /skills`: `response.ok` and the decoded JSON. */
  datatype SkillReply = SkillReply(ok: bool, data: Body)

  /** `selectedSkills.find(s => s.id == skillId)` finds something. */
  predicate Listed(selected: seq<SkillTag>, value: string) {
    exists k :: 0 <= k < |selected| && LooseEqualsString(selected[k].id, value)
  }

  /** The selector path: push `{ id: parseInt(skillId), name }` unless an entry already has
      a loosely equal id. */
  function AddIfAbsent(selected: seq<SkillTag>, value: string, text: string): (r: seq<SkillTag>)
    ensures Listed(selected, value) ==> r == selected
    ensures !Listed(selected, value) ==> r == selected + [SkillTag(ParseInt(value), Str(text))]
  {
    if Listed(selected, value) then selected else selected + [SkillTag(ParseInt(value), Str(text))]
  }

  /** `Array.prototype.splice(index, 1)`: a negative index counts from the end (and is
      clamped at 0), an index at or past the end removes nothing. */
  function Splice(s: seq<SkillTag>, index: int): (r: seq<SkillTag>)
    ensures 0 <= index < |s| ==> r == s[..index] + s[index + 1..]
    ensures index >= |s| ==> r == s
    ensures |s| > 0 && -|s| <= index < 0 ==> r == s[..|s| + index] + s[|s| + index + 1..]
    ensures |s| > 0 && index < -|s| ==> r == s[1..]
  {
    var start := if index < 0 then (if |s| + index < 0 then 0 else |s| + index)
                 else (if index > |s| then |s| else index);
    if start < |s| then s[..start] + s[start + 1..] else s
  }

  /** What `addSelectedSkill` sends (the skill name of a create request) and what the list
      is afterwards. `choice` is the selector's value, `optionText` the selected option's
      text and `newSkillName` the text box. */
  function AddSelectedSkillSpec(selected: seq<SkillTag>, choice: string, optionText: string,
                                newSkillName: string, reply: SkillReply)
    : (res: (Option<string>, seq<SkillTag>))
    ensures choice == "NEW" && Trim(newSkillName) == "" ==> res == (None, selected)
    ensures choice == "NEW" && Trim(newSkillName) != "" ==>
              && res.0 == Some(Trim(newSkillName))
              && res.1 == selected + (if reply.ok then [SkillTag(Get(reply.data, "skill_id"),
                                                                 Get(reply.data, "skill_name"))]
                                      else [])
    ensures choice != "NEW" ==> res == (None, if choice == "" then selected
                                              else AddIfAbsent(selected, choice, optionText))
  {
    if choice == "NEW" then
      var name := Trim(newSkillName);
      if name == "" then (None, selected)
      else if reply.ok then
        (Some(name), selected + [SkillTag(Get(reply.data, "skill_id"), Get(reply.data, "skill_name"))])
      else (Some(name), selected)
    else if choice != "" then (None, AddIfAbsent(selected, choice, optionText))
    else (None, selected)
  }

  /** `skill_ids = selectedSkills.map(s => s.id)`. */
  function Ids(selected: seq<SkillTag>): (ids: seq<JsValue>)
    ensures |ids| == |selected|
    ensures forall k :: 0 <= k < |selected| ==> ids[k] == selected[k].id
  {
    seq(|selected|, k requires 0 <= k < |selected| => selected[k].id)
  }

  /** No two entries have equal ids. */
  predicate DistinctIds(selected: seq<SkillTag>) {
    forall j, k :: 0 <= j < k < |selected| ==> selected[j].id != selected[k].id
  }

  /** Every id in the list is a number. */
  predicate NumericIds(selected: seq<SkillTag>) {
    forall k :: 0 <= k < |selected| ==> selected[k].id.Num?
  }

  /** Adding through the selector a value that reads as the number `id`, both for
      `parseInt` and for loose equality, keeps numeric ids distinct. */
  lemma AddIfAbsentKeepsDistinct(selected: seq<SkillTag>, value: string, text: string, id: int)
    requires NumericIds(selected) && DistinctIds(selected)
    requires ParseInt(value) == Num(id) && StringToNumber(value) == Num(id)
    ensures var r := AddIfAbsent(selected, value, text);
            NumericIds(r) && DistinctIds(r)
  {
    var r := AddIfAbsent(selected, value, text);
    if !Listed(selected, value) {
      assert r == selected + [SkillTag(Num(id), Str(text))];
      forall k | 0 <= k < |selected| ensures selected[k].id != Num(id) {
        assert !LooseEqualsString(selected[k].id, value);
      }
      forall k | 0 <= k < |r| ensures r[k].id.Num? {
        if k < |selected| {
          assert r[k] == selected[k];
        }
      }
      forall j, k | 0 <= j < k < |r| ensures r[j].id != r[k].id {
        assert r[j] == selected[j];
        if k < |selected| {
          assert r[k] == selected[k];
        }
      }
    }
  }

  /** The selector offers the ids of the skill list as decimal strings; picking one keeps
      the ids of a list of numeric, distinct ids numeric and distinct. */
  lemma SelectorPathKeepsIdsDistinct(selected: seq<SkillTag>, id: int, text: string)
    requires NumericIds(selected) && DistinctIds(selected)
    ensures var r := AddIfAbsent(selected, IntToString(id), text);
            NumericIds(r) && DistinctIds(r)
  {
    ParseIntRoundTrip(id);
    NumberRoundTrip(id);
    AddIfAbsentKeepsDistinct(selected, IntToString(id), text, id);
  }

  /** The create-new path has no such check: when the server answers with a skill that is
      already listed (it returns an existing skill with 200), the list holds it twice. */
  lemma CreatePathCanDuplicate(selected: seq<SkillTag>, k: nat, newSkillName: string, reply: SkillReply)
    requires k < |selected|
    requires Trim(newSkillName) != ""
    requires reply.ok && Get(reply.data, "skill_id") == selected[k].id
    ensures var r := AddSelectedSkillSpec(selected, "NEW", "", newSkillName, reply).1;
            |r| == |selected| + 1 && r[k].id == r[|selected|].id && !DistinctIds(r)
  {
  }

  /** `addSkill`'s reply to the create request, as the picker receives it. */
  function ReplyOf(reply: SkillRegistry.AddReply): SkillReply {
    match reply.skill
    case Some(row) =>
      SkillReply(reply.status == 200 || reply.status == 201,
                 map["skill_slug" := Str(row.slug), "skill_name" := Str(row.name), "skill_id" := Num(row.id)])
    case None => SkillReply(false, map["message" := Str("Server Error")])
  }

  /** Against a valid skill table: typing the name of a skill that is listed already makes
      the server return that skill, and the list then holds it twice. */
  lemma RetypedSkillIsListedTwice(t: SkillRegistry.Registry, selected: seq<SkillTag>,
                                  i: nat, k: nat, newSkillName: string)
    requires SkillRegistry.ValidRegistry(t)
    requires i < |t.rows| && t.rows[i].name == Trim(newSkillName) && Trim(newSkillName) != ""
    requires k < |selected| && selected[k].id == Num(t.rows[i].id)
    ensures var (reply, t1) := SkillRegistry.AddSkillSpec(t, Str(Trim(newSkillName)));
            && t1 == t
            && !DistinctIds(AddSelectedSkillSpec(selected, "NEW", "", newSkillName, ReplyOf(reply)).1)
  {
    SkillRegistry.StoredNameResolvesToItsRow(t, i);
    var reply := ReplyOf(SkillRegistry.AddReply(200, Some(t.rows[i])));
    assert reply.ok && Get(reply.data, "skill_id") == selected[k].id;
    CreatePathCanDuplicate(selected, k, newSkillName, reply);
  }

  /** After `removeSkill(i)` for a listed index, the list is one shorter and holds the other
      entries in their order. */
  lemma RemoveKeepsOthers(s: seq<SkillTag>, i: int)
    requires 0 <= i < |s|
    ensures var r := Splice(s, i);
            && |r| == |s| - 1
            && (forall k :: 0 <= k < i ==> r[k] == s[k])
            && (forall k :: i <= k < |r| ==> r[k] == s[k + 1])
            && multiset(r) + multiset{s[i]} == multiset(s)
  {
    assert s == s[..i] + [s[i]] + s[i + 1..];
  }

  /** The module-level `selectedSkills` of the trainer dashboard. */
  class SkillSelection {
    var selected: seq<SkillTag>

    constructor ()
      ensures selected == []
    {
      selected := [];
    }

    /** `addSelectedSkill()`; `request` is the skill name posted to the server, if any. */
    method AddSelectedSkill(choice: string, optionText: string, newSkillName: string, reply: SkillReply)
      returns (request: Option<string>)
      modifies this
      ensures (request, selected)
              == AddSelectedSkillSpec(old(selected), choice, optionText, newSkillName, reply)
    {
      request := None;
      if choice == "NEW" {
        var name := Trim(newSkillName);
        if name == "" {
          return;
        }
        request := Some(name);
        if reply.ok {
          selected := selected + [SkillTag(Get(reply.data, "skill_id"), Get(reply.data, "skill_name"))];
        }
      } else if choice != "" {
        if !Listed(selected, choice) {
          selected := selected + [SkillTag(ParseInt(choice), Str(optionText))];
        }
      }
    }

    /** `removeSkill(index)`. */
    method RemoveSkill(index: int)
      modifies this
      ensures selected == Splice(old(selected), index)
    {
      selected := Splice(selected, index);
    }

    /** `createCourse()`: nothing is sent while the list is empty; otherwise the ids are sent
        in list order, and the list is emptied when the server accepts the course (`accepted`
        is `response.ok`). */
    method CreateCourse(accepted: bool) returns (request: Option<seq<JsValue>>)
      modifies this
      ensures old(selected) == [] ==> request.None?
      ensures old(selected) != [] ==> request == Some(Ids(old(selected)))
      ensures selected == (if request.Some? && accepted then [] else old(selected))
    {
      var ids := Ids(selected);
      if |ids| == 0 {
        return None;
      }
      request := Some(ids);
      if accepted {
        selected := [];
      }
    }
  }
}
