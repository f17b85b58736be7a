/** The skill table and the resolve-or-create operation behind `POST /api/trainer/skills`
    (backend/controllers/trainerController.js, `addSkill`): a skill name is turned into a slug,
    an existing skill with the same name or the same slug is returned as it is, and only
    otherwise a new skill is inserted. */
module SkillRegistry {
  import opened JsStrings
  import opened JsValues
  import opened Wrappers
  import opened Seqs

  // ---------------------------------------------------------------------------------------
  // slugs

  /** `s.replace(/\s+/g, '-')`: every maximal run of white space becomes a single "-". */
  function ReplaceWhitespaceRuns(s: string): string
    decreases |s|
  {
    if s == [] then []
    else if IsWhitespace(s[0]) then "-" + ReplaceWhitespaceRuns(TrimStart(s[1..]))
    else [s[0]] + ReplaceWhitespaceRuns(s[1..])
  }

  /** The result has no white space, is no longer than the input, and has an upper-case ASCII
      letter only where the input had one. */
  lemma {:induction false} RunsReplaced(s: string)
    ensures var r := ReplaceWhitespaceRuns(s);
            && NoWhitespace(r)
            && |r| <= |s|
            && (NoUpperAscii(s) ==> NoUpperAscii(r))
    decreases |s|
  {
    if s != [] {
      if IsWhitespace(s[0]) {
        var rest := TrimStart(s[1..]);
        RunsReplaced(rest);
        if NoUpperAscii(s) {
          SuffixKeepsLowercase(s, |s| - |rest|);
        }
        ConsKeeps('-', ReplaceWhitespaceRuns(rest));
      } else {
        RunsReplaced(s[1..]);
        if NoUpperAscii(s) {
          SuffixKeepsLowercase(s, 1);
        }
        ConsKeeps(s[0], ReplaceWhitespaceRuns(s[1..]));
      }
    }
  }

  lemma ConsKeeps(c: char, r: string)
    requires NoWhitespace(r) && !IsWhitespace(c)
    ensures NoWhitespace([c] + r)
    ensures NoUpperAscii(r) && !IsUpperAscii(c) ==> NoUpperAscii([c] + r)
  {
    assert forall i :: 1 <= i < |r| + 1 ==> ([c] + r)[i] == r[i - 1];
  }

  lemma SuffixKeepsLowercase(s: string, k: nat)
    requires k <= |s| && NoUpperAscii(s)
    ensures NoUpperAscii(s[k..])
  {
    assert forall i :: 0 <= i < |s| - k ==> s[k..][i] == s[k + i];
  }

  /** The slug stored beside a skill name: lower case, with every run of white space
      replaced by "-". */
  function Slugify(name: string): (slug: string)
    ensures NoWhitespace(slug)
    ensures NoUpperAscii(slug)
    ensures |slug| <= |name|
  {
    RunsReplaced(ToLower(name));
    ReplaceWhitespaceRuns(ToLower(name))
  }

  /** A run of white space between two words becomes exactly one "-", whatever its length. */
  lemma {:induction false} SlugRunBecomesOneHyphen(word: string, run: string, tail: string)
    requires NoWhitespace(word)
    requires |run| > 0 && forall i :: 0 <= i < |run| ==> IsWhitespace(run[i])
    requires tail == [] || !IsWhitespace(tail[0])
    ensures ReplaceWhitespaceRuns(word + run + tail)
            == word + "-" + ReplaceWhitespaceRuns(tail)
  {
    if word == [] {
      assert word + run + tail == run + tail;
      RunAtStart(run, tail);
    } else {
      SlugRunBecomesOneHyphen(word[1..], run, tail);
      var x := ReplaceWhitespaceRuns(tail);
      assert word[1..] + run + tail == word[1..] + (run + tail);
      assert word[1..] + "-" + x == word[1..] + ("-" + x);
      WordStep(word, run + tail, "-" + x);
      assert word + run + tail == word + (run + tail);
      assert word + "-" + x == word + ("-" + x);
    }
  }

  /** One character of a word is copied in front of the rest of the result. */
  lemma WordStep(word: string, rest: string, out: string)
    requires word != [] && !IsWhitespace(word[0])
    requires ReplaceWhitespaceRuns(word[1..] + rest) == word[1..] + out
    ensures ReplaceWhitespaceRuns(word + rest) == word + out
  {
    ConsAppend(word, rest);
    ConsAppend(word, out);
    KeptCharacter(word + rest);
  }

  lemma RunAtStart(run: string, tail: string)
    requires |run| > 0 && forall i :: 0 <= i < |run| ==> IsWhitespace(run[i])
    requires tail == [] || !IsWhitespace(tail[0])
    ensures ReplaceWhitespaceRuns(run + tail) == "-" + ReplaceWhitespaceRuns(tail)
  {
    var s := run + tail;
    assert s[0] == run[0] && IsWhitespace(s[0]);
    assert s[1..] == run[1..] + tail;
    RunDropped(run[1..], tail);
  }

  lemma KeptCharacter(s: string)
    requires s != [] && !IsWhitespace(s[0])
    ensures ReplaceWhitespaceRuns(s) == [s[0]] + ReplaceWhitespaceRuns(s[1..])
  {
  }

  lemma {:induction false} RunDropped(run: string, tail: string)
    requires forall i :: 0 <= i < |run| ==> IsWhitespace(run[i])
    requires tail == [] || !IsWhitespace(tail[0])
    ensures TrimStart(run + tail) == tail
  {
    if run != [] {
      assert (run + tail)[1..] == run[1..] + tail;
      RunDropped(run[1..], tail);
    }
  }

  /** Text without white space is left as it is. */
  lemma {:induction false} NoRunsNoChange(s: string)
    requires NoWhitespace(s)
    ensures ReplaceWhitespaceRuns(s) == s
  {
    if s != [] {
      assert !IsWhitespace(s[0]);
      NoRunsNoChange(s[1..]);
      assert s == [s[0]] + s[1..];
    }
  }

  /** Deriving a slug from a slug changes nothing. */
  lemma SlugIdempotent(name: string)
    ensures Slugify(Slugify(name)) == Slugify(name)
  {
    var slug := Slugify(name);
    ToLowerKeepsLowercase(slug);
    NoRunsNoChange(slug);
  }

  /** A string is its own slug exactly when it has no white space and no upper-case ASCII
      letter. */
  lemma SlugFixedPoints(s: string)
    ensures Slugify(s) == s <==> NoWhitespace(s) && NoUpperAscii(s)
  {
    if NoWhitespace(s) && NoUpperAscii(s) {
      ToLowerKeepsLowercase(s);
      NoRunsNoChange(s);
    }
  }

  /** Two words separated by one space become their lower-case forms joined by "-". */
  lemma TwoWordSlug(first: string, second: string)
    requires NoWhitespace(first) && NoWhitespace(second)
    ensures Slugify(first + " " + second) == ToLower(first) + "-" + ToLower(second)
  {
    var lower := ToLower(first + " " + second);
    assert lower == ToLower(first) + " " + ToLower(second);
    SlugRunBecomesOneHyphen(ToLower(first), " ", ToLower(second));
    NoRunsNoChange(ToLower(second));
  }

  /** The slug is not trimmed: a leading space becomes a leading "-", so a padded name and
      the bare name have different slugs. */
  lemma PaddedNameSlug(name: string)
    requires name != [] && !IsWhitespace(name[0])
    ensures Slugify(" " + name) == "-" + Slugify(name)
    ensures Slugify(" " + name) != Slugify(name)
  {
    var lower := ToLower(" " + name);
    assert lower == " " + ToLower(name);
    assert lower[1..] == ToLower(name);
    assert TrimStart(ToLower(name)) == ToLower(name);
  }

  // ---------------------------------------------------------------------------------------
  // the skill table

  /** A row of the `skill` table (`skill_id`, `skill_name`, `skill_slug`). */
  datatype Skill = Skill(id: nat, name: string, slug: string)

  /** The table's rows in storage order, and the next value of its id sequence. */
  datatype Registry = Registry(rows: seq<Skill>, nextId: nat)

  /** `skill_name = $1 OR skill_slug = $2`. */
  predicate Matches(row: Skill, name: string, slug: string) {
    row.name == name || row.slug == slug
  }

  /** The first row (in storage order) that the existence query returns. */
  function Lookup(rows: seq<Skill>, name: string, slug: string): (r: Option<nat>)
    ensures r.Some? ==> r.value < |rows| && Matches(rows[r.value], name, slug)
    ensures r.Some? ==> forall k :: 0 <= k < r.value ==> !Matches(rows[k], name, slug)
    ensures r.None? <==> forall k :: 0 <= k < |rows| ==> !Matches(rows[k], name, slug)
  {
    if rows == [] then None
    else if Matches(rows[0], name, slug) then Some(0)
    else
      var r := Lookup(rows[1..], name, slug);
      assert forall k :: 1 <= k < |rows| ==> rows[k] == rows[1..][k - 1];
      if r.Some? then Some(r.value + 1) else None
  }

  /** The table invariant: ids come from the sequence in increasing order, every slug is
      derived from its name, and no two rows share a slug (hence none share a name). */
  ghost predicate ValidRegistry(t: Registry) {
    && t.nextId >= 1
    && (forall k :: 0 <= k < |t.rows| ==> 1 <= t.rows[k].id < t.nextId)
    && (forall j, k :: 0 <= j < k < |t.rows| ==> t.rows[j].id < t.rows[k].id)
    && (forall k :: 0 <= k < |t.rows| ==> t.rows[k].slug == Slugify(t.rows[k].name))
    && (forall j, k :: 0 <= j < k < |t.rows| ==> t.rows[j].slug != t.rows[k].slug)
  }

  /** The response of `addSkill`: 200 with the existing row, 201 with the new row, or 500
      (`skill_name.toLowerCase` throws when `skill_name` is not a string). */
  datatype AddReply = AddReply(status: nat, skill: Option<Skill>)

  /** What `addSkill` answers and what the table is afterwards. */
  function AddSkillSpec(t: Registry, skillName: JsValue): (res: (AddReply, Registry))
    ensures !skillName.Str? ==> res == (AddReply(500, None), t)
    ensures skillName.Str? && (exists k :: 0 <= k < |t.rows|
                                 && Matches(t.rows[k], skillName.s, Slugify(skillName.s))) ==>
              && res.0.status == 200 && res.1 == t
              && exists k :: 0 <= k < |t.rows| && res.0.skill == Some(t.rows[k])
                             && Matches(t.rows[k], skillName.s, Slugify(skillName.s))
    ensures skillName.Str? && (forall k :: 0 <= k < |t.rows|
                                 ==> !Matches(t.rows[k], skillName.s, Slugify(skillName.s))) ==>
              var created := Skill(t.nextId, skillName.s, Slugify(skillName.s));
              res == (AddReply(201, Some(created)), Registry(t.rows + [created], t.nextId + 1))
  {
    if !skillName.Str? then (AddReply(500, None), t)
    else
      var name := skillName.s;
      var slug := Slugify(name);
      var found := Lookup(t.rows, name, slug);
      if found.Some? then (AddReply(200, Some(t.rows[found.value])), t)
      else
        var created := Skill(t.nextId, name, slug);
        (AddReply(201, Some(created)), Registry(t.rows + [created], t.nextId + 1))
  }

  /** Resolve-or-create keeps the table invariant. */
  lemma AddSkillKeepsValid(t: Registry, skillName: JsValue)
    requires ValidRegistry(t)
    ensures ValidRegistry(AddSkillSpec(t, skillName).1)
  {
    if skillName.Str? {
      var name := skillName.s;
      var slug := Slugify(name);
      if Lookup(t.rows, name, slug).None? {
        InsertKeepsValid(t, Skill(t.nextId, name, slug));
      }
    }
  }

  /** Inserting a row with the next id, a slug derived from its name and a slug no row has
      keeps the table invariant. */
  lemma InsertKeepsValid(t: Registry, created: Skill)
    requires ValidRegistry(t)
    requires created.id == t.nextId && created.slug == Slugify(created.name)
    requires forall k :: 0 <= k < |t.rows| ==> t.rows[k].slug != created.slug
    ensures ValidRegistry(Registry(t.rows + [created], t.nextId + 1))
  {
    var rows := t.rows + [created];
    assert forall k :: 0 <= k < |t.rows| ==> rows[k] == t.rows[k];
    assert rows[|t.rows|] == created;
  }

  /** A second `addSkill` with the same name changes nothing and answers with the row the
      first one returned. */
  lemma AddSkillIdempotent(t: Registry, skillName: JsValue)
    ensures var (first, t1) := AddSkillSpec(t, skillName);
            var (second, t2) := AddSkillSpec(t1, skillName);
            && t2 == t1
            && second.skill == first.skill
            && second.status == (if skillName.Str? then 200 else 500)
  {
    if skillName.Str? {
      var name := skillName.s;
      var slug := Slugify(name);
      var found := Lookup(t.rows, name, slug);
      var t1 := AddSkillSpec(t, skillName).1;
      if found.None? {
        assert forall k :: 0 <= k < |t.rows| ==> t1.rows[k] == t.rows[k];
        assert Matches(t1.rows[|t.rows|], name, slug);
        var again := Lookup(t1.rows, name, slug);
        assert again.Some? && again.value >= |t.rows|;
      } else {
        assert t1 == t;
      }
    }
  }

  /** In a valid table, the row holding a name's slug is the one the existence query
      returns for that name. */
  lemma SlugOwnerFound(t: Registry, i: nat, name: string)
    requires ValidRegistry(t)
    requires i < |t.rows| && t.rows[i].slug == Slugify(name)
    ensures Lookup(t.rows, name, Slugify(name)) == Some(i)
  {
    var slug := Slugify(name);
    assert Matches(t.rows[i], name, slug);
    var j := Lookup(t.rows, name, slug).value;
    assert t.rows[j].slug == slug by {
      if t.rows[j].name == name {
        assert t.rows[j].slug == Slugify(t.rows[j].name);
      }
    }
  }

  /** In a valid table, adding the name of a stored skill answers 200 with that very row. */
  lemma StoredNameResolvesToItsRow(t: Registry, i: nat)
    requires ValidRegistry(t)
    requires i < |t.rows|
    ensures AddSkillSpec(t, Str(t.rows[i].name)) == (AddReply(200, Some(t.rows[i])), t)
  {
    SlugOwnerFound(t, i, t.rows[i].name);
  }

  /** In a valid table, names that differ only in the case of ASCII letters resolve to the
      same skill: after adding one, adding the other inserts nothing and returns that row. */
  lemma CaseVariantsResolveToOneSkill(t: Registry, a: string, b: string)
    requires ValidRegistry(t)
    requires ToLower(a) == ToLower(b)
    ensures var (first, t1) := AddSkillSpec(t, Str(a));
            var (second, t2) := AddSkillSpec(t1, Str(b));
            t2 == t1 && second.status == 200 && second.skill == first.skill
  {
    var (first, t1) := AddSkillSpec(t, Str(a));
    AddSkillKeepsValid(t, Str(a));
    var slug := Slugify(a);
    assert Slugify(b) == slug;
    var found := Lookup(t.rows, a, slug);
    var i: nat;
    if found.Some? {
      i := found.value;
      assert t.rows[i].slug == slug by {
        if t.rows[i].name == a {
          assert t.rows[i].slug == Slugify(t.rows[i].name);
        }
      }
    } else {
      i := |t.rows|;
      assert t1.rows[i] == Skill(t.nextId, a, slug);
    }
    assert first.skill == Some(t1.rows[i]);
    SlugOwnerFound(t1, i, b);
  }

  /** The skill table as the controller sees it: rows are added by `AddSkill` only. */
  class SkillTable {
    var rows: seq<Skill>
    var nextId: nat

    ghost predicate Valid()
      reads this
    {
      ValidRegistry(Registry(rows, nextId))
    }

    constructor ()
      ensures Valid() && rows == [] && nextId == 1
    {
      rows := [];
      nextId := 1;
    }

    /** `addSkill(skill_name)`: check for an existing skill, insert one only when none
        matches. */
    method AddSkill(skillName: JsValue) returns (reply: AddReply)
      requires Valid()
      modifies this
      ensures Valid()
      ensures (reply, Registry(rows, nextId)) == AddSkillSpec(old(Registry(rows, nextId)), skillName)
    {
      AddSkillKeepsValid(Registry(rows, nextId), skillName);
      if !skillName.Str? {
        return AddReply(500, None);
      }
      var name := skillName.s;
      var slug := Slugify(name);
      var found := Lookup(rows, name, slug);
      if found.Some? {
        return AddReply(200, Some(rows[found.value]));
      }
      var created := Skill(nextId, name, slug);
      rows := rows + [created];
      nextId := nextId + 1;
      reply := AddReply(201, Some(created));
    }
  }
}
