/// The three scoring rules applied to one listing: skills, sector interest
/// and location, with the reason text each rule emits when it fires.
module Scoring {
  import opened Profiles

  /// The entries of the user's skill list that occur among the listing's
  /// required skills, in the user's order, repeats included.
  function SkillMatches(skills: seq<string>, required: seq<string>): (m: seq<string>)
    ensures |m| <= |skills|
  {
    if skills == [] then []
    else (if skills[0] in required then [skills[0]] else []) + SkillMatches(skills[1..], required)
  }

  /// Every matched skill is an entry of the user's list and a required skill.
  lemma {:induction false} SkillMatchesSound(skills: seq<string>, required: seq<string>)
    ensures forall s :: s in SkillMatches(skills, required) ==> s in skills && s in required
  {
    if skills != [] {
      SkillMatchesSound(skills[1..], required);
    }
  }

  /// The reason text of the skill rule for one matched skill.
  function SkillReason(skill: string): string {
    "Your skill: " + skill
  }

  /// The reason text of the interest rule.
  function InterestReason(sector: string): string {
    "Your interest: " + sector
  }

  /// One skill reason per matched skill, in the same order.
  function SkillReasons(matched: seq<string>): (r: seq<string>)
    ensures |r| == |matched|
    ensures forall k :: 0 <= k < |r| ==> r[k] == SkillReason(matched[k])
  {
    if matched == [] then [] else [SkillReason(matched[0])] + SkillReasons(matched[1..])
  }

  predicate InterestMatches(user: UserData, internship: Internship) {
    user.interest == internship.sector
  }

  predicate LocationMatches(user: UserData, internship: Internship) {
    user.location == internship.location || user.location == NoPreference
  }

  /// The score of a listing: the sum of the three rule contributions.
  function Score(user: UserData, internship: Internship): (r: int)
    ensures LocationMatches(user, internship) ==> r >= LocationPoints
    ensures r >= -LocationPenalty
  {
    SkillPoints * |SkillMatches(user.skills, internship.requiredSkills)|
    + (if InterestMatches(user, internship) then InterestPoints else 0)
    + (if LocationMatches(user, internship) then LocationPoints else -LocationPenalty)
  }

  /// Every reason collected for a listing, in rule order.
  function Reasons(user: UserData, internship: Internship): (r: seq<string>)
    ensures |r| == |SkillMatches(user.skills, internship.requiredSkills)|
      + (if InterestMatches(user, internship) then 1 else 0)
      + (if LocationMatches(user, internship) then 1 else 0)
  {
    SkillReasons(SkillMatches(user.skills, internship.requiredSkills))
    + (if InterestMatches(user, internship) then [InterestReason(internship.sector)] else [])
    + (if LocationMatches(user, internship) then [LocationReason] else [])
  }

  /// Matching distributes over concatenation of skill lists.
  lemma {:induction false} SkillMatchesAppend(a: seq<string>, b: seq<string>, required: seq<string>)
    ensures SkillMatches(a + b, required) == SkillMatches(a, required) + SkillMatches(b, required)
  {
    if a != [] {
      assert (a + b)[1..] == a[1..] + b;
      SkillMatchesAppend(a[1..], b, required);
    } else {
      assert a + b == b;
    }
  }

  /// Scores one listing the way `get_recommendations` does: a running score and a
  /// growing reason list, first over the user's skill list, then the
  /// interest rule, then the location rule.
  method Evaluate(user: UserData, internship: Internship) returns (score: int, reasons: seq<string>)
    ensures score == Score(user, internship)
    ensures reasons == Reasons(user, internship)
  {
    score := 0;
    reasons := [];
    for k := 0 to |user.skills|
      invariant score == SkillPoints * |SkillMatches(user.skills[..k], internship.requiredSkills)|
      invariant reasons == SkillReasons(SkillMatches(user.skills[..k], internship.requiredSkills))
    {
      var skill := user.skills[k];
      SkillStep(user.skills, k, internship.requiredSkills);
      if skill in internship.requiredSkills {
        score := score + SkillPoints;
        reasons := reasons + [SkillReason(skill)];
      }
    }
    assert user.skills[..|user.skills|] == user.skills;
    if user.interest == internship.sector {
      score := score + InterestPoints;
      reasons := reasons + [InterestReason(internship.sector)];
    }
    if user.location == internship.location || user.location == NoPreference {
      score := score + LocationPoints;
      reasons := reasons + [LocationReason];
    } else {
      score := score - LocationPenalty;
    }
  }

  /// One more entry of the skill list adds at most one match and one reason.
  lemma SkillStep(skills: seq<string>, k: int, required: seq<string>)
    requires 0 <= k < |skills|
    ensures var added := if skills[k] in required then [skills[k]] else [];
      SkillMatches(skills[..k + 1], required) == SkillMatches(skills[..k], required) + added
      && SkillReasons(SkillMatches(skills[..k + 1], required))
         == SkillReasons(SkillMatches(skills[..k], required)) + SkillReasons(added)
  {
    assert skills[..k + 1] == skills[..k] + [skills[k]];
    SkillMatchesAppend(skills[..k], [skills[k]], required);
    SkillReasonsAppend(SkillMatches(skills[..k], required), SkillMatches([skills[k]], required));
  }

  /// Skill reasons distribute over concatenation of the matched skills.
  lemma SkillReasonsAppend(a: seq<string>, b: seq<string>)
    ensures SkillReasons(a + b) == SkillReasons(a) + SkillReasons(b)
  {
  }

  /// The positions in the user's skill list whose entry the listing requires.
  function MatchPositions(skills: seq<string>, required: seq<string>): set<int> {
    set k | 0 <= k < |skills| && skills[k] in required
  }

  /// The matched skills are exactly one per matching position of the list.
  lemma {:induction false} MatchesCountPositions(skills: seq<string>, required: seq<string>)
    ensures |SkillMatches(skills, required)| == |MatchPositions(skills, required)|
  {
    if skills != [] {
      var n := |skills| - 1;
      var init := skills[..n];
      MatchesCountPositions(init, required);
      assert skills == init + [skills[n]];
      SkillMatchesAppend(init, [skills[n]], required);
      assert MatchPositions(skills, required)
        == MatchPositions(init, required) + (if skills[n] in required then {n} else {});
    } else {
      assert MatchPositions(skills, required) == {};
    }
  }

  /// The score in closed form: ten points per position of the user's skill
  /// list whose entry the listing requires, eight for the interest, and five
  /// or minus three for the location.
  lemma ScoreByRules(user: UserData, internship: Internship)
    ensures Score(user, internship)
      == 10 * |MatchPositions(user.skills, internship.requiredSkills)|
        + (if user.interest == internship.sector then 8 else 0)
        + (if user.location == internship.location || user.location == "No Preference" then 5 else -3)
  {
    MatchesCountPositions(user.skills, internship.requiredSkills);
  }

  /// Reasons are collected in rule order: one per matched skill in the
  /// user's order, then the interest, then the location.
  lemma {:induction false} ReasonsInRuleOrder(user: UserData, internship: Internship)
    ensures var m := SkillMatches(user.skills, internship.requiredSkills);
      var r := Reasons(user, internship);
      |r| == |m| + (if InterestMatches(user, internship) then 1 else 0)
                 + (if LocationMatches(user, internship) then 1 else 0)
      && (forall k :: 0 <= k < |m| ==> r[k] == SkillReason(m[k]))
      && (InterestMatches(user, internship) ==> r[|m|] == InterestReason(internship.sector))
      && (LocationMatches(user, internship) ==> r[|r| - 1] == LocationReason)
  {
  }

  /// A listing earns a positive score exactly when at least one rule
  /// emitted a reason; so the extra `and reasons` test of `get_recommendations` never
  /// excludes a listing that `score > 0` admits.
  lemma PositiveScoreIffReason(user: UserData, internship: Internship)
    ensures Score(user, internship) > 0 <==> |Reasons(user, internship)| > 0
  {
  }

  /// A score is either the bare location penalty or at least five.
  lemma ScoreRange(user: UserData, internship: Internship)
    ensures Score(user, internship) == -LocationPenalty || Score(user, internship) >= LocationPoints
  {
  }

  /// Adding one more entry to the user's skill list raises the score by
  /// exactly ten when the listing requires it and leaves it unchanged
  /// otherwise; the other rules are unaffected.
  lemma {:induction false} ScoreAddSkill(user: UserData, skill: string, internship: Internship)
    ensures var more := user.(skills := user.skills + [skill]);
      Score(more, internship)
        == Score(user, internship) + (if skill in internship.requiredSkills then SkillPoints else 0)
  {
    SkillMatchesAppend(user.skills, [skill], internship.requiredSkills);
  }

  /// With interest and location fixed, the score is monotone in the number
  /// of matched skill entries: each extra match adds exactly ten.
  lemma ScoreMonotoneInMatches(u1: UserData, u2: UserData, internship: Internship)
    requires u1.interest == u2.interest && u1.location == u2.location
    ensures var n1 := |SkillMatches(u1.skills, internship.requiredSkills)|;
      var n2 := |SkillMatches(u2.skills, internship.requiredSkills)|;
      Score(u2, internship) - Score(u1, internship) == SkillPoints * (n2 - n1)
      && (n1 <= n2 ==> Score(u1, internship) <= Score(u2, internship))
  {
  }
}
