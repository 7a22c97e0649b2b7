/// Records exchanged by the recommender: the catalog entry, the user's
/// submitted preferences and one ranked recommendation, together with the
/// fixed weights of the rule set.
module Profiles {

  /// One internship listing of the catalog. Only the three fields the rules
  /// read are modelled; `title` stands for the display-only fields that are
  /// passed through untouched.
  datatype Internship = Internship(
    title: string,
    requiredSkills: seq<string>,
    sector: string,
    location: string)

  /// The user's form input. `skills` is the multi-valued form field, kept
  /// as a list: an entry given twice is matched twice.
  datatype UserData = UserData(skills: seq<string>, interest: string, location: string)

  /// One entry of the result: the listing, its score and its reasons
  /// (already cut to the first two).
  datatype Recommendation = Recommendation(internship: Internship, score: int, reasons: seq<string>)

  /// Points for each entry of the user's skill list found in the listing.
  const SkillPoints: int := 10
  /// Points when the user's interest equals the listing's sector.
  const InterestPoints: int := 8
  /// Points when the location matches or the user has no preference.
  const LocationPoints: int := 5
  /// Penalty subtracted when the location does not match.
  const LocationPenalty: int := 3
  /// How many reasons a recommendation shows.
  const ShownReasons: nat := 2
  /// How many recommendations are returned.
  const TopCount: nat := 3
  /// The location value that matches every listing.
  const NoPreference: string := "No Preference"
  /// The reason text of the location rule.
  const LocationReason: string := "Matches your location preference"

  /// Python's slice `s[:n]`: the first `n` elements, or all of `s` when it is shorter.
  function Take<T>(s: seq<T>, n: nat): (r: seq<T>)
    ensures |r| == if |s| <= n then |s| else n
    ensures r <= s
  {
    if |s| <= n then s else s[..n]
  }
}
