# GuideNext internship recommender — Dafny model

GuideNext matches a student's profile against a catalog of internship
listings and shows a short ranked list with reasons. The profile is a list
of skills, one sector of interest and a location. The only real logic is
`get_recommendations` in `app.py`. This project models it and proves what
it returns.

For each listing the recommender adds up a score from three rules:

- +10 for each entry of the user's skill list that the listing requires;
- +8 when the interest equals the listing's sector;
- +5 when the location matches or is `No Preference`, and −3 otherwise.

Each rule that fires also adds a reason. A listing is kept when its score is
positive and it has a reason, and its reasons are cut to the first two. The
kept entries are sorted by score, highest first, with a stable sort. The
first three are returned.

Modules, one per concern of that function:

- `profiles.dfy` (`Profiles`): the listing, the user's input, the result
  entry, the weights, and Python's slice `s[:n]` (`Take`).
- `scoring.dfy` (`Scoring`): the rules as specification functions (`Score`,
  `Reasons`), the source's per-listing loop as the method `Evaluate`, and
  lemmas about the score.
- `ranking.dfy` (`Ranking`): the stable descending sort. It is done in place
  on an array by insertion (`SortByScore`). Its functional counterpart is
  `SortDesc`. Stability is stated with `SameTies`: for every score value,
  the entries with that score keep their order. A sorted sequence with the
  same ties as the input is unique (`SortedTiesUnique`). So the array sort,
  the functional sort and Python's `list.sort(reverse=True)` all give the
  same result.
- `recommender.dfy` (`Recommender`): the loop over the catalog, as the
  method `GetRecommendations` and the function `Qualifying`, plus lemmas
  about the returned list.

The weights, the `> 0` threshold, the two reasons and the top three are
taken from the code. No other weighting is modelled.
The user's skills are a list, as `request.form.getlist` delivers them, so a
skill given twice counts twice. A set would not capture this.

## Model

| member | source | states |
|---|---|---|
| `Scoring.Evaluate` | app.py:16-35 | the running score and reason list built by the skill loop and the two later rules equal `Score` and `Reasons` of the listing |
| `Scoring.ScoreByRules` | app.py:16-35 | the score is 10 times the number of positions in the user's skill list whose entry the listing requires, plus 8 if interest equals sector, plus 5 if the location is equal or `No Preference`, else −3 |
| `Scoring.MatchesCountPositions` | app.py:20-22 | the matched skills are one per matching position of the user's list, so repeated entries count each time |
| `Scoring.SkillMatches` | app.py:20-22 | the entries of the user's skill list that the listing requires, in list order with repeats; never more than the list has |
| `Scoring.Score` | app.py:16-35 | the sum of the three rule contributions; at least 5 when the location rule fires and never below −3 |
| `Scoring.Reasons` | app.py:17-33 | the reasons collected in rule order; one per matched skill plus one per fired interest or location rule |
| `Scoring.SkillMatchesSound` | app.py:20-21 | every matched skill is both an entry of the user's list and one of the listing's required skills |
| `Scoring.SkillMatchesAppend` | app.py:20-23 | matching a longer skill list matches the first part, then the added entries, in list order |
| `Scoring.SkillReasons` | app.py:23 | one reason `Your skill: <s>` per matched skill, in the same order |
| `Scoring.ReasonsInRuleOrder` | app.py:17-33 | the reasons are the skill reasons in the user's order, then `Your interest: <sector>` if it fired, then the location reason if it fired |
| `Scoring.PositiveScoreIffReason` | app.py:31-38 | the score is positive exactly when at least one reason exists, so the `and reasons` test never excludes anything |
| `Scoring.ScoreRange` | app.py:30-35 | a score is either −3 (no rule fired) or at least 5 |
| `Scoring.ScoreAddSkill` | app.py:20-22 | adding one entry to the skill list raises the score by exactly 10 when the listing requires it, and leaves it unchanged otherwise |
| `Scoring.ScoreMonotoneInMatches` | app.py:20-22 | with interest and location fixed, two scores differ by 10 times the difference in matches, so more matches never lower the score |
| `Profiles.Take` | app.py:49 | a slice `s[:n]` is a prefix of `s` whose length is the smaller of `n` and the length of `s` |
| `Ranking.Insert` | app.py:47 | inserts an entry after every entry of score at least its own; one entry longer and containing it |
| `Ranking.SortDesc` | app.py:47 | the stable descending sort as a function, inserting entries in their original order; same length as its input |
| `Ranking.SortByScore` | app.py:47 | the in-place sort leaves the array sorted by score, non-increasing, and keeps the order of entries with equal score |
| `Ranking.SwapKeepsTies` | app.py:47 | exchanging neighbours of different score keeps every tie group's order |
| `Ranking.WithScoreAppend` | app.py:47 | the tie group of a concatenation is the concatenation of the tie groups |
| `Ranking.InWithScore` | app.py:47 | an entry occurs in a list exactly when it occurs in its own tie group |
| `Ranking.SameTiesSameElements` | app.py:47 | a stable reordering has the same elements as the original |
| `Ranking.InsertSorted` | app.py:47 | inserting into a sorted list after all entries of equal or higher score keeps it sorted and adds one entry |
| `Ranking.InsertPermutes` | app.py:47 | insertion adds exactly the inserted entry to the multiset |
| `Ranking.InsertTies` | app.py:47 | the inserted entry goes after every entry of its own score already present |
| `Ranking.NoneWithScore` | app.py:47 | a sorted list whose first score is below `v` has no entry of score `v` |
| `Ranking.SortDescFacts` | app.py:47 | the functional stable sort is sorted, a permutation of its input, and keeps every tie group's order |
| `Ranking.SortedTiesUnique` | app.py:47 | two sorted lists with the same tie groups are equal, so the stable descending sort is unique |
| `Recommender.Keep` | app.py:38 | the admission test `score > 0 and reasons`, which holds exactly when the score is positive |
| `Recommender.Recommend` | app.py:40-44 | the entry built for a kept listing: the listing, its score, and `reasons[:2]` (a prefix of the reasons of length at most two) |
| `Recommender.Qualifying` | app.py:14-45 | the list built by the catalog loop: one entry per kept listing in catalog order, never longer than the catalog |
| `Recommender.QualifyingWellFormed` | app.py:38-44 | every kept entry's listing is in the catalog, its score is that listing's score and positive, and it is exactly the entry built for that listing, so it shows 1 or 2 reasons: all of them when there are at most two, else the first two |
| `Recommender.QualifyingComplete` | app.py:37-44 | a catalog listing is kept before the cut exactly when its score is positive |
| `Recommender.TopOutranks` | app.py:47-49 | after sorting, an entry outside the first `n` scores no higher than any entry inside them |
| `Recommender.TakeTies` | app.py:49 | the tie groups of a prefix are prefixes of the tie groups of the whole list |
| `Recommender.RankedTop` | app.py:47-49 | any sorted stable reordering of the kept entries is the functional sort. Its first three are sorted, keep tie order and are well formed. No kept entry left out scores higher than one returned |
| `Recommender.GetRecommendations` | app.py:13-49 | the result is the first `min(3, n)` entries of the stable descending sort of the `n` kept entries. It is sorted and keeps catalog order among equal scores. Every entry is well formed, nothing left out outranks it, and an empty catalog gives an empty result |

## Left out

- `load_internships` (app.py:7-10) reads and parses a JSON file. The catalog is an in-memory sequence here.
- The Flask routes `index` and `recommend` (app.py:52-77) and server startup (app.py:79-80) are HTTP and template glue. The route's only logic is building the user record, which becomes `UserData`.
- A missing form field makes `interest` or `location` Python `None`. The model takes strings only. `None` equals no sector or location, and it is not `No Preference`.
- Listing fields other than `required_skills`, `sector` and `location` are display-only. They are collapsed into one opaque `title`.
- `required_skills` is treated as a list, and `in` as list membership. If the catalog held a plain string there, Python would test for a substring instead. That case is not modelled.
- Python sorts with Timsort, not insertion sort. Both are stable, and `SortedTiesUnique` shows that a stable descending sort has only one possible result. So the choice of algorithm does not change the output.
- The kept entries are built in a sequence, as the Python list is built by `append`. They are then copied into an array to be sorted in place. Sharing of the listing objects between the catalog and the result is not modelled.
