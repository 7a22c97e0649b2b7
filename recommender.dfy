/// The recommender: score every listing of the catalog, keep those with a
/// positive score, rank them highest first and return the top three.
module Recommender {
  import opened Profiles
  import opened Scoring
  import opened Ranking

  /// The admission test of `get_recommendations`, as written: a positive
  /// score and at least one reason. It admits exactly the listings of
  /// positive score.
  predicate Keep(user: UserData, internship: Internship)
    ensures Keep(user, internship) <==> Score(user, internship) > 0
  {
    PositiveScoreIffReason(user, internship);
    Score(user, internship) > 0 && |Reasons(user, internship)| > 0
  }

  /// The entry recorded for an admitted listing, its reasons cut to two.
  function Recommend(user: UserData, internship: Internship): (r: Recommendation)
    ensures r.internship == internship && r.score == Score(user, internship)
    ensures r.reasons <= Reasons(user, internship)
    ensures |r.reasons| == if |Reasons(user, internship)| <= ShownReasons then |Reasons(user, internship)| else ShownReasons
  {
    Recommendation(internship, Score(user, internship), Take(Reasons(user, internship), ShownReasons))
  }

  /// The list built before sorting: one entry per admitted listing, in
  /// catalog order.
  function Qualifying(user: UserData, catalog: seq<Internship>): (q: seq<Recommendation>)
    ensures |q| <= |catalog|
  {
    if catalog == [] then []
    else
      var last := catalog[|catalog| - 1];
      Qualifying(user, catalog[..|catalog| - 1]) + (if Keep(user, last) then [Recommend(user, last)] else [])
  }

  /// What every entry of the unsorted list satisfies: it comes from the
  /// catalog, carries that listing's score, which is positive, and shows one
  /// or two reasons that begin the listing's full reason list: all of them
  /// when there are at most two, else the first two.
  ghost predicate WellFormed(user: UserData, catalog: seq<Internship>, r: Recommendation) {
    r.internship in catalog
    && r == Recommend(user, r.internship)
    && r.score == Score(user, r.internship) && r.score > 0
    && 1 <= |r.reasons| <= ShownReasons
    && r.reasons <= Reasons(user, r.internship)
  }

  lemma {:induction false} QualifyingWellFormed(user: UserData, catalog: seq<Internship>)
    ensures forall r :: r in Qualifying(user, catalog) ==> WellFormed(user, catalog, r)
  {
    if catalog != [] {
      var init := catalog[..|catalog| - 1];
      QualifyingWellFormed(user, init);
      assert forall it :: it in init ==> it in catalog;
      PositiveScoreIffReason(user, catalog[|catalog| - 1]);
    }
  }

  /// A listing of the catalog is recommended (before the cut to three)
  /// exactly when its score is positive.
  lemma {:induction false} QualifyingComplete(user: UserData, catalog: seq<Internship>, internship: Internship)
    requires internship in catalog
    ensures Recommend(user, internship) in Qualifying(user, catalog) <==> Score(user, internship) > 0
  {
    var init, last := catalog[..|catalog| - 1], catalog[|catalog| - 1];
    PositiveScoreIffReason(user, internship);
    QualifyingWellFormed(user, catalog);
    if internship in init {
      QualifyingComplete(user, init, internship);
    } else {
      assert catalog == init + [last];
    }
  }

  /// The entries of a prefix with a given score are a prefix of those of the whole.
  lemma TakeTies(s: seq<Recommendation>, n: nat, v: int)
    ensures WithScore(Take(s, n), v) <= WithScore(s, v)
  {
    if n < |s| {
      assert s == s[..n] + s[n..];
      WithScoreAppend(s[..n], s[n..], v);
    }
  }

  /// Whatever sorted stable reordering of the unsorted list the sort
  /// produces, it is the functional sort, and its first three entries keep
  /// the order of ties and are well formed.
  lemma RankedTop(user: UserData, catalog: seq<Internship>, q: seq<Recommendation>, sorted: seq<Recommendation>)
    requires q == Qualifying(user, catalog)
    requires SortedDesc(sorted) && SameTies(q, sorted)
    ensures sorted == SortDesc(q)
    ensures SortedDesc(Take(sorted, TopCount))
    ensures forall v :: WithScore(Take(sorted, TopCount), v) <= WithScore(q, v)
    ensures forall r :: r in Take(sorted, TopCount) ==> WellFormed(user, catalog, r)
    ensures forall r, t :: r in q && r !in Take(sorted, TopCount) && t in Take(sorted, TopCount) ==> t.score >= r.score
  {
    SameTiesSameElements(q, sorted);
    TopOutranks(sorted, TopCount);
    SortDescFacts(q);
    forall v ensures WithScore(sorted, v) == WithScore(SortDesc(q), v) {
      assert WithScore(q, v) == WithScore(sorted, v);
    }
    SortedTiesUnique(sorted, SortDesc(q));
    forall v ensures WithScore(Take(sorted, TopCount), v) <= WithScore(q, v) {
      TakeTies(sorted, TopCount, v);
      assert WithScore(q, v) == WithScore(sorted, v);
    }
    QualifyingWellFormed(user, catalog);
  }

  /// In a sorted list, an entry outside the first `n` scores no higher than
  /// any entry inside them.
  lemma TopOutranks(sorted: seq<Recommendation>, n: nat)
    requires SortedDesc(sorted)
    ensures forall r, t :: r in sorted && r !in Take(sorted, n) && t in Take(sorted, n) ==> t.score >= r.score
  {
    forall r, t | r in sorted && r !in Take(sorted, n) && t in Take(sorted, n)
      ensures t.score >= r.score
    {
      var i :| 0 <= i < |sorted| && sorted[i] == r;
      var j :| 0 <= j < |Take(sorted, n)| && Take(sorted, n)[j] == t;
      assert j < i;
    }
  }

  /// The recommendations for `user` from `internships`: the loop of `get_recommendations`
  /// over the catalog with a running list, then the in-place sort, then the
  /// cut to the first three.
  method GetRecommendations(user: UserData, internships: seq<Internship>) returns (top: seq<Recommendation>)
    ensures top == Take(SortDesc(Qualifying(user, internships)), TopCount)
    ensures |top| == if |Qualifying(user, internships)| <= TopCount then |Qualifying(user, internships)| else TopCount
    ensures SortedDesc(top)
    ensures forall v :: WithScore(top, v) <= WithScore(Qualifying(user, internships), v)
    ensures forall r :: r in top ==> WellFormed(user, internships, r)
    ensures forall r, t :: r in Qualifying(user, internships) && r !in top && t in top ==> t.score >= r.score
    ensures internships == [] ==> top == []
  {
    var recommended: seq<Recommendation> := [];
    for i := 0 to |internships|
      invariant recommended == Qualifying(user, internships[..i])
    {
      var internship := internships[i];
      var score, reasons := Evaluate(user, internship);
      if score > 0 && |reasons| > 0 {
        recommended := recommended + [Recommendation(internship, score, Take(reasons, ShownReasons))];
      }
      assert internships[..i + 1][..i] == internships[..i];
    }
    assert internships[..|internships|] == internships;

    var a := new Recommendation[|recommended|](k requires 0 <= k < |recommended| => recommended[k]);
    assert a[..] == recommended;
    SortByScore(a);
    RankedTop(user, internships, recommended, a[..]);
    top := Take(a[..], TopCount);
  }
}
