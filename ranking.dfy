/// Ordering of recommendations by score, highest first, keeping entries
/// of equal score in their original order (a stable sort).
module Ranking {
  import opened Profiles

  /// The entries of `s` whose score is `v`, in their order in `s`.
  function WithScore(s: seq<Recommendation>, v: int): seq<Recommendation> {
    if s == [] then []
    else (if s[0].score == v then [s[0]] else []) + WithScore(s[1..], v)
  }

  /// Scores are non-increasing between positions `lo` and `hi`.
  ghost predicate SortedBetween(s: seq<Recommendation>, lo: int, hi: int)
    requires 0 <= lo <= hi <= |s|
  {
    forall p, q :: lo <= p < q < hi ==> s[p].score >= s[q].score
  }

  ghost predicate SortedDesc(s: seq<Recommendation>) {
    SortedBetween(s, 0, |s|)
  }

  /// `t` keeps, for every score, the entries of `s` having that score in
  /// the same order: `t` is a stable reordering of `s`.
  ghost predicate SameTies(s: seq<Recommendation>, t: seq<Recommendation>) {
    forall v: int :: WithScore(s, v) == WithScore(t, v)
  }

  lemma {:induction false} WithScoreAppend(a: seq<Recommendation>, b: seq<Recommendation>, v: int)
    ensures WithScore(a + b, v) == WithScore(a, v) + WithScore(b, v)
  {
    if a == [] {
      assert a + b == b;
    } else {
      assert (a + b)[1..] == a[1..] + b;
      WithScoreAppend(a[1..], b, v);
    }
  }

  /// An entry occurs in `s` exactly when it occurs among the entries of its own score.
  lemma {:induction false} InWithScore(s: seq<Recommendation>, x: Recommendation)
    ensures x in s <==> x in WithScore(s, x.score)
  {
    if s != [] {
      InWithScore(s[1..], x);
      assert s == [s[0]] + s[1..];
    }
  }

  /// Stable reorderings have the same elements.
  lemma SameTiesSameElements(s: seq<Recommendation>, t: seq<Recommendation>)
    requires SameTies(s, t)
    ensures forall x :: x in s <==> x in t
  {
    forall x ensures x in s <==> x in t {
      InWithScore(s, x);
      InWithScore(t, x);
    }
  }

  /// Exchanging two neighbours with different scores is a stable reordering.
  lemma SwapKeepsTies(s: seq<Recommendation>, p: int)
    requires 0 <= p < |s| - 1 && s[p].score != s[p + 1].score
    ensures SameTies(s, s[p := s[p + 1]][p + 1 := s[p]])
  {
    var t := s[p := s[p + 1]][p + 1 := s[p]];
    assert s == s[..p] + [s[p], s[p + 1]] + s[p + 2..];
    assert t == s[..p] + [s[p + 1], s[p]] + s[p + 2..];
    forall v ensures WithScore(s, v) == WithScore(t, v) {
      WithScoreAppend(s[..p] + [s[p], s[p + 1]], s[p + 2..], v);
      WithScoreAppend(s[..p], [s[p], s[p + 1]], v);
      WithScoreAppend(s[..p] + [s[p + 1], s[p]], s[p + 2..], v);
      WithScoreAppend(s[..p], [s[p + 1], s[p]], v);
      assert [s[p], s[p + 1]][1..] == [s[p + 1]];
      assert [s[p + 1], s[p]][1..] == [s[p]];
    }
  }

  /// The state of the inner loop of `SortByScore` while entry `i` moves
  /// left: it sits at `j`, the entries before it and the entries from it up
  /// to `i` are each sorted, and its left neighbour is no lower than its
  /// right one.
  ghost predicate Inserting(s: seq<Recommendation>, j: int, i: int)
    requires 0 <= j <= i < |s|
  {
    SortedBetween(s, 0, j) && SortedBetween(s, j, i + 1)
    && (0 < j < i ==> s[j - 1].score >= s[j + 1].score)
  }

  /// One exchange of the inner loop keeps its state, one place further left.
  lemma SwapStep(s: seq<Recommendation>, j: int, i: int)
    requires 0 < j <= i < |s| && Inserting(s, j, i) && s[j - 1].score < s[j].score
    ensures Inserting(s[j - 1 := s[j]][j := s[j - 1]], j - 1, i)
  {
  }

  /// When entry `i` has stopped moving, the first `i + 1` entries are sorted.
  lemma InsertDone(s: seq<Recommendation>, j: int, i: int)
    requires 0 <= j <= i < |s| && Inserting(s, j, i)
    requires j == 0 || s[j - 1].score >= s[j].score
    ensures SortedBetween(s, 0, i + 1)
  {
  }

  /// Sorts in place, highest score first, by insertion: each entry is moved
  /// left past the entries of strictly lower score before it, so that
  /// entries of equal score never pass each other.
  method SortByScore(a: array<Recommendation>)
    modifies a
    ensures SortedDesc(a[..])
    ensures SameTies(old(a[..]), a[..])
  {
    for i := 0 to a.Length
      invariant SortedBetween(a[..], 0, i)
      invariant SameTies(old(a[..]), a[..])
    {
      var j := i;
      while j > 0 && a[j - 1].score < a[j].score
        invariant 0 <= j <= i
        invariant Inserting(a[..], j, i)
        invariant SameTies(old(a[..]), a[..])
      {
        SwapStep(a[..], j, i);
        SwapKeepsTies(a[..], j - 1);
        a[j - 1], a[j] := a[j], a[j - 1];
        j := j - 1;
      }
      InsertDone(a[..], j, i);
    }
  }

  /// Inserts `x` into a sorted sequence after every entry of score at least
  /// its own.
  function Insert(x: Recommendation, s: seq<Recommendation>): (r: seq<Recommendation>)
    ensures |r| == |s| + 1
    ensures x in r
  {
    if s == [] then [x]
    else if s[0].score >= x.score then [s[0]] + Insert(x, s[1..])
    else [x] + s
  }

  /// The stable descending sort as a function: insert the entries one by
  /// one in their original order.
  function SortDesc(s: seq<Recommendation>): (r: seq<Recommendation>)
    ensures |r| == |s|
  {
    if s == [] then [] else Insert(s[|s| - 1], SortDesc(s[..|s| - 1]))
  }

  lemma {:induction false} InsertSorted(x: Recommendation, s: seq<Recommendation>)
    requires SortedDesc(s)
    ensures SortedDesc(Insert(x, s))
    ensures |Insert(x, s)| == |s| + 1
    ensures Insert(x, s)[0] == x || Insert(x, s)[0] == s[0]
  {
    if s != [] && s[0].score >= x.score {
      InsertSorted(x, s[1..]);
    }
  }

  lemma {:induction false} InsertPermutes(x: Recommendation, s: seq<Recommendation>)
    ensures multiset(Insert(x, s)) == multiset(s) + multiset{x}
  {
    if s != [] && s[0].score >= x.score {
      InsertPermutes(x, s[1..]);
      assert s == [s[0]] + s[1..];
    }
  }

  lemma {:induction false} InsertTies(x: Recommendation, s: seq<Recommendation>, v: int)
    requires SortedDesc(s)
    ensures WithScore(Insert(x, s), v) == WithScore(s, v) + WithScore([x], v)
  {
    if s != [] && s[0].score >= x.score {
      InsertTies(x, s[1..], v);
      WithScoreAppend([s[0]], Insert(x, s[1..]), v);
      WithScoreAppend([s[0]], s[1..], v);
      assert s == [s[0]] + s[1..];
    } else if s != [] {
      WithScoreAppend([x], s, v);
      if x.score == v {
        NoneWithScore(s, v);
      }
    }
  }

  /// In a sorted sequence whose first score is below `v`, no entry has score `v`.
  lemma {:induction false} NoneWithScore(s: seq<Recommendation>, v: int)
    requires SortedDesc(s) && s != [] && s[0].score < v
    ensures WithScore(s, v) == []
  {
    if |s| > 1 {
      NoneWithScore(s[1..], v);
    }
  }

  /// The functional sort is sorted, a permutation, and stable.
  lemma {:induction false} SortDescFacts(s: seq<Recommendation>)
    ensures SortedDesc(SortDesc(s))
    ensures multiset(SortDesc(s)) == multiset(s)
    ensures SameTies(s, SortDesc(s))
  {
    if s != [] {
      var init, last := s[..|s| - 1], s[|s| - 1];
      SortDescFacts(init);
      InsertSorted(last, SortDesc(init));
      InsertPermutes(last, SortDesc(init));
      assert s == init + [last];
      forall v ensures WithScore(s, v) == WithScore(SortDesc(s), v) {
        WithScoreAppend(init, [last], v);
        InsertTies(last, SortDesc(init), v);
      }
    }
  }

  /// A non-empty list has at least one entry of its first entry's score.
  lemma HeadHasTies(s: seq<Recommendation>)
    ensures s != [] ==> WithScore(s, s[0].score) != []
  {
  }

  /// A sorted stable reordering is unique: two sorted sequences that keep
  /// the same entries of every score in the same order are equal.
  lemma {:induction false} SortedTiesUnique(s: seq<Recommendation>, t: seq<Recommendation>)
    requires SortedDesc(s) && SortedDesc(t) && SameTies(s, t)
    ensures s == t
  {
    HeadHasTies(s);
    HeadHasTies(t);
    if s != [] && t != [] {
      InWithScore(s, s[0]);
      InWithScore(t, s[0]);
      InWithScore(t, t[0]);
      InWithScore(s, t[0]);
      assert s[0].score == t[0].score;
      assert s[0] == t[0];
      forall v ensures WithScore(s[1..], v) == WithScore(t[1..], v) {
        var head := if s[0].score == v then [s[0]] else [];
        assert WithScore(s, v) == head + WithScore(s[1..], v);
        assert WithScore(t, v) == head + WithScore(t[1..], v);
        assert WithScore(s[1..], v) == WithScore(s, v)[|head|..];
      }
      SortedTiesUnique(s[1..], t[1..]);
      assert s == [s[0]] + s[1..];
      assert t == [t[0]] + t[1..];
    }
  }
}
