/** The ranker: match entries sorted by count, highest first, and by disease
    name, ascending, among equal counts. */
module Ranker {
  import opened Ordering
  import opened Matcher

  /** a comes no later than b: the sort key (-count, name) of a is at most that of b. */
  predicate RankLe(a: Match, b: Match) {
    a.count > b.count || (a.count == b.count && StrLe(a.disease, b.disease))
  }

  /** The key determines the entry, so the ranking order is total and antisymmetric:
      there are no ties left for the sort's stability to settle. */
  lemma RankLeIsTotalOrder()
    ensures TotalOrder(RankLe)
  {
    StrLeIsTotalOrder();
    forall x: Match, y: Match | RankLe(x, y) && RankLe(y, x) ensures x == y {
      StrLeAntisymmetric(x.disease, y.disease);
    }
  }

  /** The prioritised list: a permutation of the matches, counts non-increasing, and
      names ascending within one count. */
  function Rank(matches: seq<Match>): (r: seq<Match>)
    ensures multiset(r) == multiset(matches)
    ensures forall i, j :: 0 <= i < j < |r| ==> r[i].count >= r[j].count
    ensures forall i, j :: 0 <= i < j < |r| && r[i].count == r[j].count ==>
      StrLe(r[i].disease, r[j].disease)
  {
    RankLeIsTotalOrder();
    Sort(matches, RankLe)
  }

  /** Any arrangement of the matches with those three properties is the ranking itself,
      so the output does not depend on the order the matches came in. */
  lemma RankUnique(matches: seq<Match>, r: seq<Match>)
    requires multiset(r) == multiset(matches)
    requires forall i, j :: 0 <= i < j < |r| ==> r[i].count >= r[j].count
    requires forall i, j :: 0 <= i < j < |r| && r[i].count == r[j].count ==>
      StrLe(r[i].disease, r[j].disease)
    ensures r == Rank(matches)
  {
    RankLeIsTotalOrder();
    assert SortedBy(r, RankLe);
    assert SortedBy(Rank(matches), RankLe);
    SortedUnique(r, Rank(matches), RankLe);
  }

  /** Ranking the same matches listed in another order gives the same list. */
  lemma RankIgnoresInputOrder(a: seq<Match>, b: seq<Match>)
    requires multiset(a) == multiset(b)
    ensures Rank(a) == Rank(b)
  {
    RankLeIsTotalOrder();
    SortIgnoresInputOrder(a, b, RankLe);
  }
}
