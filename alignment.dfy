/** What Lev means: the least number of insertions, deletions and
    substitutions over all ways of aligning one sequence against the other. */
module Alignment {
  import opened Distance

  /** One column of an alignment, read from the right: both last elements
      kept (they must be equal), the last of a replaced by the last of b,
      the last of b inserted, or the last of a deleted. */
  datatype Op = Keep | Substitute | Insert | Delete

  /** Number of edits in an alignment: every column but Keep costs one. */
  function Cost(s: seq<Op>): nat
  {
    if |s| == 0 then 0 else Cost(Init(s)) + (if Last(s) == Keep then 0 else 1)
  }

  /** s turns a into b, column by column from the right. */
  ghost predicate Aligns<T>(s: seq<Op>, a: seq<T>, b: seq<T>)
    decreases |s|
  {
    if |s| == 0 then |a| == 0 && |b| == 0
    else match Last(s)
      case Keep => |a| > 0 && |b| > 0 && Last(a) == Last(b) && Aligns(Init(s), Init(a), Init(b))
      case Substitute => |a| > 0 && |b| > 0 && Aligns(Init(s), Init(a), Init(b))
      case Insert => |b| > 0 && Aligns(Init(s), a, Init(b))
      case Delete => |a| > 0 && Aligns(Init(s), Init(a), b)
  }

  lemma CostSnoc(s: seq<Op>, op: Op)
    ensures Init(s + [op]) == s && Last(s + [op]) == op
    ensures Cost(s + [op]) == Cost(s) + (if op == Keep then 0 else 1)
  {
    assert Init(s + [op]) == s;
  }

  /** No alignment of a against b costs less than Lev(a, b). */
  lemma {:induction false} LevIsLowerBound<T>(s: seq<Op>, a: seq<T>, b: seq<T>)
    requires Aligns(s, a, b)
    ensures Lev(a, b) <= Cost(s)
    decreases |s|
  {
    if |s| > 0 {
      match Last(s)
      case Keep => LevIsLowerBound(Init(s), Init(a), Init(b));
      case Substitute => LevIsLowerBound(Init(s), Init(a), Init(b));
      case Insert =>
        LevIsLowerBound(Init(s), a, Init(b));
        if |a| > 0 {
          assert Lev(a, b) <= Lev(a, Init(b)) + 1;
        }
      case Delete =>
        LevIsLowerBound(Init(s), Init(a), b);
        LevInitLeft(a, b);
    }
  }

  /** An alignment of a against b that costs exactly Lev(a, b), following
      the branch of the recurrence that attains the minimum. */
  ghost function OptimalAlignment<T>(a: seq<T>, b: seq<T>): (s: seq<Op>)
    ensures Aligns(s, a, b) && Cost(s) == Lev(a, b)
    decreases |a| + |b|
  {
    if |a| == 0 && |b| == 0 then []
    else if |a| == 0 then
      var s := OptimalAlignment(a, Init(b)) + [Insert];
      CostSnoc(OptimalAlignment(a, Init(b)), Insert);
      s
    else if |b| == 0 then
      var s := OptimalAlignment(Init(a), b) + [Delete];
      CostSnoc(OptimalAlignment(Init(a), b), Delete);
      s
    else if Last(a) == Last(b) && Lev(a, b) == Lev(Init(a), Init(b)) then
      var s := OptimalAlignment(Init(a), Init(b)) + [Keep];
      CostSnoc(OptimalAlignment(Init(a), Init(b)), Keep);
      s
    else if Lev(a, b) == Lev(Init(a), Init(b)) + 1 then
      var s := OptimalAlignment(Init(a), Init(b)) + [Substitute];
      CostSnoc(OptimalAlignment(Init(a), Init(b)), Substitute);
      s
    else if Lev(a, b) == Lev(Init(a), b) + 1 then
      var s := OptimalAlignment(Init(a), b) + [Delete];
      CostSnoc(OptimalAlignment(Init(a), b), Delete);
      s
    else
      var s := OptimalAlignment(a, Init(b)) + [Insert];
      CostSnoc(OptimalAlignment(a, Init(b)), Insert);
      s
  }

  /** Lev(a, b) is the minimum edit count: it is attained by some alignment
      and no alignment does better. */
  lemma LevIsMinimumCost<T>(a: seq<T>, b: seq<T>)
    ensures exists s :: Aligns(s, a, b) && Cost(s) == Lev(a, b)
    ensures forall s :: Aligns(s, a, b) ==> Lev(a, b) <= Cost(s)
  {
    var opt := OptimalAlignment(a, b);
    assert Aligns(opt, a, b) && Cost(opt) == Lev(a, b);
    forall s | Aligns(s, a, b) ensures Lev(a, b) <= Cost(s) {
      LevIsLowerBound(s, a, b);
    }
  }
}
