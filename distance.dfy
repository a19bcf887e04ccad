/** The Levenshtein distance as a mathematical function, and the facts about it
    that the dynamic-programming table of min_distance relies on. */
module Distance {

  function Max(x: nat, y: nat): nat { if x < y then y else x }

  /** The smallest of three costs; min_distance writes it `insert.min(delete).min(replace)`. */
  function Min3(x: nat, y: nat, z: nat): (r: nat)
    ensures r <= x && r <= y && r <= z
    ensures r == x || r == y || r == z
  {
    if x <= y && x <= z then x else if y <= z then y else z
  }

  /** All elements but the last. */
  function Init<T>(s: seq<T>): seq<T>
    requires |s| > 0
  {
    s[..|s| - 1]
  }

  function Last<T>(s: seq<T>): T
    requires |s| > 0
  {
    s[|s| - 1]
  }

  /** The textbook recurrence for the edit distance, over the last elements:
      delete the last element of a, insert the last element of b, or align
      the two last elements (free when they are equal, a substitution otherwise). */
  ghost function Lev<T>(a: seq<T>, b: seq<T>): nat
    decreases |a| + |b|
  {
    if |a| == 0 then |b|
    else if |b| == 0 then |a|
    else
      Min3(Lev(Init(a), b) + 1,
           Lev(a, Init(b)) + 1,
           Lev(Init(a), Init(b)) + (if Last(a) == Last(b) then 0 else 1))
  }

  /** The distance lies between the difference of the lengths and the longer length. */
  lemma {:induction false} LevBounds<T>(a: seq<T>, b: seq<T>)
    ensures Lev(a, b) <= Max(|a|, |b|)
    ensures |a| <= Lev(a, b) + |b| && |b| <= Lev(a, b) + |a|
    decreases |a| + |b|
  {
    if |a| > 0 && |b| > 0 {
      LevBounds(Init(a), b);
      LevBounds(a, Init(b));
      LevBounds(Init(a), Init(b));
    }
  }

  /** Dropping the last element of one side costs at most one edit. */
  lemma LevInitLeft<T>(a: seq<T>, b: seq<T>)
    requires |a| > 0
    ensures Lev(a, b) <= Lev(Init(a), b) + 1
  {
  }

  /** Lev is symmetric: edits from a to b reversed are edits from b to a. */
  lemma {:induction false} LevSymmetric<T>(a: seq<T>, b: seq<T>)
    ensures Lev(a, b) == Lev(b, a)
    decreases |a| + |b|
  {
    if |a| > 0 && |b| > 0 {
      LevSymmetric(Init(a), b);
      LevSymmetric(a, Init(b));
      LevSymmetric(Init(a), Init(b));
    }
  }

  /** Shortening b by its last element lowers the distance by at most one. */
  lemma {:induction false} LevShortenRight<T>(a: seq<T>, b: seq<T>)
    requires |b| > 0
    ensures Lev(a, Init(b)) <= Lev(a, b) + 1
    decreases |a|
  {
    LevBounds(a, b);
    if |a| > 0 && |b| > 1 {
      LevShortenRight(Init(a), b);
      assert Lev(a, Init(b)) <= Lev(Init(a), Init(b)) + 1;
    }
  }

  /** Shortening a by its last element lowers the distance by at most one. */
  lemma {:induction false} LevShortenLeft<T>(a: seq<T>, b: seq<T>)
    requires |a| > 0
    ensures Lev(Init(a), b) <= Lev(a, b) + 1
  {
    LevSymmetric(Init(a), b);
    LevShortenRight(b, a);
    LevSymmetric(a, b);
  }

  /** Equal last elements can always be matched: this justifies the diagonal
      copy that min_distance does on a match without looking at its neighbours. */
  lemma LevMatchLast<T>(a: seq<T>, b: seq<T>)
    requires |a| > 0 && |b| > 0 && Last(a) == Last(b)
    ensures Lev(a, b) == Lev(Init(a), Init(b))
  {
    LevShortenRight(Init(a), b);
    LevShortenLeft(a, Init(b));
  }

  /** One cell of the table in terms of its three neighbours, exactly as
      min_distance fills it; prefixes a[..i] and b[..j] stand for row i and column j. */
  lemma LevCell<T>(a: seq<T>, b: seq<T>, i: nat, j: nat)
    requires 1 <= i <= |a| && 1 <= j <= |b|
    ensures Lev(a[..i], b[..j]) ==
      if a[i - 1] == b[j - 1] then Lev(a[..i - 1], b[..j - 1])
      else 1 + Min3(Lev(a[..i], b[..j - 1]), Lev(a[..i - 1], b[..j]), Lev(a[..i - 1], b[..j - 1]))
  {
    var x, y := a[..i], b[..j];
    assert Init(x) == a[..i - 1] && Init(y) == b[..j - 1];
    if a[i - 1] == b[j - 1] {
      LevMatchLast(x, y);
    }
  }

  /** The distance is zero exactly when the two sequences are equal. */
  lemma {:induction false} LevZeroIffEqual<T>(a: seq<T>, b: seq<T>)
    ensures Lev(a, b) == 0 <==> a == b
    decreases |a|
  {
    if |a| > 0 && |b| > 0 {
      LevZeroIffEqual(Init(a), Init(b));
      assert a == Init(a) + [Last(a)] && b == Init(b) + [Last(b)];
      if a == b {
        LevMatchLast(a, b);
      }
    }
  }

  /** A common suffix does not change the distance. */
  lemma {:induction false} LevCommonSuffix<T>(x: seq<T>, y: seq<T>, s: seq<T>)
    ensures Lev(x + s, y + s) == Lev(x, y)
    decreases |s|
  {
    if |s| > 0 {
      var xs, ys := x + s, y + s;
      assert Init(xs) == x + Init(s) && Init(ys) == y + Init(s);
      LevMatchLast(xs, ys);
      LevCommonSuffix(x, y, Init(s));
    } else {
      assert x + s == x && y + s == y;
    }
  }

  /** Appending s to a sequence puts it exactly |s| edits away. */
  lemma {:induction false} LevAppend<T>(x: seq<T>, s: seq<T>)
    ensures Lev(x + s, x) == |s|
    decreases |s|
  {
    if |s| > 0 {
      var xs := x + s;
      assert Init(xs) == x + Init(s);
      LevAppend(x, Init(s));
      LevInitLeft(xs, x);
      LevBounds(xs, x);
    } else {
      assert x + s == x;
      LevZeroIffEqual(x, x);
    }
  }

  /** Inserting the block s anywhere in a sequence puts it exactly |s| edits away. */
  lemma LevInsertBlock<T>(p: seq<T>, s: seq<T>, q: seq<T>)
    ensures Lev(p + s + q, p + q) == |s|
  {
    LevCommonSuffix(p + s, p, q);
    LevAppend(p, s);
  }

  /** Adding one element to X adds at most one element to X - Y. */
  lemma DifferenceGrowsByOne<T>(X: multiset<T>, Y: multiset<T>, x: T)
    ensures |(X + multiset{x}) - Y| <= |X - Y| + 1
  {
    if X[x] >= Y[x] {
      assert (X + multiset{x}) - Y == (X - Y) + multiset{x};
    } else {
      assert (X + multiset{x}) - Y == X - Y;
    }
  }

  /** Adding one element to Y never enlarges X - Y. */
  lemma DifferenceShrinks<T>(X: multiset<T>, Y: multiset<T>, y: T)
    ensures |X - (Y + multiset{y})| <= |X - Y|
  {
    if X[y] > Y[y] {
      assert X - Y == (X - (Y + multiset{y})) + multiset{y};
    } else {
      assert X - Y == X - (Y + multiset{y});
    }
  }

  /** How the unmatched elements of a change when either side loses its last
      element, mirroring the three branches of Lev. */
  lemma UnmatchedSteps<T>(a: seq<T>, b: seq<T>)
    requires |a| > 0 && |b| > 0
    ensures |multiset(a) - multiset(b)| <= |multiset(Init(a)) - multiset(b)| + 1
    ensures |multiset(a) - multiset(b)| <= |multiset(a) - multiset(Init(b))|
    ensures |multiset(a) - multiset(b)| <=
      |multiset(Init(a)) - multiset(Init(b))| + (if Last(a) == Last(b) then 0 else 1)
  {
    var x, y := Last(a), Last(b);
    var A, B := multiset(Init(a)), multiset(Init(b));
    assert multiset(a) == A + multiset{x} by { assert a == Init(a) + [x]; }
    assert multiset(b) == B + multiset{y} by { assert b == Init(b) + [y]; }
    DifferenceGrowsByOne(A, multiset(b), x);
    DifferenceShrinks(multiset(a), B, y);
    if x == y {
      assert (A + multiset{x}) - (B + multiset{x}) == A - B;
    } else {
      DifferenceShrinks(A, B, y);
    }
  }

  /** Every element of a (counted with multiplicity) that b lacks must be
      deleted or substituted, so it costs at least one edit. */
  lemma {:induction false} LevAtLeastUnmatched<T>(a: seq<T>, b: seq<T>)
    ensures |multiset(a) - multiset(b)| <= Lev(a, b)
    decreases |a| + |b|
  {
    if |a| == 0 {
      assert multiset(a) - multiset(b) == multiset{};
    } else if |b| == 0 {
      assert multiset(a) - multiset(b) == multiset(a);
    } else {
      UnmatchedSteps(a, b);
      LevAtLeastUnmatched(Init(a), b);
      LevAtLeastUnmatched(a, Init(b));
      LevAtLeastUnmatched(Init(a), Init(b));
    }
  }

  /** Lev looks at its arguments only through which elements are equal, so
      renaming the elements injectively leaves it unchanged. */
  lemma {:induction false} LevSameEqualities<T, U>(a: seq<T>, b: seq<T>, x: seq<U>, y: seq<U>)
    requires |a| == |x| && |b| == |y|
    requires forall i, j :: 0 <= i < |a| && 0 <= j < |b| ==> (a[i] == b[j] <==> x[i] == y[j])
    ensures Lev(a, b) == Lev(x, y)
    decreases |a| + |b|
  {
    if |a| > 0 && |b| > 0 {
      LevSameEqualities(Init(a), b, Init(x), y);
      LevSameEqualities(a, Init(b), x, Init(y));
      LevSameEqualities(Init(a), Init(b), Init(x), Init(y));
    }
  }
}
