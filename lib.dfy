/** The crate's two functions: min_distance, the table-filling algorithm, and
    edit_distance, which hands it either the bytes or the chars of two strings. */
module Levenshtein {
  import opened Distance
  import Utf8

  const U32_LIMIT: nat := 0x1_0000_0000

  /** The table min_distance allocates, (m+1)x(n+1) and all zero, with row 0
      and column 0 then set to the distance from or to the empty prefix. */
  method NewTable(m: nat, n: nat) returns (dp: array2<nat>)
    ensures fresh(dp) && dp.Length0 == m + 1 && dp.Length1 == n + 1
    ensures forall k, l :: 0 <= k <= m && 0 <= l <= n ==>
      dp[k, l] == if l == 0 then k else if k == 0 then l else 0
  {
    dp := new nat[m + 1, n + 1]((_, _) => 0);
    for i := 1 to m + 1
      invariant forall k, l :: 0 <= k <= m && 0 <= l <= n ==> dp[k, l] == if l == 0 && k < i then k else 0
    {
      dp[i, 0] := i;
    }
    for j := 1 to n + 1
      invariant forall k, l :: 0 <= k <= m && 0 <= l <= n ==>
        dp[k, l] == if l == 0 then k else if k == 0 && l < j then l else 0
    {
      dp[0, j] := j;
    }
  }

  /** The inner loop of min_distance: fills row i left to right from row i - 1
      and the cell to the left, which already hold the distances of their
      prefixes. A match copies the diagonal cell; a mismatch is one more than
      the cheapest of insertion (left), deletion (up) and substitution (diagonal).
      No other row changes. */
  method FillRow<T(==)>(dp: array2<nat>, a: seq<T>, b: seq<T>, i: nat)
    requires dp.Length0 == |a| + 1 && dp.Length1 == |b| + 1 && 1 <= i <= |a|
    requires forall l :: 0 <= l <= |b| ==> dp[i - 1, l] == Lev(a[..i - 1], b[..l])
    requires dp[i, 0] == i
    modifies dp
    ensures forall l :: 0 <= l <= |b| ==> dp[i, l] == Lev(a[..i], b[..l])
    ensures forall k, l :: 0 <= k <= |a| && 0 <= l <= |b| && k != i ==> dp[k, l] == old(dp[k, l])
  {
    var n := |b|;
    for j := 1 to n + 1
      invariant forall l :: 0 <= l < j ==> dp[i, l] == Lev(a[..i], b[..l])
      invariant forall l :: j <= l <= n ==> dp[i, l] == old(dp[i, l])
      invariant forall k, l :: 0 <= k <= |a| && 0 <= l <= n && k != i ==> dp[k, l] == old(dp[k, l])
    {
      LevCell(a, b, i, j);
      assert dp[i - 1, j] == old(dp[i - 1, j]) == Lev(a[..i - 1], b[..j]);
      assert dp[i - 1, j - 1] == old(dp[i - 1, j - 1]) == Lev(a[..i - 1], b[..j - 1]);
      assert dp[i, j - 1] == Lev(a[..i], b[..j - 1]);
      if a[i - 1] == b[j - 1] {
        dp[i, j] := dp[i - 1, j - 1];
      } else {
        var insert := dp[i, j - 1];
        var delete := dp[i - 1, j];
        var replace := dp[i - 1, j - 1];
        dp[i, j] := 1 + Min3(insert, delete, replace);
      }
      assert dp[i, j] == Lev(a[..i], b[..j]);
    }
  }

  /** min_distance: returns at once when either side is empty, otherwise fills
      the (m+1)x(n+1) table dp in place, row by row, so that dp[i, j] is the
      distance between a[..i] and b[..j], and reads the bottom-right cell.
      The result never exceeds the longer length, so it fits a u32 whenever
      both lengths do. */
  method MinDistance<T(==)>(a: seq<T>, b: seq<T>) returns (d: nat)
    ensures d == Lev(a, b)
    ensures d <= Max(|a|, |b|)
    ensures |a| < U32_LIMIT && |b| < U32_LIMIT ==> d < U32_LIMIT
  {
    LevBounds(a, b);
    if |a| == 0 {
      return |b|;
    }
    if |b| == 0 {
      return |a|;
    }
    var m, n := |a|, |b|;
    var dp := NewTable(m, n);

    for i := 1 to m + 1
      invariant forall k, l :: 0 <= k < i && 0 <= l <= n ==> dp[k, l] == Lev(a[..k], b[..l])
      invariant forall k :: i <= k <= m ==> dp[k, 0] == k
      invariant forall k, l :: i <= k <= m && 1 <= l <= n ==> dp[k, l] == 0
    {
      FillRow(dp, a, b, i);
    }
    assert a[..m] == a && b[..n] == b;
    return dp[m, n];
  }

  /** The distance edit_distance reports: between the UTF-8 bytes of the two
      strings when ascii is set, between their chars otherwise. */
  ghost function Reported(a: string, b: string, ascii: bool): nat
  {
    if ascii then Lev(Utf8.Encode(a), Utf8.Encode(b)) else Lev(a, b)
  }

  /** edit_distance: byte mode compares as_bytes(), char mode compares chars().
      On ASCII text the two modes agree. */
  method EditDistance(a: string, b: string, ascii: bool) returns (d: nat)
    ensures d == Reported(a, b, ascii)
    ensures Utf8.IsAscii(a) && Utf8.IsAscii(b) ==> d == Lev(a, b)
    ensures ascii ==> d <= Max(|Utf8.Encode(a)|, |Utf8.Encode(b)|)
    ensures !ascii ==> d <= Max(|a|, |b|)
  {
    if ascii {
      d := MinDistance(Utf8.Encode(a), Utf8.Encode(b));
      if Utf8.IsAscii(a) && Utf8.IsAscii(b) {
        ModesAgreeOnAscii(a, b);
      }
    } else {
      d := MinDistance(a, b);
    }
  }

  /** When both strings are ASCII, byte mode and char mode give the same distance:
      the byte sequences equal the char sequences element by element. */
  lemma ModesAgreeOnAscii(a: string, b: string)
    requires Utf8.IsAscii(a) && Utf8.IsAscii(b)
    ensures Reported(a, b, true) == Reported(a, b, false)
  {
    Utf8.EncodeAscii(a);
    Utf8.EncodeAscii(b);
    LevSameEqualities(Utf8.Encode(a), Utf8.Encode(b), a, b);
  }

  /** In either mode the reported distance is zero exactly when the strings are
      equal; in byte mode because distinct strings have distinct encodings. */
  lemma ReportedZeroIffEqual(a: string, b: string, ascii: bool)
    ensures Reported(a, b, ascii) == 0 <==> a == b
  {
    if ascii {
      LevZeroIffEqual(Utf8.Encode(a), Utf8.Encode(b));
      Utf8.DecodeEncode(a);
      Utf8.DecodeEncode(b);
    } else {
      LevZeroIffEqual(a, b);
    }
  }

  /** Swapping the two strings does not change the reported distance. */
  lemma ReportedSymmetric(a: string, b: string, ascii: bool)
    ensures Reported(a, b, ascii) == Reported(b, a, ascii)
  {
    LevSymmetric(Utf8.Encode(a), Utf8.Encode(b));
    LevSymmetric(a, b);
  }

  /** With one string empty the distance is the other's length, in bytes or in chars. */
  lemma ReportedFromEmpty(b: string, ascii: bool)
    ensures Reported("", b, ascii) == if ascii then |Utf8.Encode(b)| else |b|
    ensures Reported(b, "", ascii) == if ascii then |Utf8.Encode(b)| else |b|
  {
  }
}
