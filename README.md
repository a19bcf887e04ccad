# Levenshtein edit distance, modelled and proved in Dafny

This project models the `agnostic-levenshtein` crate. The crate has one public
function, `edit_distance(a, b, ascii)`. It returns the Levenshtein distance
between two strings: the least number of single-element insertions,
deletions and substitutions that turn `a` into `b`. With `ascii = true` it
compares the UTF-8 bytes of the strings (`as_bytes`). With `ascii = false` it
compares their Unicode scalar values (`chars`). Both modes call the generic
`min_distance`. That function returns early when either side is empty.
Otherwise it fills an (m+1)×(n+1) table `dp` with the classic dynamic program
and returns `dp[m][n]`.

Files:

- `distance.dfy` (module `Distance`) defines `Lev`, a ghost function giving
  the textbook recurrence over the last elements of both sequences. It also
  holds the facts the table relies on:
  - the bounds;
  - symmetry;
  - "shortening one side lowers the distance by at most one";
  - `LevMatchLast`. The code copies the diagonal cell on a match without
    comparing it with its neighbours, and this lemma shows why that is
    correct;
  - identity;
  - common suffixes;
  - a lower bound from the unmatched elements;
  - invariance under a renaming of the elements.
- `alignment.dfy` (module `Alignment`) gives a second definition, independent
  of the first. `Lev(a, b)` is the least cost of any column-by-column alignment
  (keep, substitute, insert, delete) of `a` against `b`.
- `utf8.dfy` (module `Utf8`) is an RFC 3629 encoder, standing for the bytes
  that `str::as_bytes` exposes. A Dafny `string` is a sequence of Unicode
  scalar values, which is exactly what `str::chars` yields. The module also has
  a validating decoder, with round-trip lemmas in both directions.
- `lib.dfy` (module `Levenshtein`) is the crate itself:
  - `MinDistance` is the algorithm over a Dafny `array2<nat>`;
  - `NewTable` allocates the table and sets row 0 and column 0;
  - `FillRow` is the inner `for j` loop;
  - `EditDistance` is the byte/char dispatcher.

  `Reported` is the distance `edit_distance` promises in each mode.
- `scenarios.dfy` (module `Scenarios`) states the crate's test cases as
  lemmas about the model.

`MinDistance` is proved against `Lev`. Its loop invariants say that after row
`i` every filled cell `dp[k, l]` equals `Lev(a[..k], b[..l])`. Rows not yet
processed still hold their initial values: `k` in column 0 and 0 elsewhere. The
result equals `Lev(a, b)` in all three branches: both early returns and the
bottom-right cell.

`min_distance` has no fast path for identical inputs. It checks only for an
empty `a`, then for an empty `b` (src/lib.rs:16-21), and the model does the
same. Identical inputs still give 0, as `LevZeroIffEqual` and
`ReportedZeroIffEqual` prove.

## Model

| member | source | states |
|---|---|---|
| `Levenshtein.MinDistance` | src/lib.rs:15-53 | The result is the Levenshtein distance `Lev(a, b)` in all three branches: `a` empty, `b` empty, and the table. It is at most `max(|a|, |b|)`, and below 2^32 whenever both lengths are, so the `as u32` casts lose nothing. |
| `Levenshtein.NewTable` | src/lib.rs:26-34 | A fresh (m+1)×(n+1) table with `dp[i, 0] == i`, `dp[0, j] == j`, and every other cell still 0. |
| `Levenshtein.FillRow` | src/lib.rs:37-48 | Given row i-1 holding the distances of its prefixes and `dp[i, 0] == i`, it leaves every cell of row i equal to `Lev(a[..i], b[..l])` and changes no other row. |
| `Levenshtein.EditDistance` | src/lib.rs:5-13 | Byte mode reports `Lev` of the two UTF-8 encodings. Char mode reports `Lev` of the two scalar-value sequences. On ASCII input the result is the char distance. In each mode it is at most the longer length of the sequences compared, bytes or chars. |
| `Levenshtein.ModesAgreeOnAscii` | src/lib.rs:6-12 | If both strings are ASCII, byte mode and char mode report the same distance. |
| `Levenshtein.ReportedZeroIffEqual` | src/lib.rs:5-13 | In either mode the distance is 0 exactly when the strings are equal. |
| `Levenshtein.ReportedSymmetric` | src/lib.rs:5-13 | Swapping the strings does not change the distance in either mode. |
| `Levenshtein.ReportedFromEmpty` | src/lib.rs:16-21 | Against the empty string the distance is the other string's length: in bytes in byte mode, in chars in char mode. |
| `Distance.Min3` | src/lib.rs:41-46 | `insert.min(delete).min(replace)` is at most each of the three and equal to one of them. |
| `Distance.LevBounds` | src/lib.rs:15-52 | Every distance lies between the difference of the lengths and the larger length. |
| `Distance.LevSymmetric` | src/lib.rs:15-53 | `Lev(a, b) == Lev(b, a)`. |
| `Distance.LevShortenRight` | src/lib.rs:41-46 | Removing the last element of `b` lowers the distance by at most one. |
| `Distance.LevShortenLeft` | src/lib.rs:41-46 | Removing the last element of `a` lowers the distance by at most one. |
| `Distance.LevMatchLast` | src/lib.rs:38-39 | When the last elements are equal, the distance is that of the two shorter prefixes, so copying the diagonal cell is correct. |
| `Distance.LevCell` | src/lib.rs:38-46 | Cell (i, j) is the diagonal cell on a match. On a mismatch it is 1 + the minimum of the left, upper and diagonal cells. |
| `Distance.LevZeroIffEqual` | src/lib.rs:15-53 | `Lev(a, b) == 0` exactly when `a == b`. |
| `Distance.LevCommonSuffix` | src/lib.rs:38-39 | Appending the same suffix to both sides leaves the distance unchanged. |
| `Distance.LevAppend` | src/lib.rs:16-21 | A sequence extended by `s` is exactly `|s|` edits from the original. |
| `Distance.LevInsertBlock` | src/lib.rs:83-94 | Inserting a block `s` anywhere makes the result exactly `|s|` edits away. |
| `Distance.LevAtLeastUnmatched` | src/lib.rs:36-49 | The distance is at least the number of elements of `a`, counted with multiplicity, that `b` lacks. |
| `Distance.LevSameEqualities` | src/lib.rs:15 | `min_distance` uses only `PartialEq`, so two pairs of sequences with the same pattern of equal elements are the same distance apart. |
| `Alignment.LevIsLowerBound` | src/lib.rs:36-49 | No alignment of `a` against `b` costs fewer edits than `Lev(a, b)`. |
| `Alignment.OptimalAlignment` | src/lib.rs:36-49 | Some alignment of `a` against `b` costs exactly `Lev(a, b)`. |
| `Alignment.LevIsMinimumCost` | src/lib.rs:36-49 | `Lev(a, b)` is the minimum number of insertions, deletions and substitutions over all alignments. |
| `Utf8.EncodeChar` | src/lib.rs:7 | A scalar value takes 1 to 4 bytes. It takes one byte, below 0x80, exactly when it is ASCII, and every later byte is a continuation byte. |
| `Utf8.Encode` | src/lib.rs:7 | A string's byte length lies between its char count and four times that. |
| `Utf8.DecodeChar` | src/lib.rs:9-10 | A successful decode consumes between 1 byte and the bytes available. |
| `Utf8.EncodeAppend` | src/lib.rs:7 | The bytes of a concatenation are the concatenation of the bytes. |
| `Utf8.DecodeEncodeChar` | src/lib.rs:9-10 | Decoding an encoded char gives back the char and its width. |
| `Utf8.DecodeEncode` | src/lib.rs:7-10 | `chars` of `as_bytes` gives back the string: `Decode(Encode(s)) == Some(s)`. |
| `Utf8.EncodeDecodeChar` | src/lib.rs:9-10 | A decoded char re-encodes to exactly the bytes it came from, so overlong forms are rejected. |
| `Utf8.EncodeDecode` | src/lib.rs:7-10 | Every byte sequence that decodes is the canonical encoding of what it decodes to. |
| `Utf8.EncodeAscii` | src/lib.rs:6-7 | An ASCII string encodes to one byte per char, with the same values. |
| `Scenarios.SittingKittenAtMostThree` | src/lib.rs:61 | `Lev("sitting", "kitten") <= 3`, by an explicit chain of edits. |
| `Scenarios.SittingKittenAtLeastThree` | src/lib.rs:61 | `Lev("sitting", "kitten") >= 3`, because s, one i and g have no partner in "kitten". |
| `Scenarios.SittingKitten` | src/lib.rs:60-62 | `edit_distance("sitting", "kitten", true) == 3`. |
| `Scenarios.LevenshteinEmpty` | src/lib.rs:19-21 | Byte mode gives 11 for "levenshtein" against the empty string. |
| `Scenarios.AsciiNoDifference` | src/lib.rs:64-71 | The two ASCII sentences of the test get the same distance in both modes. |
| `Scenarios.ShahnamaChars` | src/lib.rs:82-87 | The two Persian spellings are 1 apart in char mode. |
| `Scenarios.ShahnamaBytes` | src/lib.rs:89-94 | They are 2 apart in byte mode, because the deleted alef takes two bytes. |
| `Scenarios.ModesCanDiffer` | src/lib.rs:73-80 | Some pair of strings gets different distances in the two modes. |

## Left out

- `Levenshtein.MinDistance`: the table holds unbounded `nat`s rather than
  `u32`. The model does not write out the `as u32` truncation of lengths and
  indices at src/lib.rs:17, 20, 30 and 33, or the `u32` addition at
  src/lib.rs:46. In their place, the result is proved to be at most
  `max(m, n)`, so for inputs shorter than 2^32 elements no cast or addition
  can overflow. Longer inputs, and what the casts would do to them, are not
  modelled.
- `Levenshtein.FillRow`: the inner `for j` loop of the nested fill at
  src/lib.rs:37-48 is a separate method that `MinDistance` calls once per
  row. The loops and the cell updates are the same. The split keeps each
  proof within the verifier's budget.
- `Vec<Vec<u32>>` is modelled as one `array2`. Allocation, and the row-vector
  layout of the `Vec`, are not modelled.
- `str::chars`: a Dafny `string` is already a sequence of Unicode scalar
  values, so `Vec<char>` collection is the identity. `str::as_bytes` is
  modelled by `Utf8.Encode`, following section 3 of RFC 3629. Rust's own
  UTF-8 code is not part of this model.
- The accents test (src/lib.rs:73-80) compares two particular strings whose
  exact distances are not derived here. The property it checks, that the two
  modes can differ, is `Scenarios.ModesCanDiffer`, shown with the shahnama
  pair.
- The triangle inequality is not proved. Neither the code nor its tests rely
  on it.
- The clippy attributes and the `#[cfg(test)]` test module (src/lib.rs:1-2,
  55-95) are not behaviour. The test cases appear as lemmas in `scenarios.dfy`.
