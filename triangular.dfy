/** The triangular decomposition behind `SecretImage`, as pure functions.
    A square `n` x `n` matrix is walked row by row; cell `(i, j)` goes to the
    upper sequence when `j >= i` (the diagonal and above) and to the lower
    sequence when `j < i`. Row `i` therefore contributes its columns
    `i .. n-1` to the upper sequence and its columns `0 .. i-1` to the lower
    one, in column order. */
module Triangular {
  import opened Grid

  /** Size of the upper array as the source allocates it: `(w * (w + 1)) / 2`. */
  function UpperSize(w: int): (s: nat)
    ensures w >= 0 ==> s + s == w * (w + 1)
  {
    NonNegProduct(w);
    (w * (w + 1)) / 2
  }

  /** Size of the lower array as the source allocates it: `(w * (w - 1)) / 2`. */
  function LowerSize(w: int): (s: nat)
    ensures w >= 0 ==> s + s == w * (w - 1)
  {
    NonNegProduct(w - 1);
    ((w - 1) * w) / 2
  }

  /** `w * (w + 1)` is even and never negative, so both sizes are exact naturals. */
  lemma NonNegProduct(w: int)
    ensures w * (w + 1) >= 0 && (w * (w + 1)) % 2 == 0
    ensures (w + 1) * w == w * (w + 1)
  {
    if w >= 0 {
      PronicEven(w);
    } else {
      assert w * (w + 1) == (-w - 1) * (-w - 1 + 1);
      PronicEven(-w - 1);
    }
  }

  lemma {:induction false} PronicEven(v: nat)
    ensures v * (v + 1) >= 0 && (v * (v + 1)) % 2 == 0
  {
    if v > 0 {
      PronicEven(v - 1);
      assert v * (v + 1) == (v - 1) * v + 2 * v;
    }
  }

  /** Both arrays together hold one entry per cell. */
  lemma SizesCoverGrid(n: nat)
    ensures UpperSize(n) + LowerSize(n) == n * n
  {
    assert n * (n + 1) + n * (n - 1) == 2 * (n * n);
  }

  /** Position in the upper array of row `i`'s first entry, `(i, i)`:
      rows before `i` contribute `n - r` entries each. */
  function UpperStart(n: nat, i: nat): nat
    requires i <= n
  {
    if i == 0 then 0 else UpperStart(n, i - 1) + (n - (i - 1))
  }

  /** Position in the lower array of row `i`'s first entry, `(i, 0)`:
      rows before `i` contribute `r` entries each. */
  function LowerStart(i: nat): nat {
    if i == 0 then 0 else LowerStart(i - 1) + (i - 1)
  }

  /** Index in the upper array of cell `(i, j)`, `j >= i`. */
  function UpperIndex(n: nat, i: nat, j: nat): nat
    requires i <= n && i <= j
  {
    UpperStart(n, i) + (j - i)
  }

  /** Index in the lower array of cell `(i, j)`, `j < i`. */
  function LowerIndex(i: nat, j: nat): nat {
    LowerStart(i) + j
  }

  lemma {:induction false} UpperStartClosed(n: nat, i: nat)
    requires i <= n
    ensures 2 * UpperStart(n, i) == i * (2 * n - i + 1)
  {
    if i > 0 {
      UpperStartClosed(n, i - 1);
      assert i * (2 * n - i + 1) == (i - 1) * (2 * n - (i - 1) + 1) + 2 * (n - (i - 1));
    }
  }

  lemma {:induction false} LowerStartClosed(i: nat)
    ensures 2 * LowerStart(i) == i * (i - 1)
  {
    if i > 0 {
      LowerStartClosed(i - 1);
      assert i * (i - 1) == (i - 1) * (i - 2) + 2 * (i - 1);
    }
  }

  /** After the last row both cursors stop exactly at the allocated sizes. */
  lemma CursorsEndAtSizes(n: nat)
    ensures UpperStart(n, n) == UpperSize(n)
    ensures LowerStart(n) == LowerSize(n)
  {
    UpperStartClosed(n, n);
    LowerStartClosed(n);
    assert n * (2 * n - n + 1) == n * (n + 1);
  }

  lemma {:induction false} UpperStartMono(n: nat, i: nat, k: nat)
    requires i <= k <= n
    ensures UpperStart(n, i) <= UpperStart(n, k)
  {
    if i < k {
      UpperStartMono(n, i, k - 1);
    }
  }

  lemma {:induction false} LowerStartMono(i: nat, k: nat)
    requires i <= k
    ensures LowerStart(i) <= LowerStart(k)
  {
    if i < k {
      LowerStartMono(i, k - 1);
    }
  }

  /** Every index the walk uses lies inside its array: `reconstruct` never
      reads, and the split never writes, out of bounds. */
  lemma IndicesInBounds(n: nat, i: nat, j: nat)
    requires i < n && j < n
    ensures j >= i ==> 0 <= UpperIndex(n, i, j) < UpperSize(n)
    ensures j < i ==> 0 <= LowerIndex(i, j) < LowerSize(n)
  {
    CursorsEndAtSizes(n);
    UpperStartMono(n, i + 1, n);
    LowerStartMono(i + 1, n);
    UpperStartMono(n, 0, i);
  }

  /** The top-left `n` x `n` corner of `g` exists. */
  ghost predicate Covers(g: Matrix, n: nat) {
    |g| >= n && forall i :: 0 <= i < n ==> |g[i]| >= n
  }

  /** Visiting cell `(i, j)` with `j >= i` extends row `i`'s upper segment by it. */
  lemma UpperRowStep(g: Matrix, n: nat, prefix: seq<int>, i: nat, j: nat)
    requires Covers(g, n) && i <= j < n
    ensures prefix + g[i][Min(i, j)..j] + [g[i][j]] == prefix + g[i][Min(i, j + 1)..j + 1]
  {
    assert g[i][Min(i, j + 1)..j + 1] == g[i][Min(i, j)..j] + [g[i][j]];
  }

  /** Visiting cell `(i, j)` with `j < i` extends row `i`'s lower segment by it. */
  lemma LowerRowStep(g: Matrix, n: nat, prefix: seq<int>, i: nat, j: nat)
    requires Covers(g, n) && j < i < n
    ensures prefix + g[i][..Min(i, j)] + [g[i][j]] == prefix + g[i][..Min(i, j + 1)]
  {
    assert g[i][..Min(i, j + 1)] == g[i][..Min(i, j)] + [g[i][j]];
  }

  /** The upper entries of rows `0 .. i-1`, in walk order. */
  function UpperPart(g: Matrix, n: nat, i: nat): seq<int>
    requires i <= n && Covers(g, n)
  {
    if i == 0 then [] else UpperPart(g, n, i - 1) + g[i - 1][i - 1..n]
  }

  /** The lower entries of rows `0 .. i-1`, in walk order. */
  function LowerPart(g: Matrix, n: nat, i: nat): seq<int>
    requires i <= n && Covers(g, n)
  {
    if i == 0 then [] else LowerPart(g, n, i - 1) + g[i - 1][..i - 1]
  }

  /** The upper array of the split: every cell with `j >= i`, row by row. */
  function Upper(g: Matrix, n: nat): seq<int>
    requires Covers(g, n)
  {
    UpperPart(g, n, n)
  }

  /** The lower array of the split: every cell with `j < i`, row by row. */
  function Lower(g: Matrix, n: nat): seq<int>
    requires Covers(g, n)
  {
    LowerPart(g, n, n)
  }

  lemma {:induction false} UpperPartLength(g: Matrix, n: nat, i: nat)
    requires i <= n && Covers(g, n)
    ensures |UpperPart(g, n, i)| == UpperStart(n, i)
  {
    if i > 0 {
      UpperPartLength(g, n, i - 1);
    }
  }

  lemma {:induction false} LowerPartLength(g: Matrix, n: nat, i: nat)
    requires i <= n && Covers(g, n)
    ensures |LowerPart(g, n, i)| == LowerStart(i)
  {
    if i > 0 {
      LowerPartLength(g, n, i - 1);
    }
  }

  /** Cell `(r, j)`, `j >= r`, of an earlier row sits at its upper index. */
  lemma {:induction false} UpperPartCell(g: Matrix, n: nat, i: nat, r: nat, j: nat)
    requires i <= n && Covers(g, n) && r < i && r <= j < n
    ensures UpperIndex(n, r, j) < UpperStart(n, i) <= |UpperPart(g, n, i)|
    ensures UpperPart(g, n, i)[UpperIndex(n, r, j)] == g[r][j]
  {
    var prev := UpperPart(g, n, i - 1);
    UpperPartLength(g, n, i - 1);
    UpperPartLength(g, n, i);
    assert UpperPart(g, n, i) == prev + g[i - 1][i - 1..n];
    if r < i - 1 {
      UpperPartCell(g, n, i - 1, r, j);
    } else {
      assert UpperIndex(n, r, j) == |prev| + (j - r);
    }
  }

  /** Cell `(r, j)`, `j < r`, of an earlier row sits at its lower index. */
  lemma {:induction false} LowerPartCell(g: Matrix, n: nat, i: nat, r: nat, j: nat)
    requires i <= n && Covers(g, n) && j < r < i
    ensures LowerIndex(r, j) < LowerStart(i) <= |LowerPart(g, n, i)|
    ensures LowerPart(g, n, i)[LowerIndex(r, j)] == g[r][j]
  {
    var prev := LowerPart(g, n, i - 1);
    LowerPartLength(g, n, i - 1);
    LowerPartLength(g, n, i);
    assert LowerPart(g, n, i) == prev + g[i - 1][..i - 1];
    if r < i - 1 {
      LowerPartCell(g, n, i - 1, r, j);
    } else {
      assert LowerIndex(r, j) == |prev| + j;
    }
  }

  lemma UpperPartAt(g: Matrix, n: nat, i: nat)
    requires i <= n && Covers(g, n)
    ensures |UpperPart(g, n, i)| == UpperStart(n, i)
    ensures forall r, j :: 0 <= r < i && r <= j < n ==>
              UpperIndex(n, r, j) < UpperStart(n, i) && UpperPart(g, n, i)[UpperIndex(n, r, j)] == g[r][j]
  {
    UpperPartLength(g, n, i);
    forall r, j | 0 <= r < i && r <= j < n
      ensures UpperIndex(n, r, j) < UpperStart(n, i) && UpperPart(g, n, i)[UpperIndex(n, r, j)] == g[r][j]
    {
      UpperPartCell(g, n, i, r, j);
    }
  }

  lemma LowerPartAt(g: Matrix, n: nat, i: nat)
    requires i <= n && Covers(g, n)
    ensures |LowerPart(g, n, i)| == LowerStart(i)
    ensures forall r, j :: 0 <= j < r < i ==>
              LowerIndex(r, j) < LowerStart(i) && LowerPart(g, n, i)[LowerIndex(r, j)] == g[r][j]
  {
    LowerPartLength(g, n, i);
    forall r, j | 0 <= j < r < i
      ensures LowerIndex(r, j) < LowerStart(i) && LowerPart(g, n, i)[LowerIndex(r, j)] == g[r][j]
    {
      LowerPartCell(g, n, i, r, j);
    }
  }

  /** The split arrays have the sizes the source allocates, and cell `(i, j)`
      sits at `UpperIndex(n, i, j)` of the upper array when `j >= i` and at
      `LowerIndex(i, j)` of the lower array otherwise. */
  lemma SplitLayout(g: Matrix, n: nat)
    requires Covers(g, n)
    ensures |Upper(g, n)| == UpperSize(n) && |Lower(g, n)| == LowerSize(n)
    ensures forall i, j :: 0 <= i <= j < n ==>
              UpperIndex(n, i, j) < UpperSize(n) && Upper(g, n)[UpperIndex(n, i, j)] == g[i][j]
    ensures forall i, j :: 0 <= j < i < n ==>
              LowerIndex(i, j) < LowerSize(n) && Lower(g, n)[LowerIndex(i, j)] == g[i][j]
  {
    UpperPartAt(g, n, n);
    LowerPartAt(g, n, n);
    CursorsEndAtSizes(n);
  }

  /** The pixel `reconstruct` writes at `(i, j)`: the next unread upper
      entry on or above the diagonal, the next unread lower entry below it. */
  function RebuildCell(n: nat, upper: seq<int>, lower: seq<int>, i: nat, j: nat): int
    requires |upper| == UpperSize(n) && |lower| == LowerSize(n)
    requires i < n && j < n
  {
    IndicesInBounds(n, i, j);
    if j >= i then upper[UpperIndex(n, i, j)] else lower[LowerIndex(i, j)]
  }

  /** The square image rebuilt from its two triangular arrays. */
  function Rebuild(n: nat, upper: seq<int>, lower: seq<int>): (g: Matrix)
    requires |upper| == UpperSize(n) && |lower| == LowerSize(n)
    ensures Shaped(g, n, n)
  {
    seq(n, i requires 0 <= i < n =>
      seq(n, j requires 0 <= j < n => RebuildCell(n, upper, lower, i, j)))
  }

  /** Reconstructing a split image gives back the image, pixel for pixel. */
  lemma RebuildOfSplit(g: Matrix, n: nat)
    requires Shaped(g, n, n)
    ensures |Upper(g, n)| == UpperSize(n) && |Lower(g, n)| == LowerSize(n)
    ensures Rebuild(n, Upper(g, n), Lower(g, n)) == g
  {
    SplitLayout(g, n);
    MatrixExt(Rebuild(n, Upper(g, n), Lower(g, n)), g, n, n);
  }

  lemma {:induction false} UpperPartOfRebuild(n: nat, upper: seq<int>, lower: seq<int>, i: nat)
    requires |upper| == UpperSize(n) && |lower| == LowerSize(n) && i <= n
    ensures UpperStart(n, i) <= |upper|
    ensures UpperPart(Rebuild(n, upper, lower), n, i) == upper[..UpperStart(n, i)]
  {
    CursorsEndAtSizes(n);
    UpperStartMono(n, i, n);
    if i > 0 {
      UpperPartOfRebuild(n, upper, lower, i - 1);
      var s := UpperStart(n, i - 1);
      UpperRowOfRebuild(n, upper, lower, i - 1);
      assert upper[..UpperStart(n, i)] == upper[..s] + upper[s..UpperStart(n, i)];
    }
  }

  /** Row `r` of a reconstruction, from the diagonal on, is the upper
      array's segment for that row. */
  lemma UpperRowOfRebuild(n: nat, upper: seq<int>, lower: seq<int>, r: nat)
    requires |upper| == UpperSize(n) && |lower| == LowerSize(n) && r < n
    ensures UpperStart(n, r + 1) <= |upper|
    ensures Rebuild(n, upper, lower)[r][r..n] == upper[UpperStart(n, r)..UpperStart(n, r + 1)]
  {
    CursorsEndAtSizes(n);
    UpperStartMono(n, r + 1, n);
    var row := Rebuild(n, upper, lower)[r];
    forall j | r <= j < n
      ensures row[j] == upper[UpperIndex(n, r, j)]
    {
      IndicesInBounds(n, r, j);
    }
  }

  lemma {:induction false} LowerPartOfRebuild(n: nat, upper: seq<int>, lower: seq<int>, i: nat)
    requires |upper| == UpperSize(n) && |lower| == LowerSize(n) && i <= n
    ensures LowerStart(i) <= |lower|
    ensures LowerPart(Rebuild(n, upper, lower), n, i) == lower[..LowerStart(i)]
  {
    CursorsEndAtSizes(n);
    LowerStartMono(i, n);
    if i > 0 {
      LowerPartOfRebuild(n, upper, lower, i - 1);
      var s := LowerStart(i - 1);
      LowerRowOfRebuild(n, upper, lower, i - 1);
      assert lower[..LowerStart(i)] == lower[..s] + lower[s..LowerStart(i)];
    }
  }

  /** Row `r` of a reconstruction, left of the diagonal, is the lower
      array's segment for that row. */
  lemma LowerRowOfRebuild(n: nat, upper: seq<int>, lower: seq<int>, r: nat)
    requires |upper| == UpperSize(n) && |lower| == LowerSize(n) && r < n
    ensures LowerStart(r + 1) <= |lower|
    ensures Rebuild(n, upper, lower)[r][..r] == lower[LowerStart(r)..LowerStart(r + 1)]
  {
    CursorsEndAtSizes(n);
    LowerStartMono(r + 1, n);
    var row := Rebuild(n, upper, lower)[r];
    forall j | 0 <= j < r
      ensures row[j] == lower[LowerIndex(r, j)]
    {
      IndicesInBounds(n, r, j);
    }
  }

  /** Splitting a reconstructed image gives back both arrays: writing the
      reconstruction back leaves a secret image unchanged. */
  lemma SplitOfRebuild(n: nat, upper: seq<int>, lower: seq<int>)
    requires |upper| == UpperSize(n) && |lower| == LowerSize(n)
    ensures Upper(Rebuild(n, upper, lower), n) == upper
    ensures Lower(Rebuild(n, upper, lower), n) == lower
  {
    UpperPartOfRebuild(n, upper, lower, n);
    LowerPartOfRebuild(n, upper, lower, n);
    CursorsEndAtSizes(n);
  }
}
