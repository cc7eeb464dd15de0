/** Pure arithmetic on pixel values and pixel matrices: the clamping of
    `operator+`/`operator-`, the least significant bit used by the
    steganography codec, and a few facts about division. */
module Grid {

  /** A pixel matrix as a sequence of rows. */
  type Matrix = seq<seq<int>>

  /** `m` has exactly `h` rows of exactly `w` pixels. */
  ghost predicate Shaped(m: Matrix, h: int, w: int) {
    |m| == h && forall i :: 0 <= i < h ==> |m[i]| == w
  }

  /** Two matrices of the same shape that agree on every pixel are equal. */
  lemma MatrixExt(a: Matrix, b: Matrix, h: nat, w: nat)
    requires Shaped(a, h, w) && Shaped(b, h, w)
    requires forall i, j :: 0 <= i < h && 0 <= j < w ==> a[i][j] == b[i][j]
    ensures a == b
  {
    forall i | 0 <= i < h ensures a[i] == b[i] {
      assert forall j :: 0 <= j < w ==> a[i][j] == b[i][j];
    }
  }

  function Min(a: int, b: int): int { if a <= b then a else b }
  function Max(a: int, b: int): int { if a <= b then b else a }

  /** `std::min(255, std::max(0, x))`: the saturation applied by the image operators. */
  function Clamp(x: int): (r: int)
    ensures 0 <= r <= 255
    ensures 0 <= x <= 255 ==> r == x
    ensures x < 0 ==> r == 0
    ensures x > 255 ==> r == 255
  {
    Min(255, Max(0, x))
  }

  /** `x & 1`. On two's-complement integers this is the non-negative
      remainder modulo 2, which is what Dafny's `%` computes. */
  function Lsb(x: int): (b: int)
    ensures b == 0 || b == 1
    ensures (x - b) % 2 == 0
  {
    x % 2
  }

  /** `(x & ~1) | (bit & 1)`: `x` with its least significant bit replaced by
      that of `bit`. `x & ~1` clears bit 0, that is, subtracts `x % 2`. */
  function WithLsb(x: int, bit: int): (r: int)
    ensures Lsb(r) == Lsb(bit)
    ensures r / 2 == x / 2
    ensures Lsb(x) == Lsb(bit) ==> r == x
  {
    x - x % 2 + bit % 2
  }

  /** Quotient and remainder are determined by any decomposition `x == q * d + r`
      with `0 <= r < d`. */
  lemma DivModUnique(x: int, d: int, q: int, r: int)
    requires d > 0 && 0 <= r < d && x == q * d + r
    ensures x / d == q && x % d == r
  {
    var q', r' := x / d, x % d;
    assert x == q' * d + r' && 0 <= r' < d;
    MulDiff(q', q, d);
    if q' > q {
      MulAtLeast(q' - q, d);
    } else if q' < q {
      MulAtLeast(q - q', d);
    }
  }

  lemma MulDiff(a: int, b: int, d: int)
    ensures a * d - b * d == (a - b) * d
  {
  }

  lemma {:induction false} MulAtLeast(a: int, d: int)
    requires a >= 1 && d > 0
    ensures a * d >= d
  {
    if a > 1 {
      MulAtLeast(a - 1, d);
      assert a * d == (a - 1) * d + d;
    }
  }
}
