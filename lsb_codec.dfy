/** The steganography codec as pure functions: how a message becomes a run
    of 7-bit groups, how a run of bits becomes a message again, in which
    order the pixels of an image carry the bits, and what embedding does to
    an image. The methods in `Crypto` are proved against these. */
module LsbCodec {
  import opened Grid

  // ---------------------------------------------------------------------------
  // Bits of a number

  function Pow2(i: nat): (p: nat)
    ensures p >= 1
  {
    if i == 0 then 1 else 2 * Pow2(i - 1)
  }

  /** Bit `i` of a non-negative number: `std::bitset` indexing. */
  function Bit(x: nat, i: nat): (b: int)
    ensures b == 0 || b == 1
  {
    (x / Pow2(i)) % 2
  }

  /** `bits.to_ulong()` of a bitset whose bit `j` is `b[j] & 1`. */
  function BitsValue(b: seq<int>): (v: nat)
    ensures v < Pow2(|b|)
  {
    if b == [] then 0 else BitsValue(b[..|b| - 1]) + Lsb(b[|b| - 1]) * Pow2(|b| - 1)
  }

  /** The value of the low `k` bits of `x`, in order. */
  function LowBitsOf(x: nat, k: nat): (bs: seq<int>)
    ensures |bs| == k
  {
    if k == 0 then [] else LowBitsOf(x, k - 1) + [Bit(x, k - 1)]
  }

  /** Splitting `x` at bit `k`: the remainder modulo `2^(k+1)` is the
      remainder modulo `2^k` plus bit `k` in its place. */
  lemma ModStep(x: nat, k: nat)
    ensures x % Pow2(k + 1) == x % Pow2(k) + Bit(x, k) * Pow2(k)
  {
    var p := Pow2(k);
    var a, m := x / p, x % p;
    var b, e := a / 2, a % 2;
    assert x == a * p + m;
    assert a * p == (2 * b + e) * p == b * (2 * p) + e * p;
    assert 0 <= e * p + m < 2 * p;
    DivModUnique(x, 2 * p, b, e * p + m);
  }

  /** Reading back the low `k` bits of `x` gives `x` modulo `2^k`. */
  lemma {:induction false} LowBitsValue(x: nat, k: nat)
    ensures BitsValue(LowBitsOf(x, k)) == x % Pow2(k)
  {
    if k > 0 {
      var j := k - 1;
      var bs, low := LowBitsOf(x, k), LowBitsOf(x, j);
      var b := Bit(x, j);
      assert |bs| == j + 1 && bs[..j] == low && bs[j] == b;
      assert Lsb(b) == b;
      assert BitsValue(bs) == BitsValue(low) + b * Pow2(j);
      LowBitsValue(x, j);
      ModStep(x, j);
    }
  }

  // ---------------------------------------------------------------------------
  // Messages and bit runs

  /** The 7 bits `std::bitset<7>(c)` holds, least significant first. */
  function CharBits(c: char): (bs: seq<int>)
    ensures |bs| == 7
  {
    LowBitsOf(c as int, 7)
  }

  /** What `encrypt_message` produces: the 7-bit groups of the characters
      in order. */
  function Encoded(s: string): (bits: seq<int>)
    ensures |bits| == 7 * |s|
  {
    if s == [] then [] else Encoded(s[..|s| - 1]) + CharBits(s[|s| - 1])
  }

  /** What `decrypt_message` produces from a run whose length is a multiple
      of 7: one character per group, the group read least significant bit
      first. */
  function Decoded(bits: seq<int>): (s: string)
    requires |bits| % 7 == 0
    ensures |s| == |bits| / 7
  {
    if bits == [] then ""
    else Decoded(bits[..|bits| - 7]) + [GroupChar(bits[|bits| - 7..])]
  }

  /** The character a group of 7 bits stands for. */
  function GroupChar(group: seq<int>): (c: char)
    requires |group| == 7
    ensures c as int == BitsValue(group) < 128
  {
    assert Pow2(7) == 128;
    BitsValue(group) as char
  }

  /** Every character cut to its low 7 bits: what survives a round trip. */
  function Low7(s: string): (t: string)
    ensures |t| == |s|
  {
    seq(|s|, k requires 0 <= k < |s| => ((s[k] as int) % 128) as char)
  }

  predicate IsAscii(s: string) {
    forall k :: 0 <= k < |s| ==> s[k] as int < 128
  }

  /** Each bit masked to 0 or 1: `b & 1`. */
  function Masked(bits: seq<int>): (m: seq<int>)
    ensures |m| == |bits|
  {
    seq(|bits|, k requires 0 <= k < |bits| => Lsb(bits[k]))
  }

  /** Bit `7m + i` of an encoding is bit `i` of character `m`. */
  lemma {:induction false} EncodedAt(s: string, m: nat, i: nat)
    requires m < |s| && i < 7
    ensures Encoded(s)[7 * m + i] == Bit(s[m] as int, i)
  {
    var last := |s| - 1;
    if m < last {
      assert Encoded(s)[7 * m + i] == Encoded(s[..last])[7 * m + i];
      EncodedAt(s[..last], m, i);
    } else {
      LowBitsOfAt(s[m] as int, 7, i);
    }
  }

  lemma {:induction false} LowBitsOfAt(x: nat, k: nat, i: nat)
    requires i < k
    ensures LowBitsOf(x, k)[i] == Bit(x, i)
  {
    if i < k - 1 {
      LowBitsOfAt(x, k - 1, i);
    }
  }

  /** Character `m` of a decoding is the value of group `m`. */
  lemma {:induction false} DecodedAt(bits: seq<int>, m: nat)
    requires |bits| % 7 == 0 && m < |bits| / 7
    ensures Decoded(bits)[m] as int == BitsValue(bits[7 * m..7 * m + 7])
  {
    var n := |bits| / 7;
    assert |bits| == 7 * n;
    var front := bits[..7 * n - 7];
    assert Decoded(bits) == Decoded(front) + [GroupChar(bits[7 * n - 7..])];
    if m < n - 1 {
      assert Decoded(bits)[m] == Decoded(front)[m];
      assert front[7 * m..7 * m + 7] == bits[7 * m..7 * m + 7];
      DecodedAt(front, m);
    } else {
      assert bits[7 * m..7 * m + 7] == bits[7 * n - 7..];
    }
  }

  /** Decoding an encoding returns every character cut to its low 7 bits. */
  lemma {:induction false} DecodeEncode(s: string)
    ensures Decoded(Encoded(s)) == Low7(s)
  {
    if s != [] {
      var front, c := s[..|s| - 1], s[|s| - 1];
      var e := Encoded(s);
      assert e == Encoded(front) + CharBits(c);
      assert e[..|e| - 7] == Encoded(front) && e[|e| - 7..] == CharBits(c);
      assert Decoded(e) == Decoded(Encoded(front)) + [GroupChar(CharBits(c))];
      DecodeEncode(front);
      LowBitsValue(c as int, 7);
      assert Pow2(7) == 128;
      assert GroupChar(CharBits(c)) == ((c as int) % 128) as char;
      Low7Snoc(s);
    }
  }

  lemma Low7Snoc(s: string)
    requires s != []
    ensures Low7(s) == Low7(s[..|s| - 1]) + [((s[|s| - 1] as int) % 128) as char]
  {
  }

  /** For 7-bit characters the round trip is exact. */
  lemma DecodeEncodeAscii(s: string)
    requires IsAscii(s)
    ensures Decoded(Encoded(s)) == s
  {
    DecodeEncode(s);
    Low7Ascii(s);
  }

  lemma Low7Ascii(s: string)
    requires IsAscii(s)
    ensures Low7(s) == s
  {
    forall k | 0 <= k < |s| ensures Low7(s)[k] == s[k] {
      assert s[k] as int < 128;
    }
  }

  /** An encoding already consists of 0s and 1s. */
  lemma EncodedIsMasked(s: string)
    ensures Masked(Encoded(s)) == Encoded(s)
  {
    var e := Encoded(s);
    forall k | 0 <= k < |e| ensures Masked(e)[k] == e[k] {
      EncodedAt(s, k / 7, k % 7);
    }
  }

  // ---------------------------------------------------------------------------
  // The order in which pixels carry bits

  /** The `k`-th pixel visited by the reverse row-major walk of an `h` x `w`
      image: from the bottom-right corner leftwards, then up a row. */
  function Visit(h: nat, w: nat, k: nat): (p: (nat, nat))
    requires k < h * w
    ensures p.0 < h && p.1 < w
  {
    DivBelow(k, w, h);
    (h - 1 - k / w, w - 1 - k % w)
  }

  /** How many pixels the walk visits before `(i, j)`. */
  function Order(h: nat, w: nat, i: nat, j: nat): (k: nat)
    requires i < h && j < w
    ensures k < h * w
  {
    OrderBelow(h, w, i, j);
    (h - 1 - i) * w + (w - 1 - j)
  }

  lemma DivBelow(k: nat, w: nat, h: nat)
    requires k < h * w
    ensures w > 0 && k / w < h
  {
  }

  lemma OrderBelow(h: nat, w: nat, i: nat, j: nat)
    requires i < h && j < w
    ensures 0 <= (h - 1 - i) * w + (w - 1 - j) < h * w
  {
    assert (h - 1 - i) * w <= (h - 1) * w;
    assert (h - 1) * w + w == h * w;
  }

  /** The walk visits every pixel exactly once: `Order` undoes `Visit`,
      and `Visit` undoes `Order`. */
  lemma OrderOfVisit(h: nat, w: nat, k: nat)
    requires k < h * w
    ensures Order(h, w, Visit(h, w, k).0, Visit(h, w, k).1) == k
  {
    DivBelow(k, w, h);
  }

  lemma VisitOfOrder(h: nat, w: nat, i: nat, j: nat)
    requires i < h && j < w
    ensures Visit(h, w, Order(h, w, i, j)) == (i, j)
  {
    var k := Order(h, w, i, j);
    DivModUnique(k, w, h - 1 - i, w - 1 - j);
  }

  // ---------------------------------------------------------------------------
  // Embedding and extraction on matrices

  /** The low bits of the first `count` pixels of the walk: what
      `extract_LSBits` returns. */
  ghost function LowBits(g: Matrix, h: nat, w: nat, count: nat): (bits: seq<int>)
    requires Shaped(g, h, w) && count <= h * w
    ensures |bits| == count
  {
    if count == 0 then []
    else
      var p := Visit(h, w, count - 1);
      LowBits(g, h, w, count - 1) + [Lsb(g[p.0][p.1])]
  }

  /** The image after `embed_LSBits`: pixel number `k` of the walk, for
      `k < |bits|`, has its bit 0 replaced by `bits[k] & 1`. */
  ghost function Embedded(g: Matrix, h: nat, w: nat, bits: seq<int>): (e: Matrix)
    requires Shaped(g, h, w)
    ensures Shaped(e, h, w)
  {
    seq(h, i requires 0 <= i < h =>
      seq(w, j requires 0 <= j < w =>
        var k := Order(h, w, i, j);
        if k < |bits| then WithLsb(g[i][j], bits[k]) else g[i][j]))
  }

  /** Embedding touches only bit 0, and only of the first `|bits|` pixels
      of the walk, which then carry `bits[k] & 1`. */
  lemma EmbeddedPixel(g: Matrix, h: nat, w: nat, bits: seq<int>, i: nat, j: nat)
    requires Shaped(g, h, w) && i < h && j < w
    ensures Embedded(g, h, w, bits)[i][j] / 2 == g[i][j] / 2
    ensures Order(h, w, i, j) < |bits| ==> Lsb(Embedded(g, h, w, bits)[i][j]) == Lsb(bits[Order(h, w, i, j)])
    ensures Order(h, w, i, j) >= |bits| ==> Embedded(g, h, w, bits)[i][j] == g[i][j]
  {
  }

  /** Element `k` of an extraction is bit 0 of the `k`-th pixel of the walk. */
  lemma {:induction false} LowBitsAt(g: Matrix, h: nat, w: nat, count: nat, k: nat)
    requires Shaped(g, h, w) && count <= h * w && k < count
    ensures LowBits(g, h, w, count)[k] == Lsb(g[Visit(h, w, k).0][Visit(h, w, k).1])
  {
    if k < count - 1 {
      LowBitsAt(g, h, w, count - 1, k);
    }
  }

  /** Extracting as many bits as were embedded returns them masked to 0/1. */
  lemma ExtractEmbedded(g: Matrix, h: nat, w: nat, bits: seq<int>)
    requires Shaped(g, h, w) && |bits| <= h * w
    ensures LowBits(Embedded(g, h, w, bits), h, w, |bits|) == Masked(bits)
  {
    var e := Embedded(g, h, w, bits);
    forall k | 0 <= k < |bits| ensures LowBits(e, h, w, |bits|)[k] == Masked(bits)[k] {
      LowBitsAt(e, h, w, |bits|, k);
      var p := Visit(h, w, k);
      OrderOfVisit(h, w, k);
      EmbeddedPixel(g, h, w, bits, p.0, p.1);
    }
  }
}
