/** `Crypto`: hides a text message in the least significant bits of an
    image's pixels and reads it back. Each character travels as 7 bits,
    least significant first; the bits go into bit 0 of the pixels visited
    from the bottom-right corner leftwards and upwards. */
module Crypto {
  import opened Grid
  import opened Outcomes
  import opened Triangular
  import opened LsbCodec
  import opened GrayscaleImages
  import opened SecretImages

  /** `extract_LSBits`: rebuilds the image and collects bit 0 of the first
      `7 * messageLength` pixels of the reverse walk. Refused when the image
      has fewer pixels than that. */
  method ExtractLSBits(secret: SecretImage, messageLength: int) returns (r: Result<seq<int>>)
    requires secret.Valid() && 0 <= secret.width == secret.height
    ensures messageLength * 7 > secret.width * secret.height ==> r == Err(NotEnoughPixels)
    ensures messageLength * 7 <= secret.width * secret.height ==>
              r == Ok(LowBits(secret.Pixels(), secret.height, secret.width, Max(0, messageLength * 7)))
  {
    var image := secret.Reconstruct();
    var width, height := image.width, image.height;
    var requiredBits := messageLength * 7;
    if requiredBits > width * height {
      return Err(NotEnoughPixels);
    }
    ghost var g := image.Cells();
    assert Holds(image, g, height);
    var bits := ExtractWalk(image, g, requiredBits);
    return Ok(bits);
  }

  /** The walk of `extract_LSBits` over the rebuilt image, bottom row first. */
  method ExtractWalk(image: GrayscaleImage, ghost g: Matrix, requiredBits: int) returns (bits: seq<int>)
    requires image.width == image.height
    requires Shaped(g, image.height, image.width) && Holds(image, g, image.height)
    requires requiredBits <= image.height * image.width
    ensures bits == LowBits(g, image.height, image.width, Max(0, requiredBits))
  {
    var width, height := image.width, image.height;
    ghost var want: nat := Max(0, requiredBits);
    bits := [];
    var messageIndex := 0;
    ghost var base: nat := 0;
    var i: int := height - 1;
    while i >= 0
      invariant -1 <= i < height
      invariant base == (height - 1 - i) * width
      invariant messageIndex == Min(want, base)
      invariant bits == LowBits(g, height, width, messageIndex)
    {
      messageIndex, bits := ExtractRow(image, g, i, base, want, requiredBits, messageIndex, bits);
      RowDone(height, width, i);
      base := base + width;
      i := i - 1;
    }
  }

  /** Row `i` of the extraction, right to left: each pixel adds its bit 0
      while fewer than `requiredBits` bits have been collected. */
  method ExtractRow(image: GrayscaleImage, ghost g: Matrix, i: nat, ghost base: nat, ghost want: nat,
                    requiredBits: int, index0: int, bits0: seq<int>) returns (index: int, bits: seq<int>)
    requires image.width == image.height && i < image.height
    requires Shaped(g, image.height, image.width) && Holds(image, g, image.height)
    requires base == (image.height - 1 - i) * image.width
    requires want == Max(0, requiredBits) && want <= image.height * image.width
    requires index0 == Min(want, base) && bits0 == LowBits(g, image.height, image.width, index0)
    ensures index == Min(want, base + image.width)
    ensures bits == LowBits(g, image.height, image.width, index)
  {
    var width, height := image.width, image.height;
    index, bits := index0, bits0;
    var j: int := width - 1;
    while j >= 0
      invariant -1 <= j < width
      invariant index == Min(want, base + (width - 1 - j))
      invariant bits == LowBits(g, height, width, index)
    {
      if index < requiredBits {
        LowBitsStep(g, height, width, i, j, index);
        bits := bits + [Lsb(image.data[i, j])];
        index := index + 1;
      }
      j := j - 1;
    }
  }

  /** The pixel numbered `k` in the walk adds its bit 0 to the extraction. */
  lemma LowBitsStep(g: Matrix, h: nat, w: nat, i: nat, j: nat, k: nat)
    requires Shaped(g, h, w) && i < h && j < w
    requires k == (h - 1 - i) * w + (w - 1 - j)
    ensures k < h * w
    ensures LowBits(g, h, w, k + 1) == LowBits(g, h, w, k) + [Lsb(g[i][j])]
  {
    OrderBelow(h, w, i, j);
    VisitOfOrder(h, w, i, j);
  }

  /** Finishing row `i` of the reverse walk completes `h - i` rows. */
  lemma RowDone(h: int, w: int, i: int)
    ensures (h - 1 - i) * w + w == (h - i) * w
  {
  }

  /** `decrypt_message`: every group of 7 bits, least significant first,
      becomes one character. Refused when the length is not a multiple of 7. */
  method DecryptMessage(bits: seq<int>) returns (r: Result<string>)
    ensures |bits| % 7 != 0 ==> r == Err(BadBitCount)
    ensures |bits| % 7 == 0 ==> r == Ok(Decoded(bits))
  {
    if |bits| % 7 != 0 {
      return Err(BadBitCount);
    }
    var message := "";
    var i := 0;
    while i < |bits|
      invariant 0 <= i <= |bits| && i % 7 == 0
      invariant message == Decoded(bits[..i])
    {
      GroupFits(i, |bits|);
      var value := 0;
      var j := 0;
      while j < 7
        invariant 0 <= j <= 7
        invariant value == BitsValue(bits[i..i + j])
      {
        BitsValueSnoc(bits, i, j);
        value := value + Lsb(bits[i + j]) * Pow2(j);
        j := j + 1;
      }
      DecodedSnoc(bits, i);
      message := message + [value as char];
      i := i + 7;
    }
    assert bits[..|bits|] == bits;
    return Ok(message);
  }

  lemma GroupFits(i: int, n: int)
    requires 0 <= i < n && i % 7 == 0 && n % 7 == 0
    ensures i + 7 <= n
  {
  }

  /** Setting bit `j` of the bitset adds `(b & 1) * 2^j` to its value. */
  lemma BitsValueSnoc(bits: seq<int>, i: nat, j: nat)
    requires i + j < |bits|
    ensures BitsValue(bits[i..i + j + 1]) == BitsValue(bits[i..i + j]) + Lsb(bits[i + j]) * Pow2(j)
  {
    var s := bits[i..i + j + 1];
    assert |s| == j + 1 && s[..j] == bits[i..i + j] && s[j] == bits[i + j];
    assert BitsValue(s) == BitsValue(s[..j]) + Lsb(s[j]) * Pow2(j);
  }

  /** Decoding one more group appends one character. */
  lemma DecodedSnoc(bits: seq<int>, i: nat)
    requires i % 7 == 0 && i + 7 <= |bits|
    ensures BitsValue(bits[i..i + 7]) < 128
    ensures Decoded(bits[..i + 7]) == Decoded(bits[..i]) + [BitsValue(bits[i..i + 7]) as char]
  {
    var t := bits[..i + 7];
    assert t[..|t| - 7] == bits[..i];
    assert t[|t| - 7..] == bits[i..i + 7];
    assert Pow2(7) == 128;
  }

  /** `encrypt_message`: bits 0 to 6 of every character, in order. */
  method EncryptMessage(message: string) returns (bits: seq<int>)
    ensures bits == Encoded(message)
  {
    bits := [];
    var m := 0;
    while m < |message|
      invariant 0 <= m <= |message|
      invariant bits == Encoded(message[..m])
    {
      var c := message[m];
      var i := 0;
      while i < 7
        invariant 0 <= i <= 7
        invariant bits == Encoded(message[..m]) + LowBitsOf(c as int, i)
      {
        bits := bits + [Bit(c as int, i)];
        i := i + 1;
      }
      assert message[..m + 1][..m] == message[..m];
      m := m + 1;
    }
    assert message[..|message|] == message;
  }

  /** `embed_LSBits`: after the capacity check, writes `bits[k] & 1` into
      bit 0 of the `k`-th pixel of the reverse walk, in the caller's image,
      then splits the image. A non-square image is refused only by the
      split, after its pixels have been changed. */
  method EmbedLSBits(image: GrayscaleImage, bits: seq<int>) returns (r: Result<SecretImage>)
    requires image.Valid()
    modifies image.data
    ensures image.Valid()
    ensures |bits| > image.width * image.height ==> r == Err(NotEnoughPixels) && unchanged(image.data)
    ensures |bits| <= image.width * image.height ==>
              image.Cells() == Embedded(old(image.Cells()), image.height, image.width, bits)
    ensures |bits| <= image.width * image.height && image.width != image.height ==> r == Err(NotSquare)
    ensures |bits| <= image.width * image.height && image.width == image.height ==>
              r.Ok? && fresh(r.value) && fresh(r.value.upper) && fresh(r.value.lower) && r.value.Valid()
              && r.value.width == image.width && r.value.height == image.height
              && r.value.upper[..] == Upper(image.Cells(), image.width)
              && r.value.lower[..] == Lower(image.Cells(), image.width)
  {
    if |bits| > image.width * image.height {
      return Err(NotEnoughPixels);
    }
    var width, height := image.width, image.height;
    ghost var g := image.Cells();
    EmbedWalk(image, g, bits);
    MatrixExt(image.Cells(), Embedded(g, height, width, bits), height, width);
    r := SecretImage.Split(image);
  }

  /** The walk of `embed_LSBits`, bottom row first. */
  method EmbedWalk(image: GrayscaleImage, ghost g: Matrix, bits: seq<int>)
    requires image.Valid() && Shaped(g, image.height, image.width)
    requires forall r, c :: 0 <= r < image.height && 0 <= c < image.width ==> image.data[r, c] == g[r][c]
    requires |bits| <= image.height * image.width
    modifies image.data
    ensures image.Valid()
    ensures forall r, c :: 0 <= r < image.height && 0 <= c < image.width ==>
              image.data[r, c] == Carried(g, image.height, image.width, bits, |bits|, r, c)
  {
    var width, height := image.width, image.height;
    var messageIndex := 0;
    ghost var base: nat := 0;
    var i: int := height - 1;
    while i >= 0
      invariant -1 <= i < height
      invariant image.Valid()
      invariant base == (height - 1 - i) * width
      invariant messageIndex == Min(|bits|, base)
      invariant forall r, c :: 0 <= r < height && 0 <= c < width ==>
                  image.data[r, c] == Carried(g, height, width, bits, messageIndex, r, c)
    {
      messageIndex := EmbedRow(image, g, bits, i, base, messageIndex);
      RowDone(height, width, i);
      base := base + width;
      i := i - 1;
    }
  }

  /** Row `i` of the embedding, right to left: each pixel takes the next bit
      while bits remain. */
  method EmbedRow(image: GrayscaleImage, ghost g: Matrix, bits: seq<int>, i: nat, ghost base: nat,
                  index0: int) returns (index: int)
    requires image.Valid() && Shaped(g, image.height, image.width) && i < image.height
    requires base == (image.height - 1 - i) * image.width
    requires |bits| <= image.height * image.width
    requires index0 == Min(|bits|, base)
    requires forall r, c :: 0 <= r < image.height && 0 <= c < image.width ==>
               image.data[r, c] == Carried(g, image.height, image.width, bits, index0, r, c)
    modifies image.data
    ensures image.Valid()
    ensures index == Min(|bits|, base + image.width)
    ensures forall r, c :: 0 <= r < image.height && 0 <= c < image.width ==>
              image.data[r, c] == Carried(g, image.height, image.width, bits, index, r, c)
  {
    var width, height := image.width, image.height;
    index := index0;
    var j: int := width - 1;
    while j >= 0
      invariant -1 <= j < width
      invariant image.Valid()
      invariant index == Min(|bits|, base + (width - 1 - j))
      invariant forall r, c :: 0 <= r < height && 0 <= c < width ==>
                  image.data[r, c] == Carried(g, height, width, bits, index, r, c)
    {
      if index < |bits| {
        CarriedStep(g, height, width, bits, index, i, j);
        var pixel := image.data[i, j];
        pixel := pixel - Lsb(pixel);
        pixel := pixel + Lsb(bits[index]);
        image.SetPixel(i, j, pixel);
        index := index + 1;
      }
      j := j - 1;
    }
  }

  /** Giving pixel number `k` of the walk its bit changes that pixel, to
      its value with bit 0 replaced, and no other. */
  lemma CarriedStep(g: Matrix, h: nat, w: nat, bits: seq<int>, k: nat, i: nat, j: nat)
    requires Shaped(g, h, w) && i < h && j < w && k < |bits|
    requires k == (h - 1 - i) * w + (w - 1 - j)
    ensures Carried(g, h, w, bits, k, i, j) == g[i][j]
    ensures Carried(g, h, w, bits, k + 1, i, j) == WithLsb(g[i][j], bits[k])
    ensures forall r, c :: 0 <= r < h && 0 <= c < w && (r != i || c != j) ==>
              Carried(g, h, w, bits, k + 1, r, c) == Carried(g, h, w, bits, k, r, c)
  {
    forall r, c | 0 <= r < h && 0 <= c < w && (r != i || c != j)
      ensures Carried(g, h, w, bits, k + 1, r, c) == Carried(g, h, w, bits, k, r, c)
    {
      VisitOfOrder(h, w, r, c);
      VisitOfOrder(h, w, i, j);
    }
  }

  /** Pixel `(i, j)` once the first `done` pixels of the walk carry their
      bit: changed if it is one of them, as it was otherwise. */
  ghost function Carried(g: Matrix, h: nat, w: nat, bits: seq<int>, done: nat, i: nat, j: nat): int
    requires Shaped(g, h, w) && i < h && j < w && done <= |bits|
  {
    var k := Order(h, w, i, j);
    if k < done then WithLsb(g[i][j], bits[k]) else g[i][j]
  }

  /** Hiding a 7-bit message in a square image, splitting it, and revealing
      it from the rebuilt image returns the message. */
  lemma RevealHidden(g: Matrix, n: nat, s: string, upper: seq<int>, lower: seq<int>)
    requires Shaped(g, n, n) && IsAscii(s) && 7 * |s| <= n * n
    requires upper == Upper(Embedded(g, n, n, Encoded(s)), n)
    requires lower == Lower(Embedded(g, n, n, Encoded(s)), n)
    ensures |upper| == UpperSize(n) && |lower| == LowerSize(n)
    ensures Decoded(LowBits(Rebuild(n, upper, lower), n, n, 7 * |s|)) == s
  {
    var e := Embedded(g, n, n, Encoded(s));
    RebuildOfSplit(e, n);
    ExtractEmbedded(g, n, n, Encoded(s));
    EncodedIsMasked(s);
    DecodeEncodeAscii(s);
  }
}
