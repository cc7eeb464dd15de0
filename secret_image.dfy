/** `SecretImage`: a square grayscale image kept as its upper triangle
    (diagonal included) and its strictly lower triangle, each a flat array
    filled in row-major order; the arrays are rebuilt into an image, refreshed
    from an image, and written to and read from a three-line text file. */
module SecretImages {
  import opened Grid
  import opened Outcomes
  import opened Triangular
  import opened SecretFormat
  import opened GrayscaleImages

  class SecretImage {
    var width: int
    var height: int
    var upper: array<int>
    var lower: array<int>

    /** Both arrays have the sizes computed from `width` and are distinct. */
    ghost predicate Valid()
      reads this
    {
      upper.Length == UpperSize(width) && lower.Length == LowerSize(width) && upper != lower
    }

    /** The image the two arrays stand for. */
    ghost function Pixels(): (g: Matrix)
      reads this, upper, lower
      requires Valid() && 0 <= width
      ensures Shaped(g, width, width)
    {
      Rebuild(width, upper[..], lower[..])
    }

    /** Splits a square image: every cell on or above the diagonal goes to
        `upper`, every cell below it to `lower`, each in row-major order. */
    constructor FromImage(image: GrayscaleImage)
      requires image.Valid() && image.width == image.height
      ensures Valid() && fresh(upper) && fresh(lower)
      ensures width == image.width && height == image.height
      ensures upper[..] == Upper(image.Cells(), width) && lower[..] == Lower(image.Cells(), width)
    {
      var n := image.width;
      var u := new int[UpperSize(n)];
      var lo := new int[LowerSize(n)];
      Walk(image, n, u, lo);
      width, height, upper, lower := n, n, u, lo;
    }

    /** The split constructor with its check: a non-square image is refused
        before anything is allocated. */
    static method Split(image: GrayscaleImage) returns (r: Result<SecretImage>)
      requires image.Valid()
      ensures image.width != image.height ==> r == Err(NotSquare)
      ensures image.width == image.height ==>
                r.Ok? && fresh(r.value) && fresh(r.value.upper) && fresh(r.value.lower) && r.value.Valid()
                && r.value.width == image.width && r.value.height == image.height
                && r.value.upper[..] == Upper(image.Cells(), image.width)
                && r.value.lower[..] == Lower(image.Cells(), image.width)
    {
      if image.width != image.height {
        return Err(NotSquare);
      }
      var s := new SecretImage.FromImage(image);
      return Ok(s);
    }

    /** Takes ownership of two arrays read from a file. */
    constructor FromArrays(w: int, h: int, upper: array<int>, lower: array<int>)
      requires upper.Length == UpperSize(w) && lower.Length == LowerSize(w) && upper != lower
      ensures Valid()
      ensures width == w && height == h && this.upper == upper && this.lower == lower
    {
      width, height := w, h;
      this.upper, this.lower := upper, lower;
    }

    /** Rebuilds the full image into fresh storage, reading `upper` for cells
        on or above the diagonal and `lower` below it, each with its own
        cursor. The result is the one image whose split is these arrays. */
    method Reconstruct() returns (image: GrayscaleImage)
      requires Valid() && 0 <= width == height
      ensures fresh(image) && fresh(image.data) && image.Valid()
      ensures image.width == width && image.height == height
      ensures image.Cells() == Pixels()
      ensures Upper(image.Cells(), width) == upper[..] && Lower(image.Cells(), width) == lower[..]
    {
      var n: nat := width;
      image := new GrayscaleImage.Blank(width, height);
      ghost var us, ls := upper[..], lower[..];
      CursorsEndAtSizes(n);
      var k, l := 0, 0;
      var i := 0;
      while i < n
        invariant 0 <= i <= n
        invariant fresh(image) && fresh(image.data) && image.Valid() && image.width == n && image.height == n
        invariant k == UpperStart(n, i) && l == LowerStart(i)
        invariant forall r, c :: 0 <= r < i && 0 <= c < n ==> image.data[r, c] == RebuildCell(n, us, ls, r, c)
      {
        k, l := RebuildRow(image, i, k, l);
        i := i + 1;
      }
      MatrixExt(image.Cells(), Rebuild(n, us, ls), n, n);
      SplitOfRebuild(n, us, ls);
    }

    /** One row `i` of the reconstruction: cells on or right of the diagonal
        come from `upper` at cursor `k`, the others from `lower` at cursor `l`. */
    method RebuildRow(image: GrayscaleImage, i: nat, k0: nat, l0: nat) returns (k: nat, l: nat)
      requires Valid() && 0 <= width == height && i < width
      requires image.Valid() && image.width == width && image.height == width
      requires k0 == UpperStart(width, i) && l0 == LowerStart(i)
      requires forall r, c :: 0 <= r < i && 0 <= c < width ==>
                 image.data[r, c] == RebuildCell(width, upper[..], lower[..], r, c)
      modifies image.data
      ensures image.Valid()
      ensures k == UpperStart(width, i + 1) && l == LowerStart(i + 1)
      ensures forall r, c :: 0 <= r < i + 1 && 0 <= c < width ==>
                image.data[r, c] == RebuildCell(width, upper[..], lower[..], r, c)
    {
      var n: nat := width;
      ghost var us, ls := upper[..], lower[..];
      k, l := k0, l0;
      var j := 0;
      while j < n
        invariant 0 <= j <= n
        invariant image.Valid()
        invariant k == UpperStart(n, i) + (if j > i then j - i else 0)
        invariant l == LowerStart(i) + Min(i, j)
        invariant forall r, c :: 0 <= r < n && 0 <= c < n && (r < i || (r == i && c < j)) ==>
                    image.data[r, c] == RebuildCell(n, us, ls, r, c)
      {
        IndicesInBounds(n, i, j);
        if j >= i {
          image.SetPixel(i, j, upper[k]);
          k := k + 1;
        } else {
          image.SetPixel(i, j, lower[l]);
          l := l + 1;
        }
        assert image.data[i, j] == RebuildCell(n, us, ls, i, j);
        j := j + 1;
      }
    }

    /** Refreshes both arrays from an image (typically a filtered
        reconstruction), walking its top-left `width` x `width` corner with
        the split's rule. Dimensions are not changed. */
    method SaveBack(image: GrayscaleImage)
      requires Valid() && 0 <= width == height
      requires image.Valid() && image.height >= width && image.width >= height
      modifies upper, lower
      ensures Valid() && Covers(image.Cells(), width)
      ensures upper[..] == Upper(image.Cells(), width) && lower[..] == Lower(image.Cells(), width)
    {
      Walk(image, width, upper, lower);
    }

    /** The row-major walk shared by the split constructor and `save_back`:
        cursor `k` advances through `u` for every cell with `j >= i`, cursor
        `l` through `lo` for every cell with `j < i`. */
    static method Walk(image: GrayscaleImage, n: nat, u: array<int>, lo: array<int>)
      requires image.Valid() && image.height >= n && image.width >= n
      requires u.Length == UpperSize(n) && lo.Length == LowerSize(n) && u != lo
      modifies u, lo
      ensures Covers(image.Cells(), n)
      ensures u[..] == Upper(image.Cells(), n) && lo[..] == Lower(image.Cells(), n)
    {
      ghost var g := image.Cells();
      assert Covers(g, n) && Holds(image, g, n);
      CursorsEndAtSizes(n);
      var k, l := 0, 0;
      var i := 0;
      while i < n
        invariant 0 <= i <= n
        invariant k == UpperStart(n, i) <= u.Length && l == LowerStart(i) <= lo.Length
        invariant u[..k] == UpperPart(g, n, i) && lo[..l] == LowerPart(g, n, i)
      {
        UpperStartMono(n, i + 1, n);
        LowerStartMono(i + 1, n);
        k, l := WalkRow(image, g, n, i, u, lo, k, l);
        i := i + 1;
      }
      assert u[..] == u[..k] && lo[..] == lo[..l];
    }

    /** One row `i` of the walk: the cells right of the diagonal go on
        from cursor `k` in `u`, the cells left of it from cursor `l` in `lo`. */
    static method WalkRow(image: GrayscaleImage, ghost g: Matrix, n: nat, i: nat, u: array<int>, lo: array<int>,
                          k0: nat, l0: nat) returns (k: nat, l: nat)
      requires image.Valid() && image.height >= n && image.width >= n && i < n
      requires Covers(g, n) && Holds(image, g, n) && u != lo
      requires k0 == UpperStart(n, i) && UpperStart(n, i + 1) <= u.Length
      requires l0 == LowerStart(i) && LowerStart(i + 1) <= lo.Length
      requires u[..k0] == UpperPart(g, n, i)
      requires lo[..l0] == LowerPart(g, n, i)
      modifies u, lo
      ensures k == UpperStart(n, i + 1) && l == LowerStart(i + 1)
      ensures u[..k] == UpperPart(g, n, i + 1)
      ensures lo[..l] == LowerPart(g, n, i + 1)
    {
      ghost var up, lp := UpperPart(g, n, i), LowerPart(g, n, i);
      k, l := k0, l0;
      var j := 0;
      while j < n
        invariant 0 <= j <= n
        invariant k == k0 + (if j > i then j - i else 0) && l == l0 + Min(i, j)
        invariant u[..k] == up + g[i][Min(i, j)..j]
        invariant lo[..l] == lp + g[i][..Min(i, j)]
      {
        k, l := WalkCell(image, g, n, i, j, u, lo, k, l, up, lp);
        j := j + 1;
      }
    }

    /** One cell `(i, j)` of the walk: it goes to `u` at cursor `k` when
        `j >= i`, to `lo` at cursor `l` otherwise, and that cursor moves on. */
    static method WalkCell(image: GrayscaleImage, ghost g: Matrix, n: nat, i: nat, j: nat,
                           u: array<int>, lo: array<int>,
                           k0: nat, l0: nat, ghost up: seq<int>, ghost lp: seq<int>) returns (k: nat, l: nat)
      requires image.Valid() && image.height >= n && image.width >= n && i < n && j < n
      requires Covers(g, n) && Holds(image, g, n) && u != lo
      requires j >= i ==> k0 < u.Length
      requires j < i ==> l0 < lo.Length
      requires k0 <= u.Length && u[..k0] == up + g[i][Min(i, j)..j]
      requires l0 <= lo.Length && lo[..l0] == lp + g[i][..Min(i, j)]
      modifies u, lo
      ensures k == k0 + (if j >= i then 1 else 0) && l == l0 + (if j < i then 1 else 0)
      ensures u[..k] == up + g[i][Min(i, j + 1)..j + 1]
      ensures lo[..l] == lp + g[i][..Min(i, j + 1)]
    {
      k, l := k0, l0;
      if j >= i {
        UpperRowStep(g, n, up, i, j);
        Put(u, k, image.data[i, j]);
        k := k + 1;
      } else {
        LowerRowStep(g, n, lp, i, j);
        Put(lo, l, image.data[i, j]);
        l := l + 1;
      }
    }

    /** Writes `v` at cursor `k`: the first `k + 1` cells are then the
        first `k` ones followed by `v`. */
    static method Put(a: array<int>, k: nat, v: int)
      requires k < a.Length
      modifies a
      ensures a[..k + 1] == old(a[..k]) + [v]
    {
      a[k] := v;
      assert a[..k + 1] == old(a[..k]) + [v];
    }

    /** The text `save_to_file` writes: `width height`, then the upper values,
        then the lower values, each line ending in a newline. */
    method SaveToFile() returns (text: string)
      requires Valid()
      ensures text == Format(width, height, upper[..], lower[..])
    {
      var upperLine := WriteLine(upper);
      var lowerLine := WriteLine(lower);
      text := IntText(width) + " " + IntText(height) + "\n" + upperLine + "\n" + lowerLine + "\n";
      FormatInOrder(width, height, upper[..], lower[..]);
    }

    /** One value line of the file: the values in order, one space between
        two neighbours, none after the last. */
    static method WriteLine(vs: array<int>) returns (line: string)
      ensures line == Joined(vs[..])
    {
      line := "";
      var i := 0;
      while i < vs.Length
        invariant 0 <= i <= vs.Length
        invariant line == Partial(vs[..], i)
      {
        PartialStep(vs[..], i);
        line := line + IntText(vs[i]) + (if i == vs.Length - 1 then "" else " ");
        i := i + 1;
      }
      assert vs[..vs.Length] == vs[..];
    }

    /** Reads a secret image from the text of its file: `w` and `h`, then
        `UpperSize(w)` upper values and `LowerSize(w)` lower values. Refused
        as `Truncated` when the text ends, or holds a non-number, too early. */
    static method LoadFromFile(text: string) returns (r: Result<SecretImage>)
      ensures Parse(text).None? ==> r == Err(Truncated)
      ensures Parse(text).Some? ==>
                r.Ok? && fresh(r.value) && fresh(r.value.upper) && fresh(r.value.lower) && r.value.Valid()
                && r.value.width == Parse(text).value.width && r.value.height == Parse(text).value.height
                && r.value.upper[..] == Parse(text).value.upper && r.value.lower[..] == Parse(text).value.lower
    {
      var first := ReadInt(text);
      if first.None? {
        return Err(Truncated);
      }
      var w := first.value.0;
      var second := ReadInt(first.value.1);
      if second.None? {
        return Err(Truncated);
      }
      var h := second.value.0;
      var afterHeader := second.value.1;
      var u, afterUpper, upperOk := ReadValues(afterHeader, UpperSize(w));
      if !upperOk {
        ParseFailsInUpper(text, w, first.value.1, h, afterHeader);
        return Err(Truncated);
      }
      var lo, afterLower, lowerOk := ReadValues(afterUpper, LowerSize(w));
      if !lowerOk {
        ParseFailsInLower(text, w, first.value.1, h, afterHeader, u[..], afterUpper);
        return Err(Truncated);
      }
      ParseSteps(text, w, first.value.1, h, afterHeader, u[..], afterUpper, lo[..]);
      var s := new SecretImage.FromArrays(w, h, u, lo);
      return Ok(s);
    }

    /** Reads `count` values into a new array, as the loops of
        `load_from_file` do; `ok` is false when the text runs out first. */
    static method ReadValues(text: string, count: nat) returns (a: array<int>, rest: string, ok: bool)
      ensures fresh(a) && a.Length == count
      ensures ok <==> ReadInts(text, count).Some?
      ensures ok ==> ReadInts(text, count) == Some((a[..], rest))
    {
      a := new int[count];
      rest := text;
      ghost var done: seq<int> := [];
      PrependNothing(ReadInts(text, count));
      var i := 0;
      while i < count
        invariant 0 <= i <= count && |done| == i
        invariant a[..i] == done
        invariant ReadInts(text, count) == Prepend(done, ReadInts(rest, count - i))
      {
        var next := ReadInt(rest);
        if next.None? {
          ReadFails(done, rest, count - i);
          return a, rest, false;
        }
        ReadOneMore(ReadInts(text, count), done, rest, count - i, next.value.0, next.value.1);
        a[i] := next.value.0;
        done := done + [next.value.0];
        rest := next.value.1;
        i := i + 1;
      }
      assert a[..] == a[..count];
      ReadDone(done, rest, text, count);
      ok := true;
    }
  }

  /** The top-left `n` x `n` corner of `image` holds the cells of `g`. */
  ghost predicate Holds(image: GrayscaleImage, g: Matrix, n: nat)
    reads image, image.data
    requires Covers(g, n)
  {
    image.Valid() && image.height >= n && image.width >= n
    && forall r, c :: 0 <= r < n && 0 <= c < n ==> image.data[r, c] == g[r][c]
  }

  /** Values read so far in front of the outcome of the reads still to come. */
  ghost function Prepend(done: seq<int>, later: Option<(seq<int>, string)>): Option<(seq<int>, string)> {
    if later.None? then None else Some((done + later.value.0, later.value.1))
  }

  lemma PrependNothing(later: Option<(seq<int>, string)>)
    ensures Prepend([], later) == later
  {
    if later.Some? {
      assert [] + later.value.0 == later.value.0;
    }
  }

  /** One successful read moves its value from the reads to come to the
      values read so far. */
  lemma ReadOneMore(outcome: Option<(seq<int>, string)>, done: seq<int>, s: string, count: nat, v: int, rest: string)
    requires count > 0 && ReadInt(s) == Some((v, rest))
    requires outcome == Prepend(done, ReadInts(s, count))
    ensures outcome == Prepend(done + [v], ReadInts(rest, count - 1))
  {
    var later := ReadInts(rest, count - 1);
    if later.Some? {
      assert done + ([v] + later.value.0) == done + [v] + later.value.0;
    }
  }

  /** Once no reads remain, the values read so far are the whole outcome. */
  lemma ReadDone(done: seq<int>, rest: string, text: string, count: nat)
    requires ReadInts(text, count) == Prepend(done, ReadInts(rest, 0))
    ensures ReadInts(text, count) == Some((done, rest))
  {
    assert done + [] == done;
  }

  lemma ReadFails(done: seq<int>, s: string, count: nat)
    requires count > 0 && ReadInt(s).None?
    ensures Prepend(done, ReadInts(s, count)) == None
  {
  }

  lemma ParseFailsInUpper(text: string, w: int, r1: string, h: int, r2: string)
    requires ReadInt(text) == Some((w, r1)) && ReadInt(r1) == Some((h, r2))
    requires ReadInts(r2, UpperSize(w)).None?
    ensures Parse(text).None?
  {
  }

  lemma ParseFailsInLower(text: string, w: int, r1: string, h: int, r2: string, u: seq<int>, r3: string)
    requires ReadInt(text) == Some((w, r1)) && ReadInt(r1) == Some((h, r2))
    requires ReadInts(r2, UpperSize(w)) == Some((u, r3))
    requires ReadInts(r3, LowerSize(w)).None?
    ensures Parse(text).None?
  {
  }
}
