/** The in-memory part of `GrayscaleImage`: a `height` x `width` grid of
    integer intensities stored row-major in `data` (the source's `int** data`),
    its constructors, pixel access, structural equality and the clamping
    `+`/`-` operators, which overwrite their left operand. */
module GrayscaleImages {
  import opened Grid
  import opened Outcomes

  class GrayscaleImage {
    var width: nat
    var height: nat
    var data: array2<int>

    /** `data` has `height` rows and `width` columns. */
    ghost predicate Valid()
      reads this
    {
      data.Length0 == height && data.Length1 == width
    }

    /** The pixels as a matrix of rows. */
    ghost function Cells(): (m: Matrix)
      reads this, data
      requires Valid()
      ensures Shaped(m, height, width)
      ensures forall i, j :: 0 <= i < height && 0 <= j < width ==> m[i][j] == data[i, j]
    {
      var a, h, w := data, height, width;
      seq(h, i requires 0 <= i < h reads a =>
        seq(w, j requires 0 <= j < w reads a => a[i, j]))
    }

    /** Copies the top-left `h` x `w` corner of a caller-supplied matrix
        (note the argument order: rows first). */
    constructor FromMatrix(input: Matrix, h: nat, w: nat)
      requires |input| >= h && forall i :: 0 <= i < h ==> |input[i]| >= w
      ensures Valid() && fresh(data)
      ensures width == w && height == h
      ensures forall i, j :: 0 <= i < h && 0 <= j < w ==> data[i, j] == input[i][j]
    {
      var a := new int[h, w];
      var i := 0;
      while i < h
        invariant 0 <= i <= h
        invariant forall r, c :: 0 <= r < i && 0 <= c < w ==> a[r, c] == input[r][c]
      {
        var j := 0;
        while j < w
          invariant 0 <= j <= w
          invariant forall r, c :: 0 <= r < i && 0 <= c < w ==> a[r, c] == input[r][c]
          invariant forall c :: 0 <= c < j ==> a[i, c] == input[i][c]
        {
          a[i, j] := input[i][j];
          j := j + 1;
        }
        i := i + 1;
      }
      width, height, data := w, h, a;
    }

    /** A blank `w` x `h` image: every pixel is 0. */
    constructor Blank(w: nat, h: nat)
      ensures Valid() && fresh(data)
      ensures width == w && height == h
      ensures forall i, j :: 0 <= i < h && 0 <= j < w ==> data[i, j] == 0
    {
      var a := new int[h, w];
      var i := 0;
      while i < h
        invariant 0 <= i <= h
        invariant forall r, c :: 0 <= r < i && 0 <= c < w ==> a[r, c] == 0
      {
        var j := 0;
        while j < w
          invariant 0 <= j <= w
          invariant forall r, c :: 0 <= r < i && 0 <= c < w ==> a[r, c] == 0
          invariant forall c :: 0 <= c < j ==> a[i, c] == 0
        {
          a[i, j] := 0;
          j := j + 1;
        }
        i := i + 1;
      }
      width, height, data := w, h, a;
    }

    /** A deep copy: same size, same pixels, its own storage. */
    constructor Copy(other: GrayscaleImage)
      requires other.Valid()
      ensures Valid() && fresh(data)
      ensures width == other.width && height == other.height
      ensures Cells() == other.Cells()
    {
      var w, h := other.width, other.height;
      var a := new int[h, w];
      var i := 0;
      while i < h
        invariant 0 <= i <= h
        invariant forall r, c :: 0 <= r < i && 0 <= c < w ==> a[r, c] == other.data[r, c]
      {
        var j := 0;
        while j < w
          invariant 0 <= j <= w
          invariant forall r, c :: 0 <= r < i && 0 <= c < w ==> a[r, c] == other.data[r, c]
          invariant forall c :: 0 <= c < j ==> a[i, c] == other.data[i, c]
        {
          a[i, j] := other.data[i, j];
          j := j + 1;
        }
        i := i + 1;
      }
      width, height, data := w, h, a;
      new;
      MatrixExt(Cells(), other.Cells(), h, w);
    }

    /** The intensity at row `row`, column `col`. */
    function GetPixel(row: int, col: int): (v: int)
      reads this, data
      requires Valid() && 0 <= row < height && 0 <= col < width
      ensures v == Cells()[row][col]
    {
      data[row, col]
    }

    /** Overwrites one pixel; every other pixel keeps its value. */
    method SetPixel(row: int, col: int, value: int)
      requires Valid() && 0 <= row < height && 0 <= col < width
      modifies data
      ensures Valid()
      ensures data[row, col] == value
      ensures forall i, j :: 0 <= i < height && 0 <= j < width && (i != row || j != col) ==>
                data[i, j] == old(data[i, j])
    {
      data[row, col] := value;
    }

    /** `operator==`: true exactly when both images have the same size and
        agree on every pixel. */
    method Equals(other: GrayscaleImage) returns (eq: bool)
      requires Valid() && other.Valid()
      ensures eq <==> width == other.width && height == other.height && Cells() == other.Cells()
    {
      if width != other.width || height != other.height {
        return false;
      }
      var i := 0;
      while i < height
        invariant 0 <= i <= height
        invariant forall r, c :: 0 <= r < i && 0 <= c < width ==> data[r, c] == other.data[r, c]
      {
        var j := 0;
        while j < width
          invariant 0 <= j <= width
          invariant forall r, c :: 0 <= r < i && 0 <= c < width ==> data[r, c] == other.data[r, c]
          invariant forall c :: 0 <= c < j ==> data[i, c] == other.data[i, c]
        {
          if data[i, j] != other.data[i, j] {
            assert Cells()[i][j] != other.Cells()[i][j];
            return false;
          }
          j := j + 1;
        }
        i := i + 1;
      }
      MatrixExt(Cells(), other.Cells(), height, width);
      return true;
    }

    /** `operator+`: refuses images of different sizes without touching a
        pixel; otherwise replaces every pixel of this image by the clamped sum
        with the corresponding pixel of `other` and returns a copy of the
        result. `other` changes only when it shares this image's storage. */
    method Add(other: GrayscaleImage) returns (r: Result<GrayscaleImage>)
      requires Valid() && other.Valid()
      modifies data
      ensures Valid()
      ensures width != other.width || height != other.height ==>
                r == Err(DimensionMismatch) && unchanged(data)
      ensures width == other.width && height == other.height ==>
                (forall i, j :: 0 <= i < height && 0 <= j < width ==>
                   data[i, j] == Clamp(old(data[i, j]) + old(other.data[i, j])))
                && r.Ok? && fresh(r.value) && fresh(r.value.data) && r.value.Valid()
                && r.value.width == width && r.value.height == height
                && r.value.Cells() == Cells()
      ensures other.data != data ==> unchanged(other.data)
    {
      if width != other.width || height != other.height {
        return Err(DimensionMismatch);
      }
      var i := 0;
      while i < height
        invariant 0 <= i <= height
        invariant forall r, c :: 0 <= r < height && 0 <= c < width ==>
                    data[r, c] == if r < i then Clamp(old(data[r, c]) + old(other.data[r, c])) else old(data[r, c])
        invariant other.data != data ==> unchanged(other.data)
      {
        var j := 0;
        while j < width
          invariant 0 <= j <= width
          invariant forall r, c :: 0 <= r < height && 0 <= c < width ==>
                      data[r, c] == if r < i || (r == i && c < j)
                                    then Clamp(old(data[r, c]) + old(other.data[r, c]))
                                    else old(data[r, c])
          invariant other.data != data ==> unchanged(other.data)
        {
          data[i, j] := Clamp(data[i, j] + other.data[i, j]);
          j := j + 1;
        }
        i := i + 1;
      }
      var copy := new GrayscaleImage.Copy(this);
      return Ok(copy);
    }

    /** `operator-`: as `Add`, with the clamped difference. */
    method Subtract(other: GrayscaleImage) returns (r: Result<GrayscaleImage>)
      requires Valid() && other.Valid()
      modifies data
      ensures Valid()
      ensures width != other.width || height != other.height ==>
                r == Err(DimensionMismatch) && unchanged(data)
      ensures width == other.width && height == other.height ==>
                (forall i, j :: 0 <= i < height && 0 <= j < width ==>
                   data[i, j] == Clamp(old(data[i, j]) - old(other.data[i, j])))
                && r.Ok? && fresh(r.value) && fresh(r.value.data) && r.value.Valid()
                && r.value.width == width && r.value.height == height
                && r.value.Cells() == Cells()
      ensures other.data != data ==> unchanged(other.data)
    {
      if width != other.width || height != other.height {
        return Err(DimensionMismatch);
      }
      var i := 0;
      while i < height
        invariant 0 <= i <= height
        invariant forall r, c :: 0 <= r < height && 0 <= c < width ==>
                    data[r, c] == if r < i then Clamp(old(data[r, c]) - old(other.data[r, c])) else old(data[r, c])
        invariant other.data != data ==> unchanged(other.data)
      {
        var j := 0;
        while j < width
          invariant 0 <= j <= width
          invariant forall r, c :: 0 <= r < height && 0 <= c < width ==>
                      data[r, c] == if r < i || (r == i && c < j)
                                    then Clamp(old(data[r, c]) - old(other.data[r, c]))
                                    else old(data[r, c])
          invariant other.data != data ==> unchanged(other.data)
        {
          data[i, j] := Clamp(data[i, j] - other.data[i, j]);
          j := j + 1;
        }
        i := i + 1;
      }
      var copy := new GrayscaleImage.Copy(this);
      return Ok(copy);
    }
  }
}
