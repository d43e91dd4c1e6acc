/**
 The integer part of `ImagePatches._split_image_into_patches`
 (examples/cross_attention_vis/cross_attention_vis.py): which pixel rectangle of a
 square image each patch takes, and in which order the patches are added. Placing the
 patches on screen is not modelled.
 */
module ImagePatches {
  import opened Results

  /** The pixel rectangle `pixel_array[rowStart:rowEnd, colStart:colEnd]`. */
  datatype Slice = Slice(rowStart: int, rowEnd: int, colStart: int, colEnd: int)

  /** The ways a split can fail. */
  datatype SplitError =
    | NotSquare       // the assertion that the image is square
    | ZeroGridWidth   // `height % 0` raises ZeroDivisionError
    | NotDivisible    // the assertion that grid_width divides the image size

  /** Patch `(i, j)`: rows `[i*pw, (i+1)*pw)` and columns `[j*ph, (j+1)*ph)`. */
  function PatchSlice(pw: int, ph: int, i: int, j: int): Slice {
    Slice(i * pw, (i + 1) * pw, j * ph, (j + 1) * ph)
  }

  /** The row-major position of patch `(i, j)` in a grid `g` patches wide. */
  function Position(g: nat, i: nat, j: nat): nat {
    i * g + j
  }

  /** Pixel `(r, c)` lies inside the rectangle. */
  predicate Covers(sl: Slice, r: int, c: int) {
    sl.rowStart <= r < sl.rowEnd && sl.colStart <= c < sl.colEnd
  }

  /** The first `len` patches of a grid `g` patches wide, in row-major order. */
  function RowMajor(pw: int, ph: int, g: nat, len: nat): (p: seq<Slice>)
    requires g >= 1
    ensures |p| == len
  {
    seq(len, k requires 0 <= k < len => PatchSlice(pw, ph, k / g, k % g))
  }

  /** `_split_image_into_patches` on an image of `height` by `width` pixels. */
  method SplitImageIntoPatches(height: nat, width: nat, gridWidth: int) returns (r: Result<seq<Slice>, SplitError>)
    ensures height != width ==> r == Err(NotSquare)
    ensures height == width && gridWidth == 0 ==> r == Err(ZeroGridWidth)
    ensures height == width && gridWidth != 0 && height % gridWidth != 0 ==> r == Err(NotDivisible)
    ensures r.Ok? <==> height == width && gridWidth != 0 && height % gridWidth == 0
    ensures r.Ok? && gridWidth < 0 ==> r.value == []
    ensures r.Ok? && gridWidth > 0 ==>
      r.value == RowMajor(width / gridWidth, height / gridWidth, gridWidth, gridWidth * gridWidth)
  {
    if height != width {
      return Err(NotSquare);
    }
    if gridWidth == 0 {
      return Err(ZeroGridWidth);
    }
    if height % gridWidth != 0 {
      return Err(NotDivisible);
    }
    if gridWidth < 0 {
      // range(grid_width) is empty
      return Ok([]);
    }
    var g: nat := gridWidth;
    var patchWidth, patchHeight := width / g, height / g;
    var patches: seq<Slice> := [];
    var i := 0;
    while i < g
      invariant 0 <= i <= g
      invariant patches == RowMajor(patchWidth, patchHeight, g, i * g)
    {
      var j := 0;
      while j < g
        invariant 0 <= j <= g
        invariant patches == RowMajor(patchWidth, patchHeight, g, i * g + j)
      {
        RowMajorIndex(i, j, g);
        RowMajorSnoc(patchWidth, patchHeight, g, i * g + j);
        patches := patches + [PatchSlice(patchWidth, patchHeight, i, j)];
        j := j + 1;
      }
      assert i * g + g == (i + 1) * g;
      i := i + 1;
    }
    return Ok(patches);
  }

  // ---------------------------------------------------------------------------
  // The patches of a successful split tile the image.

  /** Some patch contains pixel `(r, c)`. */
  predicate Covered(p: seq<Slice>, r: int, c: int) {
    exists k :: 0 <= k < |p| && Covers(p[k], r, c)
  }

  /** The `(i*g + j)`-th patch of a grid `g` patches wide is patch `(i, j)`. */
  lemma LayoutAt(pw: nat, g: nat, i: nat, j: nat)
    requires i < g && j < g
    ensures Position(g, i, j) < g * g && RowMajor(pw, pw, g, g * g)[Position(g, i, j)] == PatchSlice(pw, pw, i, j)
  {
    MulMonotone(i + 1, g, g);
    RowMajorIndex(i, j, g);
  }

  /** The `k`-th patch is a `pw` by `pw` rectangle inside the `g*pw` by `g*pw` image. */
  lemma InBoundsAt(pw: nat, g: nat, k: nat)
    requires g >= 1 && k < g * g
    ensures var sl := RowMajor(pw, pw, g, g * g)[k];
      && 0 <= sl.rowStart && sl.rowEnd <= g * pw && sl.rowEnd - sl.rowStart == pw
      && 0 <= sl.colStart && sl.colEnd <= g * pw && sl.colEnd - sl.colStart == pw
  {
    var a, b := k / g, k % g;
    Locate(g, g, k);
    assert RowMajor(pw, pw, g, g * g)[k] == PatchSlice(pw, pw, a, b);
    Band(a, g, pw);
    Band(b, g, pw);
  }

  /** Band `a` of `g` bands of width `pw` spans `[a*pw, (a+1)*pw)` within `[0, g*pw)`. */
  lemma Band(a: nat, g: nat, pw: nat)
    requires a < g
    ensures 0 <= a * pw && (a + 1) * pw <= g * pw && (a + 1) * pw - a * pw == pw
  {
    MulMonotone(a + 1, g, pw);
  }

  /** Pixel `(r, c)` of the `g*pw` by `g*pw` image lies in patch `(r / pw, c / pw)`. */
  lemma CoveredAt(pw: nat, g: nat, r: nat, c: nat)
    requires pw >= 1 && r < g * pw && c < g * pw
    ensures Covered(RowMajor(pw, pw, g, g * g), r, c)
  {
    var a, b := r / pw, c / pw;
    Locate(pw, g, r);
    Locate(pw, g, c);
    LayoutAt(pw, g, a, b);
    var k := Position(g, a, b);
    assert RowMajor(pw, pw, g, g * g)[k] == PatchSlice(pw, pw, a, b);
    assert Covers(PatchSlice(pw, pw, a, b), r, c);
  }

  /** Two patches that share a pixel are the same patch. */
  lemma DisjointAt(pw: nat, g: nat, k1: nat, k2: nat, r: int, c: int)
    requires g >= 1 && k1 < g * g && k2 < g * g
    requires Covers(RowMajor(pw, pw, g, g * g)[k1], r, c) && Covers(RowMajor(pw, pw, g, g * g)[k2], r, c)
    ensures k1 == k2
  {
    PatchOfPixel(pw, g, k1, r, c);
    PatchOfPixel(pw, g, k2, r, c);
    assert k1 == (k1 / g) * g + k1 % g;
    assert k2 == (k2 / g) * g + k2 % g;
  }

  /** A patch containing pixel `(r, c)` sits in grid row `r / pw` and column `c / pw`. */
  lemma PatchOfPixel(pw: nat, g: nat, k: nat, r: int, c: int)
    requires g >= 1 && k < g * g
    requires Covers(RowMajor(pw, pw, g, g * g)[k], r, c)
    ensures k / g == r / pw && k % g == c / pw
  {
    var a, b := k / g, k % g;
    assert RowMajor(pw, pw, g, g * g)[k] == PatchSlice(pw, pw, a, b);
    SliceOf(pw, a, r);
    SliceOf(pw, b, c);
  }

  /** There are `g*g` patches, and patch `(i, j)`, the `(i*g + j)`-th added, is the
      rectangle at rows `[i*pw, (i+1)*pw)` and columns `[j*pw, (j+1)*pw)`, where
      `pw == width / g`. */
  lemma GridLayout(width: nat, g: nat)
    requires g >= 1 && width % g == 0
    ensures var pw := width / g; var p := RowMajor(pw, pw, g, g * g);
      && |p| == g * g
      && forall i, j :: 0 <= i < g && 0 <= j < g ==>
           Position(g, i, j) < |p| && p[Position(g, i, j)] == PatchSlice(pw, pw, i, j)
  {
    var pw := width / g;
    forall i, j | 0 <= i < g && 0 <= j < g
      ensures Position(g, i, j) < g * g && RowMajor(pw, pw, g, g * g)[Position(g, i, j)] == PatchSlice(pw, pw, i, j)
    {
      LayoutAt(pw, g, i, j);
    }
  }

  /** Every patch is a `pw` by `pw` rectangle inside the `width` by `width` image. */
  lemma GridInBounds(width: nat, g: nat)
    requires g >= 1 && width % g == 0
    ensures var pw := width / g; var p := RowMajor(pw, pw, g, g * g);
      forall k :: 0 <= k < |p| ==>
        && 0 <= p[k].rowStart && p[k].rowEnd <= width && p[k].rowEnd - p[k].rowStart == pw
        && 0 <= p[k].colStart && p[k].colEnd <= width && p[k].colEnd - p[k].colStart == pw
  {
    var pw := width / g;
    var p := RowMajor(pw, pw, g, g * g);
    WholeBands(width, g);
    forall k | 0 <= k < |p|
      ensures 0 <= p[k].rowStart && p[k].rowEnd <= width && p[k].rowEnd - p[k].rowStart == pw
      ensures 0 <= p[k].colStart && p[k].colEnd <= width && p[k].colEnd - p[k].colStart == pw
    {
      InBoundsAt(pw, g, k);
    }
  }

  /** Every pixel of the image lies in exactly one patch. */
  lemma GridTilesImage(width: nat, g: nat)
    requires g >= 1 && width % g == 0
    ensures var pw := width / g; var p := RowMajor(pw, pw, g, g * g);
      && (forall r, c :: 0 <= r < width && 0 <= c < width ==> Covered(p, r, c))
      && (forall k1, k2, r, c :: 0 <= k1 < |p| && 0 <= k2 < |p| && Covers(p[k1], r, c) && Covers(p[k2], r, c) ==>
            k1 == k2)
  {
    var pw := width / g;
    var p := RowMajor(pw, pw, g, g * g);
    WholeBands(width, g);
    forall r, c | 0 <= r < width && 0 <= c < width
      ensures Covered(p, r, c)
    {
      CoveredAt(pw, g, r, c);
    }
    forall k1, k2, r, c | 0 <= k1 < |p| && 0 <= k2 < |p| && Covers(p[k1], r, c) && Covers(p[k2], r, c)
      ensures k1 == k2
    {
      DisjointAt(pw, g, k1, k2, r, c);
    }
  }

  // ---------------------------------------------------------------------------
  // Index arithmetic.

  /** A size divisible by `g` is `g` bands of `size / g`. */
  lemma WholeBands(size: nat, g: nat)
    requires g >= 1 && size % g == 0
    ensures size == g * (size / g)
  {
  }

  /** A coordinate below `g*pw` falls in one of the first `g` bands of width `pw`. */
  lemma Locate(pw: nat, g: nat, r: nat)
    requires pw >= 1 && r < g * pw
    ensures r / pw < g && (r / pw) * pw <= r < (r / pw + 1) * pw
  {
    var q := r / pw;
    assert r == q * pw + r % pw;
    if q >= g {
      MulMonotone(g, q, pw);
    }
  }

  /** The band of width `pw` holding coordinate `r` is band `r / pw`. */
  lemma SliceOf(pw: int, a: int, r: int)
    requires a >= 0 && a * pw <= r < (a + 1) * pw
    ensures pw >= 1 && a == r / pw
  {
    var q := r / pw;
    assert r == q * pw + r % pw;
    if q > a {
      MulMonotone(a + 1, q, pw);
    } else if q < a {
      MulMonotone(q + 1, a, pw);
    }
  }

  /** Row-major position `i*g + j` is row `i`, column `j`. */
  lemma RowMajorIndex(i: nat, j: nat, g: nat)
    requires j < g
    ensures (i * g + j) / g == i && (i * g + j) % g == j
  {
    var k := i * g + j;
    var q, m := k / g, k % g;
    assert k == q * g + m;
    if q > i {
      assert q * g >= (i + 1) * g by { MulMonotone(i + 1, q, g); }
    } else if q < i {
      assert i * g >= (q + 1) * g by { MulMonotone(q + 1, i, g); }
    }
  }

  lemma MulMonotone(a: int, b: int, g: nat)
    requires a <= b
    ensures a * g <= b * g
  {
  }

  lemma RowMajorSnoc(pw: int, ph: int, g: nat, len: nat)
    requires g >= 1
    ensures RowMajor(pw, ph, g, len + 1) == RowMajor(pw, ph, g, len) + [PatchSlice(pw, ph, len / g, len % g)]
  {
  }
}
