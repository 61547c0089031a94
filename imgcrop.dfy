/**
  The crop-to-fit geometry of `crop` in imgcrop.py: from the size of a source
  image and a target shape, the uniform scale factor, the size the image is
  resized to, and the box that is then cut out of the resized image.

  Floating-point ratios and products are modelled as exact `real`s; the
  source's `int(...)` of a positive product is `.Floor`. The padding
  `(resized - target) / 2` is Python 2 integer division, which floors, as
  Dafny's `/` by a positive constant does.
*/
module ImgCrop {
  import opened Arith

  /** The index `dim_compare` into a `(width, height)` pair: 0 is Width, 1 is Height. */
  datatype Axis = Width | Height

  /** An image size or a target shape, `(width, height)` in pixels. */
  datatype Dims = Dims(width: int, height: int) {
    predicate Positive() {
      width > 0 && height > 0
    }

    /** The component `shape[dim_compare]`. */
    function Along(axis: Axis): int {
      match axis
      case Width => width
      case Height => height
    }
  }

  /** A crop box `(left, upper, right, lower)` in the coordinates of the resized image. */
  datatype Box = Box(left: int, top: int, right: int, bottom: int)

  /** What `crop` computes before it calls into the image library. */
  datatype Geometry = Geometry(scale: real, resized: Dims, box: Box)

  function Ratio(d: Dims): real
    requires d.height > 0
  {
    d.width as real / d.height as real
  }

  function Max(x: real, y: real): real {
    if x >= y then x else y
  }

  /**
    The axis the scale is taken from: the height when the source is
    relatively wider than the target, otherwise (equal ratios included) the width.
  */
  function LimitingAxis(source: Dims, target: Dims): (axis: Axis)
    requires source.Positive() && target.Positive()
    ensures axis == Height <==> source.width * target.height > target.width * source.height
  {
    RatioOrder(source.width, source.height, target.width, target.height);
    if Ratio(source) > Ratio(target) then Height else Width
  }

  /**
    The one scale factor applied to both dimensions: target over source on
    the limiting axis. It is the larger of the two per-axis ratios.
  */
  function ScaleFactor(source: Dims, target: Dims): (s: real)
    requires source.Positive() && target.Positive()
    ensures s > 0.0
    ensures s == Max(target.width as real / source.width as real,
                     target.height as real / source.height as real)
  {
    RatioOrder(target.height, source.height, target.width, source.width);
    var axis := LimitingAxis(source, target);
    target.Along(axis) as real / source.Along(axis) as real
  }

  /**
    The size passed to `resize`: each source dimension times the scale,
    truncated. In integers this is `(T * x) / S`, with `S` and `T` the
    source and target sizes on the limiting axis.
  */
  function ResizedDims(source: Dims, target: Dims): (r: Dims)
    requires source.Positive() && target.Positive()
    ensures var axis := LimitingAxis(source, target);
            var S, T := source.Along(axis), target.Along(axis);
            r.width == (T * source.width) / S && r.height == (T * source.height) / S
  {
    var s := ScaleFactor(source, target);
    var axis := LimitingAxis(source, target);
    var S, T := source.Along(axis), target.Along(axis);
    assert s * source.width as real == (T * source.width) as real / S as real;
    assert s * source.height as real == (T * source.height) as real / S as real;
    FloorOfQuotient(T * source.width, S);
    FloorOfQuotient(T * source.height, S);
    Dims((s * source.width as real).Floor, (s * source.height as real).Floor)
  }

  /** Half the surplus of one axis, as Python 2 integer division rounds it. */
  function Padding(resized: int, target: int): (p: int)
    ensures 2 * p <= resized - target <= 2 * p + 1
    ensures resized >= target ==> p >= 0
  {
    (resized - target) / 2
  }

  /** The box cut out of the resized image: padding on the left and top, the target size across. */
  function CropBox(resized: Dims, target: Dims): (b: Box)
    ensures b.right - b.left == target.width && b.bottom - b.top == target.height
    ensures b.left <= resized.width - b.right <= b.left + 1
    ensures b.top <= resized.height - b.bottom <= b.top + 1
  {
    var horizontal := Padding(resized.width, target.width);
    var vertical := Padding(resized.height, target.height);
    Box(horizontal, vertical, horizontal + target.width, vertical + target.height)
  }

  /**
    The geometry of `crop(image, new_shape)` for an image of size `source`:
    the box has exactly the target size and lies inside the resized image.
  */
  function Crop(source: Dims, target: Dims): (g: Geometry)
    requires source.Positive() && target.Positive()
    ensures g.box.right - g.box.left == target.width
    ensures g.box.bottom - g.box.top == target.height
    ensures 0 <= g.box.left && g.box.right <= g.resized.width
    ensures 0 <= g.box.top && g.box.bottom <= g.resized.height
  {
    ResizedCoversTarget(source, target);
    var resized := ResizedDims(source, target);
    Geometry(ScaleFactor(source, target), resized, CropBox(resized, target))
  }

  /**
    The resized image matches the target exactly on the limiting axis and is
    at least as large as the target on both axes.
  */
  lemma ResizedCoversTarget(source: Dims, target: Dims)
    requires source.Positive() && target.Positive()
    ensures var r, axis := ResizedDims(source, target), LimitingAxis(source, target);
            r.Along(axis) == target.Along(axis)
    ensures var r := ResizedDims(source, target);
            r.width >= target.width && r.height >= target.height
  {
    var w, h, tw, th := source.width, source.height, target.width, target.height;
    if LimitingAxis(source, target) == Height {
      DivExact(th * h, h, th);
      DivAtLeast(th * w, h, tw);
    } else {
      DivExact(tw * w, w, tw);
      DivAtLeast(tw * h, w, th);
    }
  }

  /** On the limiting axis nothing is cut: the padding there is zero. */
  lemma NoPaddingOnLimitingAxis(source: Dims, target: Dims)
    requires source.Positive() && target.Positive()
    ensures var g := Crop(source, target);
            if LimitingAxis(source, target) == Height
            then g.box.top == 0 && g.box.bottom == g.resized.height
            else g.box.left == 0 && g.box.right == g.resized.width
  {
    ResizedCoversTarget(source, target);
  }

  /** The box is centred: the margins on either side of an axis differ by at most one pixel. */
  lemma CropCentred(source: Dims, target: Dims)
    requires source.Positive() && target.Positive()
    ensures var g := Crop(source, target);
            g.box.left <= g.resized.width - g.box.right <= g.box.left + 1
    ensures var g := Crop(source, target);
            g.box.top <= g.resized.height - g.box.bottom <= g.box.top + 1
  {
  }

  /** A scale `k` covers the target when scaling the source by it reaches the target on both axes. */
  ghost predicate Covers(k: real, source: Dims, target: Dims) {
    k * source.width as real >= target.width as real
    && k * source.height as real >= target.height as real
  }

  /**
    The chosen scale is the smallest uniform scale that covers the target:
    a scale covers it exactly when it is at least the chosen one.
  */
  lemma ScaleIsSmallestCover(source: Dims, target: Dims, k: real)
    requires source.Positive() && target.Positive()
    ensures Covers(k, source, target) <==> k >= ScaleFactor(source, target)
  {
    var w, h := source.width as real, source.height as real;
    var tw, th := target.width as real, target.height as real;
    AtLeastQuotient(k, tw, w);
    AtLeastQuotient(k, th, h);
  }

  /**
    One scale for both axes keeps the source proportions up to the
    truncation: the cross products of resized and source sizes differ by
    less than one source dimension.
  */
  lemma ProportionsKept(source: Dims, target: Dims)
    requires source.Positive() && target.Positive()
    ensures var r := ResizedDims(source, target);
            -source.height < r.width * source.height - r.height * source.width < source.width
  {
    var r := ResizedDims(source, target);
    var axis := LimitingAxis(source, target);
    var S, T := source.Along(axis), target.Along(axis);
    assert T * source.width == S * r.width + (T * source.width) % S;
    assert T * source.height == S * r.height + (T * source.height) % S;
    TruncatedCrossBelow(S, T, source.width, source.height, r.width, r.height);
    TruncatedCrossBelow(S, T, source.height, source.width, r.height, r.width);
  }

  /**
    When source and target have the same proportions, the image is only
    scaled: it is resized to exactly the target and nothing is cropped.
  */
  lemma EqualRatiosNoCrop(source: Dims, target: Dims)
    requires source.Positive() && target.Positive()
    requires source.width * target.height == target.width * source.height
    ensures var g := Crop(source, target);
            g.resized == target && g.box == Box(0, 0, target.width, target.height)
    ensures ScaleFactor(source, target) == target.width as real / source.width as real
  {
    var w, h, tw, th := source.width, source.height, target.width, target.height;
    assert LimitingAxis(source, target) == Width;
    DivExact(tw * w, w, tw);
    DivExact(tw * h, w, th);
  }

  /** A source twice as wide as high, cut to a square: resized 20x10, box (5, 0, 15, 10). */
  lemma WideSourceExample()
    ensures Crop(Dims(200, 100), Dims(10, 10)) == Geometry(0.1, Dims(20, 10), Box(5, 0, 15, 10))
  {
    assert LimitingAxis(Dims(200, 100), Dims(10, 10)) == Height;
    assert ResizedDims(Dims(200, 100), Dims(10, 10)) == Dims(20, 10);
  }

  /** A source twice as high as wide, cut to a square: resized 10x20, box (0, 5, 10, 15). */
  lemma TallSourceExample()
    ensures Crop(Dims(100, 200), Dims(10, 10)) == Geometry(0.1, Dims(10, 20), Box(0, 5, 10, 15))
  {
    assert LimitingAxis(Dims(100, 200), Dims(10, 10)) == Width;
    assert ResizedDims(Dims(100, 200), Dims(10, 10)) == Dims(10, 20);
  }
}
