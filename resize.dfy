/**
 * Dimension arithmetic of the image resizer: the image is shrunk to fit a
 * maximum box, keeping its aspect ratio, and is never enlarged.  The
 * resampling filter itself belongs to the imaging library and is not modelled;
 * only the size of the result is.
 */
module Resize {

  /** The default bounding box. */
  const MaxWidth := 300
  const MaxHeight := 180

  /** Width and height of a raster image, in pixels. */
  datatype Size = Size(width: int, height: int)

  /** Conversion of a number to an integer the way Python's int() does it: truncation toward zero. */
  function Trunc(r: real): (n: int)
    ensures r >= 0.0 ==> n as real <= r < n as real + 1.0
    ensures r < 0.0 ==> n as real - 1.0 < r <= n as real
  {
    if r >= 0.0 then r.Floor else -((-r).Floor)
  }

  /** The smaller of three numbers. */
  function Min3(a: real, b: real, c: real): (m: real)
    ensures m <= a && m <= b && m <= c
    ensures m == a || m == b || m == c
  {
    if a <= b && a <= c then a else if b <= c then b else c
  }

  /** The ratio bound / side, computed by true division as in Python 3. */
  function Ratio(bound: int, side: int): (q: real)
    requires side > 0
    ensures q * side as real == bound as real
    ensures q < 1.0 <==> bound < side
    ensures 0 <= bound ==> q >= 0.0
  {
    RatioFacts(bound, side);
    bound as real / side as real
  }

  lemma RatioFacts(bound: int, side: int)
    requires side > 0
    ensures var q := bound as real / side as real;
      q * side as real == bound as real && (q < 1.0 <==> bound < side) && (0 <= bound ==> q >= 0.0)
  {
    var q, d := bound as real / side as real, side as real;
    assert q * d == bound as real;
    if q < 1.0 {
      MulLt(q, 1.0, d);
    } else {
      MulLe(1.0, q, d);
    }
    if 0 <= bound && q < 0.0 {
      MulLt(q, 0.0, d);
    }
  }

  /** The scale factor: the smaller of the two ratios, capped at 1 so that nothing is enlarged. */
  function Scale(size: Size, maxWidth: int, maxHeight: int): (s: real)
    requires size.width > 0 && size.height > 0
    ensures s <= 1.0
    ensures s * size.width as real <= maxWidth as real
    ensures s * size.height as real <= maxHeight as real
    ensures s < 1.0 <==> size.width > maxWidth || size.height > maxHeight
    ensures 0 <= maxWidth && 0 <= maxHeight ==> s >= 0.0
    ensures s == 1.0 || s * size.width as real == maxWidth as real || s * size.height as real == maxHeight as real
  {
    var a, b := Ratio(maxWidth, size.width), Ratio(maxHeight, size.height);
    MinOfRatios(a, b, size.width as real, size.height as real, maxWidth as real, maxHeight as real);
    Min3(a, b, 1.0)
  }

  /** The real arithmetic of Scale: the smallest of the two ratios and 1. */
  lemma MinOfRatios(a: real, b: real, w: real, h: real, mw: real, mh: real)
    requires w > 0.0 && h > 0.0 && a * w == mw && b * h == mh
    requires (a < 1.0 <==> mw < w) && (b < 1.0 <==> mh < h)
    requires (0.0 <= mw ==> a >= 0.0) && (0.0 <= mh ==> b >= 0.0)
    ensures var s := Min3(a, b, 1.0);
      s * w <= mw && s * h <= mh && (s < 1.0 <==> mw < w || mh < h) &&
      (0.0 <= mw && 0.0 <= mh ==> s >= 0.0) &&
      (s == 1.0 || s * w == mw || s * h == mh)
  {
    var s := Min3(a, b, 1.0);
    MulLe(s, a, w);
    MulLe(s, b, h);
  }

  /**
   * The size of the image that resize_image returns.  An image that already
   * fits is returned as it is; otherwise both sides are multiplied by the scale
   * factor and truncated, so each new side is the floor of the scaled side.
   */
  function ResizeImage(size: Size, maxWidth: int, maxHeight: int): (r: Size)
    requires size.width > 0 && size.height > 0
    ensures r.width <= size.width && r.height <= size.height
    ensures r == size <==> size.width <= maxWidth && size.height <= maxHeight
    ensures r != size ==> r.width < size.width && r.height < size.height
    ensures 0 <= maxWidth && 0 <= maxHeight ==>
      0 <= r.width <= maxWidth && 0 <= r.height <= maxHeight
    ensures r != size && 0 <= maxWidth && 0 <= maxHeight ==>
      var s := Scale(size, maxWidth, maxHeight);
      r.width as real <= size.width as real * s < r.width as real + 1.0 &&
      r.height as real <= size.height as real * s < r.height as real + 1.0
  {
    var s := Scale(size, maxWidth, maxHeight);
    if s < 1.0 then
      ShrunkFits(size.width, s, maxWidth);
      ShrunkFits(size.height, s, maxHeight);
      Size(Shrink(size.width, s), Shrink(size.height, s))
    else
      size
  }

  /** A side whose scaled length fits a bound still fits it once truncated. */
  lemma ShrunkFits(side: int, s: real, bound: int)
    requires side >= 1 && s < 1.0 && s * side as real <= bound as real
    ensures 0 <= bound ==> s >= 0.0 ==> 0 <= Shrink(side, s) <= bound
  {
  }

  /** One side multiplied by a factor below 1 and truncated, as int(side * scale) does. */
  function Shrink(side: int, s: real): (n: int)
    requires side >= 1 && s < 1.0
    ensures n < side
    ensures s >= 0.0 ==> 0 <= n && n as real <= side as real * s < n as real + 1.0
  {
    var x := side as real * s;
    assert x < side as real by {
      var d := 1.0 - s;
      assert side as real * d > 0.0;
      assert x == side as real - side as real * d;
    }
    assert s >= 0.0 ==> x >= 0.0;
    Trunc(x)
  }

  /**
   * The shrunk image keeps the aspect ratio up to the truncation of one pixel
   * on each side: w' * h and h' * w differ by less than one side.
   */
  lemma AspectRatioKept(size: Size, maxWidth: int, maxHeight: int)
    requires size.width > 0 && size.height > 0
    requires 0 <= maxWidth && 0 <= maxHeight
    requires size.width > maxWidth || size.height > maxHeight
    ensures var r := ResizeImage(size, maxWidth, maxHeight);
      -size.height < r.width * size.height - r.height * size.width < size.width
  {
    ShrinkKeepsAspect(size.width, size.height, Scale(size, maxWidth, maxHeight));
  }

  /** Shrinking both sides by the same factor keeps w' * h and h' * w within one side of each other. */
  lemma ShrinkKeepsAspect(width: int, height: int, s: real)
    requires width >= 1 && height >= 1 && 0.0 <= s < 1.0
    ensures -height < Shrink(width, s) * height - Shrink(height, s) * width < width
  {
    var a, b := Shrink(width, s), Shrink(height, s);
    var w, h, nw, nh := width as real, height as real, a as real, b as real;
    TruncatedSide(w, h, s, nw, nh);
    TruncatedSide(h, w, s, nh, nw);
    IntProduct(a, height);
    IntProduct(b, width);
  }

  /** One direction of the aspect bound: nw * h < nh * w + w when nw and nh truncate w * s and h * s. */
  lemma TruncatedSide(w: real, h: real, s: real, nw: real, nh: real)
    requires w > 0.0 && h > 0.0
    requires nw <= w * s && h * s < nh + 1.0
    ensures nw * h < nh * w + w
  {
    MulLe(nw, w * s, h);
    MulLt(h * s, nh + 1.0, w);
    calc {
      nw * h;
    <= (w * s) * h;
    == (h * s) * w;
    <  (nh + 1.0) * w;
    == nh * w + w;
    }
  }

  lemma IntProduct(a: int, b: int)
    ensures (a * b) as real == a as real * b as real
  {
  }

  lemma MulLe(a: real, b: real, c: real)
    requires a <= b && c > 0.0
    ensures a * c <= b * c
  {
  }

  lemma MulLt(a: real, b: real, c: real)
    requires a < b && c > 0.0
    ensures a * c < b * c
  {
  }

  /**
   * A shrunk image fills the box along at least one side: the scale is the
   * ratio of that side to its bound, so the side becomes the bound exactly.
   */
  lemma FillsBox(size: Size, maxWidth: int, maxHeight: int)
    requires size.width > 0 && size.height > 0
    requires 0 <= maxWidth && 0 <= maxHeight
    requires size.width > maxWidth || size.height > maxHeight
    ensures var r := ResizeImage(size, maxWidth, maxHeight);
      r.width == maxWidth || r.height == maxHeight
  {
    var s := Scale(size, maxWidth, maxHeight);
    if s * size.width as real == maxWidth as real {
      ShrinkToBound(size.width, s, maxWidth);
    } else {
      ShrinkToBound(size.height, s, maxHeight);
    }
  }

  /** A side whose scaled length is a whole number shrinks to exactly that number. */
  lemma ShrinkToBound(side: int, s: real, bound: int)
    requires side >= 1 && 0.0 <= s < 1.0 && bound >= 0
    requires s * side as real == bound as real
    ensures Shrink(side, s) == bound
  {
    assert side as real * s == bound as real;
  }

  /**
   * Which side truncates to zero: for a box of at least one pixel each way, an
   * oversize image gets height 0 exactly when its width exceeds maxWidth times
   * its height, and width 0 exactly when its height exceeds maxHeight times its
   * width.
   */
  lemma ZeroSide(size: Size, maxWidth: int, maxHeight: int)
    requires size.width > 0 && size.height > 0
    requires maxWidth >= 1 && maxHeight >= 1
    requires size.width > maxWidth || size.height > maxHeight
    ensures var r := ResizeImage(size, maxWidth, maxHeight);
      (r.height == 0 <==> size.height * maxWidth < size.width) &&
      (r.width == 0 <==> size.width * maxHeight < size.height)
  {
    ZeroHeight(size, maxWidth, maxHeight);
    ZeroHeight(Size(size.height, size.width), maxHeight, maxWidth);
    Transposed(size, maxWidth, maxHeight);
  }

  /** The height half of ZeroSide. */
  lemma ZeroHeight(size: Size, maxWidth: int, maxHeight: int)
    requires size.width > 0 && size.height > 0
    requires maxWidth >= 1 && maxHeight >= 1
    requires size.width > maxWidth || size.height > maxHeight
    ensures ResizeImage(size, maxWidth, maxHeight).height == 0 <==> size.height * maxWidth < size.width
  {
    ZeroSideOf(size, maxWidth, maxHeight);
  }

  /** Swapping width and height, together with the two bounds, swaps the sides of the result. */
  lemma Transposed(size: Size, maxWidth: int, maxHeight: int)
    requires size.width > 0 && size.height > 0
    ensures var r, t := ResizeImage(size, maxWidth, maxHeight), ResizeImage(Size(size.height, size.width), maxHeight, maxWidth);
      r.width == t.height && r.height == t.width
  {
    assert Scale(size, maxWidth, maxHeight) == Scale(Size(size.height, size.width), maxHeight, maxWidth) by {
      MinSwap(Ratio(maxWidth, size.width), Ratio(maxHeight, size.height));
    }
  }

  lemma MinSwap(a: real, b: real)
    ensures Min3(a, b, 1.0) == Min3(b, a, 1.0)
  {
  }

  /** The scaled height truncates to zero exactly when the width exceeds maxWidth times the height. */
  lemma ZeroSideOf(size: Size, maxWidth: int, maxHeight: int)
    requires size.width > 0 && size.height > 0
    requires maxWidth >= 1 && maxHeight >= 1
    requires size.width > maxWidth || size.height > maxHeight
    ensures var s := Scale(size, maxWidth, maxHeight);
      s < 1.0 && (Shrink(size.height, s) == 0 <==> size.height * maxWidth < size.width)
  {
    var s := Scale(size, maxWidth, maxHeight);
    var x, y, c, d := size.height as real, size.width as real, maxWidth as real, maxHeight as real;
    var n := Shrink(size.height, s);
    assert s < 1.0;
    assert s * y == c || s * x == d;
    TruncZeroIff(x, y, s, c, d, n);
    assert x * c < y <==> size.height * maxWidth < size.width by {
      IntProduct(size.height, maxWidth);
    }
  }

  /**
   * The real arithmetic of ZeroSideOf: n truncates x * s, where s fits y into
   * c and x into d and fills one of them.
   */
  lemma TruncZeroIff(x: real, y: real, s: real, c: real, d: real, n: int)
    requires x > 0.0 && y > 0.0 && 0.0 <= s && d >= 1.0
    requires s * y <= c && s * x <= d && (s * y == c || s * x == d)
    requires 0 <= n && n as real <= x * s < n as real + 1.0
    ensures n == 0 <==> x * c < y
  {
    var p := x * s;
    assert n == 0 <==> p < 1.0 by {
      if p < 1.0 {
        assert n as real < 1.0;
      }
    }
    if s * y == c {
      ScaledBelowOne(x, y, s, c);
    } else {
      RatioSideCovers(x, y, s, c, d);
    }
  }

  /** When p * y == c, x * p is below 1 exactly when x * c is below y. */
  lemma ScaledBelowOne(x: real, y: real, p: real, c: real)
    requires y > 0.0 && p * y == c
    ensures x * p < 1.0 <==> x * c < y
  {
    assert (x * p) * y == x * c;
    if x * p < 1.0 {
      MulLt(x * p, 1.0, y);
    } else {
      MulLe(1.0, x * p, y);
    }
  }

  /** When s * y <= c and s * x == d >= 1, then x * c >= y. */
  lemma RatioSideCovers(x: real, y: real, s: real, c: real, d: real)
    requires x > 0.0 && y > 0.0 && s * y <= c && s * x == d && d >= 1.0
    ensures x * c >= y
  {
    MulLe(s * y, c, x);
    assert (s * y) * x == d * y;
    MulLe(1.0, d, y);
  }

  /**
   * Truncation can give a thin image a computed size with a zero side: a
   * 1000 x 1 image is given the target 300 x 0, a size the imaging library's
   * resize call then rejects.
   */
  lemma ThinImageCollapses()
    ensures ResizeImage(Size(1000, 1), MaxWidth, MaxHeight) == Size(300, 0)
  {
    assert Scale(Size(1000, 1), MaxWidth, MaxHeight) == 0.3;
  }

  /** A 600 x 360 image is halved to exactly fill the default 300 x 180 box. */
  lemma HalvedToFit()
    ensures ResizeImage(Size(600, 360), MaxWidth, MaxHeight) == Size(300, 180)
  {
    assert Scale(Size(600, 360), MaxWidth, MaxHeight) == 0.5;
  }
}
