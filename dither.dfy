/**
 * Atkinson error-diffusion dithering of a grayscale raster to one bit per pixel.
 *
 * A raster is a sequence of rows, row y holding the values of the cells
 * (0, y) .. (w-1, y), as the list of lists that the dithering code builds.  One
 * row-major pass quantizes every cell to 0 or 255 and adds an eighth of the
 * quantization error to six neighbours further on in scan order, skipping the
 * ones that fall outside the raster.  A second pass maps the result to bits:
 * 1 (white) where the final value is above 127, 0 (black) elsewhere.
 */
module Dither {

  /** g has h rows of w cells each. */
  predicate IsGrid<T>(g: seq<seq<T>>, w: nat, h: nat)
  {
    |g| == h && forall y :: 0 <= y < h ==> |g[y]| == w
  }

  /** The contents of a two-dimensional array, row by row. */
  function Cells<T>(a: array2<T>): (g: seq<seq<T>>)
    reads a
    ensures IsGrid(g, a.Length1, a.Length0)
    ensures forall y, x :: 0 <= y < a.Length0 && 0 <= x < a.Length1 ==> g[y][x] == a[y, x]
  {
    seq(a.Length0, y requires 0 <= y < a.Length0 reads a =>
      seq(a.Length1, x requires 0 <= x < a.Length1 reads a => a[y, x]))
  }

  /** The threshold: strictly above 127 becomes 255, everything else 0. */
  function Quantize(v: real): (q: real)
    ensures q == 0.0 || q == 255.0
    ensures q == 255.0 <==> v > 127.0
  {
    if v > 127.0 then 255.0 else 0.0
  }

  predicate Quantized(v: real)
  {
    v == 0.0 || v == 255.0
  }

  /** The quantization error of a cell holding v, divided by 8: eight shares make up the whole error. */
  function ErrorShare(v: real): (e: real)
    ensures 8.0 * e == v - Quantize(v)
  {
    (v - Quantize(v)) / 8.0
  }

  /**
   * A cell already at 0 or 255 spreads no error, and a cell within 0 .. 255
   * spreads less than 16 to each neighbour, either way.
   */
  lemma ErrorShareBounds(v: real)
    ensures Quantized(v) ==> ErrorShare(v) == 0.0
    ensures 0.0 <= v <= 255.0 ==> -16.0 < ErrorShare(v) < 16.0
  {
  }

  /** Cell (x, y) set to v; `StepCell` states that no other cell changes. */
  function Set(g: seq<seq<real>>, w: nat, h: nat, x: nat, y: nat, v: real): (r: seq<seq<real>>)
    requires IsGrid(g, w, h) && x < w && y < h
    ensures IsGrid(r, w, h)
  {
    g[y := g[y][x := v]]
  }

  /** Cell (x, y) increased by e; `StepCell` states that no other cell changes. */
  function Bump(g: seq<seq<real>>, w: nat, h: nat, x: nat, y: nat, e: real): (r: seq<seq<real>>)
    requires IsGrid(g, w, h) && x < w && y < h
    ensures IsGrid(r, w, h)
  {
    Set(g, w, h, x, y, g[y][x] + e)
  }

  /**
   * Visiting cell (x, y): the cell is quantized and one error share is added,
   * in the order atkinson_dither applies them, to (x+1, y), (x+2, y), (x-1, y+1), (x, y+1),
   * (x+1, y+1) and (x, y+2), each one only when it lies inside the raster.
   */
  function Step(g: seq<seq<real>>, w: nat, h: nat, x: nat, y: nat): (r: seq<seq<real>>)
    requires IsGrid(g, w, h) && x < w && y < h
    ensures IsGrid(r, w, h)
  {
    var v := g[y][x];
    var e := ErrorShare(v);
    var g0 := Set(g, w, h, x, y, Quantize(v));
    var g1 := BumpIf(g0, w, h, x + 1 < w, x + 1, y, e);
    var g2 := BumpIf(g1, w, h, x + 2 < w, x + 2, y, e);
    var g3 := BumpIf(g2, w, h, y + 1 < h && x > 0, x - 1, y + 1, e);
    var g4 := BumpIf(g3, w, h, y + 1 < h, x, y + 1, e);
    var g5 := BumpIf(g4, w, h, y + 1 < h && x + 1 < w, x + 1, y + 1, e);
    BumpIf(g5, w, h, y + 2 < h, x, y + 2, e)
  }

  /** Cell (x, y) increased by e when c holds, which the caller guarantees only inside the raster. */
  function BumpIf(g: seq<seq<real>>, w: nat, h: nat, c: bool, x: int, y: int, e: real): (r: seq<seq<real>>)
    requires IsGrid(g, w, h) && (c ==> 0 <= x < w && 0 <= y < h)
    ensures IsGrid(r, w, h)
  {
    if c then Bump(g, w, h, x, y, e) else g
  }

  /** The Atkinson neighbourhood of (x, y): the six cells that receive error from it. */
  predicate IsNeighbour(x: int, y: int, tx: int, ty: int)
  {
    (ty == y && (tx == x + 1 || tx == x + 2)) ||
    (ty == y + 1 && (tx == x - 1 || tx == x || tx == x + 1)) ||
    (ty == y + 2 && tx == x)
  }

  /** Cell (tx, ty) comes before cell (x, y) in row-major order. */
  predicate Before(tx: int, ty: int, x: int, y: int)
  {
    ty < y || (ty == y && tx < x)
  }

  /**
   * What one visit does, cell by cell: the visited cell becomes its quantized
   * value, each neighbour inside the raster gains exactly one error share
   * (nothing wraps round to another row), and every other cell is left alone.
   */
  lemma StepCell(g: seq<seq<real>>, w: nat, h: nat, x: nat, y: nat, tx: nat, ty: nat)
    requires IsGrid(g, w, h) && x < w && y < h && tx < w && ty < h
    ensures Step(g, w, h, x, y)[ty][tx] ==
      if tx == x && ty == y then Quantize(g[y][x])
      else if IsNeighbour(x, y, tx, ty) then g[ty][tx] + ErrorShare(g[y][x])
      else g[ty][tx]
  {
  }

  /** Every neighbour lies after the cell that sends it error, so a visit never changes a cell before it. */
  lemma StepKeepsEarlier(g: seq<seq<real>>, w: nat, h: nat, x: nat, y: nat, tx: nat, ty: nat)
    requires IsGrid(g, w, h) && x < w && y < h && tx < w && ty < h
    requires Before(tx, ty, x, y)
    ensures Step(g, w, h, x, y)[ty][tx] == g[ty][tx]
  {
    StepCell(g, w, h, x, y, tx, ty);
    assert !IsNeighbour(x, y, tx, ty);
  }

  /** The raster after the cells (0, y) .. (x-1, y) of row y have been visited, starting from g. */
  function RowSweep(g: seq<seq<real>>, w: nat, h: nat, y: nat, x: nat): (r: seq<seq<real>>)
    requires IsGrid(g, w, h) && y < h && x <= w
    ensures IsGrid(r, w, h)
    decreases x
  {
    if x == 0 then g else Step(RowSweep(g, w, h, y, x - 1), w, h, x - 1, y)
  }

  /** The raster after rows 0 .. y-1 have been visited. */
  function Sweep(g: seq<seq<real>>, w: nat, h: nat, y: nat): (r: seq<seq<real>>)
    requires IsGrid(g, w, h) && y <= h
    ensures IsGrid(r, w, h)
  {
    if y == 0 then g else RowSweep(Sweep(g, w, h, y - 1), w, h, y - 1, w)
  }

  /** The raster after the whole diffusion pass. */
  function Diffused(g: seq<seq<real>>, w: nat, h: nat): (r: seq<seq<real>>)
    requires IsGrid(g, w, h)
    ensures IsGrid(r, w, h)
  {
    Sweep(g, w, h, h)
  }

  /** The value cell (x, y) holds when the pass reaches it. */
  function Visited(g: seq<seq<real>>, w: nat, h: nat, x: nat, y: nat): real
    requires IsGrid(g, w, h) && x < w && y < h
  {
    RowSweep(Sweep(g, w, h, y), w, h, y, x)[y][x]
  }

  /** Visiting the rest of row y leaves the cells before (x0, y) alone. */
  lemma {:induction false} RowSweepKeepsEarlier(g: seq<seq<real>>, w: nat, h: nat, y: nat, x0: nat, x1: nat, tx: nat, ty: nat)
    requires IsGrid(g, w, h) && y < h && x0 <= x1 <= w && tx < w && ty < h
    requires Before(tx, ty, x0, y)
    ensures RowSweep(g, w, h, y, x1)[ty][tx] == RowSweep(g, w, h, y, x0)[ty][tx]
    decreases x1
  {
    if x1 > x0 {
      RowSweepKeepsEarlier(g, w, h, y, x0, x1 - 1, tx, ty);
      StepKeepsEarlier(RowSweep(g, w, h, y, x1 - 1), w, h, x1 - 1, y, tx, ty);
    }
  }

  /** Visiting rows y0 .. y1-1 leaves the rows before y0 alone. */
  lemma {:induction false} SweepKeepsEarlier(g: seq<seq<real>>, w: nat, h: nat, y0: nat, y1: nat, tx: nat, ty: nat)
    requires IsGrid(g, w, h) && y0 <= y1 <= h && tx < w && ty < y0
    ensures Sweep(g, w, h, y1)[ty][tx] == Sweep(g, w, h, y0)[ty][tx]
    decreases y1
  {
    if y1 > y0 {
      SweepKeepsEarlier(g, w, h, y0, y1 - 1, tx, ty);
      RowSweepKeepsEarlier(Sweep(g, w, h, y1 - 1), w, h, y1 - 1, 0, w, tx, ty);
    }
  }

  /**
   * Each cell ends the pass holding exactly the quantized value of what it held
   * when the pass reached it: once quantized it is never touched again.
   */
  lemma FinalValue(g: seq<seq<real>>, w: nat, h: nat, x: nat, y: nat)
    requires IsGrid(g, w, h) && x < w && y < h
    ensures Diffused(g, w, h)[y][x] == Quantize(Visited(g, w, h, x, y))
  {
    RowDone(g, w, h, x, y);
    SweepKeepsEarlier(g, w, h, y + 1, h, x, y);
  }

  /** When its row is finished, a cell holds the quantized value of what it held when visited. */
  lemma RowDone(g: seq<seq<real>>, w: nat, h: nat, x: nat, y: nat)
    requires IsGrid(g, w, h) && x < w && y < h
    ensures Sweep(g, w, h, y + 1)[y][x] == Quantize(Visited(g, w, h, x, y))
  {
    var row := Sweep(g, w, h, y);
    VisitQuantizes(row, w, h, y, x);
    RowSweepKeepsEarlier(row, w, h, y, x + 1, w, x, y);
  }

  /** The visit of cell (x, y) quantizes it. */
  lemma VisitQuantizes(g: seq<seq<real>>, w: nat, h: nat, y: nat, x: nat)
    requires IsGrid(g, w, h) && x < w && y < h
    ensures RowSweep(g, w, h, y, x + 1)[y][x] == Quantize(RowSweep(g, w, h, y, x)[y][x])
  {
    StepCell(RowSweep(g, w, h, y, x), w, h, x, y, x, y);
  }

  /** After the pass every cell holds 0 or 255. */
  lemma DiffusedQuantized(g: seq<seq<real>>, w: nat, h: nat)
    requires IsGrid(g, w, h)
    ensures forall y, x :: 0 <= y < h && 0 <= x < w ==> Quantized(Diffused(g, w, h)[y][x])
  {
    forall y, x | 0 <= y < h && 0 <= x < w
      ensures Quantized(Diffused(g, w, h)[y][x])
    {
      FinalValue(g, w, h, x, y);
    }
  }

  predicate AllQuantized(g: seq<seq<real>>)
  {
    forall y, x :: 0 <= y < |g| && 0 <= x < |g[y]| ==> Quantized(g[y][x])
  }

  /** A visit to a cell that already holds 0 or 255 has no error to spread and changes nothing. */
  lemma StepOnQuantized(g: seq<seq<real>>, w: nat, h: nat, x: nat, y: nat)
    requires IsGrid(g, w, h) && x < w && y < h && Quantized(g[y][x])
    ensures Step(g, w, h, x, y) == g
  {
    assert ErrorShare(g[y][x]) == 0.0;
    var r := Step(g, w, h, x, y);
    forall ty, tx | 0 <= ty < h && 0 <= tx < w
      ensures r[ty][tx] == g[ty][tx]
    {
      StepCell(g, w, h, x, y, tx, ty);
    }
    forall ty | 0 <= ty < h
      ensures r[ty] == g[ty]
    {
    }
  }

  lemma {:induction false} RowSweepOnQuantized(g: seq<seq<real>>, w: nat, h: nat, y: nat, x: nat)
    requires IsGrid(g, w, h) && y < h && x <= w && AllQuantized(g)
    ensures RowSweep(g, w, h, y, x) == g
    decreases x
  {
    if x > 0 {
      RowSweepOnQuantized(g, w, h, y, x - 1);
      StepOnQuantized(g, w, h, x - 1, y);
    }
  }

  /** A raster that holds only 0 and 255 passes through the diffusion unchanged: no error is ever spread. */
  lemma {:induction false} SweepOnQuantized(g: seq<seq<real>>, w: nat, h: nat, y: nat)
    requires IsGrid(g, w, h) && y <= h && AllQuantized(g)
    ensures Sweep(g, w, h, y) == g
    decreases y
  {
    if y > 0 {
      SweepOnQuantized(g, w, h, y - 1);
      RowSweepOnQuantized(g, w, h, y - 1, w);
    }
  }

  /** pixel_array[y][x] = v, on the working array. */
  method Write(a: array2<real>, x: nat, y: nat, v: real)
    requires y < a.Length0 && x < a.Length1
    modifies a
    ensures Cells(a) == Set(old(Cells(a)), a.Length1, a.Length0, x, y, v)
  {
    ghost var g := Cells(a);
    a[y, x] := v;
    ghost var r := Set(g, a.Length1, a.Length0, x, y, v);
    forall ty | 0 <= ty < a.Length0
      ensures Cells(a)[ty] == r[ty]
    {
    }
  }

  /** pixel_array[y][x] += e, on the working array. */
  method Add(a: array2<real>, x: nat, y: nat, e: real)
    requires y < a.Length0 && x < a.Length1
    modifies a
    ensures Cells(a) == Bump(old(Cells(a)), a.Length1, a.Length0, x, y, e)
  {
    Write(a, x, y, a[y, x] + e);
  }

  /**
   * The body of the scan loop for cell (x, y): quantize the cell, then spread an
   * eighth of the error to the neighbours that lie inside the array.
   */
  method VisitCell(a: array2<real>, x: nat, y: nat)
    requires y < a.Length0 && x < a.Length1
    modifies a
    ensures Cells(a) == Step(old(Cells(a)), a.Length1, a.Length0, x, y)
  {
    var w, h := a.Length1, a.Length0;
    var oldPixel := a[y, x];
    var newPixel := if oldPixel > 127.0 then 255.0 else 0.0;
    Write(a, x, y, newPixel);
    var error := (oldPixel - newPixel) / 8.0;
    AddIf(a, x + 1 < w, x + 1, y, error);
    AddIf(a, x + 2 < w, x + 2, y, error);
    if y + 1 < h {
      AddIf(a, x > 0, x - 1, y + 1, error);
      Add(a, x, y + 1, error);
      AddIf(a, x + 1 < w, x + 1, y + 1, error);
    }
    AddIf(a, y + 2 < h, x, y + 2, error);
  }

  /** `if c: pixel_array[y][x] += e`, on the working array. */
  method AddIf(a: array2<real>, c: bool, x: int, y: int, e: real)
    requires c ==> 0 <= y < a.Length0 && 0 <= x < a.Length1
    modifies a
    ensures Cells(a) == BumpIf(old(Cells(a)), a.Length1, a.Length0, c, x, y, e)
  {
    if c {
      Add(a, x, y, e);
    }
  }

  /**
   * The diffusion pass, in place on the working array (a.Length0 rows of
   * a.Length1 cells), row by row and cell by cell, as atkinson_dither does.
   */
  method Diffuse(a: array2<real>)
    modifies a
    ensures Cells(a) == Diffused(old(Cells(a)), a.Length1, a.Length0)
  {
    var w, h := a.Length1, a.Length0;
    ghost var g := Cells(a);
    var y := 0;
    while y < h
      invariant 0 <= y <= h
      invariant Cells(a) == Sweep(g, w, h, y)
    {
      var x := 0;
      while x < w
        invariant 0 <= x <= w
        invariant Cells(a) == RowSweep(Sweep(g, w, h, y), w, h, y, x)
      {
        VisitCell(a, x, y);
        x := x + 1;
      }
      y := y + 1;
    }
  }

  /** The grayscale input as the working raster of reals. */
  function ToReal(gray: seq<seq<int>>, w: nat, h: nat): (g: seq<seq<real>>)
    requires IsGrid(gray, w, h)
    ensures IsGrid(g, w, h)
  {
    seq(h, y requires 0 <= y < h => seq(w, x requires 0 <= x < w => gray[y][x] as real))
  }

  /** The second pass: 1 where a cell holds more than 127, 0 elsewhere. */
  function Monochrome(g: seq<seq<real>>, w: nat, h: nat): (m: seq<seq<int>>)
    requires IsGrid(g, w, h)
    ensures IsGrid(m, w, h)
  {
    seq(h, y requires 0 <= y < h => seq(w, x requires 0 <= x < w => if g[y][x] > 127.0 then 1 else 0))
  }

  /** The dithered one-bit image of a grayscale raster. */
  function Dither(gray: seq<seq<int>>, w: nat, h: nat): (m: seq<seq<int>>)
    requires IsGrid(gray, w, h)
    ensures IsGrid(m, w, h)
  {
    Monochrome(Diffused(ToReal(gray, w, h), w, h), w, h)
  }

  /**
   * Every output bit is 0 or 1; it is 1 exactly when the cell ended the pass at
   * 255, that is, exactly when the cell held more than 127 when the pass reached it.
   */
  lemma DitherBits(gray: seq<seq<int>>, w: nat, h: nat, x: nat, y: nat)
    requires IsGrid(gray, w, h) && x < w && y < h
    ensures var bit, g := Dither(gray, w, h)[y][x], ToReal(gray, w, h);
      (bit == 0 || bit == 1) &&
      (bit == 1 <==> Diffused(g, w, h)[y][x] == 255.0) &&
      (bit == 1 <==> Visited(g, w, h, x, y) > 127.0)
  {
    FinalValue(ToReal(gray, w, h), w, h, x, y);
  }

  /**
   * A raster that is already black and white (every value 0 or 255) dithers to
   * its plain thresholding: no error is spread anywhere.
   */
  lemma DitherOfBlackAndWhite(gray: seq<seq<int>>, w: nat, h: nat)
    requires IsGrid(gray, w, h)
    requires forall y, x :: 0 <= y < h && 0 <= x < w ==> gray[y][x] == 0 || gray[y][x] == 255
    ensures forall y, x :: 0 <= y < h && 0 <= x < w ==>
      Dither(gray, w, h)[y][x] == if gray[y][x] > 127 then 1 else 0
  {
    var g := ToReal(gray, w, h);
    assert AllQuantized(g) by {
      forall y, x | 0 <= y < |g| && 0 <= x < |g[y]|
        ensures Quantized(g[y][x])
      {
        assert g[y][x] == gray[y][x] as real;
      }
    }
    SweepOnQuantized(g, w, h, h);
  }

  /** The second pass of atkinson_dither: a new one-bit image, filled cell by cell from the working array. */
  method ToMonochrome(a: array2<real>) returns (mono: seq<seq<int>>)
    ensures mono == Monochrome(Cells(a), a.Length1, a.Length0)
  {
    var w, h := a.Length1, a.Length0;
    var result := new int[h, w];
    var y := 0;
    while y < h
      modifies result
      invariant 0 <= y <= h
      invariant forall ty, tx :: 0 <= ty < y && 0 <= tx < w ==>
        result[ty, tx] == if a[ty, tx] > 127.0 then 1 else 0
    {
      var x := 0;
      while x < w
        modifies result
        invariant 0 <= x <= w
        invariant forall ty, tx :: 0 <= ty < y && 0 <= tx < w ==>
          result[ty, tx] == if a[ty, tx] > 127.0 then 1 else 0
        invariant forall tx :: 0 <= tx < x ==>
          result[y, tx] == if a[y, tx] > 127.0 then 1 else 0
      {
        result[y, x] := if a[y, x] > 127.0 then 1 else 0;
        x := x + 1;
      }
      y := y + 1;
    }
    mono := Cells(result);
    assert mono == Monochrome(Cells(a), w, h) by {
      forall ty | 0 <= ty < h
        ensures mono[ty] == Monochrome(Cells(a), w, h)[ty]
      {
      }
    }
  }

  /**
   * atkinson_dither: copy the grayscale values into a working array, diffuse
   * the error in place, then produce the one-bit image.
   */
  method AtkinsonDither(gray: seq<seq<int>>, w: nat, h: nat) returns (mono: seq<seq<int>>)
    requires IsGrid(gray, w, h)
    ensures mono == Dither(gray, w, h)
  {
    var a := new real[h, w]((y, x) requires 0 <= y < h && 0 <= x < w => gray[y][x] as real);
    assert Cells(a) == ToReal(gray, w, h) by {
      forall y | 0 <= y < h
        ensures Cells(a)[y] == ToReal(gray, w, h)[y]
      {
      }
    }
    Diffuse(a);
    mono := ToMonochrome(a);
  }
}
