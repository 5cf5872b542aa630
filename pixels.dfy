/**
 * The pixel-string serialiser: a one-bit image becomes one string of '0' and
 * '1' characters per row ('1' for a black pixel, that is a pixel whose value is
 * 0), and the rows are joined by single spaces.
 */
module ParticlePixels {
  import opened Dither
  import opened Strings

  /** A pixel's character: a zero (black) pixel is ink, '1'; any other value is background, '0'. */
  function PixelChar(v: int): (c: char)
    ensures c == '0' || c == '1'
    ensures c == '1' <==> v == 0
  {
    if v != 0 then '0' else '1'
  }

  /** The characters of one row, left to right. */
  function RowText(row: seq<int>): (t: string)
    ensures |t| == |row|
  {
    seq(|row|, x requires 0 <= x < |row| => PixelChar(row[x]))
  }

  /** The rows of the image as text, top to bottom. */
  function Lines(pixels: seq<seq<int>>): (ls: seq<string>)
    ensures |ls| == |pixels|
  {
    seq(|pixels|, y requires 0 <= y < |pixels| => RowText(pixels[y]))
  }

  /** The separator between rows. */
  const Space: string := " "

  /**
   * image_to_particle_pixels, row by row as that function does: each row is
   * built by appending one character per pixel, the rows are collected in
   * order, then joined.
   */
  method ImageToParticlePixels(pixels: seq<seq<int>>, w: nat, h: nat) returns (text: string)
    requires IsGrid(pixels, w, h)
    ensures text == Join(Space, Lines(pixels))
  {
    var lines: seq<string> := [];
    var y := 0;
    while y < h
      invariant 0 <= y <= h
      invariant lines == Lines(pixels)[..y]
    {
      var line := "";
      var x := 0;
      while x < w
        invariant 0 <= x <= w
        invariant line == RowText(pixels[y])[..x]
      {
        line := line + [if pixels[y][x] != 0 then '0' else '1'];
        x := x + 1;
      }
      assert line == RowText(pixels[y]);
      lines := lines + [line];
      y := y + 1;
    }
    assert lines == Lines(pixels);
    text := Join(Space, lines);
  }

  /**
   * What a reader of the pixel string finds: splitting it on spaces gives
   * exactly h fields, field y has exactly w characters, and character x of
   * field y is '1' when pixel (x, y) is 0 and '0' otherwise.  The whole string
   * is h * w + h - 1 characters long.
   */
  lemma ParticlePixelsLayout(pixels: seq<seq<int>>, w: nat, h: nat)
    requires IsGrid(pixels, w, h) && h >= 1
    ensures var text := Join(Space, Lines(pixels));
      var fields := Split(text, Space);
      |text| == h * w + h - 1 &&
      |fields| == h &&
      (forall y :: 0 <= y < h ==> |fields[y]| == w) &&
      forall y, x :: 0 <= y < h && 0 <= x < w ==> fields[y][x] == (if pixels[y][x] == 0 then '1' else '0')
  {
    var lines := Lines(pixels);
    forall k | 0 <= k < h
      ensures ' ' !in lines[k] && |lines[k]| == w
    {
      assert forall c :: c in lines[k] ==> c == '0' || c == '1';
    }
    SplitJoin(Space, lines);
    JoinLength(Space, lines, w);
  }

  /** An empty image serialises to the empty string. */
  lemma EmptyImage(pixels: seq<seq<int>>)
    requires |pixels| == 0
    ensures Join(Space, Lines(pixels)) == ""
  {
  }

  /**
   * An all-white image (every value 255) dithers to all ones, with no error
   * spread, and so serialises to h rows of w '0' characters.
   */
  lemma WhiteImage(gray: seq<seq<int>>, w: nat, h: nat)
    requires IsGrid(gray, w, h) && h >= 1
    requires forall y, x :: 0 <= y < h && 0 <= x < w ==> gray[y][x] == 255
    ensures var fields := Split(Join(Space, Lines(Dither.Dither(gray, w, h))), Space);
      |fields| == h && (forall y :: 0 <= y < h ==> |fields[y]| == w) &&
      forall y, x :: 0 <= y < h && 0 <= x < w ==> fields[y][x] == '0'
  {
    DitherOfBlackAndWhite(gray, w, h);
    ParticlePixelsLayout(Dither.Dither(gray, w, h), w, h);
    forall y, x | 0 <= y < h && 0 <= x < w
      ensures Dither.Dither(gray, w, h)[y][x] == 1
    {
      assert gray[y][x] == 255;
    }
  }
}
