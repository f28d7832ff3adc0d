/** The picture of an exposer, shared by both variants: one pixel per cell of
    the plane spanned by the first two axes (all other coordinates 0). The
    pixel blends the first three class supports, as red, green and blue,
    with the cell's HSV triple converted to RGB; `scale` weighs the supports
    against the colour. */
module Render {
  import opened Basics
  import opened Position
  import opened Grid
  import opened Measures

  datatype Rgb = Rgb(red: real, green: real, blue: real)

  /** `rgb`: the first three supports, the missing ones read as 0. */
  function GuideOf(support: seq<real>): (rgb: seq<real>)
  {
    seq(3, k requires 0 <= k < 3 => if k < |support| then support[k] else 0.0)
  }

  /** The loop over `enumerate(support)` that stops after index 2. */
  method Guide(support: seq<real>) returns (rgb: seq<real>)
    ensures |rgb| == 3
    ensures forall k :: 0 <= k < 3 ==> rgb[k] == if k < |support| then support[k] else 0.0
    ensures rgb == GuideOf(support)
  {
    rgb := [0.0, 0.0, 0.0];
    var index := 0;
    while index < |support|
      invariant 0 <= index <= |support| && index <= 3 && |rgb| == 3
      invariant forall k :: 0 <= k < 3 ==> rgb[k] == if k < index then support[k] else 0.0
    {
      if index > 2 {
        break;
      }
      rgb := rgb[index := support[index]];
      index := index + 1;
    }
  }

  /** Python's float `a % 2`: the remainder takes the sign of the divisor. */
  function Mod2(a: real): (r: real)
    ensures 0.0 <= r < 2.0
    ensures ((a - r) / 2.0).Floor as real == (a - r) / 2.0
  {
    a - 2.0 * ((a / 2.0).Floor as real)
  }

  function Abs(a: real): (r: real)
    ensures r >= 0.0 && (r == a || r == -a)
  {
    if a < 0.0 then -a else a
  }

  /** The chroma: value times saturation. */
  function Chroma(hsv: Hsv): (c: real)
    ensures 0.0 <= hsv.value <= 1.0 && 0.0 <= hsv.saturation <= 1.0 ==> 0.0 <= c <= hsv.value
  {
    ScaledWithin(hsv.value, hsv.saturation);
    hsv.value * hsv.saturation
  }

  /** The second largest channel, from the chroma and where the hue lies
      within its sixth of the circle. */
  function Secondary(c: real, h: real): (x: real)
    ensures c >= 0.0 ==> 0.0 <= x <= c
  {
    var t := 1.0 - Abs(Mod2(h * 6.0) - 1.0);
    assert 0.0 <= t <= 1.0;
    ScaledWithin(c, t);
    c * t
  }

  /** Which sixth of the hue circle the `if h < k / 6` chain picks. */
  function Sector(h: real): (k: nat)
    ensures k < 6
  {
    if h < 1.0 / 6.0 then 0
    else if h < 2.0 / 6.0 then 1
    else if h < 3.0 / 6.0 then 2
    else if h < 4.0 / 6.0 then 3
    else if h < 5.0 / 6.0 then 4
    else 5
  }

  /** On hues in [0, 1) the chain picks exactly the sixth that holds the hue. */
  lemma SectorIsSixth(h: real, k: nat)
    requires 0.0 <= h < 1.0 && k < 6
    ensures Sector(h) == k <==> k as real / 6.0 <= h < (k + 1) as real / 6.0
  {
  }

  /** The HSV-to-RGB conversion of the pixel loop (without adding `m`). */
  function HsvToRgb(hsv: Hsv): Rgb
  {
    var c := Chroma(hsv);
    var x := Secondary(c, hsv.hue);
    match Sector(hsv.hue)
    case 0 => Rgb(c, x, 0.0)
    case 1 => Rgb(x, c, 0.0)
    case 2 => Rgb(0.0, c, x)
    case 3 => Rgb(0.0, x, c)
    case 4 => Rgb(x, 0.0, c)
    case _ => Rgb(c, 0.0, x)
  }

  /** For a triple with saturation and value in [0, 1] every channel lies in
      [0, chroma], the hue's sector fixes which channel is the chroma (red
      for 0 and 5, green for 1 and 2, blue for 3 and 4) and which is 0 (blue
      for 0 and 1, red for 2 and 3, green for 4 and 5); zero saturation or
      zero value gives black. */
  lemma HsvToRgbChannels(hsv: Hsv)
    requires 0.0 <= hsv.value <= 1.0 && 0.0 <= hsv.saturation <= 1.0
    ensures var rgb := HsvToRgb(hsv);
            var c := Chroma(hsv);
            var k := Sector(hsv.hue);
            0.0 <= c <= 1.0
            && 0.0 <= rgb.red <= c && 0.0 <= rgb.green <= c && 0.0 <= rgb.blue <= c
            && (k == 0 || k == 5 ==> rgb.red == c)
            && (k == 1 || k == 2 ==> rgb.green == c)
            && (k == 3 || k == 4 ==> rgb.blue == c)
            && (k <= 1 ==> rgb.blue == 0.0)
            && (k == 2 || k == 3 ==> rgb.red == 0.0)
            && (k >= 4 ==> rgb.green == 0.0)
            && (hsv.saturation == 0.0 || hsv.value == 0.0 ==> rgb == Rgb(0.0, 0.0, 0.0))
  {
    var c := Chroma(hsv);
    if hsv.saturation == 0.0 || hsv.value == 0.0 {
      assert c == 0.0;
    }
  }

  function Channel(rgb: Rgb, k: nat): real
    requires k < 3
  {
    if k == 0 then rgb.red else if k == 1 then rgb.green else rgb.blue
  }

  /** One output value: the support weighed by scale plus the colour channel
      weighed by 255 - scale. */
  function Blend(guide: real, channel: real, scale: real): real
  {
    guide * scale + channel * (255.0 - scale)
  }

  /** A support and a channel in [0, 1] blend into [0, 255] for any scale in
      [0, 255]. */
  lemma BlendBounds(guide: real, channel: real, scale: real)
    requires 0.0 <= guide <= 1.0 && 0.0 <= channel <= 1.0 && 0.0 <= scale <= 255.0
    ensures 0.0 <= Blend(guide, channel, scale) <= 255.0
  {
    var rest := 255.0 - scale;
    var a, b := guide * scale, channel * rest;
    assert 0.0 <= a <= scale by {
      MulLessEq(0.0, guide, 0.0, scale);
      MulLessEq(guide, 1.0, scale, scale);
    }
    assert 0.0 <= b <= rest by {
      MulLessEq(0.0, channel, 0.0, rest);
      MulLessEq(channel, 1.0, rest, rest);
    }
  }

  /** The three values one cell contributes to its image row. */
  function Pixel(support: seq<real>, hsv: Hsv, scale: real): (p: seq<real>)
    ensures |p| == 3
  {
    var rgb := GuideOf(support);
    var colour := HsvToRgb(hsv);
    seq(3, k requires 0 <= k < 3 => Blend(rgb[k], Channel(colour, k), scale))
  }

  /** A cell whose supports lie in [0, 1] and whose saturation and value lie
      in [0, 1] gets three values in [0, 255]. */
  lemma PixelBounds(support: seq<real>, hsv: Hsv, scale: real)
    requires forall k :: 0 <= k < |support| ==> 0.0 <= support[k] <= 1.0
    requires 0.0 <= hsv.value <= 1.0 && 0.0 <= hsv.saturation <= 1.0
    requires 0.0 <= scale <= 255.0
    ensures forall k :: 0 <= k < 3 ==> 0.0 <= Pixel(support, hsv, scale)[k] <= 255.0
  {
    HsvToRgbChannels(hsv);
    forall k | 0 <= k < 3 ensures 0.0 <= Pixel(support, hsv, scale)[k] <= 255.0 {
      BlendBounds(GuideOf(support)[k], Channel(HsvToRgb(hsv), k), scale);
    }
  }

  /** The coordinate of pixel (x, y): zeros, with axis 0 set to x and axis 1 to y. */
  function PlanePoint(x: int, y: int, d: nat): (p: seq<int>)
    requires d >= 2
    ensures |p| == d
  {
    Repeat(0, d)[1 := y][0 := x]
  }

  /** The cell of pixel (x, y) is `x + y * grain`, inside the grid. */
  lemma PlaneCell(x: nat, y: nat, grain: nat, d: nat)
    requires d >= 2 && x < grain && y < grain
    ensures InGrid(PlanePoint(x, y, d), grain)
    ensures Encode(PlanePoint(x, y, d), grain) == x + y * grain
    ensures x + y * grain < Pow(grain, d)
  {
    var p := PlanePoint(x, y, d);
    EncodePlane(p, grain);
    EncodeBound(p, grain);
  }

  lemma {:induction false} EncodePlane(p: seq<int>, grain: int)
    requires |p| >= 2 && forall k :: 2 <= k < |p| ==> p[k] == 0
    ensures Encode(p, grain) == p[0] + p[1] * grain
  {
    var n := |p| - 1;
    if |p| == 2 {
      assert p[..n] == [p[0]];
      assert Encode([p[0]], grain) == p[0];
      assert Pow(grain, 1) == grain;
    } else {
      EncodePlane(p[..n], grain);
    }
  }

  /** The first n pixels of image row y, three values each. */
  function RowUpTo(model: Matrix, hsv: seq<Hsv>, grain: nat, d: nat, scale: real, y: nat, n: nat): (row: seq<real>)
    requires d >= 2 && y < grain && n <= grain
    requires |model| == |hsv| == Pow(grain, d)
    ensures |row| == 3 * n
  {
    if n == 0 then []
    else
      PlaneCell(n - 1, y, grain, d);
      var cell := (n - 1) + y * grain;
      RowUpTo(model, hsv, grain, d, scale, y, n - 1) + Pixel(model[cell], hsv[cell], scale)
  }

  /** The image: `grain` rows of `grain` pixels. */
  function Image(model: Matrix, hsv: seq<Hsv>, grain: nat, d: nat, scale: real): (image: seq<seq<real>>)
    requires d >= 2 && |model| == |hsv| == Pow(grain, d)
    ensures |image| == grain
  {
    seq(grain, y requires 0 <= y < grain => RowUpTo(model, hsv, grain, d, scale, y, grain))
  }

  /** Pixel (x, y) of the image is made of cell `x + y * grain`, at
      positions 3x, 3x + 1 and 3x + 2 of row y. */
  lemma {:induction false} ImagePixel(model: Matrix, hsv: seq<Hsv>, grain: nat, d: nat, scale: real,
                                      y: nat, n: nat, x: nat, k: nat)
    requires d >= 2 && y < grain && x < n <= grain && k < 3
    requires |model| == |hsv| == Pow(grain, d)
    ensures x + y * grain < |model|
    ensures RowUpTo(model, hsv, grain, d, scale, y, n)[3 * x + k]
      == Pixel(model[x + y * grain], hsv[x + y * grain], scale)[k]
  {
    PlaneCell(x, y, grain, d);
    if x < n - 1 {
      ImagePixel(model, hsv, grain, d, scale, y, n - 1, x, k);
    }
  }

  /** `png()` without the file: for every row y and column x, locate the
      cell, read its supports and triple, and append its three values. */
  method Png(model: Matrix, hsv: seq<Hsv>, grain: nat, d: nat, g: seq<int>, scale: real)
    returns (image: seq<seq<real>>)
    requires d >= 2 && |model| == |hsv| == Pow(grain, d)
    requires |g| == d && forall i :: 0 <= i < d ==> g[i] == Pow(grain, i)
    ensures image == Image(model, hsv, grain, d, scale)
  {
    image := [];
    var y := 0;
    while y < grain
      invariant 0 <= y <= grain && |image| == y
      invariant forall j :: 0 <= j < y ==> image[j] == RowUpTo(model, hsv, grain, d, scale, j, grain)
    {
      var row := PngRow(model, hsv, grain, d, g, scale, y);
      image := image + [row];
      y := y + 1;
    }
  }

  /** One row of `png()`. */
  method PngRow(model: Matrix, hsv: seq<Hsv>, grain: nat, d: nat, g: seq<int>, scale: real, y: nat)
    returns (row: seq<real>)
    requires d >= 2 && y < grain && |model| == |hsv| == Pow(grain, d)
    requires |g| == d && forall i :: 0 <= i < d ==> g[i] == Pow(grain, i)
    ensures row == RowUpTo(model, hsv, grain, d, scale, y, grain)
  {
    row := [];
    var vector := Repeat(0, d)[1 := y];
    var x := 0;
    while x < grain
      invariant 0 <= x <= grain && |vector| == d
      invariant vector == PlanePoint(if x == 0 then 0 else x - 1, y, d)
      invariant row == RowUpTo(model, hsv, grain, d, scale, y, x)
    {
      vector := vector[0 := x];
      assert vector == PlanePoint(x, y, d);
      PlaneCell(x, y, grain, d);
      var position := Position.Position(vector, g, grain);
      var triple := hsv[position];
      var rgb := Guide(model[position]);
      var colour := HsvToRgb(triple);
      row := row + [Blend(rgb[0], colour.red, scale), Blend(rgb[1], colour.green, scale),
                    Blend(rgb[2], colour.blue, scale)];
      x := x + 1;
    }
  }
}
