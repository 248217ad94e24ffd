/** Shaped-dots mode: instead of tracing outlines, every painted pixel becomes
    its own absolute subpath `M{x},{y}` followed by a shape drawn inside the
    unit cell, grouped by colour. */
module Dots {
  import opened ColorMap
  import opened Text
  import opened Wrappers
  import Arith
  import opened Seqs

  /** The default shape: the unit square, drawn clockwise from the top-left corner. */
  const DefaultShape: string := "h1v1h-1z"

  // The table of ready-made shapes (relative path data inside the unit cell).
  const Dia: string := "m.5 0 .5.5-.5.5-.5-.5z"
  const Circle: string := "m0 .5a.5.5 0 1 1 1 0 .5.5 0 1 1-1 0z"
  const TopLeft: string := "m0 1v-1h1z"
  const TopRight: string := "h1v1z"
  const BottomLeft: string := "v1h1z"
  const BottomRight: string := "m0 1h1v-1z"

  /** The shape parameter's default applies only when no shape is passed
      (an empty string is a shape, and draws nothing after the move). */
  function ShapeOrDefault(shape: Option<string>): (r: string)
    ensures shape.None? ==> r == DefaultShape
    ensures shape.Some? ==> r == shape.value
    ensures (shape.Some? ==> 'M' !in shape.value) ==> 'M' !in r
  {
    if shape.None? then DefaultShape else shape.value
  }

  /** The pixels of colour c in row-major order, as assortPixels collects them.
      Each coordinate pair is a fresh array, so the source's Set never merges
      two of them: it behaves as a list in insertion order. */
  function PixelsOf(img: seq<int>, w: int, c: int): (r: seq<Pixel>)
    requires 0 < w
    ensures |r| <= |img|
  {
    if img == [] then []
    else PixelsOf(img[..|img| - 1], w, c) + (if img[|img| - 1] == c then [Coord(|img| - 1, w)] else [])
  }

  /** Row-major position of a pixel. */
  function Index(p: Pixel, w: int): int {
    p.0 + p.1 * w
  }

  /** A pixel is listed exactly when it has colour c: the same pixels as the
      region contour mode outlines. */
  lemma {:induction false} PixelsOfRegion(img: seq<int>, w: int, c: int)
    requires 0 < w
    ensures forall p :: p in PixelsOf(img, w, c) <==> p in Region(img, w, c)
  {
    if img != [] {
      var init := img[..|img| - 1];
      var n := |img| - 1;
      PixelsOfRegion(init, w, c);
      forall p ensures p in Region(img, w, c) <==> p in Region(init, w, c) || (img[n] == c && p == Coord(n, w)) {
        if p in Region(img, w, c) {
          var i :| 0 <= i < |img| && img[i] == c && Coord(i, w) == p;
          if i < n {
            assert init[i] == c;
          }
        }
        if p in Region(init, w, c) {
          var i :| 0 <= i < |init| && init[i] == c && Coord(i, w) == p;
          assert img[i] == c;
        }
      }
    }
  }

  /** The list is in strictly increasing row-major order, so no pixel repeats. */
  lemma {:induction false} PixelsOfOrdered(img: seq<int>, w: int, c: int)
    requires 0 < w
    ensures forall k :: 0 <= k < |PixelsOf(img, w, c)| ==>
      0 <= Index(PixelsOf(img, w, c)[k], w) < |img| && img[Index(PixelsOf(img, w, c)[k], w)] == c
    ensures forall i, j :: 0 <= i < j < |PixelsOf(img, w, c)| ==>
      Index(PixelsOf(img, w, c)[i], w) < Index(PixelsOf(img, w, c)[j], w)
  {
    if img != [] {
      var init := img[..|img| - 1];
      var n := |img| - 1;
      PixelsOfOrdered(init, w, c);
      var prev := PixelsOf(init, w, c);
      var r := PixelsOf(img, w, c);
      forall k | 0 <= k < |r|
        ensures 0 <= Index(r[k], w) < |img| && img[Index(r[k], w)] == c
      {
        if k < |prev| {
          assert r[k] == prev[k];
          assert init[Index(prev[k], w)] == c;
        }
      }
      forall i, j | 0 <= i < j < |r| ensures Index(r[i], w) < Index(r[j], w) {
        assert r[i] == prev[i];
        if j < |prev| {
          assert r[j] == prev[j];
        }
      }
    }
  }

  /** What assortPixels holds after scanning the first n pixels. */
  ghost predicate Gathered(img: seq<int>, w: int, n: nat, colors: seq<int>, pixels: map<int, seq<Pixel>>)
    requires 0 < w && n <= |img|
  {
    && colors == ColorOrder(img[..n])
    && (forall c :: c in pixels <==> c in colors)
    && (forall c :: c in pixels ==> pixels[c] == PixelsOf(img[..n], w, c))
  }

  /** assortPixels: scan the image row-major, skip colour 0, and append each
      painted pixel's coordinates to its colour's list, creating the list on
      the colour's first pixel. `colors` is the key order of the source's Map. */
  method AssortPixels(arr: seq<int>, w: nat, h: nat) returns (colors: seq<int>, pixels: map<int, seq<Pixel>>)
    requires w * h <= |arr|
    ensures 0 < w ==> colors == ColorOrder(arr[..w * h])
    ensures w == 0 ==> colors == []
    ensures forall c :: c in pixels <==> c in colors
    ensures forall c :: c in pixels && 0 < w ==> pixels[c] == PixelsOf(arr[..w * h], w, c)
  {
    colors, pixels := [], map[];
    if w == 0 {
      return;
    }
    Arith.MulMonotone(0, h, w);
    ghost var img := arr[..w * h];
    var y := 0;
    while y < h
      invariant 0 <= y <= h && y * w <= |img|
      invariant Gathered(img, w, y * w, colors, pixels)
    {
      Arith.MulMonotone(y + 1, h, w);
      colors, pixels := GatherRow(arr, w, y, img, colors, pixels);
      y := y + 1;
    }
    ghost var n := y * w;
    assert n == |img| && img[..n] == img;
  }

  /** One row of assortPixels' scan: pixels y * w to y * w + w - 1. */
  method GatherRow(arr: seq<int>, w: nat, y: nat, ghost img: seq<int>, colors: seq<int>, pixels: map<int, seq<Pixel>>)
    returns (colors': seq<int>, pixels': map<int, seq<Pixel>>)
    requires 0 < w && (y + 1) * w <= |img| <= |arr| && img == arr[..|img|]
    requires Gathered(img, w, y * w, colors, pixels)
    ensures Gathered(img, w, (y + 1) * w, colors', pixels')
  {
    colors', pixels' := colors, pixels;
    assert (y + 1) * w == y * w + w;
    ghost var n := y * w;
    var x := 0;
    while x < w
      invariant 0 <= x <= w
      invariant n == x + y * w && n <= |img|
      invariant Gathered(img, w, n, colors', pixels')
    {
      colors', pixels' := GatherOne(arr, w, x, y, img, colors', pixels');
      x, n := x + 1, n + 1;
    }
  }

  /** The body of assortPixels' inner loop, for the pixel at column x of row y. */
  method GatherOne(arr: seq<int>, w: nat, x: nat, y: nat, ghost img: seq<int>, colors: seq<int>, pixels: map<int, seq<Pixel>>)
    returns (colors': seq<int>, pixels': map<int, seq<Pixel>>)
    requires x < w && x + y * w < |img| <= |arr| && img == arr[..|img|]
    requires Gathered(img, w, x + y * w, colors, pixels)
    ensures Gathered(img, w, x + y * w + 1, colors', pixels')
  {
    ghost var n := x + y * w;
    Arith.RowMajor(x, y, w);
    var color := arr[x + y * w];
    assert color == img[n] && Coord(n, w) == (x, y);
    colors', pixels' := colors, pixels;
    if color != NoPaint {
      var list := if color in pixels then pixels[color] else [];
      pixels' := pixels[color := list + [(x, y)]];
      if color !in colors {
        colors' := colors + [color];
      }
    }
    GatherPixel(img, w, n, colors, pixels, colors', pixels');
  }

  /** One step of assortPixels' scan keeps Gathered. */
  lemma {:induction false} GatherPixel(img: seq<int>, w: int, n: nat, colors: seq<int>, pixels: map<int, seq<Pixel>>,
                                       colors': seq<int>, pixels': map<int, seq<Pixel>>)
    requires 0 < w && n < |img|
    requires Gathered(img, w, n, colors, pixels)
    requires img[n] == NoPaint ==> colors' == colors && pixels' == pixels
    requires img[n] != NoPaint ==>
      && colors' == (if img[n] in colors then colors else colors + [img[n]])
      && pixels' == pixels[img[n] := (if img[n] in pixels then pixels[img[n]] else []) + [Coord(n, w)]]
    ensures Gathered(img, w, n + 1, colors', pixels')
  {
    var color := img[n];
    var pre := img[..n + 1];
    assert pre[..n] == img[..n];
    assert ColorOrder(pre) ==
      if color == NoPaint || color in ColorOrder(img[..n]) then ColorOrder(img[..n])
      else ColorOrder(img[..n]) + [color];
    ColorOrderMembers(img[..n]);
    forall c | c in pixels' ensures pixels'[c] == PixelsOf(pre, w, c) {
      assert PixelsOf(pre, w, c) == PixelsOf(img[..n], w, c) + (if color == c then [Coord(n, w)] else []);
      if c == color && c !in pixels {
        assert c !in img[..n];
        PixelsOfAbsent(img[..n], w, c);
      }
    }
  }

  lemma {:induction false} PixelsOfAbsent(img: seq<int>, w: int, c: int)
    requires 0 < w && c !in img
    ensures PixelsOf(img, w, c) == []
  {
    if img != [] {
      PixelsOfAbsent(img[..|img| - 1], w, c);
    }
  }

  /** One dot: an absolute move to the pixel's top-left corner, then the shape. */
  function DotCommand(p: Pixel, shape: string): string {
    "M" + IntStr(p.0) + "," + IntStr(p.1) + shape
  }

  /** The string the dot-mode toPath returns: one dot per pixel, in list order. */
  function DotPath(pixels: seq<Pixel>, shape: string): string {
    if pixels == [] then "" else DotPath(pixels[..|pixels| - 1], shape) + DotCommand(pixels[|pixels| - 1], shape)
  }

  /** toPath of dot mode: append one dot per pixel. */
  method DotToPath(pixels: seq<Pixel>, shape: string) returns (path: string)
    ensures path == DotPath(pixels, shape)
  {
    path := "";
    var i := 0;
    while i < |pixels|
      invariant 0 <= i <= |pixels|
      invariant path == DotPath(pixels[..i], shape)
    {
      var x, y := pixels[i].0, pixels[i].1;
      DotPathStep(pixels, i, shape);
      path := path + ("M" + IntStr(x) + "," + IntStr(y) + shape);
      i := i + 1;
    }
    assert pixels[..i] == pixels;
  }

  lemma {:induction false} DotPathStep(pixels: seq<Pixel>, i: nat, shape: string)
    requires i < |pixels|
    ensures DotPath(pixels[..i + 1], shape) == DotPath(pixels[..i], shape) + DotCommand(pixels[i], shape)
  {
    assert pixels[..i + 1][..i] == pixels[..i];
  }

  /** The dots of two lists of pixels are the dots of each, one after the other. */
  lemma {:induction false} DotPathAppend(a: seq<Pixel>, b: seq<Pixel>, shape: string)
    ensures DotPath(a + b, shape) == DotPath(a, shape) + DotPath(b, shape)
  {
    if b == [] {
      assert a + b == a;
    } else {
      var b' := b[..|b| - 1];
      DotPathAppend(a, b', shape);
      DotPathLast(a, b, shape);
      Associate3(DotPath(a, shape), DotPath(b', shape), DotCommand(b[|b| - 1], shape));
    }
  }

  lemma {:induction false} DotPathLast(a: seq<Pixel>, b: seq<Pixel>, shape: string)
    requires b != []
    ensures DotPath(a + b, shape) == DotPath(a + b[..|b| - 1], shape) + DotCommand(b[|b| - 1], shape)
  {
    assert (a + b)[..|a + b| - 1] == a + b[..|b| - 1];
    assert (a + b)[|a + b| - 1] == b[|b| - 1];
  }

  /** With a shape that draws no absolute move of its own, the path holds one
      `M` per pixel. */
  lemma {:induction false} DotPathCountsPixels(pixels: seq<Pixel>, shape: string)
    requires 'M' !in shape
    ensures Count(DotPath(pixels, shape), 'M') == |pixels|
  {
    if pixels != [] {
      var p := pixels[|pixels| - 1];
      DotPathCountsPixels(pixels[..|pixels| - 1], shape);
      DotCommandOneM(p, shape);
      CountAppend(DotPath(pixels[..|pixels| - 1], shape), DotCommand(p, shape), 'M');
    }
  }

  lemma {:induction false} DotCommandOneM(p: Pixel, shape: string)
    requires 'M' !in shape
    ensures Count(DotCommand(p, shape), 'M') == 1
  {
    IntStrChars(p.0);
    IntStrChars(p.1);
    var tail := IntStr(p.0) + "," + IntStr(p.1) + shape;
    assert 'M' !in tail;
    CountAbsent(tail, 'M');
    assert DotCommand(p, shape) == "M" + tail;
    CountAppend("M", tail, 'M');
    assert Count("M", 'M') == 1 by {
      assert "M"[..0] == [];
    }
  }

  /** Every ready-made shape, and the default, is free of absolute moves. */
  lemma {:induction false} ShapesHaveNoAbsoluteMove()
    ensures 'M' !in DefaultShape && 'M' !in Dia && 'M' !in Circle
    ensures 'M' !in TopLeft && 'M' !in TopRight && 'M' !in BottomLeft && 'M' !in BottomRight
  {
  }
}
