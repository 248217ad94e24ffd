/** The channel split in toSVG: an RGBA buffer is separated into a colour
    buffer (every visible pixel made opaque) and an alpha buffer (every visible
    pixel made white with the original alpha), and the mask is needed exactly
    when some pixel is translucent. Both buffers start filled with 255. */
module Channels {
  import opened Color
  import Arith

  /** Pixel i is neither fully transparent nor fully opaque. */
  predicate Translucent(data: seq<Byte>, i: nat)
    requires 4 * i + 3 < |data|
  {
    0 < data[4 * i + 3] < 255
  }

  /** Byte k of the colour buffer once the first n pixels are split: untouched
      (255) past them, 0 for a fully transparent pixel, otherwise the colour
      bytes with 255 for alpha. */
  function RgbByte(data: seq<Byte>, n: nat, k: nat): Byte
    requires 4 * n <= |data| && k < |data|
  {
    if 4 * n <= k then 255
    else if data[AlphaAt(k)] == 0 then 0
    else if k % 4 == 3 then 255
    else data[k]
  }

  /** Byte k of the alpha buffer once the first n pixels are split: untouched
      (255) past them, 0 for a fully transparent pixel, otherwise 255 for the
      colour bytes with the original alpha. */
  function AlphaByte(data: seq<Byte>, n: nat, k: nat): Byte
    requires 4 * n <= |data| && k < |data|
  {
    if 4 * n <= k then 255
    else if data[AlphaAt(k)] == 0 then 0
    else if k % 4 == 3 then data[k]
    else 255
  }

  /** The two buffers hold the split of the first n pixels. */
  ghost predicate SplitUpTo(data: seq<Byte>, n: nat, rgb: array<Byte>, alpha: array<Byte>)
    requires 4 * n <= |data|
    reads rgb, alpha
  {
    && rgb.Length == |data| && alpha.Length == |data|
    && (forall k :: 0 <= k < |data| ==> rgb[k] == RgbByte(data, n, k))
    && (forall k :: 0 <= k < |data| ==> alpha[k] == AlphaByte(data, n, k))
  }

  /** The loop of toSVG that fills rgbdata and adata and decides needMask. */
  method SplitChannels(data: seq<Byte>, w: nat, h: nat) returns (rgb: array<Byte>, alpha: array<Byte>, needMask: bool)
    requires 4 * (w * h) <= |data|
    ensures fresh(rgb) && fresh(alpha) && rgb != alpha
    ensures SplitUpTo(data, w * h, rgb, alpha)
    ensures needMask <==> exists i :: 0 <= i < w * h && Translucent(data, i)
  {
    rgb := new Byte[|data|](_ => 255);
    alpha := new Byte[|data|](_ => 255);
    needMask := false;
    var y := 0;
    while y < h
      invariant 0 <= y <= h && 4 * (y * w) <= 4 * (w * h)
      invariant SplitUpTo(data, y * w, rgb, alpha)
      invariant needMask <==> exists i :: 0 <= i < y * w && Translucent(data, i)
    {
      Arith.MulMonotone(y + 1, h, w);
      needMask := SplitRow(data, w, y, rgb, alpha, needMask);
      y := y + 1;
    }
    assert y * w == w * h;
  }

  /** One row of the split loop: pixels y * w to y * w + w - 1. */
  method SplitRow(data: seq<Byte>, w: nat, y: nat, rgb: array<Byte>, alpha: array<Byte>, needMask: bool)
    returns (needMask': bool)
    requires 4 * ((y + 1) * w) <= |data| && rgb != alpha
    requires SplitUpTo(data, y * w, rgb, alpha)
    requires needMask <==> exists i :: 0 <= i < y * w && Translucent(data, i)
    modifies rgb, alpha
    ensures SplitUpTo(data, (y + 1) * w, rgb, alpha)
    ensures needMask' <==> exists i :: 0 <= i < (y + 1) * w && Translucent(data, i)
  {
    assert (y + 1) * w == y * w + w;
    needMask' := needMask;
    var x := 0;
    while x < w
      invariant 0 <= x <= w
      invariant SplitUpTo(data, x + y * w, rgb, alpha)
      invariant needMask' <==> exists i :: 0 <= i < x + y * w && Translucent(data, i)
    {
      needMask' := SplitStep(data, x + y * w, rgb, alpha, needMask');
      x := x + 1;
    }
  }

  /** Pixel n of the split loop: its bytes are split, and the flag is raised
      when it is translucent. */
  method SplitStep(data: seq<Byte>, n: nat, rgb: array<Byte>, alpha: array<Byte>, needMask: bool)
    returns (needMask': bool)
    requires 4 * n + 4 <= |data| && rgb != alpha
    requires SplitUpTo(data, n, rgb, alpha)
    requires needMask <==> exists i :: 0 <= i < n && Translucent(data, i)
    modifies rgb, alpha
    ensures SplitUpTo(data, n + 1, rgb, alpha)
    ensures needMask' <==> exists i :: 0 <= i < n + 1 && Translucent(data, i)
  {
    var a := data[n * 4 + 3];
    SplitPixel(data, n, rgb, alpha);
    needMask' := needMask;
    if 0 < a && a < 255 {
      needMask' := true;
    }
    MaskStep(data, n, needMask, needMask');
  }

  /** The body of the split loop for pixel n. */
  method SplitPixel(data: seq<Byte>, n: nat, rgb: array<Byte>, alpha: array<Byte>)
    requires 4 * n + 4 <= |data| && rgb != alpha
    requires SplitUpTo(data, n, rgb, alpha)
    modifies rgb, alpha
    ensures SplitUpTo(data, n + 1, rgb, alpha)
  {
    var p := n * 4;
    var r, g, b, a := data[p], data[p + 1], data[p + 2], data[p + 3];
    if a == 0 {
      rgb[p], rgb[p + 1], rgb[p + 2], rgb[p + 3] := 0, 0, 0, 0;
      alpha[p], alpha[p + 1], alpha[p + 2], alpha[p + 3] := 0, 0, 0, 0;
    } else {
      rgb[p], rgb[p + 1], rgb[p + 2] := r, g, b;
      alpha[p + 3] := a;
    }
    forall k | 0 <= k < |data|
      ensures rgb[k] == RgbByte(data, n + 1, k) && alpha[k] == AlphaByte(data, n + 1, k)
    {
      if p <= k < p + 4 {
        Arith.DivModUnique(k, 4, n, k - p);
      }
    }
  }

  /** Pixel n is translucent, or an earlier one was, exactly when some pixel up to n is. */
  lemma {:induction false} MaskStep(data: seq<Byte>, n: nat, before: bool, after: bool)
    requires 4 * n + 4 <= |data|
    requires before <==> exists i :: 0 <= i < n && Translucent(data, i)
    requires after == (before || 0 < data[4 * n + 3] < 255)
    ensures after <==> exists i :: 0 <= i < n + 1 && Translucent(data, i)
  {
    if after && !before {
      assert Translucent(data, n);
    }
  }

  /** Putting the colour buffer's r, g, b next to the alpha buffer's alpha gives
      back the pixel as normalizePixel leaves it: the split loses nothing but
      the colour of fully transparent pixels. */
  lemma {:induction false} SplitRecombines(data: seq<Byte>, n: nat, k: nat)
    requires |data| % 4 == 0 && 4 * n <= |data| && k < 4 * n
    ensures (if k % 4 == 3 then AlphaByte(data, n, k) else RgbByte(data, n, k)) == NormalizePixel(data)[k]
  {
    if k % 4 == 3 {
      assert AlphaAt(k) == k;
    }
  }

  /** No pixel of the colour buffer is translucent, so tracing it needs no mask. */
  lemma {:induction false} RgbOpaque(data: seq<Byte>, n: nat, i: nat)
    requires 4 * n <= |data| && 4 * i + 3 < |data|
    ensures RgbByte(data, n, 4 * i + 3) == 0 || RgbByte(data, n, 4 * i + 3) == 255
    ensures RgbByte(data, n, 4 * i + 3) == 0 <==> i < n && data[4 * i + 3] == 0
  {
    AlphaAtOfAlpha(i);
  }

  /** The alpha buffer's pixel, read as a word, is black-transparent or white
      with the original alpha; its alpha byte, and hence the opacity the mask
      gets, is the original pixel's alpha. */
  lemma {:induction false} AlphaWord(data: seq<Byte>, n: nat, i: nat)
    requires 4 * n <= |data| && i < n
    ensures var a: int := data[4 * i + 3];
      var px := [AlphaByte(data, n, 4 * i), AlphaByte(data, n, 4 * i + 1), AlphaByte(data, n, 4 * i + 2), AlphaByte(data, n, 4 * i + 3)];
      && Word(px) == (if a == 0 then 0 else 0xFF_FFFF + 0x100_0000 * a)
      && Alpha(Word(px)) == a
  {
    AlphaAtOfAlpha(i);
    assert AlphaAt(4 * i) == 4 * i + 3 && AlphaAt(4 * i + 1) == 4 * i + 3 && AlphaAt(4 * i + 2) == 4 * i + 3;
    var px := [AlphaByte(data, n, 4 * i), AlphaByte(data, n, 4 * i + 1), AlphaByte(data, n, 4 * i + 2), AlphaByte(data, n, 4 * i + 3)];
    SplitWord(px);
  }

  lemma {:induction false} AlphaAtOfAlpha(i: nat)
    ensures AlphaAt(4 * i + 3) == 4 * i + 3 && (4 * i + 3) % 4 == 3
  {
    Arith.DivModUnique(4 * i + 3, 4, i, 3);
  }
}
