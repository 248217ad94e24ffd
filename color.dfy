/** Colour words and their text: the byte layout of a pixel word (splitColor),
    the CSS hex colour formatColor writes, normalizePixel, and the opacity of a
    mask colour. A word is an unsigned 32-bit value whose bytes, least
    significant first, are the r, g, b, a bytes of an RGBA pixel: the layout a
    Uint32Array view gives a Uint8Array of pixels on a little-endian machine. */
module Color {
  import Arith

  type Byte = b: int | 0 <= b < 256

  const WordLimit: int := 0x1_0000_0000

  predicate IsWord(c: int) {
    0 <= c < WordLimit
  }

  /** The word whose bytes, least significant first, are b. */
  function Word(b: seq<Byte>): (c: int)
    requires |b| == 4
    ensures IsWord(c)
  {
    var b0, b1, b2, b3: int := b[0], b[1], b[2], b[3];
    b0 + 0x100 * b1 + 0x1_0000 * b2 + 0x100_0000 * b3
  }

  /** splitColor: byte k of the word is (c >>> 8k) & 255, so the result is [r, g, b, a]. */
  function SplitColor(c: int): (r: seq<Byte>)
    requires IsWord(c)
    ensures |r| == 4
    ensures Word(r) == c
  {
    var r0, q1 := c % 0x100, c / 0x100;
    var r1, q2 := q1 % 0x100, q1 / 0x100;
    var r2, q3 := q2 % 0x100, q2 / 0x100;
    assert c == r0 + 0x100 * r1 + 0x1_0000 * r2 + 0x100_0000 * q3;
    Arith.DivModUnique(c, 0x1_0000, q2, r0 + 0x100 * r1);
    Arith.DivModUnique(c, 0x100_0000, q3, r0 + 0x100 * r1 + 0x1_0000 * r2);
    [r0, r1, r2, q3 % 0x100]
  }

  /** Splitting a word built from four bytes gives the bytes back. */
  lemma {:induction false} SplitWord(b: seq<Byte>)
    requires |b| == 4
    ensures SplitColor(Word(b)) == b
  {
    var c := Word(b);
    var b0, b1, b2, b3: int := b[0], b[1], b[2], b[3];
    Arith.DivModUnique(c, 0x100, b1 + 0x100 * b2 + 0x1_0000 * b3, b0);
    Arith.DivModUnique(b1 + 0x100 * b2 + 0x1_0000 * b3, 0x100, b2 + 0x100 * b3, b1);
    Arith.DivModUnique(c, 0x1_0000, b2 + 0x100 * b3, b0 + 0x100 * b1);
    Arith.DivModUnique(b2 + 0x100 * b3, 0x100, b3, b2);
    Arith.DivModUnique(c, 0x100_0000, b3, b0 + 0x100 * b1 + 0x1_0000 * b2);
  }

  /** The alpha byte: `color >>> 24`. */
  function Alpha(c: int): (a: Byte)
    requires IsWord(c)
    ensures a == SplitColor(c)[3]
  {
    c / 0x100_0000
  }

  // Hexadecimal text.

  /** The lower-case hexadecimal digit of k: '0'..'9', then 'a'..'f'. */
  function HexDigit(k: int): (ch: char)
    requires 0 <= k < 16
  {
    if k < 10 then ('0' as int + k) as char else ('a' as int + k - 10) as char
  }

  predicate IsHexDigit(ch: char) {
    '0' <= ch <= '9' || 'a' <= ch <= 'f'
  }

  function HexValue(ch: char): (k: int)
    requires IsHexDigit(ch)
    ensures 0 <= k < 16
  {
    if ch <= '9' then ch as int - '0' as int else ch as int - 'a' as int + 10
  }

  lemma {:induction false} HexDigitValue(k: int)
    requires 0 <= k < 16
    ensures IsHexDigit(HexDigit(k)) && HexValue(HexDigit(k)) == k
  {
  }

  function Pow16(k: nat): (p: nat)
    ensures p >= 1
  {
    if k == 0 then 1 else 16 * Pow16(k - 1)
  }

  /** Number.prototype.toString(16) of a non-negative integer: lower-case
      digits, most significant first, no leading zeros. */
  function ToHex(n: nat): (s: string)
    ensures |s| >= 1
  {
    if n < 16 then [HexDigit(n)] else ToHex(n / 16) + [HexDigit(n % 16)]
  }

  /** String.prototype.padStart(k, "0"). */
  function PadStart(s: string, k: nat): (r: string)
    ensures |s| >= k ==> r == s
    ensures |s| < k ==> |r| == k && r[k - |s|..] == s && forall i :: 0 <= i < k - |s| ==> r[i] == '0'
    decreases k - |s|
  {
    if |s| >= k then s else PadStart("0" + s, k)
  }

  /** n written in exactly k hexadecimal digits, leading zeros included. */
  function FixedHex(n: nat, k: nat): (s: string)
    ensures |s| == k && forall i :: 0 <= i < k ==> IsHexDigit(s[i])
  {
    if k == 0 then "" else FixedHex(n / 16, k - 1) + [HexDigit(n % 16)]
  }

  /** The value of a string of hexadecimal digits. */
  function ParseHex(s: string): nat
    requires forall i :: 0 <= i < |s| ==> IsHexDigit(s[i])
  {
    if s == [] then 0 else 16 * ParseHex(s[..|s| - 1]) + HexValue(s[|s| - 1])
  }

  function Zeros(m: nat): (s: string)
    ensures |s| == m
  {
    seq(m, _ => '0')
  }

  /** Reading k digits of n back gives n, when n fits in k digits. */
  lemma {:induction false} ParseFixedHex(n: nat, k: nat)
    requires n < Pow16(k)
    ensures ParseHex(FixedHex(n, k)) == n
  {
    if k > 0 {
      var s := FixedHex(n, k);
      assert s[..k - 1] == FixedHex(n / 16, k - 1);
      HexDigitValue(n % 16);
      ParseFixedHex(n / 16, k - 1);
    }
  }

  /** toString(16) is the fixed-width rendering in as many digits as it has. */
  lemma {:induction false} ToHexFixed(n: nat)
    ensures ToHex(n) == FixedHex(n, |ToHex(n)|)
    ensures n < Pow16(|ToHex(n)|)
    ensures |ToHex(n)| == 1 || Pow16(|ToHex(n)| - 1) <= n
  {
    if n >= 16 {
      ToHexFixed(n / 16);
    }
  }

  /** Digits above the width a number needs are zeros. */
  lemma {:induction false} FixedHexWiden(n: nat, j: nat, k: nat)
    requires j <= k && n < Pow16(j)
    ensures FixedHex(n, k) == Zeros(k - j) + FixedHex(n, j)
  {
    if j == 0 {
      FixedHexZero(k);
    } else {
      FixedHexWiden(n / 16, j - 1, k - 1);
      var z, f, d := Zeros(k - j), FixedHex(n / 16, j - 1), [HexDigit(n % 16)];
      assert z + f + d == z + (f + d);
    }
  }

  lemma {:induction false} FixedHexZero(k: nat)
    ensures FixedHex(0, k) == Zeros(k)
  {
    if k > 0 {
      FixedHexZero(k - 1);
      assert Zeros(k - 1) + ['0'] == Zeros(k);
    }
  }

  /** Padding toString(16) to k digits is the fixed-width rendering, whenever
      the number fits in k digits. */
  lemma {:induction false} PadToHex(n: nat, k: nat)
    requires 1 <= k && n < Pow16(k)
    ensures PadStart(ToHex(n), k) == FixedHex(n, k)
  {
    ToHexFixed(n);
    var s := ToHex(n);
    var l := |s|;
    if l > k {
      Pow16Monotone(k, l - 1);
      assert false;
    }
    FixedHexWiden(n, l, k);
    var p := PadStart(s, k);
    assert p == Zeros(k - l) + s;
  }

  lemma {:induction false} Pow16Monotone(j: nat, k: nat)
    requires j <= k
    ensures Pow16(j) <= Pow16(k)
  {
    if j < k {
      Pow16Monotone(j, k - 1);
    }
  }

  /** Appending one hex digit lo to a number hi appends its character to the text. */
  lemma {:induction false} FixedHexAppend(n: nat, hi: nat, lo: nat, m: nat)
    requires n == hi * 16 + lo && lo < 16
    ensures FixedHex(n, m + 1) == FixedHex(hi, m) + [HexDigit(lo)]
  {
    Arith.DivModUnique(n, 16, hi, lo);
  }

  // formatColor.

  /** r, g and b all have equal hex digits (multiples of 0x11), so `#rgb` suffices. */
  predicate Short(r: int, g: int, b: int) {
    r % 0x11 == 0 && g % 0x11 == 0 && b % 0x11 == 0
  }

  /** The hex digits formatColor writes after '#'. The shorthand joins r/17,
      g/17, b/17 as (r/17) << 8 | (g/17) << 4 | b/17 and the long form as
      r << 16 | g << 8 | b; the bit fields are disjoint and the values below
      2^24, so both are plain sums. */
  function HexCode(r: Byte, g: Byte, b: Byte): string {
    if Short(r, g, b) then PadStart(ToHex(r / 0x11 * 0x100 + g / 0x11 * 0x10 + b / 0x11), 3)
    else PadStart(ToHex(r * 0x1_0000 + g * 0x100 + b), 6)
  }

  /** formatColor: '#' and the hex code of the colour's r, g, b bytes. It is
      `#` and 3 digits exactly when r, g and b are all multiples of 0x11, `#`
      and 6 digits otherwise, and the text denotes the colour's r, g, b
      whatever its alpha. */
  function FormatColor(c: int): (s: string)
    requires IsWord(c)
    ensures IsHexColor(s)
    ensures |s| == 4 <==> Short(SplitColor(c)[0], SplitColor(c)[1], SplitColor(c)[2])
    ensures ParseColor(s) == (SplitColor(c)[0], SplitColor(c)[1], SplitColor(c)[2])
  {
    var rgba := SplitColor(c);
    HexCodeRoundTrip(rgba[0], rgba[1], rgba[2]);
    "#" + HexCode(rgba[0], rgba[1], rgba[2])
  }

  /** A CSS hex colour `#rgb` or `#rrggbb`. */
  predicate IsHexColor(s: string) {
    (|s| == 4 || |s| == 7) && s[0] == '#' && forall i :: 1 <= i < |s| ==> IsHexDigit(s[i])
  }

  /** The (r, g, b) a CSS hex colour denotes: each shorthand digit is doubled. */
  function ParseColor(s: string): (int, int, int)
    requires IsHexColor(s)
  {
    if |s| == 4 then (0x11 * HexValue(s[1]), 0x11 * HexValue(s[2]), 0x11 * HexValue(s[3]))
    else (ParseHex(s[1..3]), ParseHex(s[3..5]), ParseHex(s[5..7]))
  }

  /** The hex code is 3 digits exactly for the shorthand colours and 6 otherwise,
      and reads back as the colour's r, g, b. */
  lemma {:induction false} HexCodeRoundTrip(r: Byte, g: Byte, b: Byte)
    ensures var h := HexCode(r, g, b);
      && (|h| == 3 <==> Short(r, g, b)) && (|h| == 3 || |h| == 6)
      && (forall i :: 0 <= i < |h| ==> IsHexDigit(h[i]))
      && ParseColor("#" + h) == (r, g, b)
  {
    if Short(r, g, b) {
      ShortCode(r, g, b);
      ShortParse(r, g, b, "#" + HexCode(r, g, b));
    } else {
      LongCode(r, g, b);
      LongParse(r, g, b, "#" + HexCode(r, g, b));
    }
  }

  /** The shorthand code is one digit per channel, r / 0x11, g / 0x11, b / 0x11. */
  lemma {:induction false} ShortCode(r: Byte, g: Byte, b: Byte)
    requires Short(r, g, b)
    ensures HexCode(r, g, b) == FixedHex(r / 0x11 * 0x100 + g / 0x11 * 0x10 + b / 0x11, 3)
    ensures HexCode(r, g, b) == [HexDigit(r / 0x11), HexDigit(g / 0x11), HexDigit(b / 0x11)]
  {
    var x, y, z := r / 0x11, g / 0x11, b / 0x11;
    ShortDigits(x, y, z);
    PadToHex(x * 0x100 + y * 0x10 + z, 3);
  }

  lemma {:induction false} ShortParse(r: Byte, g: Byte, b: Byte, s: string)
    requires Short(r, g, b)
    requires s == "#" + [HexDigit(r / 0x11), HexDigit(g / 0x11), HexDigit(b / 0x11)]
    ensures IsHexColor(s) && ParseColor(s) == (r, g, b)
  {
    HexDigitValue(r / 0x11);
    HexDigitValue(g / 0x11);
    HexDigitValue(b / 0x11);
  }

  /** The long code is two digits per channel. */
  lemma {:induction false} LongCode(r: Byte, g: Byte, b: Byte)
    requires !Short(r, g, b)
    ensures HexCode(r, g, b) == FixedHex(r * 0x1_0000 + g * 0x100 + b, 6)
    ensures HexCode(r, g, b) == FixedHex(r, 2) + FixedHex(g, 2) + FixedHex(b, 2)
  {
    LongDigits(r, g, b);
    PadToHex(r * 0x1_0000 + g * 0x100 + b, 6);
  }

  lemma {:induction false} LongParse(r: Byte, g: Byte, b: Byte, s: string)
    requires s == "#" + FixedHex(r, 2) + FixedHex(g, 2) + FixedHex(b, 2)
    ensures IsHexColor(s) && ParseColor(s) == (r, g, b)
  {
    Pow16Values();
    assert s[1..3] == FixedHex(r, 2) && s[3..5] == FixedHex(g, 2) && s[5..7] == FixedHex(b, 2);
    ParseFixedHex(r, 2);
    ParseFixedHex(g, 2);
    ParseFixedHex(b, 2);
  }

  /** The three digits of a shorthand code are the three nibbles. */
  lemma {:induction false} ShortDigits(x: nat, y: nat, z: nat)
    requires x < 16 && y < 16 && z < 16
    ensures x * 0x100 + y * 0x10 + z < Pow16(3)
    ensures FixedHex(x * 0x100 + y * 0x10 + z, 3) == [HexDigit(x), HexDigit(y), HexDigit(z)]
  {
    Pow16Values();
    var n2 := x * 0x10 + y;
    FixedHexAppend(x * 0x100 + y * 0x10 + z, n2, z, 2);
    FixedHexAppend(n2, x, y, 1);
    FixedHexOne(x);
    Chain3(FixedHex(x * 0x100 + y * 0x10 + z, 3), FixedHex(n2, 2), FixedHex(x, 1),
           HexDigit(x), HexDigit(y), HexDigit(z));
  }

  lemma {:induction false} FixedHexOne(x: nat)
    requires x < 16
    ensures FixedHex(x, 1) == [HexDigit(x)]
  {
    FixedHexAppend(x, 0, x, 0);
  }

  lemma {:induction false} Chain3<T>(l: seq<T>, m: seq<T>, n: seq<T>, dx: T, dy: T, dz: T)
    requires l == m + [dz] && m == n + [dy] && n == [dx]
    ensures l == [dx, dy, dz]
  {
  }

  /** Two digits of a byte. */
  lemma {:induction false} ByteDigits(x: Byte)
    ensures FixedHex(x, 2) == [HexDigit(x / 16), HexDigit(x % 16)]
  {
    FixedHexAppend(x, x / 16, x % 16, 1);
    FixedHexOne(x / 16);
  }

  /** The six digits of a long code are two for each of r, g, b. */
  lemma {:induction false} LongDigits(r: Byte, g: Byte, b: Byte)
    ensures r * 0x1_0000 + g * 0x100 + b < Pow16(6)
    ensures FixedHex(r * 0x1_0000 + g * 0x100 + b, 6) == FixedHex(r, 2) + FixedHex(g, 2) + FixedHex(b, 2)
  {
    Pow16Values();
    var n5, n4, n3, n2 := r * 0x1000 + g * 0x10 + b / 16, r * 0x100 + g, r * 0x10 + g / 16, r;
    FixedHexAppend(r * 0x1_0000 + g * 0x100 + b, n5, b % 16, 5);
    FixedHexAppend(n5, n4, b / 16, 4);
    FixedHexAppend(n4, n3, g % 16, 3);
    FixedHexAppend(n3, n2, g / 16, 2);
    ByteDigits(g);
    ByteDigits(b);
    Chain6(FixedHex(r * 0x1_0000 + g * 0x100 + b, 6), FixedHex(n5, 5), FixedHex(n4, 4), FixedHex(n3, 3), FixedHex(r, 2),
           HexDigit(g / 16), HexDigit(g % 16), HexDigit(b / 16), HexDigit(b % 16), FixedHex(g, 2), FixedHex(b, 2));
  }

  lemma {:induction false} Chain6<T>(l6: seq<T>, l5: seq<T>, l4: seq<T>, l3: seq<T>, l2: seq<T>,
                                     g1: T, g0: T, b1: T, b0: T, gs: seq<T>, bs: seq<T>)
    requires l6 == l5 + [b0] && l5 == l4 + [b1] && l4 == l3 + [g0] && l3 == l2 + [g1]
    requires gs == [g1, g0] && bs == [b1, b0]
    ensures l6 == l2 + gs + bs
  {
  }

  lemma {:induction false} Pow16Values()
    ensures Pow16(1) == 0x10 && Pow16(2) == 0x100 && Pow16(3) == 0x1000 && Pow16(6) == 0x100_0000
  {
    assert Pow16(4) == 0x1_0000;
    assert Pow16(5) == 0x10_0000;
  }

  // normalizePixel.

  /** One word of normalizePixel: `(val & 0xff000000) == 0 ? 0 : val`. The mask
      keeps exactly the alpha byte, so the test is "alpha is 0". */
  function NormalizeWord(c: int): (r: int)
    requires IsWord(c)
    ensures IsWord(r)
  {
    if Alpha(c) == 0 then 0 else c
  }

  /** The bytes of a pixel buffer read as words, four bytes to a word. */
  function Words(data: seq<Byte>): (ws: seq<int>)
    requires |data| % 4 == 0
    ensures |ws| == |data| / 4 && forall i :: 0 <= i < |ws| ==> IsWord(ws[i])
  {
    seq(|data| / 4, i requires 0 <= i < |data| / 4 => Word(data[4 * i..4 * i + 4]))
  }

  /** Words laid out as bytes again. */
  function Bytes(ws: seq<int>): (data: seq<Byte>)
    requires forall i :: 0 <= i < |ws| ==> IsWord(ws[i])
    ensures |data| == 4 * |ws|
  {
    seq(4 * |ws|, k requires 0 <= k < 4 * |ws| => SplitColor(ws[k / 4])[k % 4])
  }

  /** The words of a buffer, each put through NormalizeWord. */
  function NormalizedWords(data: seq<Byte>): (ws: seq<int>)
    requires |data| % 4 == 0
    ensures |ws| == |data| / 4 && forall i :: 0 <= i < |ws| ==> IsWord(ws[i])
  {
    var ws := Words(data);
    seq(|ws|, i requires 0 <= i < |ws| => NormalizeWord(ws[i]))
  }

  /** normalizePixel: map every word of the buffer through NormalizeWord. Per
      byte, it zeroes the four bytes of a pixel whose alpha byte is 0 and leaves
      every other pixel as it was. */
  function NormalizePixel(data: seq<Byte>): (r: seq<Byte>)
    requires |data| % 4 == 0
    ensures |r| == |data|
    ensures forall k :: 0 <= k < |data| ==> 0 <= AlphaAt(k) < |data|
    ensures forall k :: 0 <= k < |data| ==> r[k] == if data[AlphaAt(k)] == 0 then 0 else data[k]
  {
    var r := Bytes(NormalizedWords(data));
    assert forall k :: 0 <= k < |data| ==> r[k] == if data[AlphaAt(k)] == 0 then 0 else data[k] by {
      forall k | 0 <= k < |data| ensures r[k] == if data[AlphaAt(k)] == 0 then 0 else data[k] {
        NormalizedByte(data, k);
      }
    }
    r
  }

  /** Reading bytes as words and writing them back changes nothing. */
  lemma {:induction false} BytesWords(data: seq<Byte>)
    requires |data| % 4 == 0
    ensures Bytes(Words(data)) == data
  {
    var ws := Words(data);
    forall k | 0 <= k < |data| ensures Bytes(ws)[k] == data[k] {
      var i := k / 4;
      SplitWord(data[4 * i..4 * i + 4]);
    }
  }

  /** The index of the alpha byte of the pixel that byte k belongs to. */
  function AlphaAt(k: int): int {
    k - k % 4 + 3
  }

  lemma {:induction false} AlphaAtAlpha(k: int)
    ensures AlphaAt(AlphaAt(k)) == AlphaAt(k) && AlphaAt(k) / 4 == k / 4
  {
    Arith.DivModUnique(AlphaAt(k), 4, k / 4, 3);
  }

  lemma {:induction false} NormalizedByte(data: seq<Byte>, k: int)
    requires |data| % 4 == 0 && 0 <= k < |data|
    ensures 0 <= AlphaAt(k) < |data|
    ensures Bytes(NormalizedWords(data))[k] == if data[AlphaAt(k)] == 0 then 0 else data[k]
  {
    var ws := Words(data);
    var i := k / 4;
    var px := data[4 * i..4 * i + 4];
    SplitWord(px);
    assert ws[i] == Word(px);
    assert data[AlphaAt(k)] == px[3] && data[k] == px[k % 4];
  }

  /** Normalizing twice is normalizing once. */
  lemma {:induction false} NormalizePixelIdempotent(data: seq<Byte>)
    requires |data| % 4 == 0
    ensures NormalizePixel(NormalizePixel(data)) == NormalizePixel(data)
  {
    var n := NormalizePixel(data);
    forall k | 0 <= k < |data| ensures NormalizePixel(n)[k] == n[k] {
      AlphaAtAlpha(k);
    }
  }

  // opacity.

  /** Dotrace.opacity in thousandths: Math.round(a / 255 * 1000) for the alpha
      byte a, computed exactly. The exact quotient is never within 1/510 of a
      rounding boundary, so the floating-point result is the same integer. */
  function OpacityThousandths(c: int): (t: int)
    requires IsWord(c)
    ensures 0 <= t <= 1000
    ensures -255 <= 2000 * Alpha(c) - 510 * t < 255
  {
    (2000 * Alpha(c) + 255) / 510
  }

  /** Fully transparent is 0, fully opaque is 1, and more alpha is never less opaque. */
  lemma {:induction false} OpacityMonotone(c: int, c': int)
    requires IsWord(c) && IsWord(c') && Alpha(c) <= Alpha(c')
    ensures OpacityThousandths(c) <= OpacityThousandths(c')
    ensures Alpha(c) == 0 ==> OpacityThousandths(c) == 0
    ensures Alpha(c') == 255 ==> OpacityThousandths(c') == 1000
  {
  }
}
