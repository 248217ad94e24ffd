# Dotrace core, modelled in Dafny

Dotrace turns pixel art into SVG path data. `dotrace.core.js` has two tracing
modes, and both work on an RGBA buffer read as one 32-bit colour word per
pixel.

- **Contour mode** (`Dotrace.trace`). For every colour it:
  - collects the clockwise unit edges of that colour's pixels;
  - cancels every edge shared by two pixels of the same colour, so only the
    region's boundary is left;
  - walks that boundary corner to corner, one loop at a time, each loop
    ending at the corner it started from;
  - writes the walk as an `m` move followed by run-length `h`/`v`/`h-`/`v-`
    commands, and closes each loop with `z`.
- **Dot mode** (`Dotrace.dotToShape`). For every colour it writes
  `M{x},{y}{shape}` once per pixel.

`toSVG` first splits the image into a colour buffer (visible pixels made
opaque) and an alpha buffer (visible pixels made white with the original
alpha), and decides whether a mask is needed. It always traces the colour
buffer; it traces the alpha buffer, as the mask, only when some pixel is
translucent. `formatColor` writes a colour as CSS hex. `normalizePixel` clears
fully transparent pixels.

The model has one module per part of the program:

- `Codec`: edge vectors `Vec(x, y, d)` and their packed integer key (joinXYD,
  splitXYD, toNext, toReverse).
- `ColorMap`: row-major coordinates, first-seen colour order, colour regions.
- `Boundary`: pushVector and pushVectorsWrapPixel as set updates, and the
  assortVectors scan as nested loops. The scan is proved to yield exactly the
  boundary of each colour's region.
- `Contour`: findNext's probe order, and toPath as nested loops. toPath is
  proved to drain its set into chains of edges and to emit exactly the text
  function `PathOf` of those chains. On a boundary set every chain is closed:
  a boundary has as many edges leaving each corner as arriving there, so a
  walk can only get stuck at its own start corner.
- `Dots`: assortPixels and the dot-mode toPath.
- `Channels`: the channel-split loop of toSVG, which works in place on two
  byte arrays.
- `Color`: splitColor, formatColor, normalizePixel, and opacity in
  thousandths.
- `Convert`: convert, instantiated as `Trace` and `DotToShape`.
- `Figures`: two shapes traced in full, a solid block and two pixels that
  touch at a corner.
- `Text`, `Arith`, `Seqs`, `Wrappers`: decimal numerals, arithmetic facts,
  sequence facts, and `Option`.

Contour and dot mode keep their sets and maps as values. Each loop reassigns
them, in the same order as the source's `has`/`add`/`delete`/`set` calls. The
channel split keeps the source's two arrays and updates them in place.

findNext's comment (`dotrace.core.js:112`) says it searches anticlockwise.
Its `if(i == 1)` test (`dotrace.core.js:114`) never fires, because `i` only
takes 0, −1, −2 and −3. The probe therefore tries `d`, `d−1`, `d−2` and
`d−3` (mod 4), in that order: straight on, left, back, right. The model has
the same four candidates in the same order.

Two shapes are traced in full. A solid w × h block has a boundary of
2(w + h) edges, and toPath drains it as a single closed loop, so its path
has exactly one subpath. Two pixels of one colour at (0, 0) and (1, 1) touch
only at corner (1, 1). toPath starts at E at (0, 0), the first edge pushed.
At the shared corner findNext tries straight on, then left, and turns left.
The two pixels are therefore drawn as one figure-eight loop of eight edges,
not as two squares.

## Model

| member | source | states |
|---|---|---|
| Codec.SplitJoin | dotrace.core.js:29-30 | For 0 ≤ x, y < 2^15 and any direction, splitXYD(joinXYD(x, y, d)) gives back (x, y, d). |
| Codec.Join | dotrace.core.js:29 | joinXYD of a packable vector is below 2^32, and its quotient by 2^17, its 15-bit y field and its low two bits are x, y and d. |
| Codec.JoinSplit | dotrace.core.js:29-30 | Every 32-bit key is the packing of its own split, so the key space and the vector space are in bijection. |
| Codec.JoinInjective | dotrace.core.js:29 | Two packable vectors have the same key exactly when they are equal. This is why a Set of keys can be modelled as a set of vectors. |
| Codec.Split | dotrace.core.js:30 | An unpacked key always has coordinates in the 15-bit range. |
| Codec.ToNext | dotrace.core.js:31-39 | toNext moves one unit step along v.d: horizontally exactly for east and west, towards larger coordinates exactly for east and south. It starts the result at the corner v leads to and relabels it with the new direction. |
| Codec.ToReverse | dotrace.core.js:40 | The reverse starts where the vector ends, ends where it starts, and points the opposite way. |
| Codec.ReverseInvolution | dotrace.core.js:40 | Reversing twice gives the original vector back, and no vector is its own reverse. |
| ColorMap.ColorOrderMembers | dotrace.core.js:43-57 | A colour gets a map key exactly when it is painted somewhere in the image and is not 0. |
| ColorMap.ColorOrderDistinct | dotrace.core.js:50-52 | Each colour is keyed only once. |
| ColorMap.ColorOrderFirstSeen | dotrace.core.js:45-52 | Keys are in row-major order of each colour's first pixel. |
| ColorMap.CoordInjective | dotrace.core.js:47 | The index `x + y * w` and the pair (x, y) determine each other. |
| Boundary.PushVector | dotrace.core.js:65-71 | Pushing an edge removes its reverse when the reverse is present, and adds the edge otherwise. |
| Boundary.PushPixel | dotrace.core.js:58-64 | The four pushes keep the no-reverse-pair invariant. An edge enters the set only if it has the pixel on its right, and leaves it only if the pixel lies across it. |
| Boundary.PushKeepsNoReversePair | dotrace.core.js:65-71 | pushVector preserves the invariant that no edge and its reverse are both in the set. |
| Boundary.PushThenReverse | dotrace.core.js:65-71 | Pushing an edge and then its reverse, onto a set that holds neither, leaves the set unchanged. |
| Boundary.PushCancelled | dotrace.core.js:65-71 | Pushing a new edge onto the cancelled form of a set of edges gives the cancelled form of the set with that edge added. |
| Boundary.OutlineOwned | dotrace.core.js:58-64 | The four clockwise edges pushed for a pixel are exactly the edges that have that pixel on their right. |
| Boundary.BoundaryMember | dotrace.core.js:58-71 | An edge is on a region's boundary exactly when its pixel is in the region and the pixel across the edge is not. |
| Boundary.BoundaryNoReversePair | dotrace.core.js:65-71 | A region's boundary never holds an edge together with its reverse. |
| Boundary.PushPixelBoundary | dotrace.core.js:58-71 | Pushing a new pixel's four edges onto a region's boundary gives the boundary of the region with that pixel added. |
| Boundary.LonePixel | dotrace.core.js:58-64 | A lone pixel at (x, y) yields exactly E at (x, y), S at (x+1, y), W at (x+1, y+1) and N at (x, y+1). |
| Boundary.AssortVectors | dotrace.core.js:43-57 | Keys are the non-zero colours in first-seen row-major order. Each colour's set is exactly the boundary of that colour's region, and every edge lies on the w × h grid. |
| Boundary.ScanRow | dotrace.core.js:46-54 | One row of the scan extends the colour order and the boundaries from the first y rows to the first y + 1 rows. |
| Boundary.ScanOne | dotrace.core.js:47-53 | One pixel of the scan: colour 0 is skipped; any other colour gets its key and its pixel's four edges. |
| Boundary.ScanPixel | dotrace.core.js:47-53 | The scan invariant holds after each pixel, for a skipped pixel as for a painted one. |
| Boundary.CountsZero | dotrace.core.js:65-71 | The out-count (in-count) of a corner is 0 exactly when no edge of the set leaves (arrives at) it. |
| Boundary.RemoveEdge | dotrace.core.js:68-69 | Deleting an edge lowers the out-count of its start corner and the in-count of its end corner by one, and changes no other count. |
| Boundary.BoundaryBalanced | dotrace.core.js:43-71 | Every corner of a region's boundary has as many edges leaving as arriving. |
| Boundary.CornerOut | dotrace.core.js:58-71 | Boundary edges leave a corner where, going clockwise round it, an unpainted pixel is followed by a painted one. |
| Boundary.CornerIn | dotrace.core.js:58-71 | Boundary edges arrive at a corner where a painted pixel is followed by an unpainted one. |
| Boundary.RegionOnGrid | dotrace.core.js:43-64 | Every boundary edge of a w × h image has both corners within 0..w × 0..h, so the 15-bit packing never overflows. |
| Contour.NextOfProbeOrder | dotrace.core.js:111-120 | The next edge is the first present candidate among directions d, d−1, d−2, d−3. It is absent exactly when no candidate is present. |
| Contour.FindNext | dotrace.core.js:111-120 | findNext returns a present candidate with no present candidate before it, or nothing when none of the four is present. |
| Contour.NoUTurn | dotrace.core.js:111-120 | On a set with no reverse pairs, the third candidate (turning back) is never taken. |
| Contour.WalkTakesFromSet | dotrace.core.js:91-107 | Following findNext takes distinct edges, all from the set. |
| Contour.DrainedExactlyOnce | dotrace.core.js:75-110 | When the set is empty, the loops hold every edge of the original set exactly once. |
| Contour.RunsExpand | dotrace.core.js:100-105 | Expanding the runs gives the direction sequence back, and adjacent runs differ in direction and have length ≥ 1. |
| Contour.ExpandRuns | dotrace.core.js:100-105 | Run-length encoding a well-formed run list's expansion gives the same list back. |
| Contour.RunsRepeat | dotrace.core.js:100-105 | Appending n copies of a new direction appends a single run of length n. |
| Contour.TraceLoop | dotrace.core.js:84-107 | One outer iteration removes the walk that starts at the chosen vector. It emits the move from the reference corner, every run but the last, and `z`. On a balanced set the walk ends at its start corner, and what remains is balanced again. |
| Contour.TraceAdvance | dotrace.core.js:98-106 | One inner step removes the found edge. It then lengthens the current run, or writes `header[d]` and the length and starts a new run. |
| Contour.TraceStep | dotrace.core.js:98-106 | The tracing invariant (walk, remaining set, open run, text so far) is kept by every step. |
| Contour.TraceClose | dotrace.core.js:92-96 | When findNext finds nothing, the walk is complete and the text plus `z` is the subpath of the walk. |
| Contour.ToPath | dotrace.core.js:75-110 | toPath empties the set into non-empty walks and returns exactly their concatenated subpaths. Each move is relative to the previous loop's start. On a balanced set every walk is closed. |
| Contour.WalkConnected | dotrace.core.js:91-107 | Following findNext gives a chain: each edge starts at the corner where the one before it ends. |
| Contour.LoopConnected | dotrace.core.js:84-107 | Every loop toPath takes is such a chain. |
| Contour.DrainedConnected | dotrace.core.js:82-108 | Every loop of a drained set is a chain. |
| Contour.ImbalanceStart | dotrace.core.js:84 | Taking the start edge out of a balanced set leaves its start corner one edge short on the way out and its end corner one short on the way in. |
| Contour.ImbalanceStep | dotrace.core.js:98 | Removing the next edge of the chain moves the open end to the corner that edge leads to. |
| Contour.ImbalanceClose | dotrace.core.js:92-96 | When no edge leaves the open end, the open end is the start corner and the rest is balanced. |
| Contour.NoNextLeavesNothing | dotrace.core.js:111-120 | When findNext finds nothing, no edge of the set leaves the corner v leads to, since its four candidates cover all four directions. |
| Contour.DrainStep | dotrace.core.js:82-89 | Each finished loop extends the drained list, and its start becomes the next reference corner. |
| Contour.PathStep | dotrace.core.js:95 | Appending a loop's subpath to the result is the path of the longer list of loops. |
| Contour.PathClosesEveryLoop | dotrace.core.js:93-96 | The path has exactly one `z` per loop and ends with `z`. |
| Contour.SubPathOneZ | dotrace.core.js:88-96 | Each subpath contains exactly one `z`, at its end. |
| Contour.LonePixelPath | dotrace.core.js:58-110 | A lone pixel traces as the loop E, S, W, N and is written `m{x},{y}h1v1h-1z`. |
| Contour.LoneRuns | dotrace.core.js:100-105 | The four turns of a lone pixel give four runs of length 1. |
| Contour.LoneCommands | dotrace.core.js:103 | The first three runs are written `h1v1h-1`; the fourth is left to `z`. |
| Dots.PixelsOfRegion | dotrace.core.js:129-142 | A colour's pixel list holds exactly the pixels of that colour, the same region that contour mode outlines. |
| Dots.PixelsOfOrdered | dotrace.core.js:131-138 | Listed pixels have the colour and are in strictly increasing row-major order. |
| Dots.AssortPixels | dotrace.core.js:129-142 | Keys are the non-zero colours in first-seen order, and each colour's list is its pixels in row-major order. |
| Dots.GatherRow | dotrace.core.js:131-139 | One row of the scan extends the colour order and the pixel lists from the first y rows to the first y + 1 rows. |
| Dots.GatherOne | dotrace.core.js:133-138 | One pixel of the scan: colour 0 is skipped; any other colour gets its key and appends the pixel. |
| Dots.GatherPixel | dotrace.core.js:133-138 | The gathering invariant holds after each pixel. |
| Dots.PixelsOfAbsent | dotrace.core.js:129-142 | A colour that does not occur has no pixels. |
| Dots.ShapeOrDefault | dotrace.core.js:143 | A missing shape becomes `h1v1h-1z` and a given one is used as is, so the shape is free of `M` whenever the given one is. |
| Dots.DotToPath | dotrace.core.js:143-150 | The dot-mode path is `M{x},{y}{shape}` for each pixel, concatenated in list order. |
| Dots.DotPathAppend | dotrace.core.js:145-148 | The dot path of two lists joined is the two dot paths joined. |
| Dots.DotPathCountsPixels | dotrace.core.js:143-150 | With a shape free of `M`, the path holds exactly one `M` per pixel. |
| Dots.ShapesHaveNoAbsoluteMove | dotrace.core.js:247-254 | The default shape and every built-in shape are free of `M`, so each dot starts exactly one absolute move. |
| Channels.SplitChannels | dotrace.core.js:176-196 | Both buffers start at 255. After the loop, each pixel with alpha 0 is 0 in all four bytes of both buffers. Otherwise the colour buffer holds (r, g, b, 255) and the alpha buffer (255, 255, 255, a). needMask holds exactly when some pixel has 0 < a < 255. |
| Channels.SplitRow | dotrace.core.js:182-195 | One row of the split loop extends the split and the mask decision to one more row. |
| Channels.SplitStep | dotrace.core.js:183-194 | One pixel of the split loop writes its bytes and raises needMask exactly when it is translucent. |
| Channels.SplitPixel | dotrace.core.js:183-193 | The byte writes for one pixel leave all bytes before it split and all bytes after it at 255. |
| Channels.MaskStep | dotrace.core.js:194 | needMask stays the disjunction of "pixel i is translucent" over the pixels seen so far. |
| Channels.SplitRecombines | dotrace.core.js:183-193 | Colour-buffer r, g, b with alpha-buffer a gives back the pixel as normalizePixel leaves it. |
| Channels.RgbOpaque | dotrace.core.js:185-192 | Every alpha byte of the colour buffer is 0 or 255, and it is 0 exactly for the fully transparent pixels. |
| Channels.AlphaWord | dotrace.core.js:185-192 | An alpha-buffer pixel, read as a word, is 0 or white with the original alpha, so its opacity comes from the original alpha. |
| Color.SplitWord | dotrace.core.js:224-227 | splitColor of the word built from four bytes, least significant first, gives those bytes back. |
| Color.SplitColor | dotrace.core.js:226-227 | splitColor yields four bytes, and rebuilding a word from them, least significant first, gives the 32-bit colour back. |
| Color.Alpha | dotrace.core.js:226-227 | The alpha of a word is the fourth byte of splitColor. |
| Color.HexDigitValue | dotrace.core.js:232-233 | Each hex digit is a lowercase digit that reads back as its value. |
| Color.ParseFixedHex | dotrace.core.js:232-233 | A value written with k hex digits reads back as itself. |
| Color.ToHexFixed | dotrace.core.js:232-233 | `toString(16)` has no leading zero, and its length is the least that holds the value. |
| Color.PadToHex | dotrace.core.js:232-233 | `padStart(k, "0")` of `toString(16)` is the value written in exactly k hex digits. |
| Color.HexCodeRoundTrip | dotrace.core.js:229-235 | The code has 3 digits exactly when r, g and b are all multiples of 17, and 6 otherwise. Every character is a lowercase hex digit. Reading it as a CSS colour gives (r, g, b) back. |
| Color.ShortCode | dotrace.core.js:231-232 | In the shorthand case, the three digits are r/17, g/17 and b/17. |
| Color.LongCode | dotrace.core.js:233 | In the long case, the six digits are r, g and b, two zero-padded digits each. |
| Color.FormatColor | dotrace.core.js:229-235 | formatColor of any 32-bit word is a well-formed `#rgb` or `#rrggbb`. It is short exactly when r, g and b are all multiples of 17, and read as a CSS colour it gives back the word's r, g and b. |
| Color.BytesWords | dotrace.core.js:242-243 | Reading the bytes as little-endian words and writing them back is the identity. |
| Color.NormalizePixel | dotrace.core.js:241-244 | The result has the input's length. Each byte of a pixel whose alpha byte is 0 becomes 0, and every other byte is unchanged. |
| Color.NormalizePixelIdempotent | dotrace.core.js:241-244 | Normalizing twice is the same as normalizing once. |
| Color.OpacityThousandths | dotrace.core.js:236 | The opacity, in thousandths, is between 0 and 1000 and within half a thousandth of alpha/255. |
| Color.OpacityMonotone | dotrace.core.js:236 | Opacity grows with alpha; alpha 0 gives 0 and alpha 255 gives 1000. |
| Text.ParseNatStr | dotrace.core.js:103 | The decimal numeral of a count reads back as that count. |
| Convert.Trace | dotrace.core.js:123-164 | trace keys the colours in first-seen order. Each colour's path is the path of loops that use every boundary edge of its region exactly once; every loop is a chain of edges that ends at its start corner. |
| Convert.TraceColors | dotrace.core.js:159-162 | The convert loop maps each colour to toPath of its own edge set, and to nothing else. Each loop is a chain, closed when the colour's set is balanced. |
| Convert.DotToShape | dotrace.core.js:152-164 | dotToShape keys the colours in first-seen order. Each colour's path is the dots of its pixels with the given shape, or `h1v1h-1z` when no shape is given. |
| Convert.DotColors | dotrace.core.js:159-162 | The convert loop maps each colour to the dot path of its own pixel list. |
| Convert.ModesAgree | dotrace.core.js:43-142 | Both modes key the same colours, never colour 0, and a colour's dots cover exactly the region its outline bounds. |
| Figures.WalkFollowsChain | dotrace.core.js:111-120 | Where no two edges of the set leave the same corner, findNext never has a choice, and the walk is the chain that covers the set. |
| Figures.RimInBoundary | dotrace.core.js:58-71 | Every edge of a w × h block's clockwise outline is on the block's boundary. |
| Figures.BoundaryOnRim | dotrace.core.js:58-71 | Every edge of a block's boundary is one of the 2(w + h) edges of its outline. |
| Figures.BlockWalk | dotrace.core.js:91-107 | Started at any edge of a block's boundary, the walk goes once round the rest of the outline in order. |
| Figures.BlockFirstLoop | dotrace.core.js:84-107 | The first loop toPath takes from a block's boundary uses every edge, has 2(w + h) edges and ends at its start corner. |
| Figures.BlockOneSubpath | dotrace.core.js:75-110 | A solid w × h block has 2(w + h) boundary edges, and toPath drains them as one closed loop: the path has exactly one subpath and one `z`. |
| Figures.DiagonalPinch | dotrace.core.js:58-120 | Pixels (0, 0) and (1, 1) of one colour have 8 boundary edges. The walk from E at (0, 0) takes all eight as one closed loop that passes the shared corner (1, 1) twice. |
| Figures.PinchStep2 | dotrace.core.js:111-120 | Arriving southward at the shared corner, findNext finds no edge straight on and turns left, east, onto pixel (1, 1)'s outline before pixel (0, 0)'s is finished. |
| Figures.PinchStep6 | dotrace.core.js:111-120 | Arriving northward at the shared corner after going round pixel (1, 1), findNext again turns left, west, back onto pixel (0, 0)'s outline. |

## Left out

- The SVG document template, the optional DTD entity and the `width * s`
  scaling (`dotrace.core.js:167-175, 198-219`). These are literal text
  formatting, and the scale may be fractional. Only the channel-split loop of
  toSVG is modelled.
- Color.OpacityThousandths: `Dotrace.opacity` divides in floating point,
  rounds with `Math.round`, and prints a decimal. The model keeps only the
  integer thousandths and bounds their rounding. How the number is printed
  is not modelled.
- The `Uint32Array` views over the byte buffer (`dotrace.core.js:157, 242`)
  depend on platform endianness. The model fixes little-endian packing
  (`Color.Words`, `Color.Bytes`). The buffer length must be a multiple of 4,
  where the source would throw a RangeError. `new Uint32Array(data.buffer)`
  reads the whole underlying ArrayBuffer and ignores a view's byteOffset and
  length. The model reads `data` itself, which is the same only when `data`
  spans its whole buffer. toSVG's own buffers (`dotrace.core.js:176-177`) do;
  a subarray passed to trace, dotToShape or normalizePixel does not.
- Namespace bootstrapping (`dotrace.core.js:18-20`) depends on the host
  environment. The `shapes` table is kept only as string constants.
- Contour.ToPath: the source iterates a JS Set while deleting from it. The
  model picks any remaining vector instead. The order of the loops, and so
  the exact output text, is therefore not fixed to the Set's insertion
  order. The early `return` at `dotrace.core.js:83` can never fire. A Set
  iterator skips entries deleted before it reaches them, and every entry it
  has already passed was deleted, the current one at line 84 included.
- Contour.ToPath: the caller's set is emptied in place. The model works on a
  copy and shows that none of it remains.
- Contour.TraceLoop, Contour.ToPath: a walk is proved to end at its start
  corner only when the set is balanced, as every boundary set is
  (Boundary.BoundaryBalanced). toPath accepts any set, and on an unbalanced
  one a walk may stop elsewhere.
- Boundary.AssortVectors, Convert.Trace: require `w, h < 2^15`, the range
  the packed key can represent.
- Boundary.AssortVectors, Dots.AssortPixels: the JS map and its sets are
  modelled as values; the model does not capture sharing them by reference.
- The sample programs under `samples/` are left out: image decoding,
  command-line arguments and output writing are I/O.
