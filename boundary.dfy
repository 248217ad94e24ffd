/** The boundary builder of contour mode (assortVectors, pushVectorsWrapPixel,
    pushVector): every painted pixel contributes its four clockwise edges, and an
    edge whose reverse is already present cancels it instead of being added. */
module Boundary {
  import opened Codec
  import opened ColorMap
  import Arith

  /** The pixel whose clockwise outline contains v, i.e. the pixel on v's right. */
  function Owner(v: Vec): Pixel {
    match v.d
    case 0 => (v.x, v.y)
    case 1 => (v.x - 1, v.y)
    case 2 => (v.x - 1, v.y - 1)
    case 3 => (v.x, v.y - 1)
  }

  /** The four edges pushVectorsWrapPixel pushes for pixel p, in its order:
      east from the top-left corner, south from the top-right, west from the
      bottom-right, north from the bottom-left. */
  function Outline(p: Pixel): (r: seq<Vec>)
    ensures |r| == 4
    ensures forall k :: 0 <= k < 4 ==> Owner(r[k]) == p
  {
    var (x, y) := p;
    [Vec(x, y, East), Vec(x + 1, y, South), Vec(x + 1, y + 1, West), Vec(x, y + 1, North)]
  }

  /** The outline of a pixel is exactly the set of edges it owns. */
  lemma {:induction false} OutlineOwned(v: Vec, p: Pixel)
    ensures v in Outline(p) <==> Owner(v) == p
  {
    if Owner(v) == p {
      assert v == Outline(p)[v.d];
    }
  }

  /** pushVector: drop the reverse of v if it is present, otherwise add v. */
  function PushVector(s: set<Vec>, v: Vec): (r: set<Vec>)
    ensures ToReverse(v) in s ==> r == s - {ToReverse(v)}
    ensures ToReverse(v) !in s ==> r == s + {v}
  {
    var rev := ToReverse(v);
    if rev in s then s - {rev} else s + {v}
  }

  /** pushVectorsWrapPixel: the four pushes of the pixel's clockwise outline.
      The cancellation invariant survives; an edge enters the set only if it is
      one of the pixel's own, and leaves it only if the pixel lies across it. */
  function PushPixel(s: set<Vec>, p: Pixel): (r: set<Vec>)
    ensures NoReversePair(s) ==> NoReversePair(r)
    ensures forall v :: v in r && v !in s ==> Owner(v) == p
    ensures forall v :: v in s && v !in r ==> Owner(ToReverse(v)) == p
  {
    var o := Outline(p);
    var s1 := PushVector(s, o[0]);
    var s2 := PushVector(s1, o[1]);
    var s3 := PushVector(s2, o[2]);
    var s4 := PushVector(s3, o[3]);
    assert NoReversePair(s) ==> NoReversePair(s4) by {
      if NoReversePair(s) {
        PushKeepsNoReversePair(s, o[0]);
        PushKeepsNoReversePair(s1, o[1]);
        PushKeepsNoReversePair(s2, o[2]);
        PushKeepsNoReversePair(s3, o[3]);
      }
    }
    assert forall v :: v in s && v !in s4 ==> Owner(ToReverse(v)) == p by {
      forall v | v in s && v !in s4 ensures Owner(ToReverse(v)) == p {
        ReverseInvolution(o[0]);
        ReverseInvolution(o[1]);
        ReverseInvolution(o[2]);
        ReverseInvolution(o[3]);
      }
    }
    s4
  }

  /** The cancellation invariant: no vector is present together with its reverse. */
  ghost predicate NoReversePair(s: set<Vec>) {
    forall v :: v in s ==> ToReverse(v) !in s
  }

  /** pushVector keeps the cancellation invariant. */
  lemma {:induction false} PushKeepsNoReversePair(s: set<Vec>, v: Vec)
    requires NoReversePair(s)
    ensures NoReversePair(PushVector(s, v))
  {
    var rev := ToReverse(v);
    ReverseInvolution(v);
    if rev !in s {
      forall u | u in s + {v} ensures ToReverse(u) !in s + {v} {
        ReverseInvolution(u);
      }
    }
  }

  /** Pushing a vector and then its reverse onto a set holding neither is a no-op. */
  lemma {:induction false} PushThenReverse(s: set<Vec>, v: Vec)
    requires v !in s && ToReverse(v) !in s
    ensures PushVector(PushVector(s, v), ToReverse(v)) == s
  {
    ReverseInvolution(v);
  }

  /** What survives cancellation once every edge of P has been pushed once. */
  ghost function Cancelled(P: set<Vec>): set<Vec> {
    set v | v in P && ToReverse(v) !in P
  }

  /** Pushing a new edge onto the survivors of P gives the survivors of P + {e}:
      the set only depends on which edges were pushed, not on their order. */
  lemma {:induction false} PushCancelled(P: set<Vec>, e: Vec)
    requires e !in P
    ensures PushVector(Cancelled(P), e) == Cancelled(P + {e})
  {
    ReverseInvolution(e);
    var rev := ToReverse(e);
    forall u ensures u in PushVector(Cancelled(P), e) <==> u in Cancelled(P + {e}) {
      ReverseInvolution(u);
    }
  }

  /** All edges owned by the pixels of Q. */
  ghost function EdgesOf(Q: set<Pixel>): set<Vec> {
    set p, k | p in Q && 0 <= k < 4 :: Outline(p)[k]
  }

  lemma {:induction false} EdgesOfOwned(Q: set<Pixel>, v: Vec)
    ensures v in EdgesOf(Q) <==> Owner(v) in Q
  {
    if Owner(v) in Q {
      OutlineOwned(v, Owner(v));
      assert v == Outline(Owner(v))[v.d];
    }
  }

  /** The set the builder holds for a colour whose pixels so far are Q. */
  ghost function BoundaryOf(Q: set<Pixel>): set<Vec> {
    Cancelled(EdgesOf(Q))
  }

  /** Closed form: an edge survives exactly when its owner is painted and the
      pixel across it is not. */
  lemma {:induction false} BoundaryMember(Q: set<Pixel>, v: Vec)
    ensures v in BoundaryOf(Q) <==> Owner(v) in Q && Owner(ToReverse(v)) !in Q
  {
    EdgesOfOwned(Q, v);
    EdgesOfOwned(Q, ToReverse(v));
  }

  /** A finished boundary set satisfies the cancellation invariant. */
  lemma {:induction false} BoundaryNoReversePair(Q: set<Pixel>)
    ensures NoReversePair(BoundaryOf(Q))
  {
    forall v | v in BoundaryOf(Q) ensures ToReverse(v) !in BoundaryOf(Q) {
      BoundaryMember(Q, v);
      BoundaryMember(Q, ToReverse(v));
      ReverseInvolution(v);
    }
  }

  /** How many edges of s leave corner p: at most one per direction. */
  function OutCount(s: set<Vec>, p: (int, int)): nat {
    (if Vec(p.0, p.1, East) in s then 1 else 0) + (if Vec(p.0, p.1, South) in s then 1 else 0)
    + (if Vec(p.0, p.1, West) in s then 1 else 0) + (if Vec(p.0, p.1, North) in s then 1 else 0)
  }

  /** How many edges of s arrive at corner p: from the left going east, from
      above going south, from the right going west, from below going north. */
  function InCount(s: set<Vec>, p: (int, int)): nat {
    (if Vec(p.0 - 1, p.1, East) in s then 1 else 0) + (if Vec(p.0, p.1 - 1, South) in s then 1 else 0)
    + (if Vec(p.0 + 1, p.1, West) in s then 1 else 0) + (if Vec(p.0, p.1 + 1, North) in s then 1 else 0)
  }

  /** The counts mean what they say: no edge of s leaves (arrives at) p exactly
      when the count is zero. */
  lemma {:induction false} CountsZero(s: set<Vec>, p: (int, int))
    ensures OutCount(s, p) == 0 <==> forall v :: v in s ==> StartCorner(v) != p
    ensures InCount(s, p) == 0 <==> forall v :: v in s ==> EndCorner(v) != p
  {
    if OutCount(s, p) == 0 {
      forall v | v in s ensures StartCorner(v) != p {
        assert v == Vec(v.x, v.y, v.d);
      }
    }
    if InCount(s, p) == 0 {
      forall v | v in s ensures EndCorner(v) != p {
        assert v == Vec(v.x, v.y, v.d);
      }
    }
  }

  /** Every corner has as many edges of s leaving it as arriving at it. */
  ghost predicate Balanced(s: set<Vec>) {
    forall p :: OutCount(s, p) == InCount(s, p)
  }

  /** Taking one edge out of s lowers the out-count of its start corner and the
      in-count of its end corner by one, and changes nothing else. */
  lemma {:induction false} RemoveEdge(s: set<Vec>, n: Vec, p: (int, int))
    requires n in s
    ensures OutCount(s - {n}, p) == OutCount(s, p) - (if p == StartCorner(n) then 1 else 0)
    ensures InCount(s - {n}, p) == InCount(s, p) - (if p == EndCorner(n) then 1 else 0)
  {
    assert n == Vec(n.x, n.y, n.d);
  }

  /** A region's boundary is balanced at every corner: around a corner, the
      boundary edges leaving it and arriving at it alternate, one pair for each
      change between painted and unpainted among the four pixels that meet there. */
  lemma {:induction false} BoundaryBalanced(Q: set<Pixel>)
    ensures Balanced(BoundaryOf(Q))
  {
    forall p ensures OutCount(BoundaryOf(Q), p) == InCount(BoundaryOf(Q), p) {
      CornerBalanced(Q, p);
    }
  }

  lemma {:induction false} CornerBalanced(Q: set<Pixel>, p: (int, int))
    ensures OutCount(BoundaryOf(Q), p) == InCount(BoundaryOf(Q), p)
  {
    var (x, y) := p;
    var ne, se, sw, nw := (x, y - 1) in Q, (x, y) in Q, (x - 1, y) in Q, (x - 1, y - 1) in Q;
    CornerOut(Q, p);
    CornerIn(Q, p);
    Transitions(ne, se, sw, nw);
  }

  /** The number of 1 for a true b. */
  function Ind(b: bool): nat {
    if b then 1 else 0
  }

  /** Going round four booleans, changes from false to true are as many as
      changes from true to false. */
  lemma {:induction false} Transitions(a: bool, b: bool, c: bool, d: bool)
    ensures Ind(!a && b) + Ind(!b && c) + Ind(!c && d) + Ind(!d && a)
         == Ind(a && !b) + Ind(b && !c) + Ind(c && !d) + Ind(d && !a)
  {
  }

  /** An edge leaves corner p where, turning clockwise round p, an unpainted
      pixel is followed by a painted one. */
  lemma {:induction false} CornerOut(Q: set<Pixel>, p: (int, int))
    ensures var (x, y) := p;
      var ne, se, sw, nw := (x, y - 1) in Q, (x, y) in Q, (x - 1, y) in Q, (x - 1, y - 1) in Q;
      OutCount(BoundaryOf(Q), p) == Ind(!ne && se) + Ind(!se && sw) + Ind(!sw && nw) + Ind(!nw && ne)
  {
    var (x, y) := p;
    BoundaryMember(Q, Vec(x, y, East));
    BoundaryMember(Q, Vec(x, y, South));
    BoundaryMember(Q, Vec(x, y, West));
    BoundaryMember(Q, Vec(x, y, North));
  }

  /** An edge arrives at corner p where a painted pixel is followed by an unpainted one. */
  lemma {:induction false} CornerIn(Q: set<Pixel>, p: (int, int))
    ensures var (x, y) := p;
      var ne, se, sw, nw := (x, y - 1) in Q, (x, y) in Q, (x - 1, y) in Q, (x - 1, y - 1) in Q;
      InCount(BoundaryOf(Q), p) == Ind(ne && !se) + Ind(se && !sw) + Ind(sw && !nw) + Ind(nw && !ne)
  {
    var (x, y) := p;
    BoundaryMember(Q, Vec(x - 1, y, East));
    BoundaryMember(Q, Vec(x, y - 1, South));
    BoundaryMember(Q, Vec(x + 1, y, West));
    BoundaryMember(Q, Vec(x, y + 1, North));
  }

  /** Adding one new pixel to the region: pushVectorsWrapPixel on the old
      boundary is the boundary of the grown region. */
  lemma {:induction false} PushPixelBoundary(Q: set<Pixel>, p: Pixel)
    requires p !in Q
    ensures PushPixel(BoundaryOf(Q), p) == BoundaryOf(Q + {p})
  {
    var o := Outline(p);
    var P0 := EdgesOf(Q);
    forall k | 0 <= k < 4 ensures o[k] !in P0 {
      EdgesOfOwned(Q, o[k]);
    }
    PushCancelled(P0, o[0]);
    PushCancelled(P0 + {o[0]}, o[1]);
    PushCancelled(P0 + {o[0]} + {o[1]}, o[2]);
    PushCancelled(P0 + {o[0]} + {o[1]} + {o[2]}, o[3]);
    forall v ensures v in P0 + {o[0]} + {o[1]} + {o[2]} + {o[3]} <==> v in EdgesOf(Q + {p}) {
      EdgesOfOwned(Q, v);
      EdgesOfOwned(Q + {p}, v);
      OutlineOwned(v, p);
    }
    assert P0 + {o[0]} + {o[1]} + {o[2]} + {o[3]} == EdgesOf(Q + {p});
  }

  /** A lone pixel yields exactly its four clockwise edges. */
  lemma {:induction false} LonePixel(x: int, y: int)
    ensures PushPixel({}, (x, y)) ==
      {Vec(x, y, East), Vec(x + 1, y, South), Vec(x + 1, y + 1, West), Vec(x, y + 1, North)}
  {
  }

  /** Both corners of v lie on the grid of a w-by-h image. */
  predicate OnGrid(v: Vec, w: int, h: int) {
    0 <= v.x <= w && 0 <= v.y <= h && 0 <= EndX(v) <= w && 0 <= EndY(v) <= h
  }

  /** What the builder holds after scanning the first n pixels of img. */
  ghost predicate Scanned(img: seq<int>, w: int, n: nat, colors: seq<int>, vectors: map<int, set<Vec>>)
    requires 0 < w && n <= |img|
  {
    && colors == ColorOrder(img[..n])
    && (forall c :: c in vectors <==> c in colors)
    && (forall c :: c in vectors ==> vectors[c] == BoundaryOf(Region(img[..n], w, c)))
  }

  /** assortVectors: scan the image row-major, skip colour 0, and push each
      painted pixel's outline onto its colour's set, creating the set on the
      first pixel of a colour. `colors` is the key order of the source's Map. */
  method AssortVectors(arr: seq<int>, w: nat, h: nat) returns (colors: seq<int>, vectors: map<int, set<Vec>>)
    requires w * h <= |arr|
    requires w < CoordLimit && h < CoordLimit
    ensures 0 < w ==> colors == ColorOrder(arr[..w * h])
    ensures w == 0 ==> colors == []
    ensures forall c :: c in vectors <==> c in colors
    ensures forall c :: c in vectors && 0 < w ==> vectors[c] == BoundaryOf(Region(arr[..w * h], w, c))
    ensures forall c, v :: c in vectors && v in vectors[c] ==> OnGrid(v, w, h)
  {
    colors, vectors := [], map[];
    if w == 0 {
      return;
    }
    Arith.MulMonotone(0, h, w);
    ghost var img := arr[..w * h];
    var y := 0;
    while y < h
      invariant 0 <= y <= h && y * w <= |img|
      invariant Scanned(img, w, y * w, colors, vectors)
    {
      Arith.MulMonotone(y + 1, h, w);
      colors, vectors := ScanRow(arr, w, y, img, colors, vectors);
      y := y + 1;
    }
    ghost var n := y * w;
    assert n == |img| && img[..n] == img;
    forall c | c in vectors ensures forall v :: v in vectors[c] ==> OnGrid(v, w, h) {
      RegionOnGrid(img, w, h, c);
    }
  }

  /** One row of assortVectors' scan: pixels y * w to y * w + w - 1. */
  method ScanRow(arr: seq<int>, w: nat, y: nat, ghost img: seq<int>, colors: seq<int>, vectors: map<int, set<Vec>>)
    returns (colors': seq<int>, vectors': map<int, set<Vec>>)
    requires 0 < w && (y + 1) * w <= |img| <= |arr| && img == arr[..|img|]
    requires Scanned(img, w, y * w, colors, vectors)
    ensures Scanned(img, w, (y + 1) * w, colors', vectors')
  {
    colors', vectors' := colors, vectors;
    assert (y + 1) * w == y * w + w;
    ghost var n := y * w;
    var x := 0;
    while x < w
      invariant 0 <= x <= w
      invariant n == x + y * w && n <= |img|
      invariant Scanned(img, w, n, colors', vectors')
    {
      colors', vectors' := ScanOne(arr, w, x, y, img, colors', vectors');
      x, n := x + 1, n + 1;
    }
    assert n == (y + 1) * w;
  }

  /** The body of assortVectors' inner loop, for the pixel at column x of row y. */
  method ScanOne(arr: seq<int>, w: nat, x: nat, y: nat, ghost img: seq<int>, colors: seq<int>, vectors: map<int, set<Vec>>)
    returns (colors': seq<int>, vectors': map<int, set<Vec>>)
    requires x < w && x + y * w < |img| <= |arr| && img == arr[..|img|]
    requires Scanned(img, w, x + y * w, colors, vectors)
    ensures Scanned(img, w, x + y * w + 1, colors', vectors')
  {
    ghost var n := x + y * w;
    Arith.RowMajor(x, y, w);
    var color := arr[x + y * w];
    assert color == img[n] && Coord(n, w) == (x, y);
    colors', vectors' := colors, vectors;
    if color != NoPaint {
      var pixels := if color in vectors then vectors[color] else {};
      vectors' := vectors[color := PushPixel(pixels, (x, y))];
      if color !in colors {
        colors' := colors + [color];
      }
    }
    ScanPixel(img, w, n, colors, vectors, colors', vectors');
  }

  /** Every edge of a colour's boundary has both corners on the image's grid. */
  lemma {:induction false} RegionOnGrid(img: seq<int>, w: int, h: int, c: int)
    requires 0 < w && |img| == w * h
    ensures forall v :: v in BoundaryOf(Region(img, w, c)) ==> OnGrid(v, w, h)
  {
    forall v | v in BoundaryOf(Region(img, w, c)) ensures OnGrid(v, w, h) {
      BoundaryMember(Region(img, w, c), v);
      var i :| 0 <= i < |img| && img[i] == c && Coord(i, w) == Owner(v);
      CoordInImage(i, w, h);
      OwnedOnGrid(v, w, h);
    }
  }

  /** Every index below w * h names a pixel of the w-by-h image. */
  lemma {:induction false} CoordInImage(i: int, w: int, h: int)
    requires 0 <= i < w * h && 0 < w
    ensures 0 <= Coord(i, w).0 < w && 0 <= Coord(i, w).1 < h
  {
    if Coord(i, w).1 >= h {
      Arith.MulMonotone(h, Coord(i, w).1, w);
      assert false;
    }
  }

  /** An edge owned by a pixel of the image has both corners on its grid. */
  lemma {:induction false} OwnedOnGrid(v: Vec, w: int, h: int)
    requires 0 <= Owner(v).0 < w && 0 <= Owner(v).1 < h
    ensures OnGrid(v, w, h)
  {
  }

  /** One step of assortVectors' scan keeps Scanned. */
  lemma {:induction false} ScanPixel(img: seq<int>, w: int, n: nat, colors: seq<int>, vectors: map<int, set<Vec>>,
                  colors': seq<int>, vectors': map<int, set<Vec>>)
    requires 0 < w && n < |img|
    requires Scanned(img, w, n, colors, vectors)
    requires img[n] == NoPaint ==> colors' == colors && vectors' == vectors
    requires img[n] != NoPaint ==>
      && colors' == (if img[n] in colors then colors else colors + [img[n]])
      && vectors' == vectors[img[n] := PushPixel(if img[n] in vectors then vectors[img[n]] else {}, Coord(n, w))]
    ensures Scanned(img, w, n + 1, colors', vectors')
  {
    if img[n] == NoPaint {
      ScanBlank(img, w, n, colors, vectors);
    } else {
      ScanPaint(img, w, n, colors, vectors, colors', vectors');
    }
  }

  /** A pixel of colour 0 changes neither the colours nor any region. */
  lemma {:induction false} ScanBlank(img: seq<int>, w: int, n: nat, colors: seq<int>, vectors: map<int, set<Vec>>)
    requires 0 < w && n < |img| && img[n] == NoPaint
    requires Scanned(img, w, n, colors, vectors)
    ensures Scanned(img, w, n + 1, colors, vectors)
  {
    ScanStep(img, w, n);
    ColorOrderMembers(img[..n]);
    forall c | c in vectors ensures vectors[c] == BoundaryOf(Region(img[..n + 1], w, c)) {
      assert c != img[n];
    }
  }

  /** A painted pixel's outline is pushed onto its colour's set, and that set
      becomes the boundary of the colour's grown region. */
  lemma {:induction false} ScanPaint(img: seq<int>, w: int, n: nat, colors: seq<int>, vectors: map<int, set<Vec>>,
                  colors': seq<int>, vectors': map<int, set<Vec>>)
    requires 0 < w && n < |img| && img[n] != NoPaint
    requires Scanned(img, w, n, colors, vectors)
    requires colors' == (if img[n] in colors then colors else colors + [img[n]])
    requires vectors' == vectors[img[n] := PushPixel(if img[n] in vectors then vectors[img[n]] else {}, Coord(n, w))]
    ensures Scanned(img, w, n + 1, colors', vectors')
  {
    ScanStep(img, w, n);
    ColorOrderMembers(img[..n]);
    PaintBoundaries(img, w, n, colors, vectors, vectors');
  }

  lemma {:induction false} PaintBoundaries(img: seq<int>, w: int, n: nat, colors: seq<int>, vectors: map<int, set<Vec>>,
                  vectors': map<int, set<Vec>>)
    requires 0 < w && n < |img| && img[n] != NoPaint
    requires Scanned(img, w, n, colors, vectors)
    requires img[n] !in vectors ==> img[n] !in img[..n]
    requires vectors' == vectors[img[n] := PushPixel(if img[n] in vectors then vectors[img[n]] else {}, Coord(n, w))]
    requires Region(img[..n + 1], w, img[n]) == Region(img[..n], w, img[n]) + {Coord(n, w)}
    requires Coord(n, w) !in Region(img[..n], w, img[n])
    requires forall c :: c != img[n] ==> Region(img[..n + 1], w, c) == Region(img[..n], w, c)
    ensures forall c :: c in vectors' ==> vectors'[c] == BoundaryOf(Region(img[..n + 1], w, c))
  {
    var color := img[n];
    var before := Region(img[..n], w, color);
    if color !in vectors {
      assert before == {};
    }
    assert (if color in vectors then vectors[color] else {}) == BoundaryOf(before);
    PushPixelBoundary(before, Coord(n, w));
    forall c | c in vectors' ensures vectors'[c] == BoundaryOf(Region(img[..n + 1], w, c)) {
      if c != color {
        assert vectors'[c] == vectors[c];
      }
    }
  }

  /** One step of the scan: pixel n joins its colour's region and nothing else changes. */
  lemma {:induction false} ScanStep(img: seq<int>, w: int, n: nat)
    requires 0 < w && n < |img|
    ensures ColorOrder(img[..n + 1]) ==
      if img[n] == NoPaint || img[n] in ColorOrder(img[..n]) then ColorOrder(img[..n])
      else ColorOrder(img[..n]) + [img[n]]
    ensures Region(img[..n + 1], w, img[n]) == Region(img[..n], w, img[n]) + {Coord(n, w)}
    ensures Coord(n, w) !in Region(img[..n], w, img[n])
    ensures forall c :: c != img[n] ==> Region(img[..n + 1], w, c) == Region(img[..n], w, c)
  {
    assert img[..n + 1][..n] == img[..n];
    forall i | 0 <= i < n ensures Coord(i, w) != Coord(n, w) {
      CoordInjective(i, n, w);
    }
  }
}
