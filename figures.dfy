/** Two figures traced in full. A solid block of pixels has a boundary that is
    one cycle of 2(w + h) unit edges, so toPath draws it as a single subpath.
    Two pixels that touch only at a corner are walked as one loop through the
    shared corner, because findNext prefers the left turn there. */
module Figures {
  import opened Codec
  import opened ColorMap
  import Boundary
  import opened Contour
  import opened Text
  import opened Wrappers

  // Walks with no choice.

  /** On a set where no two edges leave the same corner, findNext never has a
      choice: the walk from v is the chain w that covers the set. */
  lemma {:induction false} WalkFollowsChain(s: set<Vec>, v: Vec, w: seq<Vec>)
    requires Elems(w) == s
    requires forall i, j :: 0 <= i < j < |w| ==> StartCorner(w[i]) != StartCorner(w[j])
    requires |w| > 0 ==> StartCorner(w[0]) == EndCorner(v)
    requires Connected(w)
    ensures Walk(s, v) == w
    decreases |w|
  {
    if w == [] {
      assert NextOf(s, v) == None;
    } else {
      var k := (v.d - w[0].d) % 4;
      assert Probe(v, k) == w[0];
      NextOfProbeOrder(s, v, 0);
      var n := NextOf(s, v).value;
      assert n in w;
      var i :| 0 <= i < |w| && w[i] == n;
      assert i == 0;
      var t := w[1..];
      forall u ensures u in Elems(t) <==> u in s - {n} {
        if u in t {
          var j :| 0 <= j < |t| && t[j] == u;
          assert w[j + 1] == u;
        }
        if u in s - {n} {
          var j :| 0 <= j < |w| && w[j] == u;
          assert j != 0;
          assert t[j - 1] == u;
        }
      }
      assert Connected(t) by {
        forall j | 0 <= j < |t| - 1 ensures StartCorner(t[j + 1]) == EndCorner(t[j]) {
          assert t[j + 1] == w[j + 2] && t[j] == w[j + 1];
        }
      }
      forall a, b | 0 <= a < b < |t| ensures StartCorner(t[a]) != StartCorner(t[b]) {
        assert t[a] == w[a + 1] && t[b] == w[b + 1];
      }
      WalkFollowsChain(s - {n}, n, t);
    }
  }

  /** When the first present candidate is the k-th, the walk takes it. */
  lemma {:induction false} WalkTakes(s: set<Vec>, v: Vec, k: int, n: Vec)
    requires 0 <= k < 4 && Probe(v, k) == n && n in s
    requires (0 < k ==> Probe(v, 0) !in s) && (1 < k ==> Probe(v, 1) !in s) && (2 < k ==> Probe(v, 2) !in s)
    ensures Walk(s, v) == [n] + Walk(s - {n}, n)
  {
    NextOfProbeOrder(s, v, 0);
  }

  /** A sequence without repeats has as many elements as entries. */
  lemma {:induction false} DistinctCard(w: seq<Vec>)
    requires Distinct(w)
    ensures |Elems(w)| == |w|
  {
    if w != [] {
      var t := w[..|w| - 1];
      var x := w[|w| - 1];
      assert Distinct(t) by {
        forall i, j | 0 <= i < j < |t| ensures t[i] != t[j] {
          assert t[i] == w[i] && t[j] == w[j];
        }
      }
      DistinctCard(t);
      assert x !in t by {
        forall i | 0 <= i < |t| ensures t[i] != x {
          assert t[i] == w[i];
        }
      }
      assert w == t + [x];
      assert Elems(w) == Elems(t) + {x};
    }
  }

  /** Taking the first loops of a drain is a drain. */
  lemma {:induction false} DrainedPrefix(s: set<Vec>, loops: seq<seq<Vec>>, k: nat)
    requires Drained(s, loops) && k <= |loops|
    ensures Drained(s, loops[..k])
    decreases |loops|
  {
    if k < |loops| {
      var init := loops[..|loops| - 1];
      DrainedPrefix(s, init, k);
      assert init[..k] == loops[..k];
    } else {
      assert loops[..k] == loops;
    }
  }

  // A solid block.

  /** The solid block of w × h pixels whose top-left pixel is (x0, y0). */
  ghost function Block(x0: int, y0: int, w: nat, h: nat): set<Pixel> {
    set i, j | x0 <= i < x0 + w && y0 <= j < y0 + h :: (i, j)
  }

  lemma {:induction false} InBlock(x0: int, y0: int, w: nat, h: nat, p: Pixel)
    ensures p in Block(x0, y0, w, h) <==> x0 <= p.0 < x0 + w && y0 <= p.1 < y0 + h
  {
    if x0 <= p.0 < x0 + w && y0 <= p.1 < y0 + h {
      var (i, j) := p;
      assert (i, j) in Block(x0, y0, w, h);
    }
  }

  /** The k-th edge of the block's clockwise outline from its top-left corner:
      east along the top, south down the right side, west along the bottom and
      north up the left side, 2(w + h) edges in all. */
  function Rim(x0: int, y0: int, w: nat, h: nat, k: int): Vec {
    if k < w then Vec(x0 + k, y0, East)
    else if k < w + h then Vec(x0 + w, y0 + k - w, South)
    else if k < 2 * w + h then Vec(x0 + 2 * w + h - k, y0 + h, West)
    else Vec(x0, y0 + 2 * w + 2 * h - k, North)
  }

  /** No two edges of the outline start at the same corner. */
  lemma {:induction false} RimStartsDiffer(x0: int, y0: int, w: nat, h: nat, i: int, j: int)
    requires 1 <= w && 1 <= h && 0 <= i < 2 * (w + h) && 0 <= j < 2 * (w + h)
    requires StartCorner(Rim(x0, y0, w, h, i)) == StartCorner(Rim(x0, y0, w, h, j))
    ensures i == j
  {
  }

  /** Each edge of the outline ends where the next one starts, and the last
      ends where the first starts: the outline is one cycle. */
  lemma {:induction false} RimChain(x0: int, y0: int, w: nat, h: nat, k: int)
    requires 0 <= k < 2 * (w + h)
    ensures EndCorner(Rim(x0, y0, w, h, k)) == StartCorner(Rim(x0, y0, w, h, if k + 1 < 2 * (w + h) then k + 1 else 0))
  {
  }

  /** Every edge of the outline is on the block's boundary. */
  lemma {:induction false} RimInBoundary(x0: int, y0: int, w: nat, h: nat, k: int)
    requires 1 <= w && 1 <= h && 0 <= k < 2 * (w + h)
    ensures Rim(x0, y0, w, h, k) in Boundary.BoundaryOf(Block(x0, y0, w, h))
  {
    var v := Rim(x0, y0, w, h, k);
    Boundary.BoundaryMember(Block(x0, y0, w, h), v);
    InBlock(x0, y0, w, h, Boundary.Owner(v));
    InBlock(x0, y0, w, h, Boundary.Owner(ToReverse(v)));
  }

  /** Every edge of the block's boundary is on the outline. */
  lemma {:induction false} BoundaryOnRim(x0: int, y0: int, w: nat, h: nat, v: Vec)
    requires v in Boundary.BoundaryOf(Block(x0, y0, w, h))
    ensures exists k :: 0 <= k < 2 * (w + h) && Rim(x0, y0, w, h, k) == v
  {
    Boundary.BoundaryMember(Block(x0, y0, w, h), v);
    InBlock(x0, y0, w, h, Boundary.Owner(v));
    InBlock(x0, y0, w, h, Boundary.Owner(ToReverse(v)));
    var k := if v.d == East then v.x - x0
      else if v.d == South then w + v.y - y0
      else if v.d == West then 2 * w + h - (v.x - x0)
      else 2 * w + 2 * h - (v.y - y0);
    assert Rim(x0, y0, w, h, k) == v;
  }

  /** Position t of the walk that starts at outline edge m. */
  function After(n: int, m: int, t: int): int {
    if m + 1 + t < n then m + 1 + t else m + 1 + t - n
  }

  /** The edges after outline edge m, going round the cycle back to m. */
  function RimFrom(x0: int, y0: int, w: nat, h: nat, m: int): (r: seq<Vec>)
    requires 0 <= m < 2 * (w + h)
    ensures |r| == 2 * (w + h) - 1
  {
    seq(2 * (w + h) - 1, t requires 0 <= t < 2 * (w + h) - 1 => Rim(x0, y0, w, h, After(2 * (w + h), m, t)))
  }

  /** Each edge after outline edge m is a boundary edge other than m. */
  lemma {:induction false} RimFromMember(x0: int, y0: int, w: nat, h: nat, m: int, t: int)
    requires 1 <= w && 1 <= h && 0 <= m < 2 * (w + h) && 0 <= t < 2 * (w + h) - 1
    ensures RimFrom(x0, y0, w, h, m)[t] in Boundary.BoundaryOf(Block(x0, y0, w, h))
    ensures RimFrom(x0, y0, w, h, m)[t] != Rim(x0, y0, w, h, m)
  {
    var k := After(2 * (w + h), m, t);
    assert RimFrom(x0, y0, w, h, m)[t] == Rim(x0, y0, w, h, k);
    RimInBoundary(x0, y0, w, h, k);
    if Rim(x0, y0, w, h, k) == Rim(x0, y0, w, h, m) {
      RimStartsDiffer(x0, y0, w, h, k, m);
    }
  }

  /** Each boundary edge other than outline edge m comes after m. */
  lemma {:induction false} MemberOfRimFrom(x0: int, y0: int, w: nat, h: nat, m: int, u: Vec)
    requires 1 <= w && 1 <= h && 0 <= m < 2 * (w + h)
    requires u in Boundary.BoundaryOf(Block(x0, y0, w, h)) && u != Rim(x0, y0, w, h, m)
    ensures u in RimFrom(x0, y0, w, h, m)
  {
    var n := 2 * (w + h);
    BoundaryOnRim(x0, y0, w, h, u);
    var k :| 0 <= k < n && Rim(x0, y0, w, h, k) == u;
    var t := if k > m then k - m - 1 else k + n - m - 1;
    assert After(n, m, t) == k;
    assert RimFrom(x0, y0, w, h, m)[t] == u;
  }

  /** The edges after outline edge m are the rest of the boundary. */
  lemma {:induction false} RimFromElems(x0: int, y0: int, w: nat, h: nat, m: int)
    requires 1 <= w && 1 <= h && 0 <= m < 2 * (w + h)
    ensures Elems(RimFrom(x0, y0, w, h, m)) == Boundary.BoundaryOf(Block(x0, y0, w, h)) - {Rim(x0, y0, w, h, m)}
  {
    var b := Boundary.BoundaryOf(Block(x0, y0, w, h));
    var v := Rim(x0, y0, w, h, m);
    var ws := RimFrom(x0, y0, w, h, m);
    forall u ensures u in Elems(ws) <==> u in b - {v} {
      if u in ws {
        var t :| 0 <= t < |ws| && ws[t] == u;
        RimFromMember(x0, y0, w, h, m, t);
      }
      if u in b - {v} {
        MemberOfRimFrom(x0, y0, w, h, m, u);
      }
    }
  }

  /** The edges after outline edge m start at distinct corners and form a chain
      from the corner where m ends. */
  lemma {:induction false} RimFromChain(x0: int, y0: int, w: nat, h: nat, m: int)
    requires 1 <= w && 1 <= h && 0 <= m < 2 * (w + h)
    ensures var ws := RimFrom(x0, y0, w, h, m);
      && (forall i, j :: 0 <= i < j < |ws| ==> StartCorner(ws[i]) != StartCorner(ws[j]))
      && StartCorner(ws[0]) == EndCorner(Rim(x0, y0, w, h, m))
      && Connected(ws)
  {
    var n := 2 * (w + h);
    var ws := RimFrom(x0, y0, w, h, m);
    forall i, j | 0 <= i < j < |ws| ensures StartCorner(ws[i]) != StartCorner(ws[j]) {
      if StartCorner(ws[i]) == StartCorner(ws[j]) {
        RimStartsDiffer(x0, y0, w, h, After(n, m, i), After(n, m, j));
      }
    }
    RimChain(x0, y0, w, h, m);
    forall t | 0 <= t < |ws| - 1 ensures StartCorner(ws[t + 1]) == EndCorner(ws[t]) {
      RimChain(x0, y0, w, h, After(n, m, t));
    }
  }

  /** Started at any edge of a block's boundary, the walk goes once round the
      whole outline. */
  lemma {:induction false} BlockWalk(x0: int, y0: int, w: nat, h: nat, m: int)
    requires 1 <= w && 1 <= h && 0 <= m < 2 * (w + h)
    ensures var b := Boundary.BoundaryOf(Block(x0, y0, w, h));
      Walk(b - {Rim(x0, y0, w, h, m)}, Rim(x0, y0, w, h, m)) == RimFrom(x0, y0, w, h, m)
  {
    RimFromElems(x0, y0, w, h, m);
    RimFromChain(x0, y0, w, h, m);
    WalkFollowsChain(Boundary.BoundaryOf(Block(x0, y0, w, h)) - {Rim(x0, y0, w, h, m)},
      Rim(x0, y0, w, h, m), RimFrom(x0, y0, w, h, m));
  }

  lemma {:induction false} ElemsCons(n: Vec, t: seq<Vec>)
    ensures Elems([n] + t) == {n} + Elems(t)
  {
    assert forall u :: u in [n] + t <==> u == n || u in t;
  }

  /** The first loop toPath takes from a block's boundary is the whole
      outline, and it closes. */
  lemma {:induction false} BlockFirstLoop(x0: int, y0: int, w: nat, h: nat, l0: seq<Vec>)
    requires 1 <= w && 1 <= h
    requires IsLoop(Boundary.BoundaryOf(Block(x0, y0, w, h)), l0)
    ensures Elems(l0) == Boundary.BoundaryOf(Block(x0, y0, w, h))
    ensures |l0| == 2 * (w + h) && Closed(l0)
  {
    var n := 2 * (w + h);
    BoundaryOnRim(x0, y0, w, h, l0[0]);
    var m :| 0 <= m < n && Rim(x0, y0, w, h, m) == l0[0];
    BlockWalk(x0, y0, w, h, m);
    var ws := RimFrom(x0, y0, w, h, m);
    assert l0 == [l0[0]] + ws;
    RimFromElems(x0, y0, w, h, m);
    ElemsCons(l0[0], ws);
    RimFromCloses(x0, y0, w, h, m);
    assert l0[n - 1] == ws[n - 2];
  }

  /** The last edge after outline edge m ends where m starts. */
  lemma {:induction false} RimFromCloses(x0: int, y0: int, w: nat, h: nat, m: int)
    requires 1 <= w && 1 <= h && 0 <= m < 2 * (w + h)
    ensures EndCorner(RimFrom(x0, y0, w, h, m)[2 * (w + h) - 2]) == StartCorner(Rim(x0, y0, w, h, m))
  {
    var n := 2 * (w + h);
    var k := After(n, m, n - 2);
    assert RimFrom(x0, y0, w, h, m)[n - 2] == Rim(x0, y0, w, h, k);
    RimChain(x0, y0, w, h, k);
    assert (if k + 1 < n then k + 1 else 0) == m;
  }

  /** A solid w × h block has a boundary of 2(w + h) edges, and toPath drains
      it in a single closed loop: the path has one subpath and one `z`. */
  lemma {:induction false} BlockOneSubpath(x0: int, y0: int, w: nat, h: nat, loops: seq<seq<Vec>>)
    requires 1 <= w && 1 <= h
    requires Drained(Boundary.BoundaryOf(Block(x0, y0, w, h)), loops)
    requires Remaining(Boundary.BoundaryOf(Block(x0, y0, w, h)), loops) == {}
    ensures |Boundary.BoundaryOf(Block(x0, y0, w, h))| == 2 * (w + h)
    ensures |loops| == 1 && |loops[0]| == 2 * (w + h) && Closed(loops[0])
    ensures NonEmptyLoops(loops) && Count(PathOf(loops), 'z') == 1
  {
    var b := Boundary.BoundaryOf(Block(x0, y0, w, h));
    RimInBoundary(x0, y0, w, h, 0);
    assert loops != [] by {
      assert Remaining(b, []) == b;
    }
    DrainedPrefix(b, loops, 1);
    var l0 := loops[0];
    assert loops[..1][..0] == [] && loops[..1][0] == l0;
    assert Remaining(b, []) == b;
    BlockFirstLoop(x0, y0, w, h, l0);
    DrainedRemovesOnce(b, loops[..1]);
    assert Flatten(loops[..1]) == l0;
    DistinctCard(l0);
    DrainedExactlyOnce(b, loops);
    DistinctCard(Flatten(loops));
    DrainedNonEmpty(b, loops);
    FlattenLength(loops);
    PathClosesEveryLoop(loops);
  }

  /** Loops of at least one edge each: the flattened list holds the first loop
      and at least one edge of every other. */
  lemma {:induction false} FlattenLength(loops: seq<seq<Vec>>)
    requires NonEmptyLoops(loops) && loops != []
    ensures |Flatten(loops)| >= |loops[0]| + |loops| - 1
  {
    var init := loops[..|loops| - 1];
    if init == [] {
      assert Flatten(loops) == Flatten(init) + loops[0];
    } else {
      assert NonEmptyLoops(init) by {
        forall i | 0 <= i < |init| ensures |init[i]| >= 1 {
          assert init[i] == loops[i];
        }
      }
      FlattenLength(init);
      assert init[0] == loops[0];
    }
  }

  // Two pixels touching at a corner.

  /** Pixels (0, 0) and (1, 1) of one colour. toPath's Set holds E at
      (0, 0) first, so toPath starts there. At the shared corner (1, 1) findNext
      tries straight on, then left, and turns left; the walk then takes all
      seven remaining edges and passes the shared corner twice. The two pixels
      are drawn as one figure-eight loop, not as two squares. */
  lemma {:induction false} DiagonalPinch()
    ensures var s := Boundary.PushPixel(Boundary.PushPixel({}, (0, 0)), (1, 1));
      var loop := [Vec(0, 0, East), Vec(1, 0, South), Vec(1, 1, East), Vec(2, 1, South),
                   Vec(2, 2, West), Vec(1, 2, North), Vec(1, 1, West), Vec(0, 1, North)];
      && |s| == 8 && IsLoop(s, loop) && Elems(loop) == s && Closed(loop)
      && StartCorner(loop[2]) == StartCorner(loop[6]) == (1, 1)
  {
    var e0, s0, w0, n0 := Vec(0, 0, East), Vec(1, 0, South), Vec(1, 1, West), Vec(0, 1, North);
    var e1, s1, w1, n1 := Vec(1, 1, East), Vec(2, 1, South), Vec(2, 2, West), Vec(1, 2, North);
    PinchSet();
    var s := {e0, s0, w0, n0, e1, s1, w1, n1};
    PinchWalk();
    var loop := [e0, s0, e1, s1, w1, n1, w0, n0];
    assert loop[1..] == [s0, e1, s1, w1, n1, w0, n0];
    assert IsLoop(s, loop);
    PinchLoopElems();
    DistinctCard(loop);
  }

  lemma {:induction false} PinchLoopElems()
    ensures var loop := [Vec(0, 0, East), Vec(1, 0, South), Vec(1, 1, East), Vec(2, 1, South),
                         Vec(2, 2, West), Vec(1, 2, North), Vec(1, 1, West), Vec(0, 1, North)];
      && Distinct(loop)
      && Elems(loop) == {Vec(0, 0, East), Vec(1, 0, South), Vec(1, 1, West), Vec(0, 1, North),
                         Vec(1, 1, East), Vec(2, 1, South), Vec(2, 2, West), Vec(1, 2, North)}
  {
  }

  lemma {:induction false} PinchSet()
    ensures Boundary.PushPixel(Boundary.PushPixel({}, (0, 0)), (1, 1)) ==
      {Vec(0, 0, East), Vec(1, 0, South), Vec(1, 1, West), Vec(0, 1, North),
       Vec(1, 1, East), Vec(2, 1, South), Vec(2, 2, West), Vec(1, 2, North)}
  {
    var a := {Vec(0, 0, East), Vec(1, 0, South), Vec(1, 1, West), Vec(0, 1, North)};
    var e1, s1, w1, n1 := Vec(1, 1, East), Vec(2, 1, South), Vec(2, 2, West), Vec(1, 2, North);
    Boundary.LonePixel(0, 0);
    assert Boundary.PushPixel({}, (0, 0)) == a;
    assert Boundary.Outline((1, 1)) == [e1, s1, w1, n1];
    PinchPushes();
    assert Boundary.PushPixel(a, (1, 1)) ==
      Boundary.PushVector(Boundary.PushVector(Boundary.PushVector(Boundary.PushVector(a, e1), s1), w1), n1);
  }

  /** None of the reverses of pixel (1, 1)'s edges is an edge of pixel (0, 0),
      so all four pushes add. */
  lemma {:induction false} PinchPushes()
    ensures var a := {Vec(0, 0, East), Vec(1, 0, South), Vec(1, 1, West), Vec(0, 1, North)};
      var e1, s1, w1, n1 := Vec(1, 1, East), Vec(2, 1, South), Vec(2, 2, West), Vec(1, 2, North);
      Boundary.PushVector(Boundary.PushVector(Boundary.PushVector(Boundary.PushVector(a, e1), s1), w1), n1) ==
        {Vec(0, 0, East), Vec(1, 0, South), Vec(1, 1, West), Vec(0, 1, North), e1, s1, w1, n1}
  {
    var a := {Vec(0, 0, East), Vec(1, 0, South), Vec(1, 1, West), Vec(0, 1, North)};
    var e1, s1, w1, n1 := Vec(1, 1, East), Vec(2, 1, South), Vec(2, 2, West), Vec(1, 2, North);
    assert ToReverse(e1) == Vec(2, 1, West) && ToReverse(s1) == Vec(2, 2, North);
    assert ToReverse(w1) == Vec(1, 2, East) && ToReverse(n1) == Vec(1, 1, South);
    var a1 := Boundary.PushVector(a, e1);
    assert a1 == a + {e1};
    var a2 := Boundary.PushVector(a1, s1);
    assert a2 == a1 + {s1};
    var a3 := Boundary.PushVector(a2, w1);
    assert a3 == a2 + {w1};
    assert Boundary.PushVector(a3, n1) == a3 + {n1};
  }

  lemma {:induction false} PinchWalk()
    ensures var s := {Vec(0, 0, East), Vec(1, 0, South), Vec(1, 1, West), Vec(0, 1, North),
                      Vec(1, 1, East), Vec(2, 1, South), Vec(2, 2, West), Vec(1, 2, North)};
      Walk(s - {Vec(0, 0, East)}, Vec(0, 0, East)) ==
        [Vec(1, 0, South), Vec(1, 1, East), Vec(2, 1, South), Vec(2, 2, West), Vec(1, 2, North), Vec(1, 1, West), Vec(0, 1, North)]
  {
    assert {Vec(0, 0, East), Vec(1, 0, South), Vec(1, 1, West), Vec(0, 1, North),
            Vec(1, 1, East), Vec(2, 1, South), Vec(2, 2, West), Vec(1, 2, North)} - {Vec(0, 0, East)} ==
           {Vec(1, 0, South), Vec(1, 1, West), Vec(0, 1, North), Vec(1, 1, East), Vec(2, 1, South), Vec(2, 2, West), Vec(1, 2, North)};
    PinchStep1();
    PinchStep2();
    PinchStep3();
    PinchTail();
  }

  /** From the right side of pixel (1, 1) to the end of the walk. */
  lemma {:induction false} PinchTail()
    ensures Walk({Vec(1, 1, West), Vec(0, 1, North), Vec(2, 2, West), Vec(1, 2, North)}, Vec(2, 1, South)) ==
      [Vec(2, 2, West), Vec(1, 2, North), Vec(1, 1, West), Vec(0, 1, North)]
  {
    PinchStep4();
    PinchStep5();
    PinchEnd();
  }

  /** From the shared corner, the second time, to the end of the walk. */
  lemma {:induction false} PinchEnd()
    ensures Walk({Vec(1, 1, West), Vec(0, 1, North)}, Vec(1, 2, North)) == [Vec(1, 1, West), Vec(0, 1, North)]
  {
    PinchStep6();
    PinchStep7();
    WalkEnds(Vec(0, 1, North));
  }

  /** Step 1 of the walk: a right turn at (1, 0). */
  lemma {:induction false} PinchStep1()
    ensures Walk({Vec(1, 0, South), Vec(1, 1, West), Vec(0, 1, North), Vec(1, 1, East), Vec(2, 1, South), Vec(2, 2, West), Vec(1, 2, North)}, Vec(0, 0, East)) ==
      [Vec(1, 0, South)] + Walk({Vec(1, 1, West), Vec(0, 1, North), Vec(1, 1, East), Vec(2, 1, South), Vec(2, 2, West), Vec(1, 2, North)}, Vec(1, 0, South))
  {
    var s := {Vec(1, 0, South), Vec(1, 1, West), Vec(0, 1, North), Vec(1, 1, East), Vec(2, 1, South), Vec(2, 2, West), Vec(1, 2, North)};
    assert s - {Vec(1, 0, South)} == {Vec(1, 1, West), Vec(0, 1, North), Vec(1, 1, East), Vec(2, 1, South), Vec(2, 2, West), Vec(1, 2, North)};
    WalkTakes(s, Vec(0, 0, East), 3, Vec(1, 0, South));
  }

  /** Step 2 of the walk: the left turn at the shared corner (1, 1). */
  lemma {:induction false} PinchStep2()
    ensures Walk({Vec(1, 1, West), Vec(0, 1, North), Vec(1, 1, East), Vec(2, 1, South), Vec(2, 2, West), Vec(1, 2, North)}, Vec(1, 0, South)) ==
      [Vec(1, 1, East)] + Walk({Vec(1, 1, West), Vec(0, 1, North), Vec(2, 1, South), Vec(2, 2, West), Vec(1, 2, North)}, Vec(1, 1, East))
  {
    var s := {Vec(1, 1, West), Vec(0, 1, North), Vec(1, 1, East), Vec(2, 1, South), Vec(2, 2, West), Vec(1, 2, North)};
    assert s - {Vec(1, 1, East)} == {Vec(1, 1, West), Vec(0, 1, North), Vec(2, 1, South), Vec(2, 2, West), Vec(1, 2, North)};
    WalkTakes(s, Vec(1, 0, South), 1, Vec(1, 1, East));
  }

  /** Step 3 of the walk: a right turn at (2, 1). */
  lemma {:induction false} PinchStep3()
    ensures Walk({Vec(1, 1, West), Vec(0, 1, North), Vec(2, 1, South), Vec(2, 2, West), Vec(1, 2, North)}, Vec(1, 1, East)) ==
      [Vec(2, 1, South)] + Walk({Vec(1, 1, West), Vec(0, 1, North), Vec(2, 2, West), Vec(1, 2, North)}, Vec(2, 1, South))
  {
    var s := {Vec(1, 1, West), Vec(0, 1, North), Vec(2, 1, South), Vec(2, 2, West), Vec(1, 2, North)};
    assert s - {Vec(2, 1, South)} == {Vec(1, 1, West), Vec(0, 1, North), Vec(2, 2, West), Vec(1, 2, North)};
    WalkTakes(s, Vec(1, 1, East), 3, Vec(2, 1, South));
  }

  /** Step 4 of the walk: a right turn at (2, 2). */
  lemma {:induction false} PinchStep4()
    ensures Walk({Vec(1, 1, West), Vec(0, 1, North), Vec(2, 2, West), Vec(1, 2, North)}, Vec(2, 1, South)) ==
      [Vec(2, 2, West)] + Walk({Vec(1, 1, West), Vec(0, 1, North), Vec(1, 2, North)}, Vec(2, 2, West))
  {
    var s := {Vec(1, 1, West), Vec(0, 1, North), Vec(2, 2, West), Vec(1, 2, North)};
    assert s - {Vec(2, 2, West)} == {Vec(1, 1, West), Vec(0, 1, North), Vec(1, 2, North)};
    WalkTakes(s, Vec(2, 1, South), 3, Vec(2, 2, West));
  }

  /** Step 5 of the walk: a right turn at (1, 2). */
  lemma {:induction false} PinchStep5()
    ensures Walk({Vec(1, 1, West), Vec(0, 1, North), Vec(1, 2, North)}, Vec(2, 2, West)) ==
      [Vec(1, 2, North)] + Walk({Vec(1, 1, West), Vec(0, 1, North)}, Vec(1, 2, North))
  {
    var s := {Vec(1, 1, West), Vec(0, 1, North), Vec(1, 2, North)};
    assert s - {Vec(1, 2, North)} == {Vec(1, 1, West), Vec(0, 1, North)};
    WalkTakes(s, Vec(2, 2, West), 3, Vec(1, 2, North));
  }

  /** Step 6 of the walk: the left turn at the shared corner (1, 1) again. */
  lemma {:induction false} PinchStep6()
    ensures Walk({Vec(1, 1, West), Vec(0, 1, North)}, Vec(1, 2, North)) ==
      [Vec(1, 1, West)] + Walk({Vec(0, 1, North)}, Vec(1, 1, West))
  {
    var s := {Vec(1, 1, West), Vec(0, 1, North)};
    assert s - {Vec(1, 1, West)} == {Vec(0, 1, North)};
    WalkTakes(s, Vec(1, 2, North), 1, Vec(1, 1, West));
  }

  /** Step 7 of the walk: a right turn at (0, 1). */
  lemma {:induction false} PinchStep7()
    ensures Walk({Vec(0, 1, North)}, Vec(1, 1, West)) ==
      [Vec(0, 1, North)] + Walk({}, Vec(0, 1, North))
  {
    var s := {Vec(0, 1, North)};
    assert s - {Vec(0, 1, North)} == {};
    WalkTakes(s, Vec(1, 1, West), 3, Vec(0, 1, North));
  }
}
