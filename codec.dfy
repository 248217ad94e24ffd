/** Edge vectors of the pixel grid and their packed integer key.
    A vector is a grid corner (x, y) together with one of four directions
    (0 = east, 1 = south, 2 = west, 3 = north; y grows downwards): the unit
    edge walked from that corner in that direction. */
module Codec {
  import Arith

  /** Direction of a unit edge: 0 east, 1 south, 2 west, 3 north. */
  type Dir = d: int | 0 <= d < 4

  const East: Dir := 0
  const South: Dir := 1
  const West: Dir := 2
  const North: Dir := 3

  /** A directed unit edge starting at corner (x, y). */
  datatype Vec = Vec(x: int, y: int, d: Dir)

  /** The packed layout gives x and y fifteen bits each. */
  const CoordLimit: int := 0x8000

  predicate Packable(x: int, y: int) {
    0 <= x < CoordLimit && 0 <= y < CoordLimit
  }

  /** joinXYD: `x << 17 | y << 2 | d`. With x and y below 2^15 and d below 4 the
      three bit fields are disjoint, so the or is a sum; the result is the
      unsigned reading of the 32 bits (the signed reading the source keeps for
      large x has the same bits, hence the same equalities). */
  function Join(x: int, y: int, d: Dir): (k: nat)
    requires Packable(x, y)
    ensures k < 0x1_0000_0000
    ensures k / 0x20000 == x && k % 0x20000 / 4 == y && k % 4 == d
  {
    var k := x * 0x20000 + y * 4 + d;
    Arith.DivModUnique(k, 0x20000, x, y * 4 + d);
    Arith.DivModUnique(y * 4 + d, 4, y, d);
    Arith.DivModUnique(k, 4, x * 0x8000 + y, d);
    k
  }

  /** splitXYD: `[k >>> 17, (k & 0b11111111111111100) >>> 2, k & 0b11]` on a
      non-negative 32-bit key. */
  function Split(k: nat): (r: (int, int, Dir))
    requires k < 0x1_0000_0000
    ensures Packable(r.0, r.1)
  {
    (k / 0x20000, (k % 0x20000) / 4, k % 4)
  }

  function JoinVec(v: Vec): (k: nat)
    requires Packable(v.x, v.y)
    ensures k < 0x1_0000_0000
  {
    Join(v.x, v.y, v.d)
  }

  /** Unpacking undoes packing on the whole packable range. */
  lemma {:induction false} SplitJoin(x: int, y: int, d: Dir)
    requires Packable(x, y)
    ensures Split(Join(x, y, d)) == (x, y, d)
  {
  }

  /** Packing undoes unpacking: every 32-bit key is the key of exactly one vector. */
  lemma {:induction false} JoinSplit(k: nat)
    requires k < 0x1_0000_0000
    ensures var (x, y, d) := Split(k); Join(x, y, d) == k
  {
    var hi, q := k / 0x20000, k % 0x20000;
    var y, d := q / 4, q % 4;
    assert q == y * 4 + d;
    assert k == hi * 0x20000 + q;
    Arith.DivModUnique(k, 4, hi * 0x8000 + y, d);
  }

  /** Distinct packable vectors get distinct keys, so a set of keys and the set
      of vectors it encodes have the same membership. */
  lemma {:induction false} JoinInjective(u: Vec, v: Vec)
    requires Packable(u.x, u.y) && Packable(v.x, v.y)
    ensures JoinVec(u) == JoinVec(v) <==> u == v
  {
    SplitJoin(u.x, u.y, u.d);
    SplitJoin(v.x, v.y, v.d);
  }

  /** The corner reached by walking v's unit edge. */
  function EndX(v: Vec): int {
    if v.d == East then v.x + 1 else if v.d == West then v.x - 1 else v.x
  }

  function EndY(v: Vec): int {
    if v.d == South then v.y + 1 else if v.d == North then v.y - 1 else v.y
  }

  /** The corner an edge starts from, and the corner it leads to. */
  function StartCorner(v: Vec): (int, int) {
    (v.x, v.y)
  }

  function EndCorner(v: Vec): (int, int) {
    (EndX(v), EndY(v))
  }

  /** toNext: step one unit along v's direction and label the corner reached
      with nd. The step is horizontal for east and west, vertical for south and
      north, and goes towards larger coordinates for east and south. */
  function ToNext(v: Vec, nd: Dir): (r: Vec)
    ensures r.d == nd
    ensures (r.x - v.x) * (r.x - v.x) + (r.y - v.y) * (r.y - v.y) == 1
    ensures (v.d == East || v.d == West) <==> r.y == v.y
    ensures (v.d == East || v.d == South) <==> r.x + r.y > v.x + v.y
    ensures StartCorner(r) == EndCorner(v)
  {
    Vec(EndX(v), EndY(v), nd)
  }

  /** toReverse: the vector that cancels v, i.e. toNext with direction (d + 2) & 3. */
  function ToReverse(v: Vec): (r: Vec)
    ensures r.x == EndX(v) && r.y == EndY(v)
    ensures EndX(r) == v.x && EndY(r) == v.y
    ensures r.d == (v.d + 2) % 4
  {
    ToNext(v, (v.d + 2) % 4)
  }

  /** Reversing twice gives back the vector; no vector is its own reverse. */
  lemma {:induction false} ReverseInvolution(v: Vec)
    ensures ToReverse(ToReverse(v)) == v
    ensures ToReverse(v) != v
  {
  }
}
