/** The row-major scan shared by both tracing modes: which colours get an entry
    in the colour map, in which order, and which pixels belong to each colour.
    An image is the sequence of its 32-bit colour words, row after row. */
module ColorMap {
  import Arith

  /** The word 0 (transparent black) paints nothing and never gets an entry. */
  const NoPaint: int := 0

  type Pixel = (int, int)

  /** The pixel at row-major index i of an image w pixels wide. */
  function Coord(i: int, w: int): (p: Pixel)
    requires 0 <= i && 0 < w
    ensures 0 <= p.0 < w && 0 <= p.1
    ensures i == p.0 + p.1 * w
  {
    (i % w, i / w)
  }

  /** Different indices are different pixels. */
  lemma {:induction false} CoordInjective(i: int, j: int, w: int)
    requires 0 <= i && 0 <= j && 0 < w
    ensures Coord(i, w) == Coord(j, w) <==> i == j
  {
  }

  /** The keys of the colour map, in the order the scan first meets them. */
  function ColorOrder(img: seq<int>): (r: seq<int>)
  {
    if img == [] then []
    else
      var prev := ColorOrder(img[..|img| - 1]);
      var c := img[|img| - 1];
      if c == NoPaint || c in prev then prev else prev + [c]
  }

  /** Index of the first pixel of colour c. */
  function FirstIndex(img: seq<int>, c: int): (i: nat)
    requires c in img
    ensures i < |img| && img[i] == c && c !in img[..i]
  {
    if c in img[..|img| - 1] then FirstIndex(img[..|img| - 1], c) else |img| - 1
  }

  /** The pixels of colour c (a set: the boundary builder does not depend on order). */
  ghost function Region(img: seq<int>, w: int, c: int): set<Pixel>
    requires 0 < w
  {
    set i | 0 <= i < |img| && img[i] == c :: Coord(i, w)
  }

  /** A colour is a key exactly when it is painted and occurs in the image. */
  lemma {:induction false} ColorOrderMembers(img: seq<int>)
    ensures forall c :: c in ColorOrder(img) <==> c != NoPaint && c in img
  {
    if img != [] {
      var init := img[..|img| - 1];
      ColorOrderMembers(init);
      assert img == init + [img[|img| - 1]];
    }
  }

  /** Every colour appears once. */
  lemma {:induction false} ColorOrderDistinct(img: seq<int>)
    ensures forall i, j :: 0 <= i < j < |ColorOrder(img)| ==> ColorOrder(img)[i] != ColorOrder(img)[j]
  {
    if img != [] {
      ColorOrderDistinct(img[..|img| - 1]);
    }
  }

  /** The keys are listed in order of first appearance in the scan. */
  lemma {:induction false} ColorOrderFirstSeen(img: seq<int>)
    ensures forall c :: c in ColorOrder(img) ==> c in img
    ensures forall i, j :: 0 <= i < j < |ColorOrder(img)| ==>
      FirstIndex(img, ColorOrder(img)[i]) < FirstIndex(img, ColorOrder(img)[j])
  {
    ColorOrderMembers(img);
    if img != [] {
      var init := img[..|img| - 1];
      var c := img[|img| - 1];
      ColorOrderFirstSeen(init);
      ColorOrderMembers(init);
      var prev, r := ColorOrder(init), ColorOrder(img);
      forall i, j | 0 <= i < j < |r| ensures FirstIndex(img, r[i]) < FirstIndex(img, r[j]) {
        assert r[i] == prev[i] && prev[i] in prev;
        if j < |prev| {
          assert r[j] == prev[j] && prev[j] in prev;
        } else {
          assert r[j] == c && c !in init;
        }
      }
    }
  }

  /** One more pixel of the scan: the prefix grows by one element. */
  lemma {:induction false} ExtendPrefix(img: seq<int>, n: nat)
    requires n < |img|
    ensures img[..n + 1][..n] == img[..n] && img[..n + 1][n] == img[n]
  {
  }
}
