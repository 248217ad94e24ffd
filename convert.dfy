/** convert and its two instances: the buffer is read as colour words, grouped
    by colour, and each colour's group is turned into path data. The result
    map's key order is the colour order; `colors` carries it. */
module Convert {
  import opened Wrappers
  import opened Color
  import opened Codec
  import opened ColorMap
  import opened Boundary
  import opened Contour
  import opened Dots

  /** Dotrace.trace: one outline path per colour. `loops` holds, per colour,
      the closed walks the path was drawn from, in drawing order. */
  method Trace(data: seq<Byte>, w: nat, h: nat)
    returns (colors: seq<int>, paths: map<int, string>, loops: map<int, seq<seq<Vec>>>)
    requires |data| % 4 == 0 && w * h <= |data| / 4
    requires w < CoordLimit && h < CoordLimit
    ensures 0 < w ==> colors == ColorOrder(Words(data)[..w * h])
    ensures w == 0 ==> colors == []
    ensures forall c :: c in paths <==> c in colors
    ensures forall c :: c in loops <==> c in colors
    ensures forall c :: c in paths && 0 < w ==>
      var b := BoundaryOf(Region(Words(data)[..w * h], w, c));
      && c in loops && Drained(b, loops[c]) && Remaining(b, loops[c]) == {}
      && NonEmptyLoops(loops[c]) && paths[c] == PathOf(loops[c])
      && forall k :: 0 <= k < |loops[c]| ==> Connected(loops[c][k]) && Closed(loops[c][k])
  {
    var arr := Words(data);
    var vectors;
    colors, vectors := AssortVectors(arr, w, h);
    if 0 < w {
      forall c | c in vectors ensures Balanced(vectors[c]) {
        BoundaryBalanced(Region(arr[..w * h], w, c));
      }
    }
    paths, loops := TraceColors(colors, vectors);
  }

  /** The loop of convert in contour mode: each colour's boundary set is drained
      by toPath, in colour order. */
  method TraceColors(colors: seq<int>, vectors: map<int, set<Vec>>)
    returns (paths: map<int, string>, loops: map<int, seq<seq<Vec>>>)
    requires forall c :: c in vectors <==> c in colors
    ensures forall c :: c in paths <==> c in colors
    ensures forall c :: c in loops <==> c in colors
    ensures forall c :: c in paths ==>
      && c in vectors && c in loops && Drained(vectors[c], loops[c]) && Remaining(vectors[c], loops[c]) == {}
      && NonEmptyLoops(loops[c]) && paths[c] == PathOf(loops[c])
      && forall k :: 0 <= k < |loops[c]| ==> Connected(loops[c][k]) && (Balanced(vectors[c]) ==> Closed(loops[c][k]))
  {
    paths, loops := map[], map[];
    var i := 0;
    while i < |colors|
      invariant 0 <= i <= |colors|
      invariant forall j :: 0 <= j < i ==> colors[j] in paths && colors[j] in loops
      invariant forall c :: c in loops ==> c in vectors
      invariant forall c :: c in paths ==>
        && c in vectors && c in loops && Drained(vectors[c], loops[c]) && Remaining(vectors[c], loops[c]) == {}
        && NonEmptyLoops(loops[c]) && paths[c] == PathOf(loops[c])
        && forall k :: 0 <= k < |loops[c]| ==> Connected(loops[c][k]) && (Balanced(vectors[c]) ==> Closed(loops[c][k]))
    {
      var c := colors[i];
      var path, walks := ToPath(vectors[c]);
      DrainedConnected(vectors[c], walks);
      paths, loops := paths[c := path], loops[c := walks];
      i := i + 1;
    }
  }

  /** Dotrace.dotToShape: one dotted path per colour, each pixel drawn with the
      given shape, or with the default unit square when none is given. */
  method DotToShape(data: seq<Byte>, w: nat, h: nat, shape: Option<string>)
    returns (colors: seq<int>, paths: map<int, string>)
    requires |data| % 4 == 0 && w * h <= |data| / 4
    ensures 0 < w ==> colors == ColorOrder(Words(data)[..w * h])
    ensures w == 0 ==> colors == []
    ensures forall c :: c in paths <==> c in colors
    ensures forall c :: c in paths && 0 < w ==>
      paths[c] == DotPath(PixelsOf(Words(data)[..w * h], w, c), ShapeOrDefault(shape))
  {
    var arr := Words(data);
    var pixels;
    colors, pixels := AssortPixels(arr, w, h);
    paths := DotColors(colors, pixels, ShapeOrDefault(shape));
  }

  /** The loop of convert in dot mode: each colour's pixel list is drawn with
      the shape, in colour order. */
  method DotColors(colors: seq<int>, pixels: map<int, seq<Pixel>>, shape: string) returns (paths: map<int, string>)
    requires forall c :: c in pixels <==> c in colors
    ensures forall c :: c in paths <==> c in colors
    ensures forall c :: c in paths ==> c in pixels && paths[c] == DotPath(pixels[c], shape)
  {
    paths := map[];
    var i := 0;
    while i < |colors|
      invariant 0 <= i <= |colors|
      invariant forall j :: 0 <= j < i ==> colors[j] in paths
      invariant forall c :: c in paths ==> c in pixels && paths[c] == DotPath(pixels[c], shape)
    {
      var c := colors[i];
      var path := DotToPath(pixels[c], shape);
      ghost var before := paths;
      paths := paths[c := path];
      forall j | 0 <= j <= i ensures colors[j] in paths {
        if j < i {
          assert colors[j] in before;
        }
      }
      i := i + 1;
    }
  }

  /** Both modes see the same colours in the same order, never colour 0, and
      a colour's dots cover exactly the pixels its outline encloses. */
  lemma {:induction false} ModesAgree(data: seq<Byte>, w: nat, h: nat, c: int)
    requires |data| % 4 == 0 && 0 < w && w * h <= |data| / 4
    ensures var img := Words(data)[..w * h];
      && (c in ColorOrder(img) <==> c != NoPaint && c in img)
      && (forall p :: p in PixelsOf(img, w, c) <==> p in Region(img, w, c))
  {
    var img := Words(data)[..w * h];
    ColorOrderMembers(img);
    PixelsOfRegion(img, w, c);
  }
}
