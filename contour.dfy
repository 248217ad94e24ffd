/** The path emitter of contour mode (toPath and findNext): drain a boundary
    set one closed loop at a time, walking from corner to corner and merging
    collinear unit steps into one relative line command. */
module Contour {
  import opened Codec
  import opened Text
  import Boundary
  import opened Wrappers
  import opened Seqs

  /** The k-th candidate findNext tries after v: the corner v leads to, with
      direction (d - k) & 3, for k = 0, 1, 2, 3 (the source's i = 0, -1, -2, -3).
      The source also tests `i == 1`, which its counter never reaches. */
  function Probe(v: Vec, k: int): (r: Vec)
    requires 0 <= k < 4
    ensures r.x == EndX(v) && r.y == EndY(v)
  {
    ToNext(v, (v.d - k) % 4)
  }

  /** The first candidate at or after position k that is present in s. */
  function FirstProbe(s: set<Vec>, v: Vec, k: int): (r: Option<Vec>)
    requires 0 <= k <= 4
    ensures r.Some? ==> r.value in s && StartCorner(r.value) == EndCorner(v)
    decreases 4 - k
  {
    if k == 4 then None
    else if Probe(v, k) in s then Some(Probe(v, k))
    else FirstProbe(s, v, k + 1)
  }

  /** The edge that follows v in the walk, if any. */
  function NextOf(s: set<Vec>, v: Vec): (r: Option<Vec>)
    ensures r.Some? ==> r.value in s && StartCorner(r.value) == EndCorner(v)
  {
    FirstProbe(s, v, 0)
  }

  /** Probe order: the next edge is the first present candidate, and there is
      none exactly when no candidate is present. */
  lemma {:induction false} NextOfProbeOrder(s: set<Vec>, v: Vec, k: int)
    requires 0 <= k <= 4
    ensures FirstProbe(s, v, k).None? <==> forall j :: k <= j < 4 ==> Probe(v, j) !in s
    ensures FirstProbe(s, v, k).Some? ==>
      exists j :: k <= j < 4 && FirstProbe(s, v, k).value == Probe(v, j) &&
        forall i :: k <= i < j ==> Probe(v, i) !in s
    decreases 4 - k
  {
    if k < 4 && Probe(v, k) !in s {
      NextOfProbeOrder(s, v, k + 1);
    }
  }

  /** findNext: try the four candidates in order, return the first present one. */
  method FindNext(vectors: set<Vec>, v: Vec) returns (next: Option<Vec>)
    ensures next == NextOf(vectors, v)
    ensures next.Some? ==>
      (next.value in vectors &&
       exists k :: 0 <= k < 4 && next.value == Probe(v, k) &&
         forall j :: 0 <= j < k ==> Probe(v, j) !in vectors)
    ensures next.None? ==> forall k :: 0 <= k < 4 ==> Probe(v, k) !in vectors
  {
    var i := 0;
    while i > -4
      invariant -4 <= i <= 0
      invariant FirstProbe(vectors, v, -i) == NextOf(vectors, v)
      invariant forall j :: 0 <= j < -i ==> Probe(v, j) !in vectors
    {
      var candidate := Probe(v, -i);
      if candidate in vectors {
        return Some(candidate);
      }
      i := i - 1;
    }
    return None;
  }

  /** The third candidate is the reverse of v, so on a set with the cancellation
      invariant the walk never turns back on itself. */
  lemma {:induction false} NoUTurn(s: set<Vec>, v: Vec)
    requires Boundary.NoReversePair(s + {v})
    ensures Probe(v, 2) == ToReverse(v) && Probe(v, 2) !in s
  {
  }

  /** The edges taken after v until no candidate is left, removing each one. */
  function Walk(s: set<Vec>, v: Vec): (r: seq<Vec>)
    decreases |s|
  {
    match NextOf(s, v)
    case None => []
    case Some(n) => [n] + Walk(s - {n}, n)
  }

  function Elems(w: seq<Vec>): set<Vec> {
    set v | v in w
  }

  predicate Distinct(w: seq<Vec>) {
    forall i, j :: 0 <= i < j < |w| ==> w[i] != w[j]
  }

  /** A walk removes distinct edges of the set. */
  lemma {:induction false} WalkTakesFromSet(s: set<Vec>, v: Vec)
    ensures Elems(Walk(s, v)) <= s && Distinct(Walk(s, v))
    decreases |s|
  {
    var r := NextOf(s, v);
    if r.Some? {
      var n := r.value;
      var t := Walk(s - {n}, n);
      WalkTakesFromSet(s - {n}, n);
      assert Walk(s, v) == [n] + t;
      assert n !in Elems(t);
      AppendDistinct(n, t);
    }
  }

  lemma {:induction false} AppendDistinct(n: Vec, t: seq<Vec>)
    requires Distinct(t) && n !in t
    ensures Distinct([n] + t) && Elems([n] + t) == {n} + Elems(t)
  {
    var u := [n] + t;
    forall i, j | 0 <= i < j < |u| ensures u[i] != u[j] {
      assert u[j] == t[j - 1];
      if i > 0 {
        assert u[i] == t[i - 1];
      }
    }
  }

  /** One closed loop of toPath: a start edge of s and the walk after it. */
  predicate IsLoop(s: set<Vec>, w: seq<Vec>) {
    |w| >= 1 && w[0] in s && w[1..] == Walk(s - {w[0]}, w[0])
  }

  /** Each edge of w starts at the corner where the one before it ends. */
  predicate Connected(w: seq<Vec>) {
    forall i :: 0 <= i < |w| - 1 ==> StartCorner(w[i + 1]) == EndCorner(w[i])
  }

  /** The last edge of w ends at the corner where the first one starts. */
  predicate Closed(w: seq<Vec>) {
    |w| >= 1 && EndCorner(w[|w| - 1]) == StartCorner(w[0])
  }

  /** Following findNext from v gives a chain of edges, each one starting where
      the one before ends. */
  lemma {:induction false} WalkConnected(s: set<Vec>, v: Vec)
    ensures Connected([v] + Walk(s, v))
    decreases |s|
  {
    var r := NextOf(s, v);
    if r.Some? {
      var n := r.value;
      var t := Walk(s - {n}, n);
      WalkConnected(s - {n}, n);
      var u, u' := [v] + Walk(s, v), [n] + t;
      assert Walk(s, v) == u';
      forall i | 0 <= i < |u| - 1 ensures StartCorner(u[i + 1]) == EndCorner(u[i]) {
        assert u[i + 1] == u'[i];
        if i > 0 {
          assert u[i] == u'[i - 1];
        }
      }
    }
  }

  /** Every loop toPath takes is a chain of edges. */
  lemma {:induction false} LoopConnected(s: set<Vec>, w: seq<Vec>)
    requires IsLoop(s, w)
    ensures Connected(w)
  {
    WalkConnected(s - {w[0]}, w[0]);
    assert w == [w[0]] + w[1..];
  }

  /** All loops, in the order toPath emits them. */
  function Flatten(loops: seq<seq<Vec>>): seq<Vec> {
    if loops == [] then [] else Flatten(loops[..|loops| - 1]) + loops[|loops| - 1]
  }

  /** What is left of the set after the loops were removed. */
  function Remaining(s: set<Vec>, loops: seq<seq<Vec>>): set<Vec> {
    s - Elems(Flatten(loops))
  }

  /** Each loop starts from some edge still present and walks by probe order. */
  predicate Drained(s: set<Vec>, loops: seq<seq<Vec>>) {
    loops == [] ||
    (Drained(s, loops[..|loops| - 1]) && IsLoop(Remaining(s, loops[..|loops| - 1]), loops[|loops| - 1]))
  }

  /** Every edge that toPath removes was in the set, and none is removed twice. */
  lemma {:induction false} DrainedRemovesOnce(s: set<Vec>, loops: seq<seq<Vec>>)
    requires Drained(s, loops)
    ensures Distinct(Flatten(loops)) && Elems(Flatten(loops)) <= s
  {
    if loops != [] {
      var init, w := loops[..|loops| - 1], loops[|loops| - 1];
      DrainedRemovesOnce(s, init);
      var rest := Remaining(s, init);
      WalkTakesFromSet(rest - {w[0]}, w[0]);
      assert w == [w[0]] + w[1..];
      AppendDistinct(w[0], w[1..]);
      assert Elems(w) <= rest;
      assert Flatten(loops) == Flatten(init) + w;
      ConcatDistinct(Flatten(init), w);
    }
  }

  lemma {:induction false} ConcatDistinct(a: seq<Vec>, b: seq<Vec>)
    requires Distinct(a) && Distinct(b) && Elems(a) !! Elems(b)
    ensures Distinct(a + b) && Elems(a + b) == Elems(a) + Elems(b)
  {
    var u := a + b;
    forall i, j | 0 <= i < j < |u| ensures u[i] != u[j] {
      if j >= |a| {
        assert u[j] == b[j - |a|] && u[j] in Elems(b);
        if i >= |a| {
          assert u[i] == b[i - |a|];
        } else {
          assert u[i] == a[i] && u[i] in Elems(a);
        }
      } else {
        assert u[i] == a[i] && u[j] == a[j];
      }
    }
  }

  /** When toPath stops, the set is empty and every edge was removed exactly once. */
  lemma {:induction false} DrainedExactlyOnce(s: set<Vec>, loops: seq<seq<Vec>>)
    requires Drained(s, loops) && Remaining(s, loops) == {}
    ensures Distinct(Flatten(loops)) && Elems(Flatten(loops)) == s
  {
    DrainedRemovesOnce(s, loops);
    forall v | v in s ensures v in Elems(Flatten(loops)) {
      assert v !in Remaining(s, loops);
    }
  }

  /** Every loop toPath removes is a chain of edges. */
  lemma {:induction false} DrainedConnected(s: set<Vec>, loops: seq<seq<Vec>>)
    requires Drained(s, loops)
    ensures forall i :: 0 <= i < |loops| ==> Connected(loops[i])
  {
    if loops != [] {
      var init := loops[..|loops| - 1];
      DrainedConnected(s, init);
      LoopConnected(Remaining(s, init), loops[|loops| - 1]);
      forall i | 0 <= i < |loops| - 1 ensures Connected(loops[i]) {
        assert loops[i] == init[i];
      }
    }
  }

  // Why every loop closes: on a balanced set, taking out a chain of edges from
  // corner a to corner b leaves b one edge short on the way in and a one edge
  // short on the way out. A walk that finds no way on from b has therefore
  // come back to a.

  /** The counts of s are those of a balanced set with a chain from a to b taken out. */
  ghost predicate Imbalance(s: set<Vec>, a: (int, int), b: (int, int)) {
    forall p :: Boundary.OutCount(s, p) - Boundary.InCount(s, p) == (if p == b then 1 else 0) - (if p == a then 1 else 0)
  }

  lemma {:induction false} ImbalanceStart(s: set<Vec>, v: Vec)
    requires Boundary.Balanced(s) && v in s
    ensures Imbalance(s - {v}, StartCorner(v), EndCorner(v))
  {
    forall p ensures Boundary.OutCount(s - {v}, p) - Boundary.InCount(s - {v}, p)
      == (if p == EndCorner(v) then 1 else 0) - (if p == StartCorner(v) then 1 else 0)
    {
      Boundary.RemoveEdge(s, v, p);
    }
  }

  lemma {:induction false} ImbalanceStep(s: set<Vec>, a: (int, int), b: (int, int), n: Vec)
    requires Imbalance(s, a, b) && n in s && StartCorner(n) == b
    ensures Imbalance(s - {n}, a, EndCorner(n))
  {
    forall p ensures Boundary.OutCount(s - {n}, p) - Boundary.InCount(s - {n}, p)
      == (if p == EndCorner(n) then 1 else 0) - (if p == a then 1 else 0)
    {
      Boundary.RemoveEdge(s, n, p);
    }
  }

  /** No edge leaves b: then b is a, and the rest is balanced again. */
  lemma {:induction false} ImbalanceClose(s: set<Vec>, a: (int, int), b: (int, int))
    requires Imbalance(s, a, b) && Boundary.OutCount(s, b) == 0
    ensures a == b && Boundary.Balanced(s)
  {
    assert Boundary.OutCount(s, b) - Boundary.InCount(s, b) == 1 - (if b == a then 1 else 0);
  }

  /** When findNext finds nothing after v, no edge of s leaves the corner v leads to. */
  lemma {:induction false} NoNextLeavesNothing(s: set<Vec>, v: Vec)
    requires NextOf(s, v).None?
    ensures Boundary.OutCount(s, EndCorner(v)) == 0
  {
    NextOfProbeOrder(s, v, 0);
    forall e: Dir ensures Vec(EndX(v), EndY(v), e) !in s {
      var k := (v.d - e) % 4;
      assert Probe(v, k) == Vec(EndX(v), EndY(v), e);
    }
  }

  // Run-length encoding of the directions walked.

  datatype Run = Run(d: Dir, len: nat)

  function Dirs(w: seq<Vec>): (r: seq<Dir>)
    ensures |r| == |w|
  {
    if w == [] then [] else Dirs(w[..|w| - 1]) + [w[|w| - 1].d]
  }

  /** Maximal runs of equal directions, built step by step as toPath does:
      an equal direction lengthens the last run, another starts a run of 1. */
  function Runs(ds: seq<Dir>): (r: seq<Run>)
    ensures |r| <= |ds| && (ds != [] ==> r != [])
  {
    if ds == [] then []
    else
      var prev := Runs(ds[..|ds| - 1]);
      var d := ds[|ds| - 1];
      if prev != [] && prev[|prev| - 1].d == d then prev[..|prev| - 1] + [Run(d, prev[|prev| - 1].len + 1)]
      else prev + [Run(d, 1)]
  }

  function Repeat(d: Dir, n: nat): (r: seq<Dir>)
    ensures |r| == n && forall i :: 0 <= i < n ==> r[i] == d
  {
    if n == 0 then [] else Repeat(d, n - 1) + [d]
  }

  /** The directions a list of runs stands for. */
  function Expand(rs: seq<Run>): seq<Dir> {
    if rs == [] then [] else Expand(rs[..|rs| - 1]) + Repeat(rs[|rs| - 1].d, rs[|rs| - 1].len)
  }

  /** Runs are non-empty and two neighbouring runs never share a direction. */
  predicate WellFormed(rs: seq<Run>) {
    (forall i :: 0 <= i < |rs| ==> rs[i].len >= 1) &&
    (forall i :: 0 < i < |rs| ==> rs[i - 1].d != rs[i].d)
  }

  /** The encoding loses nothing and is maximal. */
  lemma {:induction false} RunsExpand(ds: seq<Dir>)
    ensures Expand(Runs(ds)) == ds
    ensures WellFormed(Runs(ds))
  {
    if ds != [] {
      var init, d := ds[..|ds| - 1], ds[|ds| - 1];
      RunsExpand(init);
      var prev := Runs(init);
      var r := Runs(ds);
      if prev != [] && prev[|prev| - 1].d == d {
        assert r == prev[..|prev| - 1] + [Run(d, prev[|prev| - 1].len + 1)];
        RunsLengthen(prev, d);
      } else {
        assert r == prev + [Run(d, 1)];
        RunsStart(prev, d);
      }
      assert Expand(r) == init + [d];
      SplitLast(ds);
    }
  }

  /** Lengthening the last run by one step in its direction. */
  lemma {:induction false} RunsLengthen(prev: seq<Run>, d: Dir)
    requires prev != [] && prev[|prev| - 1].d == d
    ensures var r := prev[..|prev| - 1] + [Run(d, prev[|prev| - 1].len + 1)];
      && Expand(r) == Expand(prev) + [d]
      && (WellFormed(prev) ==> WellFormed(r))
  {
    var last := prev[|prev| - 1];
    var front := prev[..|prev| - 1];
    var r := front + [Run(d, last.len + 1)];
    assert r[..|r| - 1] == front;
    assert Expand(r) == Expand(front) + Repeat(d, last.len + 1);
    assert Repeat(d, last.len + 1) == Repeat(d, last.len) + [d];
    assert Expand(prev) == Expand(front) + Repeat(d, last.len);
    Associate3(Expand(front), Repeat(d, last.len), [d]);
  }

  /** Starting a new run of one step. */
  lemma {:induction false} RunsStart(prev: seq<Run>, d: Dir)
    requires prev == [] || prev[|prev| - 1].d != d
    ensures var r := prev + [Run(d, 1)];
      && Expand(r) == Expand(prev) + [d]
      && (WellFormed(prev) ==> WellFormed(r))
  {
    var r := prev + [Run(d, 1)];
    assert r[..|r| - 1] == prev;
    assert Repeat(d, 1) == [d];
  }

  /** Encoding the expansion of well-formed runs gives the same runs back. */
  lemma {:induction false} ExpandRuns(rs: seq<Run>)
    requires WellFormed(rs)
    ensures Runs(Expand(rs)) == rs
  {
    if rs != [] {
      var init, last := rs[..|rs| - 1], rs[|rs| - 1];
      assert WellFormed(init);
      ExpandRuns(init);
      var ds := Expand(init);
      assert Expand(rs) == ds + Repeat(last.d, last.len);
      assert init == [] || init[|init| - 1].d != last.d;
      RunsRepeat(ds, last.d, last.len);
      SplitLast(rs);
    }
  }

  /** A run of n steps in a new direction adds one run of length n. */
  lemma {:induction false} RunsRepeat(ds: seq<Dir>, d: Dir, n: nat)
    requires n >= 1
    requires Runs(ds) == [] || Runs(ds)[|Runs(ds)| - 1].d != d
    ensures Runs(ds + Repeat(d, n)) == Runs(ds) + [Run(d, n)]
  {
    var rep := Repeat(d, n - 1);
    assert Repeat(d, n) == rep + [d];
    Associate3(ds, rep, [d]);
    if n > 1 {
      RunsRepeat(ds, d, n - 1);
      RunsGrow(ds + rep, d, Runs(ds), n - 1);
    } else {
      assert ds + rep == ds;
      RunsNew(ds, d);
    }
  }

  /** One more step in the last run's direction lengthens that run. */
  lemma {:induction false} RunsGrow(front: seq<Dir>, d: Dir, pre: seq<Run>, k: nat)
    requires Runs(front) == pre + [Run(d, k)]
    ensures Runs(front + [d]) == pre + [Run(d, k + 1)]
  {
    RunsSnoc(front, d);
    var prev := pre + [Run(d, k)];
    assert prev[..|pre|] == pre;
  }

  /** A step in a direction other than the last run's starts a run of one. */
  lemma {:induction false} RunsNew(front: seq<Dir>, d: Dir)
    requires Runs(front) == [] || Runs(front)[|Runs(front)| - 1].d != d
    ensures Runs(front + [d]) == Runs(front) + [Run(d, 1)]
  {
    RunsSnoc(front, d);
  }

  /** Runs of a sequence one direction longer, unfolded once. */
  lemma {:induction false} RunsSnoc(front: seq<Dir>, d: Dir)
    ensures var prev := Runs(front);
      Runs(front + [d]) ==
        if prev != [] && prev[|prev| - 1].d == d then prev[..|prev| - 1] + [Run(d, prev[|prev| - 1].len + 1)]
        else prev + [Run(d, 1)]
  {
    assert (front + [d])[..|front|] == front;
  }

  // The path text.

  /** The command for a run in direction d: h, v, h-, v- followed by the length. */
  function Header(d: Dir): string {
    ["h", "v", "h-", "v-"][d]
  }

  function RunCommands(rs: seq<Run>): string {
    if rs == [] then "" else RunCommands(rs[..|rs| - 1]) + Header(rs[|rs| - 1].d) + NatStr(rs[|rs| - 1].len)
  }

  /** The comma between the two offsets of a move is written only before a
      non-negative dy (a negative one starts with its own '-'). */
  function Separator(dy: int): string {
    if dy >= 0 then "," else ""
  }

  /** `m{dx}`, the separator, then `{dy}`. */
  function MoveCommand(dx: int, dy: int): string {
    "m" + IntStr(dx) + Separator(dy) + IntStr(dy)
  }

  /** The move that opens a subpath at corner v, relative to the reference corner (rx, ry). */
  function Move(v: Vec, rx: int, ry: int): string {
    MoveCommand(v.x - rx, v.y - ry)
  }

  function AllButLast<T>(s: seq<T>): seq<T> {
    if s == [] then [] else s[..|s| - 1]
  }

  /** One closed subpath: the move from the reference corner (rx, ry), every run
      but the last (the close command draws the last one), and `z`. */
  function SubPath(rx: int, ry: int, w: seq<Vec>): string
    requires |w| >= 1
  {
    Move(w[0], rx, ry) + RunCommands(AllButLast(Runs(Dirs(w)))) + "z"
  }

  /** The reference corner of the next move: (0, 0), then the previous loop's start. */
  function Reference(loops: seq<seq<Vec>>): (int, int) {
    if loops == [] || loops[|loops| - 1] == [] then (0, 0)
    else (loops[|loops| - 1][0].x, loops[|loops| - 1][0].y)
  }

  predicate NonEmptyLoops(loops: seq<seq<Vec>>) {
    forall i :: 0 <= i < |loops| ==> |loops[i]| >= 1
  }

  /** The string toPath returns for these loops. */
  function PathOf(loops: seq<seq<Vec>>): string
    requires NonEmptyLoops(loops)
  {
    if loops == [] then ""
    else
      var init := loops[..|loops| - 1];
      var r := Reference(init);
      PathOf(init) + SubPath(r.0, r.1, loops[|loops| - 1])
  }

  lemma {:induction false} DrainedNonEmpty(s: set<Vec>, loops: seq<seq<Vec>>)
    requires Drained(s, loops)
    ensures NonEmptyLoops(loops)
  {
    if loops != [] {
      DrainedNonEmpty(s, loops[..|loops| - 1]);
    }
  }

  function Last<T>(s: seq<T>): T
    requires s != []
  {
    s[|s| - 1]
  }

  /** Inside one loop of toPath: `walk` holds the edges removed since `start`,
      `cur` is the last of them, the current run is (cur.d, len) and `path`
      holds the move and the finished runs. */
  ghost predicate Tracing(before: set<Vec>, start: Vec, rx: int, ry: int,
                          walk: seq<Vec>, rest: set<Vec>, cur: Vec, len: nat, path: string)
  {
    && |walk| >= 1 && walk[0] == start && Last(walk) == cur
    && walk[1..] + Walk(rest, cur) == Walk(before - {start}, start)
    && rest == before - Elems(walk)
    && Runs(Dirs(walk)) != [] && Last(Runs(Dirs(walk))) == Run(cur.d, len)
    && path == Move(start, rx, ry) + RunCommands(AllButLast(Runs(Dirs(walk))))
  }

  lemma {:induction false} TraceStart(before: set<Vec>, start: Vec, rx: int, ry: int, path: string)
    requires start in before
    requires path == "m" + IntStr(start.x - rx) + Separator(start.y - ry) + IntStr(start.y - ry)
    ensures Tracing(before, start, rx, ry, [start], before - {start}, start, 1, path)
  {
    StartRuns(start);
    StartWalk(before, start);
    assert path == Move(start, rx, ry);
  }

  /** A walk of one edge is a single run of length 1, and no run is finished yet. */
  lemma {:induction false} StartRuns(start: Vec)
    ensures Runs(Dirs([start])) == [Run(start.d, 1)]
    ensures RunCommands(AllButLast(Runs(Dirs([start])))) == ""
  {
    assert Dirs([start]) == [start.d] by {
      assert [start][..0] == [];
    }
    assert Runs([start.d]) == [Run(start.d, 1)] by {
      assert [start.d][..0] == [];
    }
    var one := [Run(start.d, 1)];
    assert AllButLast(one) == [] by {
      assert one[..0] == [];
    }
  }

  /** Before the first step the whole walk from start is still ahead. */
  lemma {:induction false} StartWalk(before: set<Vec>, start: Vec)
    ensures [start][1..] + Walk(before - {start}, start) == Walk(before - {start}, start)
    ensures before - {start} == before - Elems([start])
  {
    assert [start][1..] == [];
    assert Elems([start]) == {start};
  }

  lemma {:induction false} TraceStep(before: set<Vec>, start: Vec, rx: int, ry: int,
                  walk: seq<Vec>, rest: set<Vec>, cur: Vec, len: nat, path: string,
                  n: Vec, len': nat, path': string)
    requires Tracing(before, start, rx, ry, walk, rest, cur, len, path)
    requires NextOf(rest, cur) == Some(n)
    requires len' == if cur.d == n.d then len + 1 else 1
    requires path' == if cur.d == n.d then path else path + Header(cur.d) + NatStr(len)
    ensures Tracing(before, start, rx, ry, walk + [n], rest - {n}, n, len', path')
  {
    WalkStep(walk, rest, cur, n, Walk(before - {start}, start));
    ElemsStep(before, walk, rest, n);
    RunsStep(walk, start, rx, ry, cur, len, path, n, len', path');
  }

  /** The removed edges and the remaining set stay complementary. */
  lemma {:induction false} ElemsStep(before: set<Vec>, walk: seq<Vec>, rest: set<Vec>, n: Vec)
    requires rest == before - Elems(walk)
    ensures rest - {n} == before - Elems(walk + [n])
  {
    assert Elems(walk + [n]) == Elems(walk) + {n};
  }

  /** One more edge extends the run-length bookkeeping and the emitted text as
      toPath does: same direction lengthens the run, another one flushes it. */
  lemma {:induction false} RunsStep(walk: seq<Vec>, start: Vec, rx: int, ry: int, cur: Vec, len: nat, path: string,
                                    n: Vec, len': nat, path': string)
    requires |walk| >= 1 && walk[0] == start && Last(walk) == cur
    requires Runs(Dirs(walk)) != [] && Last(Runs(Dirs(walk))) == Run(cur.d, len)
    requires path == Move(start, rx, ry) + RunCommands(AllButLast(Runs(Dirs(walk))))
    requires len' == if cur.d == n.d then len + 1 else 1
    requires path' == if cur.d == n.d then path else path + Header(cur.d) + NatStr(len)
    ensures |walk + [n]| >= 1 && (walk + [n])[0] == start && Last(walk + [n]) == n
    ensures Runs(Dirs(walk + [n])) != [] && Last(Runs(Dirs(walk + [n]))) == Run(n.d, len')
    ensures path' == Move(start, rx, ry) + RunCommands(AllButLast(Runs(Dirs(walk + [n]))))
  {
    assert (walk + [n])[0] == walk[0];
    if cur.d == n.d {
      RunsSame(walk, cur, len, n);
    } else {
      RunsTurn(walk, start, rx, ry, cur, len, path, n);
    }
  }

  /** An edge in the current direction lengthens the last run; the finished runs stay. */
  lemma {:induction false} RunsSame(walk: seq<Vec>, cur: Vec, len: nat, n: Vec)
    requires |walk| >= 1 && Runs(Dirs(walk)) != [] && Last(Runs(Dirs(walk))) == Run(cur.d, len)
    requires cur.d == n.d
    ensures Runs(Dirs(walk + [n])) != [] && Last(Runs(Dirs(walk + [n]))) == Run(n.d, len + 1)
    ensures AllButLast(Runs(Dirs(walk + [n]))) == AllButLast(Runs(Dirs(walk)))
  {
    DirsStep(walk, n);
  }

  /** An edge in another direction starts a run of 1, and the finished run's
      command is appended to the text. */
  lemma {:induction false} RunsTurn(walk: seq<Vec>, start: Vec, rx: int, ry: int, cur: Vec, len: nat, path: string, n: Vec)
    requires |walk| >= 1 && Runs(Dirs(walk)) != [] && Last(Runs(Dirs(walk))) == Run(cur.d, len)
    requires path == Move(start, rx, ry) + RunCommands(AllButLast(Runs(Dirs(walk))))
    requires cur.d != n.d
    ensures Runs(Dirs(walk + [n])) != [] && Last(Runs(Dirs(walk + [n]))) == Run(n.d, 1)
    ensures path + Header(cur.d) + NatStr(len) == Move(start, rx, ry) + RunCommands(AllButLast(Runs(Dirs(walk + [n]))))
  {
    DirsStep(walk, n);
    var r := Runs(Dirs(walk));
    var last := Last(r);
    RunCommandsStep(AllButLast(r), last);
    assert last.d == cur.d && last.len == len;
    var body := RunCommands(AllButLast(r));
    var tail := RunCommands(AllButLast(Runs(Dirs(walk + [n]))));
    assert tail == body + Header(last.d) + NatStr(last.len);
    Associate4(Move(start, rx, ry), body, Header(cur.d), NatStr(len), path, tail);
  }

  lemma {:induction false} Associate4(m: string, body: string, h: string, k: string, path: string, tail: string)
    requires path == m + body && tail == body + h + k
    ensures path + h + k == m + tail
  {
  }

  lemma {:induction false} WalkStep(walk: seq<Vec>, rest: set<Vec>, cur: Vec, n: Vec, whole: seq<Vec>)
    requires |walk| >= 1 && walk[1..] + Walk(rest, cur) == whole
    requires NextOf(rest, cur) == Some(n)
    ensures (walk + [n])[1..] + Walk(rest - {n}, n) == whole
  {
    var t := Walk(rest - {n}, n);
    assert Walk(rest, cur) == [n] + t;
    assert (walk + [n])[1..] == walk[1..] + [n];
  }

  lemma {:induction false} RunCommandsStep(rs: seq<Run>, r: Run)
    ensures RunCommands(rs + [r]) == RunCommands(rs) + Header(r.d) + NatStr(r.len)
  {
    assert (rs + [r])[..|rs|] == rs;
  }

  /** When findNext finds nothing the walk is a closed loop and its text is complete. */
  lemma {:induction false} TraceClose(before: set<Vec>, start: Vec, rx: int, ry: int,
                                      walk: seq<Vec>, rest: set<Vec>, cur: Vec, len: nat, path: string)
    requires start in before
    requires Tracing(before, start, rx, ry, walk, rest, cur, len, path)
    requires NextOf(rest, cur) == None
    ensures IsLoop(before, walk) && walk[0] == start && rest == before - Elems(walk)
    ensures |rest| < |before|
    ensures path + "z" == SubPath(rx, ry, walk)
  {
    assert Walk(rest, cur) == [];
    assert walk[1..] + [] == walk[1..];
    RestShrinks(before, walk, rest);
    SubPathFrom(rx, ry, walk, start, path);
  }

  lemma {:induction false} RestShrinks(before: set<Vec>, walk: seq<Vec>, rest: set<Vec>)
    requires |walk| >= 1 && walk[0] in before && rest == before - Elems(walk)
    ensures |rest| < |before|
  {
    var b := before - {walk[0]};
    assert walk[0] in Elems(walk);
    assert rest == b - Elems(walk);
    assert |b - Elems(walk)| + |b * Elems(walk)| == |b|;
  }

  /** The subpath of a walk starting at `start`, whose move and finished runs are `path`. */
  lemma {:induction false} SubPathFrom(rx: int, ry: int, w: seq<Vec>, start: Vec, path: string)
    requires |w| >= 1 && w[0] == start
    requires path == Move(start, rx, ry) + RunCommands(AllButLast(Runs(Dirs(w))))
    ensures SubPath(rx, ry, w) == path + "z"
  {
  }

  /** A closed loop extends the drain, and its subpath extends the text. */
  lemma {:induction false} DrainStep(s: set<Vec>, loops: seq<seq<Vec>>, before: set<Vec>, walk: seq<Vec>, rest: set<Vec>)
    requires Drained(s, loops) && before == Remaining(s, loops)
    requires IsLoop(before, walk) && rest == before - Elems(walk)
    ensures Drained(s, loops + [walk])
    ensures rest == Remaining(s, loops + [walk])
    ensures Reference(loops + [walk]) == (walk[0].x, walk[0].y)
  {
    var loops' := loops + [walk];
    assert loops'[..|loops'| - 1] == loops;
    assert Flatten(loops') == Flatten(loops) + walk;
    assert Elems(Flatten(loops')) == Elems(Flatten(loops)) + Elems(walk);
  }

  lemma {:induction false} PathStep(loops: seq<seq<Vec>>, walk: seq<Vec>, rx: int, ry: int, sub: string)
    requires NonEmptyLoops(loops) && |walk| >= 1 && (rx, ry) == Reference(loops)
    requires sub == SubPath(rx, ry, walk)
    ensures NonEmptyLoops(loops + [walk])
    ensures PathOf(loops) + sub == PathOf(loops + [walk])
  {
    var loops' := loops + [walk];
    assert loops'[..|loops'| - 1] == loops;
    assert NonEmptyLoops(loops') by {
      forall i | 0 <= i < |loops'| ensures |loops'[i]| >= 1 {
        if i < |loops| {
          assert loops'[i] == loops[i];
        }
      }
    }
  }

  /** toPath: drain the set. Each loop starts from a remaining vector (the
      source's Set iteration, here any remaining element) and is traced by
      TraceLoop; the reference corner of the next move is this loop's start. */
  method ToPath(vectors: set<Vec>) returns (result: string, loops: seq<seq<Vec>>)
    ensures Drained(vectors, loops) && Remaining(vectors, loops) == {}
    ensures NonEmptyLoops(loops) && result == PathOf(loops)
    ensures Boundary.Balanced(vectors) ==> forall i :: 0 <= i < |loops| ==> Closed(loops[i])
  {
    result := "";
    loops := [];
    var rest := vectors;
    var startx, starty := 0, 0;
    while rest != {}
      invariant Drained(vectors, loops) && NonEmptyLoops(loops)
      invariant rest == Remaining(vectors, loops)
      invariant result == PathOf(loops)
      invariant (startx, starty) == Reference(loops)
      invariant Boundary.Balanced(vectors) ==> Boundary.Balanced(rest) && AllClosed(loops)
      decreases |rest|
    {
      var vector :| vector in rest;
      ghost var before := rest;
      var path, walk;
      path, walk, rest := TraceLoop(rest, vector, startx, starty);
      DrainStep(vectors, loops, before, walk, rest);
      PathStep(loops, walk, startx, starty, path);
      if Boundary.Balanced(vectors) {
        ClosedStep(loops, walk);
      }
      result := result + path;
      loops := loops + [walk];
      startx, starty := vector.x, vector.y;
    }
  }

  ghost predicate AllClosed(loops: seq<seq<Vec>>) {
    forall i :: 0 <= i < |loops| ==> Closed(loops[i])
  }

  lemma {:induction false} ClosedStep(loops: seq<seq<Vec>>, walk: seq<Vec>)
    requires AllClosed(loops) && Closed(walk)
    ensures AllClosed(loops + [walk])
  {
    forall i | 0 <= i < |loops| + 1 ensures Closed((loops + [walk])[i]) {
      if i < |loops| {
        assert (loops + [walk])[i] == loops[i];
      }
    }
  }

  /** The body of toPath's outer loop: remove `vector`, emit the move from
      (rx, ry), then follow findNext, lengthening the current run while the
      direction stays and emitting the finished run when it changes; `z`
      closes the loop (and draws its last run). */
  method TraceLoop(vectors: set<Vec>, vector: Vec, rx: int, ry: int)
    returns (path: string, walk: seq<Vec>, rest: set<Vec>)
    requires vector in vectors
    ensures IsLoop(vectors, walk) && walk[0] == vector
    ensures rest == vectors - Elems(walk) && |rest| < |vectors|
    ensures path == SubPath(rx, ry, walk)
    ensures Boundary.Balanced(vectors) ==> Closed(walk) && Boundary.Balanced(rest)
  {
    rest := vectors - {vector};
    var x, y, d := vector.x, vector.y, vector.d;
    var dy := y - ry;
    path := "m" + IntStr(x - rx) + Separator(dy) + IntStr(dy);
    var len := 1;
    walk := [vector];
    TraceStart(vectors, vector, rx, ry, path);
    if Boundary.Balanced(vectors) {
      ImbalanceStart(vectors, vector);
    }
    while true
      invariant Tracing(vectors, vector, rx, ry, walk, rest, Vec(x, y, d), len, path)
      invariant Boundary.Balanced(vectors) ==> Imbalance(rest, StartCorner(vector), EndCorner(Vec(x, y, d)))
      decreases |rest|
    {
      var next := FindNext(rest, Vec(x, y, d));
      if next.None? {
        TraceClose(vectors, vector, rx, ry, walk, rest, Vec(x, y, d), len, path);
        if Boundary.Balanced(vectors) {
          NoNextLeavesNothing(rest, Vec(x, y, d));
          ImbalanceClose(rest, StartCorner(vector), EndCorner(Vec(x, y, d)));
        }
        path := path + "z";
        return;
      }
      var n := next.value;
      if Boundary.Balanced(vectors) {
        ImbalanceStep(rest, StartCorner(vector), EndCorner(Vec(x, y, d)), n);
      }
      rest, len, path := TraceAdvance(vectors, vector, rx, ry, walk, rest, Vec(x, y, d), len, path, n);
      x, y, d := n.x, n.y, n.d;
      walk := walk + [n];
    }
  }

  /** One step of toPath's inner loop: the edge found is removed, and its
      direction lengthens the current run or flushes it and starts a new one. */
  method TraceAdvance(ghost before: set<Vec>, ghost start: Vec, ghost rx: int, ghost ry: int, ghost walk: seq<Vec>,
                      rest: set<Vec>, cur: Vec, len: nat, path: string, n: Vec)
    returns (rest': set<Vec>, len': nat, path': string)
    requires Tracing(before, start, rx, ry, walk, rest, cur, len, path)
    requires NextOf(rest, cur) == Some(n)
    ensures Tracing(before, start, rx, ry, walk + [n], rest', n, len', path')
    ensures rest' == rest - {n} && |rest'| < |rest|
  {
    rest' := rest - {n};
    if cur.d == n.d {
      len', path' := len + 1, path;
    } else {
      len', path' := 1, path + Header(cur.d) + NatStr(len);
    }
    TraceStep(before, start, rx, ry, walk, rest, cur, len, path, n, len', path');
  }

  /** Appending an edge to the walk: its direction either lengthens the last run
      or starts a new one, and the finished runs grow accordingly. */
  lemma {:induction false} DirsStep(walk: seq<Vec>, n: Vec)
    requires walk != []
    ensures Dirs(walk + [n]) == Dirs(walk) + [n.d]
    ensures var r := Runs(Dirs(walk));
      Last(r).d == n.d ==>
        (AllButLast(Runs(Dirs(walk + [n]))) == AllButLast(r) &&
         Last(Runs(Dirs(walk + [n]))) == Run(n.d, Last(r).len + 1))
    ensures var r := Runs(Dirs(walk));
      Last(r).d != n.d ==>
        (AllButLast(Runs(Dirs(walk + [n]))) == AllButLast(r) + [Last(r)] &&
         Last(Runs(Dirs(walk + [n]))) == Run(n.d, 1))
  {
    assert (walk + [n])[..|walk|] == walk;
    var ds := Dirs(walk);
    assert (ds + [n.d])[..|ds|] == ds;
    var r := Runs(ds);
    assert r == AllButLast(r) + [r[|r| - 1]];
  }

  /** Every subpath ends with `z`, and there is one `z` per loop. */
  lemma {:induction false} PathClosesEveryLoop(loops: seq<seq<Vec>>)
    requires NonEmptyLoops(loops)
    ensures Count(PathOf(loops), 'z') == |loops|
    ensures loops != [] ==> PathOf(loops)[|PathOf(loops)| - 1] == 'z'
  {
    if loops != [] {
      var init := loops[..|loops| - 1];
      var r := Reference(init);
      PathClosesEveryLoop(init);
      var w := loops[|loops| - 1];
      var sub := SubPath(r.0, r.1, w);
      assert PathOf(loops) == PathOf(init) + sub;
      SubPathOneZ(r.0, r.1, w);
      CountAppend(PathOf(init), sub, 'z');
    }
  }

  /** A subpath holds exactly one `z`, its last character. */
  lemma {:induction false} SubPathOneZ(rx: int, ry: int, w: seq<Vec>)
    requires |w| >= 1
    ensures Count(SubPath(rx, ry, w), 'z') == 1
    ensures SubPath(rx, ry, w)[|SubPath(rx, ry, w)| - 1] == 'z'
  {
    var body := Move(w[0], rx, ry) + RunCommands(AllButLast(Runs(Dirs(w))));
    NoZ(w[0], rx, ry, AllButLast(Runs(Dirs(w))));
    assert SubPath(rx, ry, w) == body + "z";
    CountAppend(body, "z", 'z');
    assert Count("z", 'z') == 1 by {
      assert "z"[..0] == [];
    }
  }

  lemma {:induction false} NoZ(v: Vec, rx: int, ry: int, rs: seq<Run>)
    ensures Count(Move(v, rx, ry) + RunCommands(rs), 'z') == 0
  {
    IntStrChars(v.x - rx);
    IntStrChars(v.y - ry);
    RunCommandsNoZ(rs);
    assert 'z' !in Move(v, rx, ry);
    CountAbsent(Move(v, rx, ry) + RunCommands(rs), 'z');
  }

  lemma {:induction false} RunCommandsNoZ(rs: seq<Run>)
    ensures 'z' !in RunCommands(rs)
  {
    if rs != [] {
      RunCommandsNoZ(rs[..|rs| - 1]);
      var last := rs[|rs| - 1];
      assert 'z' !in Header(last.d);
      assert 'z' !in NatStr(last.len);
    }
  }

  /** A lone pixel traced from its top-left east edge: one loop of four unit
      steps east, south, west, north, written `m{x},{y}h1v1h-1z`. */
  lemma {:induction false} LonePixelPath(x: nat, y: nat)
    ensures var s := Boundary.PushPixel({}, (x, y));
      var w := [Vec(x, y, East), Vec(x + 1, y, South), Vec(x + 1, y + 1, West), Vec(x, y + 1, North)];
      IsLoop(s, w) && Elems(w) == s && SubPath(0, 0, w) == "m" + NatStr(x) + "," + NatStr(y) + "h1v1h-1z"
  {
    LoneWalk(x, y);
    LoneText(x, y);
  }

  lemma {:induction false} LoneWalk(x: nat, y: nat)
    ensures var s := Boundary.PushPixel({}, (x, y));
      var w := [Vec(x, y, East), Vec(x + 1, y, South), Vec(x + 1, y + 1, West), Vec(x, y + 1, North)];
      IsLoop(s, w) && Elems(w) == s
  {
    Boundary.LonePixel(x, y);
    var e, so, we, no := Vec(x, y, East), Vec(x + 1, y, South), Vec(x + 1, y + 1, West), Vec(x, y + 1, North);
    var w := [e, so, we, no];
    WalkTurnsRight({so, we, no}, e, so);
    assert {so, we, no} - {so} == {we, no};
    WalkTurnsRight({we, no}, so, we);
    assert {we, no} - {we} == {no};
    WalkTurnsRight({no}, we, no);
    assert {no} - {no} == {};
    WalkEnds(no);
    assert {e, so, we, no} - {e} == {so, we, no};
    assert w[1..] == [so, we, no];
  }

  /** When only the last candidate, the right turn, is present, the walk takes it. */
  lemma {:induction false} WalkTurnsRight(s: set<Vec>, v: Vec, n: Vec)
    requires Probe(v, 0) !in s && Probe(v, 1) !in s && Probe(v, 2) !in s
    requires Probe(v, 3) == n && n in s
    ensures Walk(s, v) == [n] + Walk(s - {n}, n)
  {
    assert NextOf(s, v) == Some(n);
  }

  /** A walk over an empty set stops at once. */
  lemma {:induction false} WalkEnds(v: Vec)
    ensures Walk({}, v) == []
  {
    assert NextOf({}, v) == None;
  }

  lemma {:induction false} LoneText(x: nat, y: nat)
    ensures var w := [Vec(x, y, East), Vec(x + 1, y, South), Vec(x + 1, y + 1, West), Vec(x, y + 1, North)];
      SubPath(0, 0, w) == "m" + NatStr(x) + "," + NatStr(y) + "h1v1h-1z"
  {
    var w := [Vec(x, y, East), Vec(x + 1, y, South), Vec(x + 1, y + 1, West), Vec(x, y + 1, North)];
    LoneDirs(w);
    LoneRuns();
    LoneCommands();
    assert AllButLast(Runs(Dirs(w))) == [Run(0, 1), Run(1, 1), Run(2, 1)];
    assert Move(w[0], 0, 0) == "m" + NatStr(x) + "," + NatStr(y);
  }

  lemma {:induction false} LoneDirs(w: seq<Vec>)
    requires |w| == 4 && w[0].d == 0 && w[1].d == 1 && w[2].d == 2 && w[3].d == 3
    ensures Dirs(w) == [0, 1, 2, 3]
  {
    assert w[..3][..2][..1][..0] == [];
    assert Dirs(w[..1]) == [0];
    assert Dirs(w[..2]) == [0, 1] by {
      assert w[..2][..1] == w[..1];
    }
    assert Dirs(w[..3]) == [0, 1, 2] by {
      assert w[..3][..2] == w[..2];
    }
  }

  lemma {:induction false} LoneRuns()
    ensures Runs([0, 1, 2, 3]) == [Run(0, 1), Run(1, 1), Run(2, 1), Run(3, 1)]
  {
    var s0: seq<Dir> := [];
    RunsNew(s0, 0);
    assert s0 + [0] == [0];
    var s1: seq<Dir> := [0];
    RunsNew(s1, 1);
    assert s1 + [1] == [0, 1];
    var s2: seq<Dir> := [0, 1];
    RunsNew(s2, 2);
    assert s2 + [2] == [0, 1, 2];
    var s3: seq<Dir> := [0, 1, 2];
    RunsNew(s3, 3);
    assert s3 + [3] == [0, 1, 2, 3];
  }

  lemma {:induction false} LoneCommands()
    ensures RunCommands([Run(0, 1), Run(1, 1), Run(2, 1)]) == "h1v1h-1"
  {
    var rs := [Run(0, 1), Run(1, 1), Run(2, 1)];
    assert rs[..2] == [Run(0, 1), Run(1, 1)];
    assert rs[..2][..1] == [Run(0, 1)];
    assert [Run(0, 1)][..0] == [];
    assert NatStr(1) == "1";
  }
}
