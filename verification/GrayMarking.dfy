/** Colours of heap cells: how an expose barrier changes them, as a function on colourings. */
module GrayColoring {
  import opened HeapLayout

  /** In order: the greater, the more marked. */
  datatype Color = White | Gray | Black {
    function Rank(): nat {
      match this
      case White => 0
      case Gray => 1
      case Black => 2
    }
  }

  datatype Zone = Zone(needsIncrementalBarrier: bool, isGCPreparing: bool) {
    predicate Quiet() { !needsIncrementalBarrier && !isGCPreparing }
  }

  /** The cells and their outgoing edges. Nursery cells have no mark bits and so no colour. */
  datatype Graph = Graph(tenured: set<Cell>, nursery: set<Cell>, edges: map<Cell, seq<Cell>>) {
    predicate Valid() {
      && tenured !! nursery && edges.Keys == tenured + nursery
      && forall c, i :: c in edges && 0 <= i < |edges[c]| ==> edges[c][i] in edges
    }

    predicate Edge(from: Cell, to: Cell) { from in edges && to in edges[from] }
  }

  type Coloring = map<Cell, Color>

  predicate Colors(g: Graph, c: Coloring) { g.Valid() && c.Keys == g.tenured }

  predicate IsGray(c: Coloring, x: Cell) { x in c && c[x] == Gray }

  predicate IsWhite(c: Coloring, x: Cell) { x in c && c[x] == White }

  // ----- reachability -----

  ghost predicate Path(g: Graph, p: seq<Cell>, from: Cell, to: Cell) {
    && |p| > 0 && p[0] == from && p[|p| - 1] == to
    && forall i :: 0 < i < |p| ==> g.Edge(p[i - 1], p[i])
  }

  ghost predicate GrayPath(g: Graph, c: Coloring, p: seq<Cell>, from: Cell, to: Cell) {
    Path(g, p, from, to) && forall i :: 0 <= i < |p| ==> IsGray(c, p[i])
  }

  ghost predicate GrayReach(g: Graph, c: Coloring, from: Cell, to: Cell) {
    exists p :: GrayPath(g, c, p, from, to)
  }

  lemma GrayReachSelf(g: Graph, c: Coloring, x: Cell)
    ensures GrayReach(g, c, x, x) <==> IsGray(c, x)
  {
    if IsGray(c, x) {
      assert GrayPath(g, c, [x], x, x);
    }
  }

  lemma GrayReachStep(g: Graph, c: Coloring, from: Cell, x: Cell, y: Cell)
    requires GrayReach(g, c, from, x) && g.Edge(x, y) && IsGray(c, y)
    ensures GrayReach(g, c, from, y)
  {
    var p :| GrayPath(g, c, p, from, x);
    assert GrayPath(g, c, p + [y], from, y);
  }

  lemma GrayReachEnds(g: Graph, c: Coloring, from: Cell, to: Cell)
    requires GrayReach(g, c, from, to)
    ensures IsGray(c, from) && IsGray(c, to)
  {
  }

  /** A set that holds from and is closed under edges to gray cells holds all that from reaches. */
  lemma {:induction false} ClosedHoldsPath(g: Graph, c: Coloring, done: set<Cell>, p: seq<Cell>, from: Cell, to: Cell)
    requires GrayPath(g, c, p, from, to) && from in done
    requires forall x, y :: x in done && g.Edge(x, y) && IsGray(c, y) ==> y in done
    ensures to in done
    decreases |p|
  {
    if |p| > 1 {
      ClosedHoldsPath(g, c, done, p[..|p| - 1], from, p[|p| - 2]);
    }
  }

  // ----- the barrier on colourings -----

  /** Everything gray that is reached from root through gray cells, root included, turns black. */
  ghost function Unmarked(g: Graph, c: Coloring, root: Cell): Coloring {
    map x | x in c :: if GrayReach(g, c, root, x) then Black else c[x]
  }

  ghost function Exposed(g: Graph, c: Coloring, zone: Zone, x: Cell): Coloring {
    if x !in c || c[x] == Black then c
    else if zone.needsIncrementalBarrier then c[x := Black]
    else if !zone.isGCPreparing && c[x] == Gray then Unmarked(g, c, x)
    else c
  }

  /** Black on a set of cells, as before elsewhere. */
  function Blacken(c: Coloring, done: set<Cell>): Coloring {
    map x | x in c :: if x in done then Black else c[x]
  }

  /** A set is exactly what root reaches through gray cells when each member is so reached and
      the set is closed; blackening it is then the whole unmarking. */
  lemma BlackenIsUnmarked(g: Graph, c: Coloring, root: Cell, done: set<Cell>)
    requires root in done && forall x :: x in done ==> GrayReach(g, c, root, x)
    requires forall x, y :: x in done && g.Edge(x, y) && IsGray(c, y) ==> y in done
    ensures Blacken(c, done) == Unmarked(g, c, root)
  {
    forall x | x in c && GrayReach(g, c, root, x) ensures x in done {
      var p :| GrayPath(g, c, p, root, x);
      ClosedHoldsPath(g, c, done, p, root, x);
    }
  }

  /** The state of the worklist: every marked cell was reached through gray cells, and only the
      cells on the stack may still have gray children that are not marked. */
  ghost predicate Frontier(g: Graph, c: Coloring, root: Cell, done: set<Cell>, stack: seq<Cell>) {
    && root in done && (forall x :: x in done ==> GrayReach(g, c, root, x))
    && (forall x :: x in stack ==> x in done)
    && forall x, y :: x in done && x !in stack && g.Edge(x, y) && IsGray(c, y) ==> y in done
  }

  lemma FrontierStart(g: Graph, c: Coloring, root: Cell)
    requires IsGray(c, root)
    ensures Frontier(g, c, root, {root}, [root])
  {
    GrayReachSelf(g, c, root);
  }

  /** Marking the gray children of the cell popped off the stack, and pushing those newly marked. */
  lemma FrontierStep(g: Graph, c: Coloring, root: Cell, done: set<Cell>, below: seq<Cell>, x: Cell,
                     more: set<Cell>, stack: seq<Cell>)
    requires Frontier(g, c, root, done, below + [x])
    requires forall y :: y in more <==> y in done || (g.Edge(x, y) && IsGray(c, y))
    requires forall y :: y in stack <==> y in below || y in more - done
    ensures Frontier(g, c, root, more, stack)
  {
    forall y | y in more && y !in done ensures GrayReach(g, c, root, y) {
      assert x in below + [x];
      GrayReachStep(g, c, root, x, y);
    }
    hide GrayReach;
    forall a, b | a in more && a !in stack && g.Edge(a, b) && IsGray(c, b) ensures b in more {
      if a != x {
        assert a in done && a !in below + [x];
      }
    }
  }

  lemma FrontierHolds(g: Graph, c: Coloring, root: Cell, done: set<Cell>, below: seq<Cell>, x: Cell)
    requires Frontier(g, c, root, done, below + [x])
    ensures x in done
  {
    assert x in below + [x];
  }

  lemma FrontierEnd(g: Graph, c: Coloring, root: Cell, done: set<Cell>)
    requires Frontier(g, c, root, done, [])
    ensures Blacken(c, done) == Unmarked(g, c, root)
  {
    BlackenIsUnmarked(g, c, root, done);
  }

  /** What an exposure does in a zone that is not quiet: under incremental marking the cell is marked
      black, whatever its colour; otherwise, while a collection is prepared, nothing happens. In a quiet
      zone, the gray cells reached through gray cells turn black. */
  lemma ExposeByZone(g: Graph, c: Coloring, zone: Zone, x: Cell)
    requires x in c
    ensures zone.needsIncrementalBarrier ==> Exposed(g, c, zone, x) == c[x := Black]
    ensures !zone.needsIncrementalBarrier && zone.isGCPreparing ==> Exposed(g, c, zone, x) == c
    ensures zone.Quiet() ==>
      && Exposed(g, c, zone, x).Keys == c.Keys
      && forall y :: y in c ==> Exposed(g, c, zone, x)[y] == if GrayReach(g, c, x, y) then Black else c[y]
  {
    if zone.Quiet() && c[x] != Gray {
      NotReached(g, c, x);
      assert Unmarked(g, c, x) == c;
    }
  }

  lemma UnmarkedRoot(g: Graph, c: Coloring, root: Cell)
    requires IsGray(c, root)
    ensures root in Unmarked(g, c, root) && Unmarked(g, c, root)[root] == Black
  {
    GrayReachSelf(g, c, root);
  }

  // ----- the heap invariant -----

  ghost predicate NoBlackToGray(g: Graph, c: Coloring) {
    forall x, y :: x in c && c[x] == Black && g.Edge(x, y) ==> !IsGray(c, y)
  }

  ghost predicate NoNurseryToGray(g: Graph, c: Coloring) {
    forall x, y :: x in g.nursery && g.Edge(x, y) ==> !IsGray(c, y)
  }

  /** Every cell keeps its colour or gets more marked, white ones stay white. */
  predicate OnlyGrayToBlack(c: Coloring, d: Coloring) {
    c.Keys == d.Keys && forall x :: x in c ==> c[x] == d[x] || (c[x] == Gray && d[x] == Black)
  }

  /** Exposing in a quiet zone keeps the heap free of black-to-gray and nursery-to-gray edges,
      only turns gray cells black, and leaves the exposed cell not gray. */
  lemma ExposeKeepsInvariant(g: Graph, c: Coloring, zone: Zone, x: Cell)
    requires Colors(g, c) && zone.Quiet() && NoBlackToGray(g, c)
    ensures NoBlackToGray(g, Exposed(g, c, zone, x))
    ensures NoNurseryToGray(g, c) ==> NoNurseryToGray(g, Exposed(g, c, zone, x))
    ensures OnlyGrayToBlack(c, Exposed(g, c, zone, x))
    ensures !IsGray(Exposed(g, c, zone, x), x)
  {
    var d := Exposed(g, c, zone, x);
    if IsGray(c, x) {
      GrayReachSelf(g, c, x);
      forall a | a in c && GrayReach(g, c, x, a) ensures c[a] == Gray {
        GrayReachEnds(g, c, x, a);
      }
      forall a, b | a in d && d[a] == Black && g.Edge(a, b) && IsGray(c, b) ensures !IsGray(d, b) {
        if c[a] != Black {
          GrayReachStep(g, c, x, a, b);
        }
      }
    }
  }

  // ----- what an exposed cell can still reach -----

  predicate WhiteFree(c: Coloring, p: seq<Cell>) {
    forall i :: 0 <= i < |p| ==> !IsWhite(c, p[i])
  }

  /** A cell that an edge to a gray one does not make a violation of the invariant: a white one, or one
      in the nursery, which has no colour. */
  predicate CanHide(g: Graph, c: Coloring, a: Cell) { IsWhite(c, a) || a in g.nursery }

  /** On the path, no such cell is followed by a gray one. */
  predicate HidesNothingOn(g: Graph, c: Coloring, p: seq<Cell>) {
    forall i :: 0 < i < |p| && CanHide(g, c, p[i - 1]) ==> !IsGray(c, p[i])
  }

  /** Along such a path, everything after a cell that is not gray is not gray. */
  lemma {:induction false} NotGrayAlongPath(g: Graph, c: Coloring, p: seq<Cell>, from: Cell, to: Cell)
    requires Colors(g, c) && NoBlackToGray(g, c)
    requires Path(g, p, from, to) && HidesNothingOn(g, c, p) && !IsGray(c, from)
    ensures !IsGray(c, to)
    decreases |p|
  {
    if |p| > 1 {
      var q, before := p[..|p| - 1], p[|p| - 2];
      assert g.Edge(before, to);
      NotGrayAlongPath(g, c, q, from, before);
      assert before in g.edges;
      assert CanHide(g, c, before) ==> !IsGray(c, p[|p| - 1]);
    }
  }

  /** A path without white cells, in a heap where nothing in the nursery points at a gray one. */
  lemma WhiteFreeHidesNothing(g: Graph, c: Coloring, p: seq<Cell>, from: Cell, to: Cell)
    requires NoNurseryToGray(g, c) && Path(g, p, from, to) && WhiteFree(c, p)
    ensures HidesNothingOn(g, c, p)
  {
    forall i | 0 < i < |p| && CanHide(g, c, p[i - 1]) ensures !IsGray(c, p[i]) {
      assert g.Edge(p[i - 1], p[i]);
    }
  }

  /** When marking is complete, so that nothing marked and nothing in the nursery points at a white
      cell, no path from a cell that is not white passes one. */
  lemma {:induction false} CompleteMarkingIsWhiteFree(g: Graph, c: Coloring, p: seq<Cell>, from: Cell, to: Cell)
    requires forall x, y :: g.Edge(x, y) && !IsWhite(c, x) ==> !IsWhite(c, y)
    requires Path(g, p, from, to) && !IsWhite(c, from)
    ensures WhiteFree(c, p)
    decreases |p|
  {
    if |p| > 1 {
      CompleteMarkingIsWhiteFree(g, c, p[..|p| - 1], from, p[|p| - 2]);
      assert !IsWhite(c, p[..|p| - 1][|p| - 2]);
      assert g.Edge(p[|p| - 2], to);
    }
  }

  /** A run of exposures, each of a cell in the zone given for it. */
  ghost function ExposedAll(g: Graph, c: Coloring, zones: seq<Zone>, xs: seq<Cell>): Coloring
    requires |zones| == |xs|
  {
    if xs == [] then c
    else
      var n := |xs| - 1;
      Exposed(g, ExposedAll(g, c, zones[..n], xs[..n]), zones[n], xs[n])
  }

  lemma StillHidesNothing(g: Graph, c: Coloring, d: Coloring, p: seq<Cell>)
    requires OnlyGrayToBlack(c, d) && HidesNothingOn(g, c, p)
    ensures HidesNothingOn(g, d, p)
  {
    forall i | 0 < i < |p| && CanHide(g, d, p[i - 1]) ensures !IsGray(d, p[i]) {
      assert CanHide(g, c, p[i - 1]);
    }
  }

  /** Over any run of exposures in quiet zones: no black-to-gray edge appears, no cell gets less
      marked, no exposed cell is gray at the end, and no gray cell is left that an exposed one
      reaches on a path that hides nothing. */
  lemma {:induction false} ExposeRun(g: Graph, c: Coloring, zones: seq<Zone>, xs: seq<Cell>)
    requires Colors(g, c) && NoBlackToGray(g, c)
    requires |zones| == |xs| && forall i :: 0 <= i < |zones| ==> zones[i].Quiet()
    ensures var d := ExposedAll(g, c, zones, xs);
      && Colors(g, d) && NoBlackToGray(g, d) && OnlyGrayToBlack(c, d)
      && (NoNurseryToGray(g, c) ==> NoNurseryToGray(g, d))
      && (forall x :: x in c ==> c[x].Rank() <= d[x].Rank())
      && (forall i :: 0 <= i < |xs| ==> !IsGray(d, xs[i]))
      && (forall i, p, y :: 0 <= i < |xs| && Path(g, p, xs[i], y) && HidesNothingOn(g, c, p) ==> !IsGray(d, y))
    decreases |xs|
  {
    var d := ExposedAll(g, c, zones, xs);
    if xs != [] {
      var n := |xs| - 1;
      ExposeRun(g, c, zones[..n], xs[..n]);
      var m := ExposedAll(g, c, zones[..n], xs[..n]);
      ExposeKeepsInvariant(g, m, zones[n], xs[n]);
      forall i | 0 <= i < |xs| ensures !IsGray(d, xs[i]) {
        if i < n {
          assert xs[..n][i] == xs[i] && !IsGray(m, xs[i]);
        }
      }
      forall i, p, y | 0 <= i < |xs| && Path(g, p, xs[i], y) && HidesNothingOn(g, c, p) ensures !IsGray(d, y) {
        StillHidesNothing(g, c, d, p);
        NotGrayAlongPath(g, d, p, xs[i], y);
      }
    }
  }

  // ----- exactly what a run of exposures turns black -----

  /** Whether x is reached through gray cells from one of the roots. */
  ghost predicate ReachedFrom(g: Graph, c: Coloring, roots: seq<Cell>, x: Cell) {
    exists i :: 0 <= i < |roots| && GrayReach(g, c, roots[i], x)
  }

  ghost predicate IsUnmarkedFrom(g: Graph, c: Coloring, roots: seq<Cell>, d: Coloring) {
    d.Keys == c.Keys && forall x :: x in c ==> d[x] == if ReachedFrom(g, c, roots, x) then Black else c[x]
  }

  /** A cell that from reaches is still reached in a colouring in which some gray cells have turned
      black, unless it has turned black itself, provided whatever those reach has turned too. */
  lemma {:induction false} StillReached(g: Graph, c: Coloring, d: Coloring, p: seq<Cell>, from: Cell, to: Cell)
    requires GrayPath(g, c, p, from, to) && OnlyGrayToBlack(c, d) && IsGray(d, to)
    requires forall x, y :: IsGray(c, x) && !IsGray(d, x) && g.Edge(x, y) && IsGray(c, y) ==> !IsGray(d, y)
    ensures GrayReach(g, d, from, to)
    decreases |p|
  {
    if |p| == 1 {
      GrayReachSelf(g, d, from);
    } else {
      var q, before := p[..|p| - 1], p[|p| - 2];
      assert IsGray(c, before) && g.Edge(before, to);
      assert GrayPath(g, c, q, from, before);
      StillReached(g, c, d, q, from, before);
      GrayReachStep(g, d, from, before, to);
    }
  }

  lemma ReachedBefore(g: Graph, c: Coloring, d: Coloring, from: Cell, to: Cell)
    requires OnlyGrayToBlack(c, d) && GrayReach(g, d, from, to)
    ensures GrayReach(g, c, from, to)
  {
    var p :| GrayPath(g, d, p, from, to);
    assert GrayPath(g, c, p, from, to);
  }

  /** One more exposure after some roots have been unmarked from. */
  lemma UnmarkedFromOneMore(g: Graph, c: Coloring, roots: seq<Cell>, m: Coloring, x: Cell)
    requires IsUnmarkedFrom(g, c, roots, m)
    ensures IsUnmarkedFrom(g, c, roots + [x], Unmarked(g, m, x))
  {
    var d, all := Unmarked(g, m, x), roots + [x];
    assert OnlyGrayToBlack(c, m) by {
      forall y | y in c && ReachedFrom(g, c, roots, y) ensures c[y] == Gray {
        var i :| 0 <= i < |roots| && GrayReach(g, c, roots[i], y);
        GrayReachEnds(g, c, roots[i], y);
      }
    }
    forall a, b | IsGray(c, a) && !IsGray(m, a) && g.Edge(a, b) && IsGray(c, b) ensures !IsGray(m, b) {
      var i :| 0 <= i < |roots| && GrayReach(g, c, roots[i], a);
      GrayReachStep(g, c, roots[i], a, b);
    }
    forall y | y in c ensures d[y] == if ReachedFrom(g, c, all, y) then Black else c[y] {
      ReachedFromOneMore(g, c, roots, x, y);
      if GrayReach(g, m, x, y) {
        ReachedBefore(g, c, m, x, y);
      } else if GrayReach(g, c, x, y) && IsGray(m, y) {
        var p :| GrayPath(g, c, p, x, y);
        StillReached(g, c, m, p, x, y);
        assert false;
      } else if GrayReach(g, c, x, y) {
        GrayReachEnds(g, c, x, y);
      }
    }
  }

  lemma ReachedFromOneMore(g: Graph, c: Coloring, roots: seq<Cell>, x: Cell, y: Cell)
    ensures ReachedFrom(g, c, roots + [x], y) <==> ReachedFrom(g, c, roots, y) || GrayReach(g, c, x, y)
  {
    hide GrayReach;
    var all := roots + [x];
    if ReachedFrom(g, c, roots, y) {
      var i :| 0 <= i < |roots| && GrayReach(g, c, roots[i], y);
      assert all[i] == roots[i];
    }
    if GrayReach(g, c, x, y) {
      assert all[|roots|] == x;
    }
  }

  lemma NotReached(g: Graph, c: Coloring, x: Cell)
    requires !IsGray(c, x)
    ensures Unmarked(g, c, x) == c
  {
    forall y | GrayReach(g, c, x, y) ensures false {
      GrayReachEnds(g, c, x, y);
    }
  }

  /** A run of exposures in quiet zones turns black exactly what the exposed cells reach through
      cells that are gray at the start, whatever the order. */
  lemma {:induction false} ExposeRunUnmarks(g: Graph, c: Coloring, zones: seq<Zone>, xs: seq<Cell>)
    requires |zones| == |xs| && forall i :: 0 <= i < |zones| ==> zones[i].Quiet()
    ensures IsUnmarkedFrom(g, c, xs, ExposedAll(g, c, zones, xs))
    decreases |xs|
  {
    if xs != [] {
      var n := |xs| - 1;
      var m := ExposedAll(g, c, zones[..n], xs[..n]);
      ExposeRunUnmarks(g, c, zones[..n], xs[..n]);
      UnmarkedFromOneMore(g, c, xs[..n], m, xs[n]);
      assert xs[..n] + [xs[n]] == xs;
      if !IsGray(m, xs[n]) {
        NotReached(g, m, xs[n]);
      }
    }
  }

  // ----- exactly when nothing reachable stays gray -----

  /** No gray cell can be reached from any of the roots. */
  ghost predicate ReachNoGray(g: Graph, d: Coloring, roots: seq<Cell>) {
    forall i, p, y :: 0 <= i < |roots| && Path(g, p, roots[i], y) ==> !IsGray(d, y)
  }

  /** Every gray cell that a white or nursery cell reachable from a root points at is also reached from
      some root through gray cells. */
  ghost predicate NothingHidden(g: Graph, c: Coloring, roots: seq<Cell>) {
    forall i, p, a, b ::
      0 <= i < |roots| && Path(g, p, roots[i], a) && CanHide(g, c, a) && g.Edge(a, b) && IsGray(c, b) ==>
        ReachedFrom(g, c, roots, b)
  }

  lemma {:induction false} NotGrayAtEnd(g: Graph, c: Coloring, roots: seq<Cell>, d: Coloring, i: nat, p: seq<Cell>,
                                        y: Cell)
    requires Colors(g, c) && NoBlackToGray(g, c)
    requires IsUnmarkedFrom(g, c, roots, d) && NothingHidden(g, c, roots)
    requires i < |roots| && Path(g, p, roots[i], y)
    ensures !IsGray(d, y)
    decreases |p|
  {
    if IsGray(c, y) {
      if |p| == 1 {
        GrayReachSelf(g, c, y);
      } else {
        var q, before := p[..|p| - 1], p[|p| - 2];
        assert g.Edge(before, y);
        assert Path(g, q, roots[i], before);
        NotGrayAtEnd(g, c, roots, d, i, q, before);
        assert before in g.tenured || before in g.nursery;
        if IsGray(c, before) {
          var j :| 0 <= j < |roots| && GrayReach(g, c, roots[j], before);
          GrayReachStep(g, c, roots[j], before, y);
        } else {
          assert CanHide(g, c, before);
        }
      }
    }
  }

  /** Unmarking from some roots leaves no gray cell reachable from them if and only if no white or
      nursery cell on the way hides one. */
  lemma UnmarkedReachNoGrayIff(g: Graph, c: Coloring, roots: seq<Cell>, d: Coloring)
    requires Colors(g, c) && NoBlackToGray(g, c) && IsUnmarkedFrom(g, c, roots, d)
    ensures ReachNoGray(g, d, roots) <==> NothingHidden(g, c, roots)
  {
    if NothingHidden(g, c, roots) {
      forall i, p, y | 0 <= i < |roots| && Path(g, p, roots[i], y) ensures !IsGray(d, y) {
        NotGrayAtEnd(g, c, roots, d, i, p, y);
      }
    }
    if ReachNoGray(g, d, roots) {
      forall i, p, a, b |
        0 <= i < |roots| && Path(g, p, roots[i], a) && CanHide(g, c, a) && g.Edge(a, b) && IsGray(c, b)
        ensures ReachedFrom(g, c, roots, b)
      {
        assert Path(g, p + [b], roots[i], b);
      }
    }
  }

  /** The same for the recursive unmarking of one cell, gray or not. */
  lemma UnmarkReachNoGrayIff(g: Graph, c: Coloring, x: Cell)
    requires Colors(g, c) && NoBlackToGray(g, c)
    ensures ReachNoGray(g, Unmarked(g, c, x), [x]) <==> NothingHidden(g, c, [x])
  {
    UnmarkedFromOneMore(g, c, [], c, x);
    assert [] + [x] == [x];
    UnmarkedReachNoGrayIff(g, c, [x], Unmarked(g, c, x));
  }

  /** And for an exposure in a quiet zone. */
  lemma ExposeReachNoGrayIff(g: Graph, c: Coloring, zone: Zone, x: Cell)
    requires Colors(g, c) && NoBlackToGray(g, c) && zone.Quiet()
    ensures ReachNoGray(g, Exposed(g, c, zone, x), [x]) <==> NothingHidden(g, c, [x])
  {
    UnmarkReachNoGrayIff(g, c, x);
    if !IsGray(c, x) {
      NotReached(g, c, x);
    }
  }

  /** And for a whole run of exposures: exactly when nothing is hidden at the start does the run leave
      no gray cell reachable from any exposed one. */
  lemma ExposeRunReachNoGrayIff(g: Graph, c: Coloring, zones: seq<Zone>, xs: seq<Cell>)
    requires Colors(g, c) && NoBlackToGray(g, c)
    requires |zones| == |xs| && forall i :: 0 <= i < |zones| ==> zones[i].Quiet()
    ensures ReachNoGray(g, ExposedAll(g, c, zones, xs), xs) <==> NothingHidden(g, c, xs)
  {
    ExposeRunUnmarks(g, c, zones, xs);
    UnmarkedReachNoGrayIff(g, c, xs, ExposedAll(g, c, zones, xs));
  }

  /** For an exposed cell that is not gray, the condition reads: no white or nursery cell that it
      reaches points at a gray one. */
  lemma HidesNothingWhenNotGray(g: Graph, c: Coloring, x: Cell)
    requires !IsGray(c, x)
    ensures NothingHidden(g, c, [x]) <==>
      forall p, a, b :: Path(g, p, x, a) && CanHide(g, c, a) && g.Edge(a, b) ==> !IsGray(c, b)
  {
    forall b ensures !ReachedFrom(g, c, [x], b) {
      if ReachedFrom(g, c, [x], b) {
        GrayReachEnds(g, c, x, b);
      }
    }
    if NothingHidden(g, c, [x]) {
      forall p, a, b | Path(g, p, x, a) && CanHide(g, c, a) && g.Edge(a, b) ensures !IsGray(c, b) {
        assert Path(g, p, [x][0], a);
      }
    }
  }

  /** When marking is complete, so that nothing marked and nothing in the nursery points at a white
      cell, only the nursery can hide something from cells that are not white; when nothing in it
      points at a gray cell, nothing is hidden. */
  lemma CompleteMarkingHidesNothing(g: Graph, c: Coloring, roots: seq<Cell>)
    requires forall x, y :: g.Edge(x, y) && !IsWhite(c, x) ==> !IsWhite(c, y)
    requires forall i :: 0 <= i < |roots| ==> !IsWhite(c, roots[i])
    ensures NothingHidden(g, c, roots) <==>
      forall i, p, a, b ::
        0 <= i < |roots| && Path(g, p, roots[i], a) && a in g.nursery && g.Edge(a, b) && IsGray(c, b) ==>
          ReachedFrom(g, c, roots, b)
    ensures NoNurseryToGray(g, c) ==> NothingHidden(g, c, roots)
  {
    forall i, p, a | 0 <= i < |roots| && Path(g, p, roots[i], a) ensures !IsWhite(c, a) {
      CompleteMarkingIsWhiteFree(g, c, p, roots[i], a);
      assert a == p[|p| - 1];
    }
  }

  /** The condition can fail: exposing a white cell does nothing, so a gray cell right behind it
      stays gray, with no black-to-gray edge anywhere. */
  lemma WhiteCellHidesGray()
    ensures exists g: Graph, c: Coloring, x: Cell, y: Cell :: HiddenGray(g, c, x, y)
  {
    var x, y := Cell(0x4000, 16), Cell(0x4010, 16);
    var g := Graph({x, y}, {}, map[x := [y], y := []]);
    var c := map[x := White, y := Gray];
    assert Path(g, [x, y], x, y);
    assert HiddenGray(g, c, x, y);
  }

  ghost predicate HiddenGray(g: Graph, c: Coloring, x: Cell, y: Cell) {
    && Colors(g, c) && NoBlackToGray(g, c) && NoNurseryToGray(g, c)
    && (exists p :: Path(g, p, x, y)) && IsGray(Exposed(g, c, Zone(false, false), x), y)
  }

  /** A cell in the nursery can hide one too, even behind a black cell and with no white one anywhere. */
  lemma NurseryCellHidesGray()
    ensures exists g: Graph, c: Coloring, x: Cell, y: Cell :: HiddenByNursery(g, c, x, y)
  {
    var x, y, n := Cell(0x4000, 16), Cell(0x4010, 16), Cell(0x10_0000, 16);
    var g := Graph({x, y}, {n}, map[x := [n], n := [y], y := []]);
    var c := map[x := Black, y := Gray];
    assert Path(g, [x, n, y], x, y);
    assert HiddenByNursery(g, c, x, y);
  }

  ghost predicate HiddenByNursery(g: Graph, c: Coloring, x: Cell, y: Cell) {
    && Colors(g, c) && NoBlackToGray(g, c) && (forall z :: z in c ==> c[z] != White)
    && (exists p :: Path(g, p, x, y)) && IsGray(Exposed(g, c, Zone(false, false), x), y)
  }
}

/** The same on the mark bitmaps: every colour is two bits, read and written by word and mask. */
module GrayMarking {
  import opened Words
  import opened FiniteSets
  import opened HeapLayout
  import opened GrayColoring

  /** ORing one bit into a word changes the test of that bit and of no other. */
  lemma TestAfterOr(x: nat, k: nat, j: nat)
    ensures And(Or(x, Pow2(k)), Pow2(j)) != 0 <==> j == k || And(x, Pow2(j)) != 0
  {
    AndBit(Or(x, Pow2(k)), j);
    AndBit(x, j);
    BitOfBitwise(OrOp, x, Pow2(k), j);
    BitOfPow2(k, j);
  }

  /** The bit at a place of a bitmap of words. */
  predicate BitAt(bitmap: seq<nat>, wordBits: nat, place: int)
    requires wordBits > 0
  {
    0 <= place && place / wordBits < |bitmap| && Bit(bitmap[place / wordBits], place % wordBits)
  }

  class Heap {
    const platform: Target
    const graph: Graph
    const zones: map<Cell, Zone>
    const bitmaps: map<nat, array<nat>>  // by chunk number

    constructor (platform: Target, graph: Graph, zones: map<Cell, Zone>, bitmaps: map<nat, array<nat>>)
      ensures this.platform == platform && this.graph == graph && this.zones == zones
      ensures this.bitmaps == bitmaps
    {
      this.platform := platform;
      this.graph := graph;
      this.zones := zones;
      this.bitmaps := bitmaps;
    }

    ghost predicate Valid() {
      && graph.Valid() && zones.Keys == graph.tenured
      && (forall x :: x in graph.tenured ==> x.InArena(platform) && x.Chunk() in bitmaps)
      && (forall x, y :: x in graph.tenured && y in graph.tenured && x != y ==> x.Disjoint(y))
      && (forall n :: n in bitmaps ==> bitmaps[n].Length == WordCount(platform))
      && (forall m, n :: m in bitmaps && n in bitmaps && m != n ==> bitmaps[m] != bitmaps[n])
    }

    ghost predicate Test(x: Cell, color: ColorBit)
      requires Valid() && x in graph.tenured
      reads bitmaps.Values
    {
      MarkWordInArena(platform, x, color);
      And(bitmaps[x.Chunk()][MarkWord(platform, x, color)], MarkMask(platform, x, color)) != 0
    }

    ghost function ColorOf(x: Cell): Color
      requires Valid() && x in graph.tenured
      reads bitmaps.Values
    {
      if Test(x, BlackBit) then Black else if Test(x, GrayOrBlackBit) then Gray else White
    }

    ghost function Coloring(): Coloring
      requires Valid()
      reads bitmaps.Values
    {
      map x | x in graph.tenured :: ColorOf(x)
    }

    /** The table of colours: with its place in units of eight bytes after the first arena, a cell's bit
        there says black; else the bit after it says gray; with neither it is white. */
    lemma ColorTable(x: Cell)
      requires Valid() && x in graph.tenured
      ensures x.Chunk() in bitmaps
      ensures var o := (x.Offset() - 0x4000) / 8;
        ColorOf(x) == if BitAt(bitmaps[x.Chunk()][..], platform.wordBits, o) then Black
                      else if BitAt(bitmaps[x.Chunk()][..], platform.wordBits, o + 1) then Gray else White
    {
      hide MarkWord, MarkBitOfWord, Bit, Pow2, Bitwise, Cell.InArena, Cell.Offset, Cell.Chunk;
      TestByPosition(x, BlackBit);
      TestByPosition(x, GrayOrBlackBit);
    }

    lemma TestByPosition(x: Cell, color: ColorBit)
      requires Valid() && x in graph.tenured
      ensures x.Chunk() in bitmaps
      ensures Test(x, color) <==> BitAt(bitmaps[x.Chunk()][..], platform.wordBits, MarkPosition(x, color))
    {
      hide MarkWord, MarkBitOfWord, MarkPosition, Bit, Pow2, Bitwise, Cell.InArena;
      MarkWordInArena(platform, x, color);
      MarkIsAtPosition(platform, x, color);
      AndBit(bitmaps[x.Chunk()][MarkWord(platform, x, color)], MarkBitOfWord(platform, x, color));
    }

    // ----- reading colours -----

    method TenuredCellIsMarkedBlack(x: Cell) returns (black: bool)
      requires Valid() && x in graph.tenured
      ensures black <==> Coloring()[x] == Black
    {
      var word, mask := GetMarkWordAndMask(platform, x, BlackBit);
      black := And(bitmaps[x.Chunk()][word], mask) != 0;
    }

    method NonBlackCellIsMarkedGray(x: Cell) returns (gray: bool)
      requires Valid() && x in graph.tenured && Coloring()[x] != Black
      ensures gray <==> Coloring()[x] == Gray
    {
      var word, mask := GetMarkWordAndMask(platform, x, GrayOrBlackBit);
      gray := And(bitmaps[x.Chunk()][word], mask) != 0;
    }

    method TenuredCellIsMarkedGray(x: Cell) returns (gray: bool)
      requires Valid() && x in graph.tenured
      ensures gray <==> Coloring()[x] == Gray
    {
      var black := TenuredCellIsMarkedBlack(x);
      if black {
        return false;
      }
      gray := NonBlackCellIsMarkedGray(x);
    }

    method IsInsideNursery(x: Cell) returns (inside: bool)
      requires Valid() && x in graph.edges
      ensures inside <==> x !in graph.tenured
    {
      inside := x in graph.nursery;
    }

    /** A cell that may be gray: not in the nursery and marked gray. */
    method CellIsMarkedGray(x: Cell) returns (gray: bool)
      requires Valid() && x in graph.edges
      ensures gray <==> IsGray(Coloring(), x)
    {
      var inside := IsInsideNursery(x);
      if inside {
        return false;
      }
      gray := TenuredCellIsMarkedGray(x);
    }

    // ----- changing colours -----

    /** Sets the black bit of a cell; no other cell's colour changes. */
    method MarkBlack(x: Cell)
      requires Valid() && x in graph.tenured
      modifies bitmaps.Values
      ensures Coloring() == old(Coloring())[x := Black]
      ensures forall y, color: ColorBit :: y in graph.tenured ==>
        (Test(y, color) <==> (y == x && color == BlackBit) || old(Test(y, color)))
    {
      hide Bitwise, MarkWord, MarkBitOfWord, Pow2, Cell.InArena;
      var word, mask := GetMarkWordAndMask(platform, x, BlackBit);
      var bitmap := bitmaps[x.Chunk()];
      bitmap[word] := Or(bitmap[word], mask);
      forall y, color: ColorBit | y in graph.tenured
        ensures Test(y, color) <==> (y == x && color == BlackBit) || old(Test(y, color))
      {
        MarkWordInArena(platform, y, color);
        if y.Chunk() == x.Chunk() {
          if y != x || color != BlackBit {
            NoAlias(platform, y, color, x, BlackBit);
          }
          TestAfterOr(old(bitmap[word]), MarkBitOfWord(platform, x, BlackBit), MarkBitOfWord(platform, y, color));
          Pow2Injective(MarkBitOfWord(platform, x, BlackBit), MarkBitOfWord(platform, y, color));
        }
      }
    }

    /** The external read barrier of incremental marking conservatively marks the cell black. */
    method PerformIncrementalReadBarrier(x: Cell)
      requires Valid() && x in graph.tenured
      modifies bitmaps.Values
      ensures Coloring() == old(Coloring())[x := Black]
    {
      MarkBlack(x);
    }

    lemma ChildrenAreCells(y: Cell)
      requires Valid() && y in graph.tenured
      ensures y in graph.edges && forall z :: z in graph.edges[y] ==> z in graph.edges
    {
      forall z | z in graph.edges[y] ensures z in graph.edges {
        var i :| 0 <= i < |graph.edges[y]| && graph.edges[y][i] == z;
      }
    }

    lemma ColoringDomain()
      requires Valid()
      ensures Coloring().Keys == graph.tenured && Colors(graph, Coloring())
    {
    }

    /** Marks the gray children of a cell black and pushes them. Besides the stack, it keeps the
        set of cells marked so far: the colouring is the one at the start, blackened on it. */
    method UnmarkChildren(y: Cell, stack: seq<Cell>, ghost c: Coloring, ghost done: set<Cell>)
      returns (rest: seq<Cell>, ghost more: set<Cell>)
      requires Valid() && y in graph.tenured && done <= graph.tenured
      requires Coloring() == Blacken(c, done)
      modifies bitmaps.Values
      ensures done <= more <= graph.tenured && Coloring() == Blacken(c, more)
      ensures forall z :: z in more <==> z in done || (graph.Edge(y, z) && IsGray(c, z))
      ensures forall z :: z in rest <==> z in stack || z in more - done
      ensures more == done ==> rest == stack
    {
      hide Heap.Coloring, Heap.Valid;
      ChildrenAreCells(y);
      ColoringDomain();
      rest, more := stack, done;
      var children := graph.edges[y];
      for i := 0 to |children|
        invariant done <= more <= graph.tenured && Coloring() == Blacken(c, more)
        invariant forall z :: z in more <==> z in done || (z in children[..i] && IsGray(c, z))
        invariant forall z :: z in rest <==> z in stack || z in more - done
        invariant more == done ==> rest == stack
      {
        var child := children[i];
        assert children[..i + 1] == children[..i] + [child];
        var gray := CellIsMarkedGray(child);
        assert gray <==> IsGray(c, child) && child !in more;
        if gray {
          MarkBlack(child);
          rest := rest + [child];
          more := more + {child};
        }
      }
      assert children[..|children|] == children;
    }

    /** The recursive unmarking as a worklist: it turns black exactly the gray cells reached from
        x through gray cells. */
    method UnmarkGrayGCThingRecursively(x: Cell) returns (unmarkedAny: bool)
      requires Valid() && x in graph.tenured
      modifies bitmaps.Values
      ensures Coloring() == Unmarked(graph, old(Coloring()), x)
      ensures unmarkedAny <==> old(Coloring())[x] == Gray
      ensures NoBlackToGray(graph, old(Coloring())) ==>
        (ReachNoGray(graph, Coloring(), [x]) <==> NothingHidden(graph, old(Coloring()), [x]))
    {
      hide Heap.Coloring, Heap.Valid, Frontier, Unmarked, NoBlackToGray, ReachNoGray, NothingHidden;
      ColoringDomain();
      ghost var c := Coloring();
      if NoBlackToGray(graph, c) {
        UnmarkReachNoGrayIff(graph, c, x);
      }
      unmarkedAny := TenuredCellIsMarkedGray(x);
      if !unmarkedAny {
        NotReached(graph, c, x);
        return;
      }
      MarkBlack(x);
      var stack := [x];
      ghost var done := {x};
      FrontierStart(graph, c, x);
      while stack != []
        invariant done <= graph.tenured && Coloring() == Blacken(c, done)
        invariant Frontier(graph, c, x, done, stack)
        decreases |graph.tenured - done|, |stack|
      {
        var y := stack[|stack| - 1];
        var below := stack[..|stack| - 1];
        assert stack == below + [y];
        ghost var before := done;
        FrontierHolds(graph, c, x, done, below, y);
        stack, done := UnmarkChildren(y, below, c, before);
        FrontierStep(graph, c, x, before, below, y, done, stack);
        if done != before {
          SmallerRest(graph.tenured, before, done);
        }
      }
      FrontierEnd(graph, c, x, done);
    }

    lemma CellHasZone(x: Cell)
      requires Valid() && x in graph.edges
      ensures x in graph.tenured <==> x !in graph.nursery
      ensures x in graph.tenured <==> x in zones
    {
    }

    method ExposeGCThingToActiveJS(x: Cell)
      requires Valid() && x in graph.edges
      modifies bitmaps.Values
      ensures x in graph.tenured ==> Coloring() == Exposed(graph, old(Coloring()), zones[x], x)
      ensures x !in graph.tenured ==> Coloring() == old(Coloring())
      ensures x in graph.tenured && zones[x].needsIncrementalBarrier ==> Coloring() == old(Coloring())[x := Black]
      ensures x in graph.tenured && !zones[x].needsIncrementalBarrier && zones[x].isGCPreparing ==>
        Coloring() == old(Coloring())
      ensures x in graph.tenured && zones[x].Quiet() ==>
        forall y :: y in graph.tenured ==>
          Coloring()[y] == if GrayReach(graph, old(Coloring()), x, y) then Black else old(Coloring())[y]
      ensures x in graph.tenured && !zones[x].isGCPreparing ==> Coloring()[x] != Gray
      ensures x in graph.tenured && zones[x].Quiet() && NoBlackToGray(graph, old(Coloring())) ==>
        (ReachNoGray(graph, Coloring(), [x]) <==> NothingHidden(graph, old(Coloring()), [x]))
    {
      hide Heap.Coloring, Heap.Valid, GrayReach, NoBlackToGray, ReachNoGray, NothingHidden, Unmarked;
      ColoringDomain();
      CellHasZone(x);
      ghost var c := Coloring();
      if x in graph.tenured {
        ExposeByZone(graph, c, zones[x], x);
      }
      if x in graph.tenured && zones[x].Quiet() && NoBlackToGray(graph, c) {
        ExposeReachNoGrayIff(graph, c, zones[x], x);
      }
      if x in graph.tenured && IsGray(c, x) {
        UnmarkedRoot(graph, c, x);
      }
      var inside := IsInsideNursery(x);
      if inside {
        return;
      }
      var black := TenuredCellIsMarkedBlack(x);
      if black {
        return;
      }
      var zone := zones[x];
      if zone.needsIncrementalBarrier {
        PerformIncrementalReadBarrier(x);
      } else if !zone.isGCPreparing {
        var gray := NonBlackCellIsMarkedGray(x);
        if gray {
          var unmarked := UnmarkGrayGCThingRecursively(x);
          assert unmarked;
        }
      }
    }

    /** The lighter barrier never unmarks gray cells outside incremental marking. */
    method IncrementalReadBarrier(x: Cell)
      requires Valid() && x in graph.edges
      modifies bitmaps.Values
      ensures Coloring() == if x in graph.tenured && zones[x].needsIncrementalBarrier
                            then old(Coloring())[x := Black] else old(Coloring())
    {
      var inside := IsInsideNursery(x);
      if inside {
        return;
      }
      if zones[x].needsIncrementalBarrier {
        var black := TenuredCellIsMarkedBlack(x);
        if !black {
          PerformIncrementalReadBarrier(x);
        }
      }
    }
  }
}
