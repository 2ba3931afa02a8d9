/** Columns that nothing covers yet: they are always the last ones, so the waste is measured exactly. */
module FreeColumns {
  import opened Basics
  import opened Skyline
  import opened Packing

  /** Only the last node before the sentinel can be at height zero. */
  ghost predicate Low(p: Packer) {
    p.Ok() && forall i :: 0 <= i && i + 2 < |p.sky| ==> p.sky[i].y > 0
  }

  function LastNode(p: Packer): int { |p.sky| - 2 }

  // -- The waste --------------------------------------------------------------------------------------------

  /** Wherever a walk starts, its waste is the area between the height it finds and the skyline. */
  lemma LowWasteIsExact(p: Packer, first: nat, x0: int, w: int)
    requires Low(p) && first + 1 < |p.sky| && p.sky[first].x <= x0 < p.sky[first + 1].x && 0 < w && x0 + w <= p.width
    ensures Span(p.sky, x0, x0 + w) && WasteExact(p.sky, first, x0, w)
    ensures FindMinY(p.sky, first, x0, w).y == MaxHeight(p.sky, x0, x0 + w)
  {
    WalkIsExact(p.sky, p.width, p.height, first, x0, w);
  }

  /** A walk that ends at height zero lies over the last node and wastes nothing. */
  lemma FreeWalk(p: Packer, k: nat, x: int, aw: int)
    requires Low(p) && k + 1 < |p.sky| && p.sky[k].x <= x < p.sky[k + 1].x && 0 <= x && 0 < aw && x + aw <= p.width
    requires FindMinY(p.sky, k, x, aw).y <= 0
    ensures k == LastNode(p) && p.sky[k].y == 0 && FindMinY(p.sky, k, x, aw).y == 0
    ensures FindMinY(p.sky, k, x, aw).waste == 0
  {
    LowWasteIsExact(p, k, x, aw);
    MaxHeightInTarget(p.sky, p.width, p.height, x, x + aw);
    MaxHeightBounds(p.sky, x, x + aw, x);
    HeightIs(p.sky, p.width, p.height, k, x);
    NodeIsFlat(p.sky, p.width, p.height, k);
    AreaExtend(p.sky, x, x, x + aw, 0, 0);
    ProductIs(aw, 0);
  }

  // -- The search at height zero ----------------------------------------------------------------------------

  /** The last node is free and wide enough, and the span fits there. */
  ghost predicate EdgeOpen(p: Packer, aw: int, h: int)
    requires p.Ok()
  {
    var last := p.sky[LastNode(p)];
    last.y == 0 && last.x + aw <= p.width && Reaches(p, h, 0)
  }

  /** What is found at height zero is at the left edge of the free columns. */
  ghost predicate AtEdge(p: Packer, b: Best)
    requires p.Ok()
  {
    b.found && b.y <= 0 ==>
      && b.k == LastNode(p) && b.x == p.sky[b.k].x && b.y == 0 && p.sky[b.k].y == 0
      && (p.heuristic.BestFit? ==> b.waste == 0)
  }

  lemma WeighLeftAtEdge(p: Packer, aw: int, h: int, k: nat, b: Best)
    requires Low(p) && 0 < aw && k < |p.sky| && p.sky[k].x + aw <= p.width && AtEdge(p, b)
    ensures AtEdge(p, WeighLeft(p, h, k, p.sky[k].x, FindMinY(p.sky, k, p.sky[k].x, aw), b))
  {
    GenuineLeft(p, aw, k);
    if FindMinY(p.sky, k, p.sky[k].x, aw).y <= 0 { FreeWalk(p, k, p.sky[k].x, aw); }
  }

  lemma {:induction false} LeftPassAtEdge(p: Packer, aw: int, h: int, k: nat, b: Best)
    requires Low(p) && 0 < aw && k < |p.sky| && AtEdge(p, b)
    ensures AtEdge(p, LeftPass(p, aw, h, k, b))
    decreases |p.sky| - k
  {
    if p.sky[k].x + aw > p.width {
    } else {
      GenuineLeft(p, aw, k);
      WeighLeftAtEdge(p, aw, h, k, b);
      LeftPassAtEdge(p, aw, h, k + 1, WeighLeft(p, h, k, p.sky[k].x, FindMinY(p.sky, k, p.sky[k].x, aw), b));
    }
  }

  lemma EdgeIsFree(p: Packer, aw: int, h: int)
    requires Low(p) && 0 < aw && EdgeOpen(p, aw, h)
    ensures 0 <= p.sky[LastNode(p)].x && YAt(p, aw, p.sky[LastNode(p)].x) == 0
  {
    var k := LastNode(p);
    var e := p.sky[k].x;
    assert Before(p.sky, 0, k);
    NodeIsFlat(p.sky, p.width, p.height, k);
    MaxHeightExtend(p.sky, e, e, e + aw, 0);
  }

  /** If the edge is open, the left pass has found it. */
  lemma LeftPassFindsEdge(p: Packer, aw: int, h: int)
    requires Low(p) && 0 < aw && EdgeOpen(p, aw, h)
    ensures LeftPass(p, aw, h, 0, NO_BEST).found && LeftPass(p, aw, h, 0, NO_BEST).y <= 0
  {
    EdgeIsFree(p, aw, h);
    LeftPassBeats(p, aw, h, 0, NO_BEST, LastNode(p));
  }

  ghost predicate Settled(p: Packer, aw: int, h: int, b: Best)
    requires p.Ok()
  {
    AtEdge(p, b) && (EdgeOpen(p, aw, h) ==> b.found && b.y <= 0)
  }

  lemma WeighRightSettled(p: Packer, aw: int, h: int, t: nat, x: int, k: nat, b: Best)
    requires Low(p) && p.heuristic.BestFit? && 0 < aw && t < |p.sky| && aw <= p.sky[t].x <= p.width
    requires x == p.sky[t].x - aw && k == NodeAt(p.sky, x) && Settled(p, aw, h, b)
    ensures Settled(p, aw, h, WeighRight(p, h, k, x, FindMinY(p.sky, k, x, aw), b))
  {
    if FindMinY(p.sky, k, x, aw).y <= 0 { FreeWalk(p, k, x, aw); }
  }

  lemma {:induction false} RightPassSettled(p: Packer, aw: int, h: int, t: nat, b: Best)
    requires Low(p) && p.heuristic.BestFit? && 0 < aw && t <= |p.sky| && Settled(p, aw, h, b)
    ensures Settled(p, aw, h, RightPass(p, aw, h, t, b))
    decreases |p.sky| - t
  {
    if t == |p.sky| {
    } else if p.sky[t].x < aw {
      RightPassSettled(p, aw, h, t + 1, b);
    } else {
      assert Before(p.sky, t, |p.sky| - 1);
      var x := p.sky[t].x - aw;
      var k := NodeAt(p.sky, x);
      WeighRightSettled(p, aw, h, t, x, k, b);
      RightPassSettled(p, aw, h, t + 1, WeighRight(p, h, k, x, FindMinY(p.sky, k, x, aw), b));
    }
  }

  /** Under either heuristic, whatever is found at height zero is at the left edge of the free columns. */
  lemma BestAtEdge(p: Packer, w: int, h: int)
    requires Low(p) && 0 < w && 0 < h
    ensures AtEdge(p, FindBest(p, w, h))
  {
    var aw := Aligned(w, p.align);
    if aw <= p.width && h <= p.height {
      LeftPassAtEdge(p, aw, h, 0, NO_BEST);
      if EdgeOpen(p, aw, h) { LeftPassFindsEdge(p, aw, h); }
      if p.heuristic.BestFit? { RightPassSettled(p, aw, h, 0, LeftPass(p, aw, h, 0, NO_BEST)); }
    }
  }

  // -- Every step keeps it ----------------------------------------------------------------------------------

  /** A position behind the left edge of the last node is on a raised one. */
  ghost predicate Raises(p: Packer, b: Best)
    requires p.Ok()
  {
    b.k + 1 < |p.sky| && (b.k == LastNode(p) && p.sky[b.k].x < b.x ==> p.sky[b.k].y > 0)
  }

  lemma BestRaises(p: Packer, w: int, h: int, b: Best)
    requires Low(p) && 0 < w && 0 < h && b == FindBest(p, w, h) && b.found
    ensures Raises(p, b) && 0 <= b.y
  {
    var aw := Aligned(w, p.align);
    BestIsLowest(p, w, h, 0);
    BestAtEdge(p, w, h);
    MaxHeightInTarget(p.sky, p.width, p.height, b.x, b.x + aw);
    if b.k == LastNode(p) && p.sky[b.k].y <= 0 {
      NodeIsFlat(p.sky, p.width, p.height, b.k);
      MaxHeightExtend(p.sky, b.x, b.x, b.x + aw, p.sky[b.k].y);
    }
  }

  lemma InsertIsLow(s: seq<Seg>, k: nat, x: int, w: int, top: int)
    requires |s| >= 2 && k + 1 < |s| && top > 0 && (k == |s| - 2 && s[k].x < x ==> s[k].y > 0)
    requires forall i :: 0 <= i && i + 2 < |s| ==> s[i].y > 0
    ensures var s' := Insert(s, k, x, w, top); forall i :: 0 <= i && i + 2 < |s'| ==> s'[i].y > 0
  {
    var keep := Kept(s, k, x);
    var j := SkipTo(s, keep, x + w);
    var s' := Insert(s, k, x, w, top);
    forall i | 0 <= i && i + 2 < |s'| ensures s'[i].y > 0 {
      if i >= keep + 2 { assert s'[i] == s[j + 1..][i - keep - 2]; }
    }
  }

  lemma PackAtIsLow(p: Packer, b: Best, w: int, h: int)
    requires Low(p) && b.found && Raises(p, b) && 0 <= b.y && 0 < h && PackAt(p, b, w, h).0.Ok()
    ensures Low(PackAt(p, b, w, h).0)
  {
    InsertIsLow(p.sky, b.k, b.x, w, b.y + h);
  }

  /** Packing keeps the free columns last, under either heuristic and any alignment. */
  lemma PackKeepsLow(p: Packer, w: int, h: int)
    requires Low(p) && 0 < w && 0 < h
    ensures Low(Pack(p, w, h).0)
  {
    var b := FindBest(p, w, h);
    if Pack(p, w, h).1.Some? {
      BestRaises(p, w, h, b);
      assert PackAt(p, b, w, h).0.Ok() by { PackPlaces(p, w, h); }
      PackAtIsLow(p, b, w, h);
    }
  }

  // -- What best-fit minimises ------------------------------------------------------------------------------

  /** b comes before a candidate at x: lower, or as low with less waste, or as good and no further right. */
  ghost predicate AsGood(b: Best, y: int, waste: int, x: int) {
    b.found && (b.y < y || (b.y == y && (b.waste < waste || (b.waste == waste && b.x <= x))))
  }

  lemma {:induction false} LeftPassStaysGood(p: Packer, aw: int, h: int, k: nat, b: Best, y: int, waste: int, x: int)
    requires p.Ok() && p.heuristic.BestFit? && 0 < aw && k < |p.sky| && AsGood(b, y, waste, x)
    ensures AsGood(LeftPass(p, aw, h, k, b), y, waste, x)
    decreases |p.sky| - k
  {
    if p.sky[k].x + aw > p.width {
    } else {
      GenuineLeft(p, aw, k);
      LeftPassStaysGood(p, aw, h, k + 1, WeighLeft(p, h, k, p.sky[k].x, FindMinY(p.sky, k, p.sky[k].x, aw), b),
                        y, waste, x);
    }
  }

  /** No left edge that fits beats the result of the left pass. */
  lemma {:induction false} LeftPassIsLeast(p: Packer, aw: int, h: int, k: nat, b: Best, i: nat)
    requires p.Ok() && p.heuristic.BestFit? && 0 < aw && k <= i < |p.sky| && p.sky[i].x + aw <= p.width
    requires Reaches(p, h, FindMinY(p.sky, i, p.sky[i].x, aw).y)
    requires if b.found then b.x <= p.sky[k].x else b == NO_BEST
    ensures var r := FindMinY(p.sky, i, p.sky[i].x, aw);
            AsGood(LeftPass(p, aw, h, k, b), r.y, r.waste, p.sky[i].x)
    decreases |p.sky| - k
  {
    assert Before(p.sky, k, i);
    GenuineLeft(p, aw, k);
    var r := FindMinY(p.sky, k, p.sky[k].x, aw);
    var b' := WeighLeft(p, h, k, p.sky[k].x, r, b);
    if k == i {
      LeftPassStaysGood(p, aw, h, k + 1, b', r.y, r.waste, p.sky[i].x);
    } else {
      LeftPassIsLeast(p, aw, h, k + 1, b', i);
    }
  }

  lemma {:induction false} RightPassStaysGood(p: Packer, aw: int, h: int, t: nat, b: Best, y: int, waste: int, x: int)
    requires p.Ok() && 0 < aw && t <= |p.sky| && AsGood(b, y, waste, x)
    ensures AsGood(RightPass(p, aw, h, t, b), y, waste, x)
    decreases |p.sky| - t
  {
    if t == |p.sky| {
    } else if p.sky[t].x < aw {
      RightPassStaysGood(p, aw, h, t + 1, b, y, waste, x);
    } else {
      assert Before(p.sky, t, |p.sky| - 1);
      var x' := p.sky[t].x - aw;
      var k := NodeAt(p.sky, x');
      RightPassStaysGood(p, aw, h, t + 1, WeighRight(p, h, k, x', FindMinY(p.sky, k, x', aw), b), y, waste, x);
    }
  }

  /** No right edge that fits beats the result of the right pass. */
  lemma {:induction false} RightPassIsLeast(p: Packer, aw: int, h: int, t: nat, b: Best, i: nat, x: int)
    requires p.Ok() && 0 < aw && 0 < h && t <= i < |p.sky| && p.sky[i].x <= p.width
    requires x == p.sky[i].x - aw >= 0 && InTarget(p.sky, x)
    requires Reaches(p, h, FindMinY(p.sky, NodeAt(p.sky, x), x, aw).y) && (!b.found ==> b == NO_BEST)
    ensures var r := FindMinY(p.sky, NodeAt(p.sky, x), x, aw);
            AsGood(RightPass(p, aw, h, t, b), r.y, r.waste, x)
    decreases |p.sky| - t
  {
    if t == i {
      var k := NodeAt(p.sky, x);
      var r := FindMinY(p.sky, k, x, aw);
      RightPassStaysGood(p, aw, h, t + 1, WeighRight(p, h, k, x, r, b), r.y, r.waste, x);
    } else if p.sky[t].x < aw {
      RightPassIsLeast(p, aw, h, t + 1, b, i, x);
    } else {
      assert Before(p.sky, t, |p.sky| - 1);
      var x' := p.sky[t].x - aw;
      var k := NodeAt(p.sky, x');
      RightPassIsLeast(p, aw, h, t + 1, WeighRight(p, h, k, x', FindMinY(p.sky, k, x', aw), b), i, x);
    }
  }

  /** A column at which one edge of the span meets an edge of a node, the sentinel's included. */
  ghost predicate AtNode(p: Packer, aw: int, x: int) {
    exists i :: 0 <= i < |p.sky| && (p.sky[i].x == x || p.sky[i].x == x + aw)
  }

  lemma LeftEdgeIsLeast(p: Packer, aw: int, h: int, x: int, i: nat)
    requires p.Ok() && p.heuristic.BestFit? && 0 < aw && 0 < h && i < |p.sky| && p.sky[i].x == x && x + aw <= p.width
    requires InTarget(p.sky, x) && Reaches(p, h, FindMinY(p.sky, NodeAt(p.sky, x), x, aw).y)
    ensures var r := FindMinY(p.sky, NodeAt(p.sky, x), x, aw);
            AsGood(RightPass(p, aw, h, 0, LeftPass(p, aw, h, 0, NO_BEST)), r.y, r.waste, x)
  {
    assert Before(p.sky, i, |p.sky| - 1) && Before(p.sky, i, i + 1);
    HeightIs(p.sky, p.width, p.height, i, x);
    var r := FindMinY(p.sky, i, x, aw);
    LeftPassIsLeast(p, aw, h, 0, NO_BEST, i);
    RightPassStaysGood(p, aw, h, 0, LeftPass(p, aw, h, 0, NO_BEST), r.y, r.waste, x);
  }

  lemma RightEdgeIsLeast(p: Packer, aw: int, h: int, x: int, i: nat)
    requires p.Ok() && p.heuristic.BestFit? && 0 < aw && 0 < h && i < |p.sky| && p.sky[i].x == x + aw <= p.width
    requires 0 <= x && InTarget(p.sky, x) && Reaches(p, h, FindMinY(p.sky, NodeAt(p.sky, x), x, aw).y)
    ensures var r := FindMinY(p.sky, NodeAt(p.sky, x), x, aw);
            AsGood(RightPass(p, aw, h, 0, LeftPass(p, aw, h, 0, NO_BEST)), r.y, r.waste, x)
  {
    LeftPassNotFound(p, aw, h, 0);
    RightPassIsLeast(p, aw, h, 0, LeftPass(p, aw, h, 0, NO_BEST), i, x);
  }

  lemma {:induction false} LeftPassNotFound(p: Packer, aw: int, h: int, k: nat)
    requires p.Ok() && 0 < aw && k < |p.sky|
    ensures !LeftPass(p, aw, h, k, NO_BEST).found ==> LeftPass(p, aw, h, k, NO_BEST) == NO_BEST
    decreases |p.sky| - k
  {
    if p.sky[k].x + aw > p.width {
    } else {
      GenuineLeft(p, aw, k);
      var b := WeighLeft(p, h, k, p.sky[k].x, FindMinY(p.sky, k, p.sky[k].x, aw), NO_BEST);
      if b.found {
        LeftPassGenuine(p, aw, h, k + 1, b);
      } else {
        LeftPassNotFound(p, aw, h, k + 1);
      }
    }
  }

  /** The area wasted by a span at x. */
  ghost function AreaAt(p: Packer, aw: int, x: int): int
    requires p.Ok() && 0 <= x && x + aw <= p.width
  {
    AreaUnder(p.sky, x, x + aw, YAt(p, aw, x))
  }

  /** Of all fitting positions at which an edge of the aligned span meets an edge of a node, best-fit takes the
      lowest, of those one with the least area wasted below it, and of those the leftmost. */
  lemma BestFitWastesLeast(p: Packer, w: int, h: int, x: int)
    requires Low(p) && p.heuristic.BestFit? && 0 < w && 0 < h
    requires FitsAt(p, w, h, x) && AtNode(p, Aligned(w, p.align), x)
    ensures var b, aw := FindBest(p, w, h), Aligned(w, p.align);
            AsGood(b, YAt(p, aw, x), AreaAt(p, aw, x), x)
  {
    var aw := Aligned(w, p.align);
    MaxHeightInTarget(p.sky, p.width, p.height, x, x + aw);
    LowWasteIsExact(p, NodeAt(p.sky, x), x, aw);
    var i :| 0 <= i < |p.sky| && (p.sky[i].x == x || p.sky[i].x == x + aw);
    if p.sky[i].x == x {
      LeftEdgeIsLeast(p, aw, h, x, i);
    } else {
      RightEdgeIsLeast(p, aw, h, x, i);
    }
  }

  // -- The waste that was weighed ---------------------------------------------------------------------------

  /** The waste kept with a position is the area really wasted there. */
  ghost predicate Weighed(p: Packer, aw: int, b: Best)
    requires p.Ok()
  {
    b.found ==> 0 <= b.x && b.x + aw <= p.width && b.waste == AreaAt(p, aw, b.x)
  }

  lemma {:induction false} LeftPassWeighed(p: Packer, aw: int, h: int, k: nat, b: Best)
    requires Low(p) && p.heuristic.BestFit? && 0 < aw && k < |p.sky| && Weighed(p, aw, b)
    ensures Weighed(p, aw, LeftPass(p, aw, h, k, b))
    decreases |p.sky| - k
  {
    if p.sky[k].x + aw > p.width {
    } else {
      GenuineLeft(p, aw, k);
      LowWasteIsExact(p, k, p.sky[k].x, aw);
      LeftPassWeighed(p, aw, h, k + 1, WeighLeft(p, h, k, p.sky[k].x, FindMinY(p.sky, k, p.sky[k].x, aw), b));
    }
  }

  lemma {:induction false} RightPassWeighed(p: Packer, aw: int, h: int, t: nat, b: Best)
    requires Low(p) && 0 < aw && t <= |p.sky| && Weighed(p, aw, b)
    ensures Weighed(p, aw, RightPass(p, aw, h, t, b))
    decreases |p.sky| - t
  {
    if t == |p.sky| {
    } else if p.sky[t].x < aw {
      RightPassWeighed(p, aw, h, t + 1, b);
    } else {
      assert Before(p.sky, t, |p.sky| - 1);
      var x := p.sky[t].x - aw;
      var k := NodeAt(p.sky, x);
      WeighRightWeighed(p, aw, h, x, k, b);
      RightPassWeighed(p, aw, h, t + 1, WeighRight(p, h, k, x, FindMinY(p.sky, k, x, aw), b));
    }
  }

  lemma WeighRightWeighed(p: Packer, aw: int, h: int, x: int, k: nat, b: Best)
    requires Low(p) && 0 < aw && 0 <= x && x + aw <= p.width && InTarget(p.sky, x) && k == NodeAt(p.sky, x)
    requires Weighed(p, aw, b)
    ensures Weighed(p, aw, WeighRight(p, h, k, x, FindMinY(p.sky, k, x, aw), b))
  {
    LowWasteIsExact(p, k, x, aw);
  }

  /** So the position taken wastes no more than any of them that is as low. */
  lemma BestFitIsWeighed(p: Packer, w: int, h: int)
    requires Low(p) && p.heuristic.BestFit? && 0 < w && 0 < h
    ensures Weighed(p, Aligned(w, p.align), FindBest(p, w, h))
  {
    var aw := Aligned(w, p.align);
    if aw <= p.width && h <= p.height {
      LeftPassWeighed(p, aw, h, 0, NO_BEST);
      RightPassWeighed(p, aw, h, 0, LeftPass(p, aw, h, 0, NO_BEST));
    }
  }
}
