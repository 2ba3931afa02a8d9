/** Whole runs of the packer on one target, and when its nodes suffice. */
module PackingRuns {
  import opened Skyline
  import opened Packing
  import opened FreeColumns

  datatype Size = Size(w: int, h: int)

  ghost predicate NonEmpty(sizes: seq<Size>) {
    forall i :: 0 <= i < |sizes| ==> 0 < sizes[i].w && 0 < sizes[i].h
  }

  /** ceil(width / numNodes): the quantum chosen so that, as documented, num_nodes is always enough nodes. */
  function Quantum(width: int, numNodes: int): (r: int)
    requires 0 < width && 0 < numNodes
    ensures 0 < r
  {
    (width + numNodes - 1) / numNodes
  }

  /** A freshly initialised target. */
  function Fresh(width: int, height: int, numNodes: nat): (p: Packer)
    requires 0 < width < SENTINEL_Y && 0 <= height < SENTINEL_Y && 0 < numNodes
    ensures p.Ok() && Holds(p, [])
  {
    Packer(width, height, Quantum(width, numNodes), BottomLeft, numNodes,
           [Seg(0, 0), Seg(width, SENTINEL_Y)], numNodes)
  }

  /** The packer and the boxes it has packed after one more rectangle. */
  ghost function Next(p: Packer, boxes: seq<Box>, z: Size): (r: (Packer, seq<Box>))
    requires Holds(p, boxes) && 0 < z.w && 0 < z.h
    ensures Holds(r.0, r.1)
  {
    PackKeepsHolds(p, boxes, z.w, z.h);
    var (p', o) := Pack(p, z.w, z.h);
    (p', if o.None? then boxes else boxes + [Box(o.value.x, o.value.y, z.w, z.h)])
  }

  /** The packer and its boxes after the rectangles have been offered one after the other: the boxes are inside
      the target, below the skyline and pairwise disjoint, and no node is lost. */
  ghost function Run(p: Packer, boxes: seq<Box>, sizes: seq<Size>): (r: (Packer, seq<Box>))
    requires Holds(p, boxes) && NonEmpty(sizes)
    ensures Holds(r.0, r.1)
    decreases |sizes|
  {
    if sizes == [] then (p, boxes)
    else
      var n := Next(p, boxes, sizes[0]);
      Run(n.0, n.1, sizes[1..])
  }

  lemma {:induction false} RunAppend(p: Packer, boxes: seq<Box>, sizes: seq<Size>, z: Size)
    requires Holds(p, boxes) && NonEmpty(sizes) && 0 < z.w && 0 < z.h
    ensures NonEmpty(sizes + [z])
    ensures var r := Run(p, boxes, sizes); Run(p, boxes, sizes + [z]) == Next(r.0, r.1, z)
    decreases |sizes|
  {
    if sizes == [] {
      var n := Next(p, boxes, z);
      assert Run(n.0, n.1, []) == n;
      assert [z][1..] == [];
    } else {
      assert (sizes + [z])[1..] == sizes[1..] + [z];
      var n := Next(p, boxes, sizes[0]);
      RunAppend(n.0, n.1, sizes[1..], z);
    }
  }

  /** Over any run boxes once packed stay, the target is the same and no column gets lower. */
  lemma {:induction false} RunOnlyAdds(p: Packer, boxes: seq<Box>, sizes: seq<Size>)
    requires Holds(p, boxes) && NonEmpty(sizes)
    ensures var (p', boxes') := Run(p, boxes, sizes);
            && boxes <= boxes'
            && p' == p.(sky := p'.sky, free := p'.free)
            && NoLower(p.sky, p'.sky, p.width)
    decreases |sizes|
  {
    if sizes == [] {
    } else {
      var n := Next(p, boxes, sizes[0]);
      NextOnlyAdds(p, boxes, sizes[0]);
      RunOnlyAdds(n.0, n.1, sizes[1..]);
    }
  }

  lemma NextOnlyAdds(p: Packer, boxes: seq<Box>, z: Size)
    requires Holds(p, boxes) && 0 < z.w && 0 < z.h
    ensures var (p', boxes') := Next(p, boxes, z);
            boxes <= boxes' && p' == p.(sky := p'.sky, free := p'.free) && NoLower(p.sky, p'.sky, p.width)
  {
    if Pack(p, z.w, z.h).1.Some? { PackPlaces(p, z.w, z.h); }
  }

  // -- When the nodes suffice -------------------------------------------------------------------------------

  lemma {:induction false} NodesSpread(s: seq<Seg>, width: int, height: int, i: nat)
    requires Valid(s, width, height) && i < |s|
    ensures i <= s[i].x
  {
    if i == 0 {
    } else {
      NodesSpread(s, width, height, i - 1);
      assert Before(s, i - 1, i);
    }
  }

  /** With as many nodes as columns a node is always free: the skyline's nodes have distinct columns. */
  lemma EnoughNodes(p: Packer)
    requires p.Ok() && p.numNodes >= p.width
    ensures p.free > 0
  {
    NodesSpread(p.sky, p.width, p.height, |p.sky| - 1);
  }

  /** A rectangle for which some column fits is packed. */
  ghost predicate Serves(p: Packer, w: int, h: int)
    requires p.Ok() && 0 < w && 0 < h
  {
    (exists x :: FitsAt(p, w, h, x)) ==> Pack(p, w, h).1.Some?
  }

  /** After k unit squares: k columns of height one, the rest empty. */
  ghost function UnitSky(k: nat, width: int): (s: seq<Seg>)
    ensures |s| == k + 2 && s[k] == Seg(k, 0) && s[k + 1] == Seg(width, SENTINEL_Y)
    ensures forall i :: 0 <= i < k ==> s[i] == Seg(i, 1)
  {
    seq(k, i => Seg(i, 1)) + [Seg(k, 0), Seg(width, SENTINEL_Y)]
  }

  ghost predicate UnitState(p: Packer, k: nat) {
    && p.Ok() && 2 <= p.align && 1 <= p.height
    && p.sky == UnitSky(k, p.width)
  }

  lemma UnitHeights(p: Packer, k: nat, c: int)
    requires UnitState(p, k) && 0 <= c < p.width
    ensures HeightAt(p.sky, c) == if c < k then 1 else 0
  {
    HeightIs(p.sky, p.width, p.height, if c < k then c else k, c);
  }

  lemma UnitFits(p: Packer, k: nat)
    requires UnitState(p, k) && k + p.align <= p.width
    ensures YAt(p, p.align, k) == 0 && FitsAt(p, 1, 1, k)
  {
    AlignedUnit(p.align);
    forall c | k <= c < k + p.align ensures HeightAt(p.sky, c) <= 0 { UnitHeights(p, k, c); }
    MaxHeightLeast(p.sky, k, k + p.align, 0);
  }

  lemma UnitIsLow(p: Packer, k: nat)
    requires UnitState(p, k)
    ensures Low(p)
  {}

  /** The next unit square goes into column k. */
  lemma UnitBest(p: Packer, k: nat)
    requires UnitState(p, k) && k + p.align <= p.width
    ensures FindBest(p, 1, 1) == Best(true, k, k, 0, FindBest(p, 1, 1).waste)
  {
    AlignedUnit(p.align);
    UnitFits(p, k);
    BestIsLowest(p, 1, 1, k);
    UnitIsLow(p, k);
    BestAtEdge(p, 1, 1);
  }

  lemma AlignedUnit(a: int)
    requires 2 <= a
    ensures Aligned(1, a) == a
  {
    assert a % a == 0;
  }

  lemma UnitInsert(k: nat, width: int)
    requires k + 2 <= width
    ensures Insert(UnitSky(k, width), k, k, 1, 1) == UnitSky(k + 1, width)
  {
    var s := UnitSky(k, width);
    assert Kept(s, k, k) == k && SkipTo(s, k, k + 1) == k;
  }

  lemma UnitStep(p: Packer, k: nat, b: Best)
    requires UnitState(p, k) && k + 2 <= p.width && p.free > 0 && b == Best(true, k, k, 0, b.waste)
    ensures var (p', o) := PackAt(p, b, 1, 1);
            o.Some? && p' == p.(sky := UnitSky(k + 1, p.width), free := p.free - 1)
  {
    UnitInsert(k, p.width);
  }

  ghost function Units(n: nat): (s: seq<Size>)
    ensures NonEmpty(s)
  {
    if n == 0 then [] else [Size(1, 1)] + Units(n - 1)
  }

  lemma UnitNext(p: Packer, boxes: seq<Box>, k: nat)
    requires UnitState(p, k) && Holds(p, boxes) && k + p.align <= p.width && p.free > 0
    ensures Next(p, boxes, Size(1, 1)).0 == p.(sky := UnitSky(k + 1, p.width), free := p.free - 1)
  {
    UnitBest(p, k);
    UnitStep(p, k, FindBest(p, 1, 1));
  }

  lemma UnitAfter(p: Packer, boxes: seq<Box>, k: nat)
    requires UnitState(p, k) && Holds(p, boxes) && k + p.align <= p.width && p.free > 0
    ensures var q := Next(p, boxes, Size(1, 1)).0;
            UnitState(q, k + 1) && q.free == p.free - 1 && q == p.(sky := q.sky, free := q.free)
  {
    UnitNext(p, boxes, k);
  }

  ghost predicate AllUnits(sizes: seq<Size>) { forall i :: 0 <= i < |sizes| ==> sizes[i] == Size(1, 1) }

  lemma {:induction false} UnitsAreUnits(n: nat)
    ensures |Units(n)| == n && AllUnits(Units(n))
  {
    if n == 0 {
    } else {
      UnitsAreUnits(n - 1);
    }
  }

  /** Unit squares are left for all free nodes, up to m in all. */
  ghost predicate UnitsLeft(p: Packer, boxes: seq<Box>, k: nat, m: nat, sizes: seq<Size>) {
    && UnitState(p, k) && Holds(p, boxes) && m == k + |sizes| && p.free == |sizes|
    && AllUnits(sizes) && NonEmpty(sizes) && (sizes == [] || m - 1 + p.align <= p.width)
  }

  /** The run goes on from the next unit state. */
  lemma UnitOn(p: Packer, boxes: seq<Box>, k: nat, m: nat, sizes: seq<Size>) returns (p': Packer, boxes': seq<Box>)
    requires UnitsLeft(p, boxes, k, m, sizes) && sizes != []
    ensures UnitsLeft(p', boxes', k + 1, m, sizes[1..]) && p' == p.(sky := p'.sky, free := p'.free)
    ensures Run(p, boxes, sizes) == Run(p', boxes', sizes[1..])
  {
    UnitAfter(p, boxes, k);
    p', boxes' := Next(p, boxes, Size(1, 1)).0, Next(p, boxes, Size(1, 1)).1;
  }

  /** Unit squares take all nodes of a target with more columns than nodes. */
  lemma {:induction false} UnitRun(p: Packer, boxes: seq<Box>, k: nat, m: nat, sizes: seq<Size>)
    requires UnitsLeft(p, boxes, k, m, sizes)
    ensures UsedUp(p, Run(p, boxes, sizes).0, m)
    decreases |sizes|
  {
    if sizes == [] {
    } else {
      var p', boxes' := UnitOn(p, boxes, k, m, sizes);
      UnitRun(p', boxes', k + 1, m, sizes[1..]);
      StillUsedUp(p, p', Run(p', boxes', sizes[1..]).0, m);
    }
  }

  ghost predicate UsedUp(p: Packer, q: Packer, m: nat) { q == p.(sky := UnitSky(m, p.width), free := 0) }

  lemma StillUsedUp(p: Packer, p': Packer, q: Packer, m: nat)
    requires p' == p.(sky := p'.sky, free := p'.free) && UsedUp(p', q, m)
    ensures UsedUp(p, q, m)
  {}

  lemma QuantumBounds(width: int, n: int, q: int)
    requires 0 < n && 0 < width && q == Quantum(width, n)
    ensures n * q <= width + n - 1 < n * q + n
  {}

  lemma ProductGrows(n: int, a: int, b: int)
    requires 0 < n && a <= b
    ensures n * a <= n * b && (0 <= a ==> a <= n * a)
  {}

  lemma QuantumFits(width: int, n: int)
    requires 0 < n < width
    ensures 2 <= Quantum(width, n) && n - 1 + Quantum(width, n) <= width
  {
    var q, d := Quantum(width, n), width - n;
    QuantumBounds(width, n, q);
    if q <= 1 {
      ProductGrows(n, q, 1);
    } else if q >= d + 2 {
      assert n * (d + 2) == n * d + 2 * n;
      ProductGrows(n, d, d);
      ProductGrows(n, d + 2, q);
    }
  }

  /** After the run, a rectangle for which some column fits is packed. */
  ghost predicate ServesAfter(p: Packer, sizes: seq<Size>, w: int, h: int)
    requires Holds(p, [])
  {
    NonEmpty(sizes) && 0 < w && 0 < h ==> Serves(Run(p, [], sizes).0, w, h)
  }

  // -- Targets of one row -----------------------------------------------------------------------------------

  /** In a target of one row all nodes but the last before the sentinel are at the top. */
  ghost predicate RowState(p: Packer) {
    && p.Ok() && p.height == 1
    && forall i :: 0 <= i && i + 2 < |p.sky| ==> p.sky[i].y == 1
  }

  /** Only columns of the last node can be free. */
  lemma RowFreeColumn(p: Packer, aw: int, x: int)
    requires RowState(p) && 0 < aw && 0 <= x && x + aw <= p.width && YAt(p, aw, x) <= 0
    ensures NodeAt(p.sky, x) == |p.sky| - 2 && p.sky[|p.sky| - 2].y <= 0
  {
    MaxHeightInTarget(p.sky, p.width, p.height, x, x + aw);
    MaxHeightBounds(p.sky, x, x + aw, x);
  }

  /** The search finds the edge of the free columns. */
  lemma RowBest(p: Packer, aw: int, w: int, h: int, b: Best)
    requires RowState(p) && 0 < w && 0 < h && aw == Aligned(w, p.align) && b == FindBest(p, w, h) && b.found && b.y <= 0
    ensures b.k == |p.sky| - 2 && b.x == p.sky[b.k].x && b.y == 0 && p.sky[b.k].y <= 0 && b.x + aw <= p.width
  {
    BestIsLowest(p, w, h, 0);
    BestAtEdge(p, w, h);
  }

  lemma RowInsert(s: seq<Seg>, w: int)
    requires |s| >= 2 && 0 < w && s[|s| - 2].x + w <= s[|s| - 1].x
    requires forall i :: 0 <= i && i + 2 < |s| ==> s[i].y == 1
    ensures var s' := Insert(s, |s| - 2, s[|s| - 2].x, w, 1);
            |s'| >= 2 && forall i :: 0 <= i && i + 2 < |s'| ==> s'[i].y == 1
  {
    var k := |s| - 2;
    var j := SkipTo(s, k, s[k].x + w);
    assert Kept(s, k, s[k].x) == k;
  }

  lemma RowPackAt(p: Packer, w: int, b: Best)
    requires RowState(p) && 0 < w && p.free > 0 && b.found && b.y == 0
    requires b.k == |p.sky| - 2 && b.x == p.sky[b.k].x && b.x + w <= p.width
    requires PackAt(p, b, w, 1).0.Ok()
    ensures RowState(PackAt(p, b, w, 1).0)
  {
    RowInsert(p.sky, w);
  }

  lemma RowPack(p: Packer, w: int, h: int)
    requires RowState(p) && 0 < w && 0 < h
    ensures RowState(Pack(p, w, h).0)
  {
    BestIsLowest(p, w, h, 0);
    var b := FindBest(p, w, h);
    if Pack(p, w, h).1.Some? {
      assert PackAt(p, b, w, h).0.Ok() by { PackPlaces(p, w, h); }
      assert 0 <= b.y by { MaxHeightInTarget(p.sky, p.width, p.height, b.x, b.x + Aligned(w, p.align)); }
      RowBest(p, Aligned(w, p.align), w, h, b);
      RowPackAt(p, w, b);
    }
  }

  lemma {:induction false} RowRun(p: Packer, boxes: seq<Box>, sizes: seq<Size>)
    requires RowState(p) && Holds(p, boxes) && NonEmpty(sizes)
    ensures RowState(Run(p, boxes, sizes).0)
    decreases |sizes|
  {
    if sizes == [] {
    } else {
      var n := Next(p, boxes, sizes[0]);
      RowPack(p, sizes[0].w, sizes[0].h);
      RowRun(n.0, n.1, sizes[1..]);
    }
  }

  lemma AlignedIsWide(w: int, align: int)
    requires 0 < align && 0 < w
    ensures align <= Aligned(w, align)
  {
    AlignedIsMultiple(w, align);
  }

  /** If the nodes run out in a target of one row, no quantum of columns is left. */
  lemma RowServes(p: Packer, w: int, h: int)
    requires RowState(p) && 0 < w && 0 < h && p.numNodes + p.align > p.width
    ensures Serves(p, w, h)
  {
    var aw := Aligned(w, p.align);
    forall x | FitsAt(p, w, h, x) ensures p.free > 0 {
      RowFreeColumn(p, aw, x);
      NodesSpread(p.sky, p.width, p.height, |p.sky| - 2);
      AlignedIsWide(w, p.align);
    }
    PackSucceedsIff(p, w, h);
  }

  // -- The documented guarantee -----------------------------------------------------------------------------

  /** As many nodes as columns; in a single row, so many that the last quantum of columns is reached. */
  predicate EnoughFor(width: int, height: int, numNodes: nat)
    requires 0 < width && 0 < numNodes
  {
    height == 0 || numNodes >= width || (height == 1 && numNodes + Quantum(width, numNodes) > width)
  }

  lemma NothingFits(p: Packer, w: int, h: int, x: int)
    requires p.Ok() && 0 < w && 0 < h && p.height == 0
    ensures !FitsAt(p, w, h, x)
  {
    if 0 <= x && x + Aligned(w, p.align) <= p.width {
      MaxHeightInTarget(p.sky, p.width, p.height, x, x + Aligned(w, p.align));
    }
  }

  /** A freshly initialised target with a heuristic chosen. */
  function FreshWith(width: int, height: int, numNodes: nat, heuristic: Heuristic): (p: Packer)
    requires 0 < width < SENTINEL_Y && 0 <= height < SENTINEL_Y && 0 < numNodes
    ensures p.Ok() && Holds(p, [])
  {
    Fresh(width, height, numNodes).(heuristic := heuristic)
  }

  ghost predicate IsFresh(p: Packer) {
    && 0 < p.width < SENTINEL_Y && 0 <= p.height < SENTINEL_Y && 0 < p.numNodes
    && p == FreshWith(p.width, p.height, p.numNodes, p.heuristic)
  }

  lemma RunServes(p: Packer, sizes: seq<Size>, w: int, h: int)
    requires IsFresh(p) && EnoughFor(p.width, p.height, p.numNodes)
    requires NonEmpty(sizes) && 0 < w && 0 < h
    ensures Serves(Run(p, [], sizes).0, w, h)
  {
    var q := Run(p, [], sizes).0;
    RunOnlyAdds(p, [], sizes);
    if p.numNodes >= p.width {
      EnoughNodes(q);
      PackSucceedsIff(q, w, h);
    } else if p.height == 1 {
      RowRun(p, [], sizes);
      RowServes(q, w, h);
    } else {
      forall x ensures !FitsAt(q, w, h, x) { NothingFits(q, w, h, x); }
    }
  }

  /** The documented guarantee that quantising widths keeps the packer from running out of nodes holds over all
      runs, under either heuristic, if and only if there are as many nodes as columns or, in a target of one row,
      nodes enough to come within a quantum of the right edge. */
  lemma NodesSufficeIff(width: int, height: int, numNodes: nat, heuristic: Heuristic)
    requires 0 < width < SENTINEL_Y && 0 <= height < SENTINEL_Y && 0 < numNodes
    ensures (forall sizes, w, h :: ServesAfter(FreshWith(width, height, numNodes, heuristic), sizes, w, h))
       <==> EnoughFor(width, height, numNodes)
  {
    var p := FreshWith(width, height, numNodes, heuristic);
    if EnoughFor(width, height, numNodes) {
      forall sizes, w, h ensures ServesAfter(p, sizes, w, h) {
        if NonEmpty(sizes) && 0 < w && 0 < h {
          RunServes(p, sizes, w, h);
        }
      }
    } else {
      RunsOut(p);
      assert !ServesAfter(p, Units(numNodes), 1, 1);
    }
  }

  /** Unit squares use up the nodes of a target that has too few while there is room for more. */
  lemma RunsOut(p: Packer)
    requires IsFresh(p) && !EnoughFor(p.width, p.height, p.numNodes)
    ensures !Serves(Run(p, [], Units(p.numNodes)).0, 1, 1)
  {
    QuantumFits(p.width, p.numNodes);
    assert p.sky == UnitSky(0, p.width);
    UnitsAreUnits(p.numNodes);
    UnitRun(p, [], 0, p.numNodes, Units(p.numNodes));
    FullIsStuck(Run(p, [], Units(p.numNodes)).0, p.numNodes);
  }

  lemma FullIsStuck(p: Packer, k: nat)
    requires UnitState(p, k) && p.free == 0
    requires if p.height == 1 then k + p.align <= p.width else p.align <= p.width
    ensures !Serves(p, 1, 1)
  {
    if p.height == 1 {
      UnitFits(p, k);
    } else {
      UnitStillFits(p, k);
    }
    PackSucceedsIff(p, 1, 1);
  }

  lemma UnitStillFits(p: Packer, k: nat)
    requires UnitState(p, k) && p.align <= p.width && 2 <= p.height
    ensures FitsAt(p, 1, 1, 0)
  {
    AlignedUnit(p.align);
    forall c | 0 <= c < p.align ensures HeightAt(p.sky, c) <= 1 { UnitHeights(p, k, c); }
    MaxHeightLeast(p.sky, 0, p.align, 1);
  }

  // -- The waste over runs ----------------------------------------------------------------------------------

  /** What a caller does with a target: offers a rectangle, or changes the heuristic or the alignment. */
  datatype Act = Offer(z: Size) | Choose(heuristic: Heuristic) | Quantise(align: int)

  ghost predicate Legal(a: Act) {
    match a
    case Offer(z) => 0 < z.w && 0 < z.h
    case Choose(_) => true
    case Quantise(align) => 0 < align
  }

  ghost predicate AllLegal(acts: seq<Act>) { forall i :: 0 <= i < |acts| ==> Legal(acts[i]) }

  ghost function ActedOnce(p: Packer, a: Act): (r: Packer)
    requires Low(p) && Legal(a)
    ensures Low(r) && r.width == p.width
  {
    match a
    case Offer(z) =>
      PackKeepsLow(p, z.w, z.h);
      OfferKeepsWidth(p, z);
      Pack(p, z.w, z.h).0
    case Choose(heuristic) => p.(heuristic := heuristic)
    case Quantise(align) => p.(align := align)
  }

  /** The packer after the acts: its free columns are the last ones. */
  ghost function Acted(p: Packer, acts: seq<Act>): (r: Packer)
    requires Low(p) && AllLegal(acts)
    ensures Low(r) && r.width == p.width
    decreases |acts|
  {
    if acts == [] then p
    else
      assert Legal(acts[|acts| - 1]);
      ActedOnce(Acted(p, acts[..|acts| - 1]), acts[|acts| - 1])
  }

  lemma OfferKeepsWidth(p: Packer, z: Size)
    requires p.Ok() && 0 < z.w && 0 < z.h
    ensures Pack(p, z.w, z.h).0.width == p.width
  {
    if Pack(p, z.w, z.h).1.Some? { PackPlaces(p, z.w, z.h); }
  }

  /** In every run, under either heuristic and any alignment, every walk from any column finds the height and the
      waste exactly. */
  lemma EveryWalkIsExact(width: int, height: int, numNodes: nat, acts: seq<Act>, first: nat, x0: int, w: int)
    requires 0 < width < SENTINEL_Y && 0 <= height < SENTINEL_Y && 0 < numNodes
    requires AllLegal(acts)
    requires var sky := Acted(Fresh(width, height, numNodes), acts).sky;
             first + 1 < |sky| && sky[first].x <= x0 < sky[first + 1].x && 0 < w && x0 + w <= width
    ensures var sky := Acted(Fresh(width, height, numNodes), acts).sky;
            && Span(sky, x0, x0 + w)
            && FindMinY(sky, first, x0, w).y == MaxHeight(sky, x0, x0 + w)
            && FindMinY(sky, first, x0, w).waste == AreaUnder(sky, x0, x0 + w, MaxHeight(sky, x0, x0 + w))
  {
    LowWasteIsExact(Acted(Fresh(width, height, numNodes), acts), first, x0, w);
  }
}
