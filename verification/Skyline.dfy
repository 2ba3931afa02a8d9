/** The skyline of the rectangle packer as a value: a sequence of nodes ordered by x whose last element is the
    sentinel at the right edge of the target. Everything a packing step computes is defined here on values;
    RectPacker carries it out on linked nodes. */
module Skyline {
  import opened Basics

  datatype Seg = Seg(x: int, y: int)

  const SENTINEL_Y := 0x4000_0000

  ghost predicate Before(s: seq<Seg>, i: int, j: int) {
    0 <= i < j < |s| ==> s[i].x < s[j].x
  }

  ghost predicate Valid(s: seq<Seg>, width: int, height: int) {
    && 0 < width < SENTINEL_Y
    && 0 <= height < SENTINEL_Y
    && |s| >= 2
    && s[0].x == 0
    && s[|s| - 1] == Seg(width, SENTINEL_Y)
    && (forall i, j :: Before(s, i, j))
    && (forall i :: 0 <= i < |s| - 1 ==> 0 <= s[i].y <= height)
  }

  ghost predicate InTarget(s: seq<Seg>, c: int) {
    |s| >= 2 && s[0].x <= c < s[|s| - 1].x
  }

  /** The node whose horizontal extent holds column c, looking from node k on. */
  function NodeFrom(s: seq<Seg>, k: nat, c: int): (i: nat)
    requires k + 1 < |s| && s[k].x <= c < s[|s| - 1].x
    ensures k <= i && i + 1 < |s| && s[i].x <= c < s[i + 1].x
    decreases |s| - k
  {
    if c < s[k + 1].x then k else NodeFrom(s, k + 1, c)
  }

  function NodeAt(s: seq<Seg>, c: int): (i: nat)
    requires InTarget(s, c)
    ensures i + 1 < |s| && s[i].x <= c < s[i + 1].x
  {
    NodeFrom(s, 0, c)
  }

  /** Height of the skyline over column c. */
  function HeightAt(s: seq<Seg>, c: int): int
    requires InTarget(s, c)
  {
    s[NodeAt(s, c)].y
  }

  lemma HeightIs(s: seq<Seg>, width: int, height: int, i: nat, c: int)
    requires Valid(s, width, height)
    requires i + 1 < |s| && s[i].x <= c < s[i + 1].x
    ensures InTarget(s, c) && NodeAt(s, c) == i && HeightAt(s, c) == s[i].y
  {
    assert Before(s, 0, i) && Before(s, i + 1, |s| - 1);
    var n := NodeAt(s, c);
    assert Before(s, n + 1, i) && Before(s, i + 1, n);
  }

  ghost predicate Span(s: seq<Seg>, x0: int, x1: int) {
    |s| >= 2 && s[0].x <= x0 && x1 <= s[|s| - 1].x
  }

  /** The lowest y at which something over the columns x0 .. x1-1 clears the skyline, column by column. */
  ghost function MaxHeight(s: seq<Seg>, x0: int, x1: int): int
    requires Span(s, x0, x1)
    decreases x1 - x0
  {
    if x0 >= x1 then 0 else Max(MaxHeight(s, x0, x1 - 1), HeightAt(s, x1 - 1))
  }

  /** The area between y and the skyline over the columns x0 .. x1-1, column by column. */
  ghost function AreaUnder(s: seq<Seg>, x0: int, x1: int, y: int): int
    requires Span(s, x0, x1)
    decreases x1 - x0
  {
    if x0 >= x1 then 0 else AreaUnder(s, x0, x1 - 1, y) + (y - HeightAt(s, x1 - 1))
  }

  lemma {:induction false} MaxHeightBounds(s: seq<Seg>, x0: int, x1: int, c: int)
    requires Span(s, x0, x1) && x0 <= c < x1
    ensures InTarget(s, c) && HeightAt(s, c) <= MaxHeight(s, x0, x1)
    decreases x1 - x0
  {
    if c >= x1 - 1 {
    } else {
      MaxHeightBounds(s, x0, x1 - 1, c);
    }
  }

  lemma {:induction false} MaxHeightLeast(s: seq<Seg>, x0: int, x1: int, b: int)
    requires Span(s, x0, x1) && 0 <= b
    requires forall c :: x0 <= c < x1 ==> HeightAt(s, c) <= b
    ensures 0 <= MaxHeight(s, x0, x1) <= b
    decreases x1 - x0
  {
    if x0 >= x1 {
    } else {
      MaxHeightLeast(s, x0, x1 - 1, b);
    }
  }

  lemma MaxHeightInTarget(s: seq<Seg>, width: int, height: int, x0: int, x1: int)
    requires Valid(s, width, height) && 0 <= x0 && x1 <= width
    ensures 0 <= MaxHeight(s, x0, x1) <= height
  {
    MaxHeightLeast(s, x0, x1, height);
  }

  // -- The walk over the nodes ------------------------------------------------------------------------------

  /** What the walk has found: the height so far, the width counted so far and the waste so far. */
  datatype Walk = Walk(y: int, visited: int, waste: int)

  /** One node of the walk. In the raising branch the width is reduced when the span starts inside the node; in
      the other branch it is not. */
  function Visit(r: Walk, node: Seg, nextX: int, x0: int, w: int): Walk {
    if node.y > r.y then
      Walk(node.y, r.visited + (if node.x < x0 then nextX - x0 else nextX - node.x),
           r.waste + r.visited * (node.y - r.y))
    else
      var full := nextX - node.x;
      var under := if full + r.visited > w then w - r.visited else full;
      Walk(r.y, r.visited + under, r.waste + under * (r.y - node.y))
  }

  /** The loop of the vertical search, from node k on. */
  function WalkFrom(s: seq<Seg>, k: nat, x0: int, w: int, r: Walk): Walk
    requires k < |s| && x0 + w <= s[|s| - 1].x
    decreases |s| - k
  {
    if k + 1 >= |s| || s[k].x >= x0 + w then r
    else WalkFrom(s, k + 1, x0, w, Visit(r, s[k], s[k + 1].x, x0, w))
  }

  function FindMinY(s: seq<Seg>, first: nat, x0: int, w: int): Walk
    requires first < |s| && x0 + w <= s[|s| - 1].x
  {
    WalkFrom(s, first, x0, w, Walk(0, 0, 0))
  }

  ghost predicate Flat(s: seq<Seg>, a: int, b: int, y: int) {
    Span(s, a, b) && forall c :: a <= c < b ==> HeightAt(s, c) == y
  }

  lemma NodeIsFlat(s: seq<Seg>, width: int, height: int, k: nat)
    requires Valid(s, width, height) && k + 1 < |s|
    ensures Flat(s, s[k].x, s[k + 1].x, s[k].y)
  {
    assert Before(s, 0, k) && Before(s, k + 1, |s| - 1);
    forall c | s[k].x <= c < s[k + 1].x ensures HeightAt(s, c) == s[k].y {
      HeightIs(s, width, height, k, c);
    }
  }

  lemma {:induction false} MaxHeightExtend(s: seq<Seg>, x0: int, a: int, b: int, h: int)
    requires Span(s, x0, b) && x0 <= a < b && Flat(s, a, b, h)
    ensures MaxHeight(s, x0, b) == Max(MaxHeight(s, x0, a), h)
    decreases b - a
  {
    if a >= b - 1 {
    } else {
      MaxHeightExtend(s, x0, a, b - 1, h);
    }
  }

  lemma {:induction false} AreaExtend(s: seq<Seg>, x0: int, a: int, b: int, h: int, y: int)
    requires Span(s, x0, b) && x0 <= a <= b && Flat(s, a, b, h)
    ensures AreaUnder(s, x0, b, y) == AreaUnder(s, x0, a, y) + Product(b - a, y - h)
    decreases b - a
  {
    if a >= b {
    } else {
      AreaExtend(s, x0, a, b - 1, h, y);
    }
  }

  lemma {:induction false} AreaRaise(s: seq<Seg>, x0: int, x1: int, y: int, y': int)
    requires Span(s, x0, x1) && x0 <= x1
    ensures AreaUnder(s, x0, x1, y') == AreaUnder(s, x0, x1, y) + Product(x1 - x0, y' - y)
    decreases x1 - x0
  {
    if x0 >= x1 {
    } else {
      AreaRaise(s, x0, x1 - 1, y, y');
    }
  }

  /** n * y by repeated addition, which keeps the columnwise proofs linear. */
  ghost function Product(n: int, y: int): int
    decreases n
  {
    if n <= 0 then 0 else Product(n - 1, y) + y
  }

  lemma {:induction false} ProductIs(n: int, y: int)
    requires 0 <= n
    ensures Product(n, y) == n * y
    decreases n
  {
    if n == 0 {
    } else {
      ProductIs(n - 1, y);
    }
  }

  lemma VisitHeight(r: Walk, node: Seg, nextX: int, x0: int, w: int)
    ensures Visit(r, node, nextX, x0, w).y == Max(r.y, node.y)
  {
  }

  /** From node k on, with everything left of it accounted for, the walk finds the columnwise maximum. */
  lemma {:induction false} WalkHeight(s: seq<Seg>, width: int, height: int, k: nat, x0: int, w: int, r: Walk)
    requires Valid(s, width, height) && 0 <= x0 && 0 < w && x0 + w <= width && k < |s|
    requires x0 <= s[k].x || (k + 1 < |s| && x0 < s[k + 1].x)
    requires r.y == MaxHeight(s, x0, Min(Max(x0, s[k].x), x0 + w))
    ensures WalkFrom(s, k, x0, w, r).y == MaxHeight(s, x0, x0 + w)
    decreases |s| - k
  {
    if s[k].x >= x0 + w {
    } else {
      assert Before(s, k, k + 1) && Before(s, k + 1, |s| - 1);
      var a, b := Max(x0, s[k].x), Min(s[k + 1].x, x0 + w);
      NodeIsFlat(s, width, height, k);
      MaxHeightExtend(s, x0, a, b, s[k].y);
      var r' := Visit(r, s[k], s[k + 1].x, x0, w);
      VisitHeight(r, s[k], s[k + 1].x, x0, w);
      assert Max(x0, s[k + 1].x) == s[k + 1].x;
      WalkHeight(s, width, height, k + 1, x0, w, r');
    }
  }

  /** What one node adds to the waste, when the width counted so far is right. */
  lemma VisitWaste(r: Walk, node: Seg, nextX: int, x0: int, w: int)
    requires x0 <= node.x < nextX && node.x < x0 + w && r.visited == node.x - x0
    ensures var r', y, b := Visit(r, node, nextX, x0, w), Max(r.y, node.y), Min(nextX, x0 + w);
            && r'.y == y
            && (nextX <= x0 + w ==> r'.visited == nextX - x0)
            && r'.waste == r.waste + Product(node.x - x0, y - r.y) + Product(b - node.x, y - node.y)
  {
    var y, b := Max(r.y, node.y), Min(nextX, x0 + w);
    ProductIs(node.x - x0, y - r.y);
    ProductIs(b - node.x, y - node.y);
  }

  /** Before node k the width and the waste of the columns left of it are counted exactly. */
  ghost predicate Account(s: seq<Seg>, k: nat, x0: int, w: int, r: Walk)
    requires k < |s| && Span(s, x0, x0 + w)
  {
    && (s[k].x <= x0 + w ==> r.visited == s[k].x - x0)
    && r.waste == AreaUnder(s, x0, Min(s[k].x, x0 + w), r.y)
  }

  lemma VisitKeepsAccount(s: seq<Seg>, k: nat, x0: int, w: int, r: Walk)
    requires k + 1 < |s| && Span(s, x0, x0 + w)
    requires x0 <= s[k].x < s[k + 1].x && s[k].x < x0 + w && Flat(s, s[k].x, s[k + 1].x, s[k].y)
    requires Account(s, k, x0, w, r)
    ensures Account(s, k + 1, x0, w, Visit(r, s[k], s[k + 1].x, x0, w))
  {
    var b, y := Min(s[k + 1].x, x0 + w), Max(r.y, s[k].y);
    AreaExtend(s, x0, s[k].x, b, s[k].y, y);
    AreaRaise(s, x0, s[k].x, r.y, y);
    VisitWaste(r, s[k], s[k + 1].x, x0, w);
  }

  /** From node k on, with exact accounts so far, the walk ends with the exact waste. */
  lemma {:induction false} WalkWaste(s: seq<Seg>, width: int, height: int, k: nat, x0: int, w: int, r: Walk)
    requires Valid(s, width, height) && k < |s| && 0 <= x0 <= s[k].x && x0 + w <= width
    requires Account(s, k, x0, w, r)
    ensures var e := WalkFrom(s, k, x0, w, r); e.waste == AreaUnder(s, x0, x0 + w, e.y)
    decreases |s| - k
  {
    if s[k].x >= x0 + w {
    } else {
      assert Before(s, k, k + 1) && Before(s, k + 1, |s| - 1);
      NodeIsFlat(s, width, height, k);
      VisitKeepsAccount(s, k, x0, w, r);
      WalkWaste(s, width, height, k + 1, x0, w, Visit(r, s[k], s[k + 1].x, x0, w));
    }
  }

  /** A span that starts at its first node's edge, or whose first node is raised, or that ends within it. */
  predicate CleanStart(first: Seg, nextX: int, x0: int, w: int) {
    first.x == x0 || first.y > 0 || x0 + w <= nextX
  }

  /** The y returned by the walk is the columnwise maximum wherever in its first node the span starts, and the
      waste is the exact area below y for a clean start, although y rises during the walk and the last node may
      stick out past the span. */
  lemma WalkIsExact(s: seq<Seg>, width: int, height: int, first: nat, x0: int, w: int)
    requires Valid(s, width, height) && 0 < w && x0 + w <= width
    requires first + 1 < |s| && s[first].x <= x0 < s[first + 1].x
    ensures Span(s, x0, x0 + w)
    ensures FindMinY(s, first, x0, w).y == MaxHeight(s, x0, x0 + w)
    ensures CleanStart(s[first], s[first + 1].x, x0, w) ==>
              FindMinY(s, first, x0, w).waste == AreaUnder(s, x0, x0 + w, MaxHeight(s, x0, x0 + w))
  {
    assert Before(s, 0, first);
    WalkHeight(s, width, height, first, x0, w, Walk(0, 0, 0));
    if s[first].x == x0 {
      WalkWaste(s, width, height, first, x0, w, Walk(0, 0, 0));
    } else if CleanStart(s[first], s[first + 1].x, x0, w) {
      NodeIsFlat(s, width, height, first);
      InnerStart(s, first, x0, w);
      if s[first + 1].x < x0 + w || s[first].y > 0 {
        WalkWaste(s, width, height, first + 1, x0, w, Visit(Walk(0, 0, 0), s[first], s[first + 1].x, x0, w));
      }
    }
  }

  lemma InnerStart(s: seq<Seg>, k: nat, x0: int, w: int)
    requires k + 1 < |s| && Span(s, x0, x0 + w) && 0 < w
    requires s[k].x < x0 < s[k + 1].x && Flat(s, s[k].x, s[k + 1].x, s[k].y) && s[k].y >= 0
    requires CleanStart(s[k], s[k + 1].x, x0, w)
    ensures var r := Visit(Walk(0, 0, 0), s[k], s[k + 1].x, x0, w);
            if s[k].y > 0 then Account(s, k + 1, x0, w, r)
            else r.waste == 0 == AreaUnder(s, x0, x0 + w, 0)
  {
    var b := Min(s[k + 1].x, x0 + w);
    AreaExtend(s, x0, x0, b, s[k].y, s[k].y);
    ProductIs(b - x0, 0);
  }

  ghost predicate WasteExact(s: seq<Seg>, k: nat, x0: int, w: int)
    requires k < |s| && Span(s, x0, x0 + w)
  {
    var r := FindMinY(s, k, x0, w);
    r.waste == AreaUnder(s, x0, x0 + w, r.y)
  }
}
