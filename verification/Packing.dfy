/** One packing step on skyline values: the position search of both heuristics, and the insertion of the new
    node. */
module Packing {
  import opened Basics
  import opened Skyline

  datatype Heuristic = BottomLeft | BestFit

  /** A packer: target size, width quantum, heuristic, number of nodes supplied, skyline, and free nodes left. */
  datatype Packer = Packer(width: int, height: int, align: int, heuristic: Heuristic, numNodes: nat,
                           sky: seq<Seg>, free: nat)
  {
    /** Every node supplied, and the two the packer adds, is in the skyline or free. */
    ghost predicate Ok() {
      && 0 < align
      && Valid(sky, width, height)
      && |sky| + free == numNodes + 2
    }
  }

  /** The width rounded up to a multiple of the quantum. */
  function Aligned(w: int, align: int): (r: int)
    requires 0 < align
    ensures w <= r < w + align
  {
    w + align - 1 - (w + align - 1) % align
  }

  lemma AlignedIsMultiple(w: int, align: int)
    requires 0 < align
    ensures Aligned(w, align) % align == 0
  {
    var n := w + align - 1;
    ExactMultiple(n - n % align, align, n / align);
  }

  lemma ExactMultiple(n: int, a: int, q: int)
    requires 0 < a && n == a * q
    ensures n % a == 0
  {
    var d := q - n / a;
    assert a * d == n % a;
    assert d >= 1 ==> a * d >= a;
    assert d <= -1 ==> a * d <= -a;
  }

  // -- Search -----------------------------------------------------------------------------------------------

  /** The best position so far: the node the list link at the insertion point leads to, and x, y and waste. */
  datatype Best = Best(found: bool, k: nat, x: int, y: int, waste: int)

  const NO_BEST := Best(false, 0, 0, SENTINEL_Y, SENTINEL_Y)

  /** The span fits into the target below its top edge. */
  predicate Reaches(p: Packer, h: int, y: int) { y + h <= p.height }

  /** Compares what the walk found at node k, starting at its left edge x, with the best so far. */
  function WeighLeft(p: Packer, h: int, k: nat, x: int, r: Walk, b: Best): Best {
    if p.heuristic.BottomLeft? then
      if r.y < b.y then Best(true, k, x, r.y, b.waste) else b
    else if Reaches(p, h, r.y) && (r.y < b.y || (r.y == b.y && r.waste < b.waste)) then
      Best(true, k, x, r.y, r.waste)
    else b
  }

  /** The loop that tries the left edge at every node from k on. */
  function LeftPass(p: Packer, aw: int, h: int, k: nat, b: Best): Best
    requires Valid(p.sky, p.width, p.height) && 0 < aw && k < |p.sky|
    decreases |p.sky| - k
  {
    if p.sky[k].x + aw <= p.width then 
      LeftPass(p, aw, h, k + 1, WeighLeft(p, h, k, p.sky[k].x, FindMinY(p.sky, k, p.sky[k].x, aw), b))
    else b
  }

  function WeighRight(p: Packer, h: int, k: nat, x: int, r: Walk, b: Best): Best {
    if && Reaches(p, h, r.y)
       && r.y <= b.y
       && (r.y < b.y || r.waste < b.waste || (r.waste == b.waste && x < b.x))
    then Best(true, k, x, r.y, r.waste) else b
  }

  /** The loop that tries the right edge at every node from t on. */
  function RightPass(p: Packer, aw: int, h: int, t: nat, b: Best): Best
    requires Valid(p.sky, p.width, p.height) && 0 < aw && t <= |p.sky|
    decreases |p.sky| - t
  {
    if t == |p.sky| then b
    else if p.sky[t].x < aw then RightPass(p, aw, h, t + 1, b)
    else
      assert Before(p.sky, t, |p.sky| - 1);
      var x := p.sky[t].x - aw;
      var k := NodeAt(p.sky, x);
      RightPass(p, aw, h, t + 1, WeighRight(p, h, k, x, FindMinY(p.sky, k, x, aw), b))
  }

  /** The search for a span of the aligned width. */
  function Search(p: Packer, aw: int, h: int): Best
    requires Valid(p.sky, p.width, p.height) && 0 < aw
  {
    if aw > p.width || h > p.height then NO_BEST.(y := 0)
    else
      var b := LeftPass(p, aw, h, 0, NO_BEST);
      if p.heuristic.BestFit? then RightPass(p, aw, h, 0, b) else b
  }

  function FindBest(p: Packer, w: int, h: int): Best
    requires p.Ok() && 0 < w
  {
    Search(p, Aligned(w, p.align), h)
  }

  /** Lowest y for the aligned width at column x. */
  ghost function YAt(p: Packer, aw: int, x: int): int
    requires p.Ok() && 0 <= x && x + aw <= p.width
  {
    MaxHeight(p.sky, x, x + aw)
  }

  /** A position really found: y is what the skyline asks for there, k is the node x lies in, and one edge of
      the aligned span is at a node. */
  ghost predicate Genuine(p: Packer, aw: int, b: Best)
    requires p.Ok()
  {
    && b.k + 1 < |p.sky|
    && p.sky[b.k].x <= b.x < p.sky[b.k + 1].x
    && 0 <= b.x && b.x + aw <= p.width
    && b.y == YAt(p, aw, b.x)
    && (p.sky[b.k].x == b.x || p.sky[b.k + 1].x <= b.x + aw)
  }

  lemma GenuineLeft(p: Packer, aw: int, k: nat)
    requires p.Ok() && 0 < aw && k < |p.sky| && p.sky[k].x + aw <= p.width
    ensures k + 1 < |p.sky| && 0 <= p.sky[k].x < p.sky[k + 1].x
    ensures FindMinY(p.sky, k, p.sky[k].x, aw).y == YAt(p, aw, p.sky[k].x)
    ensures 0 <= YAt(p, aw, p.sky[k].x) <= p.height
  {
    assert Before(p.sky, 0, k) && Before(p.sky, k, k + 1);
    WalkIsExact(p.sky, p.width, p.height, k, p.sky[k].x, aw);
    MaxHeightInTarget(p.sky, p.width, p.height, p.sky[k].x, p.sky[k].x + aw);
  }

  /** The left pass yields a genuine position, never a higher one, and for bottom-left only replaces the best so
      far by a lower one. */
  lemma {:induction false} LeftPassGenuine(p: Packer, aw: int, h: int, k: nat, b: Best)
    requires p.Ok() && 0 < aw && k < |p.sky|
    requires b.found ==> Genuine(p, aw, b)
    ensures var r := LeftPass(p, aw, h, k, b);
            && (r.found ==> Genuine(p, aw, r))
            && (b.found ==> r.found)
            && r.y <= b.y
            && (p.heuristic.BottomLeft? && r.y == b.y ==> r == b)
            && (p.heuristic.BestFit? && r.found && !b.found ==> Reaches(p, h, r.y))
    decreases |p.sky| - k
  {
    if p.sky[k].x + aw > p.width {
    } else {
      GenuineLeft(p, aw, k);
      var r := FindMinY(p.sky, k, p.sky[k].x, aw);
      LeftPassGenuine(p, aw, h, k + 1, WeighLeft(p, h, k, p.sky[k].x, r, b));
    }
  }

  /** No left edge beats the result of the left pass, and for bottom-left none left of it equals it. */
  lemma {:induction false} LeftPassBeats(p: Packer, aw: int, h: int, k: nat, b: Best, i: nat)
    requires p.Ok() && 0 < aw && k <= i < |p.sky| && 0 <= p.sky[i].x && p.sky[i].x + aw <= p.width
    requires p.heuristic.BottomLeft? || Reaches(p, h, YAt(p, aw, p.sky[i].x))
    requires if b.found then Genuine(p, aw, b) && b.x <= p.sky[k].x else b == NO_BEST
    ensures var r := LeftPass(p, aw, h, k, b);
            && r.found
            && r.y <= YAt(p, aw, p.sky[i].x)
            && (p.heuristic.BottomLeft? && r.y == YAt(p, aw, p.sky[i].x) ==> r.x <= p.sky[i].x)
    decreases |p.sky| - k
  {
    assert Before(p.sky, k, i);
    GenuineLeft(p, aw, k);
    var r := FindMinY(p.sky, k, p.sky[k].x, aw);
    var b' := WeighLeft(p, h, k, p.sky[k].x, r, b);
    if k == i {
      LeftPassGenuine(p, aw, h, k + 1, b');
    } else {
      LeftPassBeats(p, aw, h, k + 1, b', i);
    }
  }

  lemma GenuineRight(p: Packer, aw: int, t: nat)
    requires p.Ok() && 0 < aw && t < |p.sky| && aw <= p.sky[t].x <= p.width
    ensures var x := p.sky[t].x - aw;
            var k := NodeAt(p.sky, x);
            && FindMinY(p.sky, k, x, aw).y == YAt(p, aw, x)
            && 0 <= YAt(p, aw, x) <= p.height
            && Genuine(p, aw, Best(true, k, x, YAt(p, aw, x), FindMinY(p.sky, k, x, aw).waste))
  {
    var x := p.sky[t].x - aw;
    var k := NodeAt(p.sky, x);
    assert Before(p.sky, t, k) && Before(p.sky, k + 1, t);
    WalkIsExact(p.sky, p.width, p.height, k, x, aw);
    MaxHeightInTarget(p.sky, p.width, p.height, x, x + aw);
  }

  /** r is genuine, fits and is no higher than b, and there if b is. */
  ghost predicate Improves(p: Packer, aw: int, h: int, b: Best, r: Best)
    requires p.Ok()
  {
    (r.found ==> Genuine(p, aw, r) && Reaches(p, h, r.y)) && (b.found ==> r.found) && r.y <= b.y
  }

  lemma WeighRightImproves(p: Packer, aw: int, h: int, t: nat, x: int, k: nat, b: Best)
    requires p.Ok() && 0 < aw && t < |p.sky| && aw <= p.sky[t].x <= p.width && Improves(p, aw, h, b, b)
    requires x == p.sky[t].x - aw && k == NodeAt(p.sky, x)
    ensures Improves(p, aw, h, b, WeighRight(p, h, k, x, FindMinY(p.sky, k, x, aw), b))
  {
    GenuineRight(p, aw, t);
  }

  lemma {:induction false} RightPassGenuine(p: Packer, aw: int, h: int, t: nat, b: Best)
    requires p.Ok() && 0 < aw && t <= |p.sky| && Improves(p, aw, h, b, b)
    ensures Improves(p, aw, h, b, RightPass(p, aw, h, t, b))
    decreases |p.sky| - t
  {
    if t < |p.sky| && aw <= p.sky[t].x {
      assert Before(p.sky, t, |p.sky| - 1);
      var x := p.sky[t].x - aw;
      var k := NodeAt(p.sky, x);
      var b' := WeighRight(p, h, k, x, FindMinY(p.sky, k, x, aw), b);
      WeighRightImproves(p, aw, h, t, x, k, b);
      RightPassGenuine(p, aw, h, t + 1, b');
    } else if t < |p.sky| {
      RightPassGenuine(p, aw, h, t + 1, b);
    }
  }

  /** Moving a span left to the edge of the node its left end lies in never raises it. */
  lemma ShiftLeft(p: Packer, aw: int, x: int)
    requires p.Ok() && 0 < aw && 0 <= x && x + aw <= p.width
    ensures var e := p.sky[NodeAt(p.sky, x)].x;
            0 <= e && e + aw <= p.width && YAt(p, aw, e) <= YAt(p, aw, x)
  {
    var i := NodeAt(p.sky, x);
    assert Before(p.sky, 0, i);
    NodeIsFlat(p.sky, p.width, p.height, i);
    MaxHeightInTarget(p.sky, p.width, p.height, x, x + aw);
    ShiftOverFlat(p.sky, p.sky[i].x, x, aw);
  }

  lemma ShiftOverFlat(s: seq<Seg>, e: int, x: int, w: int)
    requires Span(s, e, x + w) && e <= x && 0 < w && Flat(s, e, x + 1, HeightAt(s, x)) && 0 <= MaxHeight(s, x, x + w)
    ensures MaxHeight(s, e, e + w) <= MaxHeight(s, x, x + w)
  {
    forall c | e <= c < e + w ensures HeightAt(s, c) <= MaxHeight(s, x, x + w) {
      MaxHeightBounds(s, x, x + w, if c < x then x else c);
    }
    MaxHeightLeast(s, e, e + w, MaxHeight(s, x, x + w));
  }

  /** The rectangle's aligned width fits at column x, below the top edge. */
  ghost predicate FitsAt(p: Packer, w: int, h: int, x: int)
    requires p.Ok() && 0 < w
  {
    var aw := Aligned(w, p.align);
    0 <= x && x + aw <= p.width && Reaches(p, h, YAt(p, aw, x))
  }

  /** The search over node edges against all columns: whatever it finds is genuine, it finds something whenever
      any column fits, and no fitting column is lower. Bottom-left takes the lowest column even where it does not
      fit, and the leftmost of those. */
  lemma BestIsLowest(p: Packer, w: int, h: int, x: int)
    requires p.Ok() && 0 < w && 0 < h
    ensures var b, aw := FindBest(p, w, h), Aligned(w, p.align);
            && (b.found ==> Genuine(p, aw, b))
            && (b.found && p.heuristic.BestFit? ==> FitsAt(p, w, h, b.x))
            && (FitsAt(p, w, h, x) ==> b.found && b.y <= YAt(p, aw, x))
            && (p.heuristic.BottomLeft? && b.found && 0 <= x && x + aw <= p.width ==>
                  && b.y <= YAt(p, aw, x)
                  && (b.y == YAt(p, aw, x) ==> b.x <= x))
  {
    var aw := Aligned(w, p.align);
    if 0 <= x && x + aw <= p.width {
      MaxHeightInTarget(p.sky, p.width, p.height, x, x + aw);
    }
    if aw <= p.width && h <= p.height {
      LeftPassGenuine(p, aw, h, 0, NO_BEST);
      if p.heuristic.BestFit? { RightPassGenuine(p, aw, h, 0, LeftPass(p, aw, h, 0, NO_BEST)); }
      if 0 <= x && x + aw <= p.width {
        ShiftLeft(p, aw, x);
        if p.heuristic.BottomLeft? || FitsAt(p, w, h, x) {
          LeftPassBeats(p, aw, h, 0, NO_BEST, NodeAt(p.sky, x));
        }
      }
    }
  }

  // -- Insertion --------------------------------------------------------------------------------------------

  /** The nodes from j on that end at or before column right are freed; the first that is not. */
  function SkipTo(s: seq<Seg>, j: nat, right: int): (r: nat)
    requires j < |s|
    ensures j <= r < |s|
    ensures r + 1 < |s| ==> right < s[r + 1].x
    ensures r > j ==> s[r].x <= right
    decreases |s| - j
  {
    if j + 1 < |s| && s[j + 1].x <= right then SkipTo(s, j + 1, right) else j
  }

  /** How many nodes stay in front of the new one, when x lies in node k. */
  function Kept(s: seq<Seg>, k: nat, x: int): (r: nat)
    requires k < |s|
    ensures r <= |s|
  {
    if s[k].x < x then k + 1 else k
  }

  /** The list surgery: a new node at x with height top, covering w columns. */
  function Insert(s: seq<Seg>, k: nat, x: int, w: int, top: int): (r: seq<Seg>)
    requires k + 1 < |s|
    ensures |r| == |s| + 1 - (SkipTo(s, Kept(s, k, x), x + w) - Kept(s, k, x))
  {
    var keep := Kept(s, k, x);
    var j := SkipTo(s, keep, x + w);
    s[..keep] + [Seg(x, top), Seg(Max(s[j].x, x + w), s[j].y)] + s[j + 1..]
  }

  /** The column up to which the new node reaches. */
  function InsertEnd(s: seq<Seg>, k: nat, x: int, w: int): int
    requires k + 1 < |s|
  {
    Max(s[SkipTo(s, Kept(s, k, x), x + w)].x, x + w)
  }

  /** What Insert asks of its place. */
  ghost predicate Place(s: seq<Seg>, width: int, height: int, k: nat, x: int, w: int, top: int) {
    && Valid(s, width, height)
    && k + 1 < |s| && s[k].x <= x < s[k + 1].x
    && 0 < w && x + w <= width
    && 0 <= top <= height
  }

  /** Element i of the new skyline, element by element. */
  lemma InsertAt(s: seq<Seg>, k: nat, x: int, w: int, top: int, i: nat)
    requires k + 1 < |s| && i < |Insert(s, k, x, w, top)|
    ensures var keep := Kept(s, k, x);
            var j := SkipTo(s, keep, x + w);
            var r := Insert(s, k, x, w, top);
            && (i < keep ==> r[i] == s[i])
            && (i == keep ==> r[i] == Seg(x, top))
            && (i == keep + 1 ==> r[i] == Seg(InsertEnd(s, k, x, w), s[j].y))
            && (i > keep + 1 ==> 0 <= i - keep - 1 + j < |s| && r[i] == s[i - keep - 1 + j])
  {
  }

  lemma InsertOrdered(s: seq<Seg>, width: int, height: int, k: nat, x: int, w: int, top: int, i: nat)
    requires Place(s, width, height, k, x, w, top) && i + 1 < |Insert(s, k, x, w, top)|
    ensures var r := Insert(s, k, x, w, top); r[i].x < r[i + 1].x
  {
    var keep := Kept(s, k, x);
    var j := SkipTo(s, keep, x + w);
    InsertAt(s, k, x, w, top, i);
    InsertAt(s, k, x, w, top, i + 1);
    assert Before(s, i, i + 1) && Before(s, k - 1, k) && Before(s, j, j + 1);
    assert Before(s, i - keep - 1 + j, i - keep + j);
  }

  ghost predicate Rising(s: seq<Seg>, m: nat) {
    m + 1 < |s| ==> s[m].x < s[m + 1].x
  }

  lemma {:induction false} ChainOrdered(s: seq<Seg>, i: nat, j: nat)
    requires forall m :: Rising(s, m)
    ensures Before(s, i, j)
    decreases j - i
  {
    if !(i < j < |s|) {
    } else {
      assert Rising(s, j - 1);
      ChainOrdered(s, i, j - 1);
    }
  }

  lemma InsertIsOrdered(s: seq<Seg>, width: int, height: int, k: nat, x: int, w: int, top: int)
    requires Place(s, width, height, k, x, w, top)
    ensures var r := Insert(s, k, x, w, top); forall i, j :: Before(r, i, j)
  {
    var r := Insert(s, k, x, w, top);
    forall m: nat ensures Rising(r, m) {
      if m + 1 < |r| { InsertOrdered(s, width, height, k, x, w, top, m); }
    }
    forall i: int, j: int ensures Before(r, i, j) {
      if 0 <= i < j { ChainOrdered(r, i, j); }
    }
  }

  lemma InsertIsValid(s: seq<Seg>, width: int, height: int, k: nat, x: int, w: int, top: int)
    requires Place(s, width, height, k, x, w, top)
    ensures Valid(Insert(s, k, x, w, top), width, height)
  {
    var r := Insert(s, k, x, w, top);
    InsertIsOrdered(s, width, height, k, x, w, top);
    forall i | 0 <= i < |r| - 1 ensures 0 <= r[i].y <= height {
      InsertAt(s, k, x, w, top, i);
    }
    InsertAt(s, k, x, w, top, 0);
    InsertAt(s, k, x, w, top, |r| - 1);
    assert Before(s, 0, k);
  }

  /** The new skyline has height top from x to the end of the new node and is unchanged elsewhere. */
  lemma InsertHeight(s: seq<Seg>, width: int, height: int, k: nat, x: int, w: int, top: int, c: int)
    requires Place(s, width, height, k, x, w, top) && 0 <= c < width
    ensures InTarget(s, c) && InTarget(Insert(s, k, x, w, top), c)
    ensures HeightAt(Insert(s, k, x, w, top), c) ==
            if x <= c < InsertEnd(s, k, x, w) then top else HeightAt(s, c)
  {
    var r := Insert(s, k, x, w, top);
    var keep := Kept(s, k, x);
    var j := SkipTo(s, keep, x + w);
    var n := NodeAt(s, c);
    InsertIsValid(s, width, height, k, x, w, top);
    var i := if c < x then n else if c < InsertEnd(s, k, x, w) then keep
             else if n <= j then keep + 1 else n + keep + 1 - j;
    assert Before(s, keep, n) && Before(s, n + 1, j) && Before(s, j, n);
    assert 0 <= i && i + 1 < |r|;
    InsertAt(s, k, x, w, top, i);
    InsertAt(s, k, x, w, top, i + 1);
    HeightIs(r, width, height, i, c);
  }

  // -- One rectangle ----------------------------------------------------------------------------------------

  datatype Pos = Pos(x: int, y: int)

  /** Takes the position found, unless it does not fit or no node is free. */
  function PackAt(p: Packer, b: Best, w: int, h: int): (Packer, Option<Pos>)
    requires p.Ok() && (b.found ==> b.k + 1 < |p.sky|)
  {
    if !b.found || b.y + h > p.height || p.free == 0 then (p, None)
    else
      var s := Insert(p.sky, b.k, b.x, w, b.y + h);
      (p.(sky := s, free := p.free - 1 + (|p.sky| + 1 - |s|)), Some(Pos(b.x, b.y)))
  }

  /** Packs a non-empty rectangle. */
  function Pack(p: Packer, w: int, h: int): (Packer, Option<Pos>)
    requires p.Ok() && 0 < w && 0 < h
  {
    BestIsLowest(p, w, h, 0);
    PackAt(p, FindBest(p, w, h), w, h)
  }

  /** A rectangle in the target. */
  datatype Box = Box(x: int, y: int, w: int, h: int)

  predicate Disjoint(a: Box, b: Box) {
    a.x + a.w <= b.x || b.x + b.w <= a.x || a.y + a.h <= b.y || b.y + b.h <= a.y
  }

  /** The box is inside the target and below the skyline over each of its columns. */
  ghost predicate Under(p: Packer, b: Box)
    requires p.Ok()
  {
    && 0 <= b.x && 0 < b.w && b.x + b.w <= p.width
    && 0 <= b.y && 0 < b.h && b.y + b.h <= p.height
    && forall c :: b.x <= c < b.x + b.w ==> b.y + b.h <= HeightAt(p.sky, c)
  }

  /** All boxes packed so far are inside the target, below the skyline and pairwise disjoint. */
  ghost predicate Holds(p: Packer, boxes: seq<Box>) {
    && p.Ok()
    && (forall i :: 0 <= i < |boxes| ==> Under(p, boxes[i]))
    && (forall i, j :: 0 <= i < j < |boxes| ==> Disjoint(boxes[i], boxes[j]))
  }

  /** s' is s with the columns x .. x2-1 set to top. */
  ghost predicate Raised(s: seq<Seg>, s': seq<Seg>, width: int, x: int, x2: int, top: int) {
    && Span(s, 0, width) && Span(s', 0, width)
    && forall c :: 0 <= c < width ==> HeightAt(s', c) == if x <= c < x2 then top else HeightAt(s, c)
  }

  lemma InsertIsRaised(s: seq<Seg>, width: int, height: int, k: nat, x: int, w: int, top: int)
    requires Place(s, width, height, k, x, w, top)
    ensures var s' := Insert(s, k, x, w, top);
            Valid(s', width, height) && Raised(s, s', width, x, InsertEnd(s, k, x, w), top)
  {
    InsertIsValid(s, width, height, k, x, w, top);
    forall c | 0 <= c < width
      ensures HeightAt(Insert(s, k, x, w, top), c) == if x <= c < InsertEnd(s, k, x, w) then top else HeightAt(s, c)
    {
      InsertHeight(s, width, height, k, x, w, top, c);
    }
  }

  ghost predicate NoLower(s: seq<Seg>, s': seq<Seg>, width: int) {
    && Span(s, 0, width) && Span(s', 0, width)
    && forall c :: 0 <= c < width ==> HeightAt(s, c) <= HeightAt(s', c)
  }

  /** Raising the columns from x on, no further than the span whose height was measured, lowers nothing. */
  lemma RaisedIsNoLower(s: seq<Seg>, s': seq<Seg>, width: int, x: int, x2: int, x3: int, top: int)
    requires Raised(s, s', width, x, x2, top) && 0 <= x <= x2 <= x3 <= width
    requires MaxHeight(s, x, x3) <= top
    ensures NoLower(s, s', width)
  {
    forall c | 0 <= c < width ensures HeightAt(s, c) <= HeightAt(s', c) {
      if x <= c < x2 { MaxHeightBounds(s, x, x3, c); }
    }
  }

  lemma RaisedPlaces(p: Packer, p': Packer, aw: int, b: Best, w: int, h: int, x2: int)
    requires p.Ok() && p'.Ok() && p'.width == p.width && p'.height == p.height
    requires 0 < w && b.x + w <= x2 <= b.x + aw && 0 < h && Genuine(p, aw, b) && b.y + h <= p.height
    requires Raised(p.sky, p'.sky, p.width, b.x, x2, b.y + h)
    ensures Under(p', Box(b.x, b.y, w, h)) && NoLower(p.sky, p'.sky, p.width)
  {
    MaxHeightInTarget(p.sky, p.width, p.height, b.x, b.x + aw);
    RaisedIsNoLower(p.sky, p'.sky, p.width, b.x, x2, b.x + aw, b.y + h);
  }

  lemma InsertRaises(p: Packer, aw: int, b: Best, w: int, h: int)
    requires p.Ok() && 0 < w <= aw && 0 < h && Genuine(p, aw, b) && b.y + h <= p.height
    ensures var s', x2 := Insert(p.sky, b.k, b.x, w, b.y + h), InsertEnd(p.sky, b.k, b.x, w);
            && Valid(s', p.width, p.height) && Raised(p.sky, s', p.width, b.x, x2, b.y + h)
            && b.x + w <= x2 <= b.x + aw
  {
    assert 0 <= b.y by { MaxHeightInTarget(p.sky, p.width, p.height, b.x, b.x + aw); }
    InsertIsRaised(p.sky, p.width, p.height, b.k, b.x, w, b.y + h);
    InsertStaysInSpan(p, aw, w, b);
  }

  lemma PackAtPlaces(p: Packer, aw: int, b: Best, w: int, h: int)
    requires p.Ok() && 0 < w <= aw && 0 < h && b.found && Genuine(p, aw, b) && PackAt(p, b, w, h).1.Some?
    ensures var p' := PackAt(p, b, w, h).0;
            && p'.Ok() && p' == p.(sky := p'.sky, free := p'.free)
            && Under(p', Box(b.x, b.y, w, h))
            && NoLower(p.sky, p'.sky, p.width)
  {
    InsertRaises(p, aw, b, w, h);
    RaisedPlaces(p, PackAt(p, b, w, h).0, aw, b, w, h, InsertEnd(p.sky, b.k, b.x, w));
  }

  /** What a successful step did: the position was free over the aligned span, the skyline is at the new top over
      the new box, and no column got lower. */
  lemma PackPlaces(p: Packer, w: int, h: int)
    requires p.Ok() && 0 < w && 0 < h && Pack(p, w, h).1.Some?
    ensures var (p', o) := Pack(p, w, h);
            && p'.Ok() && p' == p.(sky := p'.sky, free := p'.free)
            && Under(p', Box(o.value.x, o.value.y, w, h))
            && FitsAt(p, w, h, o.value.x)
            && o.value.y == YAt(p, Aligned(w, p.align), o.value.x)
            && NoLower(p.sky, p'.sky, p.width)
  {
    BestIsLowest(p, w, h, 0);
    PackAtPlaces(p, Aligned(w, p.align), FindBest(p, w, h), w, h);
  }

  /** The new node never reaches past the aligned span whose height was measured. */
  lemma InsertStaysInSpan(p: Packer, aw: int, w: int, b: Best)
    requires p.Ok() && 0 < w <= aw && Genuine(p, aw, b)
    ensures InsertEnd(p.sky, b.k, b.x, w) <= b.x + aw
  {
  }

  /** Every step keeps all packed boxes inside the target, below the skyline and pairwise disjoint. */
  lemma PackKeepsHolds(p: Packer, boxes: seq<Box>, w: int, h: int)
    requires Holds(p, boxes) && 0 < w && 0 < h
    ensures var (p', o) := Pack(p, w, h);
            Holds(p', if o.None? then boxes else boxes + [Box(o.value.x, o.value.y, w, h)])
  {
    var (p', o) := Pack(p, w, h);
    if o.Some? {
      PackPlaces(p, w, h);
      var n := Box(o.value.x, o.value.y, w, h);
      forall i | 0 <= i < |boxes| ensures Under(p', boxes[i]) && Disjoint(boxes[i], n) {
        UnderIsDisjoint(p, boxes[i], w, h, n);
      }
    }
  }

  /** A box below the skyline is clear of any box placed on top of it. */
  lemma UnderIsDisjoint(p: Packer, a: Box, w: int, h: int, n: Box)
    requires p.Ok() && Under(p, a) && 0 < w && 0 < h && n.w == w
    requires FitsAt(p, w, h, n.x) && n.y == YAt(p, Aligned(w, p.align), n.x)
    ensures Disjoint(a, n)
  {
    var c := Max(a.x, n.x);
    if c < a.x + a.w && c < n.x + n.w {
      MaxHeightBounds(p.sky, n.x, n.x + Aligned(w, p.align), c);
    }
  }

  /** Packing succeeds exactly when a node is free and some column fits. */
  lemma PackSucceedsIff(p: Packer, w: int, h: int)
    requires p.Ok() && 0 < w && 0 < h
    ensures Pack(p, w, h).1.Some? <==> p.free > 0 && exists x :: FitsAt(p, w, h, x)
  {
    if Pack(p, w, h).1.Some? { PackPlaces(p, w, h); }
    if x :| FitsAt(p, w, h, x) { BestIsLowest(p, w, h, x); }
  }

  /** Under bottom-left the packed position is the lowest over all columns and the leftmost of those. */
  lemma BottomLeftIsOptimal(p: Packer, w: int, h: int, x: int)
    requires p.Ok() && 0 < w && 0 < h && p.heuristic.BottomLeft?
    requires Pack(p, w, h).1.Some? && 0 <= x && x + Aligned(w, p.align) <= p.width
    ensures var pos, y := Pack(p, w, h).1.value, YAt(p, Aligned(w, p.align), x);
            pos.y < y || (pos.y == y && pos.x <= x)
  {
    BestIsLowest(p, w, h, x);
  }
}
