/** stbrp_pack_rects: sorts the rectangles, packs them one by one, and puts them back into their original order. */
module PackRects {
  import opened Basics
  import opened Skyline
  import opened Packing
  import opened PackingRuns
  import opened RectPacker
  import Sorting

  const MAXVAL := 0x7fff_ffff

  datatype Rect = Rect(id: int, w: int, h: int, x: int, y: int, wasPacked: int)

  predicate Empty(r: Rect) { r.w == 0 || r.h == 0 }

  function BoxOf(r: Rect): Box { Box(r.x, r.y, r.w, r.h) }

  predicate Failed(r: Rect) { r.x == MAXVAL && r.y == MAXVAL }

  predicate Placed(r: Rect) { !Empty(r) && !Failed(r) }

  /** Taller first, among equals wider first. */
  predicate HeightOrder(p: Rect, q: Rect) { p.h > q.h || (p.h == q.h && p.w >= q.w) }

  predicate OriginalOrder(p: Rect, q: Rect) { p.wasPacked <= q.wasPacked }

  // -- Sorting there and back -------------------------------------------------------------------------------

  /** wasPacked tells apart the rectangles, and which original one each of them is. */
  ghost predicate Tagged(s: seq<Rect>, orig: seq<Rect>) {
    && |s| == |orig|
    && (forall i :: 0 <= i < |s| ==> Stems(s[i], orig))
    && (forall i, j :: 0 <= i < j < |s| ==> s[i].wasPacked != s[j].wasPacked)
  }

  ghost predicate Stems(r: Rect, orig: seq<Rect>) {
    && 0 <= r.wasPacked < |orig|
    && var o := orig[r.wasPacked]; r.id == o.id && r.w == o.w && r.h == o.h
  }

  lemma {:induction false} TwiceIn(s: seq<Rect>, e: Rect) returns (i: nat, j: nat)
    requires multiset(s)[e] >= 2
    ensures i < j < |s| && s[i] == e == s[j]
    decreases |s|
  {
    assert s == [s[0]] + s[1..];
    if s[0] == e {
      assert e in multiset(s[1..]);
      i := 0;
      j :| 0 < j < |s| && s[j] == e;
    } else {
      i, j := TwiceIn(s[1..], e);
      i, j := i + 1, j + 1;
    }
  }

  lemma CountsTwice(s: seq<Rect>, i: nat, j: nat)
    requires i < j < |s| && s[i] == s[j]
    ensures multiset(s)[s[i]] >= 2
  {
    assert s == s[..j] + [s[j]] + s[j + 1..];
    assert s[i] in multiset(s[..j]);
  }

  /** Reordering keeps the tags and where each rectangle stems from. */
  lemma ReorderKeepsTags(s: seq<Rect>, t: seq<Rect>, orig: seq<Rect>)
    requires Tagged(s, orig) && multiset(s) == multiset(t) && |s| == |t|
    ensures Tagged(t, orig)
  {
    forall i | 0 <= i < |t| ensures Stems(t[i], orig) { assert t[i] in multiset(s); }
    forall i, j | 0 <= i < j < |t| ensures t[i].wasPacked != t[j].wasPacked {
      if t[i] == t[j] {
        CountsTwice(t, i, j);
        var p, q := TwiceIn(s, t[i]);
      } else {
        assert t[i] in multiset(s) && t[j] in multiset(s);
      }
    }
  }

  lemma {:induction false} TagsClimb(s: seq<Rect>, orig: seq<Rect>, i: nat)
    requires Tagged(s, orig) && Sorting.Sorted(s, OriginalOrder) && i < |s|
    ensures i <= s[i].wasPacked
  {
    if i == 0 {
    } else {
      TagsClimb(s, orig, i - 1);
    }
  }

  lemma {:induction false} TagsAreBounded(s: seq<Rect>, orig: seq<Rect>, i: nat)
    requires Tagged(s, orig) && Sorting.Sorted(s, OriginalOrder) && i < |s|
    ensures s[i].wasPacked <= i
    decreases |s| - i
  {
    if i + 1 >= |s| {
    } else {
      TagsAreBounded(s, orig, i + 1);
    }
  }

  /** Sorting by tag restores the original order. */
  lemma OriginalOrderRestored(s: seq<Rect>, orig: seq<Rect>)
    requires Tagged(s, orig) && Sorting.Sorted(s, OriginalOrder)
    ensures forall i :: 0 <= i < |s| ==>
              s[i].wasPacked == i && s[i].id == orig[i].id && s[i].w == orig[i].w && s[i].h == orig[i].h
  {
    forall i | 0 <= i < |s| ensures s[i].wasPacked == i && Stems(s[i], orig) {
      TagsClimb(s, orig, i);
      TagsAreBounded(s, orig, i);
    }
  }

  // -- Packing ----------------------------------------------------------------------------------------------

  /** What packing leaves in a rectangle: zero for an empty one, otherwise a box among those packed or failure. */
  ghost predicate Settled(r: Rect, boxes: seq<Box>) {
    if Empty(r) then r.x == 0 && r.y == 0 else Failed(r) || BoxOf(r) in boxes
  }

  ghost predicate AllSettled(s: seq<Rect>, boxes: seq<Box>) {
    forall i :: 0 <= i < |s| ==> Settled(s[i], boxes)
  }

  /** Packed rectangles with different tags do not overlap. */
  ghost predicate NoOverlap(s: seq<Rect>) {
    forall i, j :: 0 <= i < |s| && 0 <= j < |s| && Clash(s[i], s[j]) ==> s[i].wasPacked == s[j].wasPacked
  }

  predicate Clash(a: Rect, b: Rect) { Placed(a) && Placed(b) && !Disjoint(BoxOf(a), BoxOf(b)) }

  lemma ReorderKeepsResult(s: seq<Rect>, t: seq<Rect>, boxes: seq<Box>)
    requires AllSettled(s, boxes) && NoOverlap(s) && multiset(s) == multiset(t) && |s| == |t|
    ensures AllSettled(t, boxes) && NoOverlap(t)
  {
    forall i | 0 <= i < |t| ensures exists k :: 0 <= k < |s| && s[k] == t[i] { assert t[i] in multiset(s); }
  }

  ghost predicate Sane(s: seq<Rect>) {
    forall i :: 0 <= i < |s| ==> 0 <= s[i].w && 0 <= s[i].h
  }

  /** The sizes of the non-empty ones among the first k rectangles. */
  ghost function Sizes(s: seq<Rect>, k: nat): (r: seq<Size>)
    requires Sane(s) && k <= |s|
    ensures NonEmpty(r)
  {
    if k == 0 then []
    else if Empty(s[k - 1]) then Sizes(s, k - 1)
    else Sizes(s, k - 1) + [Size(s[k - 1].w, s[k - 1].h)]
  }

  /** Offers one box to the packer. */
  method Offer(c: Context, w: int, h: int, ghost nodes: set<Node>) returns (o: Option<Pos>)
    requires c.Valid() && c.NodesIn(nodes) && 0 < w && 0 < h
    modifies c, nodes
    ensures c.Valid() && c.NodesIn(nodes)
    ensures (c.state, o) == Pack(old(c.state), w, h) && c.boxes == With(old(c.boxes), o, w, h)
  {
    assert (forall n :: n in c.active ==> n in c.active + c.free)
           && (forall n :: n in c.free ==> n in c.active + c.free);
    o := c.PackRectangle(w, h);
  }

  function FilledIn(r: Rect, o: Option<Pos>): Rect {
    if o.Some? then r.(x := o.value.x, y := o.value.y) else r.(x := MAXVAL, y := MAXVAL)
  }

  /** A rectangle that was given a position is told apart from one that was not. */
  lemma FilledInIsSettled(r: Rect, o: Option<Pos>, boxes: seq<Box>)
    requires !Empty(r) && (o.Some? ==> o.value.x < MAXVAL)
    ensures var r', boxes' := FilledIn(r, o), With(boxes, o, r.w, r.h);
            Settled(r', boxes') && boxes' == boxes + if Placed(r') then [BoxOf(r')] else []
  {
    var r' := FilledIn(r, o);
    if o.Some? {
      assert BoxOf(r') == Box(o.value.x, o.value.y, r.w, r.h);
      assert (boxes + [BoxOf(r')])[|boxes|] == BoxOf(r');
    }
  }

  method PackOne(c: Context, r: Rect, ghost nodes: set<Node>) returns (r': Rect)
    requires c.Valid() && c.NodesIn(nodes) && 0 <= r.w && 0 <= r.h
    modifies c, nodes
    ensures c.Valid() && c.NodesIn(nodes)
    ensures r' == r.(x := r'.x, y := r'.y) && Settled(r', c.boxes)
    ensures c.boxes == old(c.boxes) + if Placed(r') then [BoxOf(r')] else []
    ensures (c.state, c.boxes) ==
            if Empty(r) then old((c.state, c.boxes)) else Next(old(c.state), old(c.boxes), Size(r.w, r.h))
  {
    r' := r.(x := 0, y := 0);
    if !Empty(r) {
      ghost var boxes := c.boxes;
      var o := Offer(c, r.w, r.h, nodes);
      r' := FilledIn(r, o);
      assert o.Some? ==> Under(c.state, c.boxes[|c.boxes| - 1]);
      FilledInIsSettled(r, o, boxes);
    }
  }

  /** One more rectangle settled: its box, if any, is clear of all boxes before it. */
  lemma SettleNext(s: seq<Rect>, r: Rect, boxes: seq<Box>, p: Packer, boxes': seq<Box>)
    requires AllSettled(s, boxes) && NoOverlap(s) && Settled(r, boxes') && Holds(p, boxes')
    requires boxes' == boxes + if Placed(r) then [BoxOf(r)] else []
    ensures AllSettled(s + [r], boxes') && NoOverlap(s + [r])
  {
    forall i | 0 <= i < |s| ensures Settled(s[i], boxes') && !Clash(s[i], r) && !Clash(r, s[i]) {
      if Placed(s[i]) && Placed(r) {
        var k :| 0 <= k < |boxes| && boxes[k] == BoxOf(s[i]);
        assert Disjoint(boxes'[k], boxes'[|boxes|]);
      }
    }
  }

  /** Each rectangle of t is that of s with a position filled in. */
  ghost predicate Filled(t: seq<Rect>, s: seq<Rect>) {
    |t| <= |s| && forall i :: 0 <= i < |t| ==> t[i] == s[i].(x := t[i].x, y := t[i].y)
  }

  /** Packs the rectangle at index i in place. */
  method PackAt(c: Context, rects: array<Rect>, i: nat, ghost nodes: set<Node>)
    requires c.Valid() && c.NodesIn(nodes) && i < rects.Length && 0 <= rects[i].w && 0 <= rects[i].h
    modifies c, nodes, rects
    ensures c.Valid() && c.NodesIn(nodes)
    ensures var r := rects[i];
            && rects[..] == old(rects[..])[i := r] && r == old(rects[i]).(x := r.x, y := r.y) && Settled(r, c.boxes)
            && c.boxes == old(c.boxes) + (if Placed(r) then [BoxOf(r)] else [])
            && (c.state, c.boxes) ==
               if Empty(r) then old((c.state, c.boxes)) else Next(old(c.state), old(c.boxes), Size(r.w, r.h))
  {
    var r := PackOne(c, rects[i], nodes);
    rects[i] := r;
  }

  /** The packer after the first k rectangles of s. */
  ghost function After(p: Packer, boxes: seq<Box>, s: seq<Rect>, k: nat): (Packer, seq<Box>)
    requires Holds(p, boxes) && Sane(s) && k <= |s|
  {
    Run(p, boxes, Sizes(s, k))
  }

  lemma AfterNext(p: Packer, boxes: seq<Box>, s: seq<Rect>, k: nat)
    requires Holds(p, boxes) && Sane(s) && k < |s|
    ensures var r := After(p, boxes, s, k);
            After(p, boxes, s, k + 1) == if Empty(s[k]) then r else Next(r.0, r.1, Size(s[k].w, s[k].h))
  {
    if !Empty(s[k]) { RunAppend(p, boxes, Sizes(s, k), Size(s[k].w, s[k].h)); }
  }

  /** After the first |t| rectangles of s: what is filled in. */
  ghost predicate Progress(boxes: seq<Box>, s: seq<Rect>, t: seq<Rect>) {
    Filled(t, s) && AllSettled(t, boxes) && NoOverlap(t)
  }

  /** The loop over the sorted rectangles. */
  method PackSorted(c: Context, rects: array<Rect>, ghost nodes: set<Node>)
    requires c.Valid() && c.NodesIn(nodes) && Sane(rects[..])
    modifies c, nodes, rects
    ensures c.Valid() && c.NodesIn(nodes)
    ensures Progress(c.boxes, old(rects[..]), rects[..])
    ensures (c.state, c.boxes) == After(old(c.state), old(c.boxes), old(rects[..]), rects.Length)
  {
    ghost var p, b, s, t := c.state, c.boxes, rects[..], [];
    for i := 0 to rects.Length
      invariant c.Valid() && c.NodesIn(nodes)
      invariant rects[..] == t + s[i..] && |t| == i
      invariant Progress(c.boxes, s, t) && (c.state, c.boxes) == After(p, b, s, i)
    {
      assert rects[i] == rects[..][i] == s[i];
      t := PackNext(c, rects, i, nodes, p, b, s, t);
    }
    assert rects[..] == t;
  }

  method PackNext(c: Context, rects: array<Rect>, i: nat, ghost nodes: set<Node>,
                  ghost p: Packer, ghost b: seq<Box>, ghost s: seq<Rect>, ghost t: seq<Rect>)
    returns (ghost t': seq<Rect>)
    requires c.Valid() && c.NodesIn(nodes) && Holds(p, b) && Sane(s) && i < |s| == rects.Length
    requires rects[..] == t + s[i..] && |t| == i && rects[i] == s[i]
    requires Progress(c.boxes, s, t) && (c.state, c.boxes) == After(p, b, s, i)
    modifies c, nodes, rects
    ensures c.Valid() && c.NodesIn(nodes)
    ensures rects[..] == t' + s[i + 1..] && |t'| == i + 1
    ensures Progress(c.boxes, s, t') && (c.state, c.boxes) == After(p, b, s, i + 1)
  {
    ghost var boxes := c.boxes;
    AfterNext(p, b, s, i);
    PackAt(c, rects, i, nodes);
    SettleNext(t, rects[i], boxes, c.state, c.boxes);
    t' := t + [rects[i]];
  }

  method SortRects(rects: array<Rect>, le: (Rect, Rect) -> bool)
    requires Sorting.TotalPreorder(le)
    modifies rects
    ensures Sorting.Sorted(rects[..], le) && multiset(rects[..]) == multiset(old(rects[..]))
  {
    var s := Sorting.Sort(rects[..], le);
    forall i | 0 <= i < rects.Length { rects[i] := s[i]; }
    assert rects[..] == s;
  }

  method TagAll(rects: array<Rect>)
    modifies rects
    ensures Tagged(rects[..], old(rects[..]))
  {
    for i := 0 to rects.Length
      invariant forall k :: 0 <= k < i ==> rects[k] == old(rects[k]).(wasPacked := k)
      invariant forall k :: i <= k < rects.Length ==> rects[k] == old(rects[k])
    {
      rects[i] := rects[i].(wasPacked := i);
    }
  }

  method SetFlags(rects: array<Rect>) returns (all: bool)
    modifies rects
    ensures forall i :: 0 <= i < rects.Length ==>
              rects[i] == old(rects[i]).(wasPacked := if Failed(old(rects[i])) then 0 else 1)
    ensures all <==> forall i :: 0 <= i < rects.Length ==> !Failed(rects[i])
  {
    all := true;
    for i := 0 to rects.Length
      invariant forall k :: 0 <= k < i ==>
                  rects[k] == old(rects[k]).(wasPacked := if Failed(old(rects[k])) then 0 else 1)
      invariant forall k :: i <= k < rects.Length ==> rects[k] == old(rects[k])
      invariant all <==> forall k :: 0 <= k < i ==> !Failed(rects[k])
    {
      rects[i] := rects[i].(wasPacked := if Failed(rects[i]) then 0 else 1);
      if rects[i].wasPacked == 0 {
        all := false;
      }
    }
  }

  lemma FilledKeepsTags(t: seq<Rect>, s: seq<Rect>, orig: seq<Rect>)
    requires Filled(t, s) && |t| == |s| && Tagged(s, orig)
    ensures Tagged(t, orig)
  {
  }

  lemma TaggedIsSane(s: seq<Rect>, orig: seq<Rect>)
    requires Tagged(s, orig) && Sane(orig)
    ensures Sane(s)
  {
    forall i | 0 <= i < |s| ensures 0 <= s[i].w && 0 <= s[i].h { assert Stems(s[i], orig); }
  }

  /** Tags the rectangles, sorts them by height, and packs them in that order. */
  method PackByHeight(c: Context, rects: array<Rect>, ghost nodes: set<Node>) returns (ghost order: seq<Rect>)
    requires c.Valid() && c.NodesIn(nodes) && Sane(rects[..])
    modifies c, nodes, rects
    ensures c.Valid() && c.NodesIn(nodes)
    ensures Tagged(order, old(rects[..])) && Sorting.Sorted(order, HeightOrder) && Sane(order)
            && |order| == rects.Length
    ensures Progress(c.boxes, order, rects[..])
    ensures (c.state, c.boxes) == After(old(c.state), old(c.boxes), order, |order|)
  {
    ghost var orig := rects[..];
    TagAll(rects);
    ghost var tagged := rects[..];
    SortRects(rects, HeightOrder);
    order := rects[..];
    ReorderKeepsTags(tagged, order, orig);
    TaggedIsSane(order, orig);
    PackSorted(c, rects, nodes);
  }

  /** The result in the caller's order: sizes and ids as given, every rectangle settled, and no two that were
      packed overlap. */
  ghost predicate Result(t: seq<Rect>, orig: seq<Rect>, boxes: seq<Box>) {
    && |t| == |orig|
    && (forall i :: 0 <= i < |t| ==>
          t[i] == orig[i].(x := t[i].x, y := t[i].y, wasPacked := if Failed(t[i]) then 0 else 1))
    && AllSettled(t, boxes)
    && (forall i, j :: 0 <= i < j < |t| ==> !Clash(t[i], t[j]))
  }

  method Restore(rects: array<Rect>, ghost order: seq<Rect>, ghost orig: seq<Rect>, ghost boxes: seq<Box>)
    returns (all: bool)
    requires Tagged(order, orig) && Progress(boxes, order, rects[..]) && |order| == rects.Length
    modifies rects
    ensures Result(rects[..], orig, boxes)
    ensures all <==> forall i :: 0 <= i < rects.Length ==> rects[i].wasPacked == 1
  {
    FilledKeepsTags(rects[..], order, orig);
    ghost var t := rects[..];
    SortRects(rects, OriginalOrder);
    ReorderKeepsTags(t, rects[..], orig);
    ReorderKeepsResult(t, rects[..], boxes);
    OriginalOrderRestored(rects[..], orig);
    ghost var u := rects[..];
    all := SetFlags(rects);
  }

  /** Tallest first, and of equally tall ones the widest. */
  ghost predicate TallestFirst(s: seq<Rect>) {
    forall i, j :: 0 <= i < j < |s| ==> s[i].h >= s[j].h && (s[i].h == s[j].h ==> s[i].w >= s[j].w)
  }

  lemma SortedIsTallestFirst(s: seq<Rect>)
    requires Sorting.Sorted(s, HeightOrder)
    ensures TallestFirst(s)
  {
    forall i, j | 0 <= i < j < |s| ensures s[i].h >= s[j].h && (s[i].h == s[j].h ==> s[i].w >= s[j].w) {
      assert HeightOrder(s[i], s[j]);
    }
  }

  /** Packs all rectangles. The packer ends as a run over the non-empty ones, tallest first, leaves it. */
  method PackAll(c: Context, rects: array<Rect>, ghost nodes: set<Node>) returns (all: bool, ghost order: seq<Rect>)
    requires c.Valid() && c.NodesIn(nodes) && Sane(rects[..])
    modifies c, nodes, rects
    ensures c.Valid() && c.NodesIn(nodes)
    ensures Result(rects[..], old(rects[..]), c.boxes)
    ensures all <==> forall i :: 0 <= i < rects.Length ==> rects[i].wasPacked == 1
    ensures Tagged(order, old(rects[..])) && TallestFirst(order) && Sane(order)
    ensures (c.state, c.boxes) == After(old(c.state), old(c.boxes), order, |order|)
    ensures old(c.boxes) <= c.boxes
  {
    ghost var orig, p, b := rects[..], c.state, c.boxes;
    order := PackByHeight(c, rects, nodes);
    SortedIsTallestFirst(order);
    RunOnlyAdds(p, b, Sizes(order, |order|));
    all := Restore(rects, order, orig, c.boxes);
  }
}
