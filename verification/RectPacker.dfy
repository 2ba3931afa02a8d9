/** The packer's context: the skyline and the free nodes as two singly linked lists over the same nodes, relinked in
    place. Its ghost state is the packer as a value, and every method is tied to the function on values. */
module RectPacker {
  import opened Basics
  import opened Skyline
  import opened Packing
  import PackingRuns

  class Node {
    var x: int
    var y: int
    var next: Node?

    constructor ()
      ensures next == null
    {
      next := null;
    }
  }

  /** The free list: each node is followed by the next, and none occurs twice. */
  ghost predicate Free(head: Node?, s: seq<Node>)
    reads s
    decreases |s|
  {
    if s == [] then head == null
    else head == s[0] && s[0] !in s[1..] && Free(s[0].next, s[1..])
  }

  /** Element i of the skyline list is followed by element i + 1. */
  ghost predicate Link(s: seq<Node>, i: int)
    reads s
  {
    0 <= i < |s| ==> s[i].next == if i + 1 < |s| then s[i + 1] else null
  }

  ghost predicate Shows(s: seq<Node>, sky: seq<Seg>)
    reads s
  {
    |s| == |sky| && forall i :: 0 <= i < |s| ==> s[i].x == sky[i].x && s[i].y == sky[i].y
  }

  ghost predicate Apart(s: seq<Node>, t: seq<Node>) {
    forall i :: 0 <= i < |s| ==> s[i] !in t
  }

  /** The free list after elements keep .. j-1 of a were pushed onto f one by one. */
  ghost function Pushed(a: seq<Node>, keep: nat, j: nat, f: seq<Node>): (r: seq<Node>)
    requires keep <= j <= |a|
    ensures |r| == |f| + (j - keep)
    decreases j
  {
    if j == keep then f else [a[j - 1]] + Pushed(a, keep, j - 1, f)
  }

  lemma {:induction false} PushedFrom(a: seq<Node>, keep: nat, j: nat, f: seq<Node>, n: Node)
    requires keep <= j <= |a| && n in Pushed(a, keep, j, f)
    ensures n in f || n in a[keep..j]
    decreases j
  {
    if keep >= j {
    } else {
      assert a[keep..j] == a[keep..j - 1] + [a[j - 1]];
      if n != a[j - 1] { PushedFrom(a, keep, j - 1, f, n); }
    }
  }

  lemma NotPushed(a: seq<Node>, keep: nat, j: nat, f: seq<Node>, n: Node)
    requires keep <= j <= |a| && n !in a && n !in f
    ensures n !in Pushed(a, keep, j, f)
  {
    if n in Pushed(a, keep, j, f) { PushedFrom(a, keep, j, f, n); assert false; }
  }

  /** Elements of a skyline list differ, since their columns do. */
  lemma ColumnsDiffer(a: seq<Node>, sky: seq<Seg>, i: nat, j: nat)
    requires Shows(a, sky) && (forall i, j :: Before(sky, i, j)) && i < |a| && j < |a| && i != j
    ensures a[i] != a[j]
  {
    assert Before(sky, i, j) && Before(sky, j, i);
  }

  lemma AllDistinct(a: seq<Node>, sky: seq<Seg>)
    requires Shows(a, sky) && forall i, j :: Before(sky, i, j)
    ensures Distinct(a)
  {
    forall i, j | 0 <= i < j < |a| ensures a[i] != a[j] { ColumnsDiffer(a, sky, i, j); }
  }

  lemma PrefixIsOutside(a: seq<Node>, sky: seq<Seg>, i: nat, keep: nat)
    requires Shows(a, sky) && (forall i, j :: Before(sky, i, j)) && i < keep <= |a|
    ensures a[i] !in a[keep..]
  {
    if a[i] in a[keep..] {
      var j :| keep <= j < |a| && a[j] == a[i];
      ColumnsDiffer(a, sky, i, j);
      assert false;
    }
  }

  lemma PushedIsNew(a: seq<Node>, sky: seq<Seg>, keep: nat, j: nat, f: seq<Node>)
    requires Shows(a, sky) && (forall i, j :: Before(sky, i, j)) && keep <= j < |a| && Apart(a, f)
    ensures a[j] !in Pushed(a, keep, j, f)
  {
    if a[j] in Pushed(a, keep, j, f) {
      PushedFrom(a, keep, j, f, a[j]);
      var i :| keep <= i < j && a[i] == a[j];
      ColumnsDiffer(a, sky, i, j);
      assert false;
    }
  }

  /** The skyline list after the surgery: keep elements, the new node, and the rest from j on. */
  ghost function Spliced(a: seq<Node>, node: Node, keep: nat, j: nat): (r: seq<Node>)
    requires keep <= j < |a|
    ensures |r| == keep + 1 + |a| - j
    ensures forall i :: 0 <= i < |r| ==>
              r[i] == if i < keep then a[i] else if i == keep then node else a[i - keep - 1 + j]
  {
    a[..keep] + [node] + a[j..]
  }

  lemma SplicedIsLinked(a: seq<Node>, node: Node, keep: nat, j: nat, i: int)
    requires keep <= j < |a|
    requires forall m: int :: m + 1 < keep || j <= m ==> Link(a, m)
    requires keep > 0 ==> a[keep - 1].next == node
    requires node.next == a[j]
    ensures Link(Spliced(a, node, keep, j), i)
  {
    assert i + 1 < keep ==> Link(a, i);
    assert i > keep ==> Link(a, i - keep - 1 + j);
  }

  /** The boxes with the one just packed, if any. */
  ghost function With(boxes: seq<Box>, r: Option<Pos>, w: int, h: int): seq<Box> {
    if r.None? then boxes else boxes + [Box(r.value.x, r.value.y, w, h)]
  }

  ghost predicate HoldsAfter(res: (Packer, Option<Pos>), boxes: seq<Box>, w: int, h: int) {
    Holds(res.0, With(boxes, res.1, w, h))
  }

  lemma PackIsPackAt(p: Packer, boxes: seq<Box>, w: int, h: int)
    requires Holds(p, boxes) && 0 < w && 0 < h
    ensures var b := FindBest(p, w, h);
            && (b.found ==> b.k + 1 < |p.sky|)
            && Pack(p, w, h) == PackAt(p, b, w, h)
            && HoldsAfter(PackAt(p, b, w, h), boxes, w, h)
  {
    BestIsLowest(p, w, h, 0);
    PackKeepsHolds(p, boxes, w, h);
  }

  /** The new lists share no node. */
  lemma SplicedIsApart(a: seq<Node>, node: Node, f: seq<Node>, keep: nat, j: nat)
    requires keep <= j < |a| && Apart(a, f) && node !in f && node !in a && Distinct(a)
    ensures Apart(Spliced(a, node, keep, j), Pushed(a, keep, j, f))
  {
    var s, p := Spliced(a, node, keep, j), Pushed(a, keep, j, f);
    forall x | 0 <= x < |s| ensures s[x] !in p {
      if s[x] in p { PushedFrom(a, keep, j, f, s[x]); }
    }
  }

  /** A search result in terms of the list: prev stands for the link at the insertion point, null for the head. */
  datatype Candidate = Candidate(found: bool, prev: Node?, x: int, y: int, waste: int)

  /** Both lists are well linked and share no node, and the first shows the skyline. */
  ghost predicate Listed(head: Node, freeHead: Node?, a: seq<Node>, f: seq<Node>, sky: seq<Seg>)
    reads a, f
  {
    && |a| > 0 && Shows(a, sky)
    && head == a[0]
    && (forall i :: Link(a, i))
    && Free(freeHead, f)
    && Apart(a, f)
  }

  /** The new lists hold only nodes the old ones held. */
  ghost predicate Within(a': seq<Node>, f': seq<Node>, a: seq<Node>, f: seq<Node>) {
    forall n | n in a' + f' :: n in a + f
  }

  ghost predicate Distinct(s: seq<Node>) {
    forall i, j :: 0 <= i < j < |s| ==> s[i] != s[j]
  }

  lemma {:induction false} LinkedIsFree(s: seq<Node>, i: nat)
    requires i < |s| && Distinct(s) && forall m :: Link(s, m)
    ensures Free(s[i], s[i..])
    decreases |s| - i
  {
    assert Link(s, i);
    assert s[i..][1..] == s[i + 1..];
    if i + 1 >= |s| {
    } else {
      LinkedIsFree(s, i + 1);
    }
  }

  method LinkAll(nodes: seq<Node>)
    requires 0 < |nodes| && Distinct(nodes)
    modifies nodes
    ensures forall m :: Link(nodes, m)
  {
    var i := 0;
    while i < |nodes| - 1
      invariant 0 <= i <= |nodes| - 1
      invariant forall m :: 0 <= m < i ==> nodes[m].next == nodes[m + 1]
    {
      nodes[i].next := nodes[i + 1];
      i := i + 1;
    }
    nodes[i].next := null;
  }

  class Context {
    var width: int
    var height: int
    var align: int
    var heuristic: Heuristic
    var numNodes: nat
    var activeHead: Node
    var freeHead: Node?

    ghost var active: seq<Node>
    ghost var free: seq<Node>
    ghost var state: Packer
    ghost var boxes: seq<Box>

    ghost predicate Lists()
      reads this, active, free
    {
      Listed(activeHead, freeHead, active, free, state.sky)
    }

    ghost predicate Valid()
      reads this, active, free
    {
      && state == Packer(width, height, align, heuristic, numNodes, state.sky, |free|)
      && Holds(state, boxes)
      && Lists()
    }

    /** stbrp_init_target: one node of height zero over the full width, the sentinel, and all supplied nodes free. */
    constructor (width: int, height: int, nodes: seq<Node>)
      requires 0 < width < SENTINEL_Y && 0 <= height < SENTINEL_Y && 0 < |nodes| && Distinct(nodes)
      modifies nodes
      ensures Valid() && boxes == [] && state == PackingRuns.Fresh(width, height, |nodes|)
      ensures free == nodes && fresh(active)
    {
      var first := new Node();
      var sentinel := new Node();
      first.x, first.y, first.next := 0, 0, sentinel;
      sentinel.x, sentinel.y := width, SENTINEL_Y;
      this.width, this.height, this.numNodes := width, height, |nodes|;
      this.align := PackingRuns.Quantum(width, |nodes|);
      this.heuristic := BottomLeft;
      this.activeHead, this.freeHead := first, nodes[0];
      this.active, this.free, this.boxes := [first, sentinel], nodes, [];
      this.state := PackingRuns.Fresh(width, height, |nodes|);
      new;
      LinkAll(nodes);
      LinkedIsFree(nodes, 0);
      assert nodes[0..] == nodes;
    }

    /** The lowest y over x0 .. x0+w-1, and the waste, walking from the node that holds x0. */
    method FindMinY(first: Node, x0: int, w: int, ghost k: nat) returns (y: int, waste: int)
      requires Valid() && k + 1 < |active| && first == active[k]
      requires first.x <= x0 < active[k + 1].x && 0 < w && x0 + w <= width
      ensures var r := Skyline.FindMinY(state.sky, k, x0, w); y == r.y && waste == r.waste
    {
      var node := first;
      var x1 := x0 + w;
      var visited := 0;
      y, waste := 0, 0;
      ghost var i := k;
      ghost var all := WalkFrom(state.sky, k, x0, w, Walk(0, 0, 0));
      while node.x < x1
        invariant i < |active| && node == active[i]
        invariant all == WalkFrom(state.sky, i, x0, w, Walk(y, visited, waste))
        decreases |active| - i
      {
        assert Link(active, i);
        var next := node.next;
        if node.y > y {
          waste := waste + visited * (node.y - y);
          y := node.y;
          if node.x < x0 {
            visited := visited + (next.x - x0);
          } else {
            visited := visited + (next.x - node.x);
          }
        } else {
          var under := next.x - node.x;
          if under + visited > w {
            under := w - visited;
          }
          waste := waste + under * (y - node.y);
          visited := visited + under;
        }
        node := next;
        i := i + 1;
      }
    }

    method SetupAllowOutOfMem(allow: bool)
      requires Valid() && 0 < numNodes
      modifies this
      ensures Valid() && boxes == old(boxes) && active == old(active) && free == old(free)
      ensures state == old(state).(align := if allow then 1 else PackingRuns.Quantum(width, numNodes))
    {
      align := if allow then 1 else PackingRuns.Quantum(width, numNodes);
      state := state.(align := align);
    }

    method SetupHeuristic(h: Heuristic)
      requires Valid()
      modifies this
      ensures Valid() && boxes == old(boxes) && active == old(active) && free == old(free)
      ensures state == old(state).(heuristic := h)
    {
      heuristic := h;
      state := state.(heuristic := h);
    }

    /** All nodes of both lists are among those given. */
    ghost predicate NodesIn(nodes: set<Node>)
      reads this
    {
      forall n | n in active + free :: n in nodes
    }

    /** prev stands for the list link that leads to element i: null for the head of the list. */
    ghost predicate LeadsTo(prev: Node?, i: nat)
      reads this
    {
      i < |active| && prev == if i == 0 then null else active[i - 1]
    }

    ghost predicate Matches(c: Candidate, b: Best)
      reads this
    {
      c.found == b.found && c.x == b.x && c.y == b.y && c.waste == b.waste && (c.found ==> LeadsTo(c.prev, b.k))
    }

    /** Tries the left edge of the span at every node. */
    method SearchLeft(aw: int, h: int) returns (c: Candidate, ghost b: Best)
      requires Valid() && 0 < aw
      ensures b == LeftPass(state, aw, h, 0, NO_BEST) && Matches(c, LeftPass(state, aw, h, 0, NO_BEST))
    {
      var node, prev: Node? := activeHead, null;
      c, b := Candidate(false, null, 0, SENTINEL_Y, SENTINEL_Y), NO_BEST;
      ghost var i: nat := 0;
      while node.x + aw <= width
        invariant i < |active| && node == active[i] && LeadsTo(prev, i)
        invariant LeftPass(state, aw, h, 0, NO_BEST) == LeftPass(state, aw, h, i, b) && Matches(c, b)
        decreases |active| - i
      {
        assert Link(active, i) && Before(state.sky, i, i + 1);
        var y, waste := FindMinY(node, node.x, aw, i);
        b := WeighLeft(state, h, i, node.x, Skyline.FindMinY(state.sky, i, node.x, aw), b);
        if heuristic.BottomLeft? {
          if y < c.y {
            c := Candidate(true, prev, node.x, y, c.waste);
          }
        } else if y + h <= height {
          if y < c.y || (y == c.y && waste < c.waste) {
            c := Candidate(true, prev, node.x, y, waste);
          }
        }
        prev := node;
        node := node.next;
        i := i + 1;
      }
    }

    /** Moves on to the node that holds column xpos. */
    method Advance(node0: Node, prev0: Node?, xpos: int, ghost i0: nat)
      returns (node: Node, prev: Node?, ghost i: nat)
      requires Valid() && i0 + 1 < |active| && node0 == active[i0] && LeadsTo(prev0, i0)
      requires node0.x <= xpos < width
      ensures i + 1 < |active| && node == active[i] && LeadsTo(prev, i)
      ensures node.x <= xpos < active[i + 1].x
    {
      node, prev, i := node0, prev0, i0;
      assert Link(active, i);
      while node.next.x <= xpos
        invariant i + 1 < |active| && node == active[i] && LeadsTo(prev, i)
        invariant node.x <= xpos && node.next == active[i + 1]
        decreases |active| - i
      {
        prev := node;
        node := node.next;
        i := i + 1;
        assert Link(active, i);
      }
    }

    /** Weighs the span that starts at column xpos inside element i. */
    method TryRight(node: Node, prev: Node?, xpos: int, aw: int, h: int, c0: Candidate, ghost i: nat, ghost b0: Best)
      returns (c: Candidate, ghost b: Best)
      requires Valid() && i + 1 < |active| && node == active[i] && LeadsTo(prev, i)
      requires node.x <= xpos < active[i + 1].x && 0 <= xpos && 0 < aw && xpos + aw <= width
      requires Matches(c0, b0)
      ensures NodeAt(state.sky, xpos) == i
      ensures b == WeighRight(state, h, i, xpos, Skyline.FindMinY(state.sky, i, xpos, aw), b0) && Matches(c, b)
    {
      c := c0;
      HeightIs(state.sky, width, height, i, xpos);
      var y, waste := FindMinY(node, xpos, aw, i);
      b := WeighRight(state, h, i, xpos, Skyline.FindMinY(state.sky, i, xpos, aw), b0);
      if y + h <= height {
        if y <= c.y {
          if y < c.y || waste < c.waste || (waste == c.waste && xpos < c.x) {
            c := Candidate(true, prev, xpos, y, waste);
          }
        }
      }
    }

    /** The first node that leaves room for the span to its left. */
    method FirstTail(aw: int, h: int, ghost b: Best) returns (tail: Node, ghost t: nat)
      requires Valid() && 0 < aw <= width
      ensures t < |active| && tail == active[t] && aw <= tail.x
      ensures RightPass(state, aw, h, 0, b) == RightPass(state, aw, h, t, b)
    {
      tail, t := activeHead, 0;
      while tail.x < aw
        invariant t < |active| && tail == active[t]
        invariant RightPass(state, aw, h, 0, b) == RightPass(state, aw, h, t, b)
        decreases |active| - t
      {
        assert Link(active, t);
        tail := tail.next;
        t := t + 1;
      }
    }

    /** The search is at tail t, and the node under its left edge is the one at i or to the right of it. */
    ghost predicate Searching(tail: Node?, t: nat, node: Node, prev: Node?, i: nat, aw: int)
      reads this, active, free
      requires Valid()
    {
      && t <= |active| && tail == (if t < |active| then active[t] else null)
      && i + 1 < |active| && node == active[i] && LeadsTo(prev, i)
      && 0 <= node.x && (t < |active| ==> node.x <= active[t].x - aw)
    }

    /** One round of the right search: the span that ends at the tail. */
    method RightRound(tail: Node, node0: Node, prev0: Node?, aw: int, h: int, c0: Candidate,
                      ghost t: nat, ghost i0: nat, ghost b0: Best)
      returns (node: Node, prev: Node?, c: Candidate, ghost i: nat, ghost b: Best)
      requires Valid() && 0 < aw && Matches(c0, b0) && Searching(tail, t, node0, prev0, i0, aw)
      ensures Searching(tail, t, node, prev, i, aw)
      ensures RightPass(state, aw, h, t, b0) == RightPass(state, aw, h, t + 1, b) && Matches(c, b)
    {
      var xpos := tail.x - aw;
      assert Before(state.sky, t, |active| - 1);
      node, prev, i := Advance(node0, prev0, xpos, i0);
      assert Before(state.sky, 0, i);
      c, b := TryRight(node, prev, xpos, aw, h, c0, i, b0);
    }

    method NextTail(tail: Node, ghost t: nat, node: Node, ghost prev: Node?, ghost i: nat, aw: int)
      returns (tail': Node?)
      requires Valid() && Searching(tail, t, node, prev, i, aw)
      ensures Searching(tail', t + 1, node, prev, i, aw)
    {
      assert Link(active, t) && Before(state.sky, t, t + 1);
      tail' := tail.next;
    }

    /** A round, and on to the next tail. */
    method RightStep(tail: Node, node0: Node, prev0: Node?, aw: int, h: int, c0: Candidate,
                     ghost t: nat, ghost i0: nat, ghost b0: Best)
      returns (tail': Node?, node: Node, prev: Node?, c: Candidate, ghost i: nat, ghost b: Best)
      requires Valid() && 0 < aw && Matches(c0, b0) && Searching(tail, t, node0, prev0, i0, aw)
      ensures Searching(tail', t + 1, node, prev, i, aw) && Matches(c, b)
      ensures RightPass(state, aw, h, t, b0) == RightPass(state, aw, h, t + 1, b)
    {
      node, prev, c, i, b := RightRound(tail, node0, prev0, aw, h, c0, t, i0, b0);
      tail' := NextTail(tail, t, node, prev, i, aw);
    }

    /** Tries the right edge of the span at every node that leaves room for it. */
    method SearchRight(aw: int, h: int, c0: Candidate, ghost b0: Best) returns (c: Candidate, ghost b: Best)
      requires Valid() && 0 < aw <= width && Matches(c0, b0)
      ensures b == RightPass(state, aw, h, 0, b0) && Matches(c, b)
    {
      c, b := c0, b0;
      ghost var i: nat, goal := 0, RightPass(state, aw, h, 0, b0);
      var tail: Node?;
      ghost var t: nat;
      tail, t := FirstTail(aw, h, b0);
      var node, prev: Node? := activeHead, null;
      while tail != null
        invariant Searching(tail, t, node, prev, i, aw)
        invariant goal == RightPass(state, aw, h, t, b) && Matches(c, b)
        decreases |active| - t
      {
        tail, node, prev, c, i, b := RightStep(tail, node, prev, aw, h, c, t, i, b);
        t := t + 1;
      }
    }

    method SearchBoth(aw: int, h: int) returns (c: Candidate, ghost b: Best)
      requires Valid() && 0 < aw
      ensures b == Search(state, aw, h) && Matches(c, Search(state, aw, h))
    {
      if aw > width || h > height {
        return Candidate(false, null, 0, 0, SENTINEL_Y), NO_BEST.(y := 0);
      }
      c, b := SearchLeft(aw, h);
      if heuristic.BestFit? {
        c, b := SearchRight(aw, h, c, b);
      }
    }

    method FindBestPos(w: int, h: int) returns (c: Candidate, ghost b: Best)
      requires Valid() && 0 < w && 0 < h
      ensures b == FindBest(state, w, h) && Matches(c, FindBest(state, w, h))
    {
      c, b := SearchBoth(Aligned(w, align), h);
    }

    /** The nodes from keep to j are on the free list; the list goes on at j as it was. */
    ghost predicate Freeing(cur: Node, a: seq<Node>, sky: seq<Seg>, keep: nat, j: nat, f: seq<Node>)
      reads this, a, if keep <= j <= |a| then Pushed(a, keep, j, f) else []
    {
      && keep <= j < |a| && cur == a[j] && Shows(a, sky)
      && (forall i :: j <= i ==> Link(a, i))
      && Free(freeHead, Pushed(a, keep, j, f))
    }

    method FreeOne(cur: Node, ghost a: seq<Node>, ghost sky: seq<Seg>, ghost keep: nat, ghost j: nat,
                   ghost f: seq<Node>)
      returns (next: Node)
      requires Freeing(cur, a, sky, keep, j, f) && j + 1 < |a|
      requires (forall i, j :: Before(sky, i, j)) && Apart(a, f)
      modifies this`freeHead, cur`next
      ensures Freeing(next, a, sky, keep, j + 1, f)
    {
      PushedIsNew(a, sky, keep, j, f);
      assert Link(a, j);
      next := cur.next;
      PushCur(cur, a, sky, j, Pushed(a, keep, j, f));
    }

    /** Moves the nodes from cur on that end at or before column right to the free list. */
    method FreeCovered(cur0: Node, right: int, ghost a: seq<Node>, ghost sky: seq<Seg>, ghost keep: nat,
                       ghost f: seq<Node>)
      returns (cur: Node, ghost j: nat)
      requires keep < |a| && cur0 == a[keep] && Shows(a, sky) && (forall i, j :: Before(sky, i, j))
      requires forall i :: keep <= i ==> Link(a, i)
      requires Free(freeHead, f) && Apart(a, f)
      modifies this`freeHead, a[keep..]
      ensures j == SkipTo(sky, keep, right) && cur == a[j]
      ensures Shows(a, sky) && (forall i :: j <= i ==> Link(a, i))
      ensures Free(freeHead, Pushed(a, keep, j, f))
    {
      cur, j := cur0, keep;
      assert Link(a, keep);
      while cur.next != null && cur.next.x <= right
        invariant Freeing(cur, a, sky, keep, j, f) && SkipTo(sky, keep, right) == SkipTo(sky, j, right)
        invariant Link(a, j)
        decreases |a| - j
      {
        cur := FreeOne(cur, a, sky, keep, j, f);
        j := j + 1;
        assert Link(a, j);
      }
    }

    method PushCur(cur: Node, ghost a: seq<Node>, ghost sky: seq<Seg>, ghost j: nat, ghost f: seq<Node>)
      requires j < |a| && cur == a[j] && Shows(a, sky) && (forall i, j :: Before(sky, i, j))
      requires forall i :: j <= i ==> Link(a, i)
      requires Free(freeHead, f) && cur !in f
      modifies this`freeHead, cur`next
      ensures Free(freeHead, [cur] + f) && forall i :: j < i ==> Link(a, i)
    {
      cur.next := freeHead;
      freeHead := cur;
      forall i | j < i ensures Link(a, i) {
        assert old(Link(a, i));
        if i < |a| { ColumnsDiffer(a, sky, i, j); }
      }
      assert ([cur] + f)[1..] == f;
    }

    /** Puts the new node behind the elements that stay; cur is the first of the others. */
    method LinkIn(prev: Node?, x: int, node: Node, ghost k: nat) returns (cur: Node, ghost keep: nat)
      requires Shows(active, state.sky) && (forall i, j :: Before(state.sky, i, j)) && (forall i :: Link(active, i))
      requires LeadsTo(prev, k) && k + 1 < |active| && activeHead == active[0] && node !in active
      modifies this`activeHead, active
      ensures keep == Kept(state.sky, k, x) && keep < |active| && cur == active[keep]
      ensures Shows(active, state.sky) && forall i: int :: i + 1 != keep ==> Link(active, i)
      ensures activeHead == (if keep == 0 then node else active[0]) && (keep > 0 ==> active[keep - 1].next == node)
    {
      keep := Kept(state.sky, k, x);
      assert Link(active, k - 1) && Link(active, k);
      cur := if prev == null then activeHead else prev.next;
      if cur.x < x {
        var next := cur.next;
        cur.next := node;
        cur := next;
      } else if prev == null {
        activeHead := node;
      } else {
        prev.next := node;
      }
      forall i: int | i + 1 != keep ensures Link(active, i) {
        assert old(Link(active, i));
        if 0 <= i < |active| && keep > 0 { ColumnsDiffer(active, state.sky, i, keep - 1); }
      }
    }

    /** Links the new node to the first one that was not freed. */
    method LinkRest(node: Node, cur: Node, ghost a: seq<Node>, ghost keep: nat, ghost j: nat, ghost f: seq<Node>)
      requires keep <= j < |a| && cur == a[j] && (keep > 0 ==> a[keep - 1].next == node)
      requires forall i: int :: i + 1 < keep || j <= i ==> Link(a, i)
      requires Free(freeHead, f) && node !in a && node !in f
      modifies node`next
      ensures (forall i :: Link(Spliced(a, node, keep, j), i)) && Free(freeHead, f)
    {
      node.next := cur;
      forall m: int | m + 1 < keep || j <= m ensures Link(a, m) { assert old(Link(a, m)); }
      forall i ensures Link(Spliced(a, node, keep, j), i) { SplicedIsLinked(a, node, keep, j, i); }
    }

    /** Cuts the first node that was not freed off at the new one's right end. */
    method CutOff(node: Node, cur: Node, x: int, y: int, w: int, ghost a: seq<Node>, ghost sky: seq<Seg>, ghost k: nat,
                  ghost j: nat,
                  ghost f: seq<Node>)
      requires k + 1 < |a| && Shows(a, sky) && (forall i, j :: Before(sky, i, j)) && node !in a && node.x == x
               && node.y == y
      requires j == SkipTo(sky, Kept(sky, k, x), x + w) && cur == a[j] && cur !in f
      requires (forall i :: Link(Spliced(a, node, Kept(sky, k, x), j), i)) && Free(freeHead, f)
      modifies cur`x
      ensures (forall i :: Link(Spliced(a, node, Kept(sky, k, x), j), i)) && Free(freeHead, f)
      ensures Shows(Spliced(a, node, Kept(sky, k, x), j), Insert(sky, k, x, w, y))
    {
      ghost var keep := Kept(sky, k, x);
      ghost var r := Spliced(a, node, keep, j);
      forall i: nat | i < |a| && i != j ensures a[i] != cur { ColumnsDiffer(a, sky, i, j); }
      if cur.x < x + w {
        cur.x := x + w;
      }
      forall i ensures Link(r, i) { assert old(Link(r, i)); }
      forall i: nat | i < |r|
        ensures var s := Insert(sky, k, x, w, y)[i]; r[i].x == s.x && r[i].y == s.y
      {
        InsertAt(sky, k, x, w, y, i);
      }
    }

    /** Frees the nodes the new one covers; the elements that stay and the rest keep their links. */
    method Uncover(node: Node, cur0: Node, right: int, ghost a: seq<Node>, ghost sky: seq<Seg>, ghost keep: nat,
                   ghost f: seq<Node>)
      returns (cur: Node, ghost j: nat)
      requires keep < |a| && Shows(a, sky) && (forall i, j :: Before(sky, i, j))
      requires cur0 == a[keep] && (keep > 0 ==> a[keep - 1].next == node)
               && forall i: int :: i + 1 != keep ==> Link(a, i)
      requires Free(freeHead, f) && Apart(a, f)
      modifies this`freeHead, a[keep..]
      ensures j == SkipTo(sky, keep, right) && cur == a[j] && Shows(a, sky)
      ensures (keep > 0 ==> a[keep - 1].next == node) && forall i: int :: i + 1 < keep || j <= i ==> Link(a, i)
      ensures Free(freeHead, Pushed(a, keep, j, f))
    {
      forall i: nat | i < keep ensures a[i] !in a[keep..] { PrefixIsOutside(a, sky, i, keep); }
      cur, j := FreeCovered(cur0, right, a, sky, keep, f);
      forall i: int | i + 1 < keep ensures Link(a, i) { assert old(Link(a, i)); }
    }

    /** Frees the nodes the new one covers and links it to the rest. */
    method Relink(node: Node, cur0: Node, x: int, y: int, w: int,
                  ghost a: seq<Node>, ghost sky: seq<Seg>, ghost k: nat, ghost keep: nat, ghost f: seq<Node>)
      returns (ghost j: nat)
      requires k + 1 < |a| && Shows(a, sky) && (forall i, j :: Before(sky, i, j)) && keep == Kept(sky, k, x)
      requires cur0 == a[keep] && (keep > 0 ==> a[keep - 1].next == node)
               && forall i: int :: i + 1 != keep ==> Link(a, i)
      requires Free(freeHead, f) && Apart(a, f) && node !in a && node !in f && node.x == x && node.y == y
      modifies this`freeHead, a, node`next
      ensures j == SkipTo(sky, keep, x + w)
      ensures (forall i :: Link(Spliced(a, node, keep, j), i)) && Free(freeHead, Pushed(a, keep, j, f))
      ensures Shows(Spliced(a, node, keep, j), Insert(sky, k, x, w, y))
    {
      assert forall n :: n in a[keep..] ==> n in a;
      var cur;
      cur, j := Uncover(node, cur0, x + w, a, sky, keep, f);
      PushedIsNew(a, sky, keep, j, f);
      NotPushed(a, keep, j, f, node);
      LinkRest(node, cur, a, keep, j, Pushed(a, keep, j, f));
      CutOff(node, cur, x, y, w, a, sky, k, j, Pushed(a, keep, j, f));
    }

    /** After relinking, both lists are as they should be. */
    method Stitch(node: Node, cur0: Node, x: int, y: int, w: int,
                  ghost a: seq<Node>, ghost sky: seq<Seg>, ghost k: nat, ghost keep: nat, ghost f: seq<Node>)
      returns (ghost j: nat)
      requires k + 1 < |a| && Shows(a, sky) && (forall i, j :: Before(sky, i, j)) && keep == Kept(sky, k, x)
      requires cur0 == a[keep] && (keep > 0 ==> a[keep - 1].next == node)
               && forall i: int :: i + 1 != keep ==> Link(a, i)
      requires activeHead == if keep == 0 then node else a[0]
      requires Free(freeHead, f) && Apart(a, f) && node !in a && node !in f && node.x == x && node.y == y
      modifies this`freeHead, a, node`next
      ensures j == SkipTo(sky, keep, x + w)
      ensures Listed(activeHead, freeHead, Spliced(a, node, keep, j), Pushed(a, keep, j, f), Insert(sky, k, x, w, y))
    {
      AllDistinct(a, sky);
      j := Relink(node, cur0, x, y, w, a, sky, k, keep, f);
      SplicedIsApart(a, node, f, keep, j);
    }

    /** Takes the first free node and sets it to the top of the new box. */
    method TakeNode(x: int, y: int) returns (node: Node)
      requires Lists() && freeHead != null
      modifies this`freeHead, free
      ensures |free| > 0 && node == free[0] && node.x == x && node.y == y
      ensures node !in active && node !in free[1..] && Free(freeHead, free[1..]) && Apart(active, free[1..])
      ensures Shows(active, state.sky) && (forall i :: Link(active, i)) && activeHead == active[0]
    {
      node := freeHead;
      node.x, node.y := x, y;
      freeHead := node.next;
      forall i ensures Link(active, i) { assert old(Link(active, i)); }
    }

    method TakeAndLink(prev: Node?, x: int, y: int, ghost k: nat) returns (node: Node, cur: Node, ghost keep: nat)
      requires Lists() && (forall i, j :: Before(state.sky, i, j))
      requires LeadsTo(prev, k) && k + 1 < |active| && freeHead != null
      modifies this`activeHead, this`freeHead, active, free
      ensures |free| > 0 && node == free[0] && node.x == x && node.y == y
      ensures node !in active && node !in free[1..] && Free(freeHead, free[1..]) && Apart(active, free[1..])
      ensures keep == Kept(state.sky, k, x) && keep < |active| && cur == active[keep]
      ensures Shows(active, state.sky) && forall i: int :: i + 1 != keep ==> Link(active, i)
      ensures activeHead == (if keep == 0 then node else active[0]) && (keep > 0 ==> active[keep - 1].next == node)
    {
      node := TakeNode(x, y);
      cur, keep := LinkIn(prev, x, node, k);
    }

    /** Everything the surgery gives: the lists are spliced, and the skyline they show is the inserted one. */
    method InsertNode(prev: Node?, x: int, y: int, w: int, ghost k: nat) returns (ghost keep: nat, ghost j: nat)
      requires Lists() && (forall i, j :: Before(state.sky, i, j))
      requires LeadsTo(prev, k) && k + 1 < |active| && freeHead != null
      modifies this`activeHead, this`freeHead, active, free
      ensures keep == Kept(state.sky, k, x) && j == SkipTo(state.sky, keep, x + w) && |free| > 0
      ensures Listed(activeHead, freeHead, Spliced(active, free[0], keep, j), Pushed(active, keep, j, free[1..]),
                     Insert(state.sky, k, x, w, y))
    {
      var node, cur;
      node, cur, keep := TakeAndLink(prev, x, y, k);
      j := Stitch(node, cur, x, y, w, active, state.sky, k, keep, free[1..]);
    }

    ghost method Relabel(a: seq<Node>, f: seq<Node>, sky: seq<Seg>)
      requires Listed(activeHead, freeHead, a, f, sky)
      modifies this`active, this`free, this`state
      ensures Lists() && active == a && free == f && state == old(state).(sky := sky, free := |f|)
    {
      active, free := a, f;
      state := state.(sky := sky, free := |f|);
    }

    /** Carries out the insertion: the lists show the new skyline, and the nodes are the same. */
    method PlaceNode(prev: Node?, x: int, y: int, w: int, ghost k: nat)
      requires Lists() && (forall i, j :: Before(state.sky, i, j))
      requires LeadsTo(prev, k) && k + 1 < |active| && freeHead != null
      modifies this`activeHead, this`freeHead, this`active, this`free, this`state, active, free
      ensures Lists() && state == old(state).(sky := Insert(old(state.sky), k, x, w, y), free := |free|)
      ensures |active| + |free| == old(|active| + |free|)
      ensures Within(active, free, old(active), old(free))
    {
      ghost var keep, j := InsertNode(prev, x, y, w, k);
      OnlyOldNodes(active, free, keep, j);
      Relabel(Spliced(active, free[0], keep, j), Pushed(active, keep, j, free[1..]), Insert(state.sky, k, x, w, y));
    }

    /** Carries out a successful step whose result as a value is p'. */
    method PlaceBox(c: Candidate, w: int, h: int, ghost k: nat, ghost p': Packer)
      requires Valid() && LeadsTo(c.prev, k) && k + 1 < |active| && freeHead != null
      requires p' == state.(sky := Insert(state.sky, k, c.x, w, c.y + h), free := p'.free)
               && |p'.sky| + p'.free == numNodes + 2
      requires Holds(p', boxes + [Box(c.x, c.y, w, h)])
      modifies this, active, free
      ensures Valid() && state == p' && boxes == old(boxes) + [Box(c.x, c.y, w, h)]
      ensures Within(active, free, old(active), old(free))
    {
      PlaceNode(c.prev, c.x, c.y + h, w, k);
      assert state == p';
      boxes := boxes + [Box(c.x, c.y, w, h)];
    }

    /** Takes the position found, unless it does not fit or no node is free. */
    method Take(c: Candidate, w: int, h: int, ghost b: Best) returns (r: Option<Pos>)
      requires Valid() && Matches(c, b) && (b.found ==> b.k + 1 < |active|)
      requires HoldsAfter(PackAt(state, b, w, h), boxes, w, h)
      modifies this, active, free
      ensures Valid() && (state, r) == PackAt(old(state), b, w, h) && boxes == With(old(boxes), r, w, h)
      ensures Within(active, free, old(active), old(free))
    {
      if !c.found || c.y + h > height || freeHead == null {
        r := None;
      } else {
        r := Some(Pos(c.x, c.y));
        PlaceBox(c, w, h, b.k, PackAt(state, b, w, h).0);
      }
    }

    /** Packs one non-empty rectangle. On success its box joins the boxes packed so far, which stay disjoint, inside
        the target and below the skyline. */
    method PackRectangle(w: int, h: int) returns (r: Option<Pos>)
      requires Valid() && 0 < w && 0 < h
      modifies this, active, free
      ensures Valid() && (state, r) == Pack(old(state), w, h) && boxes == With(old(boxes), r, w, h)
      ensures Within(active, free, old(active), old(free))
    {
      var c, b := FindBestPos(w, h);
      PackIsPackAt(state, boxes, w, h);
      r := Take(c, w, h, b);
    }

    lemma OnlyOldNodes(a: seq<Node>, f: seq<Node>, keep: nat, j: nat)
      requires keep <= j < |a| && 0 < |f|
      ensures Within(Spliced(a, f[0], keep, j), Pushed(a, keep, j, f[1..]), a, f)
    {
      forall n | n in Pushed(a, keep, j, f[1..]) ensures n in a + f { PushedFrom(a, keep, j, f[1..], n); }
    }
  }
}