/** Delivery of text to a reader in the console's code page, in chunks as large as the reader asks for. */
module InputText {
  import opened Basics
  import opened Wide

  /** The code page: what a single unit or a surrogate pair converts to, never nothing. */
  datatype CodePage = CodePage(one: wchar -> seq<byte>, two: (wchar, wchar) -> seq<byte>) {
    ghost predicate Ok() {
      (forall c: wchar :: |one(c)| > 0) && (forall c: wchar, d: wchar :: |two(c, d)| > 0)
    }
  }

  /** A surrogate pair starts at unit i. */
  predicate PairAt(s: wstring, i: nat) {
    i + 1 < |s| && IsLeading(s[i]) && IsTrailing(s[i + 1])
  }

  /** Number of units of the code point at unit i. */
  function ItemLen(s: wstring, i: nat): (n: nat)
    requires i < |s|
    ensures 1 <= n <= 2 && i + n <= |s|
  {
    if PairAt(s, i) then 2 else 1
  }

  /** The bytes of the code point at unit i; a surrogate on its own is replaced. */
  function ItemBytes(cp: CodePage, s: wstring, i: nat): seq<byte>
    requires i < |s|
  {
    if PairAt(s, i) then cp.two(s[i], s[i + 1])
    else if IsSurrogate(s[i]) then cp.one(0xFFFD)
    else cp.one(s[i])
  }

  /** The conversion of the text from unit i on. */
  function ConvFrom(cp: CodePage, s: wstring, i: nat): seq<byte>
    requires i <= |s|
    decreases |s| - i
  {
    if i == |s| then [] else ItemBytes(cp, s, i) + ConvFrom(cp, s, i + ItemLen(s, i))
  }

  /** What is left to deliver: the bytes that did not fit last time, then the rest of the text. */
  function Pending(cp: CodePage, cached: seq<byte>, s: wstring, i: nat): seq<byte>
    requires i <= |s|
  {
    cached + ConvFrom(cp, s, i)
  }

  // -- One call ---------------------------------------------------------------------------------------------

  datatype Delivery = Delivery(bytes: seq<byte>, cached: seq<byte>, pos: nat)

  /** The slow path, code point by code point while there is room: the bytes delivered and cached, and how many
      code points and how many units were used. */
  datatype Slow = Slow(bytes: seq<byte>, cached: seq<byte>, items: nat, units: nat)

  function SlowFrom(cp: CodePage, s: wstring, i: nat, room: nat): (r: Slow)
    requires i <= |s|
    ensures r.items <= r.units && i + r.units <= |s|
    decreases |s| - i
  {
    if i == |s| || room == 0 then Slow([], [], 0, 0)
    else
      var b := ItemBytes(cp, s, i);
      if room <= |b| then Slow(b[..room], b[room..], 1, ItemLen(s, i))
      else
        var r := SlowFrom(cp, s, i + ItemLen(s, i), room - |b|);
        Slow(b + r.bytes, r.cached, 1 + r.items, ItemLen(s, i) + r.units)
  }

  /** A call without cached bytes. The position moves by one per code point in the slow path. */
  function ConsumeFresh(cp: CodePage, s: wstring, i: nat, room: nat): (r: Delivery)
    requires i <= |s|
    ensures r.pos <= |s|
  {
    if i == |s| || room == 0 then Delivery([], [], i)
    else if |ConvFrom(cp, s, i)| <= room then Delivery(ConvFrom(cp, s, i), [], |s|)
    else
      var r := SlowFrom(cp, s, i, room);
      Delivery(r.bytes, r.cached, i + r.items)
  }

  function Consume(cp: CodePage, cached: seq<byte>, s: wstring, i: nat, room: nat): (r: Delivery)
    requires i <= |s|
    ensures r.pos <= |s|
  {
    if room <= |cached| then Delivery(cached[..room], cached[room..], i)
    else
      var r := ConsumeFresh(cp, s, i, room - |cached|);
      r.(bytes := cached + r.bytes)
  }

  /** What the slow path reports. */
  ghost predicate Slowly(all: Slow, bytes: seq<byte>, left: seq<byte>, read: nat) {
    bytes == all.bytes && left == all.cached && read == all.items
  }

  /** The slow path has come to unit i. */
  ghost predicate SlowSoFar(cp: CodePage, s: wstring, all: Slow, bytes: seq<byte>, read: nat, i: nat, room: nat) {
    i <= |s| && var r := SlowFrom(cp, s, i, room);
    all.bytes == bytes + r.bytes && all.cached == r.cached && all.items == read + r.items
  }

  lemma SlowNext(cp: CodePage, s: wstring, all: Slow, bytes: seq<byte>, read: nat, i: nat, room: nat)
    requires SlowSoFar(cp, s, all, bytes, read, i, room) && i < |s| && room > 0
    ensures var b := ItemBytes(cp, s, i);
            if room <= |b| then Slowly(all, bytes + b[..room], b[room..], read + 1)
            else SlowSoFar(cp, s, all, bytes + b[..|b|], read + 1, i + ItemLen(s, i), room - |b|)
  {
    var b := ItemBytes(cp, s, i);
    assert b[..|b|] == b;
    if room > |b| { Associative(bytes, b, SlowFrom(cp, s, i + ItemLen(s, i), room - |b|).bytes); }
  }

  lemma SlowEnds(cp: CodePage, s: wstring, all: Slow, bytes: seq<byte>, read: nat, i: nat, room: nat)
    requires SlowSoFar(cp, s, all, bytes, read, i, room) && i == |s|
    ensures Slowly(all, bytes, [], read)
  {
    assert bytes + [] == bytes;
  }

  /** What r delivers of the conversion from unit i on: its first room bytes; with what it caches and the text after
      the units it used, nothing is lost. */
  ghost predicate DeliversFrom(cp: CodePage, s: wstring, i: nat, room: nat, r: Slow)
    requires i <= |s|
  {
    var all := ConvFrom(cp, s, i);
    && room <= |all| && i + r.units <= |s|
    && r.bytes == all[..room] && r.cached + ConvFrom(cp, s, i + r.units) == all[room..]
  }

  lemma SlowAddsItem(cp: CodePage, s: wstring, i: nat, room: nat, b: seq<byte>, j: nat, r: Slow)
    requires i < |s| && b == ItemBytes(cp, s, i) && j == i + ItemLen(s, i) && room > |b|
    requires DeliversFrom(cp, s, j, room - |b|, r)
    ensures DeliversFrom(cp, s, i, room, Slow(b + r.bytes, r.cached, 1 + r.items, ItemLen(s, i) + r.units))
  {
    CutConcat(b, ConvFrom(cp, s, j), room);
    assert i + (ItemLen(s, i) + r.units) == j + r.units;
  }

  lemma SlowCutsItem(cp: CodePage, s: wstring, i: nat, room: nat, b: seq<byte>)
    requires i < |s| && b == ItemBytes(cp, s, i) && room <= |b|
    ensures DeliversFrom(cp, s, i, room, Slow(b[..room], b[room..], 1, ItemLen(s, i)))
  {
    CutConcat(b, ConvFrom(cp, s, i + ItemLen(s, i)), room);
  }

  lemma SlowTakesNothing(cp: CodePage, s: wstring, i: nat)
    requires i <= |s|
    ensures DeliversFrom(cp, s, i, 0, Slow([], [], 0, 0))
  {
    assert [] + ConvFrom(cp, s, i) == ConvFrom(cp, s, i)[0..];
  }

  lemma SlowItem(cp: CodePage, s: wstring, i: nat, room: nat, b: seq<byte>, j: nat)
    requires i < |s| && room > 0 && b == ItemBytes(cp, s, i) && j == i + ItemLen(s, i)
    requires room > |b| ==> DeliversFrom(cp, s, j, room - |b|, SlowFrom(cp, s, j, room - |b|))
    ensures DeliversFrom(cp, s, i, room, SlowFrom(cp, s, i, room))
  {
    if room > |b| {
      SlowAddsItem(cp, s, i, room, b, j, SlowFrom(cp, s, j, room - |b|));
    } else {
      SlowCutsItem(cp, s, i, room, b);
    }
  }

  lemma {:induction false} SlowDelivers(cp: CodePage, s: wstring, i: nat, room: nat)
    requires i <= |s| && room <= |ConvFrom(cp, s, i)|
    ensures DeliversFrom(cp, s, i, room, SlowFrom(cp, s, i, room))
    decreases |s| - i
  {
    if room == 0 {
      SlowTakesNothing(cp, s, i);
    } else {
      var b, j := ItemBytes(cp, s, i), i + ItemLen(s, i);
      if room > |b| { SlowDelivers(cp, s, j, room - |b|); }
      SlowItem(cp, s, i, room, b, j);
    }
  }

  /** The slow path delivers the first room bytes of the conversion; with what it caches and the text after the
      units it used, nothing is lost. */
  lemma SlowIsPrefix(cp: CodePage, s: wstring, i: nat, room: nat)
    requires i <= |s| && room <= |ConvFrom(cp, s, i)|
    ensures var r, all := SlowFrom(cp, s, i, room), ConvFrom(cp, s, i);
            r.bytes == all[..room] && r.cached + ConvFrom(cp, s, i + r.units) == all[room..]
  {
    SlowDelivers(cp, s, i, room);
  }

  lemma CutConcat(b: seq<byte>, rest: seq<byte>, n: nat)
    requires n <= |b + rest|
    ensures n > |b| ==> (b + rest)[..n] == b + rest[..n - |b|] && (b + rest)[n..] == rest[n - |b|..]
    ensures n <= |b| ==> (b + rest)[..n] == b[..n] && (b + rest)[n..] == b[n..] + rest
  {
  }

  /** A call is faithful: it delivers the first bytes pending, as many as there is room for, and leaves the rest
      pending. */
  ghost predicate Faithful(cp: CodePage, cached: seq<byte>, s: wstring, i: nat, room: nat)
    requires i <= |s|
  {
    var r, p := Consume(cp, cached, s, i, room), Pending(cp, cached, s, i);
    var n := Min(room, |p|);
    r.bytes == p[..n] && Pending(cp, r.cached, s, r.pos) == p[n..]
  }

  /** The slow path is taken for what is left of the room after the cached bytes. */
  predicate TakesSlowPath(cp: CodePage, cached: seq<byte>, s: wstring, i: nat, room: nat)
    requires i <= |s|
  {
    |cached| < room < |cached| + |ConvFrom(cp, s, i)|
  }

  /** A surrogate pair is among the code points that fill the room. */
  predicate PairTaken(cp: CodePage, s: wstring, i: nat, room: nat)
    requires i <= |s|
    decreases |s| - i
  {
    i < |s| && room > 0 &&
    (PairAt(s, i) ||
     (|ItemBytes(cp, s, i)| < room && PairTaken(cp, s, i + ItemLen(s, i), room - |ItemBytes(cp, s, i)|)))
  }

  lemma {:induction false} PairTakenIff(cp: CodePage, s: wstring, i: nat, room: nat)
    requires i <= |s|
    ensures PairTaken(cp, s, i, room) <==> SlowFrom(cp, s, i, room).items < SlowFrom(cp, s, i, room).units
    decreases |s| - i
  {
    if i >= |s| || room <= |ItemBytes(cp, s, i)| {
    } else {
      PairTakenIff(cp, s, i + ItemLen(s, i), room - |ItemBytes(cp, s, i)|);
    }
  }

  /** Unit j is not the second half of a pair. */
  predicate Boundary(s: wstring, j: nat) { j == 0 || !PairAt(s, j - 1) }

  lemma {:induction false} SlowEndsAtBoundary(cp: CodePage, s: wstring, i: nat, room: nat)
    requires i < |s| && room > 0
    ensures SlowFrom(cp, s, i, room).units > 0 && Boundary(s, i + SlowFrom(cp, s, i, room).units)
    decreases |s| - i
  {
    var b, j := ItemBytes(cp, s, i), i + ItemLen(s, i);
    if room <= |b| || j >= |s| {
    } else {
      SlowEndsAtBoundary(cp, s, j, room - |b|);
    }
  }

  /** Starting earlier leaves more to convert. */
  lemma {:induction false} EarlierIsLonger(cp: CodePage, s: wstring, i: nat, j: nat)
    requires cp.Ok() && i < j <= |s| && Boundary(s, j)
    ensures |ConvFrom(cp, s, i)| > |ConvFrom(cp, s, j)|
    decreases j - i
  {
    if i + ItemLen(s, i) >= j {
    } else {
      EarlierIsLonger(cp, s, i + ItemLen(s, i), j);
    }
  }

  /** A call is faithful unless, and only unless, it takes the slow path over a surrogate pair. */
  lemma FaithfulIff(cp: CodePage, cached: seq<byte>, s: wstring, i: nat, room: nat)
    requires cp.Ok() && i <= |s|
    ensures Faithful(cp, cached, s, i, room) <==>
            !(TakesSlowPath(cp, cached, s, i, room) && PairTaken(cp, s, i, room - |cached|))
  {
    var p := Pending(cp, cached, s, i);
    if room <= |cached| {
      assert p[..room] == cached[..room] && p[room..] == cached[room..] + ConvFrom(cp, s, i);
    } else {
      FreshIsFaithfulIff(cp, cached, s, i, room - |cached|);
    }
  }

  lemma FreshIsFaithfulIff(cp: CodePage, cached: seq<byte>, s: wstring, i: nat, room: nat)
    requires cp.Ok() && i <= |s| && room > 0
    ensures var r, all := ConsumeFresh(cp, s, i, room), ConvFrom(cp, s, i);
            var n := Min(room, |all|);
            && r.bytes == all[..n]
            && (r.cached + ConvFrom(cp, s, r.pos) == all[n..] <==> !(room < |all| && PairTaken(cp, s, i, room)))
  {
    var all := ConvFrom(cp, s, i);
    if i < |s| && room < |all| {
      SlowIsFaithfulIff(cp, s, i, room);
    } else {
      assert all[..|all|] == all && all[|all|..] == [];
    }
  }

  lemma SlowIsFaithfulIff(cp: CodePage, s: wstring, i: nat, room: nat)
    requires cp.Ok() && i < |s| && 0 < room < |ConvFrom(cp, s, i)|
    ensures var r, all := SlowFrom(cp, s, i, room), ConvFrom(cp, s, i);
            && r.bytes == all[..room]
            && (r.cached + ConvFrom(cp, s, i + r.items) == all[room..] <==> !PairTaken(cp, s, i, room))
  {
    var r := SlowFrom(cp, s, i, room);
    SlowIsPrefix(cp, s, i, room);
    PairTakenIff(cp, s, i, room);
    SlowEndsAtBoundary(cp, s, i, room);
    if r.items < r.units { EarlierIsLonger(cp, s, i + r.items, i + r.units); }
  }

  // -- Any sequence of calls --------------------------------------------------------------------------------

  /** Calls with the given target sizes, one after the other: everything delivered, and what is left. */
  function ConsumeAll(cp: CodePage, cached: seq<byte>, s: wstring, i: nat, rooms: seq<nat>): (r: Delivery)
    requires i <= |s|
    ensures r.pos <= |s|
    decreases |rooms|
  {
    if rooms == [] then Delivery([], cached, i)
    else
      var d := Consume(cp, cached, s, i, rooms[0]);
      var r := ConsumeAll(cp, d.cached, s, d.pos, rooms[1..]);
      r.(bytes := d.bytes + r.bytes)
  }

  function Sum(rooms: seq<nat>): nat { if rooms == [] then 0 else rooms[0] + Sum(rooms[1..]) }

  ghost predicate NoPairs(s: wstring) { forall k: nat :: !PairAt(s, k) }

  lemma {:induction false} NoPairIsTaken(cp: CodePage, s: wstring, i: nat, room: nat)
    requires i <= |s| && NoPairs(s)
    ensures !PairTaken(cp, s, i, room)
    decreases |s| - i
  {
    if i >= |s| || |ItemBytes(cp, s, i)| >= room {
    } else {
      NoPairIsTaken(cp, s, i + ItemLen(s, i), room - |ItemBytes(cp, s, i)|);
    }
  }

  /** However the target sizes cut it, a text without surrogate pairs is delivered as its conversion. */
  lemma {:induction false} ChunksDoNotMatter(cp: CodePage, cached: seq<byte>, s: wstring, i: nat, rooms: seq<nat>)
    requires cp.Ok() && i <= |s| && NoPairs(s)
    ensures var r, p := ConsumeAll(cp, cached, s, i, rooms), Pending(cp, cached, s, i);
            var n := Min(Sum(rooms), |p|);
            r.bytes == p[..n] && Pending(cp, r.cached, s, r.pos) == p[n..]
    decreases |rooms|
  {
    var p := Pending(cp, cached, s, i);
    if rooms == [] {
    } else {
      var d := Consume(cp, cached, s, i, rooms[0]);
      if rooms[0] > |cached| { NoPairIsTaken(cp, s, i, rooms[0] - |cached|); }
      FaithfulIff(cp, cached, s, i, rooms[0]);
      ChunksDoNotMatter(cp, d.cached, s, d.pos, rooms[1..]);
      CutTwice(p, Min(rooms[0], |p|), Sum(rooms[1..]));
    }
  }

  lemma CutTwice(p: seq<byte>, a: nat, b: nat)
    requires a <= |p|
    ensures var q := p[a..]; var m, n := Min(b, |q|), Min(a + b, |p|);
            p[..a] + q[..m] == p[..n] && q[m..] == p[n..]
  {
  }

  lemma PairBytes(cp: CodePage, s: wstring, b: seq<byte>)
    requires |s| == 2 && PairAt(s, 0) && b == cp.two(s[0], s[1])
    ensures ConvFrom(cp, s, 0) == b && ConvFrom(cp, s, 1) == cp.one(0xFFFD)
  {
    assert b + [] == b && cp.one(0xFFFD) + [] == cp.one(0xFFFD);
    assert ConvFrom(cp, s, 2) == [];
  }

  /** A pair that converts to four bytes, read with a target of one byte: the next call delivers the other three and
      then a replacement for the second half of the pair, which it takes for a surrogate on its own. */
  lemma PairIsRepeated(cp: CodePage, s: wstring, a: byte, b: byte, c: byte, d: byte, room: nat)
    requires cp.Ok() && |s| == 2 && PairAt(s, 0) && cp.two(s[0], s[1]) == [a, b, c, d]
    requires room >= 3 + |cp.one(0xFFFD)|
    ensures !Faithful(cp, [], s, 0, 1) && Consume(cp, [], s, 0, 1) == Delivery([a], [b, c, d], 1)
    ensures Consume(cp, [b, c, d], s, 1, room).bytes == [b, c, d] + cp.one(0xFFFD)
  {
    PairBytes(cp, s, [a, b, c, d]);
    assert SlowFrom(cp, s, 0, 1) == Slow([a, b, c, d][..1], [a, b, c, d][1..], 1, 2);
    assert [] + [a] == [a];
    FaithfulIff(cp, [], s, 0, 1);
  }
}
