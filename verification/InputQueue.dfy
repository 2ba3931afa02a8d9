/** The input queue as a value: reads, peeks and writes, and whole runs of them. */
module InputQueue {
  import opened Basics
  import opened Wide
  import opened InputEvents

  /** The stored events, and the records already converted that did not fit into an earlier read. */
  datatype Queue = Queue(storage: seq<Event>, cached: seq<Event>)

  /** Everything still to be read, in order. */
  function Pending(v: View, q: Queue): seq<Event> {
    q.cached + ExpandAll(v, q.storage)
  }

  /** What a read or peek has gathered before it is trimmed to the amount asked for. */
  function Gathered(v: View, q: Queue, n: nat): (r: seq<Event>)
    ensures |r| >= Min(n, |q.cached|)
  {
    var c := Min(n, |q.cached|);
    q.cached[..c] + Taken(v, q.storage, n - c)
  }

  function Out(v: View, q: Queue, n: nat): (r: seq<Event>)
    ensures |r| <= n
  {
    var g := Gathered(v, q, n);
    g[..Min(n, |g|)]
  }

  function Extra(v: View, q: Queue, n: nat): seq<Event> {
    var g := Gathered(v, q, n);
    g[Min(n, |g|)..]
  }

  function AfterRead(v: View, q: Queue, n: nat): Queue {
    var c := Min(n, |q.cached|);
    Queue(Rest(v, q.storage, n - c), q.cached[c..] + Extra(v, q, n))
  }

  /** A peek leaves the storage alone, but caches what it trims, like a read. */
  function AfterPeek(v: View, q: Queue, n: nat): Queue {
    Queue(q.storage, q.cached + Extra(v, q, n))
  }

  lemma CutAt<T>(a: seq<T>, b: seq<T>, p: seq<T>, n: nat)
    requires a + b == p && (|a| >= n || b == [])
    ensures var k := Min(n, |p|); Min(n, |a|) == k && a[..k] == p[..k] && a[k..] + b == p[k..]
  {
    var k := Min(n, |p|);
    assert (a + b)[..k] == a[..k];
    assert (a + b)[k..] == a[k..] + b;
  }

  /** A read delivers the first n records pending, or all if there are fewer, and leaves the others pending. */
  lemma ReadIsPrefix(v: View, q: Queue, n: nat)
    ensures var p := Pending(v, q);
            var k := Min(n, |p|);
            Out(v, q, n) == p[..k] && Pending(v, AfterRead(v, q, n)) == p[k..]
  {
    if |q.cached| <= n {
      ReadBeyondCache(v, q, n);
    } else {
      ReadFromCache(v, q, n);
    }
  }

  lemma ReadFromCache(v: View, q: Queue, n: nat)
    requires n < |q.cached|
    ensures Out(v, q, n) == Pending(v, q)[..n] && Pending(v, AfterRead(v, q, n)) == Pending(v, q)[n..]
  {
    assert Taken(v, q.storage, 0) == [] && Gathered(v, q, n) == q.cached[..n];
    assert q.cached[n..] + [] == q.cached[n..];
    CutAt(q.cached, ExpandAll(v, q.storage), Pending(v, q), n);
  }

  lemma ReadBeyondCache(v: View, q: Queue, n: nat)
    requires |q.cached| <= n
    ensures var p := Pending(v, q);
            var k := Min(n, |p|);
            Out(v, q, n) == p[..k] && Pending(v, AfterRead(v, q, n)) == p[k..]
  {
    var room := n - |q.cached|;
    TakenIsEnough(v, q.storage, room);
    TakenAndRest(v, q.storage, room);
    Trim(q.cached, Taken(v, q.storage, room), ExpandAll(v, Rest(v, q.storage, room)), n);
  }

  lemma Trim<T>(cached: seq<T>, taken: seq<T>, rest: seq<T>, n: nat)
    requires |cached| <= n && (|cached + taken| >= n || rest == [])
    ensures var g, p := cached[..|cached|] + taken, cached + (taken + rest);
            var m, k := Min(n, |g|), Min(n, |p|);
            g[..m] == p[..k] && cached[|cached|..] + g[m..] + rest == p[k..]
  {
    var g := cached + taken;
    assert cached[..|cached|] == cached && cached[|cached|..] == [];
    Associative(cached, taken, rest);
    CutAt(g, rest, g + rest, n);
    assert [] + g[Min(n, |g|)..] == g[Min(n, |g|)..];
  }

  // -- Peeking ----------------------------------------------------------------------------------------------

  /** Read as Unicode, a peek changes nothing. */
  lemma UnicodePeekIsHarmless(v: View, q: Queue, n: nat)
    requires v.unicode
    ensures AfterPeek(v, q, n) == q
  {
    UnicodeNeverOvershoots(v, q.storage, n - Min(n, |q.cached|));
    assert Extra(v, q, n) == [];
    assert q.cached + [] == q.cached;
  }

  /** Every stored key converts to a single byte. */
  ghost predicate SingleBytes(v: View, q: seq<Event>) {
    forall i :: 0 <= i < |q| && q[i].Key? ==> |v.conv(q[i].ch)| == 1
  }

  lemma {:induction false} SingleBytesFit(v: View, q: seq<Event>, room: int)
    requires v.unicode || SingleBytes(v, q)
    ensures |Taken(v, q, room)| <= if room < 0 then 0 else room
    decreases |q|
  {
    if q == [] || room <= 0 {
    } else {
      if q[0].Key? { PushesFit(Unit(v, q[0]), Count(v, q[0]), room); }
      SingleBytesFit(v, q[1..], room - |TakenOf(v, q[0], room)|);
    }
  }

  /** With one record of room left when it comes to a key of several bytes, a read takes too much. */
  lemma {:induction false} WideKeyOvershoots(v: View, q: seq<Event>, i: nat)
    requires !v.unicode && v.Ok() && i < |q| && q[i].Key? && |v.conv(q[i].ch)| > 1
    requires forall j :: 0 <= j < i && q[j].Key? ==> |v.conv(q[j].ch)| == 1
    ensures exists room: nat :: |Taken(v, q, room)| > room
    decreases i
  {
    if i == 0 {
      WideUnit(v, q[0]);
      assert |Taken(v, q, 1)| > 1;
    } else {
      WideKeyOvershoots(v, q[1..], i - 1);
      var room: nat :| |Taken(v, q[1..], room)| > room;
      var n := |Expand(v, q[0])|;
      TakenWhole(v, q[0], n + room);
      assert Taken(v, q, n + room) == Expand(v, q[0]) + Taken(v, q[1..], room);
    }
  }

  lemma WideUnit(v: View, e: Event)
    requires !v.unicode && e.Key? && |v.conv(e.ch)| > 1
    ensures |TakenOf(v, e, 1)| > 1
  {
    assert Times(Unit(v, e), TakenTimes(v, e, 1)) == Unit(v, e) + Times(Unit(v, e), TakenTimes(v, e, 1) - 1);
  }

  lemma TakenWhole(v: View, e: Event, room: int)
    requires v.Ok() && room >= |Expand(v, e)|
    ensures |Expand(v, e)| > 0 && TakenOf(v, e, room) == Expand(v, e)
  {
    if e.Key? { PushesAll(Unit(v, e), Count(v, e), room); }
  }

  lemma {:induction false} PushesAll(u: seq<Event>, n: nat, room: int)
    requires n >= 1 && |u| >= 1 && room >= |Times(u, n)|
    ensures Pushes(u, n, room) == n && |Times(u, n)| > 0
    decreases n
  {
    if n <= 1 {
    } else {
      PushesAll(u, n - 1, room - |u|);
    }
  }

  lemma PeekSpills(v: View, q: Queue, n: nat)
    ensures AfterPeek(v, q, n) == q <==> |Taken(v, q.storage, n - Min(n, |q.cached|))| <= n - Min(n, |q.cached|)
  {
    var c := Min(n, |q.cached|);
    assert |Gathered(v, q, n)| == c + |Taken(v, q.storage, n - c)|;
    assert q.cached + [] == q.cached;
    assert |Extra(v, q, n)| > 0 ==> |q.cached + Extra(v, q, n)| > |q.cached|;
  }

  lemma PeekIsHarmless(v: View, q: Queue, n: nat)
    requires v.unicode || SingleBytes(v, q.storage)
    ensures AfterPeek(v, q, n) == q
  {
    PeekSpills(v, q, n);
    SingleBytesFit(v, q.storage, n - Min(n, |q.cached|));
  }

  lemma SomePeekSpills(v: View, q: Queue) returns (n: nat)
    requires v.Ok() && !v.unicode && !SingleBytes(v, q.storage)
    ensures AfterPeek(v, q, n) != q
  {
    var i := FirstWideKey(v, q.storage);
    WideKeyOvershoots(v, q.storage, i);
    var room: nat :| |Taken(v, q.storage, room)| > room;
    n := |q.cached| + room;
    PeekSpills(v, q, n);
  }

  /** Peeks with any amount change no later result if and only if the read is as Unicode or every stored key
      converts to a single byte, whatever is cached. */
  lemma PeekIsHarmlessIff(v: View, q: Queue)
    requires v.Ok()
    ensures (forall n: nat :: AfterPeek(v, q, n) == q) <==> v.unicode || SingleBytes(v, q.storage)
  {
    if v.unicode || SingleBytes(v, q.storage) {
      forall n: nat ensures AfterPeek(v, q, n) == q { PeekIsHarmless(v, q, n); }
    } else {
      var n := SomePeekSpills(v, q);
    }
  }

  lemma UnitOfTwo(v: View, e: Event, x: byte, y: byte)
    requires !v.unicode && e.Key? && e.repeat == 1 && v.conv(e.ch) == [x, y]
    ensures Expand(v, e) == [e.(ch := x), e.(ch := y)] && TakenOf(v, e, 1) == TakenOf(v, e, 2) == Expand(v, e)
  {
    var u := if v.stream then e.(repeat := 1) else e;
    assert u == e && [x, y][1..] == [y] && [y][1..] == [];
    assert Spread(e, [y]) == [e.(ch := y)];
    assert Unit(v, e) == [e.(ch := x), e.(ch := y)];
    assert Times(Unit(v, e), 1) == Unit(v, e) + [];
  }

  lemma ReadOfTwo(v: View, e: Event, x: Event, y: Event)
    requires Expand(v, e) == [x, y]
    ensures Out(v, Queue([e], []), 3) == [x, y] && Out(v, Queue([e], []), 1) == [x]
  {
    var q := Queue([e], []);
    assert ExpandAll(v, [e]) == [x, y] + [];
    assert Pending(v, q) == [x, y];
    ReadIsPrefix(v, q, 3);
    ReadIsPrefix(v, q, 1);
  }

  lemma ReadAfterSpill(v: View, e: Event, x: Event, y: Event)
    requires Expand(v, e) == [x, y]
    ensures Out(v, Queue([e], [y]), 3) == [y, x, y]
  {
    var q := Queue([e], [y]);
    assert ExpandAll(v, [e]) == [x, y] + [];
    assert Pending(v, q) == [y, x, y];
    ReadIsPrefix(v, q, 3);
    assert [y, x, y][..3] == [y, x, y];
  }

  /** Peeking at one record of a key that converts to two bytes: a later read gets the second byte twice. */
  lemma PeekedByteComesTwice(v: View, e: Event, x: byte, y: byte)
    requires !v.unicode && e.Key? && e.repeat == 1 && v.conv(e.ch) == [x, y]
    ensures var q := Queue([e], []);
            && Out(v, q, 3) == [e.(ch := x), e.(ch := y)]
            && Out(v, q, 1) == [e.(ch := x)]
            && Out(v, AfterPeek(v, q, 1), 3) == [e.(ch := y), e.(ch := x), e.(ch := y)]
  {
    UnitOfTwo(v, e, x, y);
    ReadOfTwo(v, e, e.(ch := x), e.(ch := y));
    PeekOfTwo(v, e, e.(ch := x), e.(ch := y));
    ReadAfterSpill(v, e, e.(ch := x), e.(ch := y));
  }

  lemma PeekOfTwo(v: View, e: Event, x: Event, y: Event)
    requires TakenOf(v, e, 1) == [x, y]
    ensures AfterPeek(v, Queue([e], []), 1) == Queue([e], [y])
  {
    var q := Queue([e], []);
    assert Taken(v, [e], 1) == [x, y] + Taken(v, [e][1..], -1);
    assert Taken(v, [e], 1) == [x, y];
    assert Gathered(v, q, 1) == [] + [x, y] == [x, y];
    assert Extra(v, q, 1) == [x, y][1..] == [y];
  }

  lemma {:induction false} FirstWideKey(v: View, q: seq<Event>) returns (i: nat)
    requires v.Ok() && !SingleBytes(v, q)
    ensures i < |q| && q[i].Key? && |v.conv(q[i].ch)| > 1
    ensures forall j :: 0 <= j < i && q[j].Key? ==> |v.conv(q[j].ch)| == 1
  {
    if q[0].Key? && |v.conv(q[0].ch)| > 1 {
      i := 0;
    } else {
      i := FirstWideKey(v, q[1..]);
      i := i + 1;
    }
  }

  // -- The event that is reset too early --------------------------------------------------------------------

  lemma {:induction false} PushesAllIff(u: seq<Event>, n: nat, room: int)
    requires n >= 1 && |u| >= 1 && room >= 1
    ensures Pushes(u, n, room) == n <==> room > |Times(u, n - 1)|
    decreases n
  {
    if n == 1 {
    } else {
      assert |Times(u, n - 1)| == |u| + |Times(u, n - 2)|;
      if |u| < room { PushesAllIff(u, n - 1, room - |u|); }
    }
  }

  /** How many records the last repetition of an event is delivered as. */
  function LastSize(v: View, e: Event): nat { if e.Key? then |Unit(v, e)| else 1 }

  lemma LastOfExpand(v: View, e: Event)
    requires v.Ok()
    ensures 1 <= LastSize(v, e) <= |Expand(v, e)|
    ensures e.Key? ==> |Times(Unit(v, e), Count(v, e) - 1)| == |Expand(v, e)| - LastSize(v, e)
  {}

  lemma TakenAllIff(v: View, e: Event, room: int)
    requires v.Ok() && room > 0
    ensures (e.Key? && TakenTimes(v, e, room) < Count(v, e)) <==> room <= |Expand(v, e)| - LastSize(v, e)
  {
    LastOfExpand(v, e);
    if e.Key? { PushesAllIff(Unit(v, e), Count(v, e), room); }
  }

  lemma {:induction false} ExpandAllIsLong(v: View, q: seq<Event>)
    requires v.Ok() && q != []
    ensures |ExpandAll(v, q)| >= LastSize(v, q[|q| - 1])
    decreases |q|
  {
    LastOfExpand(v, q[0]);
    if |q| == 1 {
    } else {
      ExpandAllIsLong(v, q[1..]);
    }
  }

  /** The first event stays, or it is taken whole and the read goes on. */
  lemma RestStep(v: View, q: seq<Event>, room: int, size: nat, last: nat)
    requires v.Ok() && q != [] && room > 0 && size == |Expand(v, q[0])| && last == LastSize(v, q[0])
    ensures 1 <= last <= size && |ExpandAll(v, q)| == size + |ExpandAll(v, q[1..])|
    ensures if room <= size - last then Rest(v, q, room) != [] else Rest(v, q, room) == Rest(v, q[1..], room - size)
  {
    TakenAllIff(v, q[0], room);
    LastOfExpand(v, q[0]);
  }

  ghost predicate EmptiesWhen(v: View, q: seq<Event>, room: int)
    requires q != []
  {
    Rest(v, q, room) == [] <==> room > |ExpandAll(v, q)| - LastSize(v, q[|q| - 1])
  }

  lemma EmptiesOne(v: View, q: seq<Event>, room: int)
    requires v.Ok() && |q| == 1 && room > 0
    ensures EmptiesWhen(v, q, room)
  {
    RestStep(v, q, room, |Expand(v, q[0])|, LastSize(v, q[0]));
    assert q[1..] == [];
  }

  lemma EmptiesMore(v: View, q: seq<Event>, room: int, size: nat, tail: seq<Event>)
    requires v.Ok() && |q| > 1 && room > 0 && size == |Expand(v, q[0])| && tail == q[1..]
    requires EmptiesWhen(v, tail, room - size)
    ensures EmptiesWhen(v, q, room)
  {
    RestStep(v, q, room, size, LastSize(v, q[0]));
    ExpandAllIsLong(v, tail);
    assert tail[|tail| - 1] == q[|q| - 1];
  }

  /** A read empties the storage exactly if it comes to the last repetition of the last event. */
  lemma {:induction false} EmptiesIff(v: View, q: seq<Event>, room: int)
    requires v.Ok() && q != []
    ensures EmptiesWhen(v, q, room)
    decreases |q|
  {
    if room <= 0 {
      ExpandAllIsLong(v, q);
    } else if |q| == 1 {
      EmptiesOne(v, q, room);
    } else {
      EmptiesIff(v, q[1..], room - |Expand(v, q[0])|);
      EmptiesMore(v, q, room, |Expand(v, q[0])|, q[1..]);
    }
  }

  /** A read of n records ends inside those of the very last repetition stored, or of the cache if nothing is. */
  predicate EndsInside(v: View, q: Queue, n: nat) {
    var p := |Pending(v, q)|;
    0 < n < p && (q.storage == [] || p - LastSize(v, q.storage[|q.storage| - 1]) < n)
  }

  /** A read that delivers something leaves the storage empty while records are still pending exactly if it ends
      inside the last ones. */
  lemma SilentWhilePendingIff(v: View, q: Queue, n: nat)
    requires v.Ok()
    ensures var q' := AfterRead(v, q, n);
            Out(v, q, n) != [] && q'.storage == [] && Pending(v, q') != [] <==> EndsInside(v, q, n)
  {
    ReadIsPrefix(v, q, n);
    if q.storage != [] {
      EmptiesIff(v, q.storage, n - Min(n, |q.cached|));
      ExpandAllIsLong(v, q.storage);
    }
  }

  /** Reading one record of a key that converts to two bytes empties the storage, with the second byte pending. */
  lemma HalfKeyStaysPending(v: View, e: Event, x: byte, y: byte)
    requires v.Ok() && !v.unicode && e.Key? && e.repeat == 1 && v.conv(e.ch) == [x, y]
    ensures var q := Queue([e], []);
            && EndsInside(v, q, 1) && Out(v, q, 1) == [e.(ch := x)]
            && AfterRead(v, q, 1).storage == [] && Pending(v, AfterRead(v, q, 1)) == [e.(ch := y)]
  {
    var q, ex, ey := Queue([e], []), e.(ch := x), e.(ch := y);
    UnitOfTwo(v, e, x, y);
    ReadOfTwo(v, e, ex, ey);
    assert ExpandAll(v, [e]) == [ex, ey] + [];
    assert Pending(v, q) == [ex, ey] && |Unit(v, e)| == 2;
    ReadIsPrefix(v, q, 1);
    SilentWhilePendingIff(v, q, 1);
  }

  // -- Writing ----------------------------------------------------------------------------------------------

  const MOUSE_MOVED := 1

  predicate Flag(ctrl: int, bit: int)
    requires bit > 0
  {
    (ctrl / bit) % 2 == 1
  }

  const NLS_IME_CONVERSION := 0x0040_0000

  /** The stored event that stands for both it and the new one, if they can be merged. Repeat counts are words. */
  function Coalesce(last: Event, e: Event): Option<Event> {
    if last.Mouse? && e.Mouse? then
      if last.flags == MOUSE_MOVED && e.flags == MOUSE_MOVED then Some(last.(position := e.position)) else None
    else if last.Key? && e.Key? then
      if && last.down && e.down
         && (last.scan == e.scan || Flag(e.ctrl, NLS_IME_CONVERSION))
         && last.ch == e.ch && last.ctrl == e.ctrl && !IsSurrogate(e.ch)
      then Some(last.(repeat := (last.repeat + e.repeat) % 0x1_0000)) else None
    else None
  }

  /** Stores a single event: merged with the last one if possible, otherwise appended. */
  function Put(storage: seq<Event>, e: Event): seq<Event> {
    if storage != [] && Coalesce(storage[|storage| - 1], e).Some? then
      storage[..|storage| - 1] + [Coalesce(storage[|storage| - 1], e).value]
    else storage + [e]
  }

  function PutAll(storage: seq<Event>, es: seq<Event>): seq<Event>
    decreases |es|
  {
    if es == [] then storage else Put(PutAll(storage, es[..|es| - 1]), es[|es| - 1])
  }

  predicate IsMove(e: Event) { e.Mouse? && e.flags == MOUSE_MOVED }

  predicate AllMoves(es: seq<Event>) { forall i :: 0 <= i < |es| ==> IsMove(es[i]) }

  /** However often the mouse moves, one move is stored, with the latest position. */
  lemma {:induction false} MovesKeepLatest(storage: seq<Event>, e: Event, es: seq<Event>)
    requires IsMove(e) && es != [] && AllMoves(es)
    ensures PutAll(storage + [e], es) == storage + [e.(position := es[|es| - 1].position)]
    decreases |es|
  {
    var init, last := es[..|es| - 1], es[|es| - 1];
    var m := if |es| == 1 then e else e.(position := es[|es| - 2].position);
    assert PutAll(storage + [e], init) == storage + [m] by {
      if init != [] { MovesKeepLatest(storage, e, init); }
    }
    assert (storage + [m])[..|storage|] == storage;
  }

  /** A mouse event that is not a move is stored beside what is there, and so is one behind such an event. */
  lemma ClicksAreKept(storage: seq<Event>, e: Event)
    requires e.Mouse? && (!IsMove(e) || storage == [] || !IsMove(storage[|storage| - 1]))
    ensures Put(storage, e) == storage + [e]
  {}

  /** Only a single event is ever merged. */
  function Store(storage: seq<Event>, events: seq<Event>): seq<Event> {
    if |events| == 1 then Put(storage, events[0]) else storage + events
  }

  // -- Merging is invisible ---------------------------------------------------------------------------------

  /** What a stream reader sees of a record: of a key its character, control-key state and direction. */
  datatype Seen = Char(ch: wchar, ctrl: int, down: bool) | Else(e: Event)

  function See(e: Event): Seen { if e.Key? then Char(e.ch, e.ctrl, e.down) else Else(e) }

  function SeeAll(s: seq<Event>): (r: seq<Seen>)
    ensures |r| == |s|
  {
    if s == [] then [] else [See(s[0])] + SeeAll(s[1..])
  }

  lemma {:induction false} SeeAllConcat(s: seq<Event>, t: seq<Event>)
    ensures SeeAll(s + t) == SeeAll(s) + SeeAll(t)
    decreases |s|
  {
    if s == [] {
      assert s + t == t && SeeAll(s) == [];
    } else {
      assert (s + t)[0] == s[0] && (s + t)[1..] == s[1..] + t;
      SeeAllConcat(s[1..], t);
    }
  }

  /** The view of a stream reader, as Unicode or in a code page. */
  ghost predicate StreamView(v: View) { v.stream && (v.unicode || v.Ok()) }

  function Repeated(x: seq<Seen>, n: nat): seq<Seen> {
    if n == 0 then [] else x + Repeated(x, n - 1)
  }

  lemma {:induction false} SeeTimes(u: seq<Event>, n: nat)
    ensures SeeAll(Times(u, n)) == Repeated(SeeAll(u), n)
    decreases n
  {
    if n == 0 {
    } else {
      SeeAllConcat(u, Times(u, n - 1));
      SeeTimes(u, n - 1);
    }
  }

  lemma {:induction false} RepeatedConcat(x: seq<Seen>, a: nat, b: nat)
    ensures Repeated(x, a) + Repeated(x, b) == Repeated(x, a + b)
    decreases a
  {
    if a == 0 {
      assert [] + Repeated(x, b) == Repeated(x, b);
    } else {
      RepeatedConcat(x, a - 1, b);
      Associative(x, Repeated(x, a - 1), Repeated(x, b));
    }
  }

  lemma {:induction false} RepeatedGrows(x: seq<Seen>, a: nat, b: nat)
    requires x != [] && a < b
    ensures |Repeated(x, a)| < |Repeated(x, b)|
    decreases a
  {
    if a == 0 {
    } else {
      RepeatedGrows(x, a - 1, b - 1);
    }
  }

  lemma {:induction false} SpreadIsSeen(d: Event, e: Event, bytes: seq<byte>)
    requires d.Key? && e.Key? && d.ctrl == e.ctrl && d.down == e.down
    ensures SeeAll(Spread(d, bytes)) == SeeAll(Spread(e, bytes))
    decreases |bytes|
  {
    if bytes == [] {
    } else {
      SpreadIsSeen(d, e, bytes[1..]);
      SpreadNext(d, bytes);
      SpreadNext(e, bytes);
    }
  }

  lemma SpreadNext(e: Event, bytes: seq<byte>)
    requires e.Key? && bytes != []
    ensures SeeAll(Spread(e, bytes)) == [Char(bytes[0], e.ctrl, e.down)] + SeeAll(Spread(e, bytes[1..]))
  {
    assert Spread(e, bytes)[1..] == Spread(e, bytes[1..]);
  }

  /** Keys of the same character, control-key state and direction look alike to a stream reader. */
  lemma UnitIsSeen(v: View, d: Event, e: Event)
    requires v.stream && d.Key? && e.Key? && d.ch == e.ch && d.ctrl == e.ctrl && d.down == e.down
    ensures SeeAll(Unit(v, d)) == SeeAll(Unit(v, e))
  {
    if v.unicode {
    } else {
      SpreadIsSeen(d.(repeat := 1), e.(repeat := 1), v.conv(e.ch));
    }
  }

  lemma SeeExpand(v: View, e: Event, x: seq<Seen>)
    requires e.Key? && x == SeeAll(Unit(v, e))
    ensures SeeAll(Expand(v, e)) == Repeated(x, Count(v, e))
  {
    SeeTimes(Unit(v, e), Count(v, e));
  }

  lemma SeeBoth(v: View, d: Event, e: Event, x: seq<Seen>)
    requires d.Key? && e.Key? && x == SeeAll(Unit(v, d)) && x == SeeAll(Unit(v, e))
    ensures SeeAll(Expand(v, d) + Expand(v, e)) == Repeated(x, Count(v, d) + Count(v, e))
  {
    SeeExpand(v, d, x);
    SeeExpand(v, e, x);
    SeeAllConcat(Expand(v, d), Expand(v, e));
    RepeatedConcat(x, Count(v, d), Count(v, e));
  }

  /** Both counts are at least one and their sum is still a word. */
  predicate CountsAddUp(last: Event, e: Event)
    requires last.Key? && e.Key?
  {
    last.repeat >= 1 && e.repeat >= 1 && last.repeat + e.repeat < 0x1_0000
  }

  /** A stream reader sees the merged key as the two it stands for if and only if their counts add up. */
  lemma MergeIsInvisibleIff(v: View, last: Event, e: Event)
    requires StreamView(v) && last.Key? && e.Key? && Coalesce(last, e).Some?
    ensures SeeAll(Expand(v, Coalesce(last, e).value)) == SeeAll(Expand(v, last) + Expand(v, e))
       <==> CountsAddUp(last, e)
  {
    var m, x := Coalesce(last, e).value, SeeAll(Unit(v, e));
    UnitIsSeen(v, m, e);
    UnitIsSeen(v, last, e);
    SeeExpand(v, m, x);
    SeeBoth(v, last, e, x);
    SameLength(x, Count(v, m), Count(v, last) + Count(v, e));
  }

  lemma SameLength(x: seq<Seen>, a: nat, b: nat)
    requires x != []
    ensures Repeated(x, a) == Repeated(x, b) <==> a == b
  {
    if a < b {
      RepeatedGrows(x, a, b);
    } else if b < a {
      RepeatedGrows(x, b, a);
    }
  }

  /** A key held for 65535 repetitions and once more is seen once. */
  lemma FullCountIsLost(v: View, last: Event, e: Event)
    requires StreamView(v) && last.Key? && e.Key? && Coalesce(last, e).Some? && last.repeat == 0xFFFF && e.repeat == 1
    ensures var x := SeeAll(Unit(v, e));
            && SeeAll(Expand(v, Coalesce(last, e).value)) == x
            && SeeAll(Expand(v, last) + Expand(v, e)) == Repeated(x, 0x1_0000)
  {
    var m, x := Coalesce(last, e).value, SeeAll(Unit(v, e));
    UnitIsSeen(v, m, e);
    UnitIsSeen(v, last, e);
    SeeExpand(v, m, x);
    SeeBoth(v, last, e, x);
    assert Repeated(x, 1) == x + Repeated(x, 0) == x;
  }

  // -- Runs -------------------------------------------------------------------------------------------------

  datatype Op = Read(n: nat) | Write(events: seq<Event>)

  function Step(v: View, q: Queue, op: Op): (seq<Event>, Queue) {
    match op
    case Read(n) => (Out(v, q, n), AfterRead(v, q, n))
    case Write(events) => ([], q.(storage := Store(q.storage, events)))
  }

  /** A run of reads in one view and writes: everything read, and the queue at the end. */
  function Run(v: View, q: Queue, ops: seq<Op>): (seq<Event>, Queue)
    decreases |ops|
  {
    if ops == [] then ([], q)
    else
      var (out, q') := Step(v, q, ops[0]);
      var (outs, q'') := Run(v, q', ops[1..]);
      (out + outs, q'')
  }

  function Added(op: Op): seq<Event> { if op.Write? then op.events else [] }

  function Written(ops: seq<Op>): seq<Event> {
    if ops == [] then [] else Added(ops[0]) + Written(ops[1..])
  }

  predicate Merges(storage: seq<Event>, op: Op) {
    op.Write? && |op.events| == 1 && storage != [] && Coalesce(storage[|storage| - 1], op.events[0]).Some?
  }

  /** Every step of the run satisfies p at the queue it meets. */
  ghost predicate Throughout(v: View, q: Queue, ops: seq<Op>, p: (Queue, Op) -> bool)
    decreases |ops|
  {
    ops == [] || (p(q, ops[0]) && Throughout(v, Step(v, q, ops[0]).1, ops[1..], p))
  }

  lemma BothParts<T>(p: seq<T>, k: nat)
    requires k <= |p|
    ensures p[..k] + p[k..] == p
  {}

  lemma ReadDelivers(v: View, q: Queue, n: nat)
    ensures Out(v, q, n) + Pending(v, AfterRead(v, q, n)) == Pending(v, q)
  {
    ReadIsPrefix(v, q, n);
    BothParts(Pending(v, q), Min(n, |Pending(v, q)|));
  }

  lemma WriteDelivers(v: View, q: Queue, events: seq<Event>)
    ensures Pending(v, q.(storage := q.storage + events)) == Pending(v, q) + ExpandAll(v, events)
  {
    ExpandAllConcat(v, q.storage, events);
    Associative(q.cached, ExpandAll(v, q.storage), ExpandAll(v, events));
  }

  lemma StepDelivers(v: View, q: Queue, op: Op)
    requires !Merges(q.storage, op)
    ensures var (out, q') := Step(v, q, op); out + Pending(v, q') == Pending(v, q) + ExpandAll(v, Added(op))
  {
    match op
    case Read(n) =>
      ReadDelivers(v, q, n);
      assert Pending(v, q) + [] == Pending(v, q);
    case Write(events) =>
      assert Store(q.storage, events) == q.storage + events;
      WriteDelivers(v, q, events);
      assert [] + Pending(v, q.(storage := q.storage + events)) == Pending(v, q.(storage := q.storage + events));
  }

  /** Over any run in which no write merges, what was read, followed by what is pending, is what was pending,
      followed by everything written: nothing is lost, duplicated or reordered. */
  lemma {:induction false} RunDelivers(v: View, q: Queue, ops: seq<Op>)
    requires Throughout(v, q, ops, (q: Queue, op: Op) => !Merges(q.storage, op))
    ensures var (outs, q') := Run(v, q, ops);
            outs + Pending(v, q') == Pending(v, q) + ExpandAll(v, Written(ops))
    decreases |ops|
  {
    if ops == [] {
      assert [] + Pending(v, q) == Pending(v, q) + [];
    } else {
      var (out, q1) := Step(v, q, ops[0]);
      var (outs, q') := Run(v, q1, ops[1..]);
      var a, w := ExpandAll(v, Added(ops[0])), ExpandAll(v, Written(ops[1..]));
      calc {
        (out + outs) + Pending(v, q');
      == { Associative(out, outs, Pending(v, q')); }
        out + (outs + Pending(v, q'));
      == { RunDelivers(v, q1, ops[1..]); }
        out + (Pending(v, q1) + w);
      == { Associative(out, Pending(v, q1), w); }
        out + Pending(v, q1) + w;
      == { StepDelivers(v, q, ops[0]); }
        Pending(v, q) + a + w;
      == { Associative(Pending(v, q), a, w); }
        Pending(v, q) + (a + w);
      == { ExpandAllConcat(v, Added(ops[0]), Written(ops[1..])); }
        Pending(v, q) + ExpandAll(v, Written(ops));
      }
    }
  }

  /** A write that merges does so with a key, and the counts add up. */
  predicate MergesWell(storage: seq<Event>, op: Op) {
    Merges(storage, op) ==>
      var last, e := storage[|storage| - 1], op.events[0];
      last.Key? && e.Key? && CountsAddUp(last, e)
  }

  lemma PutIsSeen(v: View, storage: seq<Event>, e: Event)
    requires StreamView(v) && Merges(storage, Write([e])) && MergesWell(storage, Write([e]))
    ensures SeeAll(ExpandAll(v, Put(storage, e))) == SeeAll(ExpandAll(v, storage)) + SeeAll(ExpandAll(v, [e]))
  {
    var init, last := storage[..|storage| - 1], storage[|storage| - 1];
    var m := Coalesce(last, e).value;
    calc {
      SeeAll(ExpandAll(v, Put(storage, e)));
    == { ExpandAllConcat(v, init, [m]); ExpandOne(v, m); }
      SeeAll(ExpandAll(v, init) + Expand(v, m));
    == { SeeAllConcat(ExpandAll(v, init), Expand(v, m)); MergeIsInvisibleIff(v, last, e); }
      SeeAll(ExpandAll(v, init)) + SeeAll(Expand(v, last) + Expand(v, e));
    == { SeeAllConcat(ExpandAll(v, init), Expand(v, last) + Expand(v, e)); }
      SeeAll(ExpandAll(v, init) + (Expand(v, last) + Expand(v, e)));
    == { Associative(ExpandAll(v, init), Expand(v, last), Expand(v, e)); }
      SeeAll(ExpandAll(v, init) + Expand(v, last) + Expand(v, e));
    == { ExpandAllConcat(v, init, [last]); ExpandOne(v, last); assert init + [last] == storage; }
      SeeAll(ExpandAll(v, storage) + Expand(v, e));
    == { SeeAllConcat(ExpandAll(v, storage), Expand(v, e)); ExpandOne(v, e); }
      SeeAll(ExpandAll(v, storage)) + SeeAll(ExpandAll(v, [e]));
    }
  }

  lemma ExpandOne(v: View, e: Event)
    ensures ExpandAll(v, [e]) == Expand(v, e)
  {
    assert Expand(v, e) + [] == Expand(v, e);
  }

  lemma MergeStepIsSeen(v: View, q: Queue, e: Event)
    requires StreamView(v) && Merges(q.storage, Write([e])) && MergesWell(q.storage, Write([e]))
    ensures SeeAll(Pending(v, q.(storage := Put(q.storage, e)))) == SeeAll(Pending(v, q)) + SeeAll(ExpandAll(v, [e]))
  {
    var c, before, after := SeeAll(q.cached), ExpandAll(v, q.storage), ExpandAll(v, Put(q.storage, e));
    calc {
      SeeAll(q.cached + after);
    == { SeeAllConcat(q.cached, after); }
      c + SeeAll(after);
    == { PutIsSeen(v, q.storage, e); }
      c + (SeeAll(before) + SeeAll(ExpandAll(v, [e])));
    == { Associative(c, SeeAll(before), SeeAll(ExpandAll(v, [e]))); }
      c + SeeAll(before) + SeeAll(ExpandAll(v, [e]));
    == { SeeAllConcat(q.cached, before); }
      SeeAll(q.cached + before) + SeeAll(ExpandAll(v, [e]));
    }
  }

  lemma StepIsSeen(v: View, q: Queue, op: Op)
    requires StreamView(v) && MergesWell(q.storage, op)
    ensures var (out, q') := Step(v, q, op);
            SeeAll(out) + SeeAll(Pending(v, q')) == SeeAll(Pending(v, q)) + SeeAll(ExpandAll(v, Added(op)))
  {
    var (out, q') := Step(v, q, op);
    if Merges(q.storage, op) {
      assert op == Write([op.events[0]]);
      MergeStepIsSeen(v, q, op.events[0]);
      assert [] + SeeAll(Pending(v, q')) == SeeAll(Pending(v, q'));
    } else {
      StepDelivers(v, q, op);
      SeeAllConcat(out, Pending(v, q'));
      SeeAllConcat(Pending(v, q), ExpandAll(v, Added(op)));
    }
  }

  /** Over any run, a stream reader sees the same characters and control-key states as if no two events
      had ever been merged. */
  lemma {:induction false} RunIsSeen(v: View, q: Queue, ops: seq<Op>)
    requires StreamView(v) && Throughout(v, q, ops, (q: Queue, op: Op) => MergesWell(q.storage, op))
    ensures var (outs, q') := Run(v, q, ops);
            SeeAll(outs) + SeeAll(Pending(v, q')) == SeeAll(Pending(v, q)) + SeeAll(ExpandAll(v, Written(ops)))
    decreases |ops|
  {
    if ops == [] {
      assert [] + SeeAll(Pending(v, q)) == SeeAll(Pending(v, q)) + [];
    } else {
      var (out, q1) := Step(v, q, ops[0]);
      var (outs, q') := Run(v, q1, ops[1..]);
      var a, w := ExpandAll(v, Added(ops[0])), ExpandAll(v, Written(ops[1..]));
      calc {
        SeeAll(out + outs) + SeeAll(Pending(v, q'));
      == { SeeAllConcat(out, outs); Associative(SeeAll(out), SeeAll(outs), SeeAll(Pending(v, q'))); }
        SeeAll(out) + (SeeAll(outs) + SeeAll(Pending(v, q')));
      == { RunIsSeen(v, q1, ops[1..]); }
        SeeAll(out) + (SeeAll(Pending(v, q1)) + SeeAll(w));
      == { Associative(SeeAll(out), SeeAll(Pending(v, q1)), SeeAll(w)); }
        SeeAll(out) + SeeAll(Pending(v, q1)) + SeeAll(w);
      == { StepIsSeen(v, q, ops[0]); }
        SeeAll(Pending(v, q)) + SeeAll(a) + SeeAll(w);
      == { Associative(SeeAll(Pending(v, q)), SeeAll(a), SeeAll(w)); SeeAllConcat(a, w); }
        SeeAll(Pending(v, q)) + SeeAll(a + w);
      == { ExpandAllConcat(v, Added(ops[0]), Written(ops[1..])); }
        SeeAll(Pending(v, q)) + SeeAll(ExpandAll(v, Written(ops)));
      }
    }
  }
}
