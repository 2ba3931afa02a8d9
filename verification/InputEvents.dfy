/** Input records, and what a queue of them stands for to a reader. */
module InputEvents {
  import opened Basics
  import opened Wide

  datatype Event =
    | Key(down: bool, repeat: word, vk: word, scan: word, ch: wchar, ctrl: int)
    | Mouse(flags: int, position: int, buttons: int)
    | Other(kind: int, payload: int)

  /** How a read sees the queue: as Unicode or in the code page given by conv, with repeats split or not. */
  datatype View = View(unicode: bool, stream: bool, conv: wchar -> seq<byte>) {
    /** Every unit converts to at least one byte. */
    ghost predicate Ok() {
      forall c: wchar :: |conv(c)| > 0
    }
  }

  // -- Expansion --------------------------------------------------------------------------------------------

  function Spread(e: Event, bytes: seq<byte>): (r: seq<Event>)
    requires e.Key?
    ensures |r| == |bytes|
  {
    if bytes == [] then [] else [e.(ch := bytes[0])] + Spread(e, bytes[1..])
  }

  /** The records one repetition of a key event is delivered as. */
  function Unit(v: View, e: Event): seq<Event>
    requires e.Key?
  {
    var u := if v.stream then e.(repeat := 1) else e;
    if v.unicode then [u] else Spread(u, v.conv(u.ch))
  }

  /** How often a key event is delivered. */
  function Count(v: View, e: Event): (n: nat)
    requires e.Key?
    ensures n >= 1
  {
    if v.stream && e.repeat > 1 then e.repeat else 1
  }

  function Times(u: seq<Event>, n: nat): seq<Event> {
    if n == 0 then [] else u + Times(u, n - 1)
  }

  function Expand(v: View, e: Event): seq<Event> {
    if e.Key? then Times(Unit(v, e), Count(v, e)) else [e]
  }

  function ExpandAll(v: View, q: seq<Event>): seq<Event> {
    if q == [] then [] else Expand(v, q[0]) + ExpandAll(v, q[1..])
  }

  lemma {:induction false} ExpandAllConcat(v: View, p: seq<Event>, q: seq<Event>)
    ensures ExpandAll(v, p + q) == ExpandAll(v, p) + ExpandAll(v, q)
    decreases |p|
  {
    if p == [] {
      assert p + q == q && ExpandAll(v, p) == [];
    } else {
      calc {
        ExpandAll(v, p + q);
      == { assert (p + q)[0] == p[0] && (p + q)[1..] == p[1..] + q; }
        Expand(v, p[0]) + ExpandAll(v, p[1..] + q);
      == { ExpandAllConcat(v, p[1..], q); }
        Expand(v, p[0]) + (ExpandAll(v, p[1..]) + ExpandAll(v, q));
      == { Associative(Expand(v, p[0]), ExpandAll(v, p[1..]), ExpandAll(v, q)); }
        Expand(v, p[0]) + ExpandAll(v, p[1..]) + ExpandAll(v, q);
      }
    }
  }

  // -- Reading from the queue -------------------------------------------------------------------------------

  /** How many repetitions of u the inner loop of a read pushes: at least one, and whole ones while there is
      room. */
  function Pushes(u: seq<Event>, n: nat, room: int): (k: nat)
    requires n >= 1
    ensures 1 <= k <= n && (k < n ==> room <= |Times(u, k)|)
    decreases n
  {
    if n > 1 && |u| < room then 1 + Pushes(u, n - 1, room - |u|) else 1
  }

  lemma {:induction false} PushesFit(u: seq<Event>, n: nat, room: int)
    requires n >= 1 && |u| == 1 && room >= 1
    ensures |Times(u, Pushes(u, n, room))| <= room
    decreases n
  {
    if n <= 1 || 1 >= room {
    } else {
      PushesFit(u, n - 1, room - 1);
    }
  }

  lemma {:induction false} TimesSplit(u: seq<Event>, k: nat, n: nat)
    requires k <= n
    ensures Times(u, k) + Times(u, n - k) == Times(u, n)
    decreases k
  {
    if k == 0 {
      assert [] + Times(u, n) == Times(u, n);
    } else {
      calc {
        Times(u, k) + Times(u, n - k);
      == { Associative(u, Times(u, k - 1), Times(u, n - k)); }
        u + (Times(u, k - 1) + Times(u, n - k));
      == { TimesSplit(u, k - 1, n - 1); }
        u + Times(u, n - 1);
      == Times(u, n);
      }
    }
  }

  /** How many repetitions of e a read with this much room takes. */
  function TakenTimes(v: View, e: Event, room: int): (k: nat)
    requires e.Key?
    ensures 1 <= k <= Count(v, e)
  {
    Pushes(Unit(v, e), Count(v, e), room)
  }

  /** The records the outer loop of a read or peek pushes for the event at the front. */
  function TakenOf(v: View, e: Event, room: int): seq<Event> {
    if e.Key? then Times(Unit(v, e), TakenTimes(v, e, room)) else [e]
  }

  /** All records the loop pushes. */
  function Taken(v: View, q: seq<Event>, room: int): seq<Event> {
    if q == [] || room <= 0 then []
    else TakenOf(v, q[0], room) + Taken(v, q[1..], room - |TakenOf(v, q[0], room)|)
  }

  /** The queue after a read: a key event not used up keeps its remaining repetitions. */
  function Rest(v: View, q: seq<Event>, room: int): seq<Event> {
    if q == [] || room <= 0 then q
    else if q[0].Key? && TakenTimes(v, q[0], room) < Count(v, q[0]) then
      [q[0].(repeat := Count(v, q[0]) - TakenTimes(v, q[0], room))] + q[1..]
    else Rest(v, q[1..], room - |TakenOf(v, q[0], room)|)
  }

  lemma LeftOver(v: View, e: Event, k: nat)
    requires e.Key? && 1 <= k < Count(v, e)
    ensures Times(Unit(v, e), k) + Expand(v, e.(repeat := Count(v, e) - k)) == Expand(v, e)
  {
    var e' := e.(repeat := Count(v, e) - k);
    assert Unit(v, e') == Unit(v, e);
    TimesSplit(Unit(v, e), k, Count(v, e));
  }

  /** Nothing is lost, duplicated or reordered: what a read takes and what it leaves make up the queue. */
  lemma {:induction false} TakenAndRest(v: View, q: seq<Event>, room: int)
    ensures Taken(v, q, room) + ExpandAll(v, Rest(v, q, room)) == ExpandAll(v, q)
    decreases |q|
  {
    if q == [] || room <= 0 {
      assert [] + ExpandAll(v, q) == ExpandAll(v, q);
    } else {
      var e, u := q[0], TakenOf(v, q[0], room);
      if e.Key? && TakenTimes(v, e, room) < Count(v, e) {
        PartlyTaken(v, q, room);
      } else {
        calc {
          Taken(v, q, room) + ExpandAll(v, Rest(v, q, room));
        == { Associative(u, Taken(v, q[1..], room - |u|), ExpandAll(v, Rest(v, q, room))); }
          u + (Taken(v, q[1..], room - |u|) + ExpandAll(v, Rest(v, q[1..], room - |u|)));
        == { TakenAndRest(v, q[1..], room - |u|); }
          u + ExpandAll(v, q[1..]);
        == ExpandAll(v, q);
        }
      }
    }
  }

  lemma PartlyTaken(v: View, q: seq<Event>, room: int)
    requires q != [] && room > 0 && q[0].Key? && TakenTimes(v, q[0], room) < Count(v, q[0])
    ensures Taken(v, q, room) + ExpandAll(v, Rest(v, q, room)) == ExpandAll(v, q)
  {
    var e, k := q[0], TakenTimes(v, q[0], room);
    var u, e' := TakenOf(v, e, room), e.(repeat := Count(v, e) - k);
    assert Taken(v, q[1..], room - |u|) == [];
    assert ([e'] + q[1..])[1..] == q[1..];
    calc {
      Taken(v, q, room) + ExpandAll(v, Rest(v, q, room));
    == { assert u + [] == u; }
      u + (Expand(v, e') + ExpandAll(v, q[1..]));
    == { Associative(u, Expand(v, e'), ExpandAll(v, q[1..])); }
      u + Expand(v, e') + ExpandAll(v, q[1..]);
    == { LeftOver(v, e, k); }
      ExpandAll(v, q);
    }
  }

  /** A read takes as much as there is room for, if there is that much. */
  lemma {:induction false} TakenIsEnough(v: View, q: seq<Event>, room: int)
    ensures |Taken(v, q, room)| >= room || Rest(v, q, room) == []
    decreases |q|
  {
    if q == [] || room <= 0 {
    } else {
      TakenIsEnough(v, q[1..], room - |TakenOf(v, q[0], room)|);
    }
  }

  /** Read as Unicode, it never takes more. */
  lemma {:induction false} UnicodeNeverOvershoots(v: View, q: seq<Event>, room: int)
    requires v.unicode
    ensures |Taken(v, q, room)| <= if room < 0 then 0 else room
    decreases |q|
  {
    if q == [] || room <= 0 {
    } else {
      if q[0].Key? { PushesFit(Unit(v, q[0]), Count(v, q[0]), room); }
      UnicodeNeverOvershoots(v, q[1..], room - |TakenOf(v, q[0], room)|);
    }
  }
}
