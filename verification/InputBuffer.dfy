/** The console's input buffer. Its event methods are tied to InputQueue, its text methods to InputText. */
module InputBuffer {
  import opened Basics
  import opened Wide
  import opened InputEvents
  import opened InputQueue
  import InputText

  datatype ReadingMode = StringA | StringW | EventsA | EventsW

  /** The global console state the buffer consults: whether output is suspended, the input mode flags, and which
      virtual keys are system keys. */
  datatype Env = Env(suspended: bool, lineInput: bool, vtInput: bool, isSystemKey: word -> bool)

  const VK_PAUSE := 0x13
  const VK_S := 0x53

  /** Ctrl-S is an alias for the pause key. */
  predicate IsPauseKey(e: Event)
    requires e.Key?
  {
    var ctrl := Flag(e.ctrl, 0x8) || Flag(e.ctrl, 0x4);
    var alt := Flag(e.ctrl, 0x2) || Flag(e.ctrl, 0x1);
    e.vk == VK_PAUSE || (ctrl && !alt && e.vk == VK_S)
  }

  /** The key event a character of a VT sequence is stored as. nul is the key that produces the null character. */
  function CharEvent(c: wchar, nul: Event): Event {
    if c == 0 && nul.Key? then Key(true, 1, nul.vk, 0, c, nul.ctrl) else Key(true, 1, 0, 0, c, 0)
  }

  function CharEvents(s: wstring, nul: Event): seq<Event> {
    if s == [] then [] else [CharEvent(s[0], nul)] + CharEvents(s[1..], nul)
  }

  /** What one event does to the storage and to output suspension, and whether it counts as written. vt is what
      the VT input module makes of it. */
  function WriteOne(storage: seq<Event>, env: Env, e: Event, vt: Option<wstring>, nul: Event,
                    single: bool): (seq<Event>, Env, nat) {
    if e.Key? && e.down && env.suspended && !env.isSystemKey(e.vk) then (storage, env.(suspended := false), 0)
    else if e.Key? && e.down && env.lineInput && IsPauseKey(e) then (storage, env.(suspended := true), 0)
    else if env.vtInput && vt.Some? then (storage + CharEvents(vt.value, nul), env, 1)
    else if single then (Put(storage, e), env, 1)
    else (storage + [e], env, 1)
  }

  function WriteFrom(storage: seq<Event>, env: Env, written: nat, events: seq<Event>, vt: seq<Option<wstring>>,
                     nul: Event,
                     single: bool): (seq<Event>, Env, nat)
    requires |vt| == |events|
    decreases |events|
  {
    if events == [] then (storage, env, written)
    else
      var (s, n, w) := WriteOne(storage, env, events[0], vt[0], nul, single);
      WriteFrom(s, n, written + w, events[1..], vt[1..], nul, single)
  }

  // -- What a write stores ----------------------------------------------------------------------------------

  /** One key press for each unit, in order. */
  ghost predicate Spells(events: seq<Event>, s: wstring) {
    |events| == |s| && forall i :: 0 <= i < |s| ==> IsPress(events[i], s[i])
  }

  predicate IsPress(e: Event, c: wchar) { e.Key? && e.down && e.repeat == 1 && e.ch == c }

  lemma {:induction false} CharEventsSpell(s: wstring, nul: Event)
    ensures Spells(CharEvents(s, nul), s)
    decreases |s|
  {
    if s == [] {
    } else {
      CharEventsSpell(s[1..], nul);
    }
  }

  predicate Pressed(e: Event) { e.Key? && e.down }

  /** No key resumes or suspends output: while it is suspended only system keys are pressed, and while lines are read
      no pause key is. */
  predicate Running(env: Env, events: seq<Event>) {
    forall i :: 0 <= i < |events| && Pressed(events[i]) ==>
      (env.suspended ==> env.isSystemKey(events[i].vk)) && (env.lineInput ==> !IsPauseKey(events[i]))
  }

  /** What is stored for one event: the sequence it is translated to, or the event. */
  function Stored(env: Env, e: Event, vt: Option<wstring>, nul: Event): seq<Event> {
    if env.vtInput && vt.Some? then CharEvents(vt.value, nul) else [e]
  }

  function StoredAll(env: Env, events: seq<Event>, vt: seq<Option<wstring>>, nul: Event): seq<Event>
    requires |vt| == |events|
  {
    if events == [] then [] else Stored(env, events[0], vt[0], nul) + StoredAll(env, events[1..], vt[1..], nul)
  }

  /** Of events none of which resumes or suspends output each is stored, behind what was stored before and in order. */
  lemma {:induction false} RunningWritesAppend(storage: seq<Event>, env: Env, written: nat, events: seq<Event>,
                                               vt: seq<Option<wstring>>, nul: Event)
    requires |vt| == |events| && Running(env, events)
    ensures WriteFrom(storage, env, written, events, vt, nul, false)
         == (storage + StoredAll(env, events, vt, nul), env, written + |events|)
    decreases |events|
  {
    if events == [] {
      assert storage + [] == storage;
    } else {
      var part := Stored(env, events[0], vt[0], nul);
      RunningWritesAppend(storage + part, env, written + 1, events[1..], vt[1..], nul);
      Associative(storage, part, StoredAll(env, events[1..], vt[1..], nul));
    }
  }

  /** No event is swallowed or translated. */
  predicate Quiet(env: Env, events: seq<Event>) { Running(env, events) && !env.vtInput }

  lemma {:induction false} QuietStoresAll(env: Env, events: seq<Event>, vt: seq<Option<wstring>>, nul: Event)
    requires |vt| == |events| && !env.vtInput
    ensures StoredAll(env, events, vt, nul) == events
    decreases |events|
  {
    if events == [] {
    } else {
      QuietStoresAll(env, events[1..], vt[1..], nul);
    }
  }

  /** A quiet write stores its events, a single one merged where possible. */
  lemma QuietWriteStores(storage: seq<Event>, env: Env, events: seq<Event>, vt: seq<Option<wstring>>, nul: Event)
    requires |vt| == |events| && Quiet(env, events)
    ensures WriteFrom(storage, env, 0, events, vt, nul, |events| == 1) == (Store(storage, events), env, |events|)
  {
    if |events| == 1 {
      assert WriteFrom(Put(storage, events[0]), env, 1, events[1..], vt[1..], nul, true)
             == (Put(storage, events[0]), env, 1);
    } else {
      RunningWritesAppend(storage, env, 0, events, vt, nul);
      QuietStoresAll(env, events, vt, nul);
    }
  }

  // -- Writing with VT input --------------------------------------------------------------------------------

  /** VT input is on and every event is translated. */
  predicate Translated(env: Env, vt: seq<Option<wstring>>) {
    env.vtInput && forall i :: 0 <= i < |vt| ==> vt[i].Some?
  }

  function TextOf(vt: seq<Option<wstring>>): wstring {
    if vt == [] then [] else (if vt[0].Some? then vt[0].value else []) + TextOf(vt[1..])
  }

  lemma SpellsConcat(a: seq<Event>, s: wstring, b: seq<Event>, t: wstring)
    requires Spells(a, s) && Spells(b, t)
    ensures Spells(a + b, s + t)
  {}

  lemma {:induction false} StoredIsSpelled(env: Env, events: seq<Event>, vt: seq<Option<wstring>>, nul: Event)
    requires |vt| == |events| && Translated(env, vt)
    ensures Spells(StoredAll(env, events, vt, nul), TextOf(vt))
    decreases |events|
  {
    if events == [] {
    } else {
      StoredIsSpelled(env, events[1..], vt[1..], nul);
      CharEventsSpell(vt[0].value, nul);
      SpellsConcat(CharEvents(vt[0].value, nul), vt[0].value, StoredAll(env, events[1..], vt[1..], nul),
                   TextOf(vt[1..]));
    }
  }

  lemma PressIsDelivered(v: View, e: Event, c: wchar)
    requires v.unicode && IsPress(e, c)
    ensures Expand(v, e) == [e]
  {
    assert Times([e], 1) == [e] + [];
  }

  lemma {:induction false} SpelledIsDelivered(v: View, events: seq<Event>, s: wstring)
    requires v.unicode && Spells(events, s)
    ensures ExpandAll(v, events) == events
    decreases |events|
  {
    if events == [] {
    } else {
      PressIsDelivered(v, events[0], s[0]);
      SpelledIsDelivered(v, events[1..], s[1..]);
    }
  }

  lemma SingleIsNotMerged(storage: seq<Event>, env: Env, events: seq<Event>, vt: seq<Option<wstring>>, nul: Event)
    requires |vt| == |events| == 1 && Running(env, events) && Translated(env, vt)
    ensures WriteFrom(storage, env, 0, events, vt, nul, true) == WriteFrom(storage, env, 0, events, vt, nul, false)
  {
    assert events[1..] == [] && vt[1..] == [];
  }

  /** With VT input on, a Unicode reader gets, behind all that was pending, one key press for each unit of the text the
      events are translated to, in order. */
  lemma TranslatedIsRead(v: View, q: Queue, env: Env, events: seq<Event>, vt: seq<Option<wstring>>, nul: Event)
    requires |vt| == |events| && v.unicode && Running(env, events) && Translated(env, vt)
    ensures var w, p := WriteFrom(q.storage, env, 0, events, vt, nul, |events| == 1), Pending(v, q);
            var p' := Pending(v, q.(storage := w.0));
            p <= p' && Spells(p'[|p|..], TextOf(vt)) && w.1 == env && w.2 == |events|
  {
    if |events| == 1 { SingleIsNotMerged(q.storage, env, events, vt, nul); }
    RunningWritesAppend(q.storage, env, 0, events, vt, nul);
    var more := StoredAll(env, events, vt, nul);
    StoredIsSpelled(env, events, vt, nul);
    SpelledIsDelivered(v, more, TextOf(vt));
    ExpandAllConcat(v, q.storage, more);
    Associative(q.cached, ExpandAll(v, q.storage), more);
  }

  // -- Keys that are not stored -----------------------------------------------------------------------------

  /** Ctrl+S with either Ctrl key pauses, S alone or with Alt does not; the pause key always does. */
  lemma CtrlSPauses(e: Event)
    requires e.Key?
    ensures IsPauseKey(e.(vk := 0x13))
    ensures IsPauseKey(e.(vk := 0x53, ctrl := 0x8)) && IsPauseKey(e.(vk := 0x53, ctrl := 0x4))
    ensures !IsPauseKey(e.(vk := 0x53, ctrl := 0)) && !IsPauseKey(e.(vk := 0x53, ctrl := 0xA))
    ensures !IsPauseKey(e.(vk := 0x53, ctrl := 0x9))
  {}

  /** The first key pressed while output is suspended is not stored and resumes output: the rest is written as if it
      began behind that key with output running. */
  lemma KeyResumesOutput(storage: seq<Event>, env: Env, written: nat, events: seq<Event>, vt: seq<Option<wstring>>,
                         nul: Event, single: bool)
    requires |vt| == |events| > 0 && env.suspended && Pressed(events[0]) && !env.isSystemKey(events[0].vk)
    ensures WriteFrom(storage, env, written, events, vt, nul, single)
         == WriteFrom(storage, env.(suspended := false), written, events[1..], vt[1..], nul, single)
  {}

  /** While lines are being read, the pause key and the next key pressed that is not a system key leave no trace. */
  lemma PauseAndKeyLeaveNoTrace(storage: seq<Event>, env: Env, written: nat, events: seq<Event>,
                                vt: seq<Option<wstring>>, nul: Event, single: bool)
    requires |vt| == |events| >= 2 && !env.suspended && env.lineInput
    requires Pressed(events[0]) && IsPauseKey(events[0]) && Pressed(events[1]) && !env.isSystemKey(events[1].vk)
    ensures WriteFrom(storage, env, written, events, vt, nul, single)
         == WriteFrom(storage, env, written, events[2..], vt[2..], nul, single)
  {
    var paused := env.(suspended := true);
    assert WriteFrom(storage, env, written, events, vt, nul, single)
        == WriteFrom(storage, paused, written, events[1..], vt[1..], nul, single);
    KeyResumesOutput(storage, paused, written, events[1..], vt[1..], nul, single);
    assert events[1..][1..] == events[2..] && vt[1..][1..] == vt[2..] && paused.(suspended := false) == env;
  }

  /** The repetitions of e that a read with this much room does not take. */
  function LeftOf(v: View, e: Event, room: int): (n: nat)
    ensures n < 0x1_0000 && (n > 0 ==> e.Key?)
  {
    if e.Key? then Count(v, e) - TakenTimes(v, e, room) else 0
  }

  /** One round of the loop over the stored events. */
  lemma TakenStep(v: View, q: seq<Event>, out: seq<Event>, room: int)
    requires q != [] && room > 0
    ensures var u := TakenOf(v, q[0], room);
            && out + Taken(v, q, room) == out + u + Taken(v, q[1..], room - |u|)
            && Rest(v, q, room) == (if LeftOf(v, q[0], room) > 0 then [q[0].(repeat := LeftOf(v, q[0], room))] + q[1..]
                                    else Rest(v, q[1..], room - |u|))
            && (LeftOf(v, q[0], room) > 0 ==> room <= |u|)
  {
    var u := TakenOf(v, q[0], room);
    Associative(out, u, Taken(v, q[1..], room - |u|));
  }

  lemma NothingMore(v: View, q: seq<Event>, out: seq<Event>, room: int)
    requires q == [] || room <= 0
    ensures out + Taken(v, q, room) == out
  {
    assert out + [] == out;
  }

  /** A read or peek has come to the stored event at `it`; in the end it has gathered `goal` and leaves `rest`. */
  ghost predicate Gathering(v: View, q: seq<Event>, it: nat, out: seq<Event>, amount: nat, peek: bool,
                            goal: seq<Event>, rest: seq<Event>) {
    && it <= |q|
    && out + Taken(v, q[it..], amount - |out|) == goal
    && (!peek ==> Rest(v, q[it..], amount - |out|) == rest)
  }

  lemma GatherNext(v: View, q: seq<Event>, it: nat, out: seq<Event>, amount: nat, peek: bool,
                   goal: seq<Event>, rest: seq<Event>)
    requires Gathering(v, q, it, out, amount, peek, goal, rest) && it < |q| && |out| < amount
    ensures var left, out' := LeftOf(v, q[it], amount - |out|), out + TakenOf(v, q[it], amount - |out|);
            if left > 0 && !peek then out' == goal && rest == [q[it].(repeat := left)] + q[it + 1..]
            else Gathering(v, q, it + 1, out', amount, peek, goal, rest)
  {
    var room := amount - |out|;
    TakenStep(v, q[it..], out, room);
    assert q[it..][0] == q[it] && q[it..][1..] == q[it + 1..];
    if LeftOf(v, q[it], room) > 0 && !peek {
      NothingMore(v, q[it + 1..], out + TakenOf(v, q[it], room), room - |TakenOf(v, q[it], room)|);
    }
  }

  function KeysOf(q: seq<Event>): seq<Event> {
    if q == [] then [] else (if q[0].Key? then [q[0]] else []) + KeysOf(q[1..])
  }

  lemma {:induction false} KeysConcat(p: seq<Event>, q: seq<Event>)
    ensures KeysOf(p + q) == KeysOf(p) + KeysOf(q)
    decreases |p|
  {
    if p == [] {
      assert p + q == q && KeysOf(p) == [];
    } else {
      var first := if p[0].Key? then [p[0]] else [];
      calc {
        KeysOf(p + q);
      == { assert (p + q)[0] == p[0] && (p + q)[1..] == p[1..] + q; }
        first + KeysOf(p[1..] + q);
      == { KeysConcat(p[1..], q); }
        first + (KeysOf(p[1..]) + KeysOf(q));
      == { Associative(first, KeysOf(p[1..]), KeysOf(q)); }
        KeysOf(p) + KeysOf(q);
      }
    }
  }

  /** Each event stays, in its place among the others, exactly if it is a key event. */
  lemma KeysStayInOrder(p: seq<Event>, e: Event, q: seq<Event>)
    ensures KeysOf(p + [e] + q) == KeysOf(p) + (if e.Key? then [e] else []) + KeysOf(q)
  {
    KeysConcat(p + [e], q);
    KeysConcat(p, [e]);
    assert KeysOf([e]) == if e.Key? then [e] else [];
  }

  function EventsMode(v: View): ReadingMode { if v.unicode then EventsW else EventsA }

  class InputBuffer {
    var storage: seq<Event>
    var cachedEvents: seq<Event>
    var cachedText: seq<byte>
    var mode: ReadingMode
    var signalled: bool
    var env: Env

    /** The event readers wait for is set whenever events are stored. */
    ghost predicate Valid()
      reads this
    {
      storage != [] ==> signalled
    }

    constructor (env: Env)
      ensures Valid() && storage == [] && cachedEvents == [] && cachedText == [] && mode == StringA && this.env == env
    {
      storage, cachedEvents, cachedText, mode, signalled := [], [], [], StringA, false;
      this.env := env;
    }

    /** Changing the reading mode drops whatever an earlier read left over. */
    method SwitchReadingMode(m: ReadingMode)
      modifies this`cachedEvents, this`cachedText, this`mode
      ensures mode == m
      ensures cachedEvents == if old(mode) == m then old(cachedEvents) else []
      ensures cachedText == if old(mode) == m then old(cachedText) else []
    {
      if mode != m {
        cachedEvents, cachedText, mode := [], [], m;
      }
    }

    // -- Reading events -------------------------------------------------------------------------------------

    method PushBytes(out0: seq<Event>, e: Event, bytes: seq<byte>) returns (out: seq<Event>)
      requires e.Key?
      ensures out == out0 + Spread(e, bytes)
    {
      out := out0;
      for i := 0 to |bytes|
        invariant out + Spread(e, bytes[i..]) == out0 + Spread(e, bytes)
      {
        assert bytes[i..][1..] == bytes[i + 1..];
        out := out + [e.(ch := bytes[i])];
      }
    }

    /** Pushes a key event, again while repetitions are left and there is room. */
    method PushKey(out0: seq<Event>, e: Event, v: View, amount: nat) returns (out: seq<Event>, left: nat)
      requires e.Key? && |out0| < amount
      ensures left == Count(v, e) - TakenTimes(v, e, amount - |out0|)
      ensures out == out0 + TakenOf(v, e, amount - |out0|)
    {
      var event := e;
      left := 1;
      if v.stream {
        left := if e.repeat > 1 then e.repeat else 1;
        event := e.(repeat := 1);
      }
      ghost var u, n, k := Unit(v, e), Count(v, e), 0;
      out := out0;
      var again := true;
      while again
        invariant k + left == n && out == out0 + Times(u, k)
        invariant again ==> left > 0 && TakenTimes(v, e, amount - |out0|) == k + Pushes(u, left, amount - |out|)
        invariant !again ==> TakenTimes(v, e, amount - |out0|) == k
        decreases left, again
      {
        TimesSplit(u, k, k + 1);
        assert Times(u, 1) == u + [];
        Associative(out0, Times(u, k), u);
        if v.unicode {
          out := out + [event];
        } else {
          out := PushBytes(out, event, v.conv(event.ch));
        }
        left, k := left - 1, k + 1;
        again := left > 0 && |out| < amount;
      }
    }

    /** Pushes one stored event; left is how many of its repetitions are not pushed. */
    method PushEvent(out0: seq<Event>, e: Event, v: View, amount: nat) returns (out: seq<Event>, left: nat)
      requires |out0| < amount
      ensures out == out0 + TakenOf(v, e, amount - |out0|)
      ensures left == LeftOf(v, e, amount - |out0|)
    {
      if e.Key? {
        out, left := PushKey(out0, e, v, amount);
      } else {
        out, left := out0 + [e], 0;
      }
    }

    /** One stored event. A read that ends inside it leaves it with the repetitions that remain. */
    method GatherOne(out0: seq<Event>, it: nat, amount: nat, peek: bool, v: View,
                     ghost goal: seq<Event>, ghost rest: seq<Event>)
      returns (out: seq<Event>, stop: bool)
      requires Gathering(v, storage, it, out0, amount, peek, goal, rest) && it < |storage| && |out0| < amount
      modifies this`storage
      ensures if stop then !peek && out == goal && it <= |storage| && storage[it..] == rest
              else storage == old(storage) && Gathering(v, storage, it + 1, out, amount, peek, goal, rest)
    {
      var e := storage[it];
      GatherNext(v, storage, it, out0, amount, peek, goal, rest);
      var left;
      out, left := PushEvent(out0, e, v, amount);
      stop := left > 0 && !peek;
      if stop {
        ghost var tail := storage[it + 1..];
        storage := storage[it := e.(repeat := left)];
        assert storage[it..] == [e.(repeat := left)] + tail;
      }
    }

    /** The loop over the stored events. A read that ends inside an event leaves the repetitions that remain. */
    method Gather(out0: seq<Event>, amount: nat, peek: bool, v: View) returns (out: seq<Event>, it: nat)
      requires |out0| <= amount
      modifies this`storage
      ensures out == out0 + Taken(v, old(storage), amount - |out0|)
      ensures it <= |storage|
      ensures if peek then storage == old(storage) else storage[it..] == Rest(v, old(storage), amount - |out0|)
    {
      out, it := out0, 0;
      ghost var q, goal := storage, out0 + Taken(v, storage, amount - |out0|);
      ghost var rest := Rest(v, storage, amount - |out0|);
      assert q[0..] == q;
      var stop := false;
      while it < |storage| && |out| < amount
        invariant storage == q && Gathering(v, q, it, out, amount, peek, goal, rest)
      {
        out, stop := GatherOne(out, it, amount, peek, v, goal, rest);
        if stop {
          return;
        }
        it := it + 1;
      }
      NothingMore(v, q[it..], out, amount - |out|);
    }

    /** The queue as a read in this view meets it. */
    ghost function QueueFor(v: View): Queue
      reads this
    {
      Queue(storage, if mode == EventsMode(v) then cachedEvents else [])
    }

    /** Hands out cached records first; a peek copies them. */
    method TakeCached(v: View, amount: nat, peek: bool) returns (out: seq<Event>)
      modifies this`cachedEvents, this`cachedText, this`mode
      ensures var q := old(QueueFor(v)); var c := Min(amount, |q.cached|);
              out == q.cached[..c] && cachedEvents == (if peek then q.cached else q.cached[c..])
                && mode == EventsMode(v)
    {
      SwitchReadingMode(EventsMode(v));
      var c := if amount < |cachedEvents| then amount else |cachedEvents|;
      out := cachedEvents[..c];
      if !peek {
        cachedEvents := cachedEvents[c..];
      }
    }

    /** Trims the records to the amount asked for and caches the others. */
    method CacheExtra(out0: seq<Event>, amount: nat) returns (out: seq<Event>)
      modifies this`cachedEvents
      ensures var m := Min(amount, |out0|); out == out0[..m] && cachedEvents == old(cachedEvents) + out0[m..]
    {
      out := out0;
      if |out0| > amount {
        cachedEvents := cachedEvents + out0[amount..];
        out := out0[..amount];
      } else {
        assert out0[|out0|..] == [] && cachedEvents + [] == cachedEvents;
      }
    }

    method Fetch(amount: nat, peek: bool, v: View) returns (out: seq<Event>)
      modifies this`storage, this`cachedEvents, this`cachedText, this`mode
      ensures mode == EventsMode(v) && out == Out(v, old(QueueFor(v)), amount)
      ensures QueueFor(v) == (if peek then AfterPeek(v, old(QueueFor(v)), amount)
              else AfterRead(v, old(QueueFor(v)), amount))
    {
      out := TakeCached(v, amount, peek);
      var it;
      out, it := Gather(out, amount, peek, v);
      if !peek {
        storage := storage[it..];
      }
      out := CacheExtra(out, amount);
    }

    /** Reads or peeks up to amount records. Without peek, what is read and what is then pending are what was
        pending. wait tells the caller to wait for data. */
    method Read(amount: nat, peek: bool, waitForData: bool, v: View) returns (out: seq<Event>, wait: bool)
      requires Valid()
      modifies this
      ensures Valid() && mode == EventsMode(v) && env == old(env)
      ensures out == Out(v, old(QueueFor(v)), amount)
      ensures QueueFor(v) == (if peek then AfterPeek(v, old(QueueFor(v)), amount)
              else AfterRead(v, old(QueueFor(v)), amount))
      ensures wait == (waitForData && out == [])
      ensures signalled == (old(signalled) && !(out != [] && storage == []))
      ensures v.Ok() && old(signalled) && !peek ==>
                (!signalled && Pending(v, QueueFor(v)) != [] <==> EndsInside(v, old(QueueFor(v)), amount))
    {
      if v.Ok() { SilentWhilePendingIff(v, QueueFor(v), amount); }
      out := Fetch(amount, peek, v);
      wait := false;
      if out == [] {
        wait := waitForData;
      } else if storage == [] {
        signalled := false;
      }
    }

    // -- Writing events -------------------------------------------------------------------------------------

    /** Sets the event if events were stored into an empty buffer. */
    method WakeUpReaders(initiallyEmpty: bool)
      requires storage != [] && !initiallyEmpty ==> signalled
      modifies this`signalled
      ensures Valid() && signalled == (old(signalled) || (storage != [] && initiallyEmpty))
    {
      if storage != [] && initiallyEmpty {
        signalled := true;
      }
    }

    /** Merges a single event with the last one stored, if possible. */
    method TryCoalesce(e: Event) returns (done: bool)
      requires storage != []
      modifies this`storage
      ensures done == Coalesce(old(storage)[|old(storage)| - 1], e).Some?
      ensures storage == if done then Put(old(storage), e) else old(storage)
    {
      var last := storage[|storage| - 1];
      var merged := Coalesce(last, e);
      done := merged.Some?;
      if done {
        storage := storage[..|storage| - 1] + [merged.value];
      }
    }

    method WriteBuffer(events: seq<Event>, vt: seq<Option<wstring>>, nul: Event) returns (written: nat)
      requires |vt| == |events|
      modifies this`storage, this`env
      ensures (storage, env, written) == WriteFrom(old(storage), old(env), 0, events, vt, nul, |events| == 1)
    {
      written := 0;
      ghost var all := WriteFrom(storage, env, 0, events, vt, nul, |events| == 1);
      for i := 0 to |events|
        invariant all == WriteFrom(storage, env, written, events[i..], vt[i..], nul, |events| == 1)
      {
        var e := events[i];
        assert events[i..][1..] == events[i + 1..] && vt[i..][1..] == vt[i + 1..];
        if e.Key? && e.down {
          if env.suspended && !env.isSystemKey(e.vk) {
            env := env.(suspended := false);
            continue;
          }
          if env.lineInput && IsPauseKey(e) {
            env := env.(suspended := true);
            continue;
          }
        }
        if env.vtInput && vt[i].Some? {
          storage := storage + CharEvents(vt[i].value, nul);
          written := written + 1;
          continue;
        }
        if |events| == 1 && storage != [] {
          var done := TryCoalesce(e);
          if done {
            written := written + 1;
            return;
          }
        }
        storage := storage + [e];
        written := written + 1;
      }
    }

    method Write(events: seq<Event>, vt: seq<Option<wstring>>, nul: Event) returns (written: nat)
      requires Valid() && |vt| == |events|
      modifies this
      ensures Valid() && (storage, env, written) == WriteFrom(old(storage), old(env), 0, events, vt, nul, |events| == 1)
      ensures cachedEvents == old(cachedEvents) && cachedText == old(cachedText) && mode == old(mode)
    {
      if events == [] {
        return 0;
      }
      var initiallyEmpty := storage == [];
      written := WriteBuffer(events, vt, nul);
      WakeUpReaders(initiallyEmpty);
    }

    /** Writes events in front of those stored; they are merged among themselves only. */
    method Prepend(events: seq<Event>, vt: seq<Option<wstring>>, nul: Event) returns (written: nat)
      requires Valid() && |vt| == |events|
      modifies this
      ensures Valid()
      ensures var (s, n, w) := WriteFrom([], old(env), 0, events, vt, nul, |events| == 1);
              storage == s + old(storage) && env == n && written == w
      ensures cachedEvents == old(cachedEvents) && cachedText == old(cachedText) && mode == old(mode)
    {
      if events == [] {
        return 0;
      }
      var initiallyEmpty, existing := storage == [], storage;
      storage := [];
      written := WriteBuffer(events, vt, nul);
      storage := storage + existing;
      WakeUpReaders(initiallyEmpty);
    }

    method Flush()
      modifies this`storage, this`signalled
      ensures Valid() && storage == [] && !signalled
    {
      storage, signalled := [], false;
    }

    /** Removes all events that are not key events. */
    method FlushAllButKeys()
      requires Valid()
      modifies this`storage
      ensures Valid() && storage == KeysOf(old(storage))
    {
      var kept := [];
      for i := 0 to |storage|
        invariant kept + KeysOf(storage[i..]) == KeysOf(storage)
      {
        assert storage[i..][1..] == storage[i + 1..];
        if storage[i].Key? {
          kept := kept + [storage[i]];
        }
      }
      storage := kept;
    }

    // -- Text -----------------------------------------------------------------------------------------------

    /** Moves as much converted text as fits into a target of the given size; bytes that do not fit are kept for
        the next call. The text is read from unit pos on. */
    method ConsumeA(cp: InputText.CodePage, text: wstring, pos: nat, size: nat) returns (target: seq<byte>, pos': nat)
      requires pos <= |text|
      modifies this`cachedEvents, this`cachedText, this`mode
      ensures mode == StringA && pos' <= |text|
      ensures var r := InputText.Consume(cp, old(if mode == StringA then cachedText else []), text, pos, size);
              target == r.bytes && cachedText == r.cached && pos' == r.pos
    {
      SwitchReadingMode(StringA);
      var c := if size < |cachedText| then size else |cachedText|;
      target, pos' := cachedText[..c], pos;
      cachedText := cachedText[c..];
      var room := size - c;
      if pos == |text| || room == 0 {
        assert target + [] == target;
        return;
      }
      assert cachedText == [];
      var all := InputText.ConvFrom(cp, text, pos);
      if |all| <= room {
        target, pos' := target + all, |text|;
      } else {
        var bytes, left, read := SlowPath(cp, text, pos, room);
        target, cachedText, pos' := target + bytes, left, pos + read;
      }
    }

    /** The same without conversion: as many units as fit into the bytes of the target. Nothing is kept, because
        nothing is ever put into the cache for wide text. */
    method ConsumeW(text: wstring, pos: nat, size: nat) returns (target: wstring, pos': nat)
      requires pos <= |text|
      modifies this`cachedEvents, this`cachedText, this`mode
      ensures mode == StringW && pos <= pos' <= |text| && target == text[pos..pos']
      ensures 2 * |target| <= size && (pos' < |text| ==> size < 2 * (|target| + 1))
    {
      SwitchReadingMode(StringW);
      target, pos' := [], pos;
      if pos == |text| || size == 0 {
        return;
      }
      var count := if |text| - pos < size / 2 then |text| - pos else size / 2;
      target, pos' := text[pos..pos + count], pos + count;
    }

    /** Character-wise conversion while the target has space. */
    method SlowPath(cp: InputText.CodePage, text: wstring, pos: nat, size: nat)
      returns (bytes: seq<byte>, left: seq<byte>, read: nat)
      requires pos <= |text| && size > 0
      ensures InputText.Slowly(InputText.SlowFrom(cp, text, pos, size), bytes, left, read)
    {
      bytes, left, read := [], [], 0;
      var i, room := pos, size;
      ghost var all := InputText.SlowFrom(cp, text, pos, size);
      assert [] + all.bytes == all.bytes;
      while i < |text|
        invariant room > 0 && InputText.SlowSoFar(cp, text, all, bytes, read, i, room)
        decreases |text| - i
      {
        var b := InputText.ItemBytes(cp, text, i);
        InputText.SlowNext(cp, text, all, bytes, read, i, room);
        var k := if room < |b| then room else |b|;
        bytes := bytes + b[..k];
        room := room - k;
        read := read + 1;
        if room == 0 {
          if k < |b| {
            left := b[k..];
          }
          return;
        }
        i := i + InputText.ItemLen(text, i);
      }
      InputText.SlowEnds(cp, text, all, bytes, read, i, room);
    }
  }
}
