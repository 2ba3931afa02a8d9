/** Nested VT writers: output is collected while any writer is open and goes out as one write when the last closes. */
module VtWriter {
  import opened Basics

  type bytes = seq<int>

  /** ESC 7 saves the cursor, ESC 8 restores it. */
  const DECSC: bytes := [0x1b, 0x37]
  const DECRC: bytes := [0x1b, 0x38]

  datatype WriteResult = Done | Pending | BrokenPipe | Failure

  /** What the writer does with the front buffer and the overlapped write: waits for it, changes the buffer, or
      starts a write of its contents. */
  datatype Io = Await | Change | Start(data: bytes, pending: bool)

  /** `sent` is what was handed to the write call, `log` what was done with the buffers. */
  datatype State = State(corked: int, back: bytes, front: bytes, restore: bool, tainted: bool, pending: bool,
                         open: bool,
                         sent: seq<bytes>, log: seq<Io>)

  /** What the operating system answers to the wait and to the write of one flush. */
  datatype Answer = Answer(awaitOk: bool, write: WriteResult)

  // -- Flushing ---------------------------------------------------------------------------------------------

  /** Appends the restore sequence, waits for a pending write, and swaps the buffers. */
  function Swap(s: State, a: Answer): State {
    var back := if s.restore then s.back + DECRC else s.back;
    s.(restore := false, pending := false, open := s.open && (s.pending ==> a.awaitOk), front := back, back := [],
       log := s.log + (if s.pending then [Await] else []) + [Change])
  }

  function Send(s: State, a: Answer): State {
    s.(sent := s.sent + [s.front], pending := a.write.Pending?, open := !a.write.BrokenPipe?,
       log := s.log + [Start(s.front, a.write.Pending?)])
  }

  function Flushed(s: State, a: Answer): State {
    var minSize := if s.restore then 4 else 0;
    var s' := Swap(s, a);
    if s'.tainted then s'.(tainted := false)
    else if |s'.front| <= minSize || !s'.open then s'
    else Send(s', a)
  }

  function Uncorked(s: State, a: Answer): State {
    var s' := s.(corked := s.corked - 1);
    if s'.corked <= 0 then Flushed(s', a) else s'
  }

  // -- Events -----------------------------------------------------------------------------------------------

  /** What happens to writers: one is opened, text is written, the cursor is saved, one is submitted, or one is
      destroyed without having been submitted. */
  datatype Event = Open | Text(t: bytes) | Backup | Submit(a: Answer) | Drop(a: Answer)

  function Step(s: State, e: Event): State {
    match e
    case Open => s.(corked := s.corked + 1)
    case Text(t) => s.(back := s.back + t)
    case Backup => if s.restore then s else s.(restore := true, back := s.back + DECSC)
    case Submit(a) => Uncorked(s, a)
    case Drop(a) => Uncorked(s.(tainted := true), a)
  }

  function Run(s: State, es: seq<Event>): State
    decreases |es|
  {
    if es == [] then s else Step(Run(s, es[..|es| - 1]), es[|es| - 1])
  }

  // -- The pending write ------------------------------------------------------------------------------------

  /** Whether a write is pending after the log. */
  function InFlight(log: seq<Io>): bool {
    log != [] && match log[|log| - 1]
                 case Await => false
                 case Change => InFlight(log[..|log| - 1])
                 case Start(_, p) => p
  }

  /** The front buffer is never changed, and no write started, while one is pending. */
  ghost predicate Safe(log: seq<Io>) {
    forall i :: 0 <= i < |log| && !log[i].Await? ==> !InFlight(log[..i])
  }

  ghost predicate LogOk(s: State) { Safe(s.log) && InFlight(s.log) == s.pending }

  lemma SafeSnoc(log: seq<Io>, x: Io)
    requires Safe(log) && (x.Await? || !InFlight(log))
    ensures Safe(log + [x])
    ensures InFlight(log + [x]) == match x case Await => false case Change => InFlight(log) case Start(_, p) => p
  {
    var log' := log + [x];
    assert log'[..|log|] == log;
    forall i | 0 <= i < |log'| && !log'[i].Await? ensures !InFlight(log'[..i]) {
      if i < |log| { assert log'[..i] == log[..i]; }
    }
  }

  lemma SwapIsSafe(s: State, a: Answer)
    requires LogOk(s)
    ensures LogOk(Swap(s, a)) && !Swap(s, a).pending
  {
    if s.pending {
      SafeSnoc(s.log, Await);
      SafeSnoc(s.log + [Await], Change);
    } else {
      assert s.log + [] == s.log;
      SafeSnoc(s.log, Change);
    }
  }

  lemma FlushIsSafe(s: State, a: Answer)
    requires LogOk(s)
    ensures LogOk(Flushed(s, a))
  {
    SwapIsSafe(s, a);
    var s' := Swap(s, a);
    SafeSnoc(s'.log, Start(s'.front, a.write.Pending?));
  }

  lemma StepIsSafe(s: State, e: Event)
    requires LogOk(s)
    ensures LogOk(Step(s, e))
  {
    match e
    case Submit(a) => UncorkIsSafe(s, a);
    case Drop(a) => UncorkIsSafe(s.(tainted := true), a);
    case _ =>
  }

  lemma UncorkIsSafe(s: State, a: Answer)
    requires LogOk(s)
    ensures LogOk(Uncorked(s, a))
  {
    FlushIsSafe(s.(corked := s.corked - 1), a);
  }

  /** Over any run whatever, the front buffer is left alone while a write from it is pending. */
  lemma {:induction false} RunIsSafe(s: State, es: seq<Event>)
    requires LogOk(s)
    ensures LogOk(Run(s, es))
    decreases |es|
  {
    if es == [] {
    } else {
      RunIsSafe(s, es[..|es| - 1]);
      StepIsSafe(Run(s, es[..|es| - 1]), es[|es| - 1]);
    }
  }

  // -- Batches ----------------------------------------------------------------------------------------------

  function Depth(es: seq<Event>): int {
    if es == [] then 0
    else Depth(es[..|es| - 1]) + match es[|es| - 1] case Open => 1 case Submit(_) => -1 case Drop(_) => -1 case _ => 0
  }

  /** Properly nested and still open: every non-empty prefix leaves a writer open. */
  ghost predicate StaysOpen(es: seq<Event>) {
    forall i :: 0 < i <= |es| ==> Depth(es[..i]) > 0
  }

  /** A batch: the first writer opened, and everything up to the one that closes last. */
  ghost predicate Batch(es: seq<Event>) {
    |es| > 1 && StaysOpen(es[..|es| - 1]) && Depth(es) == 0
  }

  predicate Dropped(es: seq<Event>) { es != [] && (Dropped(es[..|es| - 1]) || es[|es| - 1].Drop?) }

  predicate Saved(es: seq<Event>) { es != [] && (Saved(es[..|es| - 1]) || es[|es| - 1].Backup?) }

  /** Everything written, with the save sequence where the cursor was first saved. */
  function Collected(es: seq<Event>): bytes {
    if es == [] then [] else Collected(es[..|es| - 1]) + Added(Saved(es[..|es| - 1]), es[|es| - 1])
  }

  function Added(saved: bool, e: Event): bytes {
    match e case Text(t) => t case Backup => (if saved then [] else DECSC) case _ => []
  }

  /** The text alone. */
  function TextOf(es: seq<Event>): bytes {
    if es == [] then [] else TextOf(es[..|es| - 1]) + if es[|es| - 1].Text? then es[|es| - 1].t else []
  }

  /** No writer is open and nothing is waiting to be sent. */
  predicate Idle(s: State) { s.corked == 0 && s.back == [] && !s.restore && !s.tainted }

  /** While a writer is open nothing is sent; output, save and taint are only collected. */
  lemma {:induction false} OpenCollects(s: State, es: seq<Event>)
    requires Idle(s) && StaysOpen(es)
    ensures Run(s, es) == s.(corked := Depth(es), back := Collected(es), restore := Saved(es), tainted := Dropped(es))
    decreases |es|
  {
    if es == [] {
    } else {
      var init, e := es[..|es| - 1], es[|es| - 1];
      forall i | 0 < i <= |init| ensures Depth(init[..i]) > 0 { assert init[..i] == es[..i]; }
      OpenCollects(s, init);
      assert es[..|es|] == es && Depth(es) > 0;
      assert Collected(init) + [] == Collected(init);
    }
  }

  lemma {:induction false} CollectedLength(es: seq<Event>)
    ensures |Collected(es)| == |TextOf(es)| + if Saved(es) then 2 else 0
    decreases |es|
  {
    if es == [] {
    } else {
      CollectedLength(es[..|es| - 1]);
    }
  }

  /** What a batch is sent as: everything collected, and the cursor restored if it was saved. */
  function Message(es: seq<Event>): bytes {
    Collected(es) + if Saved(es) then DECRC else []
  }

  /** The way to the terminal: whether it is open, and whether a write is pending. */
  datatype Link = Link(open: bool, pending: bool)

  function LinkOf(s: State): Link { Link(s.open, s.pending) }

  predicate Reaches(l: Link, a: Answer) { l.open && (l.pending ==> a.awaitOk) }

  function NextLink(l: Link, goesOut: bool, a: Answer): Link {
    if goesOut then Link(!a.write.BrokenPipe?, a.write.Pending?) else Link(Reaches(l, a), false)
  }

  /** A flush ends idle, and sends what was collected unless tainted, empty, or without a terminal. */
  lemma FlushSends(s: State, a: Answer, text: nat)
    requires s.corked == 0 && |s.back| == text + if s.restore then 2 else 0
    ensures var s' := Flushed(s, a);
            var goesOut := !s.tainted && text > 0 && Reaches(LinkOf(s), a);
            && Idle(s') && LinkOf(s') == NextLink(LinkOf(s), goesOut, a)
            && s'.sent == s.sent + One(goesOut, s.back + if s.restore then DECRC else [])
  {
    assert s.back + [] == s.back && s.sent + [] == s.sent;
  }

  function One(b: bool, x: bytes): seq<bytes> { if b then [x] else [] }

  predicate Closes(e: Event) { e.Submit? || e.Drop? }

  function AnswerOf(e: Event): Answer
    requires Closes(e)
  {
    match e case Submit(a) => a case Drop(a) => a
  }

  lemma BatchEnds(es: seq<Event>)
    requires Batch(es)
    ensures var init, e := es[..|es| - 1], es[|es| - 1];
            && Closes(e) && Depth(init) == 1 && StaysOpen(init)
            && Collected(es) == Collected(init) && TextOf(es) == TextOf(init) && Saved(es) == Saved(init)
            && Dropped(es) == (Dropped(init) || e.Drop?)
  {
    var init := es[..|es| - 1];
    assert init[..|init|] == init && Depth(init) > 0;
    assert Collected(init) + [] == Collected(init) && TextOf(init) + [] == TextOf(init);
  }

  /** A batch is sent if no writer was dropped, text was written, and the terminal is there. */
  predicate GoesOut(l: Link, es: seq<Event>)
    requires es != [] && Closes(es[|es| - 1])
  {
    !Dropped(es) && TextOf(es) != [] && Reaches(l, AnswerOf(es[|es| - 1]))
  }

  /** When the last writer closes, the whole batch goes out as one write, or nothing does. */
  lemma BatchIsAtomic(s: State, es: seq<Event>)
    requires Idle(s) && Batch(es)
    ensures Closes(es[|es| - 1])
    ensures var s', goesOut := Run(s, es), GoesOut(LinkOf(s), es);
            && Idle(s') && LinkOf(s') == NextLink(LinkOf(s), goesOut, AnswerOf(es[|es| - 1]))
            && s'.sent == s.sent + One(goesOut, Message(es))
  {
    var init, e := es[..|es| - 1], es[|es| - 1];
    BatchEnds(es);
    OpenCollects(s, init);
    CollectedLength(init);
    var s1 := s.(corked := 0, back := Collected(init), restore := Saved(init), tainted := Dropped(es));
    assert Run(s, es) == Flushed(s1, AnswerOf(e));
    FlushSends(s1, AnswerOf(e), |TextOf(init)|);
  }

  // -- The terminal -----------------------------------------------------------------------------------------

  /** A terminal, as far as saving goes: the cursor, the one saved, and whether an escape sequence has begun. */
  datatype Terminal<C> = Terminal(cursor: C, saved: C, escape: bool)

  /** ESC 7 saves the cursor and ESC 8 restores it; whatever else a byte does to the cursor, `move` says. */
  function Shown<C>(move: (C, int) -> C, t: Terminal<C>, b: int): Terminal<C> {
    if b == 0x1b then t.(escape := true)
    else if t.escape && b == 0x37 then Terminal(t.cursor, t.cursor, false)
    else if t.escape && b == 0x38 then Terminal(t.saved, t.saved, false)
    else Terminal(move(t.cursor, b), t.saved, false)
  }

  function ShownAll<C>(move: (C, int) -> C, t: Terminal<C>, s: bytes): Terminal<C> {
    if s == [] then t else Shown(move, ShownAll(move, t, s[..|s| - 1]), s[|s| - 1])
  }

  lemma {:induction false} ShownConcat<C>(move: (C, int) -> C, t: Terminal<C>, a: bytes, b: bytes)
    ensures ShownAll(move, t, a + b) == ShownAll(move, ShownAll(move, t, a), b)
    decreases |b|
  {
    if b == [] {
      assert a + b == a;
    } else {
      assert (a + b)[..|a + b| - 1] == a + b[..|b| - 1];
      ShownConcat(move, t, a, b[..|b| - 1]);
    }
  }

  /** The text neither saves nor restores by itself, nor ends within an escape sequence. */
  predicate Harmless(s: bytes) {
    forall i :: 0 <= i < |s| && s[i] == 0x1b ==> i + 1 < |s| && s[i + 1] != 0x37 && s[i + 1] != 0x38
  }

  lemma {:induction false} HarmlessKeepsSaved<C>(move: (C, int) -> C, t: Terminal<C>, s: bytes, n: nat)
    requires Harmless(s) && !t.escape && n <= |s|
    ensures var r := ShownAll(move, t, s[..n]); r.saved == t.saved && r.escape == (n > 0 && s[n - 1] == 0x1b)
  {
    if n == 0 {
    } else {
      HarmlessKeepsSaved(move, t, s, n - 1);
      assert s[..n][..n - 1] == s[..n - 1];
    }
  }

  lemma SaveAndRestore<C>(move: (C, int) -> C, t: Terminal<C>)
    ensures ShownAll(move, t, DECSC) == Terminal(t.cursor, t.cursor, false)
    ensures ShownAll(move, t, DECRC) == Terminal(t.saved, t.saved, false)
  {
    assert DECSC[..1] == [0x1b] && DECRC[..1] == [0x1b] && DECSC[..1][..0] == [];
    assert ShownAll(move, t, DECSC[..1][..0]) == t;
    assert ShownAll(move, t, DECSC[..1]) == t.(escape := true);
  }

  ghost predicate AllHarmless(es: seq<Event>) { forall i :: 0 <= i < |es| && es[i].Text? ==> Harmless(es[i].t) }

  /** The text written before the cursor was first saved, or all of it. */
  function TextBeforeSave(es: seq<Event>): bytes {
    if es == [] then [] else if Saved(es[..|es| - 1]) then TextBeforeSave(es[..|es| - 1]) else TextOf(es)
  }

  /** What was collected has the terminal save the cursor where it was first asked to. */
  ghost predicate SavedThere<C>(move: (C, int) -> C, t: Terminal<C>, es: seq<Event>) {
    var r := ShownAll(move, t, Collected(es));
    && !r.escape
    && if Saved(es) then r.saved == ShownAll(move, t, TextBeforeSave(es)).cursor
       else Collected(es) == TextOf(es) == TextBeforeSave(es)
  }

  lemma SavedAfter<C>(move: (C, int) -> C, t: Terminal<C>, init: seq<Event>, es: seq<Event>, e: Event)
    requires es == init + [e] && SavedThere(move, t, init) && (e.Text? ==> Harmless(e.t))
    ensures SavedThere(move, t, es)
  {
    assert es[..|es| - 1] == init;
    var part := Added(Saved(init), e);
    ShownConcat(move, t, Collected(init), part);
    var r := ShownAll(move, t, Collected(init));
    if e.Text? {
      HarmlessKeepsSaved(move, r, e.t, |e.t|);
      assert e.t[..|e.t|] == e.t;
    } else {
      SaveAndRestore(move, r);
      assert TextOf(init) + [] == TextOf(init);
    }
  }

  lemma {:induction false} CollectedSaves<C>(move: (C, int) -> C, t: Terminal<C>, es: seq<Event>)
    requires AllHarmless(es) && !t.escape
    ensures SavedThere(move, t, es)
    decreases |es|
  {
    if es == [] {
    } else {
      var init := es[..|es| - 1];
      assert es == init + [es[|es| - 1]];
      CollectedSaves(move, t, init);
      SavedAfter(move, t, init, es, es[|es| - 1]);
    }
  }

  /** A batch that goes out leaves the cursor where it was when it was first saved: unmoved, if that came first. */
  lemma BatchRestoresCursor<C>(move: (C, int) -> C, t: Terminal<C>, s: State, es: seq<Event>)
    requires Idle(s) && Batch(es) && AllHarmless(es) && Saved(es) && !t.escape
    ensures Closes(es[|es| - 1])
    ensures GoesOut(LinkOf(s), es) ==>
              var sent := Run(s, es).sent;
              && |sent| == |s.sent| + 1
              && ShownAll(move, t, sent[|s.sent|]).cursor == ShownAll(move, t, TextBeforeSave(es)).cursor
  {
    BatchIsAtomic(s, es);
    CollectedSaves(move, t, es);
    ShownConcat(move, t, Collected(es), DECRC);
    SaveAndRestore(move, ShownAll(move, t, Collected(es)));
  }

  // -- Runs of batches --------------------------------------------------------------------------------------

  ghost predicate AllBatches(bs: seq<seq<Event>>) { forall i :: 0 <= i < |bs| ==> Batch(bs[i]) }

  /** All the events of the batches. */
  function Events(bs: seq<seq<Event>>): seq<Event> {
    if bs == [] then [] else Events(bs[..|bs| - 1]) + bs[|bs| - 1]
  }

  lemma {:induction false} RunConcat(s: State, a: seq<Event>, b: seq<Event>)
    ensures Run(s, a + b) == Run(Run(s, a), b)
    decreases |b|
  {
    if b == [] {
      assert a + b == a;
    } else {
      var init := b[..|b| - 1];
      assert (a + b)[..|a + b| - 1] == a + init;
      RunConcat(s, a, init);
    }
  }

  /** The link after the batches and the messages that went out, one for each batch sent. */
  ghost function Outcome(l: Link, bs: seq<seq<Event>>): (Link, seq<bytes>)
    requires AllBatches(bs)
    decreases |bs|
  {
    if bs == [] then (l, [])
    else
      var b := bs[|bs| - 1];
      BatchEnds(b);
      var (l', sent) := Outcome(l, bs[..|bs| - 1]);
      (NextLink(l', GoesOut(l', b), AnswerOf(b[|b| - 1])), sent + One(GoesOut(l', b), Message(b)))
  }

  /** Over every run of batches each one goes out whole, in order, or not at all, and nothing else does. */
  lemma {:induction false} BatchesGoOutInOrder(s: State, bs: seq<seq<Event>>)
    requires Idle(s) && AllBatches(bs)
    ensures var s', r := Run(s, Events(bs)), Outcome(LinkOf(s), bs);
            Idle(s') && LinkOf(s') == r.0 && s'.sent == s.sent + r.1
    decreases |bs|
  {
    if bs == [] {
      assert s.sent + [] == s.sent;
    } else {
      var init, b := bs[..|bs| - 1], bs[|bs| - 1];
      BatchesGoOutInOrder(s, init);
      var m, r := Run(s, Events(init)), Outcome(LinkOf(s), init);
      RunConcat(s, Events(init), b);
      BatchIsAtomic(m, b);
      Associative(s.sent, r.1, One(GoesOut(r.0, b), Message(b)));
    }
  }

  /** The terminal takes every write. */
  ghost predicate Healthy(bs: seq<seq<Event>>) {
    forall i :: 0 <= i < |bs| ==> HealthyEnd(bs[i])
  }

  predicate Takes(a: Answer) { a.awaitOk && (a.write.Done? || a.write.Pending?) }

  predicate HealthyEnd(b: seq<Event>) {
    b != [] && Closes(b[|b| - 1]) && Takes(AnswerOf(b[|b| - 1]))
  }

  /** The messages of the batches with text in which every writer was submitted. */
  function Messages(bs: seq<seq<Event>>): seq<bytes> {
    if bs == [] then []
    else var b := bs[|bs| - 1]; Messages(bs[..|bs| - 1]) + One(!Dropped(b) && TextOf(b) != [], Message(b))
  }

  /** On a terminal that takes every write, exactly those batches go out. */
  lemma {:induction false} HealthyBatchesGoOut(l: Link, bs: seq<seq<Event>>)
    requires AllBatches(bs) && Healthy(bs) && l.open
    ensures Outcome(l, bs).0.open && Outcome(l, bs).1 == Messages(bs)
    decreases |bs|
  {
    if bs == [] {
    } else {
      HealthyBatchesGoOut(l, bs[..|bs| - 1]);
      assert HealthyEnd(bs[|bs| - 1]);
    }
  }

  ghost predicate SavesOnce(before: seq<Event>, after: seq<Event>) {
    var es := before + [Backup] + after;
    Saved(es) && Collected(es) == TextOf(before) + DECSC + TextOf(after)
  }

  /** Events in which the cursor is saved collect one save sequence, where it was first saved, among the text. */
  lemma {:induction false} OneSave(before: seq<Event>, after: seq<Event>)
    requires !Saved(before)
    ensures SavesOnce(before, after)
    decreases |after|
  {
    if after == [] {
      NoneAfter(before);
    } else {
      OneSave(before, after[..|after| - 1]);
      OneMore(before, after[..|after| - 1], after[|after| - 1]);
      assert after[..|after| - 1] + [after[|after| - 1]] == after;
    }
  }

  lemma NoneAfter(before: seq<Event>)
    requires !Saved(before)
    ensures SavesOnce(before, [])
  {
    assert before + [Backup] + [] == before + [Backup];
    FirstSave(before);
    assert TextOf(before) + DECSC + [] == TextOf(before) + DECSC;
  }

  lemma OneMore(before: seq<Event>, after: seq<Event>, e: Event)
    requires SavesOnce(before, after)
    ensures SavesOnce(before, after + [e])
  {
    var init := before + [Backup] + after;
    assert before + [Backup] + (after + [e]) == init + [e];
    SavedSnoc(init, e);
    OneSaveSnoc(init, e, after, TextOf(before) + DECSC);
  }

  lemma FirstSave(es: seq<Event>)
    requires !Saved(es)
    ensures Saved(es + [Backup]) && Collected(es + [Backup]) == TextOf(es) + DECSC
  {
    NoSave(es);
    CollectedSnoc(es, Backup);
  }

  lemma SavedSnoc(es: seq<Event>, e: Event)
    ensures Saved(es) ==> Saved(es + [e])
  {
    assert (es + [e])[..|es|] == es;
  }

  lemma CollectedSnoc(es: seq<Event>, e: Event)
    ensures Collected(es + [e]) == Collected(es) + Added(Saved(es), e)
  {
    assert (es + [e])[..|es|] == es;
  }

  lemma OneSaveSnoc(init: seq<Event>, e: Event, after: seq<Event>, before: bytes)
    requires Saved(init) && Collected(init) == before + TextOf(after)
    ensures Collected(init + [e]) == before + TextOf(after + [e])
  {
    var t := if e.Text? then e.t else [];
    calc {
      Collected(init + [e]);
    == { CollectedSnoc(init, e); }
      Collected(init) + t;
    ==
      before + TextOf(after) + t;
    == { Associative(before, TextOf(after), t); }
      before + (TextOf(after) + t);
    == { TextSnoc(after, e); }
      before + TextOf(after + [e]);
    }
  }

  lemma TextSnoc(es: seq<Event>, e: Event)
    ensures TextOf(es + [e]) == TextOf(es) + if e.Text? then e.t else []
  {
    assert (es + [e])[..|es|] == es;
  }

  lemma {:induction false} NoSave(es: seq<Event>)
    requires !Saved(es)
    ensures Collected(es) == TextOf(es)
    decreases |es|
  {
    if es == [] {
    } else {
      NoSave(es[..|es| - 1]);
    }
  }

  // -- The classes ------------------------------------------------------------------------------------------

  class VtIo {
    var corked: int
    var back: bytes
    var front: bytes
    var writerRestoreCursor: bool
    var writerTainted: bool
    var overlappedPending: bool
    var outputOpen: bool
    ghost var sent: seq<bytes>
    ghost var log: seq<Io>

    ghost function St(): State
      reads this
    {
      State(corked, back, front, writerRestoreCursor, writerTainted, overlappedPending, outputOpen, sent, log)
    }

    constructor ()
      ensures Idle(St()) && LogOk(St()) && St().open && St().sent == []
    {
      corked, back, front := 0, [], [];
      writerRestoreCursor, writerTainted, overlappedPending, outputOpen := false, false, false, true;
      sent, log := [], [];
    }

    method FlushNow(a: Answer)
      modifies this
      ensures St() == Flushed(old(St()), a)
    {
      var minSize := 0;
      if writerRestoreCursor {
        minSize := 4;
        writerRestoreCursor := false;
        back := back + DECRC;
      }
      log := log + if overlappedPending then [Await] else [];
      if overlappedPending {
        overlappedPending := false;
        if !a.awaitOk {
          outputOpen := false;
        }
      }
      front, back := back, [];
      log := log + [Change];
      if writerTainted {
        writerTainted := false;
        return;
      }
      if |front| <= minSize {
        return;
      }
      if !outputOpen {
        return;
      }
      sent, log := sent + [front], log + [Start(front, a.write.Pending?)];
      match a.write
      case Done =>
      case BrokenPipe => outputOpen := false;
      case Pending => overlappedPending := true;
      case Failure =>
    }

    method Uncork(a: Answer)
      modifies this
      ensures St() == Uncorked(old(St()), a)
    {
      corked := corked - 1;
      if corked <= 0 {
        FlushNow(a);
      }
    }
  }

  class Writer {
    var io: VtIo?

    /** A writer without a terminal does nothing. */
    constructor (io: VtIo?)
      modifies io
      ensures this.io == io && (io != null ==> io.St() == Step(old(io.St()), Open))
    {
      this.io := io;
      new;
      if io != null {
        io.corked := io.corked + 1;
      }
    }

    method Submit(a: Answer)
      requires io != null
      modifies this, io
      ensures io == null && old(io).St() == Step(old(io.St()), Event.Submit(a))
    {
      var target := io;
      io := null;
      target.Uncork(a);
    }

    /** The destructor: a writer that was not submitted taints the batch. */
    method Destroy(a: Answer)
      modifies this, io
      ensures io == null
      ensures old(io) != null ==> old(io).St() == Step(old(io.St()), Drop(a))
    {
      if io != null {
        var target := io;
        io := null;
        target.writerTainted := true;
        target.Uncork(a);
      }
    }

    method BackupCursor()
      requires io != null
      modifies io
      ensures io.St() == Step(old(io.St()), Backup)
    {
      if !io.writerRestoreCursor {
        io.writerRestoreCursor := true;
        io.back := io.back + DECSC;
      }
    }

    method WriteUtf8(t: bytes)
      requires io != null
      modifies io
      ensures io.St() == Step(old(io.St()), Text(t))
    {
      io.back := io.back + t;
    }
  }
}
