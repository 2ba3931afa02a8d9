/** The cursor and the boundaries between graphemes: which keys keep it on one. */
module GraphemeEditing {
  import opened Basics
  import opened Wide
  import opened LineEditing

  // -- Any segmentation -------------------------------------------------------------------------------------

  /** A place reached from the start of the text grapheme by grapheme. */
  ghost predicate Boundary(e: Env, s: wstring, i: nat) { exists n: nat :: Nth(e, s, 0, n) == i }

  /** At the n-th boundary going back undoes going on. */
  ghost predicate CoherentAt(e: Env, s: wstring, n: nat) {
    Nth(e, s, 0, n) < |s| ==> GraphemePrev(e, s, Nth(e, s, 0, n + 1)) == Nth(e, s, 0, n)
  }

  ghost predicate Coherent(e: Env, s: wstring) { forall n: nat :: CoherentAt(e, s, n) }

  lemma {:induction false} NthNext(e: Env, s: wstring, c: nat, n: nat)
    requires c <= |s|
    ensures Nth(e, s, c, n + 1) == GraphemeNext(e, s, Nth(e, s, c, n))
    decreases n
  {
    if n == 0 {
    } else {
      NthNext(e, s, GraphemeNext(e, s, c), n - 1);
    }
  }

  lemma NextIsBoundary(e: Env, s: wstring, i: nat)
    requires i <= |s| && Boundary(e, s, i)
    ensures Boundary(e, s, GraphemeNext(e, s, i))
  {
    var n: nat :| Nth(e, s, 0, n) == i;
    NthNext(e, s, 0, n);
  }

  lemma {:induction false} PrevOfNth(e: Env, s: wstring, n: nat)
    requires Coherent(e, s) && Nth(e, s, 0, n) > 0
    ensures var i := Nth(e, s, 0, n);
            Boundary(e, s, GraphemePrev(e, s, i)) && GraphemeNext(e, s, GraphemePrev(e, s, i)) == i
    decreases n
  {
    if n == 0 {
    } else {
      NthNext(e, s, 0, n - 1);
      assert CoherentAt(e, s, n - 1);
      if Nth(e, s, 0, n - 1) == |s| { PrevOfNth(e, s, n - 1); }
    }
  }

  lemma PrevIsBoundary(e: Env, s: wstring, i: nat)
    requires Coherent(e, s) && 0 < i <= |s| && Boundary(e, s, i)
    ensures Boundary(e, s, GraphemePrev(e, s, i)) && GraphemeNext(e, s, GraphemePrev(e, s, i)) == i
  {
    var n: nat :| Nth(e, s, 0, n) == i;
    PrevOfNth(e, s, n);
  }

  lemma {:induction false} CountReachesEnd(e: Env, s: wstring, c: nat)
    requires c <= |s|
    ensures Nth(e, s, c, Count(e, s, c)) == |s|
    decreases |s| - c
  {
    if c == |s| {
    } else {
      CountReachesEnd(e, s, GraphemeNext(e, s, c));
    }
  }

  lemma EndsAreBoundaries(e: Env, s: wstring)
    ensures Boundary(e, s, 0) && Boundary(e, s, |s|)
  {
    assert Nth(e, s, 0, 0) == 0;
    CountReachesEnd(e, s, 0);
  }

  ghost predicate OnBoundary(e: Env, s: State) {
    s.text.cursor <= |s.text.buffer| && Boundary(e, s.text.buffer, s.text.cursor)
  }

  /** Keys that move by graphemes or to an end, or put the cursor behind a recalled text. */
  predicate MovesByGrapheme(key: Key, mods: Mods) {
    match key
    case Left => !mods.ctrl
    case Right => !mods.ctrl
    case Home => true
    case End => true
    case Escape => true
    case Up => true
    case Down => true
    case PageUp => true
    case PageDown => true
    case F1 => true
    case F5 => true
    case _ => false
  }

  lemma LeftKeepsBoundary(e: Env, s: State)
    requires OnBoundary(e, s) && Coherent(e, s.text.buffer)
    ensures OnBoundary(e, OnLeft(e, s, false))
  {
    if s.text.cursor > 0 { PrevIsBoundary(e, s.text.buffer, s.text.cursor); }
  }

  lemma RightKeepsBoundary(e: Env, s: State)
    requires OnBoundary(e, s)
    ensures OnBoundary(e, OnRight(e, s, false))
  {
    NextIsBoundary(e, s.text.buffer, s.text.cursor);
    EndsAreBoundaries(e, OnRight(e, s, false).text.buffer);
  }

  lemma EndsKeepBoundary(e: Env, s: State, ctrl: bool)
    requires OnBoundary(e, s)
    ensures OnBoundary(e, OnHome(s, ctrl)) && OnBoundary(e, OnEnd(s, ctrl))
  {
    EndsAreBoundaries(e, OnHome(s, ctrl).text.buffer);
    EndsAreBoundaries(e, OnEnd(s, ctrl).text.buffer);
  }

  lemma RecallIsOnBoundary(e: Env, s: State, key: Key)
    requires OnBoundary(e, s)
    ensures OnBoundary(e, OnHistoryKey(s, key))
  {
    EndsAreBoundaries(e, OnHistoryKey(s, key).text.buffer);
  }

  /** With any segmentation whose two directions undo each other on boundaries, these keys keep the cursor on one. */
  lemma MovingKeepsBoundary(e: Env, s: State, key: Key, mods: Mods)
    requires OnBoundary(e, s) && Coherent(e, s.text.buffer) && MovesByGrapheme(key, mods)
    ensures OnBoundary(e, OnKey(e, s, key, mods))
  {
    match key
    case Left => LeftKeepsBoundary(e, s);
    case Right => RightKeepsBoundary(e, s);
    case F1 => RightKeepsBoundary(e, s);
    case Home => EndsKeepBoundary(e, s, mods.ctrl);
    case End => EndsKeepBoundary(e, s, mods.ctrl);
    case Escape => EndsAreBoundaries(e, OnKey(e, s, key, mods).text.buffer);
    case _ => RecallIsOnBoundary(e, s, key);
  }

  ghost predicate AlwaysCoherent(e: Env) { forall s :: Coherent(e, s) }

  predicate IsMove(input: Input) { input.Vkey? && MovesByGrapheme(input.key, input.mods) }

  lemma MoveKeepsBoundary(e: Env, s: State, input: Input)
    requires AlwaysCoherent(e) && OnBoundary(e, s) && s.popups == [] && IsMove(input)
    ensures OnBoundary(e, Step(e, s, input)) && Step(e, s, input).popups == []
  {
    assert Coherent(e, s.text.buffer);
    MovingKeepsBoundary(e, s, input.key, input.mods);
  }

  /** Over every run of such keys the cursor stays on boundaries. */
  lemma {:induction false} MovingStaysOnBoundaries(e: Env, s: State, inputs: seq<Input>, n: nat)
    requires AlwaysCoherent(e) && Inv(e, s) && OnBoundary(e, s) && s.popups == [] && n <= |inputs|
    requires forall i :: 0 <= i < |inputs| ==> IsMove(inputs[i])
    ensures OnBoundary(e, Fed(e, s, inputs, n)) && Fed(e, s, inputs, n).popups == []
    decreases n
  {
    if n == 0 {
    } else {
      MovingStaysOnBoundaries(e, s, inputs, n - 1);
      MoveKeepsBoundary(e, Fed(e, s, inputs, n - 1), inputs[n - 1]);
    }
  }

  /** The state after k steps to the left, and after k steps to the right. */
  function Lefts(e: Env, s: State, k: nat): (r: State)
    requires s.text.cursor <= |s.text.buffer|
    ensures r.text.cursor <= |r.text.buffer| && r.text.buffer == s.text.buffer
  {
    if k == 0 then s else OnLeft(e, Lefts(e, s, k - 1), false)
  }

  function Rights(e: Env, s: State, k: nat): (r: State)
    requires s.text.cursor <= |s.text.buffer|
    ensures r.text.cursor <= |r.text.buffer|
  {
    if k == 0 then s else OnRight(e, Rights(e, s, k - 1), false)
  }

  lemma {:induction false} LeftsAreOnBoundary(e: Env, s: State, k: nat)
    requires OnBoundary(e, s) && Coherent(e, s.text.buffer)
    ensures OnBoundary(e, Lefts(e, s, k))
    decreases k
  {
    if k == 0 {
    } else {
      LeftsAreOnBoundary(e, s, k - 1);
      LeftKeepsBoundary(e, Lefts(e, s, k - 1));
    }
  }

  lemma {:induction false} LeftsDescend(e: Env, s: State, j: nat, k: nat)
    requires s.text.cursor <= |s.text.buffer| && j <= k
    ensures Lefts(e, s, k).text.cursor <= Lefts(e, s, j).text.cursor
    decreases k
  {
    if j == k {
    } else {
      LeftsDescend(e, s, j, k - 1);
    }
  }

  ghost predicate SamePlace(s: State, r: State) { r.text.buffer == s.text.buffer && r.text.cursor == s.text.cursor }

  lemma RightUndoesLeft(e: Env, s: State, left: State, back: State)
    requires OnBoundary(e, s) && Coherent(e, s.text.buffer) && s.text.cursor > 0
    requires left == OnLeft(e, s, false) && SamePlace(left, back)
    ensures back.text.cursor <= |back.text.buffer| && SamePlace(s, OnRight(e, back, false))
  {
    PrevIsBoundary(e, s.text.buffer, s.text.cursor);
  }

  lemma {:induction false} RightsUndoLefts(e: Env, s: State, k: nat, j: nat)
    requires OnBoundary(e, s) && Coherent(e, s.text.buffer) && j <= k
    requires k > 0 ==> Lefts(e, s, k - 1).text.cursor > 0
    ensures SamePlace(Lefts(e, s, k - j), Rights(e, Lefts(e, s, k), j))
    decreases j
  {
    if j == 0 {
    } else {
      RightsUndoLefts(e, s, k, j - 1);
      RightsNext(e, s, k - j, k, Rights(e, Lefts(e, s, k), j - 1));
    }
  }

  lemma RightsNext(e: Env, s: State, i: nat, k: nat, back: State)
    requires OnBoundary(e, s) && Coherent(e, s.text.buffer) && i < k && Lefts(e, s, k - 1).text.cursor > 0
    requires SamePlace(Lefts(e, s, i + 1), back)
    ensures back.text.cursor <= |back.text.buffer| && SamePlace(Lefts(e, s, i), OnRight(e, back, false))
  {
    LeftsAreOnBoundary(e, s, i);
    LeftsDescend(e, s, i, k - 1);
    RightUndoesLeft(e, Lefts(e, s, i), Lefts(e, s, i + 1), back);
  }

  /** k steps to the left, each of which moved, and k to the right come back to where they started. */
  lemma LeftsThenRights(e: Env, s: State, k: nat)
    requires OnBoundary(e, s) && Coherent(e, s.text.buffer) && (k > 0 ==> Lefts(e, s, k - 1).text.cursor > 0)
    ensures SamePlace(s, Rights(e, Lefts(e, s, k), k))
  {
    RightsUndoLefts(e, s, k, k);
  }

  // -- Segmentations decided by neighbouring units ----------------------------------------------------------

  type Joins = (wchar, wchar) -> bool

  function NextBreak(joins: Joins, s: wstring, i: nat): (r: nat)
    requires 0 < i <= |s|
    ensures i <= r <= |s| && IsBreak(joins, s, r)
    ensures forall k :: i <= k < r ==> !IsBreak(joins, s, k)
    decreases |s| - i
  {
    if i < |s| && joins(s[i - 1], s[i]) then NextBreak(joins, s, i + 1) else i
  }

  function PrevBreak(joins: Joins, s: wstring, i: nat): (r: nat)
    requires i < |s|
    ensures r <= i && IsBreak(joins, s, r)
    ensures forall k :: r < k <= i ==> !IsBreak(joins, s, k)
    decreases i
  {
    if i > 0 && joins(s[i - 1], s[i]) then PrevBreak(joins, s, i - 1) else i
  }

  predicate IsBreak(joins: Joins, s: wstring, i: nat) {
    i == 0 || i == |s| || (i < |s| && !joins(s[i - 1], s[i]))
  }

  ghost predicate PairwiseAt(e: Env, joins: Joins, s: wstring, i: nat) {
    && (i < |s| ==> GraphemeNext(e, s, i) == NextBreak(joins, s, i + 1))
    && (0 < i <= |s| ==> GraphemePrev(e, s, i) == PrevBreak(joins, s, i - 1))
  }

  /** Whether two units belong to one grapheme depends on nothing but the two. */
  ghost predicate Pairwise(e: Env, joins: Joins) { forall s, i :: PairwiseAt(e, joins, s, i) }

  lemma {:induction false} NthIsBreak(e: Env, joins: Joins, s: wstring, n: nat)
    requires Pairwise(e, joins)
    ensures IsBreak(joins, s, Nth(e, s, 0, n))
    decreases n
  {
    if n == 0 {
    } else {
      NthIsBreak(e, joins, s, n - 1);
      NthNext(e, s, 0, n - 1);
      assert PairwiseAt(e, joins, s, Nth(e, s, 0, n - 1));
    }
  }

  lemma {:induction false} BreakIsNth(e: Env, joins: Joins, s: wstring, i: nat) returns (n: nat)
    requires Pairwise(e, joins) && i <= |s| && IsBreak(joins, s, i)
    ensures Nth(e, s, 0, n) == i
    decreases i
  {
    if i == 0 {
      n := 0;
    } else {
      var p := PrevBreak(joins, s, i - 1);
      n := BreakIsNth(e, joins, s, p);
      NthNext(e, s, 0, n);
      assert PairwiseAt(e, joins, s, p);
      n := n + 1;
    }
  }

  /** The boundaries are the breaks, and the two directions undo each other on them. */
  lemma PairwiseIsCoherent(e: Env, joins: Joins, s: wstring)
    requires Pairwise(e, joins)
    ensures forall i: nat :: i <= |s| ==> (Boundary(e, s, i) <==> IsBreak(joins, s, i))
    ensures Coherent(e, s)
  {
    forall i: nat | i <= |s| ensures Boundary(e, s, i) <==> IsBreak(joins, s, i) {
      if IsBreak(joins, s, i) {
        var n := BreakIsNth(e, joins, s, i);
        assert Nth(e, s, 0, n) == i;
      }
      if Boundary(e, s, i) {
        var n: nat :| Nth(e, s, 0, n) == i;
        NthIsBreak(e, joins, s, n);
      }
    }
    forall n: nat ensures CoherentAt(e, s, n) { BreaksAreCoherent(e, joins, s, n); }
  }

  lemma BreaksAreCoherent(e: Env, joins: Joins, s: wstring, n: nat)
    requires Pairwise(e, joins)
    ensures CoherentAt(e, s, n)
  {
    var i := Nth(e, s, 0, n);
    NthIsBreak(e, joins, s, n);
    NthNext(e, s, 0, n);
    assert PairwiseAt(e, joins, s, i) && PairwiseAt(e, joins, s, Nth(e, s, 0, n + 1));
  }

  ghost predicate OnBreak(joins: Joins, s: State) {
    s.text.cursor <= |s.text.buffer| && IsBreak(joins, s.text.buffer, s.text.cursor)
  }

  /** Cutting out s[a..b] leaves a break at a exactly if what then meets does not join. */
  predicate CutBreaks(joins: Joins, s: wstring, a: nat, b: nat)
    requires a <= b <= |s|
  {
    a == 0 || b == |s| || !joins(s[a - 1], s[b])
  }

  lemma CutKeepsBreakIff(joins: Joins, s: wstring, a: nat, b: nat)
    requires a <= b <= |s|
    ensures IsBreak(joins, s[..a] + s[b..], a) <==> CutBreaks(joins, s, a, b)
  {}

  /** Boundaries of the editor's own graphemes are the breaks. */
  lemma OnBoundaryIsOnBreak(e: Env, joins: Joins, s: State)
    requires Pairwise(e, joins)
    ensures OnBoundary(e, s) <==> OnBreak(joins, s)
  {
    PairwiseIsCoherent(e, joins, s.text.buffer);
  }

  lemma CutIsOnBoundaryIff(e: Env, joins: Joins, s: State, a: nat, b: nat, r: State)
    requires Pairwise(e, joins) && a <= b <= |s.text.buffer|
    requires r.text.buffer == s.text.buffer[..a] + s.text.buffer[b..] && r.text.cursor == a
    ensures OnBoundary(e, r) <==> CutBreaks(joins, s.text.buffer, a, b)
  {
    CutKeepsBreakIff(joins, s.text.buffer, a, b);
    OnBoundaryIsOnBreak(e, joins, r);
  }

  /** Deleting forwards keeps the cursor on a boundary exactly if the graphemes that then meet stay apart. */
  lemma DeleteKeepsBoundaryIff(e: Env, joins: Joins, s: State)
    requires Pairwise(e, joins) && OnBoundary(e, s)
    ensures var t := s.text;
            OnBoundary(e, OnDelete(e, s))
            <==> t.cursor == |t.buffer| || CutBreaks(joins, t.buffer, t.cursor, GraphemeNext(e, t.buffer, t.cursor))
  {
    var t := s.text;
    if t.cursor < |t.buffer| {
      var end := GraphemeNext(e, t.buffer, t.cursor);
      Removed(t, t.cursor, end);
      CutIsOnBoundaryIff(e, joins, s, t.cursor, end, OnDelete(e, s));
    }
  }

  /** So does erasing backwards. */
  lemma EraseKeepsBoundaryIff(e: Env, joins: Joins, s: State)
    requires Pairwise(e, joins) && OnBoundary(e, s)
    ensures var t := s.text;
            OnBoundary(e, OnErase(e, s, BACKSPACE))
            <==> CutBreaks(joins, t.buffer, GraphemePrev(e, t.buffer, t.cursor), t.cursor)
  {
    var t := s.text;
    var pos := GraphemePrev(e, t.buffer, t.cursor);
    Removed(t, pos, t.cursor);
    CutIsOnBoundaryIff(e, joins, s, pos, t.cursor, OnErase(e, s, BACKSPACE));
  }

  /** The part of the text that typing a character replaces ends here. */
  function TypeEnd(e: Env, s: State): (r: nat)
    requires s.text.cursor <= |s.text.buffer|
    ensures s.text.cursor <= r <= |s.text.buffer|
  {
    if s.insert then s.text.cursor else GraphemeNext(e, s.text.buffer, s.text.cursor)
  }

  /** Typing keeps the cursor on a boundary exactly if what follows does not join the character. */
  predicate TypedStaysApart(e: Env, joins: Joins, s: State, c: wchar)
    requires s.text.cursor <= |s.text.buffer|
  {
    TypeEnd(e, s) == |s.text.buffer| || !joins(c, s.text.buffer[TypeEnd(e, s)])
  }

  lemma TypedText(e: Env, s: State, c: wchar)
    requires s.text.cursor <= |s.text.buffer|
    ensures var t := OnType(e, s, c).text;
            t.cursor == s.text.cursor + 1
              && t.buffer == s.text.buffer[..s.text.cursor] + [c] + s.text.buffer[TypeEnd(e, s)..]
  {}

  lemma TypeKeepsBoundaryIff(e: Env, joins: Joins, s: State, c: wchar)
    requires Pairwise(e, joins) && s.text.cursor <= |s.text.buffer|
    ensures OnBoundary(e, OnType(e, s, c)) <==> TypedStaysApart(e, joins, s, c)
  {
    TypedText(e, s, c);
    OnBoundaryIsOnBreak(e, joins, OnType(e, s, c));
  }

  /** A leading Hangul consonant joins the vowel behind it. */
  predicate Jamo(x: wchar, y: wchar) { 0x1100 <= x < 0x1160 && 0x1160 <= y < 0x11A8 }

  /** Deleting the x between a leading consonant and a vowel leaves the cursor inside the syllable they form. */
  lemma DeleteLeavesBoundary(e: Env, s: State)
    requires Pairwise(e, Jamo) && s.text.buffer == [0x1100, 120, 0x1161] && s.text.cursor == 1
    ensures OnBoundary(e, s) && !OnBoundary(e, OnDelete(e, s))
  {
    OnBoundaryIsOnBreak(e, Jamo, s);
    assert PairwiseAt(e, Jamo, s.text.buffer, 1);
    assert NextBreak(Jamo, s.text.buffer, 2) == 2;
    DeleteKeepsBoundaryIff(e, Jamo, s);
  }

  /** There are segmentations decided by any table of neighbours. */
  lemma PairwiseExists(e: Env, joins: Joins)
    ensures Pairwise(e.(next := (s: wstring, i: nat) => if i < |s| then NextBreak(joins, s, i + 1) else i,
                        prev := (s: wstring, i: nat) => if 0 < i <= |s| then PrevBreak(joins, s, i - 1) else i), joins)
  {
    var p := e.(next := (s: wstring, i: nat) => if i < |s| then NextBreak(joins, s, i + 1) else i,
                prev := (s: wstring, i: nat) => if 0 < i <= |s| then PrevBreak(joins, s, i - 1) else i);
    forall s, i ensures PairwiseAt(p, joins, s, i) {}
  }

  // -- Segmentations by extending units ---------------------------------------------------------------------

  /** A unit joins whatever stands before it, or nothing: so do units without a width. */
  ghost predicate Extending(joins: Joins) { forall x, y, z :: joins(x, z) == joins(y, z) }

  lemma ExtendingCut(joins: Joins, s: wstring, a: nat, b: nat)
    requires Extending(joins) && a <= b <= |s| && IsBreak(joins, s, b) && (b == 0 ==> a == 0)
    ensures CutBreaks(joins, s, a, b)
  {
    if 0 < a && b < |s| { assert joins(s[a - 1], s[b]) == joins(s[b - 1], s[b]); }
  }

  lemma DeleteKeepsBoundary(e: Env, joins: Joins, s: State)
    requires Pairwise(e, joins) && Extending(joins) && OnBoundary(e, s)
    ensures OnBoundary(e, OnDelete(e, s))
  {
    var t := s.text;
    assert PairwiseAt(e, joins, t.buffer, t.cursor);
    DeleteKeepsBoundaryIff(e, joins, s);
    if t.cursor < |t.buffer| { ExtendingCut(joins, t.buffer, t.cursor, GraphemeNext(e, t.buffer, t.cursor)); }
  }

  lemma EraseKeepsBoundary(e: Env, joins: Joins, s: State)
    requires Pairwise(e, joins) && Extending(joins) && OnBoundary(e, s)
    ensures OnBoundary(e, OnErase(e, s, BACKSPACE))
  {
    var t := s.text;
    OnBoundaryIsOnBreak(e, joins, s);
    EraseKeepsBoundaryIff(e, joins, s);
    ExtendingCut(joins, t.buffer, GraphemePrev(e, t.buffer, t.cursor), t.cursor);
  }

  /** A character put in front of a text whose first unit extends. */
  predicate InFrontOfExtender(joins: Joins, s: State, c: wchar) {
    s.insert && s.text.cursor == 0 && s.text.buffer != [] && joins(c, s.text.buffer[0])
  }

  /** Typing leaves a boundary only in front of a text whose first unit extends. */
  lemma TypingKeepsBoundaryIff(e: Env, joins: Joins, s: State, c: wchar)
    requires Pairwise(e, joins) && Extending(joins) && OnBoundary(e, s)
    ensures OnBoundary(e, OnType(e, s, c)) <==> !InFrontOfExtender(joins, s, c)
  {
    var t := s.text;
    TypeKeepsBoundaryIff(e, joins, s, c);
    OnBoundaryIsOnBreak(e, joins, s);
    assert PairwiseAt(e, joins, t.buffer, t.cursor);
    var end := TypeEnd(e, s);
    if 0 < end < |t.buffer| { assert joins(c, t.buffer[end]) == joins(t.buffer[end - 1], t.buffer[end]); }
  }

  /** Erasing by graphemes, typing, deleting, moving and recalling; ending the read is none of them. */
  predicate IsEditing(e: Env, input: Input) {
    match input
    case Char(c, _) => !WakesUp(e, c) && c != CR && (c == ERASE_WORD ==> !e.processed)
    case Vkey(key, mods) => key == Delete || MovesByGrapheme(key, mods)
  }

  predicate IsTyping(e: Env, input: Input) {
    input.Char? && !(e.processed && input.c == BACKSPACE)
  }

  ghost predicate Fine(e: Env, joins: Joins, s: State, input: Input) {
    IsEditing(e, input) && (IsTyping(e, input) ==> !InFrontOfExtender(joins, s, input.c))
  }

  lemma CharKeepsBoundary(e: Env, joins: Joins, s: State, c: wchar)
    requires Pairwise(e, joins) && Extending(joins) && OnBoundary(e, s)
    requires !WakesUp(e, c) && c != CR && (c == ERASE_WORD ==> !e.processed)
    requires !(e.processed && c == BACKSPACE) ==> !InFrontOfExtender(joins, s, c)
    ensures OnBoundary(e, OnChar(e, s, c))
  {
    if e.processed && c == BACKSPACE {
      EraseKeepsBoundary(e, joins, s);
    } else {
      assert OnChar(e, s, c) == OnType(e, s, c);
      TypingKeepsBoundaryIff(e, joins, s, c);
    }
  }

  lemma EditingKeepsBoundary(e: Env, joins: Joins, s: State, input: Input)
    requires Pairwise(e, joins) && Extending(joins) && OnBoundary(e, s) && s.popups == [] && Fine(e, joins, s, input)
    ensures OnBoundary(e, Step(e, s, input)) && Step(e, s, input).popups == []
  {
    match input
    case Char(c, _) => CharKeepsBoundary(e, joins, s, c);
    case Vkey(key, mods) => {
      if key == Delete {
        DeleteKeepsBoundary(e, joins, s);
      } else {
        PairwiseIsCoherent(e, joins, s.text.buffer);
        MovingKeepsBoundary(e, s, key, mods);
      }
    }
  }

  ghost predicate Placed(e: Env, s: State) { OnBoundary(e, s) && s.popups == [] }

  lemma FedOnce(e: Env, s: State, inputs: seq<Input>, n: nat)
    requires Inv(e, s) && n < |inputs|
    ensures var m, r := Fed(e, s, inputs, n), Fed(e, s, inputs, n + 1); r == m || r == Step(e, m, inputs[n])
  {}

  ghost predicate KeepsPlace(e: Env, m: State, r: State) { Placed(e, m) ==> Placed(e, r) }

  lemma EditingStep(e: Env, joins: Joins, m: State, input: Input, r: State)
    requires Pairwise(e, joins) && Extending(joins) && m.text.cursor <= |m.text.buffer| && Fine(e, joins, m, input)
    requires r == m || r == Step(e, m, input)
    ensures KeepsPlace(e, m, r)
  {
    if Placed(e, m) { EditingKeepsBoundary(e, joins, m, input); }
  }

  lemma FedKeepsPlace(e: Env, joins: Joins, s: State, inputs: seq<Input>, n: nat)
    requires Pairwise(e, joins) && Extending(joins) && Inv(e, s)
    requires n < |inputs| && Fine(e, joins, Fed(e, s, inputs, n), inputs[n])
    ensures KeepsPlace(e, Fed(e, s, inputs, n), Fed(e, s, inputs, n + 1))
  {
    FedOnce(e, s, inputs, n);
    EditingStep(e, joins, Fed(e, s, inputs, n), inputs[n], Fed(e, s, inputs, n + 1));
  }

  lemma {:induction false} PlacedThroughout(e: Env, states: seq<State>, n: nat)
    requires n < |states| && Placed(e, states[0])
    requires forall i :: 0 <= i < |states| - 1 ==> KeepsPlace(e, states[i], states[i + 1])
    ensures Placed(e, states[n])
    decreases n
  {
    if n == 0 {
    } else {
      PlacedThroughout(e, states, n - 1);
      assert KeepsPlace(e, states[n - 1], states[n]);
    }
  }

  /** The states of a read, from the first on. */
  ghost predicate AreFed(e: Env, s: State, inputs: seq<Input>, states: seq<State>)
    requires Inv(e, s)
  {
    |states| == |inputs| + 1 && forall i :: 0 <= i <= |inputs| ==> states[i] == Fed(e, s, inputs, i)
  }

  /** Where a unit extends whatever stands before it or nothing, every run of moving, typing, deleting and erasing
      keeps the cursor on a boundary, as long as nothing is typed in front of a text whose first unit extends. */
  lemma EditingStaysOnBoundaries(e: Env, joins: Joins, s: State, inputs: seq<Input>, states: seq<State>, n: nat)
    requires Pairwise(e, joins) && Extending(joins) && Inv(e, s) && Placed(e, s) && AreFed(e, s, inputs, states)
    requires n <= |inputs| && forall i :: 0 <= i < |inputs| ==> Fine(e, joins, states[i], inputs[i])
    ensures OnBoundary(e, states[n]) && states[n].popups == []
  {
    forall i | 0 <= i < |states| - 1 ensures KeepsPlace(e, states[i], states[i + 1]) {
      FedKeepsPlace(e, joins, s, inputs, i);
    }
    PlacedThroughout(e, states, n);
  }
}
