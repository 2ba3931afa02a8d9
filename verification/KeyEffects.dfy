/** What keys are for, over whole sequences of them: ending a line, recalling commands, and using the popups. */
module KeyEffects {
  import opened Basics
  import opened Wide
  import opened LineEditing
  import History

  /** The states before, between and after inputs. */
  ghost predicate Pressed(e: Env, states: seq<State>, inputs: seq<Input>) {
    && |states| == |inputs| + 1 && Inv(e, states[0])
    && forall i {:trigger PressedAt(e, states, inputs, i)} :: 0 <= i < |inputs| ==> PressedAt(e, states, inputs, i)
  }

  ghost predicate PressedAt(e: Env, states: seq<State>, inputs: seq<Input>, i: int) {
    0 <= i < |inputs| && i + 1 < |states| && RunStep(e, states[i], Feed(inputs[i]), states[i + 1])
  }

  /** They are the states of a run. */
  lemma PressedIffRun(e: Env, states: seq<State>, inputs: seq<Input>)
    ensures Pressed(e, states, inputs) <==> IsRun(e, states, Feeds(inputs))
  {
    if Pressed(e, states, inputs) {
      forall i | 0 <= i < |inputs| ensures RunStep(e, states[i], Feeds(inputs)[i], states[i + 1]) {
        assert PressedAt(e, states, inputs, i);
      }
    }
    if IsRun(e, states, Feeds(inputs)) {
      forall i | 0 <= i < |inputs| ensures PressedAt(e, states, inputs, i) {
        assert RunStep(e, states[i], Feeds(inputs)[i], states[i + 1]);
      }
    }
  }

  lemma PressedStep(e: Env, states: seq<State>, inputs: seq<Input>, k: nat)
    requires Pressed(e, states, inputs) && k < |inputs|
    ensures |states| == |inputs| + 1 && RunStep(e, states[k], Feed(inputs[k]), states[k + 1])
  {
    assert PressedAt(e, states, inputs, k);
  }

  // -- The history keys -------------------------------------------------------------------------------------

  /** A read that still takes input, with a history and no popup. */
  ghost predicate Editing(e: Env, s: State) {
    Inv(e, s) && s.phase == Accumulating && s.popups == [] && e.hasHistory
  }

  /** The command at i of the history h is the text, with the cursor behind it. */
  ghost predicate Holds(s: State, h: History.State, i: int) {
    0 <= i < |h.commands| && s.text.buffer == h.commands[i] && s.text.cursor == |h.commands[i]| && s.text.dirty
  }

  /** r differs from s in that the command at i has been recalled. */
  ghost predicate Recalls(s: State, r: State, i: int, reset: bool) {
    r == s.(history := s.history.(last := i, reset := reset), text := r.text) && Holds(r, s.history, i)
  }

  ghost predicate GoesBack(input: Input) { input.Vkey? && (input.key == Up || input.key == F5) }

  ghost predicate GoesOn(input: Input) { input.Vkey? && input.key == Down }

  /** How many steps back there are to the oldest command. After an outside removal of the command last shown there
      is one, to the oldest. */
  function StepsBack(h: History.State): nat
    requires History.Inv(h)
  {
    if h.last < 0 then 1 else if h.reset then h.last + 1 else h.last
  }

  /** After m of the steps back. */
  ghost predicate WentBack(e: Env, s0: State, s: State, m: nat) {
    && Editing(e, s) && Editing(e, s0)
    && if m == 0 then s == s0 else Recalls(s0, s, StepsBack(s0.history) - m, false)
  }

  lemma UpStep(e: Env, s: State, input: Input)
    requires Editing(e, s) && s.history.commands != [] && GoesBack(input)
    ensures var r := Step(e, s, input);
            var n := StepsBack(s.history);
            if n == 0 then r == s else Recalls(s, r, n - 1, false)
  {}

  lemma BackOnce(e: Env, s0: State, s: State, s': State, m: nat, input: Input)
    requires RunStep(e, s, Feed(input), s') && WentBack(e, s0, s, m) && s0.history.commands != []
             && m <= StepsBack(s0.history) && GoesBack(input)
    ensures WentBack(e, s0, s', Min(m + 1, StepsBack(s0.history)))
  {
    UpStep(e, s, input);
    StepKeeps(e, s, input);
  }

  /** After k keys that go back. */
  ghost predicate BackBy(e: Env, s0: State, s: State, k: nat) {
    Editing(e, s0) && WentBack(e, s0, s, Min(k, StepsBack(s0.history)))
  }

  lemma BackNext(e: Env, s0: State, s: State, s': State, k: nat, input: Input)
    requires RunStep(e, s, Feed(input), s') && BackBy(e, s0, s, k) && s0.history.commands != [] && GoesBack(input)
    ensures BackBy(e, s0, s', k + 1)
  {
    BackOnce(e, s0, s, s', Min(k, StepsBack(s0.history)), input);
  }

  /** Going back k times shows the k-th command before the one shown, counting that one if none was recalled since a
      command was added, and stops at the oldest. */
  lemma {:induction false} UpsGoBack(e: Env, states: seq<State>, inputs: seq<Input>, k: nat)
    requires Pressed(e, states, inputs) && k <= |inputs| && Editing(e, states[0])
    requires states[0].history.commands != []
    requires forall i :: 0 <= i < k ==> GoesBack(inputs[i])
    ensures BackBy(e, states[0], states[k], k)
  {
    if k == 0 {
    } else {
      UpsGoBack(e, states, inputs, k - 1);
      PressedStep(e, states, inputs, k - 1);
      BackNext(e, states[0], states[k - 1], states[k], k - 1, inputs[k - 1]);
    }
  }

  /** With the newest command just added, k times Up shows the k-th newest. */
  lemma UpsFromNewest(e: Env, states: seq<State>, inputs: seq<Input>, k: nat)
    requires Pressed(e, states, inputs) && 1 <= k <= |inputs| && forall i :: 0 <= i < k ==> GoesBack(inputs[i])
    requires Editing(e, states[0]) && states[0].history.reset
    requires History.InRange(states[0].history, states[0].history.last) && k <= states[0].history.last + 1
    ensures var h, i := states[0].history, states[0].history.last - (k - 1);
            states[k].text.buffer == h.commands[i] && states[k].history == h.(last := i, reset := false)
  {
    UpsGoBack(e, states, inputs, k);
  }

  ghost predicate WentOn(e: Env, s0: State, s: State, i: int) {
    && Editing(e, s) && Editing(e, s0)
    && if i == s0.history.last then s == s0 else Recalls(s0, s, i, s0.history.reset)
  }

  lemma DownStep(e: Env, s: State, input: Input)
    requires Editing(e, s) && s.history.commands != [] && GoesOn(input)
    ensures var r := Step(e, s, input);
            if s.history.last == |s.history.commands| - 1 then r == s
            else Recalls(s, r, s.history.last + 1, s.history.reset)
  {}

  function Onward(h: History.State, k: nat): int {
    if h.last + k < |h.commands| then h.last + k else |h.commands| - 1
  }

  lemma OnOnce(e: Env, s0: State, s: State, s': State, k: nat, input: Input)
    requires RunStep(e, s, Feed(input), s') && WentOn(e, s0, s, Onward(s0.history, k)) && s0.history.commands != []
             && GoesOn(input)
    ensures WentOn(e, s0, s', Onward(s0.history, k + 1))
  {
    DownStep(e, s, input);
    StepKeeps(e, s, input);
  }

  /** Going on k times shows the k-th command behind the one shown and stops at the newest. */
  lemma {:induction false} DownsGoOn(e: Env, states: seq<State>, inputs: seq<Input>, k: nat)
    requires Pressed(e, states, inputs) && k <= |inputs| && Editing(e, states[0])
    requires states[0].history.commands != []
    requires forall i :: 0 <= i < k ==> GoesOn(inputs[i])
    ensures WentOn(e, states[0], states[k], Onward(states[0].history, k))
  {
    if k == 0 {
    } else {
      DownsGoOn(e, states, inputs, k - 1);
      PressedStep(e, states, inputs, k - 1);
      OnOnce(e, states[0], states[k - 1], states[k], k - 1, inputs[k - 1]);
    }
  }

  /** Page Up shows the oldest command and Page Down the newest that an index of 31 bits reaches; each does nothing
      where it would lead already. */
  lemma PagesGoToEnds(e: Env, s: State, mods: Mods)
    requires Editing(e, s) && s.history.commands != []
    ensures var r, h := Step(e, s, Vkey(PageUp, mods)), s.history;
            if !h.reset && h.last == 0 then r == s else Recalls(s, r, 0, h.reset)
    ensures var r, h := Step(e, s, Vkey(PageDown, mods)), s.history;
            if h.last == |h.commands| - 1 then r == s
            else Recalls(s, r, Min(|h.commands| - 1, MAX_INT), h.reset)
  {}

  /** With no command to recall, going back leaves the text alone exactly if it did so before or there is none: the
      first time it erases what was typed. */
  lemma UpOnEmptyHistoryIff(e: Env, s: State, input: Input)
    requires Editing(e, s) && s.history.commands == [] && GoesBack(input)
    ensures Step(e, s, input).text.buffer == s.text.buffer
       <==> s.text.buffer == [] || (!s.history.reset && s.history.last == 0)
  {}

  /** Typed text, with nothing recalled yet, is erased. */
  lemma UpErasesTypedText(e: Env, text: wstring, insert: bool, max: nat, mods: Mods)
    requires e.hasHistory && text != []
    ensures Step(e, Start(text, insert, History.Fresh(max)), Vkey(Up, mods)).text.buffer == []
  {}

  /** F8 recalls the nearest command, going back, that begins with what stands before the cursor: the search starts at
      the command shown last if none was recalled since one was added, and otherwise at the one before it. */
  lemma F8RecallsNearest(e: Env, s: State, mods: Mods)
    requires Editing(e, s) && History.InRange(s.history, s.history.last) && s.text.cursor > 0
    ensures var r, h, prefix := Step(e, s, Vkey(F8, mods)), s.history, s.text.buffer[..s.text.cursor];
            var i := if h.reset then h.last else if h.last == 0 then |h.commands| - 1 else h.last - 1;
            && !r.history.reset
            && (if exists j :: History.Hit(h.commands, prefix, false, j)
                then (exists k: nat :: History.Nearest(h.commands, prefix, false, i, k, r.history.last))
                  && r.text.buffer == h.commands[r.history.last]
                else r.text == s.text && r.history.last == h.last)
  {
    var h, prefix := s.history, s.text.buffer[..s.text.cursor];
    var i := if h.reset then h.last else if h.last == 0 then |h.commands| - 1 else h.last - 1;
    assert Step(e, s, Vkey(F8, mods)) == OnF8(s);
    assert History.StartIndex(h, h.last, false) == i;
    History.SearchIsCompleteIff(h.commands, prefix, false, i);
  }

  /** F3 copies what the last command has from the cursor on over the text; if it has nothing there, the text stays. */
  lemma F3CopiesTheRest(e: Env, s: State, mods: Mods)
    requires Editing(e, s)
    ensures var r, k, cmd := Step(e, s, Vkey(F3, mods)), s.text.cursor, History.Shown(s.history);
            if k < |cmd|
            then |r.text.buffer| == |cmd| == r.text.cursor && r.text.buffer[..k] == s.text.buffer[..k]
              && r.text.buffer[k..] == cmd[k..]
            else r == s
  {
    assert Step(e, s, Vkey(F3, mods)) == OnF3(s);
    var b, k, cmd := s.text.buffer, s.text.cursor, History.Shown(s.history);
    if k < |cmd| {
      var t := Replace(s.text, k, |b|, cmd[k..]);
      assert t.buffer == b[..k] + cmd[k..] + b[|b|..];
    }
  }

  // -- Typing and leaving -----------------------------------------------------------------------------------

  /** Units that are typed as they are. */
  ghost predicate Typed(inputs: seq<Input>, text: wstring) {
    |inputs| == |text| && forall i :: 0 <= i < |text| ==> TypedAs(inputs[i], text[i])
  }

  predicate TypedAs(input: Input, c: wchar) { input.Char? && input.c == c && c >= SPACE && c != ERASE_WORD }

  ghost predicate TypedUpTo(e: Env, s0: State, s: State, text: wstring) {
    && Inv(e, s) && s.phase == Accumulating && s.popups == [] && s.history == s0.history && s.insert == s0.insert
    && s.text.buffer == s0.text.buffer + text && s.text.cursor == |s.text.buffer|
  }

  ghost predicate AtEnd(e: Env, s: State) {
    Inv(e, s) && s.phase == Accumulating && s.popups == [] && s.text.cursor == |s.text.buffer|
  }

  lemma TypeAtEnd(e: Env, s0: State, s: State, s': State, text: wstring, input: Input, c: wchar)
    requires RunStep(e, s, Feed(input), s') && TypedUpTo(e, s0, s, text) && TypedAs(input, c)
    ensures TypedUpTo(e, s0, s', text + [c])
  {
    StepKeeps(e, s, input);
    var b := s.text.buffer;
    assert b[..|b|] + [c] + b[|b|..] == s0.text.buffer + (text + [c]);
  }

  lemma {:induction false} TypingAppends(e: Env, states: seq<State>, inputs: seq<Input>, text: wstring, k: nat)
    requires Pressed(e, states, inputs) && Typed(inputs, text) && k <= |text| && AtEnd(e, states[0])
    ensures TypedUpTo(e, states[0], states[k], text[..k])
  {
    if k == 0 {
    } else {
      TypingAppends(e, states, inputs, text, k - 1);
      PressedStep(e, states, inputs, k - 1);
      assert text[..k - 1] + [text[k - 1]] == text[..k];
      TypeAtEnd(e, states[0], states[k - 1], states[k], text[..k - 1], inputs[k - 1], text[k - 1]);
    }
  }

  /** A line typed behind what is there and ended with Enter is read as it was typed, in either mode. */
  lemma TypedLineIsRead(e: Env, states: seq<State>, inputs: seq<Input>, text: wstring, mods: Mods)
    requires Pressed(e, states, inputs) && Typed(inputs, text) && AtEnd(e, states[0]) && !WakesUp(e, CR)
    ensures states[|text|].text.cursor <= |states[|text|].text.buffer|
    ensures var r := Step(e, states[|text|], Char(CR, mods));
            && r.phase == DoneWithCarriageReturn
            && r.text.buffer == states[0].text.buffer + text && r.text.cursor == |r.text.buffer|
  {
    TypingAppends(e, states, inputs, text, |text|);
    assert text[..|text|] == text;
  }

  /** What stands behind the cursor is erased, on the screen too. */
  lemma CutAtCursor(e: Env, s: State)
    requires Inv(e, s) && s.phase == Accumulating && s.popups == []
    ensures var b, k := s.text.buffer, s.text.cursor;
            var r := Redisplay(e, Edit(s, Replace(s.text, k, |b|, [])));
            r.text.buffer == b[..k] && r.text.cursor == k && (e.echo ==> r.screen.text == b[..k])
  {
    var b, k := s.text.buffer, s.text.cursor;
    Removed(s.text, k, |b|);
    assert b[..k] + b[|b|..] == b[..k];
  }

  lemma UnseenAtEnd(t: Text, c: wchar)
    requires t.cursor == |t.buffer|
    ensures var t' := Replace(t, t.cursor, 0, [c]); t'.buffer == t.buffer + [c] && t'.cursor == t.cursor + 1
  {
    assert t.buffer[..|t.buffer|] + [c] + t.buffer[|t.buffer|..] == t.buffer + [c];
  }

  /** A control character that ends the read leaves what stands before the cursor, followed by that character, which is
      not shown. */
  lemma WakeupEndsText(e: Env, s: State, c: wchar, mods: Mods)
    requires Inv(e, s) && s.phase == Accumulating && s.popups == [] && WakesUp(e, c)
    ensures var r, k := Step(e, s, Char(c, mods)), s.text.cursor;
            && r.phase == DoneWithWakeupMask && !r.text.dirty
            && r.text.buffer == s.text.buffer[..k] + [c] && r.text.cursor == k + 1
            && (e.echo ==> r.screen.text == s.text.buffer[..k])
  {
    CutAtCursor(e, s);
    var s1 := Redisplay(e, Edit(s, Replace(s.text, s.text.cursor, |s.text.buffer|, [])));
    UnseenAtEnd(s1.text, c);
    assert Step(e, s, Char(c, mods)) == OnWakeup(e, s, c);
  }

  /** Escape erases the line. */
  lemma EscapeErasesLine(e: Env, s: State, mods: Mods)
    requires Inv(e, s) && s.popups == []
    ensures var r := Step(e, s, Vkey(Escape, mods)); r.text.buffer == [] && r.text.cursor == 0
  {}

  /** Right, or F1, at the end of the line appends the grapheme of the last command that stands where the next one would
      be typed. */
  lemma RightAppendsGrapheme(e: Env, s: State, input: Input)
    requires Editing(e, s) && s.text.cursor == |s.text.buffer|
    requires input.Vkey? && (input.key == Right || input.key == F1)
    ensures var t, b, cmd := Step(e, s, input).text, s.text.buffer, History.Shown(s.history);
            t.buffer == b + GraphemeAt(e, cmd, Nth(e, cmd, 0, Count(e, b, 0))) && t.cursor == |t.buffer|
  {
    var b, cmd := s.text.buffer, History.Shown(s.history);
    var more := Beyond(e, b, cmd, 0, 0);
    BeyondIsNthGrapheme(e, b, cmd, 0, 0);
    assert Step(e, s, input) == Edit(s, Replace(s.text, |b|, 0, more));
    assert b[..|b|] + more + b[|b|..] == b + more;
  }

  /** Insert changes the mode, and changes it back. */
  lemma InsertToggles(e: Env, s: State, mods: Mods)
    requires Inv(e, s) && s.popups == []
    ensures Step(e, s, Vkey(Insert, mods)) == s.(insert := !s.insert)
    ensures Step(e, Step(e, s, Vkey(Insert, mods)), Vkey(Insert, mods)) == s
  {}

  /** F6 types Ctrl+Z. */
  lemma F6TypesCtrlZ(e: Env, s: State, mods: Mods)
    requires Inv(e, s) && s.popups == []
    ensures Step(e, s, Vkey(F6, mods)) == Step(e, s, Char(0x1A, mods))
  {}

  /** Home and End move the cursor to the ends and keep the text. */
  lemma HomeAndEndMove(e: Env, s: State, mods: Mods)
    requires Inv(e, s) && s.popups == [] && !mods.ctrl
    ensures var t := Step(e, s, Vkey(Home, mods)).text; t.buffer == s.text.buffer && t.cursor == 0
    ensures var t := Step(e, s, Vkey(End, mods)).text; t.buffer == s.text.buffer && t.cursor == |t.buffer|
  {}

  /** Going by words stops at the nearest word start on that side, or at the end of the line. */
  ghost predicate LastStart(e: Env, s: wstring, r: nat, i: nat) {
    r < i && (r == 0 || WordStart(e, s, r)) && forall k :: r < k < i ==> !WordStart(e, s, k)
  }

  ghost predicate FirstStart(e: Env, s: wstring, r: nat, i: nat) {
    i < r && (r == |s| || WordStart(e, s, r)) && forall k :: i < k < r ==> !WordStart(e, s, k)
  }

  lemma CtrlLeftGoesToWord(e: Env, s: State, mods: Mods)
    requires Inv(e, s) && s.popups == [] && mods.ctrl && s.text.cursor > 0
    ensures var r := Step(e, s, Vkey(Left, mods)).text;
            r.buffer == s.text.buffer && LastStart(e, r.buffer, r.cursor, s.text.cursor)
  {
    WordPrevIsLastStart(e, s.text.buffer, s.text.cursor);
  }

  lemma CtrlRightGoesToWord(e: Env, s: State, mods: Mods)
    requires Inv(e, s) && s.popups == [] && mods.ctrl && s.text.cursor < |s.text.buffer|
    ensures var r := Step(e, s, Vkey(Right, mods)).text;
            r.buffer == s.text.buffer && FirstStart(e, r.buffer, r.cursor, s.text.cursor)
  {
    WordNextIsFirstStart(e, s.text.buffer, s.text.cursor);
  }

  lemma EraseWordEdits(e: Env, s: State, mods: Mods, pos: nat)
    requires Inv(e, s) && s.popups == [] && e.processed && s.text.cursor > 0
    requires pos == WordPrev(e, s.text.buffer, s.text.cursor)
    ensures var r, b := Step(e, s, Char(ERASE_WORD, mods)).text, s.text.buffer;
            r.cursor == pos && r.buffer == b[..pos] + b[s.text.cursor..]
  {
    assert Step(e, s, Char(ERASE_WORD, mods)) == OnErase(e, s, ERASE_WORD);
    Removed(s.text, pos, s.text.cursor);
  }

  /** Ctrl+Backspace erases back to the last word start. */
  lemma CtrlBackspaceErasesWord(e: Env, s: State, mods: Mods)
    requires Inv(e, s) && s.popups == [] && e.processed && s.text.cursor > 0
    ensures var r, b := Step(e, s, Char(ERASE_WORD, mods)).text, s.text.buffer;
            LastStart(e, b, r.cursor, s.text.cursor) && r.buffer == b[..r.cursor] + b[s.text.cursor..]
  {
    WordPrevIsLastStart(e, s.text.buffer, s.text.cursor);
    EraseWordEdits(e, s, mods, WordPrev(e, s.text.buffer, s.text.cursor));
  }

  /** Overwriting is deleting the grapheme at the cursor and inserting. */
  lemma OverwriteIsDeleteAndInsert(e: Env, s: State, c: wchar)
    requires Inv(e, s) && !s.insert
    ensures OnType(e, s, c).text.buffer == OnType(e, OnDelete(e, s).(insert := true), c).text.buffer
    ensures OnType(e, s, c).text.cursor == OnType(e, OnDelete(e, s).(insert := true), c).text.cursor
  {
    var b, k := s.text.buffer, s.text.cursor;
    var n := GraphemeNext(e, b, k);
    Removed(s.text, k, n);
    var d := b[..k] + b[n..];
    assert d[..k] == b[..k] && d[k..] == b[n..];
  }

  // -- Opening and closing popups ---------------------------------------------------------------------------

  /** Escape closes whatever popups there are and changes nothing else that the user sees. */
  lemma EscapeClosesPopups(e: Env, s: State, mods: Mods)
    requires Inv(e, s) && s.popups != []
    ensures var r := Step(e, s, Vkey(Escape, mods));
            r == s.(popups := [], text := s.text.(dirty := true))
  {}

  /** F2 and F4 wait for a character, F9 for a number. */
  lemma KeysOpenPopups(e: Env, s: State, mods: Mods)
    requires Editing(e, s)
    ensures Step(e, s, Vkey(F2, mods)).popups == [CopyToChar] && Step(e, s, Vkey(F4, mods)).popups == [CopyFromChar]
    ensures Step(e, s, Vkey(F9, mods)).popups == if s.history.commands == [] then [] else [CommandNumber([])]
  {}

  /** Alt+F7 forgets all commands. */
  lemma AltF7Forgets(e: Env, s: State, mods: Mods)
    requires Editing(e, s) && mods.alt
    ensures var r := Step(e, s, Vkey(F7, mods));
            r.history == History.Fresh(s.history.max).(reset := true) && r.text == s.text && r.popups == []
  {}

  // -- The command list -------------------------------------------------------------------------------------

  /** The command list is the popup in use, with the command at `selected` selected. */
  ghost predicate Listing(e: Env, s: State, selected: int) {
    && Inv(e, s) && s.phase == Accumulating && s.popups != [] && s.history.commands != []
    && Top(s).CommandList? && Top(s).selected == selected
  }

  function Top(s: State): Popup
    requires s.popups != []
  {
    s.popups[|s.popups| - 1]
  }

  predicate Picks(input: Input) { input.Vkey? && (input.key == Left || input.key == Right) }

  /** F7 opens the list with the command shown last selected. */
  lemma F7OpensList(e: Env, s: State, mods: Mods)
    requires Editing(e, s) && s.history.commands != [] && !mods.ctrl && !mods.alt
    ensures var r := Step(e, s, Vkey(F7, mods));
            Listing(e, r, s.history.last) && |r.popups| == 1 && r.history == s.history && r.text.buffer == s.text.buffer
  {
    StepKeeps(e, s, Vkey(F7, mods));
  }

  /** Left or Right recalls the command selected, or the nearest there is, and closes all popups. */
  lemma PickRecalls(e: Env, s: State, selected: int, input: Input)
    requires Listing(e, s, selected) && Picks(input)
    ensures var r, i := Step(e, s, input), Clamp(selected, 0, |s.history.commands| - 1);
            Recalls(s.(popups := []), r, i, s.history.reset)
  {}

  /** Enter recalls it and ends the read with it. */
  lemma EnterTakesSelected(e: Env, s: State, selected: int, mods: Mods)
    requires Listing(e, s, selected) && !WakesUp(e, CR)
    ensures var r, i := Step(e, s, Char(CR, mods)), Clamp(selected, 0, |s.history.commands| - 1);
            r.phase == DoneWithCarriageReturn && r.popups == [] && Holds(r, s.history, i)
  {}

  /** How far a key moves the selection: Down by one, Page Down by the list's height. */
  function Moves(input: Input, height: int): int {
    if !input.Vkey? then 0
    else match input.key case Up => -1 case Down => 1 case PageUp => -height case PageDown => height case _ => 0
  }

  function Moved(inputs: seq<Input>, k: nat, height: int): int
    requires k <= |inputs|
  {
    if k == 0 then 0 else Moved(inputs, k - 1, height) + Moves(inputs[k - 1], height)
  }

  predicate IsMove(input: Input) {
    input.Vkey? && !input.mods.shift
    && (input.key == Up || input.key == Down || input.key == PageUp || input.key == PageDown)
  }

  /** Only the selection differs from s. */
  ghost predicate Selects(e: Env, s: State, r: State, selected: int) {
    && Listing(e, r, selected) && s.popups != [] && Top(s).CommandList?
    && Top(r) == Top(s).(selected := selected)
    && r.history == s.history && r.text.buffer == s.text.buffer && r.text.cursor == s.text.cursor
  }

  lemma MoveStep(e: Env, s: State, selected: int, input: Input)
    requires Listing(e, s, selected) && IsMove(input)
    ensures Selects(e, s, Step(e, s, input), selected + Moves(input, Top(s).height))
  {
    StepKeeps(e, s, input);
  }

  lemma MoveOnce(e: Env, s0: State, s: State, s': State, selected: int, input: Input)
    requires RunStep(e, s, Feed(input), s') && Selects(e, s0, s, selected) && IsMove(input)
    ensures Selects(e, s0, s', selected + Moves(input, Top(s0).height))
  {
    MoveStep(e, s, selected, input);
  }

  /** Any moves add up. */
  lemma {:induction false} MovesAddUp(e: Env, states: seq<State>, selected: int, inputs: seq<Input>, k: nat)
    requires Pressed(e, states, inputs) && k <= |inputs| && forall i :: 0 <= i < k ==> IsMove(inputs[i])
    requires Listing(e, states[0], selected)
    ensures Selects(e, states[0], states[k], selected + Moved(inputs, k, Top(states[0]).height))
  {
    if k == 0 {
    } else {
      MovesAddUp(e, states, selected, inputs, k - 1);
      PressedStep(e, states, inputs, k - 1);
      var at := selected + Moved(inputs, k - 1, Top(states[0]).height);
      MoveOnce(e, states[0], states[k - 1], states[k], at, inputs[k - 1]);
    }
  }

  /** The command at i, or the nearest there is, has been recalled and the popups are closed. */
  ghost predicate Picked(s: State, r: State, i: int) {
    r.popups == [] && Holds(r, s.history, Clamp(i, 0, |s.history.commands| - 1))
  }

  lemma PickAfterMoves(e: Env, s0: State, s: State, selected: int, pick: Input, r: State)
    requires Selects(e, s0, s, selected) && Picks(pick) && RunStep(e, s, Feed(pick), r)
    ensures Picked(s0, r, selected)
  {
    PickRecalls(e, s, selected, pick);
  }

  /** Moving about and picking recalls the command that many places on, or the nearest there is. */
  lemma MoveAndPick(e: Env, states: seq<State>, selected: int, inputs: seq<Input>, k: nat)
    requires Pressed(e, states, inputs) && k < |inputs| && (forall i :: 0 <= i < k ==> IsMove(inputs[i]))
    requires Listing(e, states[0], selected) && Picks(inputs[k])
    ensures Picked(states[0], states[k + 1], selected + Moved(inputs, k, Top(states[0]).height))
  {
    MovesAddUp(e, states, selected, inputs, k);
    PressedStep(e, states, inputs, k);
    var to := selected + Moved(inputs, k, Top(states[0]).height);
    PickAfterMoves(e, states[0], states[k], to, inputs[k], states[k + 1]);
  }

  /** Home selects the oldest command and End the newest that an index of 31 bits reaches. */
  lemma EndsAndPick(e: Env, s: State, selected: int, mods: Mods, pick: Input)
    requires Listing(e, s, selected) && Picks(pick)
    ensures Holds(Step(e, Step(e, s, Vkey(Home, mods)), pick), s.history, 0)
    ensures Holds(Step(e, Step(e, s, Vkey(End, mods)), pick), s.history, Min(|s.history.commands| - 1, MAX_INT))
  {
    StepKeeps(e, s, Vkey(Home, mods));
    StepKeeps(e, s, Vkey(End, mods));
    PickRecalls(e, Step(e, s, Vkey(Home, mods)), 0, pick);
    PickRecalls(e, Step(e, s, Vkey(End, mods)), MAX_INT, pick);
  }

  /** Shift+Up and Shift+Down take the selected command along: it changes places with its neighbour. */
  lemma ShiftTakesCommandAlong(e: Env, s: State, selected: int, key: Key, mods: Mods)
    requires Listing(e, s, selected) && mods.shift && (key == Up || key == Down)
    ensures var r, to := Step(e, s, Vkey(key, mods)), selected + if key == Up then -1 else 1;
            && Listing(e, r, to)
            && (History.InRange(s.history, selected) && History.InRange(s.history, to) ==>
                  && |r.history.commands| == |s.history.commands|
                  && r.history.commands[to] == s.history.commands[selected]
                  && r.history.commands[selected] == s.history.commands[to])
            && (!History.InRange(s.history, to) ==> r.history == s.history)
  {
    StepKeeps(e, s, Vkey(key, mods));
    var to := selected + if key == Up then -1 else 1;
    if History.InRange(s.history, selected) && History.InRange(s.history, to) {
      History.SwapExchanges(s.history, selected, to);
    }
  }

  /** Delete takes the selected command out of the history, and closes the list when that was the last one. */
  lemma DeleteTakesOut(e: Env, s: State, selected: int, mods: Mods)
    requires Listing(e, s, selected) && History.InRange(s.history, selected)
    ensures var r, cs := Step(e, s, Vkey(Delete, mods)), s.history.commands;
            && r.history.commands == cs[..selected] + cs[selected + 1..]
            && (r.popups == [] <==> |cs| == 1) && r.text.buffer == s.text.buffer
  {}

  // -- The command number -----------------------------------------------------------------------------------

  ghost predicate Numbering(e: Env, s: State, digits: wstring) {
    && Inv(e, s) && s.phase == Accumulating && s.popups != [] && s.history.commands != []
    && Top(s) == CommandNumber(digits)
  }

  /** The decimal digits of a number, as they are typed. */
  function Decimal(n: nat): (r: wstring)
    ensures forall i :: 0 <= i < |r| ==> IsDigit(r[i])
    ensures |r| >= 1 && (n < 10 ==> |r| == 1)
  {
    if n < 10 then [48 + n] else Decimal(n / 10) + [48 + n % 10]
  }

  lemma {:induction false} DecimalIsRead(n: nat)
    ensures NumberOf(Decimal(n)) == n
  {
    if n < 10 {
      assert [48 + n as wchar][..0] == [];
    } else {
      DecimalIsRead(n / 10);
      assert Decimal(n)[..|Decimal(n)| - 1] == Decimal(n / 10);
    }
  }

  lemma DigitStep(e: Env, s: State, digits: wstring, c: wchar, mods: Mods)
    requires Numbering(e, s, digits) && IsDigit(c) && |digits| < MAX_DIGITS
    ensures var r := Step(e, s, Char(c, mods)); Numbering(e, r, digits + [c]) && r.history == s.history
  {
    StepKeeps(e, s, Char(c, mods));
  }

  lemma BackspaceStep(e: Env, s: State, digits: wstring, c: wchar, mods: Mods)
    requires Numbering(e, s, digits + [c])
    ensures var r := Step(e, s, Char(BACKSPACE, mods)); Numbering(e, r, digits) && r.history == s.history
  {
    StepKeeps(e, s, Char(BACKSPACE, mods));
    assert (digits + [c])[..|digits|] == digits;
  }

  /** Backspace takes the last digit back. */
  lemma DigitThenBackspace(e: Env, s: State, digits: wstring, c: wchar, mods: Mods)
    requires Numbering(e, s, digits) && IsDigit(c) && |digits| < MAX_DIGITS
    ensures var r := Step(e, Step(e, s, Char(c, mods)), Char(BACKSPACE, mods));
            Numbering(e, r, digits) && r.history == s.history
  {
    DigitStep(e, s, digits, c, mods);
    BackspaceStep(e, Step(e, s, Char(c, mods)), digits, c, mods);
  }

  ghost predicate DigitsTyped(inputs: seq<Input>, digits: wstring) {
    && |digits| <= MAX_DIGITS && |digits| <= |inputs|
    && forall i :: 0 <= i < |digits| ==> inputs[i].Char? && inputs[i].c == digits[i] && IsDigit(digits[i])
  }

  ghost predicate Entered(e: Env, s0: State, s: State, digits: wstring) {
    Numbering(e, s, digits) && s.history == s0.history
  }

  lemma DigitOnce(e: Env, s0: State, s: State, s': State, digits: wstring, input: Input)
    requires RunStep(e, s, Feed(input), s') && Entered(e, s0, s, digits) && input.Char? && IsDigit(input.c)
             && |digits| < MAX_DIGITS
    ensures Entered(e, s0, s', digits + [input.c])
  {
    DigitStep(e, s, digits, input.c, input.mods);
  }

  lemma {:induction false} DigitsAreEntered(e: Env, states: seq<State>, inputs: seq<Input>, digits: wstring, k: nat)
    requires Pressed(e, states, inputs) && Numbering(e, states[0], []) && DigitsTyped(inputs, digits) && k <= |digits|
    ensures Entered(e, states[0], states[k], digits[..k])
  {
    if k == 0 {
    } else {
      DigitsAreEntered(e, states, inputs, digits, k - 1);
      PressedStep(e, states, inputs, k - 1);
      assert digits[..k - 1] + [digits[k - 1]] == digits[..k];
      DigitOnce(e, states[0], states[k - 1], states[k], digits[..k - 1], inputs[k - 1]);
    }
  }

  lemma EnterTakesNumber(e: Env, s: State, digits: wstring, mods: Mods)
    requires Numbering(e, s, digits) && digits != []
    ensures var r, i := Step(e, s, Char(CR, mods)), Clamp(NumberOf(digits), 0, |s.history.commands| - 1);
            Recalls(s.(popups := []), r, i, s.history.reset)
  {}

  predicate IsEnter(input: Input) { input.Char? && input.c == CR }

  lemma EnterAfterDigits(e: Env, s0: State, s: State, digits: wstring, input: Input, r: State)
    requires Entered(e, s0, s, digits) && digits != [] && IsEnter(input) && RunStep(e, s, Feed(input), r)
    ensures Picked(s0, r, NumberOf(digits))
  {
    EnterTakesNumber(e, s, digits, input.mods);
  }

  lemma DigitsRecall(e: Env, states: seq<State>, digits: wstring, inputs: seq<Input>, k: nat)
    requires Pressed(e, states, inputs) && Numbering(e, states[0], []) && DigitsTyped(inputs, digits)
    requires 0 < k == |digits| < |inputs| && IsEnter(inputs[k])
    ensures Picked(states[0], states[k + 1], NumberOf(digits))
  {
    DigitsAreEntered(e, states, inputs, digits, k);
    assert digits[..k] == digits;
    PressedStep(e, states, inputs, k);
    EnterAfterDigits(e, states[0], states[k], digits, inputs[k], states[k + 1]);
  }

  /** Typing a number of up to five digits and Enter recalls the command of that number, or the newest if there is none
      of that number. */
  lemma NumberRecalls(e: Env, states: seq<State>, n: nat, inputs: seq<Input>, k: nat)
    requires Pressed(e, states, inputs) && Numbering(e, states[0], []) && DigitsTyped(inputs, Decimal(n))
    requires k == |Decimal(n)| < |inputs| && IsEnter(inputs[k])
    ensures Picked(states[0], states[k + 1], n)
  {
    DecimalIsRead(n);
    DigitsRecall(e, states, Decimal(n), inputs, k);
  }

  /** Enter without a digit ends the read by an exception. */
  lemma NoNumberAborts(e: Env, s: State, mods: Mods)
    requires Numbering(e, s, [])
    ensures Step(e, s, Char(CR, mods)).phase == Aborted
  {}
}
