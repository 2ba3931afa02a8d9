/** The line editor as it updates its fields: every handler against the specification of its key. */
module CookedEditor {
  import opened Basics
  import opened Wide
  import History
  import L = LineEditing

  method SkipSpacesBack(s: wstring, i: nat) returns (r: nat)
    requires i < |s|
    ensures r == L.SkipSpacesBack(s, i)
  {
    r := i;
    while r != 0 && s[r] == L.SPACE
      invariant r <= i && L.SkipSpacesBack(s, r) == L.SkipSpacesBack(s, i)
    {
      r := r - 1;
    }
  }

  method WordPrev(e: L.Env, s: wstring, position0: nat) returns (position: nat)
    requires position0 <= |s|
    ensures position == L.WordPrev(e, s, position0)
  {
    position := position0;
    if position != 0 {
      position := SkipSpacesBack(s, position - 1);
      var start := position;
      var dc := L.ClassOf(e, s[position]);
      while position != 0 && L.ClassOf(e, s[position - 1]) == dc
        invariant position <= start && L.ClassOf(e, s[position]) == dc
        invariant L.RunStart(e, s, position) == L.RunStart(e, s, start)
      {
        position := position - 1;
      }
    }
  }

  method WordNext(e: L.Env, s: wstring, position0: nat) returns (position: nat)
    requires position0 <= |s|
    ensures position == L.WordNext(e, s, position0)
  {
    position := position0;
    if position < |s| {
      position := position + 1;
      var dc := L.ClassOf(e, s[position - 1]);
      while position != |s| && dc == L.ClassOf(e, s[position])
        invariant position0 < position <= |s| && L.RunEnd(e, s, dc, position) == L.RunEnd(e, s, dc, position0 + 1)
      {
        position := position + 1;
      }
      ghost var end := position;
      while position != |s| && s[position] == L.SPACE
        invariant end <= position <= |s| && L.SkipSpaces(s, position) == L.SkipSpaces(s, end)
      {
        position := position + 1;
      }
    }
  }

  class Editor {
    const e: L.Env
    const history: History.CommandHistory
    var buffer: wstring
    var dirtyBeg: nat
    var cursor: nat
    var dirty: bool
    var phase: L.Phase
    var insertMode: bool
    var popups: seq<L.Popup>
    ghost var screen: L.Screen

    ghost function T(): L.Text
      reads this
    {
      L.Text(buffer, dirtyBeg, cursor, dirty)
    }

    ghost function S(): L.State
      reads this, history
    {
      L.State(T(), phase, insertMode, popups, history.S(), screen)
    }

    ghost predicate Ok()
      reads this, history
    {
      history.Valid() && cursor <= |buffer|
    }

    /** The editor is in the state. */
    ghost predicate Is(s: L.State)
      reads this, history
    {
      Ok() && S() == s
    }

    ghost predicate Valid()
      reads this, history
    {
      Ok() && L.Inv(e, S())
    }

    constructor (env: L.Env, h: History.CommandHistory, initialData: wstring, insert: bool)
      requires h.Valid()
      ensures Valid() && fresh(this) && e == env && history == h && S() == L.Start(initialData, insert, h.S())
    {
      e, history := env, h;
      buffer, cursor, dirty := initialData, |initialData|, false;
      dirtyBeg := if initialData == [] then L.NPOS else |initialData|;
      phase, insertMode, popups := L.Accumulating, insert, [];
      screen := L.Screen(initialData, |initialData|, []);
      new;
      L.StartInv(e, initialData, insert, h.S());
    }

    // -- Primitives -----------------------------------------------------------------------------------------

    method Replace(offset: nat, remove: nat, input: wstring)
      requires Ok()
      modifies this
      ensures Is(L.Edit(old(S()), L.Replace(old(T()), offset, remove, input)))
    {
      var size := |buffer|;
      var o := Min(offset, size);
      var r := Min(remove, size - o);
      if r == 0 && input == [] {
        return;
      }
      buffer := buffer[..o] + input + buffer[o + r..];
      cursor := o + |input|;
      dirtyBeg := Min(dirtyBeg, o);
      dirty := true;
    }

    method ReplaceAll(str: wstring)
      requires Ok()
      modifies this
      ensures Is(L.Edit(old(S()), L.ReplaceAll(str)))
    {
      buffer, cursor, dirtyBeg, dirty := str, |str|, 0, true;
    }

    method SetCursorPosition(position: nat)
      requires Ok()
      modifies this
      ensures Is(L.Edit(old(S()), L.SetCursor(old(T()), position)))
    {
      cursor := Min(position, |buffer|);
      dirty := true;
    }

    /** The one way out of accumulating, which no handler takes twice. */
    method TransitionState(state: L.Phase)
      requires Ok() && phase == L.Accumulating
      modifies this
      ensures Is(old(S()).(phase := state))
    {
      phase := state;
    }

    method PopupPush(p: L.Popup)
      requires Ok()
      modifies this
      ensures Is(L.Push(old(S()), p))
    {
      popups := popups + [p];
      dirty := true;
    }

    method PopupsDone()
      requires Ok()
      modifies this
      ensures Is(L.PopupsDone(old(S())))
    {
      popups := [];
      dirty := true;
    }

    method SetTop(p: L.Popup)
      requires Ok() && popups != []
      modifies this
      ensures Is(L.SetTop(old(S()), p))
    {
      popups := popups[..|popups| - 1] + [p];
      dirty := true;
    }

    method Redisplay()
      requires Ok()
      modifies this
      ensures Is(L.Redisplay(e, old(S())))
    {
      if !dirty || !e.echo {
        return;
      }
      if popups != [] {
        popups := popups[0 := L.Drawn(popups[0], e.viewHeight, |history.commands|)];
      }
      screen := L.Screen(buffer, cursor, popups);
      dirtyBeg := |buffer|;
      dirty := false;
    }

    /** The command at an index of the history takes the place of the text. */
    method RecallNth(index: int)
      requires Ok()
      modifies this, history
      ensures Is(L.Recall(old(S()), History.AfterRetrieveNth(old(history.S()), index)))
    {
      var cmd := history.RetrieveNth(index);
      ReplaceAll(cmd);
    }

    method Recall(d: History.Direction)
      requires Ok()
      modifies this, history
      ensures Is(L.Recall(old(S()), History.AfterRetrieve(old(history.S()), d)))
    {
      var cmd := history.Retrieve(d);
      ReplaceAll(cmd);
    }

    // -- Characters -----------------------------------------------------------------------------------------

    method HandleWakeup(wch: wchar)
      requires Ok() && phase == L.Accumulating
      modifies this
      ensures Is(L.OnWakeup(e, old(S()), wch))
    {
      Replace(cursor, |buffer|, []);
      Redisplay();
      Replace(cursor, 0, [wch]);
      dirty := false;
      TransitionState(L.DoneWithWakeupMask);
    }

    method HandleChar(wch: wchar)
      requires Ok() && phase == L.Accumulating
      modifies this
      ensures Is(L.OnChar(e, old(S()), wch))
    {
      if wch < L.SPACE && e.wakeup(wch) {
        HandleWakeup(wch);
        return;
      }
      if wch == L.CR {
        SetCursorPosition(|buffer|);
        TransitionState(L.DoneWithCarriageReturn);
        return;
      }
      if (wch == L.ERASE_WORD || wch == L.BACKSPACE) && e.processed {
        Erase(wch);
        return;
      }
      var remove := 0;
      if !insertMode {
        remove := L.GraphemeNext(e, buffer, cursor) - cursor;
      }
      Replace(cursor, remove, [wch]);
    }

    method Erase(wch: wchar)
      requires Ok()
      modifies this
      ensures Is(L.OnErase(e, old(S()), wch))
    {
      var pos := ErasePosition(wch);
      Replace(pos, cursor - pos, []);
    }

    method ErasePosition(wch: wchar) returns (pos: nat)
      requires cursor <= |buffer|
      ensures pos <= cursor && pos == L.ErasePos(e, T(), wch)
    {
      if wch == L.ERASE_WORD {
        pos := WordPrev(e, buffer, cursor);
      } else {
        pos := L.GraphemePrev(e, buffer, cursor);
      }
    }

    // -- Keys -----------------------------------------------------------------------------------------------

    method HandleHome(ctrl: bool)
      requires Ok()
      modifies this
      ensures Is(L.OnHome(old(S()), ctrl))
    {
      if cursor > 0 {
        if ctrl {
          Replace(0, cursor, []);
        }
        SetCursorPosition(0);
      }
    }

    method HandleEnd(ctrl: bool)
      requires Ok()
      modifies this
      ensures Is(L.OnEnd(old(S()), ctrl))
    {
      if cursor < |buffer| {
        if ctrl {
          Replace(cursor, |buffer|, []);
        }
        SetCursorPosition(|buffer|);
      }
    }

    method HandleLeft(ctrl: bool)
      requires Ok()
      modifies this
      ensures Is(L.OnLeft(e, old(S()), ctrl))
    {
      if cursor != 0 {
        var pos;
        if ctrl {
          pos := WordPrev(e, buffer, cursor);
        } else {
          pos := L.GraphemePrev(e, buffer, cursor);
        }
        SetCursorPosition(pos);
      }
    }

    method HandleRight(byWord: bool)
      requires Ok()
      modifies this
      ensures Is(L.OnRight(e, old(S()), byWord))
    {
      if cursor != |buffer| {
        var pos;
        if byWord {
          pos := WordNext(e, buffer, cursor);
        } else {
          pos := L.GraphemeNext(e, buffer, cursor);
        }
        SetCursorPosition(pos);
      } else if e.hasHistory {
        var cmd := history.GetNth(history.lastDisplayed);
        var more := NextOf(cmd);
        Replace(|buffer|, 0, more);
      }
    }

    method NextOf(cmd: wstring) returns (more: wstring)
      ensures more == L.Beyond(e, buffer, cmd, 0, 0)
    {
      var bufferBeg: nat, cmdBeg: nat := 0, 0;
      while cmdBeg < |cmd|
        invariant bufferBeg <= |buffer| && cmdBeg <= |cmd|
        invariant L.Beyond(e, buffer, cmd, bufferBeg, cmdBeg) == L.Beyond(e, buffer, cmd, 0, 0)
        decreases |cmd| - cmdBeg
      {
        var cmdEnd := L.GraphemeNext(e, cmd, cmdBeg);
        if bufferBeg >= |buffer| {
          return cmd[cmdBeg..cmdEnd];
        }
        bufferBeg := L.GraphemeNext(e, buffer, bufferBeg);
        cmdBeg := cmdEnd;
      }
      more := [];
    }

    method HandleDelete()
      requires Ok()
      modifies this
      ensures Is(L.OnDelete(e, old(S())))
    {
      if cursor < |buffer| {
        var end := L.GraphemeNext(e, buffer, cursor);
        Replace(cursor, end - cursor, []);
      }
    }

    method HandleF3()
      requires Ok()
      modifies this
      ensures Is(L.OnF3(old(S())))
    {
      var last := history.GetNth(history.lastDisplayed);
      if |last| > cursor {
        Replace(cursor, |buffer|, last[cursor..]);
      }
    }

    method HandleF7(mods: L.Mods)
      requires Ok()
      modifies this, history
      ensures Is(L.OnF7(e, old(S()), mods))
    {
      if !mods.ctrl && !mods.alt {
        if e.hasHistory && |history.commands| != 0 {
          PopupPush(L.CommandList(10, -1, history.lastDisplayed));
        }
      } else if mods.alt && e.hasHistory {
        history.Empty();
      }
    }

    method HandleF8()
      requires Ok()
      modifies this, history
      ensures Is(L.OnF8(old(S())))
    {
      var cursorPos := cursor;
      var found, index := history.FindMatchingCommand(buffer[..cursorPos], history.lastDisplayed, false, false);
      if found {
        RecallNth(index);
        SetCursorPosition(cursorPos);
      }
    }

    method HandleHistoryKey(key: L.Key)
      requires Ok()
      modifies this, history
      ensures Is(L.OnHistoryKey(old(S()), key))
    {
      match key
      case Up =>
        if !History.AtFirst(HistoryState()) { Recall(History.Previous); }
      case F5 =>
        if !History.AtFirst(HistoryState()) { Recall(History.Previous); }
      case Down =>
        if !History.AtLast(HistoryState()) { Recall(History.Next); }
      case PageUp =>
        if !History.AtFirst(HistoryState()) { RecallNth(0); }
      case PageDown =>
        if !History.AtLast(HistoryState()) { RecallNth(L.MAX_INT); }
      case _ =>
    }

    function HistoryState(): (r: History.State)
      reads this, history
      ensures r == history.S()
    {
      History.State(history.commands, history.maxCommands, history.lastDisplayed, history.reset)
    }

    method HandleVkey(key: L.Key, mods: L.Mods)
      requires Ok() && phase == L.Accumulating
      modifies this, history
      ensures Is(L.OnKey(e, old(S()), key, mods))
    {
      match key
      case Escape => if buffer != [] { Replace(0, |buffer|, []); }
      case Home => HandleHome(mods.ctrl);
      case End => HandleEnd(mods.ctrl);
      case Left => HandleLeft(mods.ctrl);
      case Right => HandleRight(mods.ctrl);
      case F1 => HandleRight(false);
      case Insert => insertMode := !insertMode;
      case Delete => HandleDelete();
      case F6 => HandleChar(L.CTRL_Z);
      case F10 =>
      case _ => HandleOtherKey(key, mods);
    }

    method HandleOtherKey(key: L.Key, mods: L.Mods)
      requires Ok()
      modifies this, history
      ensures Is(L.OnOtherKey(e, old(S()), key, mods))
    {
      if key == L.F4 {
        PopupPush(L.CopyFromChar);
      } else if key == L.F7 {
        HandleF7(mods);
      } else if e.hasHistory {
        if key == L.F8 {
          HandleF8();
        } else {
          HandleSimpleHistoryKey(key, mods);
        }
      }
    }

    method HandleSimpleHistoryKey(key: L.Key, mods: L.Mods)
      requires Ok() && e.hasHistory && key != L.F4 && key != L.F7 && key != L.F8
      modifies this, history
      ensures Is(L.OnOtherKey(e, old(S()), key, mods))
    {
      if key == L.F2 {
        PopupPush(L.CopyToChar);
      } else if key == L.F3 {
        HandleF3();
      } else if key == L.F9 {
        if |history.commands| != 0 {
          PopupPush(L.CommandNumber([]));
        }
      } else {
        HandleHistoryKey(key);
      }
    }

    // -- Popups ---------------------------------------------------------------------------------------------

    method HandleCopyTo(wch: wchar)
      requires Ok()
      modifies this
      ensures Is(L.OnCopyTo(old(S()), wch))
    {
      var cmd := history.GetNth(history.lastDisplayed);
      var idx := if cursor <= |cmd| then L.IndexFrom(cmd, wch, cursor) else |cmd|;
      if idx < |cmd| {
        Replace(cursor, idx - cursor, cmd[cursor..idx]);
      }
      PopupsDone();
    }

    method HandleCopyFrom(wch: wchar)
      requires Ok()
      modifies this
      ensures Is(L.OnCopyFrom(old(S()), wch))
    {
      var idx := L.IndexFrom(buffer, wch, cursor);
      Replace(cursor, idx - cursor, []);
      PopupsDone();
    }

    method HandleNumber(digits: wstring, wch: wchar)
      requires Ok() && popups != [] && phase == L.Accumulating
      modifies this, history
      ensures Is(L.OnNumber(old(S()), digits, wch))
    {
      if wch == L.CR {
        if digits == [] {
          TransitionState(L.Aborted);
          return;
        }
        RecallNth(L.NumberOf(digits));
        PopupsDone();
      } else if L.IsDigit(wch) {
        if |digits| < L.MAX_DIGITS {
          SetTop(L.CommandNumber(digits + [wch]));
        }
      } else if wch == L.BACKSPACE {
        if |digits| > 0 {
          SetTop(L.CommandNumber(digits[..|digits| - 1]));
        }
      }
    }

    method HandleListChar(p: L.Popup, wch: wchar)
      requires Ok() && p.CommandList? && phase == L.Accumulating
      modifies this, history
      ensures Is(L.OnListChar(e, old(S()), p, wch))
    {
      if wch == L.CR {
        RecallNth(p.selected);
        PopupsDone();
        HandleChar(L.CR);
      }
    }

    method Move(p: L.Popup, delta: int, shift: bool)
      requires Ok() && popups != [] && p.CommandList?
      modifies this, history
      ensures Is(L.Select(L.Swapped(old(S()), shift, p.selected, p.selected + delta), p, p.selected + delta))
    {
      if shift {
        history.Swap(p.selected, p.selected + delta);
      }
      SetTop(p.(selected := p.selected + delta));
    }

    method HandleMoveKey(p: L.Popup, key: L.Key, shift: bool)
      requires Ok() && popups != [] && p.CommandList?
      modifies this, history
      ensures Is(L.OnMoveKey(old(S()), p, key, shift))
    {
      match key
      case Up => Move(p, -1, shift);
      case Down => Move(p, 1, shift);
      case Home => SetTop(p.(selected := 0));
      case End => SetTop(p.(selected := L.MAX_INT));
      case PageUp => SetTop(p.(selected := p.selected - p.height));
      case PageDown => SetTop(p.(selected := p.selected + p.height));
      case _ =>
    }

    method HandleListDelete(p: L.Popup)
      requires Ok() && p.CommandList?
      modifies this, history
      ensures Is(L.OnListDelete(old(S()), p))
    {
      var removed := history.Remove(p.selected);
      if |history.commands| <= 0 {
        PopupsDone();
        return;
      }
      dirty := true;
    }

    method HandleListKey(p: L.Popup, key: L.Key, mods: L.Mods)
      requires Ok() && popups != [] && p.CommandList?
      modifies this, history
      ensures Is(L.OnListKey(old(S()), p, key, mods))
    {
      match key
      case Escape => PopupsDone();
      case F9 => PopupPush(L.CommandNumber([]));
      case Delete => HandleListDelete(p);
      case Left => RecallNth(p.selected); PopupsDone();
      case Right => RecallNth(p.selected); PopupsDone();
      case _ => HandleMoveKey(p, key, mods.shift);
    }

    method HandlePopup(input: L.Input)
      requires Ok() && popups != [] && phase == L.Accumulating
      modifies this, history
      ensures Is(L.OnPopup(e, old(S()), input))
    {
      var p := popups[|popups| - 1];
      match input
      case Char(c, _) =>
        HandlePopupChar(p, c);
      case Vkey(key, mods) =>
        if p.CommandList? {
          HandleListKey(p, key, mods);
        } else if key == L.Escape {
          PopupsDone();
        }
    }

    method HandlePopupChar(p: L.Popup, c: wchar)
      requires Ok() && popups != [] && phase == L.Accumulating
      modifies this, history
      ensures Is(L.OnPopupChar(e, old(S()), p, c))
    {
      match p
      case CopyToChar => HandleCopyTo(c);
      case CopyFromChar => HandleCopyFrom(c);
      case CommandNumber(digits) => HandleNumber(digits, c);
      case CommandList(_, _, _) => HandleListChar(p, c);
    }

    // -- The read -------------------------------------------------------------------------------------------

    method HandleInput(input: L.Input)
      requires Ok() && phase == L.Accumulating
      modifies this, history
      ensures Is(L.Step(e, old(S()), input))
    {
      if popups != [] {
        HandlePopup(input);
      } else if input.Char? {
        HandleChar(input.c);
      } else {
        HandleVkey(input.key, input.mods);
      }
    }

    /** Handles the inputs there are while accumulating, then redraws; tells whether the read is over. The state is
        that after exactly the inputs up to the first that ends the read. */
    method Read(inputs: seq<L.Input>) returns (done: bool, used: nat)
      requires Valid() && phase == L.Accumulating
      modifies this, history
      ensures Valid() && done == (phase != L.Accumulating)
      ensures L.UsedUpTo(e, old(S()), inputs, used) && (!done ==> used == |inputs|)
      ensures S() == L.AfterLoop(e, L.Fed(e, old(S()), inputs, used))
    {
      ghost var s := S();
      used := HandleInputs(inputs);
      ghost var m := L.Fed(e, s, inputs, used);
      if phase != L.Aborted {
        L.RedisplayKeeps(e, m);
        Redisplay();
      }
      done := phase != L.Accumulating;
    }

    method HandleInputs(inputs: seq<L.Input>) returns (used: nat)
      requires Valid() && phase == L.Accumulating
      modifies this, history
      ensures Valid() && L.UsedUpTo(e, old(S()), inputs, used)
      ensures S() == L.Fed(e, old(S()), inputs, used)
      ensures phase == L.Accumulating ==> used == |inputs|
    {
      used := 0;
      ghost var s := S();
      while phase == L.Accumulating && used < |inputs|
        invariant Valid() && L.UsedUpTo(e, s, inputs, used) && S() == L.Fed(e, s, inputs, used)
        decreases |inputs| - used
      {
        L.StepKeeps(e, S(), inputs[used]);
        HandleInput(inputs[used]);
        used := used + 1;
      }
    }
  }
}
