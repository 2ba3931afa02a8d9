/** Editing a line: what every key does to the text, the cursor, the part to redraw, the popups and the history. */
module LineEditing {
  import opened Basics
  import opened Wide
  import History

  const SPACE: wchar := 32
  const CR: wchar := 13
  const BACKSPACE: wchar := 8
  const ERASE_WORD: wchar := 0x7F
  const CTRL_Z: wchar := 0x1A
  const NPOS := 0xFFFF_FFFF_FFFF_FFFF
  const MAX_DIGITS := 5
  const MAX_INT := 0x7FFF_FFFF

  datatype Key =
    | Escape | Home | End | Left | Right | Insert | Delete | Up | Down | PageUp | PageDown
    | F1 | F2 | F3 | F4 | F5 | F6 | F7 | F8 | F9 | F10

  datatype Mods = Mods(ctrl: bool, alt: bool, shift: bool)

  datatype Input = Char(c: wchar, mods: Mods) | Vkey(key: Key, mods: Mods)

  datatype Popup =
    | CopyToChar
    | CopyFromChar
    | CommandNumber(digits: wstring)
    | CommandList(height: int, top: int, selected: int)

  datatype Phase = Accumulating | DoneWithWakeupMask | DoneWithCarriageReturn | Aborted

  /** The text being edited; `dirtyBeg` is where it starts to differ from the screen. */
  datatype Text = Text(buffer: wstring, dirtyBeg: nat, cursor: nat, dirty: bool)

  /** What the last completed redisplay drew. */
  datatype Screen = Screen(text: wstring, cursor: nat, popups: seq<Popup>)

  datatype State = State(text: Text, phase: Phase, insert: bool, popups: seq<Popup>, history: History.State,
                         screen: Screen)

  /** What the line editor is told by its surroundings; `wakeup` are the control characters that end the read. */
  datatype Env = Env(
    next: (wstring, nat) -> nat,
    prev: (wstring, nat) -> nat,
    delimiter: wchar -> bool,
    wakeup: wchar -> bool,
    echo: bool,
    processed: bool,
    hasHistory: bool,
    viewHeight: nat)

  // -- Positions --------------------------------------------------------------------------------------------

  /** The next and the previous grapheme boundary, whichever they are. */
  function GraphemeNext(e: Env, s: wstring, i: nat): (r: nat)
    requires i <= |s|
    ensures i <= r <= |s| && (i < |s| ==> i < r)
  {
    if i == |s| then i else var r := e.next(s, i); if r <= i then i + 1 else if r > |s| then |s| else r
  }

  function GraphemePrev(e: Env, s: wstring, i: nat): (r: nat)
    requires i <= |s|
    ensures r <= i && (i > 0 ==> r < i)
  {
    if i == 0 then 0 else var r := e.prev(s, i); if r >= i then i - 1 else r
  }

  function ClassOf(e: Env, c: wchar): nat { if c == SPACE then 1 else if e.delimiter(c) then 2 else 0 }

  /** Back over spaces. */
  function SkipSpacesBack(s: wstring, i: nat): (r: nat)
    requires i < |s|
    ensures r <= i && (r > 0 ==> s[r] != SPACE)
    ensures forall k :: r < k <= i ==> s[k] == SPACE
  {
    if i != 0 && s[i] == SPACE then SkipSpacesBack(s, i - 1) else i
  }

  /** Back to the first of a run of the same class. */
  function RunStart(e: Env, s: wstring, i: nat): (r: nat)
    requires i < |s|
    ensures r <= i && (r > 0 ==> ClassOf(e, s[r - 1]) != ClassOf(e, s[i]))
    ensures forall k :: r <= k <= i ==> ClassOf(e, s[k]) == ClassOf(e, s[i])
  {
    if i != 0 && ClassOf(e, s[i - 1]) == ClassOf(e, s[i]) then RunStart(e, s, i - 1) else i
  }

  function WordPrev(e: Env, s: wstring, i: nat): (r: nat)
    requires i <= |s|
    ensures r <= i && (i > 0 ==> r < i)
  {
    if i == 0 then 0 else RunStart(e, s, SkipSpacesBack(s, i - 1))
  }

  function RunEnd(e: Env, s: wstring, c: nat, i: nat): (r: nat)
    requires i <= |s|
    ensures i <= r <= |s| && (r < |s| ==> ClassOf(e, s[r]) != c)
    ensures forall k :: i <= k < r ==> ClassOf(e, s[k]) == c
    decreases |s| - i
  {
    if i != |s| && ClassOf(e, s[i]) == c then RunEnd(e, s, c, i + 1) else i
  }

  function SkipSpaces(s: wstring, i: nat): (r: nat)
    requires i <= |s|
    ensures i <= r <= |s| && (r < |s| ==> s[r] != SPACE)
    ensures forall k :: i <= k < r ==> s[k] == SPACE
    decreases |s| - i
  {
    if i != |s| && s[i] == SPACE then SkipSpaces(s, i + 1) else i
  }

  function WordNext(e: Env, s: wstring, i: nat): (r: nat)
    requires i <= |s|
    ensures i <= r <= |s| && (i < |s| ==> i < r)
  {
    if i == |s| then i else SkipSpaces(s, RunEnd(e, s, ClassOf(e, s[i]), i + 1))
  }

  /** Where a word begins: at the start of the text or where a run of characters of another class ends. */
  ghost predicate WordStart(e: Env, s: wstring, i: nat) {
    i < |s| && s[i] != SPACE && (i == 0 || ClassOf(e, s[i - 1]) != ClassOf(e, s[i]))
  }

  /** Going back by a word lands on the last word start before the position, or at the very start. */
  lemma WordPrevIsLastStart(e: Env, s: wstring, i: nat)
    requires 0 < i <= |s|
    ensures var r := WordPrev(e, s, i);
            (r == 0 || WordStart(e, s, r)) && forall k :: r < k < i ==> !WordStart(e, s, k)
  {}

  /** Going on by a word lands on the first word start after the position, or at the end. */
  lemma WordNextIsFirstStart(e: Env, s: wstring, i: nat)
    requires i < |s|
    ensures var r := WordNext(e, s, i);
            (r == |s| || WordStart(e, s, r)) && forall k :: i < k < r ==> !WordStart(e, s, k)
  {}

  // -- Text -------------------------------------------------------------------------------------------------

  function Replace(t: Text, offset: nat, remove: nat, input: wstring): Text {
    var o := Min(offset, |t.buffer|);
    var r := Min(remove, |t.buffer| - o);
    if r == 0 && input == [] then t
    else Text(t.buffer[..o] + input + t.buffer[o + r..], Min(t.dirtyBeg, o), o + |input|, true)
  }

  function ReplaceAll(s: wstring): Text { Text(s, 0, |s|, true) }

  function SetCursor(t: Text, position: nat): Text { t.(cursor := Min(position, |t.buffer|), dirty := true) }

  /** The text before the dirty part is on the screen, and the cursor is in the text. */
  ghost predicate TextInv(t: Text, shown: wstring) {
    && t.cursor <= |t.buffer|
    && (t.dirtyBeg <= |t.buffer| || t.buffer == [])
    && CleanPart(t) <= |shown|
    && t.buffer[..CleanPart(t)] == shown[..CleanPart(t)]
  }

  ghost function CleanPart(t: Text): nat { Min(t.dirtyBeg, |t.buffer|) }

  lemma ReplaceKeeps(t: Text, shown: wstring, offset: nat, remove: nat, input: wstring)
    requires TextInv(t, shown)
    ensures TextInv(Replace(t, offset, remove, input), shown)
  {
    var o := Min(offset, |t.buffer|);
    var d := Min(t.dirtyBeg, o);
    assert t.buffer[..d] == shown[..d] by {
      assert t.buffer[..CleanPart(t)][..d] == t.buffer[..d];
      assert shown[..CleanPart(t)][..d] == shown[..d];
    }
  }

  // -- Redisplay --------------------------------------------------------------------------------------------

  function ListHeight(viewHeight: nat, count: nat): int {
    var room := if viewHeight / 2 - 1 <= 20 then viewHeight / 2 - 1 else 20;
    if count <= room then count else room
  }

  /** Drawing the command list brings the selection into range and the list's top to where it shows it. */
  function Drawn(p: Popup, viewHeight: nat, count: nat): Popup {
    var height := ListHeight(viewHeight, count);
    if !p.CommandList? || height < 1 then p
    else
      var selected := Clamp(p.selected, 0, count - 1);
      var top := if p.top >= 0 then p.top else if selected - height / 2 >= 0 then selected - height / 2 else 0;
      var up := if top <= selected then top else selected;
      var down := if up >= selected - height + 1 then up else selected - height + 1;
      CommandList(height, Clamp(down, 0, count - height), selected)
  }

  lemma ListShowsSelection(p: Popup, viewHeight: nat, count: nat)
    requires p.CommandList? && ListHeight(viewHeight, count) >= 1
    ensures var q := Drawn(p, viewHeight, count);
            0 <= q.top <= q.selected < q.top + q.height <= count
              && (0 <= p.selected < count ==> q.selected == p.selected)
  {}

  /** A list scrolls no further than it takes to show its selection; one not drawn yet has it in the middle, as far as
      the ends allow. */
  lemma ListScrollsLeast(p: Popup, viewHeight: nat, count: nat, top: int)
    requires p.CommandList? && ListHeight(viewHeight, count) >= 1
    requires var q := Drawn(p, viewHeight, count); 0 <= top <= count - q.height && top <= q.selected < top + q.height
    ensures var q := Drawn(p, viewHeight, count);
            if p.top < 0 then q.top == Clamp(q.selected - q.height / 2, 0, count - q.height)
            else p.top <= q.top <= top || top <= q.top <= p.top
  {}

  function DrawnAll(s: State, viewHeight: nat): seq<Popup> {
    if s.popups == [] then [] else s.popups[0 := Drawn(s.popups[0], viewHeight, |s.history.commands|)]
  }

  function Redisplay(e: Env, s: State): State {
    if !s.text.dirty || !e.echo then s
    else
      var popups := DrawnAll(s, e.viewHeight);
      s.(text := s.text.(dirtyBeg := |s.text.buffer|, dirty := false), popups := popups,
         screen := Screen(s.text.buffer, s.text.cursor, popups))
  }

  // -- Characters -------------------------------------------------------------------------------------------

  predicate WakesUp(e: Env, c: wchar) { c < SPACE && e.wakeup(c) }

  function Edit(s: State, t: Text): State { s.(text := t) }

  /** Everything behind the cursor goes, and the character is put there unseen. */
  function OnWakeup(e: Env, s: State, c: wchar): State {
    var s1 := Redisplay(e, Edit(s, Replace(s.text, s.text.cursor, |s.text.buffer|, [])));
    s1.(text := Replace(s1.text, s1.text.cursor, 0, [c]).(dirty := false), phase := DoneWithWakeupMask)
  }

  function ErasePos(e: Env, t: Text, c: wchar): nat
    requires t.cursor <= |t.buffer|
  {
    if c == ERASE_WORD then WordPrev(e, t.buffer, t.cursor) else GraphemePrev(e, t.buffer, t.cursor)
  }

  function OnReturn(s: State): State {
    s.(text := SetCursor(s.text, |s.text.buffer|), phase := DoneWithCarriageReturn)
  }

  function OnErase(e: Env, s: State, c: wchar): State
    requires s.text.cursor <= |s.text.buffer|
  {
    var pos := ErasePos(e, s.text, c);
    Edit(s, Replace(s.text, pos, s.text.cursor - pos, []))
  }

  function OnType(e: Env, s: State, c: wchar): State
    requires s.text.cursor <= |s.text.buffer|
  {
    var t := s.text;
    Edit(s, Replace(t, t.cursor, if s.insert then 0 else GraphemeNext(e, t.buffer, t.cursor) - t.cursor, [c]))
  }

  function OnChar(e: Env, s: State, c: wchar): State
    requires s.text.cursor <= |s.text.buffer|
  {
    if WakesUp(e, c) then OnWakeup(e, s, c)
    else if c == CR then OnReturn(s)
    else if (c == ERASE_WORD || c == BACKSPACE) && e.processed then OnErase(e, s, c)
    else OnType(e, s, c)
  }

  // -- Keys -------------------------------------------------------------------------------------------------

  function OnHome(s: State, ctrl: bool): State {
    var t := s.text;
    if t.cursor == 0 then s else Edit(s, SetCursor(if ctrl then Replace(t, 0, t.cursor, []) else t, 0))
  }

  function OnEnd(s: State, ctrl: bool): State {
    var t := s.text;
    if t.cursor >= |t.buffer| then s
    else
      var t1 := if ctrl then Replace(t, t.cursor, |t.buffer|, []) else t;
      Edit(s, SetCursor(t1, |t1.buffer|))
  }

  function OnLeft(e: Env, s: State, ctrl: bool): State
    requires s.text.cursor <= |s.text.buffer|
  {
    var t := s.text;
    if t.cursor == 0 then s
    else Edit(s, SetCursor(t, if ctrl then WordPrev(e, t.buffer, t.cursor) else GraphemePrev(e, t.buffer, t.cursor)))
  }

  /** The grapheme of the last command whose number is that of the graphemes in the buffer; none if it has fewer. */
  function Beyond(e: Env, buffer: wstring, cmd: wstring, b: nat, c: nat): (r: wstring)
    requires b <= |buffer| && c <= |cmd|
    decreases |cmd| - c
  {
    if c == |cmd| then []
    else
      var end := GraphemeNext(e, cmd, c);
      if b == |buffer| then cmd[c..end] else Beyond(e, buffer, cmd, GraphemeNext(e, buffer, b), end)
  }

  function OnRight(e: Env, s: State, byWord: bool): State
    requires s.text.cursor <= |s.text.buffer|
  {
    var t := s.text;
    if t.cursor != |t.buffer| then
      Edit(s, SetCursor(t, if byWord then WordNext(e, t.buffer, t.cursor) else GraphemeNext(e, t.buffer, t.cursor)))
    else if e.hasHistory then Edit(s, Replace(t, |t.buffer|, 0, Beyond(e, t.buffer, History.Shown(s.history), 0, 0)))
    else s
  }

  function OnDelete(e: Env, s: State): State
    requires s.text.cursor <= |s.text.buffer|
  {
    var t := s.text;
    if t.cursor < |t.buffer|
    then Edit(s, Replace(t, t.cursor, GraphemeNext(e, t.buffer, t.cursor) - t.cursor, []))
    else s
  }

  /** A command from the history takes the place of the text. */
  function Recall(s: State, h: History.State): State { s.(text := ReplaceAll(History.Shown(h)), history := h) }

  function OnF3(s: State): State {
    var t, cmd := s.text, History.Shown(s.history);
    if |cmd| > t.cursor then Edit(s, Replace(t, t.cursor, |t.buffer|, cmd[t.cursor..])) else s
  }

  function OnF8(s: State): State
    requires s.text.cursor <= |s.text.buffer|
  {
    var t, h := s.text, s.history;
    var r := History.Find(h, t.buffer[..t.cursor], h.last, false, false);
    var h1 := History.AfterFind(h, false);
    if r.0 then
      var s1 := Recall(s, History.AfterRetrieveNth(h1, r.1));
      Edit(s1, SetCursor(s1.text, t.cursor))
    else s.(history := h1)
  }

  function Dirty(s: State): State { s.(text := s.text.(dirty := true)) }

  function Push(s: State, p: Popup): State { Dirty(s.(popups := s.popups + [p])) }

  function PopupsDone(s: State): State { Dirty(s.(popups := [])) }

  function NewList(s: State): Popup { CommandList(10, -1, s.history.last) }

  function OnF7(e: Env, s: State, mods: Mods): State {
    if !e.hasHistory then s
    else if !mods.ctrl && !mods.alt then if s.history.commands != [] then Push(s, NewList(s)) else s
    else if mods.alt then s.(history := History.AfterEmpty(s.history))
    else s
  }

  function OnHistoryKey(s: State, key: Key): State {
    var h := s.history;
    match key
    case Up => if History.AtFirst(h) then s else Recall(s, History.AfterRetrieve(h, History.Previous))
    case F5 => if History.AtFirst(h) then s else Recall(s, History.AfterRetrieve(h, History.Previous))
    case Down => if History.AtLast(h) then s else Recall(s, History.AfterRetrieve(h, History.Next))
    case PageUp => if History.AtFirst(h) then s else Recall(s, History.AfterRetrieveNth(h, 0))
    case PageDown => if History.AtLast(h) then s else Recall(s, History.AfterRetrieveNth(h, MAX_INT))
    case _ => s
  }

  /** The keys that use the history or open a popup. */
  function OnOtherKey(e: Env, s: State, key: Key, mods: Mods): State
    requires s.text.cursor <= |s.text.buffer|
  {
    match key
    case F2 => if e.hasHistory then Push(s, CopyToChar) else s
    case F3 => if e.hasHistory then OnF3(s) else s
    case F4 => Push(s, CopyFromChar)
    case F7 => OnF7(e, s, mods)
    case F8 => if e.hasHistory then OnF8(s) else s
    case F9 => if e.hasHistory && s.history.commands != [] then Push(s, CommandNumber([])) else s
    case _ => if e.hasHistory then OnHistoryKey(s, key) else s
  }

  function OnKey(e: Env, s: State, key: Key, mods: Mods): State
    requires s.text.cursor <= |s.text.buffer|
  {
    match key
    case Escape => if s.text.buffer != [] then Edit(s, Replace(s.text, 0, |s.text.buffer|, [])) else s
    case Home => OnHome(s, mods.ctrl)
    case End => OnEnd(s, mods.ctrl)
    case Left => OnLeft(e, s, mods.ctrl)
    case Right => OnRight(e, s, mods.ctrl)
    case F1 => OnRight(e, s, false)
    case Insert => s.(insert := !s.insert)
    case Delete => OnDelete(e, s)
    case F6 => OnChar(e, s, CTRL_Z)
    case F10 => s
    case _ => OnOtherKey(e, s, key, mods)
  }

  // -- Popups -----------------------------------------------------------------------------------------------

  /** The first place of c in s from i on, or the end. */
  function IndexFrom(s: wstring, c: wchar, i: nat): (r: nat)
    requires i <= |s|
    ensures i <= r <= |s| && (r < |s| ==> s[r] == c)
    ensures forall k :: i <= k < r ==> s[k] != c
    decreases |s| - i
  {
    if i < |s| && s[i] != c then IndexFrom(s, c, i + 1) else i
  }

  function OnCopyTo(s: State, c: wchar): State {
    var t, cmd := s.text, History.Shown(s.history);
    if t.cursor <= |cmd| && IndexFrom(cmd, c, t.cursor) < |cmd| then
      var i := IndexFrom(cmd, c, t.cursor);
      PopupsDone(Edit(s, Replace(t, t.cursor, i - t.cursor, cmd[t.cursor..i])))
    else PopupsDone(s)
  }

  function OnCopyFrom(s: State, c: wchar): State
    requires s.text.cursor <= |s.text.buffer|
  {
    var t := s.text;
    PopupsDone(Edit(s, Replace(t, t.cursor, IndexFrom(t.buffer, c, t.cursor) - t.cursor, [])))
  }

  predicate IsDigit(c: wchar) { 48 <= c <= 57 }

  function NumberOf(digits: wstring): int {
    if digits == [] then 0
    else
      var last: int := digits[|digits| - 1];
      10 * NumberOf(digits[..|digits| - 1]) + last - 48
  }

  function SetTop(s: State, p: Popup): State
    requires s.popups != []
  {
    Dirty(s.(popups := s.popups[..|s.popups| - 1] + [p]))
  }

  /** Without digits there is no number: the exception leaves the read. */
  function OnNumber(s: State, digits: wstring, c: wchar): State
    requires s.popups != []
  {
    if c == CR then
      if digits == [] then s.(phase := Aborted)
      else PopupsDone(Recall(s, History.AfterRetrieveNth(s.history, NumberOf(digits))))
    else if IsDigit(c) then if |digits| < MAX_DIGITS then SetTop(s, CommandNumber(digits + [c])) else s
    else if c == BACKSPACE then if |digits| > 0 then SetTop(s, CommandNumber(digits[..|digits| - 1])) else s
    else s
  }

  function Select(s: State, p: Popup, selected: int): State
    requires s.popups != [] && p.CommandList?
  {
    SetTop(s, p.(selected := selected))
  }

  function Swapped(s: State, swap: bool, a: int, b: int): State {
    if swap then s.(history := History.AfterSwap(s.history, a, b)) else s
  }

  function OnListDelete(s: State, p: Popup): State
    requires p.CommandList?
  {
    var s1 := s.(history := History.AfterRemove(s.history, p.selected));
    if s1.history.commands == [] then PopupsDone(s1) else Dirty(s1)
  }

  /** The keys that move the selection, with Shift along with the command. */
  function OnMoveKey(s: State, p: Popup, key: Key, shift: bool): State
    requires s.popups != [] && p.CommandList?
  {
    match key
    case Up => Select(Swapped(s, shift, p.selected, p.selected - 1), p, p.selected - 1)
    case Down => Select(Swapped(s, shift, p.selected, p.selected + 1), p, p.selected + 1)
    case Home => Select(s, p, 0)
    case End => Select(s, p, MAX_INT)
    case PageUp => Select(s, p, p.selected - p.height)
    case PageDown => Select(s, p, p.selected + p.height)
    case _ => s
  }

  function OnListKey(s: State, p: Popup, key: Key, mods: Mods): State
    requires s.popups != [] && p.CommandList?
  {
    match key
    case Escape => PopupsDone(s)
    case F9 => Push(s, CommandNumber([]))
    case Delete => OnListDelete(s, p)
    case Left => PopupsDone(Recall(s, History.AfterRetrieveNth(s.history, p.selected)))
    case Right => PopupsDone(Recall(s, History.AfterRetrieveNth(s.history, p.selected)))
    case _ => OnMoveKey(s, p, key, mods.shift)
  }

  function OnListChar(e: Env, s: State, p: Popup, c: wchar): State
    requires p.CommandList?
  {
    if c == CR then OnChar(e, PopupsDone(Recall(s, History.AfterRetrieveNth(s.history, p.selected))), CR) else s
  }

  function OnPopupChar(e: Env, s: State, p: Popup, c: wchar): State
    requires s.popups != [] && s.text.cursor <= |s.text.buffer|
  {
    match p
    case CopyToChar => OnCopyTo(s, c)
    case CopyFromChar => OnCopyFrom(s, c)
    case CommandNumber(digits) => OnNumber(s, digits, c)
    case CommandList(_, _, _) => OnListChar(e, s, p, c)
  }

  function OnPopupKey(s: State, p: Popup, key: Key, mods: Mods): State
    requires s.popups != []
  {
    if p.CommandList? then OnListKey(s, p, key, mods) else if key == Escape then PopupsDone(s) else s
  }

  function OnPopup(e: Env, s: State, input: Input): State
    requires s.popups != [] && s.text.cursor <= |s.text.buffer|
  {
    var p := s.popups[|s.popups| - 1];
    match input
    case Char(c, _) => OnPopupChar(e, s, p, c)
    case Vkey(key, mods) => OnPopupKey(s, p, key, mods)
  }

  /** One input, given to the popup if there is one. */
  function Step(e: Env, s: State, input: Input): State
    requires s.text.cursor <= |s.text.buffer|
  {
    if s.popups != [] then OnPopup(e, s, input)
    else if input.Char? then OnChar(e, s, input.c)
    else OnKey(e, s, input.key, input.mods)
  }

  // -- What every input keeps -------------------------------------------------------------------------------

  predicate PopupsInv(ps: seq<Popup>, hasHistory: bool) {
    && |ps| <= 2
    && (|ps| == 2 ==> ps[0].CommandList? && ps[1].CommandNumber?)
    && (forall i :: 0 <= i < |ps| ==> PopupInv(ps[i], hasHistory))
  }

  /** The digits fit their buffer, and no popup that uses the history exists without one. */
  predicate PopupInv(p: Popup, hasHistory: bool) {
    (p.CommandNumber? ==> |p.digits| <= MAX_DIGITS && forall i :: 0 <= i < |p.digits| ==> IsDigit(p.digits[i]))
    && (p.CopyFromChar? || hasHistory)
  }

  /** While input is being accumulated, all that the screen lacks is marked dirty. */
  ghost predicate ScreenInv(s: State) {
    s.phase == Accumulating && !s.text.dirty ==> s.screen == Screen(s.text.buffer, s.text.cursor, s.popups)
  }

  ghost predicate Inv(e: Env, s: State) {
    && TextInv(s.text, s.screen.text)
    && PopupsInv(s.popups, e.hasHistory)
    && History.Inv(s.history)
    && ScreenInv(s)
  }

  function Start(initial: wstring, insert: bool, h: History.State): State {
    State(Text(initial, if initial == [] then NPOS else |initial|, |initial|, false), Accumulating, insert, [], h,
          Screen(initial, |initial|, []))
  }

  lemma StartInv(e: Env, initial: wstring, insert: bool, h: History.State)
    requires History.Inv(h)
    ensures Inv(e, Start(initial, insert, h)) && Start(initial, insert, h).phase == Accumulating
  {}

  /** A text that the screen's invariant allows in place of the present one. */
  ghost predicate Allowed(s: State, t: Text) { TextInv(t, s.screen.text) && (t.dirty || t == s.text) }

  lemma EditKeeps(e: Env, s: State, t: Text)
    requires Inv(e, s) && Allowed(s, t)
    ensures Inv(e, Edit(s, t))
  {}

  lemma ReplaceIsAllowed(s: State, t: Text, offset: nat, remove: nat, input: wstring)
    requires Allowed(s, t)
    ensures Allowed(s, Replace(t, offset, remove, input))
  {
    ReplaceKeeps(t, s.screen.text, offset, remove, input);
  }

  lemma SetCursorIsAllowed(s: State, t: Text, position: nat)
    requires Allowed(s, t)
    ensures Allowed(s, SetCursor(t, position))
  {}

  lemma ReplaceAllIsAllowed(s: State, text: wstring)
    ensures Allowed(s, ReplaceAll(text))
  {}

  lemma SpliceKeeps(e: Env, s: State, offset: nat, remove: nat, input: wstring)
    requires Inv(e, s)
    ensures Inv(e, Edit(s, Replace(s.text, offset, remove, input)))
  {
    ReplaceIsAllowed(s, s.text, offset, remove, input);
    EditKeeps(e, s, Replace(s.text, offset, remove, input));
  }

  /** Every redisplay keeps the invariant and leaves nothing dirty where input is echoed. */
  lemma RedisplayKeeps(e: Env, s: State)
    requires Inv(e, s)
    ensures Inv(e, Redisplay(e, s)) && (e.echo ==> !Redisplay(e, s).text.dirty)
  {
    assert s.text.buffer[..|s.text.buffer|] == s.text.buffer;
  }

  lemma WakeupKeeps(e: Env, s: State, c: wchar)
    requires Inv(e, s)
    ensures Inv(e, OnWakeup(e, s, c))
  {
    var t1 := Replace(s.text, s.text.cursor, |s.text.buffer|, []);
    ReplaceIsAllowed(s, s.text, s.text.cursor, |s.text.buffer|, []);
    EditKeeps(e, s, t1);
    RedisplayKeeps(e, Edit(s, t1));
    var s1 := Redisplay(e, Edit(s, t1));
    ReplaceKeeps(s1.text, s1.screen.text, s1.text.cursor, 0, [c]);
  }

  lemma ReturnKeeps(e: Env, s: State)
    requires Inv(e, s)
    ensures Inv(e, OnReturn(s))
  {}

  lemma EraseKeeps(e: Env, s: State, c: wchar)
    requires Inv(e, s)
    ensures Inv(e, OnErase(e, s, c))
  {
    var pos := ErasePos(e, s.text, c);
    SpliceKeeps(e, s, pos, s.text.cursor - pos, []);
  }

  lemma TypeKeeps(e: Env, s: State, c: wchar)
    requires Inv(e, s)
    ensures Inv(e, OnType(e, s, c))
  {
    var t := s.text;
    SpliceKeeps(e, s, t.cursor, if s.insert then 0 else GraphemeNext(e, t.buffer, t.cursor) - t.cursor, [c]);
  }

  lemma CharKeeps(e: Env, s: State, c: wchar)
    requires Inv(e, s)
    ensures Inv(e, OnChar(e, s, c))
  {
    if WakesUp(e, c) {
      assert OnChar(e, s, c) == OnWakeup(e, s, c);
      WakeupKeeps(e, s, c);
    } else if c == CR {
      assert OnChar(e, s, c) == OnReturn(s);
      ReturnKeeps(e, s);
    } else if (c == ERASE_WORD || c == BACKSPACE) && e.processed {
      assert OnChar(e, s, c) == OnErase(e, s, c);
      EraseKeeps(e, s, c);
    } else {
      assert OnChar(e, s, c) == OnType(e, s, c);
      TypeKeeps(e, s, c);
    }
  }

  lemma HomeEndKeep(e: Env, s: State, ctrl: bool)
    requires Inv(e, s)
    ensures Inv(e, OnHome(s, ctrl)) && Inv(e, OnEnd(s, ctrl))
  {
    var t := s.text;
    ReplaceIsAllowed(s, t, 0, t.cursor, []);
    ReplaceIsAllowed(s, t, t.cursor, |t.buffer|, []);
    var t0 := if ctrl then Replace(t, 0, t.cursor, []) else t;
    var t1 := if ctrl then Replace(t, t.cursor, |t.buffer|, []) else t;
    SetCursorIsAllowed(s, t0, 0);
    SetCursorIsAllowed(s, t1, |t1.buffer|);
    EditKeeps(e, s, SetCursor(t0, 0));
    EditKeeps(e, s, SetCursor(t1, |t1.buffer|));
  }

  lemma LeftRightKeep(e: Env, s: State, byWord: bool)
    requires Inv(e, s)
    ensures Inv(e, OnLeft(e, s, byWord)) && Inv(e, OnRight(e, s, byWord))
  {
    var t := s.text;
    if t.cursor == |t.buffer| {
      var more := Beyond(e, t.buffer, History.Shown(s.history), 0, 0);
      SpliceKeeps(e, s, |t.buffer|, 0, more);
    }
  }

  lemma DeleteKeeps(e: Env, s: State)
    requires Inv(e, s)
    ensures Inv(e, OnDelete(e, s))
  {
    var t := s.text;
    SpliceKeeps(e, s, t.cursor, GraphemeNext(e, t.buffer, t.cursor) - t.cursor, []);
  }

  lemma RecallKeeps(e: Env, s: State, h: History.State)
    requires Inv(e, s) && History.Inv(h)
    ensures Inv(e, Recall(s, h))
  {
    ReplaceAllIsAllowed(s, History.Shown(h));
  }

  lemma F3Keeps(e: Env, s: State)
    requires Inv(e, s)
    ensures Inv(e, OnF3(s))
  {
    var t, cmd := s.text, History.Shown(s.history);
    if |cmd| > t.cursor {
      SpliceKeeps(e, s, t.cursor, |t.buffer|, cmd[t.cursor..]);
    }
  }

  lemma RetrieveKeeps(h: History.State, i: int)
    requires History.Inv(h)
    ensures History.Inv(History.AfterRetrieveNth(h, i))
  {}

  lemma F8Keeps(e: Env, s: State)
    requires Inv(e, s)
    ensures Inv(e, OnF8(s))
  {
    var t, h := s.text, s.history;
    var r := History.Find(h, t.buffer[..t.cursor], h.last, false, false);
    var h1 := History.AfterFind(h, false);
    if r.0 {
      RetrieveKeeps(h1, r.1);
      var s1 := Recall(s, History.AfterRetrieveNth(h1, r.1));
      RecallKeeps(e, s, History.AfterRetrieveNth(h1, r.1));
      SetCursorIsAllowed(s1, s1.text, t.cursor);
      EditKeeps(e, s1, SetCursor(s1.text, t.cursor));
    }
  }

  lemma HistoryKeyKeeps(e: Env, s: State, key: Key)
    requires Inv(e, s)
    ensures Inv(e, OnHistoryKey(s, key))
  {
    var h := s.history;
    History.NextKeeps(h, History.OpRetrieve(History.Previous));
    History.NextKeeps(h, History.OpRetrieve(History.Next));
    RetrieveKeeps(h, 0);
    RetrieveKeeps(h, MAX_INT);
    match key
    case Up => RecallKeeps(e, s, History.AfterRetrieve(h, History.Previous));
    case F5 => RecallKeeps(e, s, History.AfterRetrieve(h, History.Previous));
    case Down => RecallKeeps(e, s, History.AfterRetrieve(h, History.Next));
    case PageUp => RecallKeeps(e, s, History.AfterRetrieveNth(h, 0));
    case PageDown => RecallKeeps(e, s, History.AfterRetrieveNth(h, MAX_INT));
    case _ =>
  }

  lemma PopupsDoneKeeps(e: Env, s: State)
    requires Inv(e, s)
    ensures Inv(e, PopupsDone(s))
  {}

  lemma PushKeeps(e: Env, s: State, p: Popup)
    requires Inv(e, s) && PopupInv(p, e.hasHistory)
    requires s.popups == [] || (|s.popups| == 1 && s.popups[0].CommandList? && p.CommandNumber?)
    ensures Inv(e, Push(s, p))
  {}

  lemma F7Keeps(e: Env, s: State, mods: Mods)
    requires Inv(e, s) && s.popups == []
    ensures Inv(e, OnF7(e, s, mods))
  {
    if e.hasHistory { PushKeeps(e, s, NewList(s)); }
  }

  lemma OtherKeyKeeps(e: Env, s: State, key: Key, mods: Mods)
    requires Inv(e, s) && s.popups == []
    ensures Inv(e, OnOtherKey(e, s, key, mods))
  {
    match key
    case F2 => if e.hasHistory { PushKeeps(e, s, CopyToChar); }
    case F3 => F3Keeps(e, s);
    case F4 => PushKeeps(e, s, CopyFromChar);
    case F7 => F7Keeps(e, s, mods);
    case F8 => F8Keeps(e, s);
    case F9 => if e.hasHistory { PushKeeps(e, s, CommandNumber([])); }
    case _ => HistoryKeyKeeps(e, s, key);
  }

  lemma KeyKeeps(e: Env, s: State, key: Key, mods: Mods)
    requires Inv(e, s) && s.popups == []
    ensures Inv(e, OnKey(e, s, key, mods))
  {
    match key
    case Escape => SpliceKeeps(e, s, 0, |s.text.buffer|, []);
    case Home => HomeEndKeep(e, s, mods.ctrl);
    case End => HomeEndKeep(e, s, mods.ctrl);
    case Left => LeftRightKeep(e, s, mods.ctrl);
    case Right => LeftRightKeep(e, s, mods.ctrl);
    case F1 => LeftRightKeep(e, s, false);
    case Insert =>
    case Delete => DeleteKeeps(e, s);
    case F6 => CharKeeps(e, s, CTRL_Z);
    case F10 =>
    case _ => OtherKeyKeeps(e, s, key, mods);
  }

  lemma SpliceAndCloseKeeps(e: Env, s: State, offset: nat, remove: nat, input: wstring)
    requires Inv(e, s)
    ensures Inv(e, PopupsDone(Edit(s, Replace(s.text, offset, remove, input))))
  {
    SpliceKeeps(e, s, offset, remove, input);
    PopupsDoneKeeps(e, Edit(s, Replace(s.text, offset, remove, input)));
  }

  lemma CopyToKeeps(e: Env, s: State, c: wchar)
    requires Inv(e, s)
    ensures Inv(e, OnCopyTo(s, c))
  {
    var k, cmd := s.text.cursor, History.Shown(s.history);
    PopupsDoneKeeps(e, s);
    if k <= |cmd| {
      var i := IndexFrom(cmd, c, k);
      SpliceAndCloseKeeps(e, s, k, i - k, cmd[k..i]);
    }
  }

  lemma CopyFromKeeps(e: Env, s: State, c: wchar)
    requires Inv(e, s)
    ensures Inv(e, OnCopyFrom(s, c))
  {
    var t := s.text;
    SpliceAndCloseKeeps(e, s, t.cursor, IndexFrom(t.buffer, c, t.cursor) - t.cursor, []);
  }

  lemma SetTopKeeps(e: Env, s: State, p: Popup)
    requires Inv(e, s) && s.popups != [] && PopupInv(p, e.hasHistory)
    requires p.CommandNumber? == s.popups[|s.popups| - 1].CommandNumber?
    requires p.CommandList? == s.popups[|s.popups| - 1].CommandList?
    ensures Inv(e, SetTop(s, p))
  {}

  lemma NumberKeeps(e: Env, s: State, digits: wstring, c: wchar)
    requires Inv(e, s) && s.popups != [] && s.popups[|s.popups| - 1] == CommandNumber(digits)
    ensures Inv(e, OnNumber(s, digits, c))
  {
    assert PopupInv(s.popups[|s.popups| - 1], e.hasHistory);
    if c == CR {
      var h := History.AfterRetrieveNth(s.history, NumberOf(digits));
      RetrieveKeeps(s.history, NumberOf(digits));
      RecallKeeps(e, s, h);
      PopupsDoneKeeps(e, Recall(s, h));
    } else if IsDigit(c) {
      if |digits| < MAX_DIGITS { SetTopKeeps(e, s, CommandNumber(digits + [c])); }
    } else if c == BACKSPACE && |digits| > 0 {
      SetTopKeeps(e, s, CommandNumber(digits[..|digits| - 1]));
    }
  }

  lemma RecallAndCloseKeeps(e: Env, s: State, i: int)
    requires Inv(e, s)
    ensures Inv(e, PopupsDone(Recall(s, History.AfterRetrieveNth(s.history, i))))
  {
    RetrieveKeeps(s.history, i);
    RecallKeeps(e, s, History.AfterRetrieveNth(s.history, i));
    PopupsDoneKeeps(e, Recall(s, History.AfterRetrieveNth(s.history, i)));
  }

  lemma ListCharKeeps(e: Env, s: State, p: Popup, c: wchar)
    requires Inv(e, s) && p.CommandList?
    ensures Inv(e, OnListChar(e, s, p, c))
  {
    if c == CR {
      RecallAndCloseKeeps(e, s, p.selected);
      CharKeeps(e, PopupsDone(Recall(s, History.AfterRetrieveNth(s.history, p.selected))), CR);
    }
  }

  lemma SelectKeeps(e: Env, s: State, swap: bool, a: int, b: int, p: Popup, selected: int)
    requires Inv(e, s) && s.popups != [] && p == s.popups[|s.popups| - 1] && p.CommandList?
    ensures Inv(e, Select(Swapped(s, swap, a, b), p, selected))
  {
    assert PopupInv(s.popups[|s.popups| - 1], e.hasHistory);
    History.NextKeeps(s.history, History.OpSwap(a, b));
    SetTopKeeps(e, s, p.(selected := selected));
  }

  lemma ListDeleteKeeps(e: Env, s: State, p: Popup)
    requires Inv(e, s) && p.CommandList?
    ensures Inv(e, OnListDelete(s, p))
  {
    History.NextKeeps(s.history, History.OpRemove(p.selected));
    PopupsDoneKeeps(e, s);
  }

  lemma ShiftKeeps(e: Env, s: State, shift: bool, p: Popup)
    requires Inv(e, s) && s.popups != [] && p == s.popups[|s.popups| - 1] && p.CommandList?
    ensures Inv(e, OnMoveKey(s, p, Up, shift)) && Inv(e, OnMoveKey(s, p, Down, shift))
  {
    SelectKeeps(e, s, shift, p.selected, p.selected - 1, p, p.selected - 1);
    SelectKeeps(e, s, shift, p.selected, p.selected + 1, p, p.selected + 1);
  }

  lemma JumpKeeps(e: Env, s: State, p: Popup, selected: int)
    requires Inv(e, s) && s.popups != [] && p == s.popups[|s.popups| - 1] && p.CommandList?
    ensures Inv(e, Select(s, p, selected))
  {
    SelectKeeps(e, s, false, 0, 0, p, selected);
  }

  lemma MoveKeyKeeps(e: Env, s: State, p: Popup, key: Key, shift: bool)
    requires Inv(e, s) && s.popups != [] && p == s.popups[|s.popups| - 1] && p.CommandList?
    ensures Inv(e, OnMoveKey(s, p, key, shift))
  {
    if key == Up || key == Down {
      ShiftKeeps(e, s, shift, p);
    } else if key == Home {
      JumpKeeps(e, s, p, 0);
    } else if key == End {
      JumpKeeps(e, s, p, MAX_INT);
    } else {
      JumpKeeps(e, s, p, p.selected - p.height);
      JumpKeeps(e, s, p, p.selected + p.height);
    }
  }

  lemma ListKeyKeeps(e: Env, s: State, p: Popup, key: Key, mods: Mods)
    requires Inv(e, s) && s.popups != [] && p == s.popups[|s.popups| - 1] && p.CommandList?
    ensures Inv(e, OnListKey(s, p, key, mods))
  {
    if key == Escape {
      PopupsDoneKeeps(e, s);
    } else if key == F9 {
      ListPushKeeps(e, s);
    } else if key == Delete {
      ListDeleteKeeps(e, s, p);
    } else if key == Left || key == Right {
      RecallAndCloseKeeps(e, s, p.selected);
    } else {
      MoveKeyKeeps(e, s, p, key, mods.shift);
    }
  }

  lemma ListPushKeeps(e: Env, s: State)
    requires Inv(e, s) && s.popups != [] && s.popups[|s.popups| - 1].CommandList?
    ensures Inv(e, Push(s, CommandNumber([])))
  {
    assert PopupInv(s.popups[|s.popups| - 1], e.hasHistory);
    PushKeeps(e, s, CommandNumber([]));
  }

  lemma PopupCharKeeps(e: Env, s: State, p: Popup, c: wchar)
    requires Inv(e, s) && s.popups != [] && p == s.popups[|s.popups| - 1]
    ensures Inv(e, OnPopupChar(e, s, p, c))
  {
    match p
    case CopyToChar => CopyToKeeps(e, s, c);
    case CopyFromChar => CopyFromKeeps(e, s, c);
    case CommandNumber(digits) => NumberKeeps(e, s, digits, c);
    case CommandList(_, _, _) => ListCharKeeps(e, s, p, c);
  }

  lemma PopupKeyKeeps(e: Env, s: State, p: Popup, key: Key, mods: Mods)
    requires Inv(e, s) && s.popups != [] && p == s.popups[|s.popups| - 1]
    ensures Inv(e, OnPopupKey(s, p, key, mods))
  {
    if p.CommandList? {
      ListKeyKeeps(e, s, p, key, mods);
    } else {
      PopupsDoneKeeps(e, s);
    }
  }

  lemma PopupKeeps(e: Env, s: State, input: Input)
    requires Inv(e, s) && s.popups != []
    ensures Inv(e, OnPopup(e, s, input))
  {
    var p := s.popups[|s.popups| - 1];
    match input
    case Char(c, _) => PopupCharKeeps(e, s, p, c);
    case Vkey(key, mods) => PopupKeyKeeps(e, s, p, key, mods);
  }

  lemma StepKeeps(e: Env, s: State, input: Input)
    requires Inv(e, s)
    ensures Inv(e, Step(e, s, input))
  {
    if s.popups != [] {
      PopupKeeps(e, s, input);
    } else if input.Char? {
      CharKeeps(e, s, input.c);
    } else {
      KeyKeeps(e, s, input.key, input.mods);
    }
  }

  // -- Runs -------------------------------------------------------------------------------------------------

  /** What drives a read: an input while it accumulates, or a redisplay. */
  datatype Action = Feed(input: Input) | Show

  function Act(e: Env, s: State, a: Action): State
    requires s.text.cursor <= |s.text.buffer|
  {
    match a
    case Feed(input) => if s.phase == Accumulating then Step(e, s, input) else s
    case Show => Redisplay(e, s)
  }

  /** Once out of accumulating, the outcome and the text are final. */
  ghost predicate Final(s: State, s': State) {
    s.phase != Accumulating ==> s'.phase == s.phase && s'.text.buffer == s.text.buffer
  }

  lemma ActKeeps(e: Env, s: State, a: Action)
    requires Inv(e, s)
    ensures Inv(e, Act(e, s, a)) && Final(s, Act(e, s, a))
  {
    match a
    case Feed(input) => StepKeeps(e, s, input);
    case Show => RedisplayKeeps(e, s);
  }

  /** The states of a run, the first included. */
  ghost predicate IsRun(e: Env, states: seq<State>, actions: seq<Action>) {
    && |states| == |actions| + 1
    && Inv(e, states[0])
    && forall i :: 0 <= i < |actions| ==> RunStep(e, states[i], actions[i], states[i + 1])
  }

  ghost predicate RunStep(e: Env, s: State, a: Action, s': State) {
    s.text.cursor <= |s.text.buffer| && s' == Act(e, s, a)
  }

  ghost predicate Good(e: Env, s: State, s': State) { Inv(e, s) ==> Inv(e, s') && Final(s, s') }

  lemma RunStepIsGood(e: Env, s: State, a: Action, s': State)
    requires RunStep(e, s, a, s')
    ensures Good(e, s, s')
  {
    if Inv(e, s) { ActKeeps(e, s, a); }
  }

  ghost predicate Chain(e: Env, states: seq<State>) {
    states != [] && Inv(e, states[0]) && forall i :: 0 <= i < |states| - 1 ==> Good(e, states[i], states[i + 1])
  }

  lemma RunIsChain(e: Env, states: seq<State>, actions: seq<Action>)
    requires IsRun(e, states, actions)
    ensures Chain(e, states)
  {
    forall i | 0 <= i < |states| - 1 ensures Good(e, states[i], states[i + 1]) {
      RunStepIsGood(e, states[i], actions[i], states[i + 1]);
    }
  }

  lemma {:induction false} ChainKeeps(e: Env, states: seq<State>, i: nat)
    requires Chain(e, states) && i < |states|
    ensures Inv(e, states[i])
  {
    if i == 0 {
    } else {
      ChainKeeps(e, states, i - 1);
      assert Good(e, states[i - 1], states[i]);
    }
  }

  lemma {:induction false} ChainIsFinal(e: Env, states: seq<State>, i: nat, j: nat)
    requires Chain(e, states) && i <= j < |states|
    ensures Final(states[i], states[j])
    decreases j
  {
    if i >= j {
    } else {
      ChainIsFinal(e, states, i, j - 1);
      ChainKeeps(e, states, j - 1);
      assert Good(e, states[j - 1], states[j]);
    }
  }

  /** Every state of every run keeps the invariant. */
  lemma RunKeeps(e: Env, states: seq<State>, actions: seq<Action>, i: nat)
    requires IsRun(e, states, actions) && i <= |actions|
    ensures Inv(e, states[i])
  {
    RunIsChain(e, states, actions);
    ChainKeeps(e, states, i);
  }

  /** A run leaves accumulating at most once: what it left it with stays. */
  lemma RunLeavesOnce(e: Env, states: seq<State>, actions: seq<Action>, i: nat, j: nat)
    requires IsRun(e, states, actions) && i <= j <= |actions|
    ensures Final(states[i], states[j])
  {
    RunIsChain(e, states, actions);
    ChainIsFinal(e, states, i, j);
  }

  // -- A read -----------------------------------------------------------------------------------------------

  /** The state after the first n inputs, of which those behind the end of the read are left alone. */
  ghost function Fed(e: Env, s: State, inputs: seq<Input>, n: nat): (r: State)
    requires Inv(e, s) && n <= |inputs|
    ensures Inv(e, r)
    decreases n
  {
    if n == 0 then s
    else
      var m := Fed(e, s, inputs, n - 1);
      if m.phase != Accumulating then m
      else
        StepKeeps(e, m, inputs[n - 1]);
        Step(e, m, inputs[n - 1])
  }

  /** A redisplay follows the inputs, unless an exception has left the read. */
  ghost function AfterLoop(e: Env, m: State): State {
    if m.phase == Aborted then m else Redisplay(e, m)
  }

  /** Before each of the first n inputs the read is still accumulating. */
  ghost predicate UsedUpTo(e: Env, s: State, inputs: seq<Input>, n: nat)
    requires Inv(e, s)
  {
    n <= |inputs| && forall k :: 0 <= k < n ==> Fed(e, s, inputs, k).phase == Accumulating
  }

  function Feeds(inputs: seq<Input>): (r: seq<Action>)
    ensures |r| == |inputs| && forall i :: 0 <= i < |inputs| ==> r[i] == Feed(inputs[i])
  {
    seq(|inputs|, i requires 0 <= i < |inputs| => Feed(inputs[i]))
  }

  lemma FedStep(e: Env, s: State, inputs: seq<Input>, n: nat)
    requires Inv(e, s) && n < |inputs|
    ensures RunStep(e, Fed(e, s, inputs, n), Feed(inputs[n]), Fed(e, s, inputs, n + 1))
  {}

  ghost predicate FedAt(e: Env, s: State, inputs: seq<Input>, states: seq<State>, n: nat)
    requires Inv(e, s) && |states| == |inputs| + 1
  {
    n <= |inputs| && states[n] == Fed(e, s, inputs, n)
  }

  lemma StateStep(e: Env, s: State, inputs: seq<Input>, states: seq<State>, n: nat)
    requires Inv(e, s) && |states| == |inputs| + 1 && n < |inputs|
    requires FedAt(e, s, inputs, states, n) && FedAt(e, s, inputs, states, n + 1)
    ensures RunStep(e, states[n], Feeds(inputs)[n], states[n + 1])
  {
    FedStep(e, s, inputs, n);
  }

  /** Feeding the inputs is a run, whose states are those after each of them. */
  lemma FedIsRun(e: Env, s: State, inputs: seq<Input>, states: seq<State>)
    requires Inv(e, s) && |states| == |inputs| + 1
    requires forall n: nat {:trigger FedAt(e, s, inputs, states, n)} | n <= |inputs| :: FedAt(e, s, inputs, states, n)
    ensures IsRun(e, states, Feeds(inputs))
  {
    assert FedAt(e, s, inputs, states, 0);
    forall n | 0 <= n < |inputs| ensures RunStep(e, states[n], Feeds(inputs)[n], states[n + 1]) {
      StateStep(e, s, inputs, states, n);
    }
  }

  // -- What the keys are for --------------------------------------------------------------------------------

  /** Typing a character and erasing it gives the text and the cursor back exactly if the character did not join
      the grapheme before it. */
  lemma TypeThenEraseIff(e: Env, s: State, c: wchar)
    requires Inv(e, s) && s.insert && e.processed && !WakesUp(e, c) && !WakesUp(e, BACKSPACE)
    requires c != CR && c != BACKSPACE && c != ERASE_WORD
    ensures var typed := OnChar(e, s, c);
            && typed.text.cursor == s.text.cursor + 1 <= |typed.text.buffer|
            && (OnChar(e, typed, BACKSPACE).text.buffer == s.text.buffer
                <==> GraphemePrev(e, typed.text.buffer, typed.text.cursor) == s.text.cursor)
            && (OnChar(e, typed, BACKSPACE).text.buffer == s.text.buffer
              ==> OnChar(e, typed, BACKSPACE).text.cursor == s.text.cursor)
  {
    var b, k := s.text.buffer, s.text.cursor;
    var typed := b[..k] + [c] + b[k..];
    assert OnChar(e, s, c).text.buffer == typed;
    EraseOne(e, OnChar(e, s, c), b, c);
  }

  lemma EraseOne(e: Env, s: State, b: wstring, c: wchar)
    requires e.processed && !WakesUp(e, BACKSPACE) && 0 < s.text.cursor <= |b| + 1
    requires s.text.buffer == b[..s.text.cursor - 1] + [c] + b[s.text.cursor - 1..]
    ensures var pos := GraphemePrev(e, s.text.buffer, s.text.cursor);
            var t := OnChar(e, s, BACKSPACE).text;
            (t.buffer == b <==> pos == s.text.cursor - 1) && t.cursor == pos
  {
    var k := s.text.cursor;
    var pos := GraphemePrev(e, s.text.buffer, k);
    var t := OnChar(e, s, BACKSPACE).text;
    assert t.buffer == s.text.buffer[..pos] + [] + s.text.buffer[k..];
    if pos == k - 1 {
      assert s.text.buffer[..pos] == b[..pos] && s.text.buffer[k..] == b[k - 1..];
    } else {
      assert |t.buffer| < |b|;
    }
  }

  /** Deleting after going left is erasing backwards exactly if going right would come back. */
  lemma DeleteAfterLeftIff(e: Env, s: State)
    requires s.text.cursor <= |s.text.buffer| && s.text.cursor > 0
    ensures OnDelete(e, OnLeft(e, s, false)).text.buffer == OnErase(e, s, BACKSPACE).text.buffer
       <==> GraphemeNext(e, s.text.buffer, GraphemePrev(e, s.text.buffer, s.text.cursor)) == s.text.cursor
  {
    var b, k := s.text.buffer, s.text.cursor;
    var pos := GraphemePrev(e, b, k);
    var end := GraphemeNext(e, b, pos);
    Removed(s.text, pos, k);
    Removed(OnLeft(e, s, false).text, pos, end);
    assert |b[..pos] + b[end..]| == |b| - (end - pos) && |b[..pos] + b[k..]| == |b| - (k - pos);
  }

  lemma Removed(t: Text, a: nat, b: nat)
    requires a <= b <= |t.buffer|
    ensures Replace(t, a, b - a, []).buffer == t.buffer[..a] + t.buffer[b..]
  {
    if a == b {
      assert t.buffer[..a] + t.buffer[a..] == t.buffer;
    } else {
      assert t.buffer[..a] + [] == t.buffer[..a];
    }
  }

  lemma CtrlHome(s: State)
    requires s.text.cursor <= |s.text.buffer|
    ensures OnHome(s, true).text.buffer == s.text.buffer[s.text.cursor..] && OnHome(s, true).text.cursor == 0
  {
    var b, k := s.text.buffer, s.text.cursor;
    Removed(s.text, 0, k);
    assert b[..0] + b[k..] == b[k..];
  }

  lemma CtrlEnd(s: State)
    requires s.text.cursor <= |s.text.buffer|
    ensures OnEnd(s, true).text.buffer == s.text.buffer[..s.text.cursor] && OnEnd(s, true).text.cursor == s.text.cursor
  {
    var b, k := s.text.buffer, s.text.cursor;
    Removed(s.text, k, |b|);
    assert b[..k] + b[|b|..] == b[..k];
  }

  /** Ctrl+Home keeps what stands from the cursor on, Ctrl+End what stands before it: together the whole text. */
  lemma HomeAndEndPartTheText(s: State)
    requires s.text.cursor <= |s.text.buffer|
    ensures OnHome(s, true).text.cursor == 0 && OnEnd(s, true).text.cursor == |OnEnd(s, true).text.buffer|
    ensures OnEnd(s, true).text.buffer + OnHome(s, true).text.buffer == s.text.buffer
  {
    var b, k := s.text.buffer, s.text.cursor;
    CtrlHome(s);
    CtrlEnd(s);
    assert b[..k] + b[k..] == b;
  }

  /** F2: the last command is copied over the text from the cursor up to the first place of the character in it; if
      it has no such place behind the cursor, the text stays. */
  lemma CopyToOverwrites(s: State, c: wchar)
    requires s.text.cursor <= |s.text.buffer|
    ensures var b, k, cmd := s.text.buffer, s.text.cursor, History.Shown(s.history);
            var r := OnCopyTo(s, c);
            && r.popups == []
            && (k <= |cmd| && c in cmd[k..] ==>
                  && k <= r.text.cursor < |cmd| && cmd[r.text.cursor] == c && c !in cmd[k..r.text.cursor]
                  && r.text.buffer == b[..k] + cmd[k..r.text.cursor] + b[Min(r.text.cursor, |b|)..])
            && (k > |cmd| || c !in cmd[k..] ==> r.text.buffer == b && r.text.cursor == k)
  {
    var b, k, cmd := s.text.buffer, s.text.cursor, History.Shown(s.history);
    if k <= |cmd| {
      FoundIff(cmd, c, k);
      assert b[..k] + [] + b[k..] == b;
    }
  }

  lemma FoundIff(s: wstring, c: wchar, k: nat)
    requires k <= |s|
    ensures IndexFrom(s, c, k) < |s| <==> c in s[k..]
    ensures c !in s[k..IndexFrom(s, c, k)]
  {
    var i := IndexFrom(s, c, k);
    if i < |s| { assert s[k..][i - k] == c; }
    if c in s[k..] {
      var j :| 0 <= j < |s[k..]| && s[k..][j] == c;
      assert s[k + j] == c;
    }
  }

  /** F4: the text from the cursor up to the first place of the character, or to the end, is erased. */
  lemma CopyFromErases(s: State, c: wchar, i: nat)
    requires s.text.cursor <= i <= |s.text.buffer| && (i < |s.text.buffer| ==> s.text.buffer[i] == c)
    requires forall j :: s.text.cursor <= j < i ==> s.text.buffer[j] != c
    ensures OnCopyFrom(s, c).text.buffer == s.text.buffer[..s.text.cursor] + s.text.buffer[i..]
    ensures OnCopyFrom(s, c).text.cursor == s.text.cursor && OnCopyFrom(s, c).popups == []
  {
    assert IndexFrom(s.text.buffer, c, s.text.cursor) == i;
    Removed(s.text, s.text.cursor, i);
  }

  /** F8 recalls a command without changing what stands before the cursor. */
  lemma F8KeepsWhatWasTyped(e: Env, s: State)
    requires Inv(e, s)
    ensures var t, k := OnF8(s).text, s.text.cursor;
            t.cursor == k && k <= |t.buffer| && t.buffer[..k] == s.text.buffer[..k]
  {
    var t, h := s.text, s.history;
    var prefix := t.buffer[..t.cursor];
    var r := History.Find(h, prefix, h.last, false, false);
    if r.0 && prefix != [] {
      var i := History.StartIndex(h, h.last, false);
      History.SearchIsCompleteIff(h.commands, prefix, false, i);
      assert History.IsPrefix(prefix, h.commands[r.1]);
    }
  }

  /** How many graphemes a text has from b on, and where the n-th from c on begins. */
  function Count(e: Env, s: wstring, b: nat): nat
    requires b <= |s|
    decreases |s| - b
  {
    if b == |s| then 0 else 1 + Count(e, s, GraphemeNext(e, s, b))
  }

  function Nth(e: Env, s: wstring, c: nat, n: nat): (r: nat)
    requires c <= |s|
    ensures r <= |s|
    decreases n
  {
    if n == 0 then c else Nth(e, s, GraphemeNext(e, s, c), n - 1)
  }

  lemma {:induction false} NthAtEnd(e: Env, s: wstring, n: nat)
    ensures Nth(e, s, |s|, n) == |s|
  {
    if n == 0 {
    } else {
      NthAtEnd(e, s, n - 1);
    }
  }

  function GraphemeAt(e: Env, s: wstring, i: nat): wstring
    requires i <= |s|
  {
    s[i..GraphemeNext(e, s, i)]
  }

  /** At the end of the line, going right copies the grapheme of the last command that stands where the next one
      would be typed. */
  lemma {:induction false} BeyondIsNthGrapheme(e: Env, buffer: wstring, cmd: wstring, b: nat, c: nat)
    requires b <= |buffer| && c <= |cmd|
    ensures Beyond(e, buffer, cmd, b, c) == GraphemeAt(e, cmd, Nth(e, cmd, c, Count(e, buffer, b)))
    decreases |cmd| - c
  {
    var n := Count(e, buffer, b);
    if c == |cmd| {
      NthAtEnd(e, cmd, n);
    } else if b < |buffer| {
      var b', c' := GraphemeNext(e, buffer, b), GraphemeNext(e, cmd, c);
      BeyondIsNthGrapheme(e, buffer, cmd, b', c');
      assert n == 1 + Count(e, buffer, b') && Nth(e, cmd, c, n) == Nth(e, cmd, c', n - 1);
    }
  }
}
