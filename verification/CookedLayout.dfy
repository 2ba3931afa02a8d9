/** Laying text out on lines of limited width: one line, and the rounds that continue on the next. */
module CookedLayout {
  import opened Basics
  import opened Wide

  const SPACE: wchar := 32
  const TAB: wchar := 9
  const CARET: wchar := 94

  predicate IsControl(c: wchar) { c < 32 }

  // -- Graphemes --------------------------------------------------------------------------------------------

  /** A grapheme: how many units it has and how many columns it takes. */
  datatype Glyph = Glyph(len: nat, width: nat)

  type Glyphs = (wstring, nat) -> Glyph

  /** Any segmentation of text into graphemes: the answer of g within the bounds every segmentation keeps. */
  function GlyphAt(g: Glyphs, s: wstring, i: nat): (q: Glyph)
    requires i < |s|
    ensures 1 <= q.len <= |s| - i && q.width <= 2
  {
    var q := g(s, i);
    Glyph(if q.len < 1 then 1 else if q.len > |s| - i then |s| - i else q.len, if q.width > 2 then 2 else q.width)
  }

  // -- Fitting text into columns ----------------------------------------------------------------------------

  /** How much text fits and how many columns it took, the first grapheme that did not fit included. */
  datatype Fit = Fit(len: nat, cols: nat)

  function FitGlyphs(g: Glyphs, text: wstring, limit: nat, dist: nat, col: nat): (f: Fit)
    requires dist <= |text|
    ensures dist <= f.len <= |text|
    ensures col <= limit && f.len == |text| ==> f.cols <= limit
    decreases |text| - dist
  {
    if dist == |text| then Fit(dist, col)
    else
      var q := GlyphAt(g, text, dist);
      if col + q.width > limit then Fit(dist, col + q.width)
      else FitGlyphs(g, text, limit, dist + q.len, col + q.width)
  }

  function AsciiEnd(text: wstring, stop: nat, k: nat): (r: nat)
    requires k <= stop <= |text|
    ensures k <= r <= stop && (r < stop ==> text[r] >= 0x80)
    ensures forall i :: k <= i < r ==> text[i] < 0x80
    decreases stop - k
  {
    if k < stop && text[k] < 0x80 then AsciiEnd(text, stop, k + 1) else k
  }

  function FitText(g: Glyphs, text: wstring, limit: nat): Fit {
    var stop := Min(|text|, limit);
    var k := AsciiEnd(text, stop, 0);
    if k == stop then Fit(k, k)
    else if k == 0 then FitGlyphs(g, text, limit, 0, 0)
    else FitGlyphs(g, text, limit, k - 1, k - 1)
  }

  /** Text that fits whole takes at most the limit; nothing fits exactly if one column is left for a wide glyph. */
  lemma FitTextBounds(g: Glyphs, text: wstring, limit: nat)
    requires text != [] && limit >= 1
    ensures var f := FitText(g, text, limit);
            && f.len <= |text|
            && (f.len == |text| ==> f.cols <= limit)
            && (f.len == 0 <==> limit == 1 && text[0] >= 0x80 && GlyphAt(g, text, 0).width == 2)
  {}

  // -- One line ---------------------------------------------------------------------------------------------

  /** What one line got: the text for it, where the input goes on and the column reached. Beside that, the length
      of a glyph left out and whether the control character at `offset` is already on this line. */
  datatype Laid = Laid(text: wstring, offset: nat, column: nat, skipped: nat, repeated: bool)

  function Spaces(n: nat): (r: wstring)
    ensures |r| == n
  {
    if n == 0 then [] else Spaces(n - 1) + [SPACE]
  }

  /** A tab as spaces up to the next stop or the end of the line; any other control character as ^X. */
  function Mark(c: wchar, column: nat, limit: nat): (r: wstring)
    requires IsControl(c) && column < limit
    ensures |r| >= 1
  {
    if c == TAB then Spaces(Min(8 - column % 8, limit - column)) else [CARET, c + 64]
  }

  function ControlEnd(s: wstring, i: nat): (r: nat)
    requires i <= |s|
    ensures i <= r <= |s| && (r < |s| ==> IsControl(s[r]))
    ensures forall k :: i <= k < r ==> !IsControl(s[k])
    decreases |s| - i
  {
    if i < |s| && !IsControl(s[i]) then ControlEnd(s, i + 1) else i
  }

  function Glue(text: wstring, r: Laid): Laid { Laid(text + r.text, r.offset, r.column, r.skipped, r.repeated) }

  /** One step: a control character or a run of others, after which the line ends or goes on. */
  datatype Step = Stop(r: Laid) | Go(text: wstring, it: nat, column: nat)

  function ControlStep(c: wchar, it: nat, column: nat, limit: nat): Step
    requires IsControl(c) && column < limit
  {
    var mark := Mark(c, column, limit);
    if column + |mark| > limit then Stop(Laid(Spaces(limit - column), it, limit, 0, false))
    else if column + |mark| == limit then Stop(Laid(mark, it, limit, 0, true))
    else Go(mark, it + 1, column + |mark|)
  }

  function PlainStep(g: Glyphs, text: wstring, it: nat, column: nat, limit: nat): Step
    requires text != [] && column < limit
  {
    FitTextBounds(g, text, limit - column);
    var f := FitText(g, text, limit - column);
    if f.len == 0 then Stop(Laid([], it + GlyphAt(g, text, 0).len, column, GlyphAt(g, text, 0).len, false))
    else if f.len < |text| then Stop(Laid(text[..f.len], it + f.len, limit, 0, false))
    else Go(text, it + |text|, column + f.cols)
  }

  function LineStep(g: Glyphs, s: wstring, it: nat, column: nat, limit: nat): (r: Step)
    requires it < |s| && column < limit
    ensures r.Go? ==> it < r.it <= |s| && column <= r.column <= limit
  {
    if IsControl(s[it]) then ControlStep(s[it], it, column, limit)
    else
      FitTextBounds(g, s[it..ControlEnd(s, it)], limit - column);
      PlainStep(g, s[it..ControlEnd(s, it)], it, column, limit)
  }

  function Line(g: Glyphs, s: wstring, it: nat, column: nat, limit: nat): Laid
    requires it <= |s|
    decreases |s| - it
  {
    if it == |s| || column >= limit then Laid([], it, column, 0, false)
    else
      match LineStep(g, s, it, column, limit)
      case Stop(r) => r
      case Go(text, it', column') => Glue(text, Line(g, s, it', column', limit))
  }

  ghost predicate Bounded(s: wstring, it: nat, column: nat, limit: nat, r: Laid) {
    && it <= r.offset <= |s| && column <= r.column <= limit
    && (r.offset == it ==> it == |s| || r.column == limit)
    && r.skipped <= r.offset - it
    && (r.repeated ==> r.offset < |s| && IsControl(s[r.offset]))
    && (r.skipped > 0 ==> r.column == limit - 1 && s[r.offset - r.skipped] >= 0x80)
  }

  lemma StopIsBounded(g: Glyphs, s: wstring, it: nat, column: nat, limit: nat)
    requires it < |s| && column < limit
    ensures var p := LineStep(g, s, it, column, limit); p.Stop? ==> Bounded(s, it, column, limit, p.r)
  {
    if !IsControl(s[it]) {
      FitTextBounds(g, s[it..ControlEnd(s, it)], limit - column);
    }
  }

  /** Each call consumes input or fills the line and stays within both. A glyph is left out only where a wide one
      meets the last column, and the column is then not advanced. */
  lemma {:induction false} LineBounds(g: Glyphs, s: wstring, it: nat, column: nat, limit: nat)
    requires it <= |s| && column <= limit
    ensures Bounded(s, it, column, limit, Line(g, s, it, column, limit))
    decreases |s| - it
  {
    if it >= |s| || column >= limit {
    } else {
      StopIsBounded(g, s, it, column, limit);
      var p := LineStep(g, s, it, column, limit);
      if p.Go? {
        LineBounds(g, s, p.it, p.column, limit);
      }
    }
  }

  /** A control character that takes up a whole empty line. */
  predicate Blocks(c: wchar, width: nat) { IsControl(c) && width <= if c == TAB then 8 else 2 }

  lemma FreshStep(g: Glyphs, s: wstring, it: nat, width: nat)
    requires it < |s| && width >= 1
    ensures var p := LineStep(g, s, it, 0, width);
            if p.Stop? then p.r.offset > it <==> !Blocks(s[it], width) else !Blocks(s[it], width)
  {
    if !IsControl(s[it]) {
      FitTextBounds(g, s[it..ControlEnd(s, it)], width);
    }
  }

  /** A fresh line consumes input exactly if it does not begin with a control character as wide as the line: such a
      one is put on the line without being consumed. */
  lemma FreshLineConsumesIff(g: Glyphs, s: wstring, it: nat, width: nat)
    requires it < |s| && width >= 1
    ensures Line(g, s, it, 0, width).offset > it <==> !Blocks(s[it], width)
  {
    FreshStep(g, s, it, width);
    var p := LineStep(g, s, it, 0, width);
    if p.Go? {
      LineBounds(g, s, p.it, p.column, width);
    }
  }

  lemma ControlStops(c: wchar, it: nat, column: nat, width: nat)
    requires column < width && Blocks(c, width)
    ensures ControlStep(c, it, column, width).Stop? && ControlStep(c, it, column, width).r.offset == it
  {}

  lemma StepStopsAtBlock(g: Glyphs, s: wstring, it: nat, column: nat, width: nat, b: nat)
    requires it <= b < |s| && column < width && Blocks(s[b], width)
    ensures var p := LineStep(g, s, it, column, width); if p.Stop? then p.r.offset <= b else p.it <= b
  {
    if it == b {
      ControlStops(s[b], it, column, width);
    } else if !IsControl(s[it]) {
      assert ControlEnd(s, it) <= b;
      FitTextBounds(g, s[it..ControlEnd(s, it)], width - column);
    }
  }

  /** No line gets past a control character that blocks. */
  lemma {:induction false} LineStopsAtBlock(g: Glyphs, s: wstring, it: nat, column: nat, width: nat, b: nat)
    requires it <= b < |s| && Blocks(s[b], width)
    ensures Line(g, s, it, column, width).offset <= b
    decreases |s| - it
  {
    if column >= width {
    } else {
      StepStopsAtBlock(g, s, it, column, width, b);
      var p := LineStep(g, s, it, column, width);
      if p.Go? {
        LineStopsAtBlock(g, s, p.it, p.column, width, b);
      }
    }
  }

  // -- What is on the line ----------------------------------------------------------------------------------

  /** The first n units of the text without spaces. */
  function InkTo(t: wstring, n: nat): wstring
    requires n <= |t|
  {
    if n == 0 then [] else InkTo(t, n - 1) + if t[n - 1] == SPACE then [] else [t[n - 1]]
  }

  function Ink(t: wstring): wstring { InkTo(t, |t|) }

  /** What a reader expects to see of a unit, spaces aside. */
  function Seen(c: wchar): wstring {
    if c == SPACE || c == TAB then [] else if IsControl(c) then [CARET, c + 64] else [c]
  }

  /** What is seen of s[a..b]. */
  function SeenIn(s: wstring, a: nat, b: nat): wstring
    requires a <= b <= |s|
    decreases b
  {
    if a == b then [] else SeenIn(s, a, b - 1) + Seen(s[b - 1])
  }

  lemma {:induction false} InkOfPrefix(a: wstring, b: wstring, n: nat)
    requires n <= |a|
    ensures InkTo(a + b, n) == InkTo(a, n)
  {
    if n == 0 {
    } else {
      InkOfPrefix(a, b, n - 1);
    }
  }

  lemma {:induction false} InkTail(a: wstring, b: wstring, n: nat)
    requires n <= |b|
    ensures InkTo(a + b, |a| + n) == InkTo(a, |a|) + InkTo(b, n)
  {
    if n == 0 {
      InkOfPrefix(a, b, |a|);
    } else {
      InkTail(a, b, n - 1);
      assert (a + b)[|a| + n - 1] == b[n - 1];
    }
  }

  lemma InkConcat(a: wstring, b: wstring)
    ensures Ink(a + b) == Ink(a) + Ink(b)
  {
    InkTail(a, b, |b|);
  }

  lemma SeenSnoc(s: wstring, a: nat, b: nat)
    requires a < b <= |s|
    ensures SeenIn(s, a, b) == SeenIn(s, a, b - 1) + Seen(s[b - 1])
  {}

  lemma {:induction false} SeenConcat(s: wstring, a: nat, b: nat, c: nat)
    requires a <= b <= c <= |s|
    ensures SeenIn(s, a, b) + SeenIn(s, b, c) == SeenIn(s, a, c)
    decreases c
  {
    if b == c {
      assert SeenIn(s, a, b) + [] == SeenIn(s, a, b);
    } else {
      calc {
        SeenIn(s, a, b) + SeenIn(s, b, c);
      == { SeenSnoc(s, b, c); }
        SeenIn(s, a, b) + (SeenIn(s, b, c - 1) + Seen(s[c - 1]));
      == { Associative(SeenIn(s, a, b), SeenIn(s, b, c - 1), Seen(s[c - 1])); }
        (SeenIn(s, a, b) + SeenIn(s, b, c - 1)) + Seen(s[c - 1]);
      == { SeenConcat(s, a, b, c - 1); }
        SeenIn(s, a, c - 1) + Seen(s[c - 1]);
      == { SeenSnoc(s, a, c); }
        SeenIn(s, a, c);
      }
    }
  }

  lemma InkSnoc(t: wstring, c: wchar)
    ensures Ink(t + [c]) == Ink(t) + if c == SPACE then [] else [c]
  {
    InkOfPrefix(t, [c], |t|);
  }

  lemma {:induction false} SpacesHaveNoInk(n: nat)
    ensures Ink(Spaces(n)) == []
  {
    if n == 0 {
    } else {
      SpacesHaveNoInk(n - 1);
      InkSnoc(Spaces(n - 1), SPACE);
    }
  }

  lemma SliceSnoc(s: wstring, a: nat, b: nat)
    requires a < b <= |s|
    ensures s[a..b] == s[a..b - 1] + [s[b - 1]]
  {}

  lemma PlainNext(s: wstring, a: nat, b: nat, before: wstring, text: wstring)
    requires a < b <= |s| && !IsControl(s[b - 1]) && Ink(before) == SeenIn(s, a, b - 1) && text == before + [s[b - 1]]
    ensures Ink(text) == SeenIn(s, a, b)
  {
    InkSnoc(before, s[b - 1]);
    SeenSnoc(s, a, b);
  }

  lemma {:induction false} PlainIsSeen(s: wstring, a: nat, b: nat)
    requires a <= b <= |s| && forall i :: a <= i < b ==> !IsControl(s[i])
    ensures Ink(s[a..b]) == SeenIn(s, a, b)
    decreases b
  {
    if a >= b {
    } else {
      PlainIsSeen(s, a, b - 1);
      SliceSnoc(s, a, b);
      PlainNext(s, a, b, s[a..b - 1], s[a..b]);
    }
  }

  lemma InkOfPair(c: wchar)
    requires c != SPACE
    ensures Ink([CARET, c]) == [CARET, c]
  {
    assert [CARET] + [c] == [CARET, c];
    InkSnoc([CARET], c);
    assert InkTo([CARET], 0) == [];
    assert Ink([CARET]) == [CARET];
  }

  lemma MarkIsSeen(c: wchar, column: nat, limit: nat)
    requires IsControl(c) && column < limit
    ensures Ink(Mark(c, column, limit)) == Seen(c)
  {
    if c == TAB {
      SpacesHaveNoInk(Min(8 - column % 8, limit - column));
    } else {
      InkOfPair(c + 64);
    }
  }

  /** What is seen of the input consumed, less the glyph left out, and the control character at the end that was
      put on the line although it was not consumed. */
  ghost function Expected(s: wstring, it: nat, end: nat, repeated: bool): wstring
    requires it <= end <= |s|
  {
    SeenIn(s, it, end) + if repeated && end < |s| then Seen(s[end]) else []
  }

  ghost predicate ShowsPart(s: wstring, it: nat, end: nat, text: wstring, repeated: bool) {
    it <= end <= |s| && Ink(text) == Expected(s, it, end, repeated)
  }

  ghost predicate Shows(s: wstring, it: nat, r: Laid) {
    r.skipped <= r.offset <= |s| && ShowsPart(s, it, r.offset - r.skipped, r.text, r.repeated)
  }

  lemma ExpectedConcat(s: wstring, it: nat, mid: nat, end: nat, repeated: bool)
    requires it <= mid <= end <= |s|
    ensures SeenIn(s, it, mid) + Expected(s, mid, end, repeated) == Expected(s, it, end, repeated)
  {
    var tail := if repeated && end < |s| then Seen(s[end]) else [];
    calc {
      SeenIn(s, it, mid) + Expected(s, mid, end, repeated);
    ==
      SeenIn(s, it, mid) + (SeenIn(s, mid, end) + tail);
    == { Associative(SeenIn(s, it, mid), SeenIn(s, mid, end), tail); }
      (SeenIn(s, it, mid) + SeenIn(s, mid, end)) + tail;
    == { SeenConcat(s, it, mid, end); }
      SeenIn(s, it, end) + tail;
    }
  }

  ghost predicate ShowsAll(s: wstring, it: nat, mid: nat, text: wstring) {
    it <= mid <= |s| && Ink(text) == SeenIn(s, it, mid)
  }

  lemma GlueText(s: wstring, it: nat, mid: nat, end: nat, repeated: bool, x: wstring, y: wstring)
    requires ShowsAll(s, it, mid, x) && ShowsPart(s, mid, end, y, repeated)
    ensures ShowsPart(s, it, end, x + y, repeated)
  {
    ExpectedConcat(s, it, mid, end, repeated);
    InkConcat(x, y);
  }

  lemma GlueShows(s: wstring, it: nat, mid: nat, text: wstring, r: Laid)
    requires ShowsAll(s, it, mid, text) && Shows(s, mid, r)
    ensures Shows(s, it, Glue(text, r))
  {
    GlueText(s, it, mid, r.offset - r.skipped, r.repeated, text, r.text);
  }

  ghost predicate StepShows(s: wstring, it: nat, p: Step) {
    match p
    case Stop(r) => Shows(s, it, r)
    case Go(text, it', _) => ShowsAll(s, it, it', text)
  }

  /** The input up to `end` is shown by a text with the same ink, and nothing else. */
  lemma StopShows(s: wstring, it: nat, end: nat, r: Laid)
    requires it <= end <= |s| && r.offset == end + r.skipped <= |s| && !r.repeated && Ink(r.text) == SeenIn(s, it, end)
    ensures Shows(s, it, r)
  {
    assert SeenIn(s, it, end) + [] == SeenIn(s, it, end);
  }

  lemma RepeatShows(s: wstring, it: nat, mark: wstring, column: nat)
    requires it < |s| && Ink(mark) == Seen(s[it])
    ensures Shows(s, it, Laid(mark, it, column, 0, true))
  {
    assert [] + Seen(s[it]) == Seen(s[it]);
  }

  lemma ControlShows(s: wstring, it: nat, column: nat, limit: nat)
    requires it < |s| && column < limit && IsControl(s[it])
    ensures StepShows(s, it, ControlStep(s[it], it, column, limit))
  {
    var mark := Mark(s[it], column, limit);
    MarkIsSeen(s[it], column, limit);
    if column + |mark| > limit {
      SpacesHaveNoInk(limit - column);
      StopShows(s, it, it, Laid(Spaces(limit - column), it, limit, 0, false));
    } else if column + |mark| == limit {
      RepeatShows(s, it, mark, limit);
    } else {
      assert SeenIn(s, it, it + 1) == [] + Seen(s[it]);
    }
  }

  lemma SliceOfSlice(s: wstring, a: nat, b: nat, n: nat)
    requires a + n <= b <= |s|
    ensures s[a..b][..n] == s[a..a + n]
  {}

  lemma SliceIsSeen(s: wstring, it: nat, end: nat, n: nat)
    requires it + n <= end <= |s| && forall i :: it <= i < end ==> !IsControl(s[i])
    ensures Ink(s[it..end][..n]) == SeenIn(s, it, it + n)
  {
    SliceOfSlice(s, it, end, n);
    PlainIsSeen(s, it, it + n);
  }

  lemma PartShows(s: wstring, it: nat, end: nat, n: nat, column: nat)
    requires it + n <= end <= |s| && forall i :: it <= i < end ==> !IsControl(s[i])
    ensures Shows(s, it, Laid(s[it..end][..n], it + n, column, 0, false))
  {
    SliceIsSeen(s, it, end, n);
    StopShows(s, it, it + n, Laid(s[it..end][..n], it + n, column, 0, false));
  }

  lemma SkipShows(s: wstring, it: nat, n: nat, column: nat)
    requires it + n <= |s|
    ensures Shows(s, it, Laid([], it + n, column, n, false))
  {
    StopShows(s, it, it, Laid([], it + n, column, n, false));
  }

  ghost predicate PlainRun(s: wstring, it: nat, end: nat) {
    it < end <= |s| && forall i :: it <= i < end ==> !IsControl(s[i])
  }

  lemma RunPartShows(s: wstring, it: nat, end: nat, text: wstring, n: nat, column: nat)
    requires PlainRun(s, it, end) && text == s[it..end] && n < |text|
    ensures Shows(s, it, Laid(text[..n], it + n, column, 0, false))
  {
    PartShows(s, it, end, n, column);
  }

  lemma RunShows(s: wstring, it: nat, end: nat, text: wstring)
    requires PlainRun(s, it, end) && text == s[it..end]
    ensures it + |text| == end && ShowsAll(s, it, end, text)
  {
    PlainIsSeen(s, it, end);
  }

  lemma PlainShows(g: Glyphs, s: wstring, it: nat, end: nat, text: wstring, column: nat, limit: nat)
    requires PlainRun(s, it, end) && text == s[it..end] && column < limit
    ensures StepShows(s, it, PlainStep(g, text, it, column, limit))
  {
    FitTextBounds(g, text, limit - column);
    var f := FitText(g, text, limit - column);
    if f.len == 0 {
      SkipShows(s, it, GlyphAt(g, text, 0).len, column);
    } else if f.len < |text| {
      RunPartShows(s, it, end, text, f.len, limit);
    } else {
      RunShows(s, it, end, text);
    }
  }

  lemma {:induction false} LineShows(g: Glyphs, s: wstring, it: nat, column: nat, limit: nat)
    requires it <= |s|
    ensures Shows(s, it, Line(g, s, it, column, limit))
    decreases |s| - it
  {
    if it == |s| || column >= limit {
      StopShows(s, it, it, Laid([], it, column, 0, false));
    } else {
      if IsControl(s[it]) {
        ControlShows(s, it, column, limit);
      } else {
        PlainShows(g, s, it, ControlEnd(s, it), s[it..ControlEnd(s, it)], column, limit);
      }
      var p := LineStep(g, s, it, column, limit);
      if p.Go? {
        LineShows(g, s, p.it, p.column, limit);
        GlueShows(s, it, p.it, p.text, Line(g, s, p.it, p.column, limit));
      }
    }
  }

  ghost predicate Ascii(s: wstring) { forall i :: 0 <= i < |s| ==> s[i] < 0x80 }

  lemma AsciiFits(g: Glyphs, text: wstring, limit: nat)
    requires Ascii(text)
    ensures FitText(g, text, limit) == Fit(Min(|text|, limit), Min(|text|, limit))
  {}

  lemma AsciiStep(g: Glyphs, s: wstring, it: nat, column: nat, limit: nat)
    requires it < |s| && column < limit && Ascii(s)
    ensures match LineStep(g, s, it, column, limit)
            case Stop(r) => r.column == column + |r.text| && r.skipped == 0
            case Go(text, _, column') => column' == column + |text|
  {
    if !IsControl(s[it]) {
      var text := s[it..ControlEnd(s, it)];
      assert Ascii(text);
      AsciiFits(g, text, limit - column);
    }
  }

  /** Of ASCII text no glyph is left out, and each unit on the line takes one column. */
  lemma {:induction false} AsciiTakesItsColumns(g: Glyphs, s: wstring, it: nat, column: nat, limit: nat)
    requires it <= |s| && column <= limit && Ascii(s)
    ensures var r := Line(g, s, it, column, limit); r.column == column + |r.text| && r.skipped == 0
    decreases |s| - it
  {
    if it >= |s| || column >= limit {
    } else {
      AsciiStep(g, s, it, column, limit);
      var p := LineStep(g, s, it, column, limit);
      if p.Go? {
        AsciiTakesItsColumns(g, s, p.it, p.column, limit);
      }
    }
  }

  // -- Rounds -----------------------------------------------------------------------------------------------

  /** Where the next line call starts and how many lines were completed. */
  datatype At = At(beg: nat, column: nat, newlines: nat)

  function Round(g: Glyphs, s: wstring, width: nat, a: At): At
    requires a.beg <= |s|
  {
    var r := Line(g, s, a.beg, a.column, width);
    if r.column >= width then At(r.offset, 0, a.newlines + 1) else At(r.offset, r.column, a.newlines)
  }

  ghost predicate Flows(s: wstring, width: nat) { forall i :: 0 <= i < |s| ==> !Blocks(s[i], width) }

  ghost predicate Ready(s: wstring, width: nat, a: At) { a.beg <= |s| && a.column < width }

  lemma RoundIsReady(g: Glyphs, s: wstring, width: nat, a: At)
    requires Ready(s, width, a)
    ensures Ready(s, width, Round(g, s, width, a))
  {
    LineBounds(g, s, a.beg, a.column, width);
  }

  function Work(s: wstring, a: At): nat
    requires a.beg <= |s|
  {
    2 * (|s| - a.beg) + if a.column > 0 then 1 else 0
  }

  lemma RoundWorks(g: Glyphs, s: wstring, width: nat, a: At)
    requires Ready(s, width, a) && a.beg < |s| && Flows(s, width)
    ensures Ready(s, width, Round(g, s, width, a)) && Work(s, Round(g, s, width, a)) < Work(s, a)
  {
    LineBounds(g, s, a.beg, a.column, width);
    FreshLineConsumesIff(g, s, a.beg, width);
  }

  /** Where the rounds end. */
  function End(g: Glyphs, s: wstring, width: nat, a: At): (r: At)
    requires Ready(s, width, a) && Flows(s, width)
    ensures r.beg == |s| && r.column < width
    decreases Work(s, a)
  {
    if a.beg == |s| then a
    else
      RoundWorks(g, s, width, a);
      End(g, s, width, Round(g, s, width, a))
  }

  function Rounds(g: Glyphs, s: wstring, width: nat, a: At, n: nat): (r: At)
    requires Ready(s, width, a)
    ensures Ready(s, width, r)
    decreases n
  {
    if n == 0 then a
    else
      RoundIsReady(g, s, width, a);
      Rounds(g, s, width, Round(g, s, width, a), n - 1)
  }

  lemma {:induction false} RoundsReachEnd(g: Glyphs, s: wstring, width: nat, a: At) returns (n: nat)
    requires Ready(s, width, a) && Flows(s, width)
    ensures Rounds(g, s, width, a, n) == End(g, s, width, a)
    decreases Work(s, a)
  {
    if a.beg == |s| {
      n := 0;
    } else {
      RoundWorks(g, s, width, a);
      var m := RoundsReachEnd(g, s, width, Round(g, s, width, a));
      n := m + 1;
    }
  }

  /** A control character that blocks lies ahead. */
  ghost predicate Blocked(s: wstring, width: nat, a: At, b: nat) {
    Ready(s, width, a) && a.beg <= b < |s| && Blocks(s[b], width)
  }

  lemma RoundStops(g: Glyphs, s: wstring, width: nat, a: At, b: nat)
    requires Blocked(s, width, a, b)
    ensures Blocked(s, width, Round(g, s, width, a), b)
  {
    RoundIsReady(g, s, width, a);
    LineStopsAtBlock(g, s, a.beg, a.column, width, b);
  }

  lemma {:induction false} RoundsStayBeforeBlock(g: Glyphs, s: wstring, width: nat, a: At, b: nat, n: nat)
    requires Blocked(s, width, a, b)
    ensures Blocked(s, width, Rounds(g, s, width, a, n), b)
    decreases n
  {
    if n == 0 {
    } else {
      RoundStops(g, s, width, a, b);
      RoundsStayBeforeBlock(g, s, width, Round(g, s, width, a), b, n - 1);
    }
  }

  /** The layout loop ends exactly if no control character is as wide as the lines: it always does when they have
      more than eight columns. */
  lemma LayoutTerminatesIff(g: Glyphs, s: wstring, width: nat, column: nat)
    requires column < width
    ensures (exists n: nat :: Rounds(g, s, width, At(0, column, 0), n).beg == |s|) <==> Flows(s, width)
    ensures width > 8 ==> Flows(s, width)
  {
    var a := At(0, column, 0);
    if Flows(s, width) {
      var n := RoundsReachEnd(g, s, width, a);
      assert Rounds(g, s, width, a, n).beg == |s|;
    } else {
      var b :| 0 <= b < |s| && Blocks(s[b], width);
      forall n: nat ensures Rounds(g, s, width, a, n).beg != |s| {
        RoundsStayBeforeBlock(g, s, width, a, b, n);
      }
    }
  }

  // -- Consequences -----------------------------------------------------------------------------------------

  /** A tab on lines of eight columns: every round fills a line and none consumes it. */
  lemma TabNeverEndsInEightColumns(g: Glyphs, n: nat)
    ensures Rounds(g, [TAB], 8, At(0, 0, 0), n).beg == 0
  {
    RoundsStayBeforeBlock(g, [TAB], 8, At(0, 0, 0), 0, n);
  }

  /** Ctrl+A in the last two columns is shown there and again on the next line. */
  lemma ControlIsLaidOutTwice(g: Glyphs, width: nat)
    requires width > 2
    ensures Line(g, [1], 0, width - 2, width) == Laid([CARET, 65], 0, width, 0, true)
    ensures Line(g, [1], 0, 0, width) == Laid([CARET, 65], 1, 2, 0, false)
  {
    assert [CARET, 65] + [] == [CARET, 65];
    assert LineStep(g, [1], 0, 0, width) == Go([CARET, 65], 1, 2);
  }

  /** A wide glyph that begins a run in the last column is not shown at all, however many columns there are. */
  lemma WideGlyphIsLost(g: Glyphs, c: wchar, width: nat)
    requires width >= 1 && c >= 0x80 && GlyphAt(g, [c], 0).width == 2
    ensures Line(g, [c], 0, width - 1, width) == Laid([], 1, width - 1, 1, false)
  {
    assert ControlEnd([c], 0) == 1 && [c][0..1] == [c];
    FitTextBounds(g, [c], 1);
  }

  // -- The code ---------------------------------------------------------------------------------------------

  method FitTextIntoColumns(g: Glyphs, chars: wstring, columnLimit: int) returns (dist: nat, columns: nat)
    ensures Fit(dist, columns) == FitText(g, chars, if columnLimit < 0 then 0 else columnLimit)
  {
    var limit: nat := if columnLimit < 0 then 0 else columnLimit;
    var asciiEnd := Min(|chars|, limit);
    var it: nat := 0;
    while it != asciiEnd && chars[it] < 0x80
      invariant it <= asciiEnd && AsciiEnd(chars, asciiEnd, it) == AsciiEnd(chars, asciiEnd, 0)
    {
      it := it + 1;
    }
    if it == asciiEnd {
      return it, it;
    }
    dist, columns := FitFrom(g, chars, limit, if it != 0 then it - 1 else 0);
  }

  method FitFrom(g: Glyphs, chars: wstring, limit: nat, from: nat) returns (dist: nat, columns: nat)
    requires from <= |chars|
    ensures Fit(dist, columns) == FitGlyphs(g, chars, limit, from, from)
  {
    dist, columns := from, from;
    while dist < |chars|
      invariant dist <= |chars| && FitGlyphs(g, chars, limit, dist, columns) == FitGlyphs(g, chars, limit, from, from)
    {
      var q := GlyphAt(g, chars, dist);
      columns := columns + q.width;
      if columns > limit {
        return;
      }
      dist := dist + q.len;
    }
  }

  /** The line so far and what is still to come make up the whole. */
  ghost predicate Pending(g: Glyphs, s: wstring, limit: nat, whole: Laid, output: wstring, it: nat, column: nat) {
    it <= |s| && column <= limit && whole == Glue(output, Line(g, s, it, column, limit))
  }

  lemma PendingStep(g: Glyphs, s: wstring, limit: nat, whole: Laid, output: wstring, it: nat, column: nat)
    requires Pending(g, s, limit, whole, output, it, column) && it < |s| && column < limit
    ensures var p := LineStep(g, s, it, column, limit);
            if p.Stop? then whole == Glue(output, p.r) else Pending(g, s, limit, whole, output + p.text, p.it, p.column)
  {
    var p := LineStep(g, s, it, column, limit);
    if p.Go? {
      var rest := Line(g, s, p.it, p.column, limit).text;
      assert output + (p.text + rest) == output + p.text + rest;
    }
  }

  ghost predicate Finished(whole: Laid, output: wstring, it: nat, column: nat) {
    whole.text == output && whole.offset == it && whole.column == column
  }

  lemma PendingEnds(g: Glyphs, s: wstring, limit: nat, whole: Laid, output: wstring, it: nat, column: nat)
    requires Pending(g, s, limit, whole, output, it, column) && (it == |s| || column == limit)
    ensures Finished(whole, output, it, column)
  {
    assert output + [] == output;
  }

  method FillSpaces(n: nat) returns (r: wstring)
    ensures r == Spaces(n)
  {
    r := [];
    for i := 0 to n
      invariant r == Spaces(i)
    {
      r := r + [SPACE];
    }
  }

  method MarkOf(wch: wchar, column: nat, limit: nat) returns (buf: wstring)
    requires IsControl(wch) && column < limit
    ensures buf == Mark(wch, column, limit)
  {
    if wch == TAB {
      var remaining := limit - column;
      buf := FillSpaces(Min(8 - column % 8, remaining));
    } else {
      buf := [CARET, wch + 64];
    }
  }

  /** What one control character puts on the line, and whether the line goes on after it. */
  method FitControl(wch: wchar, it0: nat, column0: nat, limit: nat)
    returns (part: wstring, it: nat, column: nat, more: bool)
    requires IsControl(wch) && column0 < limit
    ensures match ControlStep(wch, it0, column0, limit)
            case Stop(r) => !more && Finished(r, part, it, column)
            case Go(t, i, c) => more && part == t && it == i && column == c && c < limit
  {
    var buf := MarkOf(wch, column0, limit);
    if column0 + |buf| > limit {
      var pad := FillSpaces(limit - column0);
      return pad, it0, limit, false;
    }
    if column0 + |buf| >= limit {
      return buf, it0, column0 + |buf|, false;
    }
    return buf, it0 + 1, column0 + |buf|, true;
  }

  /** Control characters up to the next plain one; `full` if the line ended before that. */
  method LayoutControls(g: Glyphs, s: wstring, limit: nat, ghost whole: Laid, output0: wstring, it0: nat, column0: nat,
                        end: nat)
    returns (output: wstring, it: nat, column: nat, full: bool)
    requires it0 <= end <= |s| && column0 < limit && (forall i :: it0 <= i < end ==> IsControl(s[i]))
    requires Pending(g, s, limit, whole, output0, it0, column0)
    ensures if full then Finished(whole, output, it, column)
            else it == end && Pending(g, s, limit, whole, output, it, column)
    ensures !full ==> column < limit
  {
    output, it, column, full := output0, it0, column0, false;
    while it != end
      invariant it0 <= it <= end && column < limit && Pending(g, s, limit, whole, output, it, column)
    {
      PendingStep(g, s, limit, whole, output, it, column);
      var part, more;
      part, it, column, more := FitControl(s[it], it, column, limit);
      output := output + part;
      if !more {
        full := true;
        return;
      }
    }
  }

  method NextControl(s: wstring, it: nat) returns (end: nat)
    requires it <= |s|
    ensures end == ControlEnd(s, it)
  {
    end := it;
    while end != |s| && !IsControl(s[end])
      invariant it <= end <= |s| && ControlEnd(s, end) == ControlEnd(s, it)
    {
      end := end + 1;
    }
  }

  method NextPlain(s: wstring, it: nat) returns (end: nat)
    requires it <= |s|
    ensures it <= end <= |s| && (forall i :: it <= i < end ==> IsControl(s[i])) && (end < |s| ==> !IsControl(s[end]))
  {
    end := it;
    while end != |s| && IsControl(s[end])
      invariant it <= end <= |s| && forall i :: it <= i < end ==> IsControl(s[i])
    {
      end := end + 1;
    }
  }

  /** As much of a run of plain text as the line takes, and whether that is all of it. */
  method FitRun(g: Glyphs, text: wstring, it0: nat, column0: nat, limit: nat)
    returns (part: wstring, it: nat, column: nat, all: bool)
    requires text != [] && column0 < limit
    ensures match PlainStep(g, text, it0, column0, limit)
            case Stop(r) => !all && Finished(r, part, it, column)
            case Go(t, i, c) => all && part == t && it == i && column == c
  {
    FitTextBounds(g, text, limit - column0);
    var len, cols := FitTextIntoColumns(g, text, limit - column0);
    if len == 0 {
      return [], it0 + GlyphAt(g, text, 0).len, column0, false;
    }
    if len < |text| {
      return text[..len], it0 + len, limit, false;
    }
    assert text[..len] == text;
    return text[..len], it0 + len, column0 + cols, true;
  }

  /** A run of plain text; `full` if the line ended with it. */
  method LayoutPlain(g: Glyphs, s: wstring, limit: nat, ghost whole: Laid, output0: wstring, it0: nat, column0: nat,
                     end: nat)
    returns (output: wstring, it: nat, column: nat, full: bool)
    requires it0 < |s| && !IsControl(s[it0]) && end == ControlEnd(s, it0) && column0 < limit
    requires Pending(g, s, limit, whole, output0, it0, column0)
    ensures if full then Finished(whole, output, it, column)
            else it == end && Pending(g, s, limit, whole, output, it, column)
    ensures !full ==> column < limit
  {
    PendingStep(g, s, limit, whole, output0, it0, column0);
    var part, all;
    part, it, column, all := FitRun(g, s[it0..end], it0, column0, limit);
    output := output0 + part;
    full := !all || column >= limit;
    if all && full {
      PendingEnds(g, s, limit, whole, output, it, column);
    }
  }

  method LayoutLine(g: Glyphs, output0: wstring, input: wstring, inputOffset: nat, columnBegin: nat, columnLimit: nat)
    returns (output: wstring, offset: nat, column: nat)
    ensures var r := Line(g, input, Min(inputOffset, |input|), Min(columnBegin, columnLimit), columnLimit);
            output == output0 + r.text && offset == r.offset && column == r.column
  {
    output, offset, column := output0, Min(inputOffset, |input|), Min(columnBegin, columnLimit);
    ghost var whole := Glue(output0, Line(g, input, offset, column, columnLimit));
    var full := false;
    while offset != |input| && column < columnLimit
      invariant Pending(g, input, columnLimit, whole, output, offset, column)
      decreases |input| - offset
    {
      ghost var before := offset;
      var nextControl := NextControl(input, offset);
      if offset != nextControl {
        output, offset, column, full := LayoutPlain(g, input, columnLimit, whole, output, offset, column, nextControl);
        if full {
          return;
        }
      }
      var nextPlain := NextPlain(input, offset);
      output, offset, column, full := LayoutControls(g, input, columnLimit, whole, output, offset, column, nextPlain);
      if full {
        return;
      }
      assert offset > before;
    }
    PendingEnds(g, input, columnLimit, whole, output, offset, column);
  }
}
