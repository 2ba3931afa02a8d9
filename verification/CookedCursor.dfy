/** Where the cursor is drawn: the layout against a walk over the text, unit by unit. */
module CookedCursor {
  import opened Basics
  import opened Wide
  import opened CookedLayout
  import opened CookedPager

  // -- The walk ---------------------------------------------------------------------------------------------

  /** The columns each unit takes. A unit that joins the one before it takes none. */
  type Widths = wchar -> nat

  /** The place behind a full row is the start of the next. */
  function Wrapped(p: Point, width: nat): Point { if p.x >= width then Point(0, p.y + 1) else p }

  /** Where one unit, put at p, ends. What has no room in the row is put into the next. */
  function Put(w: Widths, c: wchar, at: Point, width: nat): Point {
    var p := Wrapped(at, width);
    if !IsControl(c) then
      if p.x + w(c) > width then Point(w(c), p.y + 1) else Point(p.x + w(c), p.y)
    else if c == TAB then Point(p.x + 8 - p.x % 8, p.y)
    else if p.x == width - 1 then Point(2, p.y + 1)
    else Point(p.x + 2, p.y)
  }

  /** Where s[i..] ends when put at p. */
  function EndAt(w: Widths, s: wstring, i: nat, p: Point, width: nat): Point
    requires i <= |s|
    decreases |s| - i
  {
    if i == |s| then Wrapped(p, width) else EndAt(w, s, i + 1, Put(w, s[i], p, width), width)
  }

  lemma EndFromWrapped(w: Widths, s: wstring, i: nat, p: Point, width: nat)
    requires i <= |s| && width > 0
    ensures EndAt(w, s, i, p, width) == EndAt(w, s, i, Wrapped(p, width), width)
  {}

  lemma {:induction false} EndConcat(w: Widths, s: wstring, t: wstring, i: nat, p: Point, width: nat)
    requires i <= |s| && width > 0
    ensures EndAt(w, s + t, i, p, width) == EndAt(w, t, 0, EndAt(w, s, i, p, width), width)
    decreases |s| - i
  {
    if i == |s| {
      EndFromWrapped(w, t, 0, p, width);
      EndOfTail(w, s, t, 0, p, width);
    } else {
      EndConcat(w, s, t, i + 1, Put(w, s[i], p, width), width);
    }
  }

  lemma {:induction false} EndOfTail(w: Widths, s: wstring, t: wstring, i: nat, p: Point, width: nat)
    requires i <= |t|
    ensures EndAt(w, s + t, |s| + i, p, width) == EndAt(w, t, i, p, width)
    decreases |t| - i
  {
    if i == |t| {
    } else {
      EndOfTail(w, s, t, i + 1, Put(w, t[i], p, width), width);
    }
  }

  // -- What fits --------------------------------------------------------------------------------------------

  /** The widths go with the segmentation: a grapheme is as wide as its first unit, and its other units take none. */
  ghost predicate Tabled(g: Glyphs, w: Widths) {
    forall s: wstring, i: nat {:trigger TabledAt(w, s, i, GlyphAt(g, s, i))} | i < |s| && !IsControl(s[i]) ::
      TabledAt(w, s, i, GlyphAt(g, s, i))
  }

  ghost predicate TabledAt(w: Widths, s: wstring, i: nat, q: Glyph) {
    i + q.len <= |s| && i < |s| && q.width == w(s[i]) && forall j :: i < j < i + q.len ==> w(s[j]) == 0
  }

  /** Every table of widths up to two is that of a segmentation, the one into single units. */
  lemma UnitsAreTabled(w: Widths)
    requires forall c: wchar :: w(c) <= 2
    ensures Tabled((s: wstring, i: nat) => Glyph(1, if i < |s| then w(s[i]) else 0), w)
  {}

  /** ASCII takes a column each; for other text the widths are those of the graphemes, and no line is too narrow. */
  ghost predicate Measured(g: Glyphs, w: Widths, s: wstring, width: nat) {
    && (forall c: wchar :: w(c) <= 2 && (32 <= c < 0x80 ==> w(c) == 1))
    && (Ascii(s) || (Tabled(g, w) && width >= 2))
  }

  /** The columns of s[a..b]. */
  function Columns(w: Widths, s: wstring, a: nat, b: nat): nat
    requires a <= b <= |s|
    decreases b - a
  {
    if a == b then 0 else w(s[a]) + Columns(w, s, a + 1, b)
  }

  lemma {:induction false} ColumnsSplit(w: Widths, s: wstring, a: nat, b: nat, c: nat)
    requires a <= b <= c <= |s|
    ensures Columns(w, s, a, c) == Columns(w, s, a, b) + Columns(w, s, b, c)
    decreases b - a
  {
    if a == b {
    } else {
      ColumnsSplit(w, s, a + 1, b, c);
    }
  }

  lemma {:induction false} NoColumns(w: Widths, s: wstring, a: nat, b: nat)
    requires a <= b <= |s| && forall j :: a <= j < b ==> w(s[j]) == 0
    ensures Columns(w, s, a, b) == 0
    decreases b - a
  {
    if a == b {
    } else {
      NoColumns(w, s, a + 1, b);
    }
  }

  lemma {:induction false} AsciiColumns(w: Widths, s: wstring, a: nat, b: nat)
    requires a <= b <= |s| && (forall j :: a <= j < b ==> w(s[j]) == 1)
    ensures Columns(w, s, a, b) == b - a
    decreases b - a
  {
    if a == b {
    } else {
      AsciiColumns(w, s, a + 1, b);
    }
  }

  lemma GlyphColumns(w: Widths, s: wstring, i: nat, q: Glyph)
    requires TabledAt(w, s, i, q) && q.len >= 1
    ensures Columns(w, s, i, i + q.len) == q.width
  {
    NoColumns(w, s, i + 1, i + q.len);
  }

  /** The part of the text that fits: it takes no more than the limit, and either that or the next unit more. */
  ghost predicate Fits(w: Widths, text: wstring, limit: nat, from: nat, col: nat, f: Fit) {
    && from <= f.len <= |text|
    && col + Columns(w, text, from, f.len) <= limit
    && (f.len == |text| ==> f.cols == col + Columns(w, text, from, f.len))
    && (f.len < |text| ==> var c := col + Columns(w, text, from, f.len); c == limit || c + w(text[f.len]) > limit)
  }

  ghost predicate PlainText(text: wstring) { forall i :: 0 <= i < |text| ==> !IsControl(text[i]) }

  lemma FitsFurther(w: Widths, text: wstring, limit: nat, from: nat, col: nat, q: Glyph, f: Fit)
    requires TabledAt(w, text, from, q) && q.len >= 1
    requires Fits(w, text, limit, from + q.len, col + q.width, f)
    ensures Fits(w, text, limit, from, col, f)
  {
    GlyphColumns(w, text, from, q);
    ColumnsSplit(w, text, from, from + q.len, f.len);
  }

  lemma {:induction false} GlyphsFit(g: Glyphs, w: Widths, text: wstring, limit: nat, from: nat, col: nat)
    requires Tabled(g, w) && PlainText(text) && from <= |text| && col <= limit
    ensures Fits(w, text, limit, from, col, FitGlyphs(g, text, limit, from, col))
    decreases |text| - from
  {
    if from == |text| {
    } else {
      var q := GlyphAt(g, text, from);
      assert TabledAt(w, text, from, q);
      if col + q.width <= limit {
        GlyphsFit(g, w, text, limit, from + q.len, col + q.width);
        FitsFurther(w, text, limit, from, col, q, FitGlyphs(g, text, limit, from, col));
      }
    }
  }

  lemma FitsFromStart(w: Widths, text: wstring, limit: nat, from: nat, f: Fit)
    requires from <= |text| && Columns(w, text, 0, from) == from && Fits(w, text, limit, from, from, f)
    ensures Fits(w, text, limit, 0, 0, f)
  {
    ColumnsSplit(w, text, 0, from, f.len);
  }

  lemma TextFits(g: Glyphs, w: Widths, text: wstring, limit: nat, width: nat)
    requires Measured(g, w, text, width) && PlainText(text)
    ensures Fits(w, text, limit, 0, 0, FitText(g, text, limit))
  {
    var stop := Min(|text|, limit);
    var k := AsciiEnd(text, stop, 0);
    AsciiColumns(w, text, 0, k);
    if k < stop {
      var from := if k == 0 then 0 else k - 1;
      AsciiColumns(w, text, 0, from);
      GlyphsFit(g, w, text, limit, from, from);
      FitsFromStart(w, text, limit, from, FitText(g, text, limit));
    }
  }

  // -- One line ---------------------------------------------------------------------------------------------

  /** Going on at j from q ends where going on at i from p does. */
  ghost predicate SameEnd(w: Widths, s: wstring, i: nat, p: Point, j: nat, q: Point, width: nat) {
    i <= |s| && j <= |s| && EndAt(w, s, i, p, width) == EndAt(w, s, j, q, width)
  }

  lemma OverUnit(w: Widths, s: wstring, i: nat, x: nat, y: nat, width: nat)
    requires i < |s| && !IsControl(s[i]) && width > 0 && x + w(s[i]) <= width
    ensures SameEnd(w, s, i, Point(x, y), i + 1, Point(x + w(s[i]), y), width)
  {
    EndFromWrapped(w, s, i + 1, Point(x + w(s[i]), y), width);
  }

  lemma {:induction false} OverPlain(w: Widths, s: wstring, i: nat, j: nat, x: nat, y: nat, width: nat)
    requires i <= j <= |s| && PlainRun(s, i, j) && width > 0 && x + Columns(w, s, i, j) <= width
    ensures SameEnd(w, s, i, Point(x, y), j, Point(x + Columns(w, s, i, j), y), width)
    decreases j - i
  {
    OverUnit(w, s, i, x, y, width);
    if i + 1 < j {
      OverPlain(w, s, i + 1, j, x + w(s[i]), y, width);
    }
  }

  /** A unit for which there is no room is put where it would be from the end of the row. */
  lemma Padded(w: Widths, s: wstring, i: nat, x: nat, y: nat, width: nat)
    requires i < |s| && !IsControl(s[i]) && x <= width && (x == width || x + w(s[i]) > width) && w(s[i]) <= width
    ensures SameEnd(w, s, i, Point(x, y), i, Point(width, y), width)
  {}

  ghost predicate StepEnds(w: Widths, s: wstring, it: nat, x: nat, y: nat, width: nat, p: Step) {
    if p.Go? then SameEnd(w, s, it, Point(x, y), p.it, Point(p.column, y), width)
    else LineEnds(w, s, it, x, y, width, p.r)
  }

  ghost predicate LineEnds(w: Widths, s: wstring, it: nat, x: nat, y: nat, width: nat, l: Laid) {
    !l.repeated && l.skipped == 0 ==> SameEnd(w, s, it, Point(x, y), l.offset, Point(l.column, y), width)
  }

  lemma ControlEnds(w: Widths, s: wstring, it: nat, x: nat, y: nat, width: nat)
    requires it < |s| && x < width && IsControl(s[it]) && !Blocks(s[it], width)
    ensures StepEnds(w, s, it, x, y, width, ControlStep(s[it], it, x, width))
  {}

  lemma {:induction false} ColumnsOfSlice(w: Widths, s: wstring, it: nat, end: nat, a: nat, b: nat)
    requires it <= end <= |s| && a <= b <= end - it
    ensures Columns(w, s[it..end], a, b) == Columns(w, s, it + a, it + b)
    decreases b - a
  {
    if a == b {
    } else {
      ColumnsOfSlice(w, s, it, end, a + 1, b);
    }
  }

  lemma RunEnds(w: Widths, s: wstring, it: nat, end: nat, x: nat, y: nat, width: nat, f: Fit)
    requires PlainRun(s, it, end) && x < width && f.len == end - it && Fits(w, s[it..end], width - x, 0, 0, f)
    ensures SameEnd(w, s, it, Point(x, y), end, Point(x + f.cols, y), width)
  {
    ColumnsOfSlice(w, s, it, end, 0, f.len);
    OverPlain(w, s, it, end, x, y, width);
  }

  lemma PartEnds(w: Widths, s: wstring, it: nat, end: nat, x: nat, y: nat, width: nat, f: Fit)
    requires PlainRun(s, it, end) && x < width && 0 < f.len < end - it && Fits(w, s[it..end], width - x, 0, 0, f)
    requires w(s[it + f.len]) <= width
    ensures SameEnd(w, s, it, Point(x, y), it + f.len, Point(width, y), width)
  {
    var mid := it + f.len;
    ColumnsOfSlice(w, s, it, end, 0, f.len);
    assert s[it..end][f.len] == s[mid];
    OverPlain(w, s, it, mid, x, y, width);
    Padded(w, s, mid, x + Columns(w, s, it, mid), y, width);
  }

  lemma MeasuredSlice(g: Glyphs, w: Widths, s: wstring, a: nat, b: nat, width: nat)
    requires a <= b <= |s| && Measured(g, w, s, width)
    ensures Measured(g, w, s[a..b], width)
  {}

  lemma WidthFits(g: Glyphs, w: Widths, s: wstring, i: nat, width: nat)
    requires i < |s| && !IsControl(s[i]) && width > 0 && Measured(g, w, s, width)
    ensures w(s[i]) <= width
  {}

  lemma RunFits(g: Glyphs, w: Widths, s: wstring, it: nat, end: nat, limit: nat, width: nat)
    requires PlainRun(s, it, end) && Measured(g, w, s, width)
    ensures Fits(w, s[it..end], limit, 0, 0, FitText(g, s[it..end], limit))
  {
    MeasuredSlice(g, w, s, it, end, width);
    TextFits(g, w, s[it..end], limit, width);
  }

  ghost predicate FitEnds(w: Widths, s: wstring, it: nat, end: nat, x: nat, y: nat, width: nat, f: Fit) {
    if f.len == end - it then SameEnd(w, s, it, Point(x, y), end, Point(x + f.cols, y), width)
    else f.len > 0 ==> SameEnd(w, s, it, Point(x, y), it + f.len, Point(width, y), width)
  }

  lemma FittingEnds(g: Glyphs, w: Widths, s: wstring, it: nat, end: nat, x: nat, y: nat, width: nat, f: Fit)
    requires PlainRun(s, it, end) && x < width && Measured(g, w, s, width) && Fits(w, s[it..end], width - x, 0, 0, f)
    ensures FitEnds(w, s, it, end, x, y, width, f)
  {
    if f.len == end - it {
      RunEnds(w, s, it, end, x, y, width, f);
    } else if f.len > 0 {
      WidthFits(g, w, s, it + f.len, width);
      PartEnds(w, s, it, end, x, y, width, f);
    }
  }

  lemma RunFitEnds(g: Glyphs, w: Widths, s: wstring, it: nat, end: nat, x: nat, y: nat, width: nat)
    requires PlainRun(s, it, end) && x < width && Measured(g, w, s, width)
    ensures FitEnds(w, s, it, end, x, y, width, FitText(g, s[it..end], width - x))
  {
    RunFits(g, w, s, it, end, width - x, width);
    FittingEnds(g, w, s, it, end, x, y, width, FitText(g, s[it..end], width - x));
  }

  lemma PlainEnds(g: Glyphs, w: Widths, s: wstring, it: nat, end: nat, text: wstring, x: nat, y: nat, width: nat)
    requires PlainRun(s, it, end) && text == s[it..end] && x < width && Measured(g, w, s, width)
    ensures StepEnds(w, s, it, x, y, width, PlainStep(g, text, it, x, width))
  {
    RunFitEnds(g, w, s, it, end, x, y, width);
    PlainStepEnds(g, w, s, it, end, text, x, y, width);
  }

  lemma PlainStepEnds(g: Glyphs, w: Widths, s: wstring, it: nat, end: nat, text: wstring, x: nat, y: nat, width: nat)
    requires text != [] && |text| == end - it && x < width
    requires FitEnds(w, s, it, end, x, y, width, FitText(g, text, width - x))
    ensures StepEnds(w, s, it, x, y, width, PlainStep(g, text, it, x, width))
  {
    FitTextBounds(g, text, width - x);
  }

  /** A line that leaves nothing out and repeats nothing does not change where the text ends. */
  lemma {:induction false} LineKeepsEnd(g: Glyphs, w: Widths, s: wstring, it: nat, x: nat, y: nat, width: nat)
    requires it <= |s| && x <= width && width > 0 && Measured(g, w, s, width) && Flows(s, width)
    ensures LineEnds(w, s, it, x, y, width, Line(g, s, it, x, width))
    decreases |s| - it
  {
    if it == |s| || x == width {
    } else {
      if IsControl(s[it]) {
        ControlEnds(w, s, it, x, y, width);
      } else {
        PlainEnds(g, w, s, it, ControlEnd(s, it), s[it..ControlEnd(s, it)], x, y, width);
      }
      var p := LineStep(g, s, it, x, width);
      if p.Go? {
        LineKeepsEnd(g, w, s, p.it, p.column, y, width);
      }
    }
  }

  // -- All rows ---------------------------------------------------------------------------------------------

  /** Rows of at most the width behind which measured text is laid out. */
  ghost predicate Laying(g: Glyphs, w: Widths, s: wstring, beg: nat, rows: seq<Row>, width: nat) {
    && rows != [] && Last(rows).columns <= width && width > 0
    && beg <= |s| && Measured(g, w, s, width) && Flows(s, width)
  }

  ghost predicate EndsThere(w: Widths, s: wstring, beg: nat, from: Point, rows: seq<Row>, width: nat) {
    && rows != [] && beg <= |s| && Last(rows).columns <= width
    && Wrapped(EndOf(rows), width) == EndAt(w, s, beg, from, width)
  }

  lemma OpenedEnd(rows: seq<Row>, width: nat)
    requires rows != [] && width > 0
    ensures EndOf(Opened(rows, width)) == Wrapped(EndOf(rows), width)
  {}

  lemma RowKeepsEnd(g: Glyphs, w: Widths, s: wstring, beg: nat, rows: seq<Row>, width: nat, l: Laid)
    requires Laying(g, w, s, beg, rows, width) && beg < |s|
    requires l == NextLaid(g, s, beg, rows, width) && !l.repeated && l.skipped == 0
    ensures var next := Extended(Opened(rows, width), l);
            && Laying(g, w, s, l.offset, next, width)
            && EndAt(w, s, beg, EndOf(rows), width) == EndAt(w, s, l.offset, EndOf(next), width)
  {
    var p := EndOf(Opened(rows, width));
    LineBounds(g, s, beg, p.x, width);
    LineKeepsEnd(g, w, s, beg, p.x, p.y, width);
    EndFromWrapped(w, s, beg, EndOf(rows), width);
    OpenedEnd(rows, width);
  }

  /** A faithful layout ends where the walk over the text ends. */
  lemma {:induction false} FaithfulEnds(g: Glyphs, w: Widths, s: wstring, beg: nat, rows: seq<Row>, width: nat)
    requires Laying(g, w, s, beg, rows, width) && Faithful(g, s, beg, rows, width)
    ensures EndsThere(w, s, beg, EndOf(rows), LayOut(g, s, beg, rows, width), width)
    decreases Left(s, beg, rows, width)
  {
    if beg == |s| {
    } else {
      LeftShrinks(g, s, beg, rows, width);
      var l := NextLaid(g, s, beg, rows, width);
      RowKeepsEnd(g, w, s, beg, rows, width, l);
      FaithfulEnds(g, w, s, l.offset, Extended(Opened(rows, width), l), width);
    }
  }

  // -- The cursor -------------------------------------------------------------------------------------------

  /** The two segments up to the cursor are laid out faithfully, from column x on. */
  ghost predicate FaithfulTo(g: Glyphs, buffer: wstring, a: nat, cursor: nat, x: nat, width: nat)
    requires a <= cursor <= |buffer| && width > 0 && Flows(buffer, width)
  {
    PartFlows(buffer, 0, a, width);
    PartFlows(buffer, a, cursor, width);
    var start := [Row([], x)];
    && Faithful(g, buffer[0..a], 0, start, width)
    && Faithful(g, buffer[a..cursor], 0, LayOut(g, buffer[0..a], 0, start, width), width)
  }

  lemma TwoSegments(w: Widths, s: wstring, t: wstring, p: Point, first: seq<Row>, second: seq<Row>, width: nat)
    requires width > 0 && EndsThere(w, s, 0, p, first, width) && EndsThere(w, t, 0, EndOf(first), second, width)
    ensures EndsThere(w, s + t, 0, p, second, width)
  {
    EndFromWrapped(w, t, 0, EndOf(first), width);
    EndConcat(w, s, t, 0, p, width);
  }

  lemma StartsThere(g: Glyphs, w: Widths, s: wstring, x: nat, width: nat)
    requires Laying(g, w, s, 0, [Row([], x)], width) && Faithful(g, s, 0, [Row([], x)], width)
    ensures EndsThere(w, s, 0, Point(x, 0), LayOut(g, s, 0, [Row([], x)], width), width)
  {
    FaithfulEnds(g, w, s, 0, [Row([], x)], width);
  }

  lemma SegmentsEnd(g: Glyphs, w: Widths, s: wstring, t: wstring, x: nat, width: nat, first: seq<Row>)
    requires Laying(g, w, s, 0, [Row([], x)], width) && Faithful(g, s, 0, [Row([], x)], width)
    requires first == LayOut(g, s, 0, [Row([], x)], width)
    requires Measured(g, w, t, width) && Flows(t, width) && Faithful(g, t, 0, first, width)
    ensures EndsThere(w, s + t, 0, Point(x, 0), LayOut(g, t, 0, first, width), width)
  {
    StartsThere(g, w, s, x, width);
    FaithfulEnds(g, w, t, 0, first, width);
    TwoSegments(w, s, t, Point(x, 0), first, LayOut(g, t, 0, first, width), width);
  }

  /** Text and a start column that the editor lays out on lines of this width. */
  ghost predicate Typeset(g: Glyphs, w: Widths, buffer: wstring, cursor: nat, x: nat, width: nat) {
    cursor <= |buffer| && x <= width && width > 0 && Flows(buffer, width) && Measured(g, w, buffer, width)
  }

  lemma PartIsSet(g: Glyphs, w: Widths, buffer: wstring, a: nat, b: nat, width: nat)
    requires a <= b <= |buffer| && Flows(buffer, width) && Measured(g, w, buffer, width)
    ensures Flows(buffer[a..b], width) && Measured(g, w, buffer[a..b], width)
  {
    PartFlows(buffer, a, b, width);
    MeasuredSlice(g, w, buffer, a, b, width);
  }

  lemma Joined(s: wstring, a: nat, b: nat)
    requires a <= b <= |s|
    ensures s[0..a] + s[a..b] == s[..b]
  {}

  lemma CursorSegments(g: Glyphs, w: Widths, buffer: wstring, a: nat, cursor: nat, x: nat, width: nat)
    requires Typeset(g, w, buffer, cursor, x, width) && a <= cursor && FaithfulTo(g, buffer, a, cursor, x, width)
    ensures Flows(buffer[0..a], width) && Flows(buffer[a..cursor], width)
    ensures var first := LayOut(g, buffer[0..a], 0, [Row([], x)], width);
            var second := LayOut(g, buffer[a..cursor], 0, first, width);
            EndsThere(w, buffer[..cursor], 0, Point(x, 0), second, width)
  {
    PartIsSet(g, w, buffer, 0, a, width);
    PartIsSet(g, w, buffer, a, cursor, width);
    SegmentsEnd(g, w, buffer[0..a], buffer[a..cursor], x, width, LayOut(g, buffer[0..a], 0, [Row([], x)], width));
    Joined(buffer, a, cursor);
  }

  /** The rows up to the cursor are those of the text before it, laid out as two segments. */
  lemma CursorRowsAre(g: Glyphs, buffer: wstring, dirtyBeg: nat, cursor: nat, x: nat, width: nat)
    requires cursor <= |buffer| && width > 0 && Flows(buffer, width)
    ensures var a := Min(dirtyBeg, cursor);
            && Flows(buffer[0..a], width) && Flows(buffer[a..cursor], width)
            && CursorRows(SegmentsOf(g, buffer, dirtyBeg, cursor, x, width), dirtyBeg, cursor)
               == LayOut(g, buffer[a..cursor], 0, LayOut(g, buffer[0..a], 0, [Row([], x)], width), width)
  {
    var a := Min(dirtyBeg, cursor);
    PartFlows(buffer, 0, a, width);
    PartFlows(buffer, a, cursor, width);
  }

  /** Up to a full row, the rows before the cursor end where the walk over the text before it does, whatever part of
      the text is dirty. */
  lemma CursorFollowsText(g: Glyphs, w: Widths, buffer: wstring, dirtyBeg: nat, cursor: nat, x: nat, width: nat)
    requires Typeset(g, w, buffer, cursor, x, width)
    requires FaithfulTo(g, buffer, Min(dirtyBeg, cursor), cursor, x, width)
    ensures var p := EndOf(CursorRows(SegmentsOf(g, buffer, dirtyBeg, cursor, x, width), dirtyBeg, cursor));
            p.x <= width && Wrapped(p, width) == EndAt(w, buffer[..cursor], 0, Point(x, 0), width)
  {
    CursorSegments(g, w, buffer, Min(dirtyBeg, cursor), cursor, x, width);
    CursorRowsAre(g, buffer, dirtyBeg, cursor, x, width);
  }

  lemma SettledCursor(rows: seq<Row>, p: Point, atEnd: bool, width: nat)
    requires rows != []
    ensures Settle(rows, p, atEnd, width, NoPopup).cursor == Wrapped(p, width)
  {}

  /** The cursor is drawn where the text before it ends. */
  lemma CursorIsDrawn(g: Glyphs, w: Widths, buffer: wstring, dirtyBeg: nat, cursor: nat, x: nat, width: nat)
    requires Typeset(g, w, buffer, cursor, x, width)
    requires FaithfulTo(g, buffer, Min(dirtyBeg, cursor), cursor, x, width)
    ensures LayoutOf(g, buffer, dirtyBeg, cursor, x, width, NoPopup).cursor
         == EndAt(w, buffer[..cursor], 0, Point(x, 0), width)
  {
    CursorFollowsText(g, w, buffer, dirtyBeg, cursor, x, width);
    var r := SegmentsOf(g, buffer, dirtyBeg, cursor, x, width);
    SettledCursor(r.third, EndOf(CursorRows(r, dirtyBeg, cursor)), cursor == |buffer|, width);
  }

  /** All three segments are laid out faithfully. */
  ghost predicate AllFaithful(g: Glyphs, buffer: wstring, a: nat, b: nat, x: nat, width: nat)
    requires a <= b <= |buffer| && width > 0 && Flows(buffer, width)
  {
    PartFlows(buffer, b, |buffer|, width);
    && FaithfulTo(g, buffer, a, b, x, width)
    && Faithful(g, buffer[b..|buffer|], 0, LayOutAll(g, buffer, a, b, x, width).second, width)
  }

  lemma ThirdSegment(g: Glyphs, w: Widths, s: wstring, t: wstring, x: nat, width: nat, rows: seq<Row>)
    requires width > 0 && EndsThere(w, s, 0, Point(x, 0), rows, width)
    requires Measured(g, w, t, width) && Flows(t, width) && Faithful(g, t, 0, rows, width)
    ensures EndsThere(w, s + t, 0, Point(x, 0), LayOut(g, t, 0, rows, width), width)
  {
    FaithfulEnds(g, w, t, 0, rows, width);
    TwoSegments(w, s, t, Point(x, 0), rows, LayOut(g, t, 0, rows, width), width);
  }

  lemma JoinedWhole(s: wstring, b: nat)
    requires b <= |s|
    ensures s[..b] + s[b..|s|] == s
  {}

  lemma AllSegmentsEnd(g: Glyphs, w: Widths, buffer: wstring, a: nat, b: nat, x: nat, width: nat)
    requires Typeset(g, w, buffer, b, x, width) && a <= b && AllFaithful(g, buffer, a, b, x, width)
    ensures EndsThere(w, buffer, 0, Point(x, 0), LayOutAll(g, buffer, a, b, x, width).third, width)
  {
    CursorSegments(g, w, buffer, a, b, x, width);
    PartIsSet(g, w, buffer, b, |buffer|, width);
    ThirdSegment(g, w, buffer[..b], buffer[b..|buffer|], x, width, LayOutAll(g, buffer, a, b, x, width).second);
    JoinedWhole(buffer, b);
  }

  /** The end of the prompt, with a popup or without, is where the whole text ends. */
  lemma PromptEndsThere(g: Glyphs, w: Widths, buffer: wstring, dirtyBeg: nat, cursor: nat, x: nat, width: nat,
                        popup: Popup)
    requires Typeset(g, w, buffer, cursor, x, width)
    requires AllFaithful(g, buffer, Min(dirtyBeg, cursor), Min(Max(dirtyBeg, cursor), |buffer|), x, width)
    ensures Wrapped(LayoutOf(g, buffer, dirtyBeg, cursor, x, width, popup).promptEnd, width)
         == EndAt(w, buffer, 0, Point(x, 0), width)
  {
    AllSegmentsEnd(g, w, buffer, Min(dirtyBeg, cursor), Min(Max(dirtyBeg, cursor), |buffer|), x, width);
  }

  lemma SoundFromEnd(g: Glyphs, w: Widths, s: wstring, t: wstring, x: nat, width: nat, first: seq<Row>)
    requires width > 0 && Flows(t, width) && EndsThere(w, s, 0, Point(x, 0), first, width)
    ensures Faithful(g, t, 0, first, width) <==> Sound(g, t, 0, EndAt(w, s, 0, Point(x, 0), width).x, width)
  {
    TextIsFaithfulIff(g, t, 0, first, width);
    if Last(first).columns >= width { SoundFromFull(g, t, 0, Last(first).columns, width); }
  }

  /** Nothing before the cursor is left out or repeated exactly if both segments are sound, the second from where the
      walk over the first ends. */
  lemma FaithfulToIff(g: Glyphs, w: Widths, buffer: wstring, a: nat, cursor: nat, x: nat, width: nat)
    requires Typeset(g, w, buffer, cursor, x, width) && a <= cursor
    ensures FaithfulTo(g, buffer, a, cursor, x, width)
       <==> && Sound(g, buffer[0..a], 0, x, width)
            && Sound(g, buffer[a..cursor], 0, EndAt(w, buffer[0..a], 0, Point(x, 0), width).x, width)
  {
    var s, t, start := buffer[0..a], buffer[a..cursor], [Row([], x)];
    PartIsSet(g, w, buffer, 0, a, width);
    PartIsSet(g, w, buffer, a, cursor, width);
    TextIsFaithfulIff(g, s, 0, start, width);
    if Sound(g, s, 0, x, width) {
      StartsThere(g, w, s, x, width);
      SoundFromEnd(g, w, s, t, x, width, LayOut(g, s, 0, start, width));
    }
  }

  // -- A cursor that depends on what is dirty ---------------------------------------------------------------

  /** A glyph of two columns. */
  ghost predicate IsWide(g: Glyphs, w: Widths, c: wchar, width: nat) {
    c >= 0x80 && width >= 2 && Measured(g, w, [c], width) && w(c) == 2
  }

  lemma WideIsWide(g: Glyphs, w: Widths, c: wchar, width: nat)
    requires IsWide(g, w, c, width)
    ensures WideAt(g, [c], 0) && GlyphAt(g, [c][0..], 0).len == 1
  {
    assert [c][0..] == [c] && [c][0] == c;
    assert TabledAt(w, [c], 0, GlyphAt(g, [c], 0));
  }

  lemma WideRows(g: Glyphs, w: Widths, c: wchar, width: nat, first: seq<Row>)
    requires IsWide(g, w, c, width) && first != [] && Last(first).columns == width - 1
    ensures LayOut(g, [c], 0, first, width) == first
  {
    WideIsWide(g, w, c, width);
    AllLeadingWideAreLost(g, [c], 0, first, width);
    assert PastWide(g, [c], 0) == 1;
  }

  /** One more unit typed behind s, of which no more than that is dirty. */
  ghost predicate Typing(g: Glyphs, w: Widths, s: wstring, c: wchar, x: nat, width: nat) {
    && Typeset(g, w, s + [c], |s| + 1, x, width) && width >= 2 && !IsControl(c)
    && Measured(g, w, s, width) && Measured(g, w, [c], width) && Flows(s, width)
    && Faithful(g, s, 0, [Row([], x)], width)
  }

  predicate NoRoomFor(w: Widths, s: wstring, c: wchar, x: nat, width: nat) {
    w(c) == 2 && EndAt(w, s, 0, Point(x, 0), width).x == width - 1
  }

  lemma TypedRows(g: Glyphs, s: wstring, c: wchar, x: nat, width: nat)
    requires width >= 2 && !IsControl(c) && Flows(s + [c], width) && Flows(s, width)
    ensures Flows([c], width)
    ensures var first := LayOut(g, s, 0, [Row([], x)], width);
            CursorRows(SegmentsOf(g, s + [c], |s|, |s| + 1, x, width), |s|, |s| + 1) == LayOut(g, [c], 0, first, width)
  {
    assert (s + [c])[0..|s|] == s && (s + [c])[|s|..|s| + 1] == [c];
    CursorRowsAre(g, s + [c], |s|, |s| + 1, x, width);
  }

  lemma TypedCursor(g: Glyphs, s: wstring, c: wchar, x: nat, width: nat, rows: seq<Row>)
    requires width >= 2 && !IsControl(c) && Flows(s + [c], width) && Flows(s, width) && Flows([c], width)
    requires rows == LayOut(g, [c], 0, LayOut(g, s, 0, [Row([], x)], width), width)
    ensures LayoutOf(g, s + [c], |s|, |s| + 1, x, width, NoPopup).cursor == Wrapped(EndOf(rows), width)
  {
    TypedRows(g, s, c, x, width);
    var r := SegmentsOf(g, s + [c], |s|, |s| + 1, x, width);
    SettledCursor(r.third, EndOf(CursorRows(r, |s|, |s| + 1)), true, width);
  }

  lemma EndOfTyped(w: Widths, s: wstring, c: wchar, p: Point, width: nat)
    requires width > 0
    ensures EndAt(w, s + [c], 0, p, width) == Wrapped(Put(w, c, EndAt(w, s, 0, p, width), width), width)
  {
    EndConcat(w, s, [c], 0, p, width);
    assert EndAt(w, [c], 1, Put(w, c, EndAt(w, s, 0, p, width), width), width)
        == Wrapped(Put(w, c, EndAt(w, s, 0, p, width), width), width);
  }

  lemma LostCursor(g: Glyphs, w: Widths, s: wstring, c: wchar, x: nat, width: nat)
    requires Typing(g, w, s, c, x, width) && NoRoomFor(w, s, c, x, width)
    ensures LayoutOf(g, s + [c], |s|, |s| + 1, x, width, NoPopup).cursor == EndAt(w, s, 0, Point(x, 0), width)
    ensures EndAt(w, s, 0, Point(x, 0), width) != EndAt(w, s + [c], 0, Point(x, 0), width)
  {
    var first := LayOut(g, s, 0, [Row([], x)], width);
    StartsThere(g, w, s, x, width);
    assert IsWide(g, w, c, width) by { assert [c][0] == c; }
    WideRows(g, w, c, width, first);
    TypedCursor(g, s, c, x, width, first);
    EndOfTyped(w, s, c, Point(x, 0), width);
  }

  lemma ShownCursor(g: Glyphs, w: Widths, s: wstring, c: wchar, x: nat, width: nat)
    requires Typing(g, w, s, c, x, width) && !NoRoomFor(w, s, c, x, width)
    ensures LayoutOf(g, s + [c], |s|, |s| + 1, x, width, NoPopup).cursor == EndAt(w, s + [c], 0, Point(x, 0), width)
  {
    var first := LayOut(g, s, 0, [Row([], x)], width);
    StartsThere(g, w, s, x, width);
    assert Flows([c], width);
    UnitIsFaithful(g, w, c, width, first);
    SegmentsEnd(g, w, s, [c], x, width, first);
    TypedCursor(g, s, c, x, width, LayOut(g, [c], 0, first, width));
  }

  lemma UnitIsFaithful(g: Glyphs, w: Widths, c: wchar, width: nat, first: seq<Row>)
    requires Measured(g, w, [c], width) && width >= 2 && !IsControl(c) && Flows([c], width) && first != []
    requires w(c) != 2 || Last(first).columns != width - 1
    ensures Faithful(g, [c], 0, first, width)
  {
    assert [c][0] == c && [c][0..] == [c];
    if c >= 0x80 { assert TabledAt(w, [c], 0, GlyphAt(g, [c], 0)); }
    PlainIsFaithfulIff(g, [c], 0, first, width);
  }

  /** The cursor behind a unit just typed is drawn where the text ends exactly if that unit has room or is not wide: a
      wide one that would begin in the last column is lost. */
  lemma TypedCursorIff(g: Glyphs, w: Widths, s: wstring, c: wchar, x: nat, width: nat)
    requires Typing(g, w, s, c, x, width)
    ensures LayoutOf(g, s + [c], |s|, |s| + 1, x, width, NoPopup).cursor == EndAt(w, s + [c], 0, Point(x, 0), width)
       <==> !NoRoomFor(w, s, c, x, width)
  {
    if NoRoomFor(w, s, c, x, width) {
      LostCursor(g, w, s, c, x, width);
    } else {
      ShownCursor(g, w, s, c, x, width);
    }
  }

  const LETTER: wchar := 97

  /** A wide glyph stands behind a letter. */
  ghost predicate WideAfterLetter(g: Glyphs, w: Widths, c: wchar) {
    c >= 0x80 && Measured(g, w, [LETTER, c], 3) && w(c) == 2
  }

  lemma LetterRows(g: Glyphs, w: Widths, c: wchar, width: nat, first: seq<Row>)
    requires WideAfterLetter(g, w, c) && width >= 3
    requires first == LayOut(g, [LETTER], 0, [Row([], width - 2)], width)
    ensures first != [] && EndOf(first) == Point(width - 1, 0)
  {
    PrintableIsClean([LETTER], 0, width - 2, width);
    AsciiIsFaithfulIff(g, [LETTER], 0, [Row([], width - 2)], width);
    StartsThere(g, OneColumn, [LETTER], width - 2, width);
    assert EndAt(OneColumn, [LETTER], 0, Point(width - 2, 0), width) == Point(width - 1, 0);
  }

  lemma WholeIsFaithful(g: Glyphs, w: Widths, c: wchar, width: nat)
    requires WideAfterLetter(g, w, c) && width >= 3
    ensures Typeset(g, w, [LETTER, c], 2, width - 2, width) && FaithfulTo(g, [LETTER, c], 0, 2, width - 2, width)
  {
    var buffer, start := [LETTER, c], [Row([], width - 2)];
    assert buffer[0..0] == [] && buffer[0..2] == buffer;
    PlainIsFaithfulIff(g, buffer, 0, start, width);
  }

  /** A letter and a wide glyph with two columns left. Drawn anew, the glyph goes to the next row and the cursor behind
      it; typed behind the letter, it is lost and the cursor stays in the last column. */
  lemma CursorDependsOnDirt(g: Glyphs, w: Widths, c: wchar, width: nat)
    requires WideAfterLetter(g, w, c) && width >= 3
    ensures Flows([LETTER, c], width)
    ensures LayoutOf(g, [LETTER, c], 0, 2, width - 2, width, NoPopup).cursor == Point(2, 1)
    ensures LayoutOf(g, [LETTER, c], 1, 2, width - 2, width, NoPopup).cursor == Point(width - 1, 0)
  {
    var buffer, x := [LETTER, c], width - 2;
    WholeIsFaithful(g, w, c, width);
    CursorIsDrawn(g, w, buffer, 0, 2, x, width);
    assert buffer[..2] == buffer && buffer[0..1] == [LETTER] && buffer[1..2] == [c];
    WideEnd(w, c, width);
    CursorRowsAre(g, buffer, 1, 2, x, width);
    var first := LayOut(g, [LETTER], 0, [Row([], x)], width);
    LetterRows(g, w, c, width, first);
    assert IsWide(g, w, c, width) by { assert [LETTER, c][1] == c; }
    WideRows(g, w, c, width, first);
  }

  lemma WideEnd(w: Widths, c: wchar, width: nat)
    requires w(LETTER) == 1 && w(c) == 2 && c >= 32 && width >= 3
    ensures EndAt(w, [LETTER, c], 0, Point(width - 2, 0), width) == Point(2, 1)
  {
    assert Put(w, LETTER, Point(width - 2, 0), width) == Point(width - 1, 0);
    assert Put(w, c, Point(width - 1, 0), width) == Point(2, 1);
    assert EndAt(w, [LETTER, c], 2, Point(2, 1), width) == Point(2, 1);
    assert EndAt(w, [LETTER, c], 1, Point(width - 1, 0), width) == Point(2, 1);
  }

  // -- ASCII text -------------------------------------------------------------------------------------------

  function OneColumn(c: wchar): nat { 1 }

  /** A control character that ends exactly at the right edge, or a tab that reaches it. */
  predicate Caught(c: wchar, x: nat, width: nat) {
    IsControl(c) && if c == TAB then x + 8 - x % 8 >= width else x + 2 == width
  }

  lemma CleanNext(s: wstring, i: nat, p: Point, width: nat)
    requires i < |s| && width > 0
    ensures Clean(s, i, p.x, width)
       <==> !Caught(s[i], Wrapped(p, width).x, width) && Clean(s, i + 1, Put(OneColumn, s[i], p, width).x, width)
  {}

  /** Clean text is clean in parts, of which the second starts where the first ends. */
  lemma {:induction false} CleanParts(s: wstring, t: wstring, i: nat, p: Point, width: nat)
    requires i <= |s| && width > 0
    ensures Clean(s + t, i, p.x, width)
       <==> Clean(s, i, p.x, width) && Clean(t, 0, EndAt(OneColumn, s, i, p, width).x, width)
    decreases |s| - i
  {
    if i == |s| {
      CleanTail(s, t, 0, p.x, width);
      if p.x >= width { CleanFromFull(t, 0, p.x, width); }
    } else {
      CleanNext(s, i, p, width);
      CleanNext(s + t, i, p, width);
      CleanParts(s, t, i + 1, Put(OneColumn, s[i], p, width), width);
    }
  }

  lemma {:induction false} CleanTail(s: wstring, t: wstring, i: nat, column: nat, width: nat)
    requires i <= |t| && width > 0
    ensures Clean(s + t, |s| + i, column, width) == Clean(t, i, column, width)
    decreases |t| - i
  {
    if i == |t| {
    } else {
      CleanTail(s, t, i + 1, Put(OneColumn, t[i], Point(column, 0), width).x, width);
    }
  }

  lemma CleanIsFaithful(g: Glyphs, buffer: wstring, a: nat, cursor: nat, x: nat, width: nat)
    requires Typeset(g, OneColumn, buffer, cursor, x, width) && Ascii(buffer) && a <= cursor
    requires Clean(buffer[..cursor], 0, x, width)
    ensures FaithfulTo(g, buffer, a, cursor, x, width)
  {
    var s, t, start := buffer[0..a], buffer[a..cursor], [Row([], x)];
    PartIsSet(g, OneColumn, buffer, 0, a, width);
    PartIsSet(g, OneColumn, buffer, a, cursor, width);
    Joined(buffer, a, cursor);
    CleanParts(s, t, 0, Point(x, 0), width);
    AsciiIsFaithfulIff(g, s, 0, start, width);
    StartsThere(g, OneColumn, s, x, width);
    SecondIsFaithful(g, s, t, x, width, LayOut(g, s, 0, start, width));
  }

  lemma SecondIsFaithful(g: Glyphs, s: wstring, t: wstring, x: nat, width: nat, first: seq<Row>)
    requires width > 0 && EndsThere(OneColumn, s, 0, Point(x, 0), first, width)
    requires Ascii(t) && Flows(t, width) && Clean(t, 0, EndAt(OneColumn, s, 0, Point(x, 0), width).x, width)
    ensures Faithful(g, t, 0, first, width)
  {
    AsciiIsFaithfulIff(g, t, 0, first, width);
    if Last(first).columns >= width { CleanFromFull(t, 0, Last(first).columns, width); }
  }

  /** In ASCII text, tabs and other control characters included, the cursor is drawn where the text before it ends if
      that text is clean, whatever part of it is dirty. */
  lemma CleanCursorIsDrawn(g: Glyphs, buffer: wstring, dirtyBeg: nat, cursor: nat, x: nat, width: nat)
    requires Ascii(buffer) && cursor <= |buffer| && x <= width && width > 0 && Flows(buffer, width)
    requires Clean(buffer[..cursor], 0, x, width)
    ensures LayoutOf(g, buffer, dirtyBeg, cursor, x, width, NoPopup).cursor
         == EndAt(OneColumn, buffer[..cursor], 0, Point(x, 0), width)
  {
    CleanIsFaithful(g, buffer, Min(dirtyBeg, cursor), cursor, x, width);
    CursorIsDrawn(g, OneColumn, buffer, dirtyBeg, cursor, x, width);
  }

  // -- Printable ASCII text ---------------------------------------------------------------------------------

  ghost predicate Printable(s: wstring) { forall i :: 0 <= i < |s| ==> 32 <= s[i] < 0x80 }

  /** How many columns stand before the place, counting all the rows above. */
  function Offset(p: Point, width: nat): nat { p.y * width + p.x }

  lemma OffsetOfWrapped(p: Point, width: nat)
    requires p.x <= width
    ensures Offset(Wrapped(p, width), width) == Offset(p, width)
  {
    assert (p.y + 1) * width == p.y * width + width;
  }

  lemma {:induction false} PrintableEnd(s: wstring, i: nat, p: Point, width: nat)
    requires i <= |s| && Printable(s) && p.x <= width && width > 0
    ensures Offset(EndAt(OneColumn, s, i, p, width), width) == Offset(p, width) + |s| - i
    decreases |s| - i
  {
    OffsetOfWrapped(p, width);
    if i == |s| {
    } else {
      PrintableEnd(s, i + 1, Put(OneColumn, s[i], p, width), width);
    }
  }

  lemma {:induction false} PrintableIsClean(s: wstring, i: nat, column: nat, width: nat)
    requires i <= |s| && Printable(s) && width > 0
    ensures Clean(s, i, column, width)
    decreases |s| - i
  {
    if i == |s| {
    } else {
      PrintableIsClean(s, i + 1, (if column >= width then 0 else column) + 1, width);
    }
  }

  lemma PrintableIsFaithful(g: Glyphs, buffer: wstring, a: nat, cursor: nat, x: nat, width: nat)
    requires Printable(buffer) && a <= cursor <= |buffer| && x <= width && width > 0
    ensures Typeset(g, OneColumn, buffer, cursor, x, width) && FaithfulTo(g, buffer, a, cursor, x, width)
  {
    PrintableIsClean(buffer[..cursor], 0, x, width);
    CleanIsFaithful(g, buffer, a, cursor, x, width);
  }

  /** In printable ASCII text the cursor stands as many columns behind the start as there are units before it, whatever
      part of the text is dirty; and it is drawn there. */
  lemma PrintableCursor(g: Glyphs, buffer: wstring, dirtyBeg: nat, cursor: nat, x: nat, width: nat)
    requires Printable(buffer) && cursor <= |buffer| && x <= width && width > 0
    ensures Flows(buffer, width)
    ensures var p := EndOf(CursorRows(SegmentsOf(g, buffer, dirtyBeg, cursor, x, width), dirtyBeg, cursor));
            p.y * width + p.x == x + cursor
    ensures var p := LayoutOf(g, buffer, dirtyBeg, cursor, x, width, NoPopup).cursor;
            p.y * width + p.x == x + cursor && p.x < width
  {
    PrintableIsFaithful(g, buffer, Min(dirtyBeg, cursor), cursor, x, width);
    CursorFollowsText(g, OneColumn, buffer, dirtyBeg, cursor, x, width);
    CursorIsDrawn(g, OneColumn, buffer, dirtyBeg, cursor, x, width);
    PrintableEnd(buffer[..cursor], 0, Point(x, 0), width);
    OffsetOfWrapped(EndOf(CursorRows(SegmentsOf(g, buffer, dirtyBeg, cursor, x, width), dirtyBeg, cursor)), width);
    LayoutHasCursor(g, buffer, dirtyBeg, cursor, x, width, NoPopup);
  }
}
