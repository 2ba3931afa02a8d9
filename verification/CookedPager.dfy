/** Laying out the edit buffer from the prompt on, and the pager window that shows it. */
module CookedPager {
  import opened Basics
  import opened Wide
  import opened CookedLayout

  datatype Row = Row(text: wstring, columns: nat)

  datatype Point = Point(x: nat, y: nat)

  datatype Popup = NoPopup | Popup(rows: seq<Row>)

  // -- Segments ---------------------------------------------------------------------------------------------

  function Last(rows: seq<Row>): Row
    requires rows != []
  {
    rows[|rows| - 1]
  }

  /** The rows, with a new one if the last is full. */
  function Opened(rows: seq<Row>, width: nat): (r: seq<Row>)
    requires rows != []
    ensures r != []
  {
    if Last(rows).columns >= width then rows + [Row([], 0)] else rows
  }

  function Extended(rows: seq<Row>, l: Laid): (r: seq<Row>)
    requires rows != []
    ensures r != []
  {
    rows[..|rows| - 1] + [Row(Last(rows).text + l.text, l.column)]
  }

  function Left(s: wstring, beg: nat, rows: seq<Row>, width: nat): nat
    requires rows != [] && beg <= |s|
  {
    2 * (|s| - beg) + if 0 < Last(rows).columns < width then 1 else 0
  }

  function NextLaid(g: Glyphs, s: wstring, beg: nat, rows: seq<Row>, width: nat): Laid
    requires rows != [] && beg <= |s|
  {
    Line(g, s, beg, Last(Opened(rows, width)).columns, width)
  }

  lemma LeftShrinks(g: Glyphs, s: wstring, beg: nat, rows: seq<Row>, width: nat)
    requires rows != [] && beg < |s| && width > 0 && Flows(s, width)
    ensures var r := NextLaid(g, s, beg, rows, width);
            r.offset <= |s| && Left(s, r.offset, Extended(Opened(rows, width), r), width) < Left(s, beg, rows, width)
  {
    LineBounds(g, s, beg, Last(Opened(rows, width)).columns, width);
    FreshLineConsumesIff(g, s, beg, width);
  }

  /** The rows with s[beg..] laid out behind them. */
  function LayOut(g: Glyphs, s: wstring, beg: nat, rows: seq<Row>, width: nat): (r: seq<Row>)
    requires rows != [] && beg <= |s| && width > 0 && Flows(s, width)
    ensures r != []
    decreases Left(s, beg, rows, width)
  {
    if beg == |s| then rows
    else
      LeftShrinks(g, s, beg, rows, width);
      var l := NextLaid(g, s, beg, rows, width);
      LayOut(g, s, l.offset, Extended(Opened(rows, width), l), width)
  }

  lemma {:induction false} LayOutGrows(g: Glyphs, s: wstring, beg: nat, rows: seq<Row>, width: nat)
    requires rows != [] && beg <= |s| && width > 0 && Flows(s, width)
    ensures |LayOut(g, s, beg, rows, width)| >= |rows|
    decreases Left(s, beg, rows, width)
  {
    if beg >= |s| {
    } else {
      LeftShrinks(g, s, beg, rows, width);
      var l := NextLaid(g, s, beg, rows, width);
      LayOutGrows(g, s, l.offset, Extended(Opened(rows, width), l), width);
    }
  }

  /** Text after a full row opens a new one. */
  lemma FullRowOpensNext(g: Glyphs, s: wstring, rows: seq<Row>, width: nat)
    requires rows != [] && s != [] && width > 0 && Flows(s, width) && Last(rows).columns >= width
    ensures |LayOut(g, s, 0, rows, width)| > |rows|
  {
    LeftShrinks(g, s, 0, rows, width);
    var l := NextLaid(g, s, 0, rows, width);
    LayOutGrows(g, s, l.offset, Extended(Opened(rows, width), l), width);
  }

  method LayoutSegment(g: Glyphs, segment: wstring, rows0: seq<Row>, width: nat) returns (rows: seq<Row>)
    requires rows0 != [] && width > 0 && Flows(segment, width)
    ensures rows == LayOut(g, segment, 0, rows0, width)
  {
    rows := rows0;
    var beg: nat := 0;
    while beg < |segment|
      invariant rows != [] && beg <= |segment|
      invariant LayOut(g, segment, beg, rows, width) == LayOut(g, segment, 0, rows0, width)
      decreases Left(segment, beg, rows, width)
    {
      LeftShrinks(g, segment, beg, rows, width);
      rows, beg := LayoutRow(g, segment, beg, rows, width);
    }
  }

  method LayoutRow(g: Glyphs, segment: wstring, beg0: nat, rows0: seq<Row>, width: nat)
    returns (rows: seq<Row>, beg: nat)
    requires rows0 != [] && beg0 < |segment| && width > 0
    ensures var l := NextLaid(g, segment, beg0, rows0, width);
            rows == Extended(Opened(rows0, width), l) && beg == l.offset
  {
    rows := rows0;
    if rows[|rows| - 1].columns >= width {
      rows := rows + [Row([], 0)];
    }
    var row := rows[|rows| - 1];
    var text, column;
    text, beg, column := LayoutLine(g, row.text, segment, beg0, row.columns, width);
    rows := rows[..|rows| - 1] + [Row(text, column)];
  }

  // -- What the rows show -----------------------------------------------------------------------------------

  function TextOf(rows: seq<Row>): wstring {
    if rows == [] then [] else TextOf(rows[..|rows| - 1]) + rows[|rows| - 1].text
  }

  lemma TextSnoc(rows: seq<Row>, row: Row)
    ensures TextOf(rows + [row]) == TextOf(rows) + row.text
  {
    assert (rows + [row])[..|rows|] == rows;
  }

  lemma ExtendedText(rows: seq<Row>, l: Laid)
    requires rows != []
    ensures TextOf(Extended(rows, l)) == TextOf(rows) + l.text
  {
    var above, row := rows[..|rows| - 1], Last(rows);
    calc {
      TextOf(Extended(rows, l));
    == { TextSnoc(above, Row(row.text + l.text, l.column)); }
      TextOf(above) + (row.text + l.text);
    == { Associative(TextOf(above), row.text, l.text); }
      TextOf(rows) + l.text;
    }
  }

  lemma OpenedText(rows: seq<Row>, width: nat)
    requires rows != []
    ensures TextOf(Opened(rows, width)) == TextOf(rows)
  {
    TextSnoc(rows, Row([], 0));
    assert TextOf(rows) + [] == TextOf(rows);
  }

  lemma NextText(rows: seq<Row>, width: nat, l: Laid)
    requires rows != []
    ensures TextOf(Extended(Opened(rows, width), l)) == TextOf(rows) + l.text
  {
    OpenedText(rows, width);
    ExtendedText(Opened(rows, width), l);
  }

  /** No glyph is left out and no control character laid out twice on the way. */
  ghost predicate Faithful(g: Glyphs, s: wstring, beg: nat, rows: seq<Row>, width: nat)
    requires rows != [] && beg <= |s| && width > 0 && Flows(s, width)
    decreases Left(s, beg, rows, width)
  {
    beg == |s| ||
    (LeftShrinks(g, s, beg, rows, width);
     var l := NextLaid(g, s, beg, rows, width);
     l.skipped == 0 && !l.repeated && Faithful(g, s, l.offset, Extended(Opened(rows, width), l), width))
  }

  lemma PlainExpected(s: wstring, a: nat, b: nat)
    requires a <= b <= |s|
    ensures Expected(s, a, b, false) == SeenIn(s, a, b)
  {}

  lemma CleanInk(s: wstring, beg: nat, l: Laid)
    requires Shows(s, beg, l) && l.skipped == 0 && !l.repeated
    ensures beg <= l.offset <= |s| && Ink(l.text) == SeenIn(s, beg, l.offset)
  {
    PlainExpected(s, beg, l.offset);
  }

  lemma LaidInk(s: wstring, beg: nat, l: Laid, before: wstring)
    requires Shows(s, beg, l) && l.skipped == 0 && !l.repeated
    ensures beg <= l.offset <= |s| && Ink(before + l.text) == Ink(before) + SeenIn(s, beg, l.offset)
  {
    CleanInk(s, beg, l);
    InkGrows(before, l.text, SeenIn(s, beg, l.offset));
  }

  lemma InkGrows(before: wstring, text: wstring, seen: wstring)
    requires Ink(text) == seen
    ensures Ink(before + text) == Ink(before) + seen
  {
    InkConcat(before, text);
  }

  lemma JoinSeen(i: wstring, s: wstring, a: nat, b: nat, c: nat)
    requires a <= b <= c <= |s|
    ensures (i + SeenIn(s, a, b)) + SeenIn(s, b, c) == i + SeenIn(s, a, c)
  {
    SeenConcat(s, a, b, c);
    Associative(i, SeenIn(s, a, b), SeenIn(s, b, c));
  }

  /** Spaces aside, a faithful layout shows exactly the text. */
  lemma {:induction false} FaithfulShows(g: Glyphs, s: wstring, beg: nat, rows: seq<Row>, width: nat)
    requires rows != [] && beg <= |s| && width > 0 && Flows(s, width) && Faithful(g, s, beg, rows, width)
    ensures Ink(TextOf(LayOut(g, s, beg, rows, width))) == Ink(TextOf(rows)) + SeenIn(s, beg, |s|)
    decreases Left(s, beg, rows, width)
  {
    if beg == |s| {
      assert Ink(TextOf(rows)) + [] == Ink(TextOf(rows));
    } else {
      LeftShrinks(g, s, beg, rows, width);
      var l := NextLaid(g, s, beg, rows, width);
      var next := Extended(Opened(rows, width), l);
      LineShows(g, s, beg, Last(Opened(rows, width)).columns, width);
      LaidInk(s, beg, l, TextOf(rows));
      calc {
        Ink(TextOf(LayOut(g, s, l.offset, next, width)));
      == { FaithfulShows(g, s, l.offset, next, width); }
        Ink(TextOf(next)) + SeenIn(s, l.offset, |s|);
      == { NextText(rows, width, l); }
        (Ink(TextOf(rows)) + SeenIn(s, beg, l.offset)) + SeenIn(s, l.offset, |s|);
      == { JoinSeen(Ink(TextOf(rows)), s, beg, l.offset, |s|); }
        Ink(TextOf(rows)) + SeenIn(s, beg, |s|);
      }
    }
  }

  // -- When the layout is faithful: text without control characters -----------------------------------------

  ghost predicate Plain(s: wstring) { forall i :: 0 <= i < |s| ==> !IsControl(s[i]) }

  /** A wide glyph stands at i. */
  predicate WideAt(g: Glyphs, s: wstring, i: nat) {
    i < |s| && s[i] >= 0x80 && GlyphAt(g, s[i..], 0).width == 2
  }

  /** A line of plain text leaves a glyph out exactly if it starts with a wide one in the last column; otherwise it
      takes all the text or fills up. */
  lemma PlainLine(g: Glyphs, s: wstring, it: nat, column: nat, limit: nat)
    requires it < |s| && Plain(s) && column < limit
    ensures var l := Line(g, s, it, column, limit);
            && !l.repeated
            && (l.skipped > 0 <==> column == limit - 1 && WideAt(g, s, it))
            && (l.skipped == 0 ==> l.offset == |s| || l.column == limit)
  {
    assert ControlEnd(s, it) == |s| && s[it..|s|] == s[it..];
    FitTextBounds(g, s[it..], limit - column);
  }

  /** Plain text is laid out faithfully exactly if it does not start with a wide glyph in the last column. */
  lemma {:induction false} PlainIsFaithfulIff(g: Glyphs, s: wstring, beg: nat, rows: seq<Row>, width: nat)
    requires rows != [] && beg <= |s| && width >= 2 && Flows(s, width) && Plain(s)
    ensures Faithful(g, s, beg, rows, width) <==> !(Last(rows).columns == width - 1 && WideAt(g, s, beg))
    decreases Left(s, beg, rows, width)
  {
    if beg == |s| {
    } else {
      LeftShrinks(g, s, beg, rows, width);
      var column := Last(Opened(rows, width)).columns;
      var l := NextLaid(g, s, beg, rows, width);
      PlainLine(g, s, beg, column, width);
      if l.skipped == 0 {
        PlainIsFaithfulIff(g, s, l.offset, Extended(Opened(rows, width), l), width);
      }
    }
  }

  /** Past all the wide glyphs that stand at beg, one after the other. */
  function PastWide(g: Glyphs, s: wstring, beg: nat): (r: nat)
    requires beg <= |s|
    ensures beg <= r <= |s|
    decreases |s| - beg
  {
    if WideAt(g, s, beg) then PastWide(g, s, beg + GlyphAt(g, s[beg..], 0).len) else beg
  }

  lemma {:induction false} NoWideAfterPast(g: Glyphs, s: wstring, beg: nat)
    requires beg <= |s|
    ensures !WideAt(g, s, PastWide(g, s, beg))
    decreases |s| - beg
  {
    if !WideAt(g, s, beg) {
    } else {
      NoWideAfterPast(g, s, beg + GlyphAt(g, s[beg..], 0).len);
    }
  }

  lemma SkipLine(g: Glyphs, s: wstring, it: nat, limit: nat)
    requires Plain(s) && WideAt(g, s, it) && limit >= 1
    ensures var n := GlyphAt(g, s[it..], 0).len;
            Line(g, s, it, limit - 1, limit) == Laid([], it + n, limit - 1, n, false)
  {
    assert ControlEnd(s, it) == |s| && s[it..|s|] == s[it..];
    FitTextBounds(g, s[it..], 1);
  }

  lemma SkippedRows(rows: seq<Row>, l: Laid, width: nat)
    requires rows != [] && width >= 1 && Last(rows).columns == width - 1 && l.text == [] && l.column == width - 1
    ensures Extended(Opened(rows, width), l) == rows
  {
    assert Last(rows).text + [] == Last(rows).text;
    assert rows[..|rows| - 1] + [Last(rows)] == rows;
  }

  /** Plain text goes on in the last column of the rows. */
  ghost predicate AtEdge(s: wstring, beg: nat, rows: seq<Row>, width: nat) {
    && rows != [] && beg <= |s| && width >= 1 && Last(rows).columns == width - 1
    && Flows(s, width) && Plain(s)
  }

  /** Text from a on and from b on, both in the last column, comes out the same. */
  ghost predicate SameFrom(g: Glyphs, s: wstring, a: nat, b: nat, rows: seq<Row>, width: nat) {
    && AtEdge(s, a, rows, width) && AtEdge(s, b, rows, width)
    && LayOut(g, s, a, rows, width) == LayOut(g, s, b, rows, width)
  }

  lemma SameFromBoth(g: Glyphs, s: wstring, a: nat, b: nat, c: nat, rows: seq<Row>, width: nat)
    requires SameFrom(g, s, a, b, rows, width) && SameFrom(g, s, b, c, rows, width)
    ensures SameFrom(g, s, a, c, rows, width)
  {}

  lemma SkipRound(g: Glyphs, s: wstring, beg: nat, rows: seq<Row>, width: nat, next: nat)
    requires AtEdge(s, beg, rows, width) && WideAt(g, s, beg) && next == beg + GlyphAt(g, s[beg..], 0).len
    ensures SameFrom(g, s, beg, next, rows, width)
  {
    var l := NextLaid(g, s, beg, rows, width);
    assert l.offset == next && Extended(Opened(rows, width), l) == rows by {
      SkipLine(g, s, beg, width);
      SkippedRows(rows, l, width);
    }
    LeftShrinks(g, s, beg, rows, width);
  }

  lemma {:induction false} WideAreSkipped(g: Glyphs, s: wstring, beg: nat, rows: seq<Row>, width: nat)
    requires AtEdge(s, beg, rows, width)
    ensures SameFrom(g, s, beg, PastWide(g, s, beg), rows, width)
    decreases |s| - beg
  {
    if !WideAt(g, s, beg) {
    } else {
      var next := beg + GlyphAt(g, s[beg..], 0).len;
      SkipRound(g, s, beg, rows, width, next);
      WideAreSkipped(g, s, next, rows, width);
      PastOneWide(g, s, beg, next);
      SameFromBoth(g, s, beg, next, PastWide(g, s, beg), rows, width);
    }
  }

  lemma PastOneWide(g: Glyphs, s: wstring, beg: nat, next: nat)
    requires WideAt(g, s, beg) && next == beg + GlyphAt(g, s[beg..], 0).len
    ensures PastWide(g, s, beg) == PastWide(g, s, next)
  {}

  /** Leaving a glyph out does not advance the column: in the last one, all wide glyphs that follow each other are
      lost, as if the text began behind them. */
  lemma AllLeadingWideAreLost(g: Glyphs, s: wstring, beg: nat, rows: seq<Row>, width: nat)
    requires AtEdge(s, beg, rows, width)
    ensures LayOut(g, s, beg, rows, width) == LayOut(g, s, PastWide(g, s, beg), rows, width)
    ensures !WideAt(g, s, PastWide(g, s, beg))
  {
    NoWideAfterPast(g, s, beg);
    WideAreSkipped(g, s, beg, rows, width);
  }

  // -- When the layout is faithful: ASCII text --------------------------------------------------------------

  /** Walks the text column by column: no control character may end exactly at the right edge, and no tab may reach
      it. One that is two wide and meets the last column moves to the next line. */
  predicate Clean(s: wstring, beg: nat, column: nat, width: nat)
    requires beg <= |s| && width > 0
    decreases |s| - beg
  {
    var c := if column >= width then 0 else column;
    if beg == |s| then true
    else if !IsControl(s[beg]) then Clean(s, beg + 1, c + 1, width)
    else if s[beg] == TAB then c + 8 - c % 8 < width && Clean(s, beg + 1, c + 8 - c % 8, width)
    else if c == width - 1 then Clean(s, beg + 1, 2, width)
    else c + 2 != width && Clean(s, beg + 1, c + 2, width)
  }

  lemma {:induction false} CleanOverPlain(s: wstring, beg: nat, k: nat, column: nat, width: nat)
    requires beg + k <= |s| && column + k <= width && width > 0 && forall i :: beg <= i < beg + k ==> !IsControl(s[i])
    ensures Clean(s, beg, column, width) == Clean(s, beg + k, column + k, width)
    decreases k
  {
    if k == 0 {
    } else {
      CleanOverPlain(s, beg + 1, k - 1, column + 1, width);
    }
  }

  /** One line: it repeats a character and the text is not clean, or the walk goes on where the line ends. */
  ghost predicate WalksOn(s: wstring, it: nat, column: nat, width: nat, l: Laid)
    requires it <= |s| && width > 0
  {
    if l.repeated then !Clean(s, it, column, width)
    else l.offset <= |s| && l.skipped == 0 && Clean(s, it, column, width) == Clean(s, l.offset, l.column, width)
  }

  ghost predicate StepWalksOn(s: wstring, it: nat, column: nat, width: nat, p: Step)
    requires it <= |s| && width > 0
  {
    if p.Stop? then WalksOn(s, it, column, width, p.r)
    else p.it <= |s| && Clean(s, it, column, width) == Clean(s, p.it, p.column, width)
  }

  lemma ControlWalksOn(s: wstring, it: nat, column: nat, width: nat)
    requires it < |s| && column < width && IsControl(s[it]) && !Blocks(s[it], width)
    ensures StepWalksOn(s, it, column, width, ControlStep(s[it], it, column, width))
  {}

  lemma PlainWalksOn(g: Glyphs, s: wstring, it: nat, end: nat, column: nat, width: nat)
    requires it < end <= |s| && column < width && Ascii(s) && forall i :: it <= i < end ==> !IsControl(s[i])
    ensures StepWalksOn(s, it, column, width, PlainStep(g, s[it..end], it, column, width))
  {
    AsciiFits(g, s[it..end], width - column);
    CleanOverPlain(s, it, Min(end - it, width - column), column, width);
  }

  lemma {:induction false} LineWalksOn(g: Glyphs, s: wstring, it: nat, column: nat, width: nat)
    requires it <= |s| && column <= width && width > 0 && Ascii(s) && Flows(s, width)
    ensures WalksOn(s, it, column, width, Line(g, s, it, column, width))
    decreases |s| - it
  {
    if it == |s| || column == width {
    } else {
      if IsControl(s[it]) {
        ControlWalksOn(s, it, column, width);
      } else {
        PlainWalksOn(g, s, it, ControlEnd(s, it), column, width);
      }
      var p := LineStep(g, s, it, column, width);
      if p.Go? {
        LineWalksOn(g, s, p.it, p.column, width);
      }
    }
  }

  lemma CleanFromFull(s: wstring, beg: nat, column: nat, width: nat)
    requires beg <= |s| && 0 < width <= column
    ensures Clean(s, beg, column, width) == Clean(s, beg, 0, width)
  {}

  /** ASCII text, tabs and other control characters included, is laid out faithfully exactly if it is clean. */
  lemma {:induction false} AsciiIsFaithfulIff(g: Glyphs, s: wstring, beg: nat, rows: seq<Row>, width: nat)
    requires rows != [] && beg <= |s| && width > 0 && Flows(s, width) && Ascii(s)
    ensures Faithful(g, s, beg, rows, width) <==> Clean(s, beg, Last(rows).columns, width)
    decreases Left(s, beg, rows, width)
  {
    if beg == |s| {
    } else {
      LeftShrinks(g, s, beg, rows, width);
      var column := Last(Opened(rows, width)).columns;
      if Last(rows).columns >= width { CleanFromFull(s, beg, Last(rows).columns, width); }
      var l := NextLaid(g, s, beg, rows, width);
      LineWalksOn(g, s, beg, column, width);
      if !l.repeated {
        AsciiIsFaithfulIff(g, s, l.offset, Extended(Opened(rows, width), l), width);
      }
    }
  }

  // -- When the layout is faithful: any text ----------------------------------------------------------------

  /** One step of a walk by columns: where it goes on, unless something would be left out or repeated. */
  datatype Walk = Fails | To(it: nat, column: nat)

  /** A control character may not end exactly at the right edge, nor a tab reach it; one that meets the last column
      moves to the next line. */
  function ControlWalk(c: wchar, it: nat, column: nat, width: nat): Walk {
    if c == TAB then
      if column + 8 - column % 8 < width then To(it + 1, column + 8 - column % 8) else Fails
    else if column == width - 1 then To(it + 1, 2)
    else if column + 2 == width then Fails
    else To(it + 1, column + 2)
  }

  /** A run of plain text takes the columns of its graphemes, line by line, and may not begin with a wide one in the
      last column. */
  function PlainWalk(g: Glyphs, text: wstring, it: nat, column: nat, width: nat): (r: Walk)
    requires text != [] && column < width
    ensures r.To? ==> it < r.it <= it + |text|
  {
    FitTextBounds(g, text, width - column);
    var f := FitText(g, text, width - column);
    if column == width - 1 && text[0] >= 0x80 && GlyphAt(g, text, 0).width == 2 then Fails
    else To(it + f.len, if f.len < |text| then width else column + f.cols)
  }

  function WalkStep(g: Glyphs, s: wstring, it: nat, column: nat, width: nat): (r: Walk)
    requires it < |s| && column < width
    ensures r.To? ==> it < r.it <= |s|
  {
    if IsControl(s[it]) then ControlWalk(s[it], it, column, width)
    else PlainWalk(g, s[it..ControlEnd(s, it)], it, column, width)
  }

  predicate Sound(g: Glyphs, s: wstring, beg: nat, column: nat, width: nat)
    requires beg <= |s| && width > 0
    decreases |s| - beg
  {
    beg == |s| ||
    match WalkStep(g, s, beg, if column >= width then 0 else column, width)
    case Fails => false
    case To(it, c) => Sound(g, s, it, c, width)
  }

  /** The line's step and the walk's are alike; only, a control character that has no room in the last column is left
      to the next line, where the walk has already put it. */
  ghost predicate Alike(p: Step, w: Walk, it: nat, width: nat) {
    match p
    case Stop(r) =>
      if r.repeated || r.skipped > 0 then w.Fails?
      else r.column == width && w == if r.offset == it then To(it + 1, 2) else To(r.offset, width)
    case Go(_, it', column') => w == To(it', column')
  }

  lemma ControlAlike(c: wchar, it: nat, column: nat, width: nat)
    requires column < width && IsControl(c) && !Blocks(c, width)
    ensures Alike(ControlStep(c, it, column, width), ControlWalk(c, it, column, width), it, width)
    ensures var p := ControlStep(c, it, column, width);
            p.Stop? && p.r.offset == it && !p.r.repeated ==> ControlWalk(c, it, 0, width) == To(it + 1, 2)
  {}

  lemma PlainAlike(g: Glyphs, text: wstring, it: nat, column: nat, width: nat)
    requires text != [] && column < width
    ensures Alike(PlainStep(g, text, it, column, width), PlainWalk(g, text, it, column, width), it, width)
    ensures PlainStep(g, text, it, column, width).Stop? ==> PlainStep(g, text, it, column, width).r.offset > it
  {
    FitTextBounds(g, text, width - column);
  }

  /** One line: it leaves out or repeats something and the text is not sound, or the walk goes on where it ends. */
  ghost predicate SoundAfter(g: Glyphs, s: wstring, it: nat, column: nat, width: nat, l: Laid)
    requires it <= |s| && width > 0
  {
    if l.repeated || l.skipped > 0 then !Sound(g, s, it, column, width)
    else l.offset <= |s| && Sound(g, s, it, column, width) == Sound(g, s, l.offset, l.column, width)
  }

  ghost predicate StepSound(g: Glyphs, s: wstring, it: nat, column: nat, width: nat, p: Step)
    requires it <= |s| && width > 0
  {
    if p.Stop? then SoundAfter(g, s, it, column, width, p.r)
    else p.it <= |s| && Sound(g, s, it, column, width) == Sound(g, s, p.it, p.column, width)
  }

  lemma AlikeIsSound(g: Glyphs, s: wstring, it: nat, column: nat, width: nat, p: Step)
    requires it < |s| && column < width && Alike(p, WalkStep(g, s, it, column, width), it, width)
    requires p.Stop? && p.r.offset == it && !p.r.repeated ==> WalkStep(g, s, it, 0, width) == To(it + 1, 2)
    ensures StepSound(g, s, it, column, width, p)
  {
    SoundFromFull(g, s, it, width, width);
    if p.Stop? && it < p.r.offset <= |s| { SoundFromFull(g, s, p.r.offset, width, width); }
  }

  lemma ControlIsSound(g: Glyphs, s: wstring, it: nat, column: nat, width: nat)
    requires it < |s| && column < width && IsControl(s[it]) && !Blocks(s[it], width)
    ensures StepSound(g, s, it, column, width, ControlStep(s[it], it, column, width))
  {
    ControlAlike(s[it], it, column, width);
    AlikeIsSound(g, s, it, column, width, ControlStep(s[it], it, column, width));
  }

  lemma PlainIsSound(g: Glyphs, s: wstring, it: nat, column: nat, width: nat, text: wstring)
    requires it < |s| && column < width && !IsControl(s[it]) && text == s[it..ControlEnd(s, it)]
    ensures StepSound(g, s, it, column, width, PlainStep(g, text, it, column, width))
  {
    PlainAlike(g, text, it, column, width);
    AlikeIsSound(g, s, it, column, width, PlainStep(g, text, it, column, width));
  }

  lemma {:induction false} LineIsSound(g: Glyphs, s: wstring, it: nat, column: nat, width: nat)
    requires it <= |s| && column <= width && width > 0 && Flows(s, width)
    ensures SoundAfter(g, s, it, column, width, Line(g, s, it, column, width))
    decreases |s| - it
  {
    if it == |s| || column == width {
    } else {
      if IsControl(s[it]) {
        ControlIsSound(g, s, it, column, width);
      } else {
        PlainIsSound(g, s, it, column, width, s[it..ControlEnd(s, it)]);
      }
      var p := LineStep(g, s, it, column, width);
      if p.Go? {
        LineIsSound(g, s, p.it, p.column, width);
      }
    }
  }

  lemma SoundFromFull(g: Glyphs, s: wstring, beg: nat, column: nat, width: nat)
    requires beg <= |s| && 0 < width <= column
    ensures Sound(g, s, beg, column, width) == Sound(g, s, beg, 0, width)
  {}

  /** Any text, wide glyphs and control characters included, is laid out faithfully exactly if it is sound. */
  lemma {:induction false} TextIsFaithfulIff(g: Glyphs, s: wstring, beg: nat, rows: seq<Row>, width: nat)
    requires rows != [] && beg <= |s| && width > 0 && Flows(s, width)
    ensures Faithful(g, s, beg, rows, width) <==> Sound(g, s, beg, Last(rows).columns, width)
    decreases Left(s, beg, rows, width)
  {
    if beg == |s| {
    } else {
      LeftShrinks(g, s, beg, rows, width);
      if Last(rows).columns >= width { SoundFromFull(g, s, beg, Last(rows).columns, width); }
      var l := NextLaid(g, s, beg, rows, width);
      LineIsSound(g, s, beg, Last(Opened(rows, width)).columns, width);
      if !l.repeated && l.skipped == 0 {
        TextIsFaithfulIff(g, s, l.offset, Extended(Opened(rows, width), l), width);
      }
    }
  }

  // -- One attempt ------------------------------------------------------------------------------------------

  function EndOf(rows: seq<Row>): Point
    requires rows != []
  {
    Point(Last(rows).columns, |rows| - 1)
  }

  /** The rows after each of the three segments that the cursor and the start of the dirty part make. */
  datatype Segments = Segments(first: seq<Row>, second: seq<Row>, third: seq<Row>)

  lemma PartFlows(s: wstring, a: nat, b: nat, width: nat)
    requires a <= b <= |s| && Flows(s, width)
    ensures Flows(s[a..b], width)
  {}

  /** `a` and `b` are where the second and third segment begin. */
  function LayOutAll(g: Glyphs, buffer: wstring, a: nat, b: nat, x: nat, width: nat): (r: Segments)
    requires a <= b <= |buffer| && width > 0 && Flows(buffer, width)
    ensures r.first != [] && r.second != [] && r.third != []
  {
    PartFlows(buffer, 0, a, width);
    PartFlows(buffer, a, b, width);
    PartFlows(buffer, b, |buffer|, width);
    var first := LayOut(g, buffer[0..a], 0, [Row([], x)], width);
    var second := LayOut(g, buffer[a..b], 0, first, width);
    Segments(first, second, LayOut(g, buffer[b..|buffer|], 0, second, width))
  }

  function CursorRows(r: Segments, dirtyBeg: nat, cursor: nat): seq<Row> {
    if cursor <= dirtyBeg then r.first else r.second
  }

  function SegmentsOf(g: Glyphs, buffer: wstring, dirtyBeg: nat, cursor: nat, x: nat, width: nat): (r: Segments)
    requires cursor <= |buffer| && width > 0 && Flows(buffer, width)
    ensures r.first != [] && r.second != [] && r.third != []
  {
    LayOutAll(g, buffer, Min(dirtyBeg, cursor), Min(Max(dirtyBeg, cursor), |buffer|), x, width)
  }

  lemma SegmentsGrow(g: Glyphs, buffer: wstring, a: nat, b: nat, x: nat, width: nat)
    requires a <= b <= |buffer| && width > 0 && Flows(buffer, width)
    ensures var r := LayOutAll(g, buffer, a, b, x, width);
            && |r.first| <= |r.second| <= |r.third|
            && (a == b ==> r.second == r.first)
            && (a < b && Last(r.first).columns >= width ==> |r.first| < |r.second|)
            && (b < |buffer| && Last(r.second).columns >= width ==> |r.second| < |r.third|)
  {
    var r := LayOutAll(g, buffer, a, b, x, width);
    PartFlows(buffer, a, b, width);
    PartFlows(buffer, b, |buffer|, width);
    LayOutGrows(g, buffer[a..b], 0, r.first, width);
    LayOutGrows(g, buffer[b..|buffer|], 0, r.second, width);
    if a < b && Last(r.first).columns >= width {
      FullRowOpensNext(g, buffer[a..b], r.first, width);
    }
    if b < |buffer| && Last(r.second).columns >= width {
      FullRowOpensNext(g, buffer[b..|buffer|], r.second, width);
    }
  }

  /** The cursor's row exists, and if that one is full and text follows, so does the next. */
  lemma CursorRowIsReal(g: Glyphs, buffer: wstring, dirtyBeg: nat, cursor: nat, x: nat, width: nat)
    requires cursor <= |buffer| && width > 0 && Flows(buffer, width)
    ensures var r := SegmentsOf(g, buffer, dirtyBeg, cursor, x, width);
            var p := EndOf(CursorRows(r, dirtyBeg, cursor));
            p.y < |r.third| && (p.x >= width && cursor < |buffer| ==> p.y + 1 < |r.third|)
  {
    SegmentsGrow(g, buffer, Min(dirtyBeg, cursor), Min(Max(dirtyBeg, cursor), |buffer|), x, width);
  }

  // -- The window -------------------------------------------------------------------------------------------

  function PagerTop(was: int, cursorY: int, rowCount: int, height: int): int {
    var up := if was <= cursorY then was else cursorY;
    var down := if up >= cursorY - height + 1 then up else cursorY - height + 1;
    Clamp(down, 0, rowCount - if rowCount <= height then rowCount else height)
  }

  /** A window of the pager's height that lies within the rows and shows the cursor. */
  predicate Window(top: int, cursorY: int, rowCount: int, height: int) {
    var shown := if rowCount <= height then rowCount else height;
    0 <= top <= rowCount - shown && top <= cursorY < top + shown
  }

  /** The pager shows the cursor and scrolls no further than that takes. */
  lemma PagerScrollsLeast(was: int, cursorY: int, rowCount: int, height: int)
    requires 0 <= cursorY < rowCount && height >= 1
    ensures Window(PagerTop(was, cursorY, rowCount, height), cursorY, rowCount, height)
    ensures forall top :: Window(top, cursorY, rowCount, height) ==>
              var t := PagerTop(was, cursorY, rowCount, height); was <= t <= top || top <= t <= was
  {}

  // -- Redisplay --------------------------------------------------------------------------------------------

  /** The rows of one layout attempt, the cursor in them and where the text ends. */
  datatype Layout = Layout(rows: seq<Row>, cursor: Point, promptEnd: Point)

  function WithPopup(rows: seq<Row>, popup: seq<Row>, width: nat): (r: seq<Row>)
    requires rows != []
    ensures |r| == |rows| + |popup|
  {
    rows[..|rows| - 1] + [Row(Last(rows).text + [13, 10], width)] + popup
  }

  function Settle(rows: seq<Row>, cursor: Point, atEnd: bool, width: nat, popup: Popup): (r: Layout)
    requires rows != []
    ensures |r.rows| >= |rows|
  {
    match popup
    case Popup(more) =>
      var all := WithPopup(rows, more, width);
      Layout(all, EndOf(all), EndOf(rows))
    case NoPopup =>
      if cursor.x < width then Layout(rows, cursor, EndOf(rows))
      else Layout(if atEnd then rows + [Row([], 0)] else rows, Point(0, cursor.y + 1), EndOf(rows))
  }

  function LayoutOf(g: Glyphs, buffer: wstring, dirtyBeg: nat, cursor: nat, x: nat, width: nat, popup: Popup): Layout
    requires cursor <= |buffer| && width > 0 && Flows(buffer, width)
  {
    var r := SegmentsOf(g, buffer, dirtyBeg, cursor, x, width);
    Settle(r.third, EndOf(CursorRows(r, dirtyBeg, cursor)), cursor == |buffer|, width, popup)
  }

  lemma LayoutHasCursor(g: Glyphs, buffer: wstring, dirtyBeg: nat, cursor: nat, x: nat, width: nat, popup: Popup)
    requires cursor <= |buffer| && width > 0 && Flows(buffer, width)
    ensures var l := LayoutOf(g, buffer, dirtyBeg, cursor, x, width, popup);
            l.cursor.y < |l.rows| && (popup.NoPopup? ==> l.cursor.x < width)
  {
    CursorRowIsReal(g, buffer, dirtyBeg, cursor, x, width);
  }

  /** Popup rows stand below the text, whose last row they end; the cursor is behind the last of them, and the text
      ends where it would without them. */
  lemma PopupStandsBelow(g: Glyphs, buffer: wstring, dirtyBeg: nat, cursor: nat, x: nat, width: nat, more: seq<Row>)
    requires cursor <= |buffer| && width > 0 && Flows(buffer, width) && more != []
    ensures var l := LayoutOf(g, buffer, dirtyBeg, cursor, x, width, Popup(more));
            var n := |SegmentsOf(g, buffer, dirtyBeg, cursor, x, width).third|;
            && |l.rows| == n + |more| && l.rows[n..] == more
            && l.cursor == Point(Last(more).columns, n + |more| - 1)
            && l.promptEnd == LayoutOf(g, buffer, dirtyBeg, cursor, x, width, NoPopup).promptEnd
  {}

  method LayoutAttempt(g: Glyphs, buffer: wstring, dirtyBeg: nat, cursor: nat, x: nat, width: nat, popup: Popup)
    returns (l: Layout)
    requires cursor <= |buffer| && width > 0 && Flows(buffer, width)
    ensures l == LayoutOf(g, buffer, dirtyBeg, cursor, x, width, popup)
  {
    var rows, pos := LayoutSegments(g, buffer, dirtyBeg, cursor, x, width);
    l := Finish(rows, pos, cursor == |buffer|, width, popup);
  }

  method Finish(rows0: seq<Row>, pos0: Point, atEnd: bool, width: nat, popup: Popup) returns (l: Layout)
    requires rows0 != []
    ensures l == Settle(rows0, pos0, atEnd, width, popup)
  {
    var rows, pos := rows0, pos0;
    var promptEnd := Point(rows[|rows| - 1].columns, |rows| - 1);
    match popup {
      case Popup(more) =>
        var last := rows[|rows| - 1];
        rows := rows[..|rows| - 1] + [Row(last.text + [13, 10], width)] + more;
        pos := Point(rows[|rows| - 1].columns, |rows| - 1);
      case NoPopup =>
        if pos.x >= width {
          pos := Point(0, pos.y + 1);
          if atEnd {
            rows := rows + [Row([], 0)];
          }
        }
    }
    l := Layout(rows, pos, promptEnd);
  }

  method LayoutSegments(g: Glyphs, buffer: wstring, dirtyBeg: nat, cursor: nat, x: nat, width: nat)
    returns (rows: seq<Row>, pos: Point)
    requires cursor <= |buffer| && width > 0 && Flows(buffer, width)
    ensures var r := SegmentsOf(g, buffer, dirtyBeg, cursor, x, width);
            rows == r.third && pos == EndOf(CursorRows(r, dirtyBeg, cursor))
  {
    var a, b := Min(dirtyBeg, cursor), Min(Max(dirtyBeg, cursor), |buffer|);
    PartFlows(buffer, 0, a, width);
    PartFlows(buffer, a, b, width);
    PartFlows(buffer, b, |buffer|, width);
    rows := [Row([], x)];
    pos := Point(x, 0);
    if a > 0 {
      rows := LayoutSegment(g, buffer[0..a], rows, width);
      if a == cursor {
        pos := EndOf(rows);
      }
    }
    if a < b {
      rows := LayoutSegment(g, buffer[a..b], rows, width);
      if Max(dirtyBeg, cursor) == cursor {
        pos := EndOf(rows);
      }
    }
    if b < |buffer| {
      rows := LayoutSegment(g, buffer[b..|buffer|], rows, width);
    }
  }

  class Pager {
    var origin: Point
    var promptEnd: Point
    var contentTop: nat
    var pagerHeight: nat

    /** Lays the buffer out again, from the left edge if it outgrows the viewport. */
    method LayoutFitting(g: Glyphs, width: nat, height: nat, buffer: wstring, dirtyBeg0: nat, cursor: nat, popup: Popup)
      returns (l: Layout, final: Point, retries: nat)
      requires width > 0 && height > 0 && cursor <= |buffer| && Flows(buffer, width)
      ensures var l0 := LayoutOf(g, buffer, dirtyBeg0, cursor, origin.x, width, popup);
              if |l0.rows| > height && origin.x != 0
              then retries == 1 && final == Point(0, 0) && l == LayoutOf(g, buffer, 0, cursor, 0, width, popup)
              else retries == 0 && final == origin && l == l0
    {
      var x, dirtyBeg := origin.x, dirtyBeg0;
      final, retries := origin, 0;
      l := LayoutAttempt(g, buffer, dirtyBeg, cursor, x, width, popup);
      while |l.rows| > height && final.x != 0
        invariant retries == 0 ==>
                    final == origin && l == LayoutOf(g, buffer, dirtyBeg0, cursor, origin.x, width, popup)
        invariant retries > 0 ==>
                    && retries == 1 && final == Point(0, 0) && l == LayoutOf(g, buffer, 0, cursor, 0, width, popup)
                    && |LayoutOf(g, buffer, dirtyBeg0, cursor, origin.x, width, popup).rows| > height && origin.x != 0
        decreases final.x
      {
        dirtyBeg, x, final, retries := 0, 0, Point(0, 0), retries + 1;
        l := LayoutAttempt(g, buffer, dirtyBeg, cursor, x, width, popup);
      }
    }

    /** The cursor ends up inside the viewport, on one of the rows the pager shows. */
    method Redisplay(g: Glyphs, width: nat, height: nat, buffer: wstring, dirtyBeg: nat, cursor: nat, popup: Popup)
      returns (l: Layout, cursorFinal: Point, retries: nat)
      requires width > 0 && height > 0 && cursor <= |buffer| && Flows(buffer, width)
      modifies this
      ensures promptEnd == l.promptEnd && pagerHeight == Min(|l.rows|, height)
      ensures var l0 := LayoutOf(g, buffer, dirtyBeg, cursor, old(origin).x, width, popup);
              if |l0.rows| > height && old(origin).x != 0
              then retries == 1 && origin == Point(0, 0) && l == LayoutOf(g, buffer, 0, cursor, 0, width, popup)
              else retries == 0 && origin == Point(old(origin).x, Min(old(origin).y, height - pagerHeight)) && l == l0
      ensures contentTop == PagerTop(old(contentTop), l.cursor.y, |l.rows|, height)
      ensures Window(contentTop, l.cursor.y, |l.rows|, height)
      ensures cursorFinal.x == l.cursor.x && (popup.NoPopup? ==> cursorFinal.x < width)
      ensures cursorFinal.y - origin.y == l.cursor.y - contentTop && origin.y <= cursorFinal.y < origin.y + pagerHeight
    {
      var final;
      l, final, retries := LayoutFitting(g, width, height, buffer, dirtyBeg, cursor, popup);
      LayoutHasCursor(g, buffer, dirtyBeg, cursor, origin.x, width, popup);
      LayoutHasCursor(g, buffer, 0, cursor, 0, width, popup);
      Show(l, final, width, height);
      cursorFinal := Point(l.cursor.x, l.cursor.y + origin.y - contentTop);
    }

    method Show(l: Layout, final: Point, width: nat, height: nat)
      requires l.cursor.y < |l.rows| && height > 0
      modifies this
      ensures promptEnd == l.promptEnd && pagerHeight == Min(|l.rows|, height)
      ensures origin == Point(final.x, Min(final.y, height - pagerHeight))
      ensures contentTop == PagerTop(old(contentTop), l.cursor.y, |l.rows|, height)
      ensures Window(contentTop, l.cursor.y, |l.rows|, height)
    {
      var rowCount := |l.rows|;
      var shown := Min(rowCount, height);
      PagerScrollsLeast(contentTop, l.cursor.y, rowCount, height);
      var top: int := contentTop;
      top := if top <= l.cursor.y then top else l.cursor.y;
      top := if top >= l.cursor.y - height + 1 then top else l.cursor.y - height + 1;
      top := Clamp(top, 0, rowCount - shown);
      origin := Point(final.x, Min(final.y, height - shown));
      promptEnd, contentTop, pagerHeight := l.promptEnd, top, shown;
    }
  }
}
