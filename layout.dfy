/**
 * The timeline canvas: a `Calendar` places one row after another on a
 * paginated drawing surface, breaking the page (and redrawing the time axis)
 * when the cursor has passed the bottom margin, alternating row shading, and
 * collecting dependency lines per page so that they are merged before they
 * are drawn dashed.
 *
 * The drawing surface is abstract: its cursor, its page count and a ghost
 * log of the commands drawn on it. Geometry inside a row (rectangles, dots,
 * brackets, text sizes) is not modelled; a command records the row it is
 * drawn on (the y of its top) and what it shows.
 */
module Layout {
  import opened Wrappers
  import opened Dates
  import opened Segments
  import opened Resolver

  const RowHeight: real := 6.0
  const TMargin: real := 3.0
  const RMargin: real := 15.0
  const BMargin: real := 16.0
  /** The height the time axis takes: a margin above and below a 6-unit tick. */
  const AxisHeight: real := TMargin * 2.0 + 6.0

  /** The caption under one tick of the time axis. */
  datatype AxisLabel = AxisLabel(date: Date, number: int, year: bool)

  datatype LabelStyle = Regular | Bold | Italic

  datatype MultiKind = Breaks | Phases

  /** One resolved interval of a breaks or phases row. */
  datatype Item = Item(name: string, at: real, length: real)

  /** What the surface shows, row by row. */
  datatype Command =
    | NewPage
    | Heading(text: string)
    | Axis(top: real, labels: seq<AxisLabel>)
    | Shade(top: real)
    | Label(top: real, text: string, style: LabelStyle)
    | Swatch(top: real, fill: Color)
    | Block(top: real, at: real, length: real, fill: Color)
    | KeyText(top: real, at: real, text: string, grey: int)
    | Dot(top: real, at: real)
    | Interval(top: real, kind: MultiKind, item: Item)
    /** The dependency lines of one page, each drawn dashed, in this order. */
    | Dashed(segs: seq<Segment>)
    /** The footer line at the foot of the last page. */
    | Footer(value: OptionValue)

  /** The calendar operations the document assembler asks for, in order. */
  datatype Call =
    | Stripe(on: bool)
    | GapRow(caption: string)
    | KeyRow(caption: string, color: Option<Color>)
    | WorkRow(caption: string, at: real, length: real, color: Option<Color>, key: Option<string>)
    | MilestoneRow(caption: string, at: real)
    | MultiRow(caption: string, kind: MultiKind, items: seq<Item>)
    | DepLine(frm: real, to: real, up: int)

  function Grey(level: int): Color {
    Color(level, level, level)
  }

  // ---------------------------------------------------------------------
  // The time axis

  /** Whether tick `i`, dated `d`, also shows the year: the first tick, and a tick early in January. */
  predicate YearShown(showYear: bool, d: Date, i: int) {
    showYear && ((d.month == 1 && d.day < 7) || i == 0)
  }

  /** The caption of tick `i`: the `i`-th unit start, the tick number (from 1 when one-based), the year flag. */
  function LabelAt(u: Unit, first: Date, showYear: bool, oneBased: bool, i: nat): AxisLabel {
    var d := UnitStart(u, first, i);
    AxisLabel(d, if oneBased then i + 1 else i, YearShown(showYear, d, i))
  }

  function LabelsUpTo(u: Unit, first: Date, showYear: bool, oneBased: bool, k: nat): (r: seq<AxisLabel>)
    ensures |r| == k
  {
    if k == 0 then [] else LabelsUpTo(u, first, showYear, oneBased, k - 1) + [LabelAt(u, first, showYear, oneBased, k - 1)]
  }

  /** Label `i` of the first `k` is the label of tick `i`. */
  lemma {:induction false} LabelsUpToAt(u: Unit, first: Date, showYear: bool, oneBased: bool, k: nat, i: nat)
    requires i < k
    ensures LabelsUpTo(u, first, showYear, oneBased, k)[i] == LabelAt(u, first, showYear, oneBased, i)
  {
    if i < k - 1 {
      LabelsUpToAt(u, first, showYear, oneBased, k - 1, i);
    }
  }

  /**
   * The axis agrees with the resolver: the date under tick `i` and the
   * number under it both resolve to grid position `i`, for a calendar set up
   * from the project's unit, start and one-based option.
   */
  lemma AxisLabelsResolveToTick(p: Project, showYear: bool, i: nat, fuel: nat)
    ensures var l := LabelAt(p.unit, Normalize(p.unit, p.start), showYear, Truthy(GetOption("one_based", p, Null)), i);
      FindAt(Day(l.date), p, fuel) == Some(i as real) && FindAt(Num(l.number as real), p, fuel) == Some(i as real)
  {
    DateOfUnitStart(p, i, fuel);
  }

  /** Every axis date is the start of a unit; consecutive ticks are one unit apart. */
  lemma AxisDatesAreUnitStarts(u: Unit, first: Date, showYear: bool, oneBased: bool, i: nat)
    requires Normalize(u, first) == first
    ensures var d := LabelAt(u, first, showYear, oneBased, i).date;
      Normalize(u, d) == d && Dur(u, first, d) == i as real &&
      Next(u, d) == LabelAt(u, first, showYear, oneBased, i + 1).date
  {
    DurOfUnitStart(u, first, i);
    NextUnitStart(u, first, i);
  }

  /**
   * On a weekly axis the first Monday of 2019 is 7 January, which is not
   * "early in January", and the Monday before it is in December 2018: no tick
   * after the first one shows the year 2019.
   */
  lemma NoYearOnSeventhOfJanuary(showYear: bool, i: int)
    requires i > 0
    ensures NextWeek(Ymd(2018, 12, 31)) == Ymd(2019, 1, 7)
    ensures !YearShown(showYear, Ymd(2019, 1, 7), i)
  {
    var d: Date := Ymd(2018, 12, 31);
    LastDayOf2018IsMonday();
    MondayOfMonday(d);
    NextWeekStep(d);
    WeekAfterLastDayOf2018();
  }

  lemma LastDayOf2018IsMonday()
    ensures DayOfWeek(Ymd(2018, 12, 31)) == 1
  {
    assert DaysBeforeYear(2018) == 736694;
  }

  lemma WeekAfterLastDayOf2018()
    ensures AddDays(Ymd(2018, 12, 31), 7) == Ymd(2019, 1, 7)
  {
    var jan1: Date := Ymd(2019, 1, 1);
    assert NextDay(Ymd(2018, 12, 31)) == jan1;
    AddDaysWithinMonth(jan1, 6);
  }

  // ---------------------------------------------------------------------
  // Dependency lines

  /** `up` as drawn: at most half a row short of the rows drawn on this page. */
  function ClampUp(up: int, nextRow: int): (r: real)
    ensures r < nextRow as real
    ensures up < nextRow ==> r == up as real
    ensures up >= nextRow ==> r == nextRow as real - 0.5
  {
    if up >= nextRow then nextRow as real - 0.5 else up as real
  }

  /**
   * The segments one dependency adds for the row whose top is `rowTop`:
   * from grid position `frm` to `to` along the row's centre line when `to`
   * is later, then always from the row's centre up `up` rows at `frm`.
   * `left` is the page x of grid position 0.
   */
  function DepSegments(rowTop: real, left: real, unitWidth: real, frm: real, to: real, up: real): seq<Segment> {
    var centre := rowTop + RowHeight / 2.0;
    var x := left + frm * unitWidth;
    (if to > frm then [Segment(Point(x, centre), Point(left + to * unitWidth, centre))] else []) +
    [Segment(Point(x, centre - RowHeight * up), Point(x, centre))]
  }

  /**
   * A dependency adds a horizontal segment exactly when its target is later,
   * and always a vertical one at `frm` that ends on the row's centre line.
   */
  lemma DepSegmentsShape(rowTop: real, left: real, unitWidth: real, frm: real, to: real, up: real)
    ensures var segs := DepSegments(rowTop, left, unitWidth, frm, to, up);
      |segs| == (if to > frm then 2 else 1) &&
      (to > frm ==> Inline(Y, segs[0], segs[0]) && (unitWidth > 0.0 ==> Ordered(segs[0]))) &&
      Inline(X, segs[|segs| - 1], segs[|segs| - 1]) &&
      segs[|segs| - 1].start.x == left + frm * unitWidth &&
      segs[|segs| - 1].end.y == rowTop + RowHeight / 2.0 &&
      (up >= 0.0 ==> Ordered(segs[|segs| - 1]))
  {
    var segs := DepSegments(rowTop, left, unitWidth, frm, to, up);
    if to > frm {
      assert segs[0].end.x - segs[0].start.x == (to - frm) * unitWidth;
    }
  }

  /**
   * On a page whose rows are stacked from `pageTop`, the vertical segment of
   * a dependency drawn right after row number `nextRow` never reaches above
   * the top of the page's first row.
   */
  lemma DepStaysBelowPageTop(pageTop: real, left: real, unitWidth: real, frm: real, to: real, up: int, nextRow: int)
    requires nextRow >= 1
    ensures var segs := DepSegments(pageTop + RowHeight * (nextRow - 1) as real, left, unitWidth, frm, to, ClampUp(up, nextRow));
      segs[|segs| - 1].start.y >= pageTop
  {
    var c := ClampUp(up, nextRow);
    if up < nextRow {
      assert c <= (nextRow - 1) as real;
    }
  }

  /** Drawing the same dependency twice gives two vertical segments that merge into one. */
  lemma RepeatedDepMerges(rowTop: real, left: real, unitWidth: real, frm: real, to: real, up: int, nextRow: int)
    requires up >= 0 && nextRow >= 1
    ensures var v := DepSegments(rowTop, left, unitWidth, frm, to, ClampUp(up, nextRow));
      MaybeMergeBoth(v[|v| - 1], v[|v| - 1]) == Some(v[|v| - 1])
  {
    var v := DepSegments(rowTop, left, unitWidth, frm, to, ClampUp(up, nextRow));
    DuplicateMergesToItself(v[|v| - 1]);
  }

  /**
   * A dependency that only adds its vertical segment (its target is not
   * later), drawn twice on one page, is flushed to exactly one line.
   */
  lemma RepeatedDepFlushesToOne(rowTop: real, left: real, unitWidth: real, frm: real, to: real, up: int, nextRow: int, out: seq<Segment>)
    requires up >= 0 && nextRow >= 1 && to <= frm
    requires var v := DepSegments(rowTop, left, unitWidth, frm, to, ClampUp(up, nextRow));
      Flush(v + v, out)
    ensures out == DepSegments(rowTop, left, unitWidth, frm, to, ClampUp(up, nextRow))
  {
    var v := DepSegments(rowTop, left, unitWidth, frm, to, ClampUp(up, nextRow));
    DepSegmentsShape(rowTop, left, unitWidth, frm, to, ClampUp(up, nextRow));
    assert v + v == [v[0], v[0]];
    DuplicateFlushesToOne(v[0], out);
  }

  /**
   * A dependency on a later row (negative `up`) has a vertical segment that
   * runs upwards from below the row's centre, so a copy of it is not merged
   * with it and both copies stay.
   */
  lemma LaterRowDepNotMerged(rowTop: real, left: real, unitWidth: real, frm: real, to: real, up: int, nextRow: int)
    requires up < 0 && nextRow >= 1
    ensures var v := DepSegments(rowTop, left, unitWidth, frm, to, ClampUp(up, nextRow));
      v[|v| - 1].start.y > v[|v| - 1].end.y && MaybeMergeBoth(v[|v| - 1], v[|v| - 1]).None?
  {
  }

  /** The grey of key text in a work block: dark on a light fill, light otherwise. */
  function KeyTextGrey(color: Option<Color>): (grey: int)
    ensures grey == 100 || grey == 240
  {
    if color.Some? && (color.value.r + color.value.g + color.value.b) / 3 > 200 then 100 else 240
  }

  /**
   * With integer division the mean channel exceeds 200 exactly when the
   * channels add up to at least 603.
   */
  lemma KeyTextDarkOnLightFill(color: Option<Color>)
    ensures KeyTextGrey(color) == 100 <==> color.Some? && color.value.r + color.value.g + color.value.b >= 603
  {
    if color.Some? {
      var sum := color.value.r + color.value.g + color.value.b;
      assert sum / 3 > 200 <==> sum >= 603;
    }
  }

  // ---------------------------------------------------------------------
  // The drawing surface

  /** The page cursor, the page count, and what has been drawn. */
  class Surface {
    const w: real
    const h: real
    const lMargin: real
    const tMargin: real
    /** The width of a text in the font of key text inside work blocks. */
    const keyTextWidth: string -> real
    var x: real
    var y: real
    var pages: nat
    ghost var log: seq<Command>

    constructor (w: real, h: real, lMargin: real, tMargin: real, keyTextWidth: string -> real)
      ensures this.w == w && this.h == h && this.lMargin == lMargin && this.tMargin == tMargin
      ensures this.keyTextWidth == keyTextWidth
      ensures x == lMargin && y == tMargin && pages == 0 && log == []
    {
      this.w := w;
      this.h := h;
      this.lMargin := lMargin;
      this.tMargin := tMargin;
      this.keyTextWidth := keyTextWidth;
      x := lMargin;
      y := tMargin;
      pages := 0;
      log := [];
    }

    method AddPage()
      modifies this
      ensures x == lMargin && y == tMargin && pages == old(pages) + 1 && log == old(log) + [NewPage]
    {
      x, y := lMargin, tMargin;
      pages := pages + 1;
      log := log + [NewPage];
    }

    method SetXY(nx: real, ny: real)
      modifies this
      ensures x == nx && y == ny && pages == old(pages) && log == old(log)
    {
      x, y := nx, ny;
    }

    /** Moving to a new y also returns to the left margin. */
    method SetY(ny: real)
      modifies this
      ensures x == lMargin && y == ny && pages == old(pages) && log == old(log)
    {
      x, y := lMargin, ny;
    }

    /** A text cell `cw` wide and `ch` high; the cursor moves right, or down when `below`. */
    method Cell(cw: real, ch: real, below: bool)
      modifies this
      ensures below ==> x == old(x) && y == old(y) + ch
      ensures !below ==> x == old(x) + cw && y == old(y)
      ensures pages == old(pages) && log == old(log)
    {
      if below {
        y := y + ch;
      } else {
        x := x + cw;
      }
    }
  }

  /** The state a row operation starts from and leaves behind. */
  datatype Snapshot = Snapshot(
    x: real, y: real, pages: nat, log: seq<Command>,
    highlight: bool, nextRow: int, depSegments: seq<Segment>,
    flushed: seq<Segment>, pageTop: real, calls: seq<Call>)

  // ---------------------------------------------------------------------
  // The calendar

  class Calendar {
    const pdf: Surface
    const unit: Unit
    const firstDate: Date
    const showYear: bool
    const nunit: int
    const labelWidth: real
    const oneBased: bool
    const unitWidth: real
    var highlight: bool
    var nextRow: int
    var depSegments: seq<Segment>
    /** The segments drawn by the latest flush. */
    ghost var flushed: seq<Segment>
    /** The top of the first row of the current page. */
    ghost var pageTop: real
    /** The operations asked of the calendar so far. */
    ghost var calls: seq<Call>

    /**
     * A calendar over `length` units from the unit containing `firstDate`;
     * each unit is as wide as the page left of the caption column and the
     * right margin allows.
     */
    constructor (pdf: Surface, firstDate: Date, unit: Unit, length: int, labelWidth: real, showYear: bool, oneBased: bool)
      requires length != 0
      ensures this.pdf == pdf && this.unit == unit && this.firstDate == Normalize(unit, firstDate)
      ensures Normalize(unit, this.firstDate) == this.firstDate
      ensures this.showYear == showYear && this.nunit == length && this.labelWidth == labelWidth
      ensures this.oneBased == oneBased
      ensures unitWidth == (pdf.w - labelWidth - pdf.x - RMargin) / length as real
      ensures !highlight && nextRow == 0 && depSegments == [] && calls == []
    {
      this.pdf := pdf;
      this.unit := unit;
      this.firstDate := Normalize(unit, firstDate);
      this.showYear := showYear;
      this.nunit := length;
      this.labelWidth := labelWidth;
      this.oneBased := oneBased;
      this.unitWidth := (pdf.w - labelWidth - pdf.x - RMargin) / length as real;
      highlight := false;
      nextRow := 0;
      depSegments := [];
      flushed := [];
      pageTop := pdf.y;
      calls := [];
      new;
      NormalizeIdempotent(unit, firstDate);
    }

    /**
     * The axis fits on a fresh page (otherwise a page break would recur
     * forever), and the first date is the start of a unit.
     */
    predicate Valid() {
      pdf.tMargin + AxisHeight <= pdf.h - BMargin && Normalize(unit, firstDate) == firstDate
    }

    /** The cursor is below the last row that fits on the page. */
    predicate Overflow()
      reads pdf
    {
      pdf.y > pdf.h - BMargin
    }

    function Rank(): nat
      reads pdf
    {
      if Overflow() then 1 else 0
    }

    /** Where the next row starts: here, or below the axis of a new page. */
    function RowOrigin(): Point
      reads pdf
    {
      if Overflow() then Point(pdf.lMargin, pdf.tMargin + AxisHeight) else Point(pdf.x, pdf.y)
    }

    /** The rows of this page are stacked one row height apart from its top. */
    ghost predicate Stacked()
      reads this, pdf
    {
      pdf.y == pageTop + RowHeight * nextRow as real
    }

    /** The rows are counted and stacked, and no pending dependency line starts above the page's first row. */
    ghost predicate InPlace()
      reads this, pdf
    {
      Placed(Snap())
    }

    /** `InPlace`, of a snapshot of the calendar. */
    ghost predicate Placed(s: Snapshot) {
      s.nextRow >= 0 && s.y == s.pageTop + RowHeight * s.nextRow as real &&
      forall k :: 0 <= k < |s.depSegments| ==> s.depSegments[k].start.y >= s.pageTop
    }

    /**
     * What every drawn row does, whatever it draws: it only appends to the
     * log, counts itself on its page, keeps an empty list of pending lines
     * empty, moves one row down when no page break is due, and keeps the
     * page's rows and lines in place (after a break, on the new page).
     */
    ghost predicate RowAdvanced(s0: Snapshot, s1: Snapshot) {
      s0.log <= s1.log && s1.pages >= s0.pages &&
      (s0.depSegments == [] ==> s1.depSegments == []) &&
      (s0.y <= pdf.h - BMargin ==> s1.pages == s0.pages && s1.y == s0.y + RowHeight) &&
      (Placed(s0) || s0.y > pdf.h - BMargin ==> Placed(s1) && s1.nextRow >= 1)
    }

    function Labels(): seq<AxisLabel> {
      if nunit <= 0 then [] else LabelsUpTo(unit, firstDate, showYear, oneBased, nunit)
    }

    /** What a page break draws: the flushed dependency lines, a new page, its axis. */
    ghost function BreakCommands(brk: bool, drawn: seq<Segment>): seq<Command> {
      if brk then [Dashed(drawn), NewPage, Axis(pdf.tMargin, Labels())] else []
    }

    ghost function Snap(): Snapshot
      reads this, pdf
    {
      Snapshot(pdf.x, pdf.y, pdf.pages, pdf.log, highlight, nextRow, depSegments, flushed, pageTop, calls)
    }

    /**
     * One row was drawn from state `s0` to state `s1`: a page break first if
     * the cursor had passed the bottom margin, then the shading if this row
     * was due for it, then `content`; the shading alternates, the row is
     * counted, and the cursor is one row lower.
     */
    ghost predicate RowDrawn(s0: Snapshot, s1: Snapshot, call: Call, content: seq<Command>) {
      var brk := s0.y > pdf.h - BMargin;
      var top := if brk then pdf.tMargin + AxisHeight else s0.y;
      s1.highlight == !s0.highlight &&
      s1.nextRow == (if brk then 0 else s0.nextRow) + 1 &&
      s1.depSegments == (if brk then [] else s0.depSegments) &&
      (brk ==> Flush(s0.depSegments, s1.flushed) && s1.pageTop == top) &&
      (!brk ==> s1.flushed == s0.flushed && s1.pageTop == s0.pageTop) &&
      s1.pages == s0.pages + (if brk then 1 else 0) &&
      s1.log == s0.log + BreakCommands(brk, s1.flushed) + (if s0.highlight then [Shade(top)] else []) + content &&
      s1.y == top + RowHeight &&
      s1.calls == s0.calls + [call]
    }

    /** A drawn row keeps the page's rows stacked, and starts a new stack after a page break. */
    lemma RowKeepsStack(s0: Snapshot, s1: Snapshot, call: Call, content: seq<Command>)
      requires RowDrawn(s0, s1, call, content)
      requires s0.y == s0.pageTop + RowHeight * s0.nextRow as real || s0.y > pdf.h - BMargin
      ensures s1.y == s1.pageTop + RowHeight * s1.nextRow as real
    {
    }

    /** Every drawn row has advanced. */
    lemma RowAdvances(s0: Snapshot, s1: Snapshot, call: Call, content: seq<Command>)
      requires RowDrawn(s0, s1, call, content)
      ensures RowAdvanced(s0, s1)
    {
      RowLogGrows(s0, s1, call, content);
      RowPlacement(s0, s1, call, content);
    }

    /** A drawn row only appends to the page log and adds no page or one. */
    lemma RowLogGrows(s0: Snapshot, s1: Snapshot, call: Call, content: seq<Command>)
      requires RowDrawn(s0, s1, call, content)
      ensures s0.log <= s1.log && s1.pages >= s0.pages
    {
      var brk := s0.y > pdf.h - BMargin;
      var top := if brk then pdf.tMargin + AxisHeight else s0.y;
      var added := BreakCommands(brk, s1.flushed) + (if s0.highlight then [Shade(top)] else []) + content;
      assert s1.log == s0.log + added;
      AppendExtends(s0.log, added);
    }

    static lemma AppendExtends(a: seq<Command>, b: seq<Command>)
      ensures a <= a + b
    {
    }

    /** A drawn row keeps an empty pending list empty, steps one row down without a break, and keeps the rows placed. */
    lemma RowPlacement(s0: Snapshot, s1: Snapshot, call: Call, content: seq<Command>)
      requires RowDrawn(s0, s1, call, content)
      ensures s0.depSegments == [] ==> s1.depSegments == []
      ensures s0.y <= pdf.h - BMargin ==> s1.pages == s0.pages && s1.y == s0.y + RowHeight
      ensures Placed(s0) || s0.y > pdf.h - BMargin ==> Placed(s1) && s1.nextRow >= 1
    {
      if Placed(s0) || s0.y > pdf.h - BMargin {
        RowKeepsStack(s0, s1, call, content);
      }
    }

    /**
     * `_new_row`: the start of the next row. Past the bottom margin it first
     * flushes the page's dependency lines, forgets them, restarts the row
     * count, adds a page and draws its axis.
     */
    method NewRow() returns (p: Point)
      requires Valid()
      modifies this, pdf
      ensures p == old(RowOrigin()) && p == Point(pdf.x, pdf.y) && !Overflow()
      ensures highlight == old(highlight) && calls == old(calls)
      ensures depSegments == (if old(Overflow()) then [] else old(depSegments))
      ensures nextRow == (if old(Overflow()) then 0 else old(nextRow))
      ensures pdf.pages == old(pdf.pages) + (if old(Overflow()) then 1 else 0)
      ensures old(Overflow()) ==> Flush(old(depSegments), flushed) && pageTop == p.y
      ensures !old(Overflow()) ==> flushed == old(flushed) && pageTop == old(pageTop)
      ensures pdf.log == old(pdf.log) + BreakCommands(old(Overflow()), flushed)
      decreases Rank(), 0
    {
      p := Point(pdf.x, pdf.y);
      if p.y > pdf.h - BMargin {
        ReallyDrawDeps();
        depSegments := [];
        nextRow := 0;
        pdf.AddPage();
        DrawTimeAxis();
        p := NewRow();
      }
    }

    /**
     * `draw_time_axis`: one tick per unit and one more at the end; under
     * each but the last, the date of that unit's start, its number and,
     * where due, the year.
     */
    method DrawTimeAxis()
      requires Valid()
      modifies this, pdf
      ensures pdf.x == old(RowOrigin()).x && pdf.y == old(RowOrigin()).y + AxisHeight && pageTop == pdf.y
      ensures highlight == old(highlight) && calls == old(calls)
      ensures depSegments == (if old(Overflow()) then [] else old(depSegments))
      ensures nextRow == (if old(Overflow()) then 0 else old(nextRow))
      ensures pdf.pages == old(pdf.pages) + (if old(Overflow()) then 1 else 0)
      ensures old(Overflow()) ==> Flush(old(depSegments), flushed)
      ensures !old(Overflow()) ==> flushed == old(flushed)
      ensures pdf.log == old(pdf.log) + BreakCommands(old(Overflow()), flushed) + [Axis(old(RowOrigin()).y, Labels())]
      ensures old(Overflow()) || (old(nextRow) == 0 && old(depSegments) == []) ==> InPlace()
      decreases Rank(), 1
    {
      var start := NewRow();
      var labels := TickLabels();
      pdf.log := pdf.log + [Axis(start.y, labels)];
      pdf.SetXY(start.x, start.y + AxisHeight);
      pageTop := pdf.y;
    }

    /**
     * The labels `draw_time_axis` writes, walking from the first date one
     * unit at a time: tick `i` shows the start of the `i`-th unit.
     */
    method TickLabels() returns (labels: seq<AxisLabel>)
      requires Normalize(unit, firstDate) == firstDate
      ensures labels == Labels()
      ensures forall i :: 0 <= i < |labels| ==> Normalize(unit, labels[i].date) == labels[i].date
    {
      labels := [];
      var day := firstDate;
      var i := 0;
      while i < nunit
        invariant i == 0 || 0 < i <= nunit
        invariant day == UnitStart(unit, firstDate, i)
        invariant labels == LabelsUpTo(unit, firstDate, showYear, oneBased, i)
      {
        var tick := AxisLabel(day, if oneBased then i + 1 else i, YearShown(showYear, day, i));
        labels := labels + [tick];
        NextUnitStart(unit, firstDate, i);
        day := Next(unit, day);
        i := i + 1;
      }
      assert nunit > 0 ==> i == nunit;
      forall k | 0 <= k < |labels|
        ensures Normalize(unit, labels[k].date) == labels[k].date
      {
        LabelsUpToAt(unit, firstDate, showYear, oneBased, i, k);
        DurOfUnitStart(unit, firstDate, k);
      }
    }

    /** `finish`: flush the remaining dependency lines and forget them. */
    method Finish()
      modifies this, pdf
      ensures Flush(old(depSegments), flushed) && depSegments == []
      ensures pdf.log == old(pdf.log) + [Dashed(flushed)]
      ensures pdf.x == old(pdf.x) && pdf.y == old(pdf.y) && pdf.pages == old(pdf.pages)
      ensures highlight == old(highlight) && nextRow == old(nextRow) && pageTop == old(pageTop) && calls == old(calls)
    {
      ReallyDrawDeps();
      depSegments := [];
    }

    /** `next_highlight`: whether the next row is shaded; alternation resumes after it. */
    method NextHighlight(val: bool)
      modifies this
      ensures highlight == val && calls == old(calls) + [Stripe(val)]
      ensures nextRow == old(nextRow) && depSegments == old(depSegments)
      ensures flushed == old(flushed) && pageTop == old(pageTop)
    {
      highlight := val;
      calls := calls + [Stripe(val)];
    }

    /** `_draw_highlight`: shade this row if it is due, flip the shading, count the row. */
    method DrawHighlight()
      requires Valid() && !Overflow()
      modifies this, pdf
      ensures highlight == !old(highlight) && nextRow == old(nextRow) + 1
      ensures pdf.log == old(pdf.log) + (if old(highlight) then [Shade(pdf.y)] else [])
      ensures pdf.x == old(pdf.x) && pdf.y == old(pdf.y) && pdf.pages == old(pdf.pages)
      ensures depSegments == old(depSegments) && flushed == old(flushed) && pageTop == old(pageTop)
      ensures calls == old(calls)
    {
      if highlight {
        var start := NewRow();
        pdf.log := pdf.log + [Shade(start.y)];
      }
      highlight := !highlight;
      nextRow := nextRow + 1;
    }

    /**
     * The common start of every row, from state `s0` to `s1`: the page break
     * if one was due, then the shading; the row's top is `top`.
     */
    ghost predicate RowBegun(s0: Snapshot, s1: Snapshot, top: real) {
      var brk := s0.y > pdf.h - BMargin;
      top == (if brk then pdf.tMargin + AxisHeight else s0.y) &&
      s1.highlight == !s0.highlight &&
      s1.nextRow == (if brk then 0 else s0.nextRow) + 1 &&
      s1.depSegments == (if brk then [] else s0.depSegments) &&
      (brk ==> Flush(s0.depSegments, s1.flushed) && s1.pageTop == top) &&
      (!brk ==> s1.flushed == s0.flushed && s1.pageTop == s0.pageTop) &&
      s1.pages == s0.pages + (if brk then 1 else 0) &&
      s1.log == s0.log + BreakCommands(brk, s1.flushed) + (if s0.highlight then [Shade(top)] else []) &&
      s1.y == top && s1.calls == s0.calls
    }

    /** `_new_row` followed by `_draw_highlight` begins a row. */
    lemma RowBegins(s0: Snapshot, sm: Snapshot, s1: Snapshot, top: real)
      requires Valid()
      requires top == (if s0.y > pdf.h - BMargin then pdf.tMargin + AxisHeight else s0.y) && sm.y == top
      requires sm.highlight == s0.highlight && sm.calls == s0.calls
      requires sm.depSegments == (if s0.y > pdf.h - BMargin then [] else s0.depSegments)
      requires sm.nextRow == (if s0.y > pdf.h - BMargin then 0 else s0.nextRow)
      requires sm.pages == s0.pages + (if s0.y > pdf.h - BMargin then 1 else 0)
      requires s0.y > pdf.h - BMargin ==> Flush(s0.depSegments, sm.flushed) && sm.pageTop == top
      requires s0.y <= pdf.h - BMargin ==> sm.flushed == s0.flushed && sm.pageTop == s0.pageTop
      requires sm.log == s0.log + BreakCommands(s0.y > pdf.h - BMargin, sm.flushed)
      requires s1.highlight == !sm.highlight && s1.nextRow == sm.nextRow + 1
      requires s1.log == sm.log + (if sm.highlight then [Shade(sm.y)] else [])
      requires s1.y == sm.y && s1.pages == sm.pages
      requires s1.depSegments == sm.depSegments && s1.flushed == sm.flushed && s1.pageTop == sm.pageTop
      requires s1.calls == sm.calls
      ensures RowBegun(s0, s1, top)
    {
    }

    /** `_new_row` then `_draw_highlight`, as every row operation starts. */
    method BeginRow() returns (start: Point)
      requires Valid()
      modifies this, pdf
      ensures RowBegun(old(Snap()), Snap(), start.y)
      ensures start == old(RowOrigin()) && pdf.x == start.x
    {
      ghost var s0 := Snap();
      start := NewRow();
      ghost var sm := Snap();
      DrawHighlight();
      RowBegins(s0, sm, Snap(), start.y);
    }

    /** A begun row that then draws `content` and moves one row down has been drawn. */
    lemma RowCompleted(s0: Snapshot, s1: Snapshot, s2: Snapshot, top: real, call: Call, content: seq<Command>)
      requires RowBegun(s0, s1, top)
      requires s2 == s1.(x := s2.x, y := top + RowHeight, log := s1.log + content, calls := s1.calls + [call])
      ensures RowDrawn(s0, s2, call, content) && RowAdvanced(s0, s2)
    {
      RowAdvances(s0, s2, call, content);
    }

    /** `draw_key`: a legend row, a caption and a fixed-width swatch (grey when no colour). */
    method DrawKey(caption: string, color: Option<Color>)
      requires Valid()
      modifies this, pdf
      ensures RowAdvanced(old(Snap()), Snap())
      ensures var top := old(RowOrigin()).y;
        RowDrawn(old(Snap()), Snap(), KeyRow(caption, color),
          [Label(top, caption, Regular), Swatch(top, if color.Some? then color.value else Grey(150))])
      ensures pdf.x == old(RowOrigin()).x
    {
      ghost var s0 := Snap();
      var start := BeginRow();
      ghost var s1 := Snap();
      pdf.Cell(labelWidth, RowHeight, false);
      var content := [Label(start.y, caption, Regular), Swatch(start.y, if color.Some? then color.value else Grey(150))];
      pdf.log := pdf.log + content;
      pdf.SetXY(start.x, start.y + RowHeight);
      calls := calls + [KeyRow(caption, color)];
      RowCompleted(s0, s1, Snap(), start.y, KeyRow(caption, color), content);
    }

    /** `draw_gap`: a row with only a bold caption (none when it is empty). */
    method DrawGap(caption: string)
      requires Valid()
      modifies this, pdf
      ensures RowAdvanced(old(Snap()), Snap())
      ensures var top := old(RowOrigin()).y;
        RowDrawn(old(Snap()), Snap(), GapRow(caption), if caption != "" then [Label(top, caption, Bold)] else [])
      ensures pdf.x == pdf.lMargin
    {
      ghost var s0 := Snap();
      var start := BeginRow();
      ghost var s1 := Snap();
      ghost var content: seq<Command> := [];
      if caption != "" {
        pdf.Cell(labelWidth * 2.0, RowHeight, false);
        content := [Label(start.y, caption, Bold)];
        pdf.log := pdf.log + content;
      }
      pdf.SetY(pdf.y + RowHeight);
      calls := calls + [GapRow(caption)];
      RowCompleted(s0, s1, Snap(), start.y, GapRow(caption), content);
    }

    /**
     * `draw_work`: a caption and a block from `at` for `length` units (grey
     * when no colour); with a key, the key text is written on the block only
     * when it is narrower than the block.
     */
    method DrawWork(caption: string, at: real, length: real, color: Option<Color>, key: Option<string>)
      requires Valid()
      modifies this, pdf
      ensures RowAdvanced(old(Snap()), Snap())
      ensures var top := old(RowOrigin()).y;
        RowDrawn(old(Snap()), Snap(), WorkRow(caption, at, length, color, key),
          [Label(top, caption, Regular), Block(top, at, length, if color.Some? then color.value else Grey(150))] +
          (if key.Some? && pdf.keyTextWidth(key.value) < length * unitWidth
           then [KeyText(top, at, key.value, KeyTextGrey(color))] else []))
      ensures pdf.x == old(RowOrigin()).x
    {
      ghost var s0 := Snap();
      var start := BeginRow();
      ghost var s1 := Snap();
      pdf.Cell(labelWidth, RowHeight, false);
      var fill := if color.Some? then color.value else Grey(150);
      ghost var content := [Label(start.y, caption, Regular), Block(start.y, at, length, fill)];
      if key.Some? {
        var grey := KeyTextGrey(color);
        if pdf.keyTextWidth(key.value) < length * unitWidth {
          content := content + [KeyText(start.y, at, key.value, grey)];
        }
      }
      pdf.log := pdf.log + content;
      pdf.SetXY(start.x, start.y + RowHeight);
      calls := calls + [WorkRow(caption, at, length, color, key)];
      RowCompleted(s0, s1, Snap(), start.y, WorkRow(caption, at, length, color, key), content);
    }

    /** `draw_milestone`: an italic caption and a dot at `at`. */
    method DrawMilestone(caption: string, at: real)
      requires Valid()
      modifies this, pdf
      ensures RowAdvanced(old(Snap()), Snap())
      ensures var top := old(RowOrigin()).y;
        RowDrawn(old(Snap()), Snap(), MilestoneRow(caption, at), [Label(top, caption, Italic), Dot(top, at)])
      ensures pdf.x == old(RowOrigin()).x
    {
      ghost var s0 := Snap();
      var start := BeginRow();
      ghost var s1 := Snap();
      pdf.Cell(labelWidth, RowHeight, false);
      var content := [Label(start.y, caption, Italic), Dot(start.y, at)];
      pdf.log := pdf.log + content;
      pdf.SetXY(start.x, start.y + RowHeight);
      calls := calls + [MilestoneRow(caption, at)];
      RowCompleted(s0, s1, Snap(), start.y, MilestoneRow(caption, at), content);
    }

    /** `_draw_multi`: a caption, then each interval of a breaks or phases row in order. */
    method DrawMulti(caption: string, kind: MultiKind, items: seq<Item>)
      requires Valid()
      modifies this, pdf
      ensures RowAdvanced(old(Snap()), Snap())
      ensures var top := old(RowOrigin()).y;
        RowDrawn(old(Snap()), Snap(), MultiRow(caption, kind, items), [Label(top, caption, Regular)] + Intervals(top, kind, items))
      ensures pdf.x == old(RowOrigin()).x
    {
      ghost var s0 := Snap();
      var start := BeginRow();
      ghost var s1 := Snap();
      pdf.Cell(labelWidth, RowHeight, false);
      ghost var shown := ItemCommands(start.y, kind, items);
      ghost var content := [Label(start.y, caption, Regular)] + shown;
      pdf.log := pdf.log + content;
      pdf.SetXY(start.x, start.y + RowHeight);
      calls := calls + [MultiRow(caption, kind, items)];
      RowCompleted(s0, s1, Snap(), start.y, MultiRow(caption, kind, items), content);
    }

    /** The loop of `_draw_multi` over the intervals of a breaks or phases row. */
    static method ItemCommands(top: real, kind: MultiKind, items: seq<Item>) returns (shown: seq<Command>)
      ensures shown == Intervals(top, kind, items)
    {
      shown := [];
      var k := 0;
      while k < |items|
        invariant 0 <= k <= |items|
        invariant shown == Intervals(top, kind, items[..k])
      {
        assert items[..k + 1] == items[..k] + [items[k]];
        shown := shown + [Interval(top, kind, items[k])];
        k := k + 1;
      }
      assert items[..k] == items;
    }

    static function Intervals(top: real, kind: MultiKind, items: seq<Item>): (r: seq<Command>)
      ensures |r| == |items|
    {
      if |items| == 0 then [] else Intervals(top, kind, items[..|items| - 1]) + [Interval(top, kind, items[|items| - 1])]
    }

    /** `draw_breaks`: outlined boxes, one per interval. */
    method DrawBreaks(caption: string, items: seq<Item>)
      requires Valid()
      modifies this, pdf
      ensures RowAdvanced(old(Snap()), Snap())
      ensures var top := old(RowOrigin()).y;
        RowDrawn(old(Snap()), Snap(), MultiRow(caption, Breaks, items), [Label(top, caption, Regular)] + Intervals(top, Breaks, items))
    {
      DrawMulti(caption, Breaks, items);
    }

    /** `draw_phases`: brackets, one per interval. */
    method DrawPhases(caption: string, items: seq<Item>)
      requires Valid()
      modifies this, pdf
      ensures RowAdvanced(old(Snap()), Snap())
      ensures var top := old(RowOrigin()).y;
        RowDrawn(old(Snap()), Snap(), MultiRow(caption, Phases, items), [Label(top, caption, Regular)] + Intervals(top, Phases, items))
    {
      DrawMulti(caption, Phases, items);
    }

    /**
     * `draw_dep`: defer the lines of a dependency from grid position `frm`,
     * `up` rows above, to position `to` on the row just drawn; `up` is cut
     * to half a row short of the rows drawn on this page.
     */
    method DrawDep(frm: real, to: real, up: int)
      modifies this
      ensures depSegments == old(depSegments) +
        DepSegments(pdf.y - RowHeight, pdf.x + labelWidth, unitWidth, frm, to, ClampUp(up, nextRow))
      ensures old(Stacked()) && nextRow >= 1 ==> depSegments[|depSegments| - 1].start.y >= pageTop
      ensures old(InPlace()) && nextRow >= 1 ==> InPlace()
      ensures highlight == old(highlight) && nextRow == old(nextRow) && pageTop == old(pageTop)
      ensures flushed == old(flushed) && calls == old(calls) + [DepLine(frm, to, up)]
    {
      var c := ClampUp(up, nextRow);
      var startX, startY := pdf.x, pdf.y - RowHeight;
      var centre := startY + RowHeight / 2.0;
      if to > frm {
        depSegments := depSegments + [Segment(
          Point(startX + labelWidth + frm * unitWidth, centre),
          Point(startX + labelWidth + to * unitWidth, centre))];
      }
      depSegments := depSegments + [Segment(
        Point(startX + labelWidth + frm * unitWidth, centre - RowHeight * c),
        Point(startX + labelWidth + frm * unitWidth, centre))];
      calls := calls + [DepLine(frm, to, up)];
      if Stacked() && nextRow >= 1 {
        DepStaysBelowPageTop(pageTop, pdf.x + labelWidth, unitWidth, frm, to, up, nextRow);
        assert centre >= pageTop;
      }
    }

    /** `_really_draw_deps`: merge the page's dependency segments, then draw them dashed, in order, logged as one command. */
    method ReallyDrawDeps()
      modifies this, pdf
      ensures Flush(old(depSegments), depSegments) && flushed == depSegments
      ensures pdf.log == old(pdf.log) + [Dashed(depSegments)]
      ensures pdf.x == old(pdf.x) && pdf.y == old(pdf.y) && pdf.pages == old(pdf.pages)
      ensures highlight == old(highlight) && nextRow == old(nextRow) && pageTop == old(pageTop) && calls == old(calls)
    {
      depSegments := NormalizeGrid(depSegments);
      flushed := depSegments;
      pdf.log := pdf.log + [Dashed(depSegments)];
    }
  }
}
