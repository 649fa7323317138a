/**
 * The document assembler: it numbers the rows, sets up the page and the
 * calendar from the project's options, dispatches every row to the
 * calendar operation its fields call for (resolving timing expressions on
 * the way), draws its dependencies, and finally the key legend.
 *
 * A failure of the source (a missing field, a key or reference that names
 * nothing, a dependency that is not a reference) ends the drawing with an
 * exception; here it is a `None` plan, and the drawing methods return
 * `ok == false`.
 */
module Assembly {
  import opened Wrappers
  import opened Dates
  import opened Resolver
  import opened Layout

  /** The warning printed for a row that starts before one of its dependencies ends. */
  datatype Warning = DepAfterRow(row: string, dep: string)

  /** What drawing some rows asks of the calendar, and the warnings it prints. */
  datatype Plan = Plan(calls: seq<Call>, warnings: seq<Warning>)

  /** `o` followed by the plan `rest`, if there is one. */
  function Then(o: Plan, rest: Option<Plan>): (r: Option<Plan>)
    ensures r.Some? <==> rest.Some?
  {
    match rest
    case None => None
    case Some(t) => Some(Plan(o.calls + t.calls, o.warnings + t.warnings))
  }

  lemma AppendAssociative<T>(a: seq<T>, b: seq<T>, c: seq<T>)
    ensures a + b + c == a + (b + c)
  {
  }

  lemma PrefixTransitive<T>(a: seq<T>, b: seq<T>, c: seq<T>)
    requires a <= b && b <= c
    ensures a <= c
  {
  }

  lemma ThenEmpty(rest: Option<Plan>)
    ensures Then(Plan([], []), rest) == rest
  {
    if rest.Some? {
      assert [] + rest.value.calls == rest.value.calls;
      assert [] + rest.value.warnings == rest.value.warnings;
    }
  }

  lemma ThenAssociative(a: Plan, b: Plan, rest: Option<Plan>)
    ensures Then(a, Then(b, rest)) == Then(Plan(a.calls + b.calls, a.warnings + b.warnings), rest)
  {
    if rest.Some? {
      assert a.calls + (b.calls + rest.value.calls) == a.calls + b.calls + rest.value.calls;
      assert a.warnings + (b.warnings + rest.value.warnings) == a.warnings + b.warnings + rest.value.warnings;
    }
  }

  // ---------------------------------------------------------------------
  // Row numbers

  /** The rows, each with its position in the list as its number. */
  function Numbered(rows: seq<Row>): (r: seq<Row>)
    ensures |r| == |rows|
    ensures forall i :: 0 <= i < |rows| ==> r[i] == rows[i].(ordinal := i)
  {
    seq(|rows|, i requires 0 <= i < |rows| => rows[i].(ordinal := i))
  }

  /** The first loop of `draw`: every row is given its position as its number `n`. */
  method AssignOrdinals(rows: array<Row>)
    modifies rows
    ensures rows[..] == Numbered(old(rows[..]))
  {
    var n := 0;
    while n < rows.Length
      invariant 0 <= n <= rows.Length
      invariant forall i :: 0 <= i < n ==> rows[i] == old(rows[i]).(ordinal := i)
      invariant forall i :: n <= i < rows.Length ==> rows[i] == old(rows[i])
    {
      rows[n] := rows[n].(ordinal := n);
      n := n + 1;
    }
  }

  // ---------------------------------------------------------------------
  // Options read by `draw`

  /** `label_width`: 50 when absent; a flag counts as 1 or 0; anything else fails. */
  function LabelWidth(p: Project): (r: Option<real>)
    ensures (p.options.None? || "label_width" !in p.options.value) ==> r == Some(50.0)
    ensures r.Some? <==> GetOption("label_width", p, Number(50.0)).Number? || GetOption("label_width", p, Number(50.0)).Flag?
  {
    match GetOption("label_width", p, Number(50.0))
    case Number(v) => Some(v)
    case Flag(b) => Some(if b then 1.0 else 0.0)
    case _ => None
  }

  /** The title line is drawn unless a `title` option is given and false; its text ignores the option's value. */
  predicate TitleShown(p: Project) {
    Truthy(GetOption("title", p, Text("timeline")))
  }

  /** The keys of the legend: all keys, when the project has a key list and asks for a legend. */
  function LegendKeys(p: Project): seq<Key> {
    if p.keys.Some? && Truthy(GetOption("key_legend", p, Null)) then p.keys.value else []
  }

  function KeyRows(keys: seq<Key>): (r: seq<Call>)
    ensures |r| == |keys| && forall k :: 0 <= k < |keys| ==> r[k] == KeyRow(keys[k].name, Some(keys[k].color))
  {
    if |keys| == 0 then [] else [KeyRow(keys[0].name, Some(keys[0].color))] + KeyRows(keys[1..])
  }

  /** What key row `i` draws at `top`: the shading when the row is due for it, the caption, the swatch. */
  function KeyRowLog(top: real, shaded: bool, key: Key): seq<Command> {
    (if shaded then [Shade(top)] else []) + [Label(top, key.name, Regular), Swatch(top, key.color)]
  }

  /**
   * The legend's key rows from `top` when no page break falls among them:
   * row `i` one row height below row `i - 1`, shaded when `i` is odd, since
   * the legend starts with the shading off.
   */
  function LegendLog(top: real, keys: seq<Key>): seq<Command> {
    if |keys| == 0 then []
    else
      var i := |keys| - 1;
      LegendLog(top, keys[..i]) + KeyRowLog(top + RowHeight * i as real, i % 2 == 1, keys[i])
  }

  /** The first key row of the legend is drawn unshaded. */
  lemma {:induction false} LegendStartsUnshaded(top: real, keys: seq<Key>)
    requires |keys| > 0
    ensures |LegendLog(top, keys)| >= 2
    ensures LegendLog(top, keys)[0] == Label(top, keys[0].name, Regular)
    ensures LegendLog(top, keys)[1] == Swatch(top, keys[0].color)
    decreases |keys|
  {
    var i := |keys| - 1;
    if i > 0 {
      assert keys[..i][0] == keys[0];
      LegendStartsUnshaded(top, keys[..i]);
    }
  }

  // ---------------------------------------------------------------------
  // The plan of one row

  /** Which calendar operation a row is drawn with, tested in this order. */
  datatype Dispatch = AsGap | AsBreaks | AsPhases | AsWork | AsMilestone

  function Classify(row: Row): Dispatch {
    if row.gap == Some(true) then AsGap
    else if row.breaks.Some? then AsBreaks
    else if row.phases.Some? then AsPhases
    else if row.length.Some? then AsWork
    else AsMilestone
  }

  /** The intervals of a breaks or phases row, each with its position resolved; `None` when one does not resolve. */
  function SpanItems(spans: seq<Span>, p: Project, fuel: nat): Option<seq<Item>> {
    if |spans| == 0 then Some([])
    else
      var last := spans[|spans| - 1];
      match (SpanItems(spans[..|spans| - 1], p, fuel), FindAt(last.at, p, fuel))
      case (Some(items), Some(at)) => Some(items + [Item(last.name, at, last.length)])
      case _ => None
  }

  /**
   * The colour and key text of a work row: none without a key; with one, the
   * first key its name matches, whose name is shown only under the
   * `key_in_block` option. `None` when the project has no key list or no key
   * matches.
   */
  function WorkKey(row: Row, p: Project): Option<(Option<Color>, Option<string>)> {
    var shown := Truthy(GetOption("key_in_block", p, Null));
    if row.key.None? then Some((None, None))
    else if p.keys.None? then None
    else match FirstMatch(row.key.value, KeyNames(p.keys.value))
      case None => None
      case Some(i) =>
        var key := p.keys.value[i];
        Some((Some(key.color), if shown then Some(key.name) else None))
  }

  /** The calendar operation that draws the row itself. */
  function MainCall(row: Row, p: Project, fuel: nat): Option<Call> {
    match Classify(row)
    case AsGap => Some(GapRow(row.name))
    case AsBreaks =>
      (match SpanItems(row.breaks.value, p, fuel)
       case None => None
       case Some(items) => Some(MultiRow(row.name, Breaks, items)))
    case AsPhases =>
      (match SpanItems(row.phases.value, p, fuel)
       case None => None
       case Some(items) => Some(MultiRow(row.name, Phases, items)))
    case AsWork =>
      (match (GetTiming(row, p, fuel), WorkKey(row, p))
       case (Some((at, length)), Some((color, key))) => Some(WorkRow(row.name, at, length, color, key))
       case _ => None)
    case AsMilestone =>
      (match GetTiming(row, p, fuel)
       case None => None
       case Some((at, _)) => Some(MilestoneRow(row.name, at))
      )
  }

  /** The `dep` field as a list of dependencies. */
  function DepList(d: DepField): seq<Expr> {
    match d
    case One(e) => [e]
    case Several(es) => es
  }

  /**
   * One dependency of row `n`, which is at `at`: a line from where the
   * dependency resolves, up as many rows as the numbers of the two rows
   * differ, with a warning when the dependency ends after the row starts.
   * Only a reference to a row can be a dependency.
   */
  function DepStep(p: Project, n: int, dep: Expr, at: real, fuel: nat): (r: Option<Plan>)
    requires 0 <= n < |p.rows|
    ensures r.Some? <==> dep.Ref? && FindAt(dep, p, fuel).Some? && FirstMatch(Unsigned(dep.text), Names(p.rows)).Some?
  {
    var start := FindAt(dep, p, fuel);
    var j := if dep.Ref? then FirstMatch(Unsigned(dep.text), Names(p.rows)) else None;
    if start.None? || j.None? then None
    else
      Some(Plan([DepLine(start.value, at, n - p.rows[j.value].ordinal)],
        if start.value > at then [DepAfterRow(p.rows[n].name, p.rows[j.value].name)] else []))
  }

  /** The dependencies `deps` of row `n`, in order; `None` when one of them fails. */
  function DepPlan(p: Project, n: int, deps: seq<Expr>, at: real, fuel: nat): Option<Plan>
    requires 0 <= n < |p.rows|
  {
    if |deps| == 0 then Some(Plan([], []))
    else match DepStep(p, n, deps[0], at, fuel)
      case None => None
      case Some(o) => Then(o, DepPlan(p, n, deps[1..], at, fuel))
  }

  /**
   * The loop of `draw` on row `n`: the stripe request if the row has one,
   * the row's operation, then (for work and milestone rows only) its
   * dependencies.
   */
  function RowPlan(p: Project, n: int, fuel: nat): Option<Plan>
    requires 0 <= n < |p.rows|
  {
    var row := p.rows[n];
    var stripe := if row.stripe.Some? then [Stripe(row.stripe.value)] else [];
    match MainCall(row, p, fuel)
    case None => None
    case Some(call) =>
      if (call.WorkRow? || call.MilestoneRow?) && row.dep.Some? then
        Then(Plan(stripe + [call], []), DepPlan(p, n, DepList(row.dep.value), call.at, fuel))
      else Some(Plan(stripe + [call], []))
  }

  /** Rows `from` onwards, in order; `None` when one of them fails. */
  function RowsPlan(p: Project, from: nat, fuel: nat): Option<Plan>
    decreases |p.rows| - from
  {
    if from >= |p.rows| then Some(Plan([], []))
    else match RowPlan(p, from, fuel)
      case None => None
      case Some(o) => Then(o, RowsPlan(p, from + 1, fuel))
  }

  /** The whole chart: the rows of the numbered project, then the legend. */
  function ChartPlan(p: Project, fuel: nat): Option<Plan> {
    if p.length == 0 || LabelWidth(p).None? then None
    else match RowsPlan(p.(rows := Numbered(p.rows)), 0, fuel)
      case None => None
      case Some(o) => Some(Plan(o.calls + KeyRows(LegendKeys(p)), o.warnings))
  }

  // ---------------------------------------------------------------------
  // Properties of the plan

  /**
   * The intervals of a breaks or phases row are its spans, in order, each at
   * the position its expression resolves to; the row fails exactly when one
   * of them does not resolve.
   */
  lemma {:induction false} SpanItemsResolved(spans: seq<Span>, p: Project, fuel: nat)
    ensures SpanItems(spans, p, fuel).Some? <==> forall k :: 0 <= k < |spans| ==> FindAt(spans[k].at, p, fuel).Some?
    ensures SpanItems(spans, p, fuel).Some? ==> var items := SpanItems(spans, p, fuel).value;
      |items| == |spans| && forall k :: 0 <= k < |spans| ==>
        items[k] == Item(spans[k].name, FindAt(spans[k].at, p, fuel).value, spans[k].length)
    decreases |spans|
  {
    if |spans| > 0 {
      var init, last := spans[..|spans| - 1], spans[|spans| - 1];
      SpanItemsResolved(init, p, fuel);
      assert forall k :: 0 <= k < |init| ==> init[k] == spans[k];
      if forall k :: 0 <= k < |spans| ==> FindAt(spans[k].at, p, fuel).Some? {
        assert FindAt(last.at, p, fuel).Some?;
        assert SpanItems(init, p, fuel).Some?;
        assert SpanItems(spans, p, fuel).Some?;
      } else {
        var k :| 0 <= k < |spans| && FindAt(spans[k].at, p, fuel).None?;
        if k < |init| {
          assert FindAt(init[k].at, p, fuel).None?;
          assert SpanItems(init, p, fuel).None?;
        } else {
          assert FindAt(last.at, p, fuel).None?;
        }
        assert SpanItems(spans, p, fuel).None?;
      }
    }
  }

  /** Every dependency becomes exactly one line ending at the row, in order. */
  lemma {:induction false} DepPlanLines(p: Project, n: int, deps: seq<Expr>, at: real, fuel: nat)
    requires 0 <= n < |p.rows|
    requires DepPlan(p, n, deps, at, fuel).Some?
    ensures var calls := DepPlan(p, n, deps, at, fuel).value.calls;
      |calls| == |deps| &&
      forall k :: 0 <= k < |deps| ==> calls[k].DepLine? && calls[k].to == at && Some(calls[k].frm) == FindAt(deps[k], p, fuel)
    decreases |deps|
  {
    if |deps| > 0 {
      DepPlanLines(p, n, deps[1..], at, fuel);
      var rest := DepPlan(p, n, deps[1..], at, fuel).value.calls;
      var calls := DepPlan(p, n, deps, at, fuel).value.calls;
      assert calls == DepStep(p, n, deps[0], at, fuel).value.calls + rest;
      forall k | 0 <= k < |deps|
        ensures calls[k].DepLine? && calls[k].to == at && Some(calls[k].frm) == FindAt(deps[k], p, fuel)
      {
        if k > 0 {
          assert calls[k] == rest[k - 1] && deps[k] == deps[1..][k - 1];
        }
      }
    }
  }

  /** The dependencies fail as a whole exactly when one of them fails. */
  lemma {:induction false} DepPlanFails(p: Project, n: int, deps: seq<Expr>, at: real, fuel: nat)
    requires 0 <= n < |p.rows|
    ensures DepPlan(p, n, deps, at, fuel).None? <==> exists k :: 0 <= k < |deps| && DepStep(p, n, deps[k], at, fuel).None?
    decreases |deps|
  {
    if |deps| > 0 {
      DepPlanFails(p, n, deps[1..], at, fuel);
      if DepStep(p, n, deps[0], at, fuel).Some? && DepPlan(p, n, deps[1..], at, fuel).None? {
        var k :| 0 <= k < |deps[1..]| && DepStep(p, n, deps[1..][k], at, fuel).None?;
        assert DepStep(p, n, deps[k + 1], at, fuel).None?;
      }
      if exists k :: 0 <= k < |deps| && DepStep(p, n, deps[k], at, fuel).None? {
        var k :| 0 <= k < |deps| && DepStep(p, n, deps[k], at, fuel).None?;
        if k > 0 {
          assert DepStep(p, n, deps[1..][k - 1], at, fuel).None?;
        }
      }
    }
  }

  /**
   * The shape of a row's plan: the stripe request exactly when the row has
   * one, then the operation its fields select, then one line per
   * dependency, which only work and milestone rows draw.
   */
  lemma RowPlanShape(p: Project, n: int, fuel: nat)
    requires 0 <= n < |p.rows| && RowPlan(p, n, fuel).Some?
    ensures var row := p.rows[n];
      var calls := RowPlan(p, n, fuel).value.calls;
      var m := if row.stripe.Some? then 1 else 0;
      |calls| == m + 1 + (if (Classify(row) == AsWork || Classify(row) == AsMilestone) && row.dep.Some? then |DepList(row.dep.value)| else 0) &&
      (row.stripe.Some? ==> calls[0] == Stripe(row.stripe.value)) &&
      calls[m] == MainCall(row, p, fuel).value &&
      forall k :: m < k < |calls| ==> calls[k].DepLine?
  {
    var row := p.rows[n];
    var call := MainCall(row, p, fuel).value;
    MainCallFollowsDispatch(row, p, fuel);
    RowPlanUnfolds(p, n, fuel, call);
    var stripe := if row.stripe.Some? then [Stripe(row.stripe.value)] else [];
    if (call.WorkRow? || call.MilestoneRow?) && row.dep.Some? {
      DepPlanLines(p, n, DepList(row.dep.value), call.at, fuel);
      LinesAfter(stripe, call, DepPlan(p, n, DepList(row.dep.value), call.at, fuel).value.calls);
    } else {
      LinesAfter(stripe, call, []);
    }
  }

  lemma LinesAfter(stripe: seq<Call>, call: Call, lines: seq<Call>)
    requires forall k :: 0 <= k < |lines| ==> lines[k].DepLine?
    ensures var calls := stripe + [call] + lines;
      |calls| == |stripe| + 1 + |lines| && calls[|stripe|] == call &&
      (|stripe| > 0 ==> calls[0] == stripe[0]) &&
      forall k :: |stripe| < k < |calls| ==> calls[k].DepLine?
  {
    var calls := stripe + [call] + lines;
    forall k | |stripe| < k < |calls|
      ensures calls[k].DepLine?
    {
      assert calls[k] == lines[k - |stripe| - 1];
    }
  }

  /**
   * The operation chosen for a row follows the order of the tests in `draw`:
   * a gap, then breaks, then phases, then a work row when it has a length,
   * and a milestone otherwise.
   */
  lemma MainCallFollowsDispatch(row: Row, p: Project, fuel: nat)
    requires MainCall(row, p, fuel).Some?
    ensures var call := MainCall(row, p, fuel).value;
      match Classify(row)
      case AsGap => call == GapRow(row.name)
      case AsBreaks => call.MultiRow? && call.caption == row.name && call.kind == Breaks && |call.items| == |row.breaks.value|
      case AsPhases => call.MultiRow? && call.caption == row.name && call.kind == Phases && |call.items| == |row.phases.value|
      case AsWork => call.WorkRow? && call.caption == row.name && call.length == row.length.value
      case AsMilestone => call.MilestoneRow? && call.caption == row.name
  {
    match Classify(row)
    case AsBreaks => SpanItemsResolved(row.breaks.value, p, fuel);
    case AsPhases => SpanItemsResolved(row.phases.value, p, fuel);
    case _ =>
  }

  /**
   * A work row without a key has no colour and no key text. With a key that
   * resolves, the colour is that of the first key the row's key matches, and
   * the key's name is shown exactly under the `key_in_block` option.
   */
  lemma WorkKeyMatches(row: Row, p: Project)
    ensures row.key.None? ==> WorkKey(row, p) == Some((None, None))
    ensures row.key.Some? && WorkKey(row, p).Some? ==>
      p.keys.Some? && FirstMatch(row.key.value, KeyNames(p.keys.value)).Some? &&
      var i := FirstMatch(row.key.value, KeyNames(p.keys.value)).value;
      var key := p.keys.value[i];
      NameMatches(row.key.value, key.name) &&
      WorkKey(row, p).value.0 == Some(key.color) &&
      WorkKey(row, p).value.1 == if Truthy(GetOption("key_in_block", p, Null)) then Some(key.name) else None
  {
  }

  /** A work row naming a key fails when the project has no key list, or no key matches. */
  lemma MissingKeyFails(p: Project, n: int, fuel: nat)
    requires 0 <= n < |p.rows|
    requires Classify(p.rows[n]) == AsWork && p.rows[n].key.Some?
    requires p.keys.None? || FirstMatch(p.rows[n].key.value, KeyNames(p.keys.value)).None?
    ensures RowPlan(p, n, fuel).None?
  {
  }

  /**
   * With the rows numbered, a dependency's line goes up exactly as many rows
   * as lie between the row and the row the dependency names.
   */
  lemma DepLineSpansRows(p: Project, n: int, text: string, at: real, fuel: nat)
    requires 0 <= n < |p.rows|
    requires forall i :: 0 <= i < |p.rows| ==> p.rows[i].ordinal == i
    requires DepStep(p, n, Ref(text), at, fuel).Some?
    ensures var j := FirstMatch(Unsigned(text), Names(p.rows)).value;
      DepStep(p, n, Ref(text), at, fuel).value.calls[0].up == n - j
  {
  }

  /**
   * A dependency draws one line from where it resolves to the row's own
   * position, and warns, naming both rows, exactly when it ends after the
   * row starts.
   */
  lemma DepStepWarnsWhenLate(p: Project, n: int, dep: Expr, at: real, fuel: nat)
    requires 0 <= n < |p.rows| && DepStep(p, n, dep, at, fuel).Some?
    ensures var step := DepStep(p, n, dep, at, fuel).value;
      var start := FindAt(dep, p, fuel).value;
      var j := FirstMatch(Unsigned(dep.text), Names(p.rows)).value;
      |step.calls| == 1 && step.calls[0].frm == start && step.calls[0].to == at &&
      (start > at ==> step.warnings == [DepAfterRow(p.rows[n].name, p.rows[j].name)]) &&
      (start <= at ==> step.warnings == [])
  {
  }

  /** The chart fails exactly when some row fails (or the calendar cannot be set up). */
  lemma {:induction false} RowsPlanFails(p: Project, from: nat, fuel: nat)
    ensures RowsPlan(p, from, fuel).None? <==> exists k :: from <= k < |p.rows| && RowPlan(p, k, fuel).None?
    decreases |p.rows| - from
  {
    if from < |p.rows| {
      RowsPlanFails(p, from + 1, fuel);
    }
  }

  // ---------------------------------------------------------------------
  // Drawing

  /** The loop of `_draw_multi`'s callers in `draw`: each interval resolved in order. */
  method CollectSpans(spans: seq<Span>, p: Project, fuel: nat) returns (r: Option<seq<Item>>)
    ensures r == SpanItems(spans, p, fuel)
  {
    var items: seq<Item> := [];
    var k := 0;
    while k < |spans|
      invariant 0 <= k <= |spans|
      invariant SpanItems(spans[..k], p, fuel) == Some(items)
    {
      var at := FindAt(spans[k].at, p, fuel);
      assert spans[..k + 1][..k] == spans[..k];
      if at.None? {
        SpanItemsResolved(spans, p, fuel);
        return None;
      }
      items := items + [Item(spans[k].name, at.value, spans[k].length)];
      k := k + 1;
    }
    assert spans[..k] == spans;
    return Some(items);
  }

  /** The dependency loop of `draw` for row `n`, which is at `at`. */
  method DrawDeps(cal: Calendar, p: Project, n: int, deps: seq<Expr>, at: real, fuel: nat)
    returns (ok: bool, warnings: seq<Warning>)
    requires 0 <= n < |p.rows|
    modifies cal
    ensures ok <==> DepPlan(p, n, deps, at, fuel).Some?
    ensures ok ==> cal.calls == old(cal.calls) + DepPlan(p, n, deps, at, fuel).value.calls
    ensures ok ==> warnings == DepPlan(p, n, deps, at, fuel).value.warnings
    ensures cal.nextRow == old(cal.nextRow) && cal.pageTop == old(cal.pageTop)
    ensures old(cal.InPlace()) && cal.nextRow >= 1 ==> cal.InPlace()
  {
    ghost var done := Plan([], []);
    warnings := [];
    var k := 0;
    ThenEmpty(DepPlan(p, n, deps, at, fuel));
    while k < |deps|
      invariant 0 <= k <= |deps|
      invariant DepPlan(p, n, deps, at, fuel) == Then(done, DepPlan(p, n, deps[k..], at, fuel))
      invariant cal.calls == old(cal.calls) + done.calls && warnings == done.warnings
      invariant cal.nextRow == old(cal.nextRow) && cal.pageTop == old(cal.pageTop)
      invariant old(cal.InPlace()) && cal.nextRow >= 1 ==> cal.InPlace()
    {
      assert deps[k..][1..] == deps[k + 1..];
      var step := DrawDep(cal, p, n, deps[k], at, fuel);
      if step.None? {
        return false, warnings;
      }
      ThenAssociative(done, step.value, DepPlan(p, n, deps[k + 1..], at, fuel));
      done := Plan(done.calls + step.value.calls, done.warnings + step.value.warnings);
      warnings := warnings + step.value.warnings;
      k := k + 1;
    }
    return true, warnings;
  }

  /** One dependency of row `n`: resolve it, find the row it names, warn if late, draw its line. */
  method DrawDep(cal: Calendar, p: Project, n: int, dep: Expr, at: real, fuel: nat) returns (step: Option<Plan>)
    requires 0 <= n < |p.rows|
    modifies cal
    ensures step == DepStep(p, n, dep, at, fuel)
    ensures step.Some? ==> cal.calls == old(cal.calls) + step.value.calls
    ensures cal.nextRow == old(cal.nextRow) && cal.pageTop == old(cal.pageTop)
    ensures old(cal.InPlace()) && cal.nextRow >= 1 ==> cal.InPlace()
  {
    var start := FindAt(dep, p, fuel);
    if start.None? || !dep.Ref? {
      return None;
    }
    var j := FindItem(dep.text, p.rows);
    if j.None? {
      return None;
    }
    var up := n - p.rows[j.value].ordinal;
    var warnings := if start.value > at then [DepAfterRow(p.rows[n].name, p.rows[j.value].name)] else [];
    step := Some(Plan([DepLine(start.value, at, up)], warnings));
    assert j == FirstMatch(Unsigned(dep.text), Names(p.rows));
    assert DepStep(p, n, dep, at, fuel).Some?;
    assert DepStep(p, n, dep, at, fuel).value.calls == step.value.calls;
    assert step == DepStep(p, n, dep, at, fuel);
    cal.DrawDep(start.value, at, up);
  }

  /** The dispatch of `draw` on one row's fields, resolving what the chosen operation needs. */
  method RowCall(row: Row, p: Project, fuel: nat) returns (r: Option<Call>)
    ensures r == MainCall(row, p, fuel)
  {
    if row.gap == Some(true) {
      return Some(GapRow(row.name));
    }
    if row.breaks.Some? {
      var items := CollectSpans(row.breaks.value, p, fuel);
      return if items.Some? then Some(MultiRow(row.name, Breaks, items.value)) else None;
    }
    if row.phases.Some? {
      var items := CollectSpans(row.phases.value, p, fuel);
      return if items.Some? then Some(MultiRow(row.name, Phases, items.value)) else None;
    }
    var timing := GetTiming(row, p, fuel);
    if timing.None? {
      return None;
    }
    var at := timing.value.0;
    if row.length.None? {
      return Some(MilestoneRow(row.name, at));
    }
    var color: Option<Color> := None;
    var keyName: Option<string> := None;
    if row.key.Some? {
      var key := GetKey(row.key.value, p);
      if key.None? {
        return None;
      }
      color, keyName := Some(key.value.color), Some(key.value.name);
    }
    if !Truthy(GetOption("key_in_block", p, Null)) {
      keyName := None;
    }
    return Some(WorkRow(row.name, at, timing.value.1, color, keyName));
  }

  /**
   * Hand one row operation to the calendar. Every one of them draws a row,
   * which moves the cursor one row down and adds no page while the cursor
   * is above the bottom margin.
   */
  method Perform(cal: Calendar, call: Call)
    requires cal.Valid() && !call.Stripe? && !call.DepLine?
    modifies cal, cal.pdf
    ensures cal.calls == old(cal.calls) + [call]
    ensures !old(cal.Overflow()) ==> cal.pdf.pages == old(cal.pdf.pages) && cal.pdf.y == old(cal.pdf.y) + RowHeight
    ensures old(cal.pdf.log) <= cal.pdf.log && cal.pdf.pages >= old(cal.pdf.pages)
    ensures old(cal.depSegments) == [] ==> cal.depSegments == []
    ensures old(cal.InPlace()) || old(cal.Overflow()) ==> cal.InPlace() && cal.nextRow >= 1
    ensures cal.RowAdvanced(old(cal.Snap()), cal.Snap())
  {
    match call
    case GapRow(caption) => cal.DrawGap(caption);
    case KeyRow(caption, color) => cal.DrawKey(caption, color);
    case WorkRow(caption, at, length, color, key) => cal.DrawWork(caption, at, length, color, key);
    case MilestoneRow(caption, at) => cal.DrawMilestone(caption, at);
    case MultiRow(caption, kind, items) =>
      if kind == Breaks {
        cal.DrawBreaks(caption, items);
      } else {
        cal.DrawPhases(caption, items);
      }
  }

  /** The first part of the loop body of `draw` for row `n`: the stripe request, then the row's own operation. */
  method DrawRowHead(cal: Calendar, p: Project, n: int, fuel: nat) returns (call: Option<Call>)
    requires cal.Valid() && 0 <= n < |p.rows|
    modifies cal, cal.pdf
    ensures call == MainCall(p.rows[n], p, fuel)
    ensures call.Some? ==>
      cal.calls == old(cal.calls) + (if p.rows[n].stripe.Some? then [Stripe(p.rows[n].stripe.value)] else []) + [call.value]
    ensures old(cal.pdf.log) <= cal.pdf.log && cal.pdf.pages >= old(cal.pdf.pages)
    ensures old(cal.InPlace()) ==> cal.InPlace()
    ensures call.Some? && (old(cal.InPlace()) || old(cal.Overflow())) ==> cal.InPlace() && cal.nextRow >= 1
  {
    var row := p.rows[n];
    if row.stripe.Some? {
      cal.NextHighlight(row.stripe.value);
    }
    call := RowCall(row, p, fuel);
    if call.Some? {
      Perform(cal, call.value);
    }
  }

  /** The loop body of `draw` for row `n`. */
  method DrawRow(cal: Calendar, p: Project, n: int, fuel: nat) returns (ok: bool, warnings: seq<Warning>)
    requires cal.Valid() && 0 <= n < |p.rows|
    modifies cal, cal.pdf
    ensures ok <==> RowPlan(p, n, fuel).Some?
    ensures ok ==> cal.calls == old(cal.calls) + RowPlan(p, n, fuel).value.calls
    ensures ok ==> warnings == RowPlan(p, n, fuel).value.warnings
    ensures old(cal.pdf.log) <= cal.pdf.log && cal.pdf.pages >= old(cal.pdf.pages)
    ensures old(cal.InPlace()) ==> cal.InPlace()
    ensures ok && old(cal.Overflow()) ==> cal.InPlace()
  {
    var row := p.rows[n];
    var call := DrawRowHead(cal, p, n, fuel);
    if call.None? {
      return false, [];
    }
    ghost var head := Plan((if row.stripe.Some? then [Stripe(row.stripe.value)] else []) + [call.value], []);
    assert cal.calls == old(cal.calls) + head.calls;
    RowPlanUnfolds(p, n, fuel, call.value);
    if (call.value.WorkRow? || call.value.MilestoneRow?) && row.dep.Some? {
      ok, warnings := DrawDeps(cal, p, n, DepList(row.dep.value), call.value.at, fuel);
      if ok {
        ghost var deps := DepPlan(p, n, DepList(row.dep.value), call.value.at, fuel).value;
        AppendAssociative(old(cal.calls), head.calls, deps.calls);
      }
    } else {
      ok, warnings := true, [];
    }
  }

  /** A row's plan once its operation is known. */
  lemma RowPlanUnfolds(p: Project, n: int, fuel: nat, call: Call)
    requires 0 <= n < |p.rows| && MainCall(p.rows[n], p, fuel) == Some(call)
    ensures var row := p.rows[n];
      var head := Plan((if row.stripe.Some? then [Stripe(row.stripe.value)] else []) + [call], []);
      RowPlan(p, n, fuel) == if (call.WorkRow? || call.MilestoneRow?) && row.dep.Some?
        then Then(head, DepPlan(p, n, DepList(row.dep.value), call.at, fuel))
        else Some(head)
  {
  }

  /** The row loop of `draw`. */
  method DrawRows(cal: Calendar, p: Project, fuel: nat) returns (ok: bool, warnings: seq<Warning>)
    requires cal.Valid()
    modifies cal, cal.pdf
    ensures ok <==> RowsPlan(p, 0, fuel).Some?
    ensures ok ==> cal.calls == old(cal.calls) + RowsPlan(p, 0, fuel).value.calls
    ensures ok ==> warnings == RowsPlan(p, 0, fuel).value.warnings
    ensures old(cal.pdf.log) <= cal.pdf.log && cal.pdf.pages >= old(cal.pdf.pages)
    ensures old(cal.InPlace()) ==> cal.InPlace()
  {
    ghost var done := Plan([], []);
    warnings := [];
    var n := 0;
    ThenEmpty(RowsPlan(p, 0, fuel));
    while n < |p.rows|
      invariant 0 <= n <= |p.rows|
      invariant RowsPlan(p, 0, fuel) == Then(done, RowsPlan(p, n, fuel))
      invariant cal.calls == old(cal.calls) + done.calls && warnings == done.warnings
      invariant old(cal.pdf.log) <= cal.pdf.log && cal.pdf.pages >= old(cal.pdf.pages)
      invariant old(cal.InPlace()) ==> cal.InPlace()
    {
      var rowOk, rowWarnings := DrawRow(cal, p, n, fuel);
      if !rowOk {
        return false, warnings;
      }
      ghost var step := RowPlan(p, n, fuel).value;
      ThenAssociative(done, step, RowsPlan(p, n + 1, fuel));
      AppendAssociative(old(cal.calls), done.calls, step.calls);
      done := Plan(done.calls + step.calls, done.warnings + step.warnings);
      warnings := warnings + rowWarnings;
      n := n + 1;
    }
    assert done.calls + [] == done.calls && done.warnings + [] == done.warnings;
    return true, warnings;
  }

  /**
   * The key legend: a new page first when the heading and all key rows
   * would not fit above the bottom margin, then a "Key" heading and one row
   * per key, unshaded first. When they fit, no page break happens while the
   * keys are drawn.
   */
  method DrawKeyLegend(cal: Calendar, keys: seq<Key>)
    requires cal.Valid()
    modifies cal, cal.pdf
    ensures cal.calls == old(cal.calls) + KeyRows(keys)
    ensures cal.highlight == (|keys| % 2 == 1)
    ensures old(cal.pdf.log) <= cal.pdf.log
    ensures old(cal.depSegments) == [] ==> cal.depSegments == []
    ensures old(cal.pdf.h - cal.pdf.y) >= 20.0 + RowHeight * |keys| as real + BMargin ==>
      cal.pdf.pages == old(cal.pdf.pages) && cal.pdf.y == old(cal.pdf.y) + 20.0 + RowHeight * |keys| as real
    ensures old(cal.pdf.h - cal.pdf.y) < 20.0 + RowHeight * |keys| as real + BMargin ==>
      cal.pdf.pages > old(cal.pdf.pages) && |cal.pdf.log| > |old(cal.pdf.log)| && cal.pdf.log[|old(cal.pdf.log)|] == NewPage
    ensures var fits := old(cal.pdf.h - cal.pdf.y) >= 20.0 + RowHeight * |keys| as real + BMargin;
      var top := (if fits then old(cal.pdf.y) else cal.pdf.tMargin) + 20.0;
      top + RowHeight * (|keys| - 1) as real <= cal.pdf.h - BMargin ==>
        cal.pdf.log == old(cal.pdf.log) + (if fits then [] else [NewPage]) + [Heading("Key")] + LegendLog(top, keys)
  {
    var fits := DrawKeyHeading(cal.pdf, |keys|);
    ghost var headed := cal.pdf.log;
    DrawKeyRows(cal, keys);
    PrefixTransitive(old(cal.pdf.log), headed, cal.pdf.log);
  }

  /**
   * The legend's heading: a new page first when the heading and `count`
   * key rows would not fit above the bottom margin (`fits` says whether
   * they did), then "Key" in a cell ten high, ten below the cursor.
   */
  method DrawKeyHeading(pdf: Surface, count: nat) returns (fits: bool)
    modifies pdf
    ensures fits == (old(pdf.h - pdf.y) >= 20.0 + RowHeight * count as real + BMargin)
    ensures pdf.pages == old(pdf.pages) + (if fits then 0 else 1)
    ensures pdf.y == (if fits then old(pdf.y) else pdf.tMargin) + 20.0
    ensures pdf.log == old(pdf.log) + (if fits then [] else [NewPage]) + [Heading("Key")]
  {
    fits := pdf.h - pdf.y >= 20.0 + RowHeight * count as real + BMargin;
    if !fits {
      pdf.AddPage();
    }
    pdf.SetY(pdf.y + 10.0);
    pdf.log := pdf.log + [Heading("Key")];
    pdf.Cell(80.0, 10.0, true);
  }

  /** The rows of the legend: the shading is switched off, then one key row per key. */
  method DrawKeyRows(cal: Calendar, keys: seq<Key>)
    requires cal.Valid()
    modifies cal, cal.pdf
    ensures cal.calls == old(cal.calls) + KeyRows(keys)
    ensures cal.highlight == (|keys| % 2 == 1)
    ensures old(cal.pdf.log) <= cal.pdf.log && cal.pdf.pages >= old(cal.pdf.pages)
    ensures old(cal.depSegments) == [] ==> cal.depSegments == []
    ensures old(cal.pdf.y) + RowHeight * (|keys| - 1) as real <= cal.pdf.h - BMargin ==>
      cal.pdf.pages == old(cal.pdf.pages) && cal.pdf.y == old(cal.pdf.y) + RowHeight * |keys| as real &&
      cal.pdf.log == old(cal.pdf.log) + LegendLog(old(cal.pdf.y), keys)
  {
    var pdf := cal.pdf;
    cal.highlight := false;
    ghost var top := pdf.y;
    var k := 0;
    while k < |keys|
      invariant 0 <= k <= |keys|
      invariant LegendDrawn(cal, keys, k, top, old(cal.calls), old(pdf.log), old(pdf.pages))
      invariant old(cal.depSegments) == [] ==> cal.depSegments == []
    {
      DrawLegendStep(cal, keys, k, top, old(cal.calls), old(pdf.log), old(pdf.pages));
      k := k + 1;
    }
    assert keys[..k] == keys;
  }

  /**
   * What the legend loop knows after `k` keys drawn from `top`, starting
   * from `calls0`, `log0` and `pages0`.
   */
  ghost predicate LegendDrawn(cal: Calendar, keys: seq<Key>, k: nat, top: real,
                              calls0: seq<Call>, log0: seq<Command>, pages0: nat)
    requires k <= |keys|
    reads cal, cal.pdf
  {
    cal.calls == calls0 + KeyRows(keys[..k]) &&
    cal.highlight == (k % 2 == 1) &&
    log0 <= cal.pdf.log && cal.pdf.pages >= pages0 &&
    (top + RowHeight * (|keys| - 1) as real <= cal.pdf.h - BMargin ==>
      cal.pdf.pages == pages0 && cal.pdf.y == top + RowHeight * k as real &&
      cal.pdf.log == log0 + LegendLog(top, keys[..k]))
  }

  /** One turn of the legend loop: key `k`. */
  method DrawLegendStep(cal: Calendar, keys: seq<Key>, k: nat, ghost top: real,
                        ghost calls0: seq<Call>, ghost log0: seq<Command>, ghost pages0: nat)
    requires cal.Valid() && k < |keys|
    requires LegendDrawn(cal, keys, k, top, calls0, log0, pages0)
    modifies cal, cal.pdf
    ensures LegendDrawn(cal, keys, k + 1, top, calls0, log0, pages0)
    ensures old(cal.depSegments) == [] ==> cal.depSegments == []
  {
    ghost var noBreak := top + RowHeight * (|keys| - 1) as real <= cal.pdf.h - BMargin;
    ghost var y1, shaded := cal.pdf.y, cal.highlight;
    assert noBreak ==> !cal.Overflow();
    ghost var log1 := cal.pdf.log;
    assert ((k + 1) % 2 == 1) == !(k % 2 == 1);
    DrawLegendRow(cal, keys[k]);
    KeyRowsExtend(calls0, keys, k);
    PrefixTransitive(log0, log1, cal.pdf.log);
    assert cal.calls == calls0 + KeyRows(keys[..k + 1]);
    assert cal.highlight == ((k + 1) % 2 == 1);
    assert log0 <= cal.pdf.log && cal.pdf.pages >= pages0;
    if noBreak {
      assert y1 == top + RowHeight * k as real && shaded == (k % 2 == 1);
      assert cal.pdf.log == log1 + KeyRowLog(y1, shaded, keys[k]);
      LegendLogExtend(log0, top, keys, k, y1, shaded);
    }
  }

  /** One key row of the legend, in the legend's terms. */
  method DrawLegendRow(cal: Calendar, key: Key)
    requires cal.Valid()
    modifies cal, cal.pdf
    ensures cal.calls == old(cal.calls) + [KeyRow(key.name, Some(key.color))]
    ensures cal.highlight == !old(cal.highlight)
    ensures old(cal.pdf.log) <= cal.pdf.log && cal.pdf.pages >= old(cal.pdf.pages)
    ensures old(cal.depSegments) == [] ==> cal.depSegments == []
    ensures !old(cal.Overflow()) ==> cal.pdf.pages == old(cal.pdf.pages) && cal.pdf.y == old(cal.pdf.y) + RowHeight
    ensures !old(cal.Overflow()) ==> cal.pdf.log == old(cal.pdf.log) + KeyRowLog(old(cal.pdf.y), old(cal.highlight), key)
  {
    cal.DrawKey(key.name, Some(key.color));
  }

  lemma LegendLogExtend(log0: seq<Command>, top: real, keys: seq<Key>, k: nat, y: real, shaded: bool)
    requires k < |keys| && y == top + RowHeight * k as real && shaded == (k % 2 == 1)
    ensures log0 + LegendLog(top, keys[..k]) + KeyRowLog(y, shaded, keys[k]) == log0 + LegendLog(top, keys[..k + 1])
  {
    assert keys[..k + 1][..k] == keys[..k];
    AppendAssociative(log0, LegendLog(top, keys[..k]), KeyRowLog(top + RowHeight * k as real, k % 2 == 1, keys[k]));
  }

  lemma KeyRowsExtend(calls0: seq<Call>, keys: seq<Key>, k: nat)
    requires k < |keys|
    ensures calls0 + KeyRows(keys[..k]) + [KeyRow(keys[k].name, Some(keys[k].color))] == calls0 + KeyRows(keys[..k + 1])
  {
    var a := KeyRows(keys[..k + 1]);
    var b := KeyRows(keys[..k]) + [KeyRow(keys[k].name, Some(keys[k].color))];
    assert |a| == |b|;
    forall i | 0 <= i < |a|
      ensures a[i] == b[i]
    {
    }
    AppendAssociative(calls0, KeyRows(keys[..k]), [KeyRow(keys[k].name, Some(keys[k].color))]);
  }

  /** The part of `draw` between setting the calendar up and drawing the legend. */
  method DrawChart(cal: Calendar, p: Project, fuel: nat) returns (ok: bool, warnings: seq<Warning>)
    requires cal.Valid()
    modifies cal, cal.pdf
    ensures ok <==> RowsPlan(p, 0, fuel).Some?
    ensures ok ==> cal.calls == old(cal.calls) + RowsPlan(p, 0, fuel).value.calls
    ensures ok ==> warnings == RowsPlan(p, 0, fuel).value.warnings
    ensures old(cal.pdf.log) <= cal.pdf.log
    ensures var at := |old(cal.pdf.log)| + if old(cal.Overflow()) then 3 else 0;
      |cal.pdf.log| > at && cal.pdf.log[at] == Axis(old(cal.RowOrigin()).y, cal.Labels())
    ensures old(cal.Overflow()) || (old(cal.nextRow) == 0 && old(cal.depSegments) == []) ==> cal.InPlace()
    ensures ok ==> cal.depSegments == [] && |cal.pdf.log| > 0 && cal.pdf.log[|cal.pdf.log| - 1] == Dashed(cal.flushed)
  {
    ghost var origin := cal.RowOrigin();
    cal.DrawTimeAxis();
    ghost var axisLog := cal.pdf.log;
    ghost var at := |old(cal.pdf.log)| + if old(cal.Overflow()) then 3 else 0;
    assert axisLog[at] == Axis(origin.y, cal.Labels());
    ok, warnings := DrawRows(cal, p, fuel);
    if ok {
      cal.Finish();
    }
    assert axisLog <= cal.pdf.log;
  }

  /** The legend and the footer, at the end of `draw`. */
  method DrawEnd(cal: Calendar, p: Project, defaultFooter: string)
    requires cal.Valid()
    modifies cal, cal.pdf
    ensures cal.calls == old(cal.calls) + KeyRows(LegendKeys(p))
    ensures Truthy(GetOption("footer", p, Text(defaultFooter))) ==>
      |cal.pdf.log| > 0 && cal.pdf.log[|cal.pdf.log| - 1] == Footer(GetOption("footer", p, Text(defaultFooter))) &&
      cal.pdf.y == cal.pdf.h - 15.0
    ensures old(cal.pdf.log) <= cal.pdf.log
    ensures old(cal.depSegments) == [] ==> cal.depSegments == []
  {
    if p.keys.Some? && Truthy(GetOption("key_legend", p, Null)) {
      DrawKeyLegend(cal, p.keys.value);
    }
    var footer := GetOption("footer", p, Text(defaultFooter));
    if Truthy(footer) {
      cal.pdf.SetY(cal.pdf.h - 15.0);
      cal.pdf.log := cal.pdf.log + [Footer(footer)];
    }
  }

  /**
   * What `draw` does once the calendar exists, on a page whose cursor is
   * above the bottom margin: the axis there, the rows, the remaining
   * dependency lines, then the legend and the footer.
   */
  method DrawOnCalendar(cal: Calendar, p: Project, numbered: Project, defaultFooter: string, fuel: nat)
    returns (ok: bool, warnings: seq<Warning>)
    requires cal.Valid() && !cal.Overflow() && cal.calls == []
    modifies cal, cal.pdf
    ensures ok <==> RowsPlan(numbered, 0, fuel).Some?
    ensures ok ==> cal.calls == RowsPlan(numbered, 0, fuel).value.calls + KeyRows(LegendKeys(p))
    ensures ok ==> warnings == RowsPlan(numbered, 0, fuel).value.warnings
    ensures old(cal.pdf.log) <= cal.pdf.log && |cal.pdf.log| > |old(cal.pdf.log)|
    ensures cal.pdf.log[|old(cal.pdf.log)|] == Axis(old(cal.pdf.y), cal.Labels())
    ensures ok ==> |cal.pdf.log| > |old(cal.pdf.log)| + 1 && cal.depSegments == []
  {
    ok, warnings := DrawChart(cal, numbered, fuel);
    ghost var chartLog := cal.pdf.log;
    if ok {
      ghost var drawn := cal.calls;
      assert drawn == RowsPlan(numbered, 0, fuel).value.calls;
      DrawEnd(cal, p, defaultFooter);
      assert chartLog <= cal.pdf.log;
    }
  }

  /** The calendar `draw` sets up on `pdf` from the project's start, unit, length and options. */
  method OpenCalendar(pdf: Surface, p: Project, labelWidth: real) returns (cal: Calendar)
    requires p.length != 0 && pdf.tMargin + AxisHeight <= pdf.h - BMargin
    ensures fresh(cal) && cal.pdf == pdf && cal.Valid()
    ensures cal.unit == p.unit && cal.firstDate == Normalize(p.unit, p.start) && cal.nunit == p.length
    ensures cal.labelWidth == labelWidth
    ensures cal.showYear == Truthy(GetOption("show_year", p, Null))
    ensures cal.oneBased == Truthy(GetOption("one_based", p, Null))
    ensures !cal.highlight && cal.nextRow == 0 && cal.depSegments == [] && cal.calls == []
  {
    cal := new Calendar(pdf, p.start, p.unit, p.length, labelWidth,
      Truthy(GetOption("show_year", p, Null)), Truthy(GetOption("one_based", p, Null)));
  }

  /** The project with its rows numbered in place, as `draw` begins. */
  method NumberRows(p: Project) returns (numbered: Project)
    ensures numbered == p.(rows := Numbered(p.rows))
  {
    var a := new Row[|p.rows|](i requires 0 <= i < |p.rows| => p.rows[i]);
    assert a[..] == p.rows;
    AssignOrdinals(a);
    numbered := p.(rows := a[..]);
  }

  /** An A4 landscape document (millimetres, margins of 10) on its first page, with the title line unless it is switched off. */
  method OpenDocument(p: Project, projectName: string, keyTextWidth: string -> real) returns (pdf: Surface)
    ensures fresh(pdf) && pdf.w == 297.0 && pdf.h == 210.0 && pdf.lMargin == 10.0 && pdf.tMargin == 10.0
    ensures pdf.pages == 1 && pdf.x == 10.0 && pdf.y == if TitleShown(p) then 20.0 else 10.0
    ensures pdf.log == [NewPage] + if TitleShown(p) then [Heading(projectName + " timeline")] else []
  {
    pdf := new Surface(297.0, 210.0, 10.0, 10.0, keyTextWidth);
    pdf.AddPage();
    if TitleShown(p) {
      pdf.log := pdf.log + [Heading(projectName + " timeline")];
      pdf.Cell(80.0, 10.0, true);
    }
  }

  /**
   * `draw`: number the rows, open an A4 landscape page with the title line,
   * set the calendar up from the project's options, draw the axis, the rows
   * and the remaining dependency lines, the legend, and the footer.
   * `defaultFooter` is the footer used when the project sets none. `ok` is
   * false where the source stops with an exception; `cal` is null when that
   * happens before the calendar exists.
   */
  method Draw(p: Project, projectName: string, defaultFooter: string, keyTextWidth: string -> real, fuel: nat)
    returns (ok: bool, cal: Calendar?, warnings: seq<Warning>)
    ensures ok <==> ChartPlan(p, fuel).Some?
    ensures ok ==> cal != null && cal.calls == ChartPlan(p, fuel).value.calls
    ensures ok ==> warnings == ChartPlan(p, fuel).value.warnings
    ensures ok ==> cal.unit == p.unit && cal.firstDate == Normalize(p.unit, p.start) && cal.nunit == p.length
    ensures ok ==> LabelWidth(p).Some? && cal.labelWidth == LabelWidth(p).value
    ensures ok ==> cal.showYear == Truthy(GetOption("show_year", p, Null))
    ensures ok ==> cal.oneBased == Truthy(GetOption("one_based", p, Null))
    ensures ok ==> |cal.pdf.log| > 2 && cal.pdf.log[0] == NewPage
    ensures ok && TitleShown(p) ==> cal.pdf.log[1] == Heading(projectName + " timeline")
    ensures ok ==> cal.pdf.log[if TitleShown(p) then 2 else 1] == Axis(if TitleShown(p) then 20.0 else 10.0, cal.Labels())
    ensures ok ==> cal.depSegments == []
  {
    var numbered := NumberRows(p);
    var pdf := OpenDocument(p, projectName, keyTextWidth);
    var width := LabelWidth(p);
    if p.length == 0 || width.None? {
      return false, null, [];
    }
    cal := OpenCalendar(pdf, p, width.value);
    ghost var rows := RowsPlan(numbered, 0, fuel);
    assert ChartPlan(p, fuel) == if rows.None? then None else Some(Plan(rows.value.calls + KeyRows(LegendKeys(p)), rows.value.warnings));
    ok, warnings := DrawOnCalendar(cal, p, numbered, defaultFooter, fuel);
  }
}
