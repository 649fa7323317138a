/**
 * The project description as the chart reads it, and the reference
 * resolver: it turns the timing expression of a row (a date, a number, a
 * reference to another row by name, or a reference plus a delta) into a
 * position on the unit grid, following chains of references.
 */
module Resolver {
  import opened Wrappers
  import opened Dates

  /** A value in the project's `options` mapping. */
  datatype OptionValue = Null | Flag(b: bool) | Number(v: real) | Text(s: string)

  /** Truth value of an option as a condition: false, zero, empty text and null are false. */
  predicate Truthy(o: OptionValue) {
    match o
    case Null => false
    case Flag(b) => b
    case Number(v) => v != 0.0
    case Text(s) => s != ""
  }

  /** A timing expression: a date, a grid number, a reference by name, or `[reference, delta]`. */
  datatype Expr = Day(d: Date) | Num(v: real) | Ref(text: string) | Shift(base: Expr, delta: real)

  datatype Color = Color(r: int, g: int, b: int)

  datatype Key = Key(name: string, color: Color)

  /** One interval of a breaks or phases row. */
  datatype Span = Span(name: string, at: Expr, length: real)

  /** The `dep` field: one expression, or a list of them. */
  datatype DepField = One(dep: Expr) | Several(deps: seq<Expr>)

  /** One row of the project; `None` marks a field absent from the description. */
  datatype Row = Row(
    name: string,
    at: Option<Expr>,
    length: Option<real>,
    dep: Option<DepField>,
    key: Option<string>,
    stripe: Option<bool>,
    gap: Option<bool>,
    breaks: Option<seq<Span>>,
    phases: Option<seq<Span>>,
    ordinal: int)

  datatype Project = Project(
    unit: Unit,
    start: Date,
    length: int,
    rows: seq<Row>,
    keys: Option<seq<Key>>,
    options: Option<map<string, OptionValue>>)

  /** An option's value, or `default` when there is no options mapping or no such option. */
  function GetOption(name: string, p: Project, default: OptionValue): (r: OptionValue)
    ensures p.options.Some? && name in p.options.value ==> r == p.options.value[name]
    ensures (p.options.None? || name !in p.options.value) ==> r == default
  {
    if p.options.None? then default
    else if name !in p.options.value then default
    else p.options.value[name]
  }

  /** The amount subtracted from grid numbers: 1 when numbering is one-based. */
  function Offset(p: Project): real {
    if Truthy(GetOption("one_based", p, Null)) then 1.0 else 0.0
  }

  // ---------------------------------------------------------------------
  // Matching a name against a pattern: case-insensitive prefix match that
  // must end at a word boundary. The pattern is taken as literal text.

  predicate IsWordChar(c: char) {
    'a' <= c <= 'z' || 'A' <= c <= 'Z' || '0' <= c <= '9' || c == '_'
  }

  function Lower(c: char): char {
    if 'A' <= c <= 'Z' then (c as int + 32) as char else c
  }

  /** `a` and `b` are the same text up to ASCII letter case. */
  predicate SameIgnoringCase(a: string, b: string) {
    |a| == |b| && forall k :: 0 <= k < |a| ==> Lower(a[k]) == Lower(b[k])
  }

  /** Position `i` of `s` lies between a word character and a non-word character (or an end). */
  predicate WordBoundary(s: string, i: int)
    requires 0 <= i <= |s|
  {
    (i > 0 && IsWordChar(s[i - 1])) != (i < |s| && IsWordChar(s[i]))
  }

  predicate NameMatches(pattern: string, name: string) {
    |pattern| <= |name| && SameIgnoringCase(pattern, name[..|pattern|]) && WordBoundary(name, |pattern|)
  }

  /** A text led by `+` or `-` is split into that sign and the rest. */
  function SplitSign(text: string): (r: Option<(char, string)>)
    ensures r.Some? <==> |text| > 0 && (text[0] == '+' || text[0] == '-')
    ensures r.Some? ==> [r.value.0] + r.value.1 == text
  {
    if |text| > 0 && (text[0] == '+' || text[0] == '-') then Some((text[0], text[1..])) else None
  }

  /** The pattern with one leading sign removed, as looked up by name. */
  function Unsigned(text: string): string {
    match SplitSign(text)
    case Some((_, rest)) => rest
    case None => text
  }

  /** The names of the rows, in order, as `find_item` searches them. */
  function Names(rows: seq<Row>): (r: seq<string>)
    ensures |r| == |rows| && forall k :: 0 <= k < |rows| ==> r[k] == rows[k].name
  {
    if |rows| == 0 then [] else [rows[0].name] + Names(rows[1..])
  }

  /** The names of the keys, searched by `get_key` as `Names` is by `find_item`; rows and keys are different records. */
  function KeyNames(keys: seq<Key>): (r: seq<string>)
    ensures |r| == |keys| && forall k :: 0 <= k < |keys| ==> r[k] == keys[k].name
  {
    if |keys| == 0 then [] else [keys[0].name] + KeyNames(keys[1..])
  }

  /** The index of the first name the pattern matches. */
  function FirstMatch(pattern: string, names: seq<string>): (r: Option<nat>)
    ensures r.Some? ==> r.value < |names| && NameMatches(pattern, names[r.value])
    ensures r.Some? ==> forall k :: 0 <= k < r.value ==> !NameMatches(pattern, names[k])
    ensures r.None? ==> forall k :: 0 <= k < |names| ==> !NameMatches(pattern, names[k])
  {
    if |names| == 0 then None
    else if NameMatches(pattern, names[0]) then Some(0)
    else match FirstMatch(pattern, names[1..])
      case None => None
      case Some(i) => Some(i + 1)
  }

  /** The anchor of a reference: its leading sign, `+` (the end of the row) when it has none. */
  function Anchor(text: string): (r: char)
    ensures r == '+' || r == '-'
    ensures r == '-' <==> |text| > 0 && text[0] == '-'
  {
    match SplitSign(text)
    case Some((sign, _)) => sign
    case None => '+'
  }

  /**
   * The row a reference names: the resolver drops the reference's sign and
   * the row search drops one more leading sign before matching names.
   */
  function RefTarget(text: string, p: Project): Option<nat> {
    FirstMatch(Unsigned(Unsigned(text)), Names(p.rows))
  }

  /**
   * `find_item`: the first row whose name the pattern matches, after one
   * leading sign is dropped; `None` when no row matches.
   */
  method FindItem(pattern: string, rows: seq<Row>) returns (r: Option<nat>)
    ensures r == FirstMatch(Unsigned(pattern), Names(rows))
    ensures r.Some? ==> r.value < |rows| && NameMatches(Unsigned(pattern), rows[r.value].name)
  {
    var text := pattern;
    var m := SplitSign(pattern);
    if m.Some? {
      text := m.value.1;
    }
    var i := 0;
    while i < |rows|
      invariant 0 <= i <= |rows|
      invariant forall k :: 0 <= k < i ==> !NameMatches(text, rows[k].name)
    {
      if NameMatches(text, rows[i].name) {
        FirstMatchIsFirst(text, Names(rows), i);
        return Some(i);
      }
      i := i + 1;
    }
    FirstMatchIsFirst(text, Names(rows), |rows|);
    return None;
  }

  /** When nothing before `i` matches, the first match is `i` (if it matches), or lies beyond it. */
  lemma FirstMatchIsFirst(pattern: string, names: seq<string>, i: nat)
    requires i <= |names|
    requires forall k :: 0 <= k < i ==> !NameMatches(pattern, names[k])
    ensures i < |names| && NameMatches(pattern, names[i]) ==> FirstMatch(pattern, names) == Some(i)
    ensures i == |names| ==> FirstMatch(pattern, names) == None
  {
  }

  /**
   * `get_key`: the first key whose name the given text matches (no sign is
   * dropped); `None` when the project has no key list or no key matches.
   */
  method GetKey(name: string, p: Project) returns (r: Option<Key>)
    ensures p.keys.None? ==> r.None?
    ensures p.keys.Some? ==>
      match FirstMatch(name, KeyNames(p.keys.value))
      case None => r.None?
      case Some(i) => r == Some(p.keys.value[i])
  {
    if p.keys.None? {
      return None;
    }
    var keys := p.keys.value;
    var i := 0;
    while i < |keys|
      invariant 0 <= i <= |keys|
      invariant forall k :: 0 <= k < i ==> !NameMatches(name, keys[k].name)
    {
      if NameMatches(name, keys[i].name) {
        FirstMatchIsFirst(name, KeyNames(keys), i);
        return Some(keys[i]);
      }
      i := i + 1;
    }
    FirstMatchIsFirst(name, KeyNames(keys), |keys|);
    return None;
  }

  // ---------------------------------------------------------------------
  // Resolution. Reference chains are followed without a cycle check; each
  // step through a reference spends one unit of `fuel`, and `None` stands
  // for a reference that names no row, a referenced row without `at`, or a
  // chain longer than the fuel (the unbounded recursion of a cycle).

  /** `find_at`: the grid position of a timing expression. */
  function FindAt(e: Expr, p: Project, fuel: nat): (r: Option<real>)
    ensures e.Ref? && r.Some? ==> fuel > 0 && RefTarget(e.text, p).Some?
    decreases fuel, 0, e
  {
    match e
    case Day(d) => Some(Dur(p.unit, Normalize(p.unit, p.start), d))
    case Num(v) => Some(v - Offset(p))
    case Ref(text) =>
      if fuel == 0 then None
      else (match RefTarget(text, p)
        case None => None
        case Some(i) =>
          (match GetTiming(p.rows[i], p, fuel - 1)
           case None => None
           case Some((at, length)) => Some(if Anchor(text) == '+' then at + length else at)))
    case Shift(base, delta) =>
      match FindAt(base, p, fuel)
      case None => None
      case Some(at) => Some(at + delta)
  }

  /** `get_timing`: a row's position and its length, 0 for a milestone. */
  function GetTiming(row: Row, p: Project, fuel: nat): (r: Option<(real, real)>)
    ensures r.Some? ==> row.at.Some? && row.length.Some? ==> r.value.1 == row.length.value
    ensures r.Some? ==> row.length.None? ==> r.value.1 == 0.0
    decreases fuel, 1
  {
    if row.at.None? then None
    else match FindAt(row.at.value, p, fuel)
      case None => None
      case Some(at) => Some((at, if row.length.Some? then row.length.value else 0.0))
  }

  /** More fuel never changes a position that was found. */
  lemma {:induction false} FindAtFuelMonotone(e: Expr, p: Project, fuel: nat, more: nat)
    requires fuel <= more && FindAt(e, p, fuel).Some?
    ensures FindAt(e, p, more) == FindAt(e, p, fuel)
    decreases fuel, 0, e, 1
  {
    match e
    case Day(_) =>
    case Num(_) =>
    case Ref(text) =>
      RefFuelMonotone(text, p, fuel, more);
    case Shift(base, _) =>
      assert FindAt(base, p, fuel).Some?;
      FindAtFuelMonotone(base, p, fuel, more);
  }

  lemma {:induction false} RefFuelMonotone(text: string, p: Project, fuel: nat, more: nat)
    requires fuel <= more && FindAt(Ref(text), p, fuel).Some?
    ensures FindAt(Ref(text), p, more) == FindAt(Ref(text), p, fuel)
    decreases fuel, 0, Ref(text), 0
  {
    var i := RefTarget(text, p).value;
    assert GetTiming(p.rows[i], p, fuel - 1).Some?;
    GetTimingFuelMonotone(p.rows[i], p, fuel - 1, more - 1);
  }

  lemma {:induction false} GetTimingFuelMonotone(row: Row, p: Project, fuel: nat, more: nat)
    requires fuel <= more && GetTiming(row, p, fuel).Some?
    ensures GetTiming(row, p, more) == GetTiming(row, p, fuel)
    decreases fuel, 1
  {
    FindAtFuelMonotone(row.at.value, p, fuel, more);
  }

  /** A row whose `at` refers to the row itself never resolves, whatever the fuel. */
  lemma {:induction false} SelfReferenceNeverResolves(p: Project, i: nat, text: string, fuel: nat)
    requires i < |p.rows| && p.rows[i].at == Some(Ref(text))
    requires RefTarget(text, p) == Some(i)
    ensures FindAt(Ref(text), p, fuel).None?
  {
    if fuel > 0 {
      SelfReferenceNeverResolves(p, i, text, fuel - 1);
    }
  }

  /**
   * A reference anchors at the end of the row it names (`+` or no sign) or
   * at its start (`-`): position plus length, or position alone.
   */
  lemma AnchoredReference(p: Project, name: string, fuel: nat, at: real, length: real)
    requires fuel > 0 && |name| > 0 && name[0] != '+' && name[0] != '-'
    requires RefTarget(name, p).Some?
    requires GetTiming(p.rows[RefTarget(name, p).value], p, fuel - 1) == Some((at, length))
    ensures FindAt(Ref(['+'] + name), p, fuel) == Some(at + length)
    ensures FindAt(Ref(name), p, fuel) == Some(at + length)
    ensures FindAt(Ref(['-'] + name), p, fuel) == Some(at)
  {
    SignsDropped('+', '+', name);
    SignsDropped('-', '+', name);
    PlainName(name);
    ResolvedReference(p, ['+'] + name, fuel, at, length);
    ResolvedReference(p, name, fuel, at, length);
    ResolvedReference(p, ['-'] + name, fuel, at, length);
  }

  lemma ResolvedReference(p: Project, text: string, fuel: nat, at: real, length: real)
    requires fuel > 0 && RefTarget(text, p).Some?
    requires GetTiming(p.rows[RefTarget(text, p).value], p, fuel - 1) == Some((at, length))
    ensures FindAt(Ref(text), p, fuel) == Some(if Anchor(text) == '+' then at + length else at)
  {
  }

  lemma PlainName(name: string)
    requires |name| > 0 && name[0] != '+' && name[0] != '-'
    ensures Anchor(name) == '+' && Unsigned(Unsigned(name)) == name
  {
  }

  /**
   * The sign is dropped twice on the way to the row: a second sign after the
   * first is ignored, so `+-A` resolves like `+A` and `-+A` like `-A`.
   */
  lemma SecondSignIgnored(p: Project, anchor: char, extra: char, name: string, fuel: nat)
    requires anchor in "+-" && extra in "+-"
    requires |name| > 0 && name[0] != '+' && name[0] != '-'
    ensures FindAt(Ref([anchor, extra] + name), p, fuel) == FindAt(Ref([anchor] + name), p, fuel)
  {
    SignsDropped(anchor, extra, name);
  }

  lemma SignsDropped(anchor: char, extra: char, name: string)
    requires anchor in "+-" && extra in "+-"
    requires |name| > 0 && name[0] != '+' && name[0] != '-'
    ensures Anchor([anchor, extra] + name) == Anchor([anchor] + name) == anchor
    ensures Unsigned(Unsigned([anchor, extra] + name)) == Unsigned(Unsigned([anchor] + name)) == name
  {
    assert ([anchor, extra] + name)[1..] == [extra] + name;
    assert ([anchor] + name)[1..] == name;
    assert ([extra] + name)[1..] == name;
  }

  /**
   * A date resolves to its distance from the chart's first unit and is not
   * shifted for one-based numbering: the start of the `k`-th unit resolves
   * to `k` whatever the option says, where the number `k` resolves to `k - 1`
   * under one-based numbering.
   */
  lemma DateOfUnitStart(p: Project, k: nat, fuel: nat)
    ensures FindAt(Day(UnitStart(p.unit, Normalize(p.unit, p.start), k)), p, fuel) == Some(k as real)
    ensures FindAt(Num(k as real), p, fuel) == Some(k as real - Offset(p))
  {
    NormalizeIdempotent(p.unit, p.start);
    DurOfUnitStart(p.unit, Normalize(p.unit, p.start), k);
  }

  /** A pair `[base, delta]` resolves to `delta` past where `base` resolves, and fails with it. */
  lemma ShiftAddsDelta(base: Expr, delta: real, p: Project, fuel: nat)
    ensures FindAt(Shift(base, delta), p, fuel).Some? <==> FindAt(base, p, fuel).Some?
    ensures FindAt(base, p, fuel).Some? ==> FindAt(Shift(base, delta), p, fuel).value == FindAt(base, p, fuel).value + delta
  {
  }

  /**
   * Reference chaining: with row `A` at 2 for 3 units, a row at `+A` is at 5
   * and one at `-A` is at 2.
   */
  lemma ChainingScenario(fuel: nat)
    requires fuel >= 2
    ensures var a := Row("A", Some(Num(2.0)), Some(3.0), None, None, None, None, None, None, 0);
      var b := Row("B", Some(Ref("+A")), None, None, None, None, None, None, None, 1);
      var p := Project(Week, Ymd(2015, 11, 2), 10, [a, b], None, None);
      GetTiming(b, p, fuel) == Some((5.0, 0.0)) && FindAt(Ref("-A"), p, fuel) == Some(2.0)
  {
    var a := Row("A", Some(Num(2.0)), Some(3.0), None, None, None, None, None, None, 0);
    var b := Row("B", Some(Ref("+A")), None, None, None, None, None, None, None, 1);
    var p := Project(Week, Ymd(2015, 11, 2), 10, [a, b], None, None);
    assert NameMatches("A", "A");
    assert Names(p.rows)[0] == "A";
    assert FirstMatch("A", Names(p.rows)) == Some(0);
    assert Offset(p) == 0.0;
    assert GetTiming(a, p, fuel - 1) == Some((2.0, 3.0));
    assert "+A" == ['+'] + "A" && "-A" == ['-'] + "A";
    AnchoredReference(p, "A", fuel, 2.0, 3.0);
    assert FindAt(Ref("+A"), p, fuel) == Some(5.0);
  }
}
