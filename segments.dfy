/**
 * The segment merge engine: dependency lines of one page are collected as
 * axis-aligned segments and merged pairwise before they are drawn as dashed
 * lines, so that two lines on the same track do not draw their dashes twice.
 */
module Segments {
  import opened Wrappers

  /** A point on the page, in millimetres. */
  datatype Point = Point(x: real, y: real)

  /** A line segment: the pair of its two end points, in the order they were appended. */
  datatype Segment = Segment(start: Point, end: Point)

  datatype Axis = X | Y

  function Coord(a: Axis, p: Point): real {
    match a
    case X => p.x
    case Y => p.y
  }

  /** All four end points of `s` and `t` share their coordinate on axis `a`. */
  predicate Inline(a: Axis, s: Segment, t: Segment) {
    Coord(a, s.start) == Coord(a, s.end) == Coord(a, t.start) == Coord(a, t.end)
  }

  /** The segment runs from its start towards larger coordinates on both axes. */
  predicate Ordered(s: Segment) {
    s.start.x <= s.end.x && s.start.y <= s.end.y
  }

  /** For an ordered axis-aligned segment: `c` lies on it. */
  predicate OnSegment(s: Segment, c: Point) {
    s.start.x <= c.x <= s.end.x && s.start.y <= c.y <= s.end.y
  }

  /** `c` lies on one of the segments of `lst`. */
  predicate Covered(lst: seq<Segment>, c: Point) {
    exists m :: 0 <= m < |lst| && OnSegment(lst[m], c)
  }

  /**
   * Merge two segments along axis `a`: when the second one starts inside the
   * first, the result runs from the first's start to the second's end; else
   * when the second one ends inside the first, it runs from the second's start
   * to the first's end; otherwise there is nothing to merge.
   */
  function MaybeMerge(a: Axis, s: Segment, t: Segment): (r: Option<Segment>)
    ensures r.Some? ==> (r.value.start == s.start || r.value.start == t.start)
    ensures r.Some? ==> (r.value.end == s.end || r.value.end == t.end)
  {
    var s1, s2, e1, e2 := Coord(a, s.start), Coord(a, t.start), Coord(a, s.end), Coord(a, t.end);
    if s1 <= s2 && s2 <= e1 then Some(Segment(s.start, t.end))
    else if s1 <= e2 && e2 <= e1 then Some(Segment(t.start, s.end))
    else None
  }

  /**
   * For segments ordered along `a`, a merge happens exactly when their spans
   * overlap or touch, except when the second span strictly encloses the first.
   */
  lemma MergeCondition(a: Axis, s: Segment, t: Segment)
    requires Coord(a, s.start) <= Coord(a, s.end) && Coord(a, t.start) <= Coord(a, t.end)
    ensures MaybeMerge(a, s, t).Some? <==>
      (Coord(a, t.start) <= Coord(a, s.end) && Coord(a, s.start) <= Coord(a, t.end)) &&
      !(Coord(a, t.start) < Coord(a, s.start) && Coord(a, s.end) < Coord(a, t.end))
  {
  }

  /**
   * Merge two segments that lie on one vertical line (merged along y) or on
   * one horizontal line (merged along x); anything else is not merged.
   */
  function MaybeMergeBoth(s: Segment, t: Segment): (r: Option<Segment>)
    ensures r.Some? ==> Inline(X, s, t) || Inline(Y, s, t)
    ensures r.Some? && Inline(X, s, t) ==> Inline(X, r.value, s)
    ensures r.Some? && Inline(Y, s, t) ==> Inline(Y, r.value, s)
  {
    if Inline(X, s, t) then MaybeMerge(Y, s, t)
    else if Inline(Y, s, t) then MaybeMerge(X, s, t)
    else None
  }

  /** Merging ordered segments gives an ordered segment that covers no point the two did not. */
  lemma MergeAddsNothing(s: Segment, t: Segment)
    requires Ordered(s) && Ordered(t) && MaybeMergeBoth(s, t).Some?
    ensures Ordered(MaybeMergeBoth(s, t).value)
    ensures forall c :: OnSegment(MaybeMergeBoth(s, t).value, c) ==> OnSegment(s, c) || OnSegment(t, c)
  {
  }

  /** When the second segment starts inside the first and ends beyond it, the merge is their union. */
  lemma StaggeredMergeIsUnion(s: Segment, t: Segment)
    requires Ordered(s) && Ordered(t) && Inline(X, s, t)
    requires s.start.y <= t.start.y <= s.end.y <= t.end.y
    ensures MaybeMergeBoth(s, t).Some?
    ensures forall c :: OnSegment(MaybeMergeBoth(s, t).value, c) <==> OnSegment(s, c) || OnSegment(t, c)
  {
  }

  /**
   * A segment nested strictly inside the first one is merged into a segment
   * that stops at the nested one's end, so the rest of the first is lost.
   */
  lemma NestedMergeDropsCover()
    ensures var s, t := Segment(Point(0.0, 0.0), Point(0.0, 4.0)), Segment(Point(0.0, 1.0), Point(0.0, 2.0));
      MaybeMergeBoth(s, t) == Some(Segment(Point(0.0, 0.0), Point(0.0, 2.0))) &&
      OnSegment(s, Point(0.0, 3.0)) && !OnSegment(MaybeMergeBoth(s, t).value, Point(0.0, 3.0))
  {
  }

  /** An axis-aligned ordered segment merged with an exact copy of itself gives itself back. */
  lemma DuplicateMergesToItself(s: Segment)
    requires Ordered(s) && (s.start.x == s.end.x || s.start.y == s.end.y)
    ensures MaybeMergeBoth(s, s) == Some(s)
  {
  }

  /** No pair `lst[a]`, `lst[b]` with `a < i` and `a < b` merges. */
  ghost predicate NoPairFrom(lst: seq<Segment>, i: int) {
    forall a, b :: 0 <= a < i && a < b < |lst| ==> MaybeMergeBoth(lst[a], lst[b]).None?
  }

  /** No segment merges with any later one: the fixed point of the merge engine. */
  ghost predicate NoMergeablePair(lst: seq<Segment>) {
    NoPairFrom(lst, |lst|)
  }

  /** `s` is a segment of `lst` or the merge of an earlier segment of `lst` with a later one. */
  ghost predicate MadeFrom(s: Segment, lst: seq<Segment>) {
    s in lst || exists a, b :: 0 <= a < b < |lst| && MaybeMergeBoth(lst[a], lst[b]) == Some(s)
  }

  /** The number of segments still waiting to be handled. */
  function Live(status: seq<bool>): nat {
    if |status| == 0 then 0 else (if status[0] then 1 else 0) + Live(status[1..])
  }

  lemma {:induction false} LiveAll(n: nat)
    ensures Live(seq(n, _ => true)) == n
  {
    if n > 0 {
      assert seq(n, _ => true)[1..] == seq(n - 1, _ => true);
      LiveAll(n - 1);
    }
  }

  lemma {:induction false} LiveClear(status: seq<bool>, k: int)
    requires 0 <= k < |status| && status[k]
    ensures Live(status[k := false]) == Live(status) - 1
  {
    if k > 0 {
      assert status[k := false][1..] == status[1..][k - 1 := false];
      LiveClear(status[1..], k - 1);
    }
  }

  lemma {:induction false} LiveNone(status: seq<bool>)
    requires forall k :: 0 <= k < |status| ==> !status[k]
    ensures Live(status) == 0
  {
    if |status| > 0 {
      LiveNone(status[1..]);
    }
  }

  /**
   * One pass of the merge engine. Each segment still live takes the first
   * live segment it merges with out of play and contributes the merged
   * segment, or contributes itself when it merges with none.
   */
  method MergePass(lst: seq<Segment>) returns (next: seq<Segment>)
    ensures |next| <= |lst|
    ensures |next| == |lst| ==> next == lst && NoMergeablePair(lst)
    ensures NoMergeablePair(lst) ==> |next| == |lst|
    ensures forall k :: 0 <= k < |next| ==> MadeFrom(next[k], lst)
    ensures |lst| > 0 ==> |next| > 0
  {
    next := [];
    var status := seq(|lst|, _ => true);
    LiveAll(|lst|);
    ghost var merges := 0;
    var i := 0;
    while i < |lst|
      invariant 0 <= i <= |lst| && |status| == |lst|
      invariant forall k :: 0 <= k < i ==> !status[k]
      invariant |next| + Live(status) + merges == |lst|
      invariant merges == 0 ==> next == lst[..i] && NoPairFrom(lst, i)
      invariant merges == 0 ==> forall k :: i <= k < |lst| ==> status[k]
      invariant merges > 0 ==> !NoMergeablePair(lst)
      invariant forall k :: 0 <= k < |next| ==> MadeFrom(next[k], lst)
      invariant i == 0 ==> merges == 0
      invariant i > 0 ==> |next| > 0
    {
      if !status[i] {
        i := i + 1;
        continue;
      }
      LiveClear(status, i);
      status := status[i := false];
      ghost var before := status;
      var didMerge := false;
      var j := 0;
      while j < |lst|
        invariant 0 <= j <= |lst| && status == before && !didMerge
        invariant forall b :: 0 <= b < j && status[b] ==> MaybeMergeBoth(lst[i], lst[b]).None?
      {
        if !status[j] {
          j := j + 1;
          continue;
        }
        var r := MaybeMergeBoth(lst[i], lst[j]);
        if r.Some? {
          assert i < j;
          LiveClear(status, j);
          status := status[j := false];
          next := next + [r.value];
          merges := merges + 1;
          didMerge := true;
          break;
        }
        j := j + 1;
      }
      if !didMerge {
        next := next + [lst[i]];
      }
      i := i + 1;
    }
    LiveNone(status);
  }

  /** The start points of the segments of `lst`, in order. */
  function Starts(lst: seq<Segment>): (r: seq<Point>)
    ensures |r| == |lst| && forall i :: 0 <= i < |lst| ==> r[i] == lst[i].start
  {
    if |lst| == 0 then [] else [lst[0].start] + Starts(lst[1..])
  }

  /** The end points of the segments of `lst`, in order. */
  function Ends(lst: seq<Segment>): (r: seq<Point>)
    ensures |r| == |lst| && forall i :: 0 <= i < |lst| ==> r[i] == lst[i].end
  {
    if |lst| == 0 then [] else [lst[0].end] + Ends(lst[1..])
  }

  /** Every segment of `lst` starts at a start point of `base` and ends at an end point of `base`. */
  ghost predicate EndsFrom(lst: seq<Segment>, base: seq<Segment>) {
    forall k :: 0 <= k < |lst| ==> lst[k].start in Starts(base) && lst[k].end in Ends(base)
  }

  /** A merge starts where one of its inputs starts and ends where one of them ends. */
  lemma MergeKeepsEnds(s: Segment, t: Segment)
    ensures MaybeMergeBoth(s, t).Some? ==>
      (MaybeMergeBoth(s, t).value.start == s.start || MaybeMergeBoth(s, t).value.start == t.start) &&
      (MaybeMergeBoth(s, t).value.end == s.end || MaybeMergeBoth(s, t).value.end == t.end)
  {
    if Inline(X, s, t) {
      assert MaybeMergeBoth(s, t) == MaybeMerge(Y, s, t);
    } else if Inline(Y, s, t) {
      assert MaybeMergeBoth(s, t) == MaybeMerge(X, s, t);
    }
  }

  /** A pass builds its segments from the input's start and end points only. */
  lemma PassEndsFrom(lst: seq<Segment>, next: seq<Segment>)
    requires forall k :: 0 <= k < |next| ==> MadeFrom(next[k], lst)
    ensures EndsFrom(next, lst)
  {
    var starts, ends := Starts(lst), Ends(lst);
    forall k | 0 <= k < |next|
      ensures next[k].start in starts && next[k].end in ends
    {
      if next[k] in lst {
        var m :| 0 <= m < |lst| && lst[m] == next[k];
        assert starts[m] == next[k].start && ends[m] == next[k].end;
      } else {
        var a, b :| 0 <= a < b < |lst| && MaybeMergeBoth(lst[a], lst[b]) == Some(next[k]);
        var s, t := lst[a], lst[b];
        MergeKeepsEnds(s, t);
        assert starts[a] == s.start && starts[b] == t.start && ends[a] == s.end && ends[b] == t.end;
      }
    }
  }

  lemma EndsFromTransitive(a: seq<Segment>, b: seq<Segment>, c: seq<Segment>)
    requires EndsFrom(a, b) && EndsFrom(b, c)
    ensures EndsFrom(a, c)
  {
    forall k | 0 <= k < |a|
      ensures a[k].start in Starts(c) && a[k].end in Ends(c)
    {
      var m :| 0 <= m < |b| && Starts(b)[m] == a[k].start;
      var n :| 0 <= n < |b| && Ends(b)[n] == a[k].end;
      assert b[m].start in Starts(c) && b[n].end in Ends(c);
    }
  }

  /** Every point on a segment of `lst` is covered by `base`. */
  ghost predicate CoveredIn(lst: seq<Segment>, base: seq<Segment>) {
    forall k, c :: 0 <= k < |lst| && OnSegment(lst[k], c) ==> Covered(base, c)
  }

  lemma PassAddsNothing(lst: seq<Segment>, next: seq<Segment>)
    requires forall k :: 0 <= k < |lst| ==> Ordered(lst[k])
    requires forall k :: 0 <= k < |next| ==> MadeFrom(next[k], lst)
    ensures forall k :: 0 <= k < |next| ==> Ordered(next[k])
    ensures CoveredIn(next, lst)
  {
    forall k | 0 <= k < |next|
      ensures Ordered(next[k]) && forall c :: OnSegment(next[k], c) ==> Covered(lst, c)
    {
      if next[k] !in lst {
        var a, b :| 0 <= a < b < |lst| && MaybeMergeBoth(lst[a], lst[b]) == Some(next[k]);
        MergeAddsNothing(lst[a], lst[b]);
      }
    }
  }

  lemma CoveredInTransitive(a: seq<Segment>, b: seq<Segment>, c: seq<Segment>)
    requires CoveredIn(a, b) && CoveredIn(b, c)
    ensures CoveredIn(a, c)
  {
    forall k, p | 0 <= k < |a| && OnSegment(a[k], p)
      ensures Covered(c, p)
    {
      assert Covered(b, p);
      var m :| 0 <= m < |b| && OnSegment(b[m], p);
    }
  }

  /**
   * What the merge engine guarantees of its output `after` for input
   * `before`: no longer, no mergeable pair left, unchanged when nothing
   * merged, and on ordered segments no new point covered.
   */
  ghost predicate Flush(before: seq<Segment>, after: seq<Segment>) {
    |after| <= |before| && (|before| > 0 ==> |after| > 0) && EndsFrom(after, before) &&
    NoMergeablePair(after) && (NoMergeablePair(before) ==> after == before) &&
    ((forall k :: 0 <= k < |before| ==> Ordered(before[k])) ==>
      (forall k :: 0 <= k < |after| ==> Ordered(after[k])) && CoveredIn(after, before))
  }

  /**
   * The merge engine: passes are repeated until one leaves the number of
   * segments unchanged. The result has no pair left that merges, a list that
   * already had none is returned unchanged (so running the engine twice gives
   * the result of running it once), and on ordered segments no point is
   * covered that was not covered before.
   */
  method NormalizeGrid(lst: seq<Segment>) returns (out: seq<Segment>)
    ensures |out| <= |lst| && (|lst| > 0 ==> |out| > 0)
    ensures EndsFrom(out, lst)
    ensures NoMergeablePair(out)
    ensures NoMergeablePair(lst) ==> out == lst
    ensures (forall k :: 0 <= k < |lst| ==> Ordered(lst[k])) ==>
      (forall k :: 0 <= k < |out| ==> Ordered(out[k])) && CoveredIn(out, lst)
    decreases |lst|
  {
    var next := MergePass(lst);
    PassEndsFrom(lst, next);
    if (forall k :: 0 <= k < |lst| ==> Ordered(lst[k])) {
      PassAddsNothing(lst, next);
    }
    if |lst| == |next| {
      out := next;
    } else {
      out := NormalizeGrid(next);
      EndsFromTransitive(out, next, lst);
      if (forall k :: 0 <= k < |lst| ==> Ordered(lst[k])) {
        CoveredInTransitive(out, next, lst);
      }
    }
  }

  /**
   * The engine run on a list holding one ordered axis-aligned segment twice
   * returns exactly that segment once.
   */
  lemma DuplicateFlushesToOne(v: Segment, out: seq<Segment>)
    requires Ordered(v) && (v.start.x == v.end.x || v.start.y == v.end.y)
    requires Flush([v, v], out)
    ensures out == [v]
  {
    DuplicateMergesToItself(v);
    forall k | 0 <= k < |out|
      ensures out[k] == v
    {
      assert Starts([v, v]) == [v.start, v.start] && Ends([v, v]) == [v.end, v.end];
      assert out[k].start == v.start && out[k].end == v.end;
    }
    CopiesMerge(out, v);
  }

  /** In a list of copies of a segment that merges with itself, the first two merge. */
  lemma CopiesMerge(lst: seq<Segment>, v: Segment)
    requires MaybeMergeBoth(v, v).Some? && forall k :: 0 <= k < |lst| ==> lst[k] == v
    ensures |lst| >= 2 ==> MaybeMergeBoth(lst[0], lst[1]).Some?
  {
  }
}
