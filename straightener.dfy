/**
 * The integer core of the Java straightener.  Each column of a mask is reduced to one
 * carrot segment, the segments' centres give per-column offsets, opposite offsets of
 * neighbouring columns cancel, widths are smoothed, and every column is rebuilt as a
 * centred white bar before the result is trimmed to its white rows.  The output file
 * name gets the measured curvature.
 *
 * A bitmap is given as its columns of red values, `bm[x][y]` for `getRGB(x, y)`.
 */
module Straightener {
  import opened Wrappers
  import opened Numeric
  import opened Text
  import Pixels

  /** Runs of carrot rows shorter than this are taken for root hairs. */
  const Threshold: int := 100
  const SmoothingWindow: int := 20
  /** `Color.BLACK.getRGB()` and `Color.WHITE.getRGB()` as Java ints. */
  const Black: int := -16777216
  const White: int := -1
  const IntMax: int := 0x7fff_ffff

  /** `isCarrot`: the red channel is above 128. */
  predicate IsCarrot(red: int) { red > 128 }

  // ---------------------------------------------------------------- findCarrot

  /** The last row of the run of carrot rows that continues from row `i`. */
  function RunEnd(reds: seq<int>, i: nat): (e: nat)
    requires i < |reds|
    ensures i <= e < |reds|
    ensures forall y :: i < y <= e ==> IsCarrot(reds[y])
    ensures e + 1 < |reds| ==> !IsCarrot(reds[e + 1])
    decreases |reds| - i
  {
    if i + 1 < |reds| && IsCarrot(reds[i + 1]) then RunEnd(reds, i + 1) else i
  }

  /** The maximal runs of carrot rows from row `i` down, as (first row, last row). */
  function RunsFrom(reds: seq<int>, i: nat): seq<(int, int)>
    decreases |reds| - i
  {
    if i >= |reds| then []
    else if !IsCarrot(reds[i]) then RunsFrom(reds, i + 1)
    else
      var e := RunEnd(reds, i);
      [(i, e)] + RunsFrom(reds, e + 1)
  }

  /** `(s, e)` is a maximal run of carrot rows. */
  predicate IsRun(reds: seq<int>, s: int, e: int)
  {
    0 <= s <= e < |reds|
    && (forall y :: s <= y <= e ==> IsCarrot(reds[y]))
    && (s == 0 || !IsCarrot(reds[s - 1]))
    && (e == |reds| - 1 || !IsCarrot(reds[e + 1]))
  }

  /** Each listed run is a maximal run of carrot rows starting at or below row `i`. */
  lemma {:induction false} RunsFromAreRuns(reds: seq<int>, i: nat)
    requires i <= |reds| && (i == 0 || i == |reds| || !IsCarrot(reds[i - 1]) || !IsCarrot(reds[i]))
    ensures forall k :: 0 <= k < |RunsFrom(reds, i)| ==>
      IsRun(reds, RunsFrom(reds, i)[k].0, RunsFrom(reds, i)[k].1) && i <= RunsFrom(reds, i)[k].0
    decreases |reds| - i
  {
    if i < |reds| {
      if !IsCarrot(reds[i]) {
        RunsFromAreRuns(reds, i + 1);
      } else {
        var e := RunEnd(reds, i);
        RunsFromAreRuns(reds, e + 1);
        var rest := RunsFrom(reds, e + 1);
        var runs := RunsFrom(reds, i);
        assert runs == [(i, e)] + rest;
        assert IsRun(reds, i, e);
        forall k | 0 < k < |runs|
          ensures IsRun(reds, runs[k].0, runs[k].1) && i <= runs[k].0
        {
          assert runs[k] == rest[k - 1];
        }
      }
    }
  }

  /** The listed runs go top to bottom with at least one row between consecutive ones. */
  lemma {:induction false} RunsFromApart(reds: seq<int>, i: nat)
    requires i <= |reds|
    ensures forall k :: 0 <= k < |RunsFrom(reds, i)| ==> i <= RunsFrom(reds, i)[k].0 <= RunsFrom(reds, i)[k].1
    ensures forall k, j :: 0 <= k < j < |RunsFrom(reds, i)| ==> RunsFrom(reds, i)[k].1 + 1 < RunsFrom(reds, i)[j].0
    decreases |reds| - i
  {
    if i < |reds| {
      if !IsCarrot(reds[i]) {
        RunsFromApart(reds, i + 1);
      } else {
        var e := RunEnd(reds, i);
        RunsFromApart(reds, e + 1);
        RunsFromAreRuns(reds, e + 1);
        var rest := RunsFrom(reds, e + 1);
        var runs := RunsFrom(reds, i);
        assert runs == [(i, e)] + rest;
        forall k | 0 < k < |runs|
          ensures i <= runs[k].0 <= runs[k].1
        {
          assert runs[k] == rest[k - 1];
        }
        forall k, j | 0 <= k < j < |runs|
          ensures runs[k].1 + 1 < runs[j].0
        {
          assert runs[j] == rest[j - 1];
          if k > 0 {
            assert runs[k] == rest[k - 1];
          }
        }
      }
    }
  }

  /** No run is listed exactly when no row from `i` on is carrot. */
  lemma {:induction false} RunsFromEmpty(reds: seq<int>, i: nat)
    requires i <= |reds|
    ensures |RunsFrom(reds, i)| == 0 <==> forall y :: i <= y < |reds| ==> !IsCarrot(reds[y])
    decreases |reds| - i
  {
    if i < |reds| && !IsCarrot(reds[i]) {
      RunsFromEmpty(reds, i + 1);
    }
  }

  /** A run of carrot rows from `s` to `e` that stops at `e` ends there. */
  lemma {:induction false} RunEndAt(reds: seq<int>, s: nat, e: nat)
    requires s <= e < |reds| && forall y :: s <= y <= e ==> IsCarrot(reds[y])
    requires e + 1 == |reds| || !IsCarrot(reds[e + 1])
    ensures RunEnd(reds, s) == e
    decreases e - s
  {
    if s < e {
      RunEndAt(reds, s + 1, e);
    }
  }

  /**
   * One run against the current choice (`start < 0`: none yet).  The run replaces the
   * choice when there is none, or when it is longer and the choice is short enough to be
   * a root hair; when both are long the choice is extended to the run's end.
   */
  function Pick(cur: (int, int), run: (int, int)): (int, int)
  {
    var (start, end) := cur;
    var (curStart, curEnd) := run;
    if start < 0 || (end - start < curEnd - curStart && end - start < Threshold) then run
    else if curEnd - curStart >= Threshold && end - start >= Threshold then (start, curEnd)
    else cur
  }

  function PickAll(cur: (int, int), runs: seq<(int, int)>): (int, int)
    decreases |runs|
  {
    if |runs| == 0 then cur else PickAll(Pick(cur, runs[0]), runs[1..])
  }

  /** The segment `findCarrot` reports for a column: the runs picked top to bottom. */
  function CarrotSegment(reds: seq<int>): (int, int)
  {
    PickAll((-1, |reds| - 1), RunsFrom(reds, 0))
  }

  /** `findCarrot` on one column. */
  method FindCarrot(reds: seq<int>) returns (start: int, end: int)
    ensures (start, end) == CarrotSegment(reds)
  {
    var h := |reds|;
    start, end := -1, h - 1;
    var curStart, curEnd := -1, h - 1;
    var y := 0;
    while y < h
      invariant 0 <= y <= h && curEnd == h - 1
      invariant curStart < 0 ==>
        (y == 0 || !IsCarrot(reds[y - 1])) && CarrotSegment(reds) == PickAll((start, end), RunsFrom(reds, y))
      invariant curStart >= 0 ==>
        curStart < y && (curStart == 0 || !IsCarrot(reds[curStart - 1]))
        && (forall k :: curStart <= k < y ==> IsCarrot(reds[k]))
        && CarrotSegment(reds) == PickAll((start, end), RunsFrom(reds, curStart))
    {
      if IsCarrot(reds[y]) && curStart < 0 {
        curStart := y;
      }
      if !IsCarrot(reds[y]) && curStart >= 0 {
        curEnd := y - 1;
        RunEndAt(reds, curStart, curEnd);
        assert RunsFrom(reds, curStart) == [(curStart, curEnd)] + RunsFrom(reds, y);
        if start < 0 || (end - start < curEnd - curStart && end - start < Threshold) {
          start, end := curStart, curEnd;
        } else if curEnd - curStart >= Threshold && end - start >= Threshold {
          end := curEnd;
        }
        curStart := -1;
        curEnd := h - 1;
      }
      y := y + 1;
    }
    if curStart >= 0 {
      RunEndAt(reds, curStart, curEnd);
      assert RunsFrom(reds, curStart) == [(curStart, curEnd)] + RunsFrom(reds, h);
      if start < 0 || (end - start < curEnd - curStart && end - start < Threshold) {
        start, end := curStart, curEnd;
      } else if curEnd - curStart >= Threshold && end - start >= Threshold {
        end := curEnd;
      }
    }
  }

  /** `s` starts a run of carrot rows and `e` ends one. */
  predicate RunStart(reds: seq<int>, s: int) { 0 <= s < |reds| && IsCarrot(reds[s]) && (s == 0 || !IsCarrot(reds[s - 1])) }

  predicate RunLast(reds: seq<int>, e: int) { 0 <= e < |reds| && IsCarrot(reds[e]) && (e == |reds| - 1 || !IsCarrot(reds[e + 1])) }

  /** Picking over runs that come after the current choice keeps a run's start and a run's end. */
  lemma {:induction false} PickAllSpan(reds: seq<int>, cur: (int, int), runs: seq<(int, int)>)
    requires forall k :: 0 <= k < |runs| ==> IsRun(reds, runs[k].0, runs[k].1)
    requires forall k, j :: 0 <= k < j < |runs| ==> runs[k].1 + 1 < runs[j].0
    requires cur.0 >= 0 ==>
      RunStart(reds, cur.0) && RunLast(reds, cur.1) && cur.0 <= cur.1
      && forall k :: 0 <= k < |runs| ==> cur.1 < runs[k].0
    ensures var r := PickAll(cur, runs);
      (r.0 < 0 <==> cur.0 < 0 && |runs| == 0)
      && (r.0 >= 0 ==> RunStart(reds, r.0) && RunLast(reds, r.1) && r.0 <= r.1)
      && (r.0 < 0 ==> r == cur)
    decreases |runs|
  {
    if |runs| > 0 {
      var next := Pick(cur, runs[0]);
      assert IsRun(reds, runs[0].0, runs[0].1);
      assert forall k :: 0 <= k < |runs[1..]| ==> runs[1..][k] == runs[k + 1];
      assert next.0 >= 0;
      PickAllSpan(reds, next, runs[1..]);
    }
  }

  /**
   * `findCarrot` reports start -1 (and end H-1) exactly when no row of the column is
   * carrot; otherwise `0 <= start <= end <= H-1`, start begins a run and end ends one.
   */
  lemma CarrotSegmentSpan(reds: seq<int>)
    ensures var (s, e) := CarrotSegment(reds);
      && (s == -1 <==> forall y :: 0 <= y < |reds| ==> !IsCarrot(reds[y]))
      && (s == -1 ==> e == |reds| - 1)
      && (s != -1 ==> 0 <= s <= e < |reds| && RunStart(reds, s) && RunLast(reds, e))
  {
    RunsFromAreRuns(reds, 0);
    RunsFromApart(reds, 0);
    RunsFromEmpty(reds, 0);
    PickAllSpan(reds, (-1, |reds| - 1), RunsFrom(reds, 0));
  }

  // ---------------------------------------------------------------- getColumnData

  /** One column with carrot: its x, the centre and width of its segment, and its offset change. */
  datatype ColData = ColData(x: int, centerY: int, nominalWidth: int, relAdjust: int)

  /** `(end - start) / 2 + start` */
  function Center(seg: (int, int)): int
  {
    JavaDiv(seg.1 - seg.0, 2) + seg.0
  }

  /** The columns of `[lo, width)` holding carrot, right to left, with their segments. */
  function CarrotColumns(bm: seq<seq<int>>, lo: nat): seq<(int, (int, int))>
    decreases |bm| - lo
  {
    if lo >= |bm| then []
    else
      var seg := CarrotSegment(bm[lo]);
      CarrotColumns(bm, lo + 1) + (if seg.0 < 0 then [] else [(lo, seg)])
  }

  /** How far a segment's centre must move to reach the centre line. */
  function Offset(centerline: int, seg: (int, int)): int { centerline - Center(seg) }

  /**
   * The column data of the listed columns, built in scan order: each column's offset
   * change is the previous column's offset minus its own, and 0 for the first.
   */
  function DataOf(cs: seq<(int, (int, int))>, centerline: int): (r: seq<ColData>)
    ensures |r| == |cs|
  {
    if |cs| == 0 then []
    else
      var init := cs[..|cs| - 1];
      var c := cs[|cs| - 1];
      DataOf(init, centerline) + [
        ColData(c.0, Center(c.1), c.1.1 - c.1.0,
                if |init| == 0 then 0 else Offset(centerline, init[|init| - 1].1) - Offset(centerline, c.1))]
  }

  /**
   * Entry `k` of the column data describes column `k` of the list: its x, its centre, its
   * width and, after the first, the previous column's offset minus its own.
   */
  lemma {:induction false} DataOfAt(cs: seq<(int, (int, int))>, centerline: int, k: nat)
    requires k < |cs|
    ensures DataOf(cs, centerline)[k] == ColData(cs[k].0, Center(cs[k].1), cs[k].1.1 - cs[k].1.0,
      if k == 0 then 0 else Offset(centerline, cs[k - 1].1) - Offset(centerline, cs[k].1))
  {
    var init := cs[..|cs| - 1];
    if k < |cs| - 1 {
      DataOfAt(init, centerline, k);
      assert init[k] == cs[k];
      if k > 0 {
        assert init[k - 1] == cs[k - 1];
      }
    }
  }

  /** `getColumnData`: every column with carrot, from the right edge to the left. */
  function ColumnData(bm: seq<seq<int>>, height: int): seq<ColData>
  {
    DataOf(CarrotColumns(bm, 0), height / 2)
  }

  /** One column of the scan: a column with carrot appends its data, one without adds nothing. */
  lemma ColumnDataStep(bm: seq<seq<int>>, x: nat, centerline: int)
    requires x < |bm|
    ensures var seg := CarrotSegment(bm[x]);
      var cs := CarrotColumns(bm, x + 1);
      if seg.0 < 0 then CarrotColumns(bm, x) == cs
      else
        CarrotColumns(bm, x) == cs + [(x, seg)]
        && DataOf(CarrotColumns(bm, x), centerline) == DataOf(cs, centerline) + [
          ColData(x, Center(seg), seg.1 - seg.0,
                  if |cs| == 0 then 0 else Offset(centerline, cs[|cs| - 1].1) - Offset(centerline, seg))]
  {
    var seg := CarrotSegment(bm[x]);
    if seg.0 >= 0 {
      var cs := CarrotColumns(bm, x + 1);
      assert (cs + [(x, seg)])[..|cs|] == cs;
    }
  }

  /** `getColumnData` scans x from the right edge to the left and skips columns without carrot. */
  method GetColumnData(bm: seq<seq<int>>, height: int) returns (result: seq<ColData>)
    ensures result == ColumnData(bm, height)
  {
    result := [];
    var centerline := height / 2;
    var firstColAdjusted := false;
    var prevColAdjusted := 0;
    ghost var cs: seq<(int, (int, int))> := [];
    var x := |bm| - 1;
    while x >= 0
      invariant -1 <= x < |bm|
      invariant cs == CarrotColumns(bm, x + 1) && result == DataOf(cs, centerline)
      invariant firstColAdjusted <==> |cs| > 0
      invariant |cs| > 0 ==> prevColAdjusted == Offset(centerline, cs[|cs| - 1].1)
      decreases x
    {
      var start, end := FindCarrot(bm[x]);
      ColumnDataStep(bm, x, centerline);
      ghost var seg := CarrotSegment(bm[x]);
      assert start == seg.0 && end == seg.1;
      if start >= 0 {
        var width := end - start;
        var currCenter := JavaDiv(end - start, 2) + start;
        var adjustCol := centerline - currCenter;
        assert currCenter == Center(seg) && adjustCol == Offset(centerline, seg);
        result := result + [ColData(x, currCenter, width, if firstColAdjusted then prevColAdjusted - adjustCol else 0)];
        cs := cs + [(x, seg)];
        firstColAdjusted := true;
        prevColAdjusted := adjustCol;
      }
      x := x - 1;
    }
  }

  function SumRel(cols: seq<ColData>): int
  {
    if |cols| == 0 then 0 else SumRel(cols[..|cols| - 1]) + cols[|cols| - 1].relAdjust
  }

  /**
   * The offset changes telescope: together they are the first column's offset minus the
   * last column's, i.e. how far the centre moves from the rightmost to the leftmost column.
   */
  lemma {:induction false} RelAdjustTelescopes(cs: seq<(int, (int, int))>, centerline: int)
    requires |cs| > 0
    ensures DataOf(cs, centerline)[0].relAdjust == 0
    ensures SumRel(DataOf(cs, centerline)) == Offset(centerline, cs[0].1) - Offset(centerline, cs[|cs| - 1].1)
  {
    var init := cs[..|cs| - 1];
    var d := DataOf(cs, centerline);
    DataOfAt(cs, centerline, 0);
    assert d[..|cs| - 1] == DataOf(init, centerline);
    assert SumRel(d) == SumRel(DataOf(init, centerline)) + d[|cs| - 1].relAdjust;
    if |init| > 0 {
      RelAdjustTelescopes(init, centerline);
      assert init[0] == cs[0] && init[|init| - 1] == cs[|cs| - 2];
      DataOfAt(cs, centerline, |cs| - 1);
    }
  }

  /** A segment's centre lies within the segment. */
  lemma CenterWithin(seg: (int, int))
    requires seg.0 <= seg.1
    ensures seg.0 <= Center(seg) <= seg.1
  {
  }

  // ---------------------------------------------------------------- cancellation passes

  function Sum(s: seq<int>): int
  {
    if |s| == 0 then 0 else Sum(s[..|s| - 1]) + s[|s| - 1]
  }

  lemma {:induction false} SumUpdate(s: seq<int>, i: nat, v: int)
    requires i < |s|
    ensures Sum(s[i := v]) == Sum(s) - s[i] + v
  {
    var t := s[i := v];
    if i < |s| - 1 {
      assert t[..|t| - 1] == s[..|s| - 1][i := v];
      SumUpdate(s[..|s| - 1], i, v);
    } else {
      assert t[..|t| - 1] == s[..|s| - 1];
    }
  }

  /** `|a + b| < |a| + |b|`: the two offsets have opposite signs. */
  predicate Opposite(a: int, b: int) { Abs(a + b) < Abs(a) + Abs(b) }

  /** `v` lies between 0 and `orig`: moved toward zero without crossing it. */
  predicate Toward(v: int, orig: int) { (0 <= v <= orig) || (orig <= v <= 0) }

  /** Neither value is positive while the other is negative. */
  predicate Compatible(a: int, b: int) { (a <= 0 && b <= 0) || (a >= 0 && b >= 0) }

  /**
   * One cancellation: offsets of opposite signs both move toward zero by the smaller
   * magnitude, so their sum is kept and the smaller one becomes 0.
   */
  function Cancel(a1: int, a2: int): (r: (int, int))
    ensures r.0 + r.1 == a1 + a2
    ensures Toward(r.0, a1) && Toward(r.1, a2) && Compatible(r.0, r.1)
    ensures Opposite(a1, a2) <==> (a1 < 0 < a2 || a2 < 0 < a1)
    ensures Opposite(a1, a2) ==> (Abs(a1) <= Abs(a2) ==> r.0 == 0) && (Abs(a2) <= Abs(a1) ==> r.1 == 0)
    ensures !Opposite(a1, a2) ==> r == (a1, a2)
  {
    if Opposite(a1, a2) then
      var delta := Min(Abs(a1), Abs(a2));
      if a1 < 0 then (a1 + delta, a2 - delta) else (a1 - delta, a2 + delta)
    else (a1, a2)
  }

  /** Moving two compatible values toward zero keeps them compatible. */
  lemma TowardKeepsCompatible(a: int, b: int, a': int, b': int)
    requires Compatible(a, b) && Toward(a', a) && Toward(b', b)
    ensures Compatible(a', b')
  {
  }

  /** Every offset is compatible with the one `gap` places before it. */
  predicate CompatibleAt(s: seq<int>, gap: nat)
  {
    CompatibleUpTo(s, gap, |s|)
  }

  /** The same for the offsets before index `n`. */
  predicate CompatibleUpTo(s: seq<int>, gap: nat, n: int)
  {
    forall k :: gap <= k < n && k < |s| ==> Compatible(s[k - gap], s[k])
  }

  /** Every offset of `s` lies between 0 and the one at the same place in `orig`. */
  predicate AllToward(s: seq<int>, orig: seq<int>)
  {
    |s| == |orig| && forall k :: 0 <= k < |s| ==> Toward(s[k], orig[k])
  }

  /**
   * One cancellation of the offsets at `f` and `f + gap` keeps the sum, only moves values
   * toward zero, and extends the compatible prefix by the pair it handled.
   */
  lemma CancelPairStep(s: seq<int>, orig: seq<int>, f: nat, gap: nat)
    requires 1 <= gap && f + gap < |s| && AllToward(s, orig) && CompatibleUpTo(s, gap, f + gap)
    ensures var p := Cancel(s[f], s[f + gap]);
      var t := s[f := p.0][f + gap := p.1];
      Sum(t) == Sum(s) && AllToward(t, orig) && CompatibleUpTo(t, gap, f + gap + 1)
  {
    var p := Cancel(s[f], s[f + gap]);
    var t := s[f := p.0][f + gap := p.1];
    SumUpdate(s, f, p.0);
    SumUpdate(s[f := p.0], f + gap, p.1);
    forall k | gap <= k < f + gap + 1 && k < |t|
      ensures Compatible(t[k - gap], t[k])
    {
      if k == f {
        TowardKeepsCompatible(s[k - gap], s[k], t[k - gap], t[k]);
      }
    }
  }

  /** Values that only moved toward zero keep every compatibility the originals had. */
  lemma TowardKeepsAllCompatible(s: seq<int>, orig: seq<int>, gap: nat)
    requires AllToward(s, orig) && CompatibleAt(orig, gap)
    ensures CompatibleAt(s, gap)
  {
    forall k | gap <= k < |s|
      ensures Compatible(s[k - gap], s[k])
    {
      TowardKeepsCompatible(orig[k - gap], orig[k], s[k - gap], s[k]);
    }
  }

  /** The first pass (lines 170-183): each column against its left neighbour in the list. */
  method CancelAdjacent(a: array<int>)
    modifies a
    ensures Sum(a[..]) == Sum(old(a[..]))
    ensures AllToward(a[..], old(a[..]))
    ensures CompatibleAt(a[..], 1)
  {
    ghost var orig := a[..];
    var i := 1;
    while i < a.Length
      invariant 1 <= i && (i <= a.Length || a.Length == 0)
      invariant Sum(a[..]) == Sum(orig) && AllToward(a[..], orig) && CompatibleUpTo(a[..], 1, i)
    {
      ghost var s := a[..];
      CancelPairStep(s, orig, i - 1, 1);
      var p := Cancel(a[i - 1], a[i]);
      a[i - 1] := p.0;
      a[i] := p.1;
      assert a[..] == s[i - 1 := p.0][i := p.1];
      i := i + 1;
    }
  }

  /**
   * The second pass (lines 184-197): each column's two neighbours against each other.
   * Since values only move toward zero, neighbours that were compatible stay so.
   */
  method CancelSkipOne(a: array<int>)
    modifies a
    ensures Sum(a[..]) == Sum(old(a[..]))
    ensures AllToward(a[..], old(a[..]))
    ensures CompatibleAt(a[..], 2)
    ensures CompatibleAt(old(a[..]), 1) ==> CompatibleAt(a[..], 1)
  {
    ghost var orig := a[..];
    var i := 1;
    while i < a.Length - 1
      invariant 1 <= i && (i <= a.Length - 1 || a.Length <= 1)
      invariant Sum(a[..]) == Sum(orig) && AllToward(a[..], orig) && CompatibleUpTo(a[..], 2, i + 1)
    {
      ghost var s := a[..];
      CancelPairStep(s, orig, i - 1, 2);
      var p := Cancel(a[i - 1], a[i + 1]);
      a[i - 1] := p.0;
      a[i + 1] := p.1;
      assert a[..] == s[i - 1 := p.0][i + 1 := p.1];
      i := i + 1;
    }
    if CompatibleAt(orig, 1) {
      TowardKeepsAllCompatible(a[..], orig, 1);
    }
  }

  /**
   * Both passes over the offset changes of the column list: the total is kept, every
   * value only moves toward zero, and afterwards no two neighbouring columns, and no two
   * columns one apart, have offsets of opposite signs.
   */
  method CancelOffsets(a: array<int>)
    modifies a
    ensures Sum(a[..]) == Sum(old(a[..]))
    ensures AllToward(a[..], old(a[..]))
    ensures CompatibleAt(a[..], 1) && CompatibleAt(a[..], 2)
  {
    ghost var orig := a[..];
    CancelAdjacent(a);
    ghost var mid := a[..];
    CancelSkipOne(a);
    forall k | 0 <= k < a.Length
      ensures Toward(a[k], orig[k])
    {
      assert Toward(a[k], mid[k]) && Toward(mid[k], orig[k]);
    }
  }

  // ---------------------------------------------------------------- smoothWidth

  function SumRange(s: seq<int>, lo: int, hi: int): int
    requires 0 <= lo && hi <= |s|
    decreases hi - lo
  {
    if lo >= hi then 0 else SumRange(s, lo, hi - 1) + s[hi - 1]
  }

  /** The window of `smoothWidth`: `[max(i - 10, 0), min(i + 10, n))`. */
  function WindowLo(index: int): int { Max(index - SmoothingWindow / 2, 0) }

  function WindowHi(index: int, n: int): int { Min(index + SmoothingWindow / 2, n) }

  /** The truncated mean of the widths in the window. */
  function SmoothedWidth(widths: seq<int>, index: int): int
    requires 0 <= index < |widths|
  {
    JavaDiv(SumRange(widths, WindowLo(index), WindowHi(index, |widths|)), WindowHi(index, |widths|) - WindowLo(index))
  }

  /** `smoothWidth`; the callers pass an index of the list. */
  method SmoothWidth(widths: seq<int>, index: int) returns (r: int)
    requires 0 <= index < |widths|
    ensures WindowLo(index) <= index < WindowHi(index, |widths|)
    ensures r == SmoothedWidth(widths, index)
  {
    var sum := 0;
    var num := 0;
    var i := Max(index - SmoothingWindow / 2, 0);
    while i < Min(index + SmoothingWindow / 2, |widths|)
      invariant WindowLo(index) <= i <= WindowHi(index, |widths|)
      invariant sum == SumRange(widths, WindowLo(index), i) && num == i - WindowLo(index)
    {
      sum := sum + widths[i];
      num := num + 1;
      i := i + 1;
    }
    r := JavaDiv(sum, num);
  }

  lemma {:induction false} SumRangeBounds(s: seq<int>, lo: int, hi: int, m: int, mx: int)
    requires 0 <= lo <= hi <= |s|
    requires forall k :: lo <= k < hi ==> m <= s[k] <= mx
    ensures (hi - lo) * m <= SumRange(s, lo, hi) <= (hi - lo) * mx
    decreases hi - lo
  {
    if lo < hi {
      SumRangeBounds(s, lo, hi - 1, m, mx);
      assert (hi - lo) * m == (hi - 1 - lo) * m + m;
      assert (hi - lo) * mx == (hi - 1 - lo) * mx + mx;
    }
  }

  /** The smoothed width lies between the smallest and the largest width of its window. */
  lemma SmoothedWithin(widths: seq<int>, index: int, m: int, mx: int)
    requires 0 <= index < |widths|
    requires forall k :: WindowLo(index) <= k < WindowHi(index, |widths|) ==> m <= widths[k] <= mx
    ensures m <= SmoothedWidth(widths, index) <= mx
  {
    var lo, hi := WindowLo(index), WindowHi(index, |widths|);
    SumRangeBounds(widths, lo, hi, m, mx);
    TruncatedMeanBetween(SumRange(widths, lo, hi), hi - lo, m, mx);
  }

  // ---------------------------------------------------------------- column construction

  /** The first white row of a rebuilt column: `centerline - width / 2`, at least 0. */
  function BarStart(height: int, width: int): int
  {
    Max(height / 2 - JavaDiv(width, 2), 0)
  }

  /** Whether row `i` of a rebuilt column is white. */
  predicate InBar(height: int, width: int, i: int)
  {
    BarStart(height, width) <= i < BarStart(height, width) + width
  }

  /** The column built for one smoothed width (lines 234-244). */
  method BuildColumn(height: int, width: int) returns (adjusted: seq<int>)
    requires height >= 0 && width >= 0
    ensures |adjusted| == height
    ensures forall i :: 0 <= i < height ==> adjusted[i] == (if InBar(height, width, i) then White else Black)
  {
    var centerline := height / 2;
    var carrotStart := centerline - JavaDiv(width, 2);
    adjusted := [];
    var i := 0;
    while i < carrotStart
      invariant 0 <= i && |adjusted| == i && (i <= carrotStart || i == 0)
      invariant forall k :: 0 <= k < i ==> adjusted[k] == Black
    {
      adjusted := adjusted + [Black];
      i := i + 1;
    }
    var start := |adjusted|;
    assert start == BarStart(height, width);
    i := 0;
    while i < width && |adjusted| < height
      invariant 0 <= i <= width && |adjusted| == start + i <= height
      invariant forall k :: 0 <= k < start ==> adjusted[k] == Black
      invariant forall k :: start <= k < |adjusted| ==> adjusted[k] == White
    {
      adjusted := adjusted + [White];
      i := i + 1;
    }
    ghost var bar := |adjusted|;
    while |adjusted| < height
      invariant bar <= |adjusted| <= height
      invariant forall k :: 0 <= k < start ==> adjusted[k] == Black
      invariant forall k :: start <= k < bar ==> adjusted[k] == White
      invariant forall k :: bar <= k < |adjusted| ==> adjusted[k] == Black
      decreases height - |adjusted|
    {
      adjusted := adjusted + [Black];
    }
  }

  // ---------------------------------------------------------------- cropToCarrot

  /** The lowest white row of a column, `IntMax` when it has none. */
  function MinWhiteIn(col: seq<int>): (r: int)
    ensures 0 <= r <= IntMax
  {
    if |col| == 0 then IntMax
    else Min(MinWhiteIn(col[..|col| - 1]), if col[|col| - 1] == White then |col| - 1 else IntMax)
  }

  /** The highest white row of a column, 0 when it has none. */
  function MaxWhiteIn(col: seq<int>): (r: int)
    ensures r >= 0
  {
    if |col| == 0 then 0
    else Max(MaxWhiteIn(col[..|col| - 1]), if col[|col| - 1] == White then |col| - 1 else 0)
  }

  /** `yMin` and `yMax` over all columns. */
  function YMin(cols: seq<seq<int>>): (r: int)
    ensures 0 <= r <= IntMax
  {
    if |cols| == 0 then IntMax else Min(YMin(cols[..|cols| - 1]), MinWhiteIn(cols[|cols| - 1]))
  }

  function YMax(cols: seq<seq<int>>): (r: int)
    ensures r >= 0
  {
    if |cols| == 0 then 0 else Max(YMax(cols[..|cols| - 1]), MaxWhiteIn(cols[|cols| - 1]))
  }

  predicate HasWhite(cols: seq<seq<int>>)
  {
    exists x, i :: 0 <= x < |cols| && 0 <= i < |cols[x]| && cols[x][i] == White
  }

  /** Columns are shorter than the largest Java int. */
  predicate Bounded(cols: seq<seq<int>>)
  {
    forall x :: 0 <= x < |cols| ==> |cols[x]| < IntMax
  }

  /** The white extent of a column: the least and the greatest white row. */
  lemma {:induction false} WhiteInExtent(col: seq<int>)
    requires |col| < IntMax
    ensures forall i :: 0 <= i < |col| && col[i] == White ==> MinWhiteIn(col) <= i <= MaxWhiteIn(col)
    ensures MinWhiteIn(col) == IntMax <==> forall i :: 0 <= i < |col| ==> col[i] != White
    ensures MinWhiteIn(col) < IntMax ==> MinWhiteIn(col) < |col| && col[MinWhiteIn(col)] == White
    ensures MinWhiteIn(col) < IntMax ==> MaxWhiteIn(col) < |col| && col[MaxWhiteIn(col)] == White
    ensures MaxWhiteIn(col) == 0 || MaxWhiteIn(col) < |col|
    ensures MinWhiteIn(col) == IntMax ==> MaxWhiteIn(col) == 0
  {
    if |col| > 0 {
      var n := |col| - 1;
      var init := col[..n];
      WhiteInExtent(init);
      assert forall i :: 0 <= i < n ==> init[i] == col[i];
      if col[n] == White {
        assert MinWhiteIn(col) == Min(MinWhiteIn(init), n);
        assert MaxWhiteIn(col) == n;
      } else {
        assert MinWhiteIn(col) == MinWhiteIn(init);
        assert MaxWhiteIn(col) == MaxWhiteIn(init);
      }
    }
  }

  /**
   * The white extent of all columns: rows `YMin..YMax` hold every white pixel, and there
   * is no extent exactly when nothing is white.
   */
  lemma {:induction false} WhiteExtent(cols: seq<seq<int>>)
    requires Bounded(cols)
    ensures forall x, i :: 0 <= x < |cols| && 0 <= i < |cols[x]| && cols[x][i] == White ==> YMin(cols) <= i <= YMax(cols)
    ensures YMin(cols) == IntMax <==> !HasWhite(cols)
    ensures YMin(cols) == IntMax ==> YMax(cols) == 0
  {
    if |cols| > 0 {
      var n := |cols| - 1;
      var init := cols[..n];
      WhiteExtent(init);
      WhiteInExtent(cols[n]);
      assert forall x :: 0 <= x < n ==> init[x] == cols[x];
      if HasWhite(cols) {
        var x, i :| 0 <= x < |cols| && 0 <= i < |cols[x]| && cols[x][i] == White;
        if x < n {
          assert init[x][i] == White;
        }
      }
    }
  }

  /** Both ends of the white extent are white pixels of some column. */
  lemma {:induction false} WhiteExtentEnds(cols: seq<seq<int>>)
    requires Bounded(cols) && YMin(cols) < IntMax
    ensures exists x :: 0 <= x < |cols| && YMin(cols) < |cols[x]| && cols[x][YMin(cols)] == White
    ensures exists x :: 0 <= x < |cols| && YMax(cols) < |cols[x]| && cols[x][YMax(cols)] == White
  {
    var n := |cols| - 1;
    var init := cols[..n];
    var last := cols[n];
    WhiteExtent(init);
    WhiteInExtent(last);
    assert forall x :: 0 <= x < n ==> init[x] == cols[x];
    if MinWhiteIn(last) <= YMin(init) {
      assert cols[n][YMin(cols)] == White;
    } else {
      WhiteExtentEnds(init);
      var x :| 0 <= x < |init| && YMin(init) < |init[x]| && init[x][YMin(init)] == White;
      assert cols[x][YMin(cols)] == White;
    }
    if MinWhiteIn(last) < IntMax && MaxWhiteIn(last) >= YMax(init) {
      assert cols[n][YMax(cols)] == White;
    } else {
      assert YMax(cols) == YMax(init) && YMin(init) < IntMax;
      WhiteExtentEnds(init);
      var x :| 0 <= x < |init| && YMax(init) < |init[x]| && init[x][YMax(init)] == White;
      assert cols[x][YMax(cols)] == White;
    }
  }

  /** All columns have the height of the first, which is below the largest Java int. */
  predicate SameHeight(cols: seq<seq<int>>)
  {
    |cols| > 0 && |cols[0]| < IntMax && forall x :: 0 <= x < |cols| ==> |cols[x]| == |cols[0]|
  }

  /** The inner scan of `cropToCarrot`: the lowest and highest white row of one column. */
  method ColumnExtent(col: seq<int>) returns (colMin: int, colMax: int)
    requires |col| < IntMax
    ensures colMin == MinWhiteIn(col) && colMax == MaxWhiteIn(col)
  {
    colMin, colMax := IntMax, 0;
    var i := 0;
    while i < |col|
      invariant 0 <= i <= |col|
      invariant colMin == MinWhiteIn(col[..i]) && colMax == MaxWhiteIn(col[..i])
    {
      assert col[..i + 1][..i] == col[..i];
      if col[i] == White {
        colMax := Max(i, colMax);
        colMin := Min(i, colMin);
      }
      i := i + 1;
    }
    assert col[..i] == col;
  }

  /** With columns of one height, the extent exists exactly when some pixel is white, and lies within the height. */
  lemma CropBounds(cols: seq<seq<int>>)
    requires SameHeight(cols)
    ensures YMin(cols) == IntMax <==> !HasWhite(cols)
    ensures HasWhite(cols) ==> 0 <= YMin(cols) <= YMax(cols) < |cols[0]|
  {
    assert Bounded(cols);
    WhiteExtent(cols);
    if HasWhite(cols) {
      WhiteExtentEnds(cols);
      var wx :| 0 <= wx < |cols| && YMax(cols) < |cols[wx]| && cols[wx][YMax(cols)] == White;
      var wn :| 0 <= wn < |cols| && YMin(cols) < |cols[wn]| && cols[wn][YMin(cols)] == White;
    }
  }

  /**
   * `cropToCarrot`, in place: every column is cut down to the rows between the first and
   * the last white row found in any column.  `false` is the exception raised when no
   * column holds a white pixel.  A column added twice is one list in the source, trimmed
   * once and then skipped by the height check; here each entry is trimmed once.
   */
  method CropToCarrot(cols: array<seq<int>>) returns (ok: bool)
    requires SameHeight(cols[..])
    modifies cols
    ensures ok <==> HasWhite(old(cols[..]))
    ensures ok ==> 0 <= YMin(old(cols[..])) <= YMax(old(cols[..])) < |old(cols[0])|
    ensures ok ==> forall x :: 0 <= x < cols.Length ==>
      cols[x] == old(cols[x])[YMin(old(cols[..]))..YMax(old(cols[..])) + 1]
  {
    assert Bounded(cols[..]);
    var yMin, yMax := CarrotExtent(cols);
    CropBounds(cols[..]);
    if yMin == IntMax {
      return false;
    }
    TrimColumns(cols, yMin, yMax);
    return true;
  }

  /** The first loop of `cropToCarrot`: the least and greatest white row over all columns. */
  method CarrotExtent(cols: array<seq<int>>) returns (yMin: int, yMax: int)
    requires Bounded(cols[..])
    ensures yMin == YMin(cols[..]) && yMax == YMax(cols[..])
  {
    yMax, yMin := 0, IntMax;
    var x := 0;
    while x < cols.Length
      invariant 0 <= x <= cols.Length
      invariant yMin == YMin(cols[..x]) && yMax == YMax(cols[..x])
    {
      assert cols[..x + 1][..x] == cols[..x];
      var colMin, colMax := ColumnExtent(cols[x]);
      yMax := Max(yMax, colMax);
      yMin := Min(yMin, colMin);
      x := x + 1;
    }
    assert cols[..x] == cols[..];
  }

  /** The second loop of `cropToCarrot`: each column of the full height is cut to rows `yMin..yMax`. */
  method TrimColumns(cols: array<seq<int>>, yMin: int, yMax: int)
    requires SameHeight(cols[..]) && 0 <= yMin <= yMax < |cols[0]|
    modifies cols
    ensures forall x :: 0 <= x < cols.Length ==> cols[x] == old(cols[x])[yMin..yMax + 1]
  {
    var height := |cols[0]|;
    ghost var orig := cols[..];
    var x := 0;
    while x < cols.Length
      invariant 0 <= x <= cols.Length
      invariant forall k :: 0 <= k < x ==> cols[k] == orig[k][yMin..yMax + 1]
      invariant forall k :: x <= k < cols.Length ==> cols[k] == orig[k]
    {
      if |cols[x]| == height {
        cols[x] := cols[x][yMin..yMax + 1];
      }
      x := x + 1;
    }
  }

  // ---------------------------------------------------------------- output name

  /**
   * The pixels per metre read from a name: `None` without a `{scale_` token
   * (case-insensitive), else the integer up to the next `}`, or when that does not parse,
   * 100 times the integer up to the next `_`; exceptions are errors.
   */
  function ScaleOfName(name: string): (r: Result<Option<int>>)
    ensures r == Ok(None) <==> !Contains(Lower(name), "{scale_")
  {
    var at := IndexOf(Lower(name), "{scale_", 0);
    if at == -1 then Ok(None)
    else
      var start := at + 7;
      match Substring(name, start, IndexOf(name, "}", start + 1))
      case None => Err("StringIndexOutOfBoundsException")
      case Some(digits) =>
        match ParseJavaInt(digits)
        case Some(v) => Ok(Some(v))
        case None =>
          match Substring(name, start, IndexOf(name, "_", start + 1))
          case None => Err("StringIndexOutOfBoundsException")
          case Some(t) =>
            match ParseJavaInt(t)
            case None => Err("NumberFormatException")
            case Some(v) => Ok(Some(100 * v))
  }

  /** `pixelAdjust * 100 / ppm` when a scale is given; a zero scale is an ArithmeticException. */
  function Curvature(pixelAdjust: int, ppm: Option<int>): (r: Result<int>)
    ensures ppm.None? ==> r == Ok(pixelAdjust)
    ensures r.Err? <==> ppm == Some(0)
  {
    match ppm
    case None => Ok(pixelAdjust)
    case Some(p) => if p == 0 then Err("ArithmeticException") else Ok(JavaDiv(pixelAdjust * 100, p))
  }

  /** The written name: the name without its extension, `{Curvature_N}.`, and the extension. */
  function CurvatureName(name: string, pixelAdjust: int): (r: Result<string>)
  {
    match ScaleOfName(name)
    case Err(e) => Err(e)
    case Ok(ppm) =>
      match Curvature(pixelAdjust, ppm)
      case Err(e) => Err(e)
      case Ok(c) => NameWithCurvature(name, c)
  }

  /** The name with `{Curvature_c}` put before its extension; no '.' is an exception. */
  function NameWithCurvature(name: string, c: int): (r: Result<string>)
  {
    var dot := LastIndexOfChar(name, '.');
    if dot < 0 then Err("StringIndexOutOfBoundsException")
    else Ok(name[..dot] + "{Curvature_" + IntToString(c) + "}." + name[dot + 1..])
  }

  /**
   * The written name keeps the base name and the extension: it starts with the name up to
   * its last '.', and the text after its own last '.' is the original extension.
   */
  lemma CurvatureNameKeepsExtension(name: string, pixelAdjust: int)
    requires CurvatureName(name, pixelAdjust).Ok?
    ensures var out := CurvatureName(name, pixelAdjust).value;
      var dot := LastIndexOfChar(name, '.');
      var outDot := LastIndexOfChar(out, '.');
      0 <= dot && StartsWith(out, name[..dot]) && 0 <= outDot && out[outDot + 1..] == name[dot + 1..]
  {
    var c := Curvature(pixelAdjust, ScaleOfName(name).value).value;
    assert CurvatureName(name, pixelAdjust) == NameWithCurvature(name, c);
    CurvatureKeepsExtension(name, c);
  }

  lemma CurvatureKeepsExtension(name: string, c: int)
    requires NameWithCurvature(name, c).Ok?
    ensures var out := NameWithCurvature(name, c).value;
      var dot := LastIndexOfChar(name, '.');
      var outDot := LastIndexOfChar(out, '.');
      0 <= dot && StartsWith(out, name[..dot]) && 0 <= outDot && out[outDot + 1..] == name[dot + 1..]
  {
    var out := NameWithCurvature(name, c).value;
    var dot := LastIndexOfChar(name, '.');
    var head := name[..dot] + "{Curvature_" + IntToString(c) + "}";
    var suffix := name[dot + 1..];
    assert out == head + "." + suffix;
    ExtensionAfterLastDot(head, suffix);
    assert out[..dot] == name[..dot];
  }

  /** The text after the last '.' of `head + "." + suffix` is `suffix` when `suffix` holds no '.'. */
  lemma ExtensionAfterLastDot(head: string, suffix: string)
    requires forall i :: 0 <= i < |suffix| ==> suffix[i] != '.'
    ensures var out := head + "." + suffix;
      LastIndexOfChar(out, '.') == |head| && out[|head| + 1..] == suffix
  {
    var out := head + "." + suffix;
    forall i | |head| < i < |out|
      ensures out[i] != '.'
    {
      assert out[i] == suffix[i - |head| - 1];
    }
    LastDotIs(out, |head|);
  }

  lemma LastDotIs(s: string, at: int)
    requires 0 <= at < |s| && s[at] == '.'
    requires forall i :: at < i < |s| ==> s[i] != '.'
    ensures LastIndexOfChar(s, '.') == at
  {
  }

  /** `lower(a + b)` is `lower(a) + lower(b)`. */
  lemma LowerConcat(a: string, b: string)
    ensures Lower(a + b) == Lower(a) + Lower(b)
  {
  }

  /** The first `{scale_` of a name whose prefix has none is the one right after the prefix. */
  lemma {:induction false} ScaleTokenFound(pre: string, rest: string)
    requires !Contains(Lower(pre), "{scale_")
    ensures IndexOf(Lower(pre + "{Scale_" + rest), "{scale_", 0) == |pre|
  {
    var name := pre + "{Scale_" + rest;
    var lower := Lower(name);
    var at := |pre|;
    assert lower[at..at + 7] == "{scale_";
    forall i | 0 <= i < at
      ensures !OccursAt(lower, "{scale_", i)
    {
      if i + 7 <= at {
        assert lower[i..i + 7] == Lower(pre)[i..i + 7];
        assert !OccursAt(Lower(pre), "{scale_", i);
      } else if i + 7 <= |lower| {
        var j := at - i;
        assert lower[i..i + 7][j] == lower[at] == '{';
        assert "{scale_"[j] != '{';
      }
    }
    IndexOfIs(lower, "{scale_", 0, at);
  }

  /**
   * Reading from `start` up to the next `c` after it yields `field` when the name holds
   * `field` at `start`, followed by `c`, and `c` does not occur in `field`.
   */
  lemma ReadUntil(name: string, start: int, field: string, c: char)
    requires 0 <= start && |field| >= 1 && start + |field| < |name|
    requires name[start..start + |field|] == field && name[start + |field|] == c
    requires forall i :: 0 <= i < |field| ==> field[i] != c
    ensures Substring(name, start, IndexOf(name, [c], start + 1)) == Some(field)
  {
    forall i | start + 1 <= i < start + |field|
      ensures name[i] != c
    {
      assert name[i] == field[i - start];
    }
    IndexOfCharIs(name, c, start + 1, start + |field|);
  }

  /** A non-negative number followed by `_ppm` is not a Java int. */
  lemma PpmFieldIsNotInt(digits: string)
    requires |digits| >= 1 && forall i :: 0 <= i < |digits| ==> IsDigit(digits[i])
    ensures ParseJavaInt(digits + "_ppm") == None
  {
    var f := digits + "_ppm";
    assert f[|digits|] == '_';
    assert !AllDigits(f);
    assert IsDigit(f[0]);
  }

  /** `ScaleOfName` takes the field up to `}` when it is a Java int. */
  lemma ScaleOfNameClose(name: string, at: nat, field: string)
    requires IndexOf(Lower(name), "{scale_", 0) == at
    requires Substring(name, at + 7, IndexOf(name, "}", at + 8)) == Some(field)
    requires ParseJavaInt(field).Some?
    ensures ScaleOfName(name) == Ok(ParseJavaInt(field))
  {
  }

  /** Otherwise it takes 100 times the field up to `_`. */
  lemma ScaleOfNameUnder(name: string, at: nat, field: string, field': string)
    requires IndexOf(Lower(name), "{scale_", 0) == at
    requires Substring(name, at + 7, IndexOf(name, "}", at + 8)) == Some(field)
    requires ParseJavaInt(field).None?
    requires Substring(name, at + 7, IndexOf(name, "_", at + 8)) == Some(field')
    requires ParseJavaInt(field').Some?
    ensures ScaleOfName(name) == Ok(Some(100 * ParseJavaInt(field').value))
  {
  }

  /** The field after a `{scale_` token at `start - 7` is a number N and then `}`. */
  lemma ScaleFieldRead(name: string, start: int, n: nat)
    requires 7 <= start && IndexOf(Lower(name), "{scale_", 0) == start - 7 && n < 0x8000_0000
    requires var field := IntToString(n) + "}";
      start + |field| <= |name| && name[start..start + |field|] == field
    ensures ScaleOfName(name) == Ok(Some(n))
  {
    var digits := IntToString(n);
    var full := name[start..start + |digits| + 1];
    assert full == digits + "}";
    assert name[start..start + |digits|] == full[..|digits|] == digits;
    assert name[start + |digits|] == full[|digits|] == '}';
    IntStringRoundTrip(n);
    ReadUntil(name, start, digits, '}');
    ScaleOfNameClose(name, start - 7, digits);
  }

  /** The field after a `{scale_` token at `start - 7` is a number N and then `_ppm}`. */
  lemma ScaleFieldReadPpm(name: string, start: int, n: nat)
    requires 7 <= start && IndexOf(Lower(name), "{scale_", 0) == start - 7 && n < 0x8000_0000
    requires var field := IntToString(n) + "_ppm}";
      start + |field| <= |name| && name[start..start + |field|] == field
    ensures ScaleOfName(name) == Ok(Some(100 * n))
  {
    var digits := IntToString(n);
    var field := digits + "_ppm";
    PpmFieldParts(name, start, digits);
    ReadUntil(name, start, field, '}');
    PpmFieldIsNotInt(digits);
    ReadUntil(name, start, digits, '_');
    IntStringRoundTrip(n);
    ScaleOfNameUnder(name, start - 7, field, digits);
  }

  /** The text `N_ppm}` at `start`, cut at its `}` and at its `_`. */
  lemma PpmFieldParts(name: string, start: int, digits: string)
    requires 0 <= start && start + |digits| + 5 <= |name| && name[start..start + |digits| + 5] == digits + "_ppm}"
    ensures name[start..start + |digits| + 4] == digits + "_ppm" && name[start + |digits| + 4] == '}'
    ensures name[start..start + |digits|] == digits && name[start + |digits|] == '_'
  {
    var full := name[start..start + |digits| + 5];
    assert full[..|digits| + 4] == digits + "_ppm";
    assert name[start..start + |digits| + 4] == full[..|digits| + 4];
    assert name[start + |digits| + 4] == full[|digits| + 4];
    assert full[..|digits|] == digits;
    assert name[start..start + |digits|] == full[..|digits|];
    assert name[start + |digits|] == full[|digits|];
  }

  /**
   * A scale token written `{Scale_N}` after text without one is read back as N, and one
   * written `{Scale_N_ppm}` (as the scale finder writes it) as 100 N.
   */
  lemma ScaleTokenRead(pre: string, n: nat, ppmUnit: bool, post: string)
    requires !Contains(Lower(pre), "{scale_") && n < 0x8000_0000
    ensures var token := "{Scale_" + IntToString(n) + (if ppmUnit then "_ppm}" else "}");
      ScaleOfName(pre + token + post) == Ok(Some(if ppmUnit then 100 * n else n))
  {
    var field := IntToString(n) + (if ppmUnit then "_ppm}" else "}");
    var head := pre + "{Scale_";
    var name := head + (field + post);
    assert pre + ("{Scale_" + IntToString(n) + (if ppmUnit then "_ppm}" else "}")) + post == name;
    ScaleTokenFound(pre, field + post);
    assert name[|head|..|head| + |field|] == field;
    if ppmUnit {
      ScaleFieldReadPpm(name, |head|, n);
    } else {
      ScaleFieldRead(name, |head|, n);
    }
  }

  /** The curvature image is the result columns mirrored: column x is written at `n - 1 - x`. */
  method MirrorColumns(result: seq<seq<int>>) returns (toWrite: array<seq<int>>)
    ensures fresh(toWrite)
    ensures toWrite[..] == Pixels.Reverse(result)
  {
    toWrite := new seq<int>[|result|](_ => []);
    var x := 0;
    while x < |result|
      invariant 0 <= x <= |result|
      invariant forall k :: 0 <= k < x ==> toWrite[|result| - 1 - k] == result[k]
    {
      toWrite[-1 * (x - |result| + 1)] := result[x];
      x := x + 1;
    }
  }
}
