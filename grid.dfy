/** The grid pass of `sync_images`: a region's placeholders, already sorted by
    name, are placed left to right from the region's top-left corner (inset by
    a 2.5 margin); a placeholder that would overrun the right edge starts a new
    row, lowered by its own size; z is always 0. */
module Grid {
  import opened Geometry

  const Margin: real := 2.5
  const Gap: real := 0.5

  /** `current_row_x` and `y_offset` of the source. */
  datatype Cursor = Cursor(x: real, y: real)

  function Start(xmin: real, ymax: real): Cursor {
    Cursor(xmin + Margin, ymax - Margin)
  }

  /** Whether an item of size `s` wraps to a new row at cursor `c`. */
  predicate Wraps(c: Cursor, s: real, xmax: real) {
    c.x + s - Margin > xmax
  }

  /** Where the item of size `s` goes, given the cursor before it. */
  function Place(c: Cursor, s: real, xmin: real, xmax: real): Vec3 {
    if Wraps(c, s, xmax) then Vec3(xmin + Margin, c.y - s, 0.0) else Vec3(c.x, c.y, 0.0)
  }

  /** The cursor after placing an item of size `s` at `p`. */
  function Advance(p: Vec3, s: real): Cursor {
    Cursor(p.x + s + Gap, p.y)
  }

  /** Positions of the items of sizes `sizes`, in order, and the cursor after
      the last one. */
  function Run(sizes: seq<real>, xmin: real, xmax: real, ymax: real): (seq<Vec3>, Cursor)
    decreases |sizes|
  {
    if sizes == [] then ([], Start(xmin, ymax))
    else
      var prev := Run(sizes[..|sizes| - 1], xmin, xmax, ymax);
      var s := sizes[|sizes| - 1];
      var p := Place(prev.1, s, xmin, xmax);
      (prev.0 + [p], Advance(p, s))
  }

  /** The positions of the items of sizes `sizes`, one per item. */
  function Layout(sizes: seq<real>, xmin: real, xmax: real, ymax: real): (r: seq<Vec3>)
    ensures |r| == |sizes|
  {
    RunShape(sizes, xmin, xmax, ymax);
    Run(sizes, xmin, xmax, ymax).0
  }

  /** One more item goes where `Place` puts it at the cursor the earlier
      items left. */
  lemma RunSnoc(sizes: seq<real>, s: real, xmin: real, xmax: real, ymax: real)
    ensures var prev := Run(sizes, xmin, xmax, ymax);
      var p := Place(prev.1, s, xmin, xmax);
      Run(sizes + [s], xmin, xmax, ymax) == (prev.0 + [p], Advance(p, s))
  {
    assert (sizes + [s])[..|sizes|] == sizes;
  }

  /** One position per item, and every z is 0. */
  lemma {:induction false} RunShape(sizes: seq<real>, xmin: real, xmax: real, ymax: real)
    ensures var r := Run(sizes, xmin, xmax, ymax);
      && |r.0| == |sizes|
      && (forall k :: 0 <= k < |sizes| ==> r.0[k].z == 0.0)
      && (sizes == [] ==> r.1 == Start(xmin, ymax))
      && (sizes != [] ==> r.1 == Advance(r.0[|sizes| - 1], sizes[|sizes| - 1]))
    decreases |sizes|
  {
    if sizes != [] {
      RunShape(sizes[..|sizes| - 1], xmin, xmax, ymax);
    }
  }

  /** Laying out more items never moves the earlier ones. */
  lemma {:induction false} LayoutPrefix(sizes: seq<real>, m: nat, xmin: real, xmax: real, ymax: real)
    requires m <= |sizes|
    ensures |Layout(sizes, xmin, xmax, ymax)| == |sizes|
    ensures Layout(sizes[..m], xmin, xmax, ymax) == Layout(sizes, xmin, xmax, ymax)[..m]
    decreases |sizes|
  {
    RunShape(sizes, xmin, xmax, ymax);
    if m < |sizes| {
      var init := sizes[..|sizes| - 1];
      LayoutPrefix(init, m, xmin, xmax, ymax);
      assert init[..m] == sizes[..m];
      RunShape(init, xmin, xmax, ymax);
    } else {
      assert sizes[..m] == sizes;
    }
  }

  /** The cursor before item k: the start for the first item, otherwise just
      right of the previous item (its size plus the 0.5 gap), on its row. */
  function CursorBefore(ps: seq<Vec3>, sizes: seq<real>, k: nat, xmin: real, ymax: real): Cursor
    requires k <= |ps| && k <= |sizes|
  {
    if k == 0 then Start(xmin, ymax) else Advance(ps[k - 1], sizes[k - 1])
  }

  /** Item by item: item k goes at the cursor left by item k-1 (or at the start,
      inset by the margin, for the first), unless `cursor + size - 2.5` passes
      the right edge, in which case it goes back to the row start and down by
      its own size. */
  lemma LayoutStep(sizes: seq<real>, k: nat, xmin: real, xmax: real, ymax: real)
    requires k < |sizes|
    ensures var ps := Layout(sizes, xmin, xmax, ymax);
      && |ps| == |sizes|
      && ps[k] == Place(CursorBefore(ps, sizes, k, xmin, ymax), sizes[k], xmin, xmax)
  {
    var ps := Layout(sizes, xmin, xmax, ymax);
    LayoutPrefix(sizes, k + 1, xmin, xmax, ymax);
    LayoutPrefix(sizes, k, xmin, xmax, ymax);
    var pre := sizes[..k + 1];
    assert pre[..|pre| - 1] == sizes[..k];
    RunShape(sizes[..k], xmin, xmax, ymax);
  }

  /** Every item starts a row or fits: it sits at the row start, or its
      `x + size - 2.5` stays within the right edge. */
  lemma LayoutFits(sizes: seq<real>, k: nat, xmin: real, xmax: real, ymax: real)
    requires k < |sizes|
    ensures var ps := Layout(sizes, xmin, xmax, ymax);
      |ps| == |sizes| && (ps[k].x == xmin + Margin || ps[k].x + sizes[k] - Margin <= xmax)
  {
    LayoutStep(sizes, k, xmin, xmax, ymax);
  }

  /** With non-negative sizes, rows only go down and nothing is placed left of
      the row start or above the first row. */
  lemma {:induction false} LayoutMonotone(sizes: seq<real>, xmin: real, xmax: real, ymax: real)
    requires forall k :: 0 <= k < |sizes| ==> sizes[k] >= 0.0
    ensures var ps := Layout(sizes, xmin, xmax, ymax);
      && |ps| == |sizes|
      && (forall k :: 0 <= k < |ps| ==> ps[k].x >= xmin + Margin && ps[k].y <= ymax - Margin)
      && (forall k :: 0 < k < |ps| ==> ps[k].y <= ps[k - 1].y)
  {
    var ps := Layout(sizes, xmin, xmax, ymax);
    RunShape(sizes, xmin, xmax, ymax);
    forall k | 0 <= k < |ps| ensures ps[k].x >= xmin + Margin && ps[k].y <= ymax - Margin {
      Descends(sizes, k, xmin, xmax, ymax);
    }
    forall k | 0 < k < |ps| ensures ps[k].y <= ps[k - 1].y {
      LayoutStep(sizes, k, xmin, xmax, ymax);
    }
  }

  lemma {:induction false} Descends(sizes: seq<real>, k: nat, xmin: real, xmax: real, ymax: real)
    requires k < |sizes|
    requires forall i :: 0 <= i < |sizes| ==> sizes[i] >= 0.0
    ensures var ps := Layout(sizes, xmin, xmax, ymax);
      |ps| == |sizes| && ps[k].x >= xmin + Margin && ps[k].y <= ymax - Margin
    decreases k
  {
    LayoutStep(sizes, k, xmin, xmax, ymax);
    if k > 0 {
      Descends(sizes, k - 1, xmin, xmax, ymax);
    }
  }

  /** Three placeholders of size 5 in a region spanning x in [0, 20] and y in
      [0, 10] share the first row at x = 2.5, 8 and 13.5; a fourth wraps to
      (2.5, 2.5). */
  lemma FourSquaresScenario()
    ensures Layout([5.0, 5.0, 5.0, 5.0], 0.0, 20.0, 10.0)
      == [Vec3(2.5, 7.5, 0.0), Vec3(8.0, 7.5, 0.0), Vec3(13.5, 7.5, 0.0), Vec3(2.5, 2.5, 0.0)]
  {
    var s := [5.0, 5.0, 5.0, 5.0];
    var r1 := Run(s[..1], 0.0, 20.0, 10.0);
    assert s[..1][..0] == [] && s[..1][0] == 5.0;
    var r0 := Run(s[..1][..0], 0.0, 20.0, 10.0);
    assert r0.0 == [] && r0.1 == Cursor(2.5, 7.5);
    assert r1.0 == [Vec3(2.5, 7.5, 0.0)] && r1.1 == Cursor(8.0, 7.5);
    var r2 := Run(s[..2], 0.0, 20.0, 10.0);
    assert s[..2][..1] == s[..1];
    assert r2.0 == [Vec3(2.5, 7.5, 0.0), Vec3(8.0, 7.5, 0.0)] && r2.1 == Cursor(13.5, 7.5);
    var r3 := Run(s[..3], 0.0, 20.0, 10.0);
    assert s[..3][..2] == s[..2];
    assert r3.0 == [Vec3(2.5, 7.5, 0.0), Vec3(8.0, 7.5, 0.0), Vec3(13.5, 7.5, 0.0)];
    assert r3.1 == Cursor(19.0, 7.5);
    assert s[..3] == s[..|s| - 1];
  }

  /** The wrap test compares `x + size - 2.5` with the right edge, so an item
      smaller than 2.5 can be placed beyond it: in a region spanning x in
      [0, 10] and y in [0, 10], after an item of size 8 the cursor is at
      x = 11, and an item of size 1 is placed there, outside the region. */
  lemma LayoutLeavesRegion()
    ensures Layout([8.0, 1.0], 0.0, 10.0, 10.0) == [Vec3(2.5, 7.5, 0.0), Vec3(11.0, 7.5, 0.0)]
    ensures !InsideXY(Vec3(0.0, 0.0, 0.0), Vec3(10.0, 10.0, 0.0), Vec3(11.0, 7.5, 0.0))
  {
    var s := [8.0, 1.0];
    assert s[..1][..0] == [] && s[..1][0] == 8.0;
    var r0 := Run(s[..1][..0], 0.0, 10.0, 10.0);
    assert r0.0 == [] && r0.1 == Cursor(2.5, 7.5);
    var r1 := Run(s[..1], 0.0, 10.0, 10.0);
    assert r1.0 == [Vec3(2.5, 7.5, 0.0)] && r1.1 == Cursor(11.0, 7.5);
    assert s[..1] == s[..|s| - 1];
  }
}
