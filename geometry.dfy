/** Spatial side of ref_picker.py: world-space boxes of the `reffolder_`
    regions, the inclusive XY containment test of the sync pass, and the
    pairwise strict-overlap guard `check_overlapping_bboxes`. World-space
    corners come from the host (`matrix_world @ bound_box[i]`) and are inputs
    here. */
module Geometry {

  datatype Vec3 = Vec3(x: real, y: real, z: real)

  /** Axis-aligned box given by its lower and upper corner. */
  datatype Box = Box(lo: Vec3, hi: Vec3)

  /** Smallest element of a non-empty sequence (Python's `min`). */
  function MinOf(xs: seq<real>): (m: real)
    requires |xs| > 0
    ensures m in xs
    ensures forall k :: 0 <= k < |xs| ==> m <= xs[k]
  {
    if |xs| == 1 then xs[0]
    else
      var rest := MinOf(xs[1..]);
      if xs[0] <= rest then xs[0] else rest
  }

  /** Largest element of a non-empty sequence (Python's `max`). */
  function MaxOf(xs: seq<real>): (m: real)
    requires |xs| > 0
    ensures m in xs
    ensures forall k :: 0 <= k < |xs| ==> xs[k] <= m
  {
    if |xs| == 1 then xs[0]
    else
      var rest := MaxOf(xs[1..]);
      if xs[0] >= rest then xs[0] else rest
  }

  function Xs(cs: seq<Vec3>): (r: seq<real>)
    ensures |r| == |cs| && forall k :: 0 <= k < |cs| ==> r[k] == cs[k].x
  {
    seq(|cs|, k requires 0 <= k < |cs| => cs[k].x)
  }

  function Ys(cs: seq<Vec3>): (r: seq<real>)
    ensures |r| == |cs| && forall k :: 0 <= k < |cs| ==> r[k] == cs[k].y
  {
    seq(|cs|, k requires 0 <= k < |cs| => cs[k].y)
  }

  function Zs(cs: seq<Vec3>): (r: seq<real>)
    ensures |r| == |cs| && forall k :: 0 <= k < |cs| ==> r[k] == cs[k].z
  {
    seq(|cs|, k requires 0 <= k < |cs| => cs[k].z)
  }

  /** The box the overlap guard builds: componentwise min and max over all the
      world-space corners. */
  function CornerBox(cs: seq<Vec3>): Box
    requires |cs| > 0
  {
    Box(Vec3(MinOf(Xs(cs)), MinOf(Ys(cs)), MinOf(Zs(cs))),
        Vec3(MaxOf(Xs(cs)), MaxOf(Ys(cs)), MaxOf(Zs(cs))))
  }

  predicate Encloses(b: Box, c: Vec3) {
    b.lo.x <= c.x <= b.hi.x && b.lo.y <= c.y <= b.hi.y && b.lo.z <= c.z <= b.hi.z
  }

  /** The guard's box is the tightest box around the corners: it encloses every
      corner, and each of its six faces touches one. */
  lemma CornerBoxIsTight(cs: seq<Vec3>)
    requires |cs| > 0
    ensures var b := CornerBox(cs);
      && (forall k :: 0 <= k < |cs| ==> Encloses(b, cs[k]))
      && (exists k :: 0 <= k < |cs| && cs[k].x == b.lo.x)
      && (exists k :: 0 <= k < |cs| && cs[k].x == b.hi.x)
      && (exists k :: 0 <= k < |cs| && cs[k].y == b.lo.y)
      && (exists k :: 0 <= k < |cs| && cs[k].y == b.hi.y)
      && (exists k :: 0 <= k < |cs| && cs[k].z == b.lo.z)
      && (exists k :: 0 <= k < |cs| && cs[k].z == b.hi.z)
  {
    var b := CornerBox(cs);
    forall k | 0 <= k < |cs| ensures Encloses(b, cs[k]) {
      assert Xs(cs)[k] == cs[k].x && Ys(cs)[k] == cs[k].y && Zs(cs)[k] == cs[k].z;
    }
    var i :| 0 <= i < |cs| && Xs(cs)[i] == b.lo.x;
    var j :| 0 <= j < |cs| && Xs(cs)[j] == b.hi.x;
    var k :| 0 <= k < |cs| && Ys(cs)[k] == b.lo.y;
    var l :| 0 <= l < |cs| && Ys(cs)[l] == b.hi.y;
    var m :| 0 <= m < |cs| && Zs(cs)[m] == b.lo.z;
    var n :| 0 <= n < |cs| && Zs(cs)[n] == b.hi.z;
  }

  /** Two boxes overlap when their intervals strictly overlap on all three
      axes; boxes that only touch do not. */
  predicate Overlaps(a: Box, b: Box) {
    && a.lo.x < b.hi.x && a.hi.x > b.lo.x
    && a.lo.y < b.hi.y && a.hi.y > b.lo.y
    && a.lo.z < b.hi.z && a.hi.z > b.lo.z
  }

  /** The inclusive 2D test of the sync pass: Z is ignored. */
  predicate InsideXY(lo: Vec3, hi: Vec3, p: Vec3) {
    lo.x <= p.x <= hi.x && lo.y <= p.y <= hi.y
  }

  /** The overlap test does not depend on which box comes first, and boxes
      that share only a face are never flagged. */
  lemma OverlapsSymmetricAndStrict(a: Box, b: Box)
    ensures Overlaps(a, b) <==> Overlaps(b, a)
    ensures a.hi.x == b.lo.x || a.hi.y == b.lo.y || a.hi.z == b.lo.z ==> !Overlaps(a, b)
  {
  }

  /** Pairs (i, j), i < j, of `boxes` that overlap, in the order the nested
      loops of the guard meet them: by i, then by j. Each pair holds the two
      indices into the region list. */
  function OverlapPairs(boxes: seq<Box>): seq<(nat, nat)>
  {
    PairsBefore(boxes, |boxes|, |boxes| + 1)
  }

  /** The pairs the guard has collected when its loops reach (i, j). */
  function PairsBefore(boxes: seq<Box>, i: nat, j: nat): seq<(nat, nat)>
    requires i < j && i <= |boxes| && (j <= |boxes| || j == i + 1)
    decreases i, j
  {
    if j > i + 1 then
      PairsBefore(boxes, i, j - 1) + (if Overlaps(boxes[i], boxes[j - 1]) then [(i, j - 1)] else [])
    else if i == 0 then []
    else PairsBefore(boxes, i - 1, |boxes|)
  }

  predicate PairBefore(p: (nat, nat), q: (nat, nat)) {
    p.0 < q.0 || (p.0 == q.0 && p.1 < q.1)
  }

  predicate Increasing(ps: seq<(nat, nat)>) {
    forall k, l :: 0 <= k < l < |ps| ==> PairBefore(ps[k], ps[l])
  }

  /** Everything collected before (i, j) is an overlapping pair with its first
      index before its second, and comes before (i, j) in loop order. */
  lemma {:induction false} PairsBeforeSound(boxes: seq<Box>, i: nat, j: nat)
    requires i < j && i <= |boxes| && (j <= |boxes| || j == i + 1)
    ensures forall p :: p in PairsBefore(boxes, i, j) ==>
      p.0 < p.1 < |boxes| && Overlaps(boxes[p.0], boxes[p.1]) && PairBefore(p, (i, j))
    decreases i, j
  {
    if j > i + 1 {
      PairsBeforeSound(boxes, i, j - 1);
    } else if i > 0 {
      PairsBeforeSound(boxes, i - 1, |boxes|);
    }
  }

  /** The pairs collected before (i, j) are in strictly increasing order. */
  lemma {:induction false} PairsBeforeSorted(boxes: seq<Box>, i: nat, j: nat)
    requires i < j && i <= |boxes| && (j <= |boxes| || j == i + 1)
    ensures Increasing(PairsBefore(boxes, i, j))
    decreases i, j
  {
    if j > i + 1 {
      PairsBeforeSorted(boxes, i, j - 1);
      PairsBeforeSound(boxes, i, j - 1);
      var done := PairsBefore(boxes, i, j - 1);
      if Overlaps(boxes[i], boxes[j - 1]) {
        forall q | q in done ensures PairBefore(q, (i, j - 1)) {
        }
        SnocIncreasing(done, (i, j - 1));
      }
    } else if i > 0 {
      PairsBeforeSorted(boxes, i - 1, |boxes|);
    }
  }

  lemma SnocIncreasing(init: seq<(nat, nat)>, p: (nat, nat))
    requires Increasing(init)
    requires forall q :: q in init ==> PairBefore(q, p)
    ensures Increasing(init + [p])
  {
    var ps := init + [p];
    forall k, l | 0 <= k < l < |ps| ensures PairBefore(ps[k], ps[l]) {
      if l == |init| {
        assert ps[k] in init;
      } else {
        assert ps[k] == init[k] && ps[l] == init[l];
      }
    }
  }

  /** Every overlapping pair (a, b), a < b, that comes before (i, j) in loop
      order has been collected by then. */
  lemma {:induction false} PairsBeforeComplete(boxes: seq<Box>, i: nat, j: nat, a: nat, b: nat)
    requires i < j && i <= |boxes| && (j <= |boxes| || j == i + 1)
    requires a < b < |boxes| && Overlaps(boxes[a], boxes[b]) && PairBefore((a, b), (i, j))
    ensures (a, b) in PairsBefore(boxes, i, j)
    decreases i, j
  {
    if j > i + 1 {
      if (a, b) != (i, j - 1) {
        PairsBeforeComplete(boxes, i, j - 1, a, b);
      }
    } else {
      PairsBeforeComplete(boxes, i - 1, |boxes|, a, b);
    }
  }

  /** The guard's report, pair by pair: a pair (i, j) is reported exactly when
      i < j and the two boxes overlap, and the report lists each unordered pair
      once, in loop order. */
  lemma OverlapPairsSpec(boxes: seq<Box>)
    ensures var ps := OverlapPairs(boxes);
      && (forall i: nat, j: nat :: (i, j) in ps <==> i < j < |boxes| && Overlaps(boxes[i], boxes[j]))
      && Increasing(ps)
  {
    var n := |boxes|;
    PairsBeforeSound(boxes, n, n + 1);
    PairsBeforeSorted(boxes, n, n + 1);
    forall i: nat, j: nat | (i, j) in OverlapPairs(boxes)
      ensures i < j < n && Overlaps(boxes[i], boxes[j])
    {
      var p := (i, j);
      assert p in PairsBefore(boxes, n, n + 1);
    }
    forall i: nat, j: nat | i < j < n && Overlaps(boxes[i], boxes[j])
      ensures (i, j) in OverlapPairs(boxes)
    {
      PairsBeforeComplete(boxes, n, n + 1, i, j);
    }
  }

  /** `check_overlapping_bboxes`, given each region's corner box (see
      `BoxesOf`): for every pair of regions, the second taken after the first,
      compare their boxes and collect the overlapping pairs; the result flags an
      overlap when the list is non-empty. */
  method CheckOverlappingBoxes(boxes: seq<Box>) returns (pairs: seq<(nat, nat)>, overlapping: bool)
    ensures pairs == OverlapPairs(boxes)
    ensures overlapping <==> pairs != []
  {
    pairs := [];
    var i := 0;
    while i < |boxes|
      invariant 0 <= i <= |boxes|
      invariant pairs == PairsBefore(boxes, i, i + 1)
    {
      var j := i + 1;
      while j < |boxes|
        invariant i + 1 <= j <= |boxes|
        invariant pairs == PairsBefore(boxes, i, j)
      {
        var b1, b2 := boxes[i], boxes[j];
        if b1.lo.x < b2.hi.x && b1.hi.x > b2.lo.x &&
           b1.lo.y < b2.hi.y && b1.hi.y > b2.lo.y &&
           b1.lo.z < b2.hi.z && b1.hi.z > b2.lo.z {
          pairs := pairs + [(i, j)];
        }
        j := j + 1;
      }
      i := i + 1;
    }
    overlapping := pairs != [];
  }

  /** The corner box of every region, as the guard computes it from the eight
      world-space corners of each region's bounding box. */
  function BoxesOf(corners: seq<seq<Vec3>>): (bs: seq<Box>)
    requires forall r :: 0 <= r < |corners| ==> |corners[r]| > 0
    ensures |bs| == |corners|
    ensures forall r :: 0 <= r < |corners| ==> bs[r] == CornerBox(corners[r])
  {
    seq(|corners|, r requires 0 <= r < |corners| => CornerBox(corners[r]))
  }
}
