/** The grid pass of `sync_images` for one region: the placeholders it
    holds are collected in collection order, sorted by name and moved, one
    by one, to the positions the grid layout gives them. */
module Arrange {
  import opened Geometry
  import opened Ordering
  import opened Grid
  import opened Scene

  /** The (name, index) entries of the placeholders of `es` that region `rg`
      holds, in collection order. */
  function Contained(es: seq<Placeholder>, rg: Region): (r: seq<Entry>)
    ensures forall i :: 0 <= i < |r| ==> r[i].1 < |es| && r[i].0 == es[r[i].1].name && Holds(rg, es[r[i].1].world)
    ensures forall i, j :: 0 <= i < j < |r| ==> r[i].1 < r[j].1
    ensures forall j :: 0 <= j < |es| && Holds(rg, es[j].world) ==> (es[j].name, j) in r
  {
    if es == [] then []
    else
      var n := |es| - 1;
      var init := Contained(es[..n], rg);
      assert forall i :: 0 <= i < |init| ==> es[..n][init[i].1] == es[init[i].1];
      if Holds(rg, es[n].world) then init + [(es[n].name, n)] else init
  }

  /** Size of a placeholder on the grid: `empty_display_size * scale.x`. */
  function Size(e: Placeholder): real {
    e.displaySize * e.scaleX
  }

  /** The sizes of the placeholders `order` names, in that order. */
  function Sizes(es: seq<Placeholder>, order: seq<Entry>): (r: seq<real>)
    requires forall i :: 0 <= i < |order| ==> order[i].1 < |es|
    ensures |r| == |order| && forall i :: 0 <= i < |order| ==> r[i] == Size(es[order[i].1])
  {
    if order == [] then []
    else Sizes(es, order[..|order| - 1]) + [Size(es[order[|order| - 1].1])]
  }

  /** Moves the placeholder named by `order[i]` to `ps[i]`, for each `i` in
      turn. */
  function PlaceAll(es: seq<Placeholder>, order: seq<Entry>, ps: seq<Vec3>): (r: seq<Placeholder>)
    requires |ps| == |order|
    requires forall i :: 0 <= i < |order| ==> order[i].1 < |es|
    ensures |r| == |es|
    decreases |order|
  {
    if order == [] then es
    else
      var n := |order| - 1;
      var prev := PlaceAll(es, order[..n], ps[..n]);
      prev[order[n].1 := prev[order[n].1].(location := ps[n])]
  }

  /** The placeholders region `rg` holds, in name order. */
  function Order(es: seq<Placeholder>, rg: Region): seq<Entry> {
    SortByName(Contained(es, rg))
  }

  /** The grid positions, in name order, of the placeholders region `rg`
      holds: laid out from the left edge (corner 0) towards the right edge
      (corner 7), from the top (corner 7) down. */
  function Positions(es: seq<Placeholder>, rg: Region): (r: seq<Vec3>)
    requires |rg.corners| == 8
    ensures |r| == |Order(es, rg)|
  {
    OrderInRange(es, rg);
    var sizes := Sizes(es, Order(es, rg));
    Layout(sizes, rg.corners[0].x, rg.corners[7].x, rg.corners[7].y)
  }

  /** The placeholders after the grid pass of region `rg`. */
  function Arranged(es: seq<Placeholder>, rg: Region): seq<Placeholder>
    requires |rg.corners| == 8
  {
    OrderInRange(es, rg);
    PlaceAll(es, Order(es, rg), Positions(es, rg))
  }

  /** The sorted entries are those of the region, each naming a placeholder
      the region holds, no two naming the same one. */
  lemma OrderInRange(es: seq<Placeholder>, rg: Region)
    ensures var order := Order(es, rg);
      && SortedByName(order)
      && (forall i :: 0 <= i < |order| ==> order[i].1 < |es| && Holds(rg, es[order[i].1].world))
      && (forall i, j :: 0 <= i < j < |order| ==> order[i].1 != order[j].1)
  {
    var c := Contained(es, rg);
    var order := Order(es, rg);
    SortByNameSpec(c);
    forall i | 0 <= i < |order| ensures order[i] in c {
      assert order[i] in multiset(order);
    }
    forall i, j | 0 <= i < j < |order| ensures order[i].1 != order[j].1 {
      DistinctPair(c, order, i, j);
    }
  }

  /** A reordering of entries with strictly increasing indices names no
      index twice. */
  lemma DistinctPair(c: seq<Entry>, order: seq<Entry>, i: nat, j: nat)
    requires forall x, y :: 0 <= x < y < |c| ==> c[x].1 < c[y].1
    requires multiset(order) == multiset(c)
    requires i < j < |order|
    ensures order[i].1 != order[j].1
  {
    if order[i].1 == order[j].1 {
      assert order[i] in multiset(c) && order[j] in multiset(c);
      var a :| 0 <= a < |c| && c[a] == order[i];
      var b :| 0 <= b < |c| && c[b] == order[j];
      assert a == b;
      TwiceInSeq(order, i, j);
      OnceInSeq(c, a);
    }
  }

  /** An element found at two positions counts at least twice. */
  lemma TwiceInSeq(s: seq<Entry>, i: nat, j: nat)
    requires i < j < |s| && s[i] == s[j]
    ensures multiset(s)[s[i]] >= 2
  {
    assert s == s[..j] + s[j..];
    assert s[i] in s[..j];
    assert s[j] in s[j..];
  }

  /** In a sequence whose indices strictly increase, an entry counts once. */
  lemma {:induction false} OnceInSeq(s: seq<Entry>, a: nat)
    requires a < |s|
    requires forall i, j :: 0 <= i < j < |s| ==> s[i].1 < s[j].1
    ensures multiset(s)[s[a]] == 1
    decreases |s|
  {
    var n := |s| - 1;
    assert s == s[..n] + [s[n]];
    if a < n {
      OnceInSeq(s[..n], a);
      assert s[n] != s[a];
    } else {
      assert s[a] !in s[..n];
    }
  }

  lemma SizesSnoc(es: seq<Placeholder>, order: seq<Entry>, n: nat)
    requires n < |order| && forall i :: 0 <= i < |order| ==> order[i].1 < |es|
    ensures Sizes(es, order[..n + 1]) == Sizes(es, order[..n]) + [Size(es[order[n].1])]
  {
    assert order[..n + 1][..n] == order[..n];
  }

  lemma PlaceAllSnoc(es: seq<Placeholder>, order: seq<Entry>, ps: seq<Vec3>, p: Vec3, n: nat)
    requires n < |order| && |ps| == n && forall i :: 0 <= i < |order| ==> order[i].1 < |es|
    ensures var prev := PlaceAll(es, order[..n], ps);
      PlaceAll(es, order[..n + 1], ps + [p]) == prev[order[n].1 := prev[order[n].1].(location := p)]
  {
    assert order[..n + 1][..n] == order[..n];
    assert (ps + [p])[..n] == ps;
  }

  /** Placing only ever changes locations. */
  lemma {:induction false} PlaceAllKeeps(es: seq<Placeholder>, order: seq<Entry>, ps: seq<Vec3>)
    requires |ps| == |order| && forall i :: 0 <= i < |order| ==> order[i].1 < |es|
    ensures var r := PlaceAll(es, order, ps);
      forall j :: 0 <= j < |es| ==> r[j] == es[j].(location := r[j].location)
    decreases |order|
  {
    if order != [] {
      PlaceAllKeeps(es, order[..|order| - 1], ps[..|order| - 1]);
    }
  }

  /** A placeholder no entry names stays where it is. */
  lemma {:induction false} PlaceAllElsewhere(es: seq<Placeholder>, order: seq<Entry>, ps: seq<Vec3>, j: nat)
    requires |ps| == |order| && forall i :: 0 <= i < |order| ==> order[i].1 < |es|
    requires j < |es| && forall i :: 0 <= i < |order| ==> order[i].1 != j
    ensures PlaceAll(es, order, ps)[j] == es[j]
    decreases |order|
  {
    if order != [] {
      PlaceAllElsewhere(es, order[..|order| - 1], ps[..|order| - 1], j);
    }
  }

  /** When no two entries name the same placeholder, the one `order[i]`
      names ends up at `ps[i]`. */
  lemma {:induction false} PlaceAllAt(es: seq<Placeholder>, order: seq<Entry>, ps: seq<Vec3>, i: nat)
    requires |ps| == |order| && forall x :: 0 <= x < |order| ==> order[x].1 < |es|
    requires forall x, y :: 0 <= x < y < |order| ==> order[x].1 != order[y].1
    requires i < |order|
    ensures PlaceAll(es, order, ps)[order[i].1].location == ps[i]
    decreases |order|
  {
    var n := |order| - 1;
    if i < n {
      PlaceAllAt(es, order[..n], ps[..n], i);
    }
  }

  /** The name order holds every placeholder the region holds, and no other. */
  lemma OrderCovers(es: seq<Placeholder>, rg: Region)
    ensures forall i :: 0 <= i < |Order(es, rg)| ==> Order(es, rg)[i].1 < |es|
    ensures forall j :: 0 <= j < |es| ==>
      (Holds(rg, es[j].world) <==> exists i :: 0 <= i < |Order(es, rg)| && Order(es, rg)[i].1 == j)
  {
    var order := Order(es, rg);
    OrderInRange(es, rg);
    SortByNameSpec(Contained(es, rg));
    forall j | 0 <= j < |es| && Holds(rg, es[j].world)
      ensures exists i :: 0 <= i < |order| && order[i].1 == j
    {
      assert (es[j].name, j) in multiset(order);
      var i :| 0 <= i < |order| && order[i] == (es[j].name, j);
    }
  }

  /** The grid pass of a region: the placeholders it holds, all of them and
      no other, taken in name order, go to the successive grid positions of
      their sizes; nothing else about any placeholder changes. */
  lemma ArrangedSpec(es: seq<Placeholder>, rg: Region)
    requires |rg.corners| == 8
    ensures forall i :: 0 <= i < |Order(es, rg)| ==> Order(es, rg)[i].1 < |es|
    ensures forall j :: 0 <= j < |es| ==>
      (Holds(rg, es[j].world) <==> exists i :: 0 <= i < |Order(es, rg)| && Order(es, rg)[i].1 == j)
    ensures SortedByName(Order(es, rg))
    ensures |Arranged(es, rg)| == |es|
    ensures forall j :: 0 <= j < |es| ==> Arranged(es, rg)[j] == es[j].(location := Arranged(es, rg)[j].location)
    ensures forall j :: 0 <= j < |es| && !Holds(rg, es[j].world) ==> Arranged(es, rg)[j] == es[j]
    ensures forall i :: 0 <= i < |Order(es, rg)| ==>
      Arranged(es, rg)[Order(es, rg)[i].1].location == Positions(es, rg)[i]
  {
    var order, ps := Order(es, rg), Positions(es, rg);
    OrderInRange(es, rg);
    OrderCovers(es, rg);
    var r := PlaceAll(es, order, ps);
    assert Arranged(es, rg) == r;
    PlaceAllKeeps(es, order, ps);
    forall j | 0 <= j < |es| && !Holds(rg, es[j].world)
      ensures r[j] == es[j]
    {
      PlaceAllElsewhere(es, order, ps, j);
    }
    forall i | 0 <= i < |order|
      ensures r[order[i].1].location == ps[i]
    {
      PlaceAllAt(es, order, ps, i);
    }
  }

  /** One turn of the grid loop: the item `order[n]` goes where `Place` puts
      it at the cursor the earlier items left. */
  lemma LayStep(es: seq<Placeholder>, order: seq<Entry>, n: nat, xmin: real, xmax: real, ymax: real)
    requires n < |order| && forall i :: 0 <= i < |order| ==> order[i].1 < |es|
    ensures var sizes := Sizes(es, order[..n]);
      var prev := PlaceAll(es, order[..n], Layout(sizes, xmin, xmax, ymax));
      var s := Size(es[order[n].1]);
      var p := Place(Run(sizes, xmin, xmax, ymax).1, s, xmin, xmax);
      && Run(Sizes(es, order[..n + 1]), xmin, xmax, ymax).1 == Advance(p, s)
      && PlaceAll(es, order[..n + 1], Layout(Sizes(es, order[..n + 1]), xmin, xmax, ymax))
           == prev[order[n].1 := prev[order[n].1].(location := p)]
  {
    var sizes := Sizes(es, order[..n]);
    var s := Size(es[order[n].1]);
    SizesSnoc(es, order, n);
    RunSnoc(sizes, s, xmin, xmax, ymax);
    var p := Place(Run(sizes, xmin, xmax, ymax).1, s, xmin, xmax);
    PlaceAllSnoc(es, order, Layout(sizes, xmin, xmax, ymax), p, n);
  }

  /** The grid passes of all regions, in region order. */
  function ArrangedAll(es: seq<Placeholder>, rs: seq<Region>): seq<Placeholder>
    requires AllWellFormed(rs)
    decreases |rs|
  {
    if rs == [] then es
    else
      var n := |rs| - 1;
      assert WellFormed(rs[n]);
      assert forall q :: 0 <= q < n ==> rs[..n][q] == rs[q];
      Arranged(ArrangedAll(es, rs[..n]), rs[n])
  }

  /** The grid passes only move placeholders, and a placeholder no region
      holds stays where it is. */
  lemma {:induction false} ArrangedAllSpec(es: seq<Placeholder>, rs: seq<Region>)
    requires AllWellFormed(rs)
    ensures |ArrangedAll(es, rs)| == |es|
    ensures forall j :: 0 <= j < |es| ==> ArrangedAll(es, rs)[j] == es[j].(location := ArrangedAll(es, rs)[j].location)
    ensures forall j :: 0 <= j < |es| && (forall q :: 0 <= q < |rs| ==> !Holds(rs[q], es[j].world)) ==>
      ArrangedAll(es, rs)[j] == es[j]
    decreases |rs|
  {
    if rs != [] {
      var n := |rs| - 1;
      assert forall q :: 0 <= q < n ==> rs[..n][q] == rs[q];
      ArrangedAllSpec(es, rs[..n]);
      assert WellFormed(rs[n]);
      ArrangedSpec(ArrangedAll(es, rs[..n]), rs[n]);
    }
  }
}
