/** The asset pass of `sync_images` as functions on the part of the state it
    changes: the placeholder loop of one image and one region, the region
    loop of one image, and the loop over the loaded images in a given
    order. */
module AssetPass {
  import opened Paths
  import opened Disk
  import opened Scene

  /** What the asset pass reads and changes: the placeholders, the loaded
      images with the next fresh id, and the files. */
  datatype Assets = Assets(empties: seq<Placeholder>, images: map<ImageId, Image>, nextId: nat, files: Files)

  /** Index of the first placeholder of `es` that shows image `id` and lies
      in region `rg`, or `|es|` when there is none (see `FirstInSpec`). */
  function FirstIn(id: ImageId, es: seq<Placeholder>, rg: Region): (k: nat)
    ensures k <= |es|
    ensures k < |es| ==> es[k].image == id && Holds(rg, es[k].world)
  {
    if es == [] then 0
    else if es[0].image == id && Holds(rg, es[0].world) then 0
    else
      var k := FirstIn(id, es[1..], rg);
      assert k < |es[1..]| ==> es[1 + k] == es[1..][k];
      1 + k
  }

  /** No placeholder before `FirstIn` shows the image in the region, so
      `FirstIn` finds one exactly when the region shows the image. */
  lemma {:induction false} FirstInSpec(id: ImageId, es: seq<Placeholder>, rg: Region)
    ensures forall j :: 0 <= j < FirstIn(id, es, rg) ==> !(es[j].image == id && Holds(rg, es[j].world))
    ensures FirstIn(id, es, rg) < |es| <==> ShownIn(id, es, rg)
    decreases |es|
  {
    if es != [] && !(es[0].image == id && Holds(rg, es[0].world)) {
      FirstInSpec(id, es[1..], rg);
      assert forall j :: 1 <= j < |es| ==> es[j] == es[1..][j - 1];
      if ShownIn(id, es, rg) {
        var j :| 0 <= j < |es| && es[j].image == id && Holds(rg, es[j].world);
        assert ShownIn(id, es[1..], rg) by {
          assert es[1..][j - 1] == es[j];
        }
      }
    }
  }

  /** The placeholder loop for image `id`, loaded from `src`, and region
      `rg`. When the region folder already holds an identical file of that
      name, every placeholder is skipped. Otherwise the first placeholder of
      the region showing the image is handled and the loop ends: without
      Pillow the whole sync stops (`true`); a failed conversion changes
      nothing; a successful one writes the PNG into the region folder, loads
      it under the fresh id and shows it on that placeholder. */
  function Scan(root: string, rg: Region, id: ImageId, src: string, pillow: bool,
                toPng: Blob -> Option<Blob>, s: Assets): (r: (Assets, bool))
    requires src in s.files
    ensures s.files.Keys <= r.0.files.Keys && s.images.Keys <= r.0.images.Keys
    ensures |r.0.empties| == |s.empties|
    ensures r.1 ==> !pillow
  {
    var k := FirstIn(id, s.empties, rg);
    var dst := Destination(root, rg, src);
    if k == |s.empties| || Identical(s.files, dst, src) then (s, false)
    else if !pillow then (s, true)
    else match toPng(s.files[src])
      case None => (s, false)
      case Some(png) =>
        (Assets(s.empties[k := s.empties[k].(image := s.nextId)],
                s.images[s.nextId := Converted(root, rg, src)],
                s.nextId + 1,
                s.files[dst := png]), false)
  }

  /** At the first placeholder of the region showing the image, when the
      region folder holds no identical copy, `Scan` stops without Pillow,
      changes nothing when the conversion fails, and otherwise re-links
      exactly that placeholder to the copy written at the destination. */
  lemma ScanAtFirst(root: string, rg: Region, id: ImageId, src: string, pillow: bool,
                    toPng: Blob -> Option<Blob>, s: Assets, k: nat)
    requires src in s.files && k < |s.empties| && k == FirstIn(id, s.empties, rg)
    requires !Identical(s.files, Destination(root, rg, src), src)
    ensures !pillow ==> Scan(root, rg, id, src, pillow, toPng, s) == (s, true)
    ensures pillow && toPng(s.files[src]).None? ==> Scan(root, rg, id, src, pillow, toPng, s) == (s, false)
    ensures pillow && toPng(s.files[src]).Some? ==>
      Scan(root, rg, id, src, pillow, toPng, s) ==
        (Assets(s.empties[k := s.empties[k].(image := s.nextId)],
                s.images[s.nextId := Converted(root, rg, src)],
                s.nextId + 1,
                s.files[Destination(root, rg, src) := toPng(s.files[src]).value]), false)
  {
  }

  /** An image whose file is already its region's destination is skipped:
      the destination exists and is identical to the source. */
  lemma ScanSkipsOwnCopy(root: string, rg: Region, id: ImageId, src: string, pillow: bool,
                         toPng: Blob -> Option<Blob>, s: Assets)
    requires src in s.files && src == Destination(root, rg, src)
    ensures Scan(root, rg, id, src, pillow, toPng, s) == (s, false)
  {
  }

  /** Round trip: once `Scan` has converted an image for region `rg`, the
      image it loaded points at its own destination, so scanning that image
      for the same region again converts nothing and changes nothing,
      whatever the conversion would do. */
  lemma ScanRoundTrip(root: string, rg: Region, id: ImageId, src: string, pillow: bool,
                      toPng: Blob -> Option<Blob>, s: Assets, pillow2: bool, toPng2: Blob -> Option<Blob>)
    requires src in s.files
    requires Scan(root, rg, id, src, pillow, toPng, s).0.nextId != s.nextId
    ensures var s1 := Scan(root, rg, id, src, pillow, toPng, s).0;
      && s.nextId in s1.images
      && s1.images[s.nextId] == Converted(root, rg, src)
      && s1.images[s.nextId].path in s1.files
      && Scan(root, rg, s.nextId, s1.images[s.nextId].path, pillow2, toPng2, s1) == (s1, false)
  {
    DestinationStable(root, rg, src);
  }

  /** The region loop for image `id`: `Scan` over the regions `rs[r..]`, in
      order, until one of them stops the sync. */
  function ScanFrom(root: string, rs: seq<Region>, r: nat, id: ImageId, src: string, pillow: bool,
                    toPng: Blob -> Option<Blob>, s: Assets): (p: (Assets, bool))
    requires r <= |rs| && src in s.files
    ensures s.files.Keys <= p.0.files.Keys && s.images.Keys <= p.0.images.Keys
    ensures |p.0.empties| == |s.empties|
    ensures p.1 ==> !pillow
    decreases |rs| - r
  {
    if r == |rs| then (s, false)
    else
      var q := Scan(root, rs[r], id, src, pillow, toPng, s);
      if q.1 then q else ScanFrom(root, rs, r + 1, id, src, pillow, toPng, q.0)
  }

  /** One turn of the region loop. */
  lemma ScanFromStep(root: string, rs: seq<Region>, r: nat, id: ImageId, src: string, pillow: bool,
                     toPng: Blob -> Option<Blob>, s: Assets, s1: Assets, stop: bool)
    requires r < |rs| && src in s.files
    requires Scan(root, rs[r], id, src, pillow, toPng, s) == (s1, stop)
    ensures stop ==> ScanFrom(root, rs, r, id, src, pillow, toPng, s) == (s1, true)
    ensures !stop ==> ScanFrom(root, rs, r, id, src, pillow, toPng, s) == ScanFrom(root, rs, r + 1, id, src, pillow, toPng, s1)
  {
  }

  /** One image `id` of the loop over the loaded images, with `acc` the
      images marked for removal so far. A file-backed image whose source
      file exists goes through the region loop; it is marked when no region
      held a placeholder showing it, unless the sync stopped. */
  function Handle(root: string, rs: seq<Region>, pillow: bool, toPng: Blob -> Option<Blob>,
                  s: Assets, acc: set<ImageId>, id: ImageId): (p: (Assets, set<ImageId>, bool))
    ensures s.files.Keys <= p.0.files.Keys && s.images.Keys <= p.0.images.Keys
    ensures |p.0.empties| == |s.empties|
    ensures acc <= p.1 <= acc + {id}
    ensures p.2 ==> !pillow
  {
    if id in s.images && s.images[id].fromFile && s.images[id].path in s.files then
      var q := ScanFrom(root, rs, 0, id, s.images[id].path, pillow, toPng, s);
      (q.0, if q.1 || Claimed(id, s.empties, rs) then acc else acc + {id}, q.1)
    else (s, acc, false)
  }

  /** The loop over the loaded images, taken in the order `order`, from the
      state `s0`: the new state, the images marked for removal, and whether
      the sync stopped (which ends the loop). */
  function Pass(root: string, rs: seq<Region>, pillow: bool, toPng: Blob -> Option<Blob>,
                s0: Assets, order: seq<ImageId>): (p: (Assets, set<ImageId>, bool))
    ensures s0.files.Keys <= p.0.files.Keys && s0.images.Keys <= p.0.images.Keys
    ensures |p.0.empties| == |s0.empties|
    ensures p.2 ==> !pillow
    ensures forall id :: id in p.1 ==> id in order
    decreases |order|
  {
    if order == [] then (s0, {}, false)
    else
      var q := Pass(root, rs, pillow, toPng, s0, order[..|order| - 1]);
      if q.2 then q else Handle(root, rs, pillow, toPng, q.0, q.1, order[|order| - 1])
  }

  /** `order` lists distinct members of `keys`, and every one of them when
      `all` holds. */
  predicate Enumerates(order: seq<ImageId>, keys: set<ImageId>, all: bool) {
    && (forall i, j :: 0 <= i < j < |order| ==> order[i] != order[j])
    && (forall i :: 0 <= i < |order| ==> order[i] in keys)
    && (all ==> forall id :: id in keys ==> id in order)
  }

  /** `s` is a state the asset pass may reach from `s0` (see `Evolved`),
      with every loaded image below the next fresh id. */
  ghost predicate Reached(root: string, rs: seq<Region>, s0: Assets, s: Assets) {
    && Evolved(root, rs, s0.empties, s0.images, s0.nextId, s0.files, s.empties, s.images, s.nextId, s.files)
    && IdsBelow(s.images, s.nextId)
  }

  /** Image `id` is loaded in `s0` from the file `src`, below the next id. */
  predicate LoadedFrom(s0: Assets, id: ImageId, src: string) {
    id in s0.images && s0.images[id].fromFile && s0.images[id].path == src && id < s0.nextId
  }

  /** Re-linking placeholder `k`, which lies in region `rs[r]` and shows
      image `id`, to the converted copy `png` is a change the asset pass may
      make. */
  lemma RelinkReaches(root: string, rs: seq<Region>, r: nat, id: ImageId, src: string,
                      s0: Assets, s: Assets, k: nat, png: Blob)
    requires r < |rs| && src in s.files && LoadedFrom(s0, id, src)
    requires Reached(root, rs, s0, s)
    requires k < |s.empties| && s.empties[k].image == id && Holds(rs[r], s.empties[k].world)
    ensures var s1 := Assets(s.empties[k := s.empties[k].(image := s.nextId)],
                             s.images[s.nextId := Converted(root, rs[r], src)],
                             s.nextId + 1,
                             s.files[Destination(root, rs[r], src) := png]);
      Reached(root, rs, s0, s1) && Retargeted(s.empties, s1.empties, id)
  {
    RelinkStep(root, rs, s0.empties, s0.images, s0.nextId, s0.files, s.empties, s.images, s.nextId, s.files,
               k, r, src, png);
    RetargetedOne(s.empties, k, s.nextId, id);
  }

  /** `Scan` either changes nothing or re-links the first placeholder of the
      region showing the image to a converted copy. */
  lemma ScanOutcome(root: string, rg: Region, id: ImageId, src: string, pillow: bool,
                    toPng: Blob -> Option<Blob>, s: Assets)
    requires src in s.files
    ensures var q := Scan(root, rg, id, src, pillow, toPng, s);
      var k := FirstIn(id, s.empties, rg);
      || q.0 == s
      || (&& k < |s.empties| && toPng(s.files[src]).Some?
          && q.0 == Assets(s.empties[k := s.empties[k].(image := s.nextId)],
                           s.images[s.nextId := Converted(root, rg, src)],
                           s.nextId + 1,
                           s.files[Destination(root, rg, src) := toPng(s.files[src]).value]))
  {
  }

  /** `Scan` of region `rs[r]` is a change the asset pass may make, and only
      re-links placeholders that showed image `id`. */
  lemma ScanReaches(root: string, rs: seq<Region>, r: nat, id: ImageId, src: string, pillow: bool,
                    toPng: Blob -> Option<Blob>, s0: Assets, s: Assets)
    requires r < |rs| && src in s.files && LoadedFrom(s0, id, src)
    requires Reached(root, rs, s0, s)
    ensures Reached(root, rs, s0, Scan(root, rs[r], id, src, pillow, toPng, s).0)
    ensures Retargeted(s.empties, Scan(root, rs[r], id, src, pillow, toPng, s).0.empties, id)
  {
    var q := Scan(root, rs[r], id, src, pillow, toPng, s);
    ScanOutcome(root, rs[r], id, src, pillow, toPng, s);
    if q.0 == s {
      RetargetedNone(s.empties, id);
    } else {
      var k := FirstIn(id, s.empties, rs[r]);
      RelinkReaches(root, rs, r, id, src, s0, s, k, toPng(s.files[src]).value);
    }
  }

  /** The region loop of image `id` is a change the asset pass may make, and
      only re-links placeholders that showed the image. */
  lemma {:induction false} ScanFromReaches(root: string, rs: seq<Region>, r: nat, id: ImageId, src: string,
                                          pillow: bool, toPng: Blob -> Option<Blob>, s0: Assets, s: Assets)
    requires r <= |rs| && src in s.files && LoadedFrom(s0, id, src)
    requires Reached(root, rs, s0, s)
    ensures Reached(root, rs, s0, ScanFrom(root, rs, r, id, src, pillow, toPng, s).0)
    ensures Retargeted(s.empties, ScanFrom(root, rs, r, id, src, pillow, toPng, s).0.empties, id)
    decreases |rs| - r
  {
    if r == |rs| {
      RetargetedNone(s.empties, id);
    } else {
      var q := Scan(root, rs[r], id, src, pillow, toPng, s);
      ScanReaches(root, rs, r, id, src, pillow, toPng, s0, s);
      if !q.1 {
        ScanFromReaches(root, rs, r + 1, id, src, pillow, toPng, s0, q.0);
        RetargetedTrans(s.empties, q.0.empties, ScanFrom(root, rs, r + 1, id, src, pillow, toPng, q.0).0.empties, id);
      }
    }
  }

  /** What holds after the loop over the images has handled `order` from
      `s0` and reached `p` without stopping: `p.0` is reachable, the
      placeholders of images not handled yet are untouched, every image
      marked was unclaimed when the pass began and its source file exists,
      and every handled image that was unclaimed with an existing source
      file is marked. */
  ghost predicate Handled(root: string, rs: seq<Region>, s0: Assets, order: seq<ImageId>, p: (Assets, set<ImageId>, bool)) {
    && Reached(root, rs, s0, p.0)
    && (forall k :: 0 <= k < |s0.empties| && s0.empties[k].image !in order ==> p.0.empties[k].image == s0.empties[k].image)
    && (forall id :: id in p.1 ==> Unclaimed(id, s0.images, p.0.files, s0.empties, rs))
    && (!p.2 ==> forall id :: id in order && Unclaimed(id, s0.images, s0.files, s0.empties, rs) ==> id in p.1)
  }

  /** An image not handled yet is claimed in a reachable state exactly when
      it was claimed when the pass began. */
  lemma ClaimedKept(root: string, rs: seq<Region>, s0: Assets, order: seq<ImageId>, s: Assets, id: ImageId)
    requires Reached(root, rs, s0, s) && id < s0.nextId && id !in order
    requires forall k :: 0 <= k < |s0.empties| && s0.empties[k].image !in order ==> s.empties[k].image == s0.empties[k].image
    ensures Claimed(id, s.empties, rs) <==> Claimed(id, s0.empties, rs)
  {
    forall k | 0 <= k < |s.empties| && s.empties[k].image != s0.empties[k].image
      ensures s0.nextId <= s.empties[k].image
    {
      assert RelinkOk(root, rs, s0.empties[k], s0.images, s0.nextId, s.empties[k], s.images, s.files);
    }
    forall k | 0 <= k < |s.empties| ensures SameButImage(s0.empties[k], s.empties[k]) {
    }
    ClaimedStable(id, s0.empties, s.empties, rs, s0.nextId);
  }

  /** One image `id`, not handled before, keeps `Handled`. */
  lemma HandleKeeps(root: string, rs: seq<Region>, pillow: bool, toPng: Blob -> Option<Blob>,
                    s0: Assets, order: seq<ImageId>, s: Assets, acc: set<ImageId>, id: ImageId)
    requires IdsBelow(s0.images, s0.nextId) && id in s0.images && id !in order
    requires Handled(root, rs, s0, order, (s, acc, false))
    ensures Handled(root, rs, s0, order + [id], Handle(root, rs, pillow, toPng, s, acc, id))
  {
    var p := Handle(root, rs, pillow, toPng, s, acc, id);
    assert s.images[id] == s0.images[id];
    if s.images[id].fromFile && s.images[id].path in s.files {
      var src := s.images[id].path;
      ScanFromReaches(root, rs, 0, id, src, pillow, toPng, s0, s);
      ClaimedKept(root, rs, s0, order, s, id);
      forall x | x in p.1 ensures Unclaimed(x, s0.images, p.0.files, s0.empties, rs) {
        if x in acc {
          assert Unclaimed(x, s0.images, s.files, s0.empties, rs);
        }
      }
    }
  }

  /** The loop over the images, in an order listing distinct loaded images,
      keeps `Handled`. */
  lemma {:induction false} PassHandles(root: string, rs: seq<Region>, pillow: bool, toPng: Blob -> Option<Blob>,
                                      s0: Assets, order: seq<ImageId>)
    requires IdsBelow(s0.images, s0.nextId) && Enumerates(order, s0.images.Keys, false)
    ensures Handled(root, rs, s0, order, Pass(root, rs, pillow, toPng, s0, order))
    decreases |order|
  {
    if order == [] {
      RetargetedNone(s0.empties, 0);
    } else {
      var prev, id := order[..|order| - 1], order[|order| - 1];
      assert order == prev + [id];
      assert id !in prev by {
        assert forall i :: 0 <= i < |prev| ==> prev[i] == order[i];
      }
      PassHandles(root, rs, pillow, toPng, s0, prev);
      var q := Pass(root, rs, pillow, toPng, s0, prev);
      if !q.2 {
        HandleKeeps(root, rs, pillow, toPng, s0, prev, q.0, q.1, id);
      }
    }
  }

  /** The loop over the images, one image further. */
  lemma PassSnoc(root: string, rs: seq<Region>, pillow: bool, toPng: Blob -> Option<Blob>,
                 s0: Assets, order: seq<ImageId>, id: ImageId)
    ensures var q := Pass(root, rs, pillow, toPng, s0, order);
      Pass(root, rs, pillow, toPng, s0, order + [id]) == if q.2 then q else Handle(root, rs, pillow, toPng, q.0, q.1, id)
  {
    assert (order + [id])[..|order|] == order;
  }

  /** The asset pass, run over every loaded image in some order, is a change
      the asset pass may make (`Evolved`); it marks only file-backed images
      with an existing source file that no region showed when it began,
      and, unless it stopped, all of them. */
  lemma PassMarksUnclaimed(root: string, rs: seq<Region>, pillow: bool, toPng: Blob -> Option<Blob>,
                           s0: Assets, order: seq<ImageId>)
    requires IdsBelow(s0.images, s0.nextId)
    requires Enumerates(order, s0.images.Keys, !Pass(root, rs, pillow, toPng, s0, order).2)
    ensures var p := Pass(root, rs, pillow, toPng, s0, order);
      && Evolved(root, rs, s0.empties, s0.images, s0.nextId, s0.files, p.0.empties, p.0.images, p.0.nextId, p.0.files)
      && (forall id :: id in p.1 ==> Unclaimed(id, s0.images, p.0.files, s0.empties, rs))
      && (!p.2 ==> forall id :: Unclaimed(id, s0.images, s0.files, s0.empties, rs) ==> id in p.1)
  {
    PassHandles(root, rs, pillow, toPng, s0, order);
  }
}
