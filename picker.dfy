/** The object `RefPicker` of ref_picker.py as a class over the scene and
    the images directory: the passes of `sync_images` and `rename_folders`. */
module Picker {
  import opened Paths
  import opened Geometry
  import opened Ordering
  import opened Grid
  import opened Disk
  import opened Scene
  import opened Arrange
  import opened AssetPass

  const RenamedMessage := "Folders renamed successfully"

  /** The message `rename_folders` returns when the target already exists. */
  function ConflictMessage(path: string): string {
    "Folder '" + path + "' already exists. Please choose a different name."
  }

  class RefPicker {
    /** The images directory, `images` next to the .blend file. */
    const root: string
    var saved: bool
    var regions: seq<Region>
    var empties: seq<Placeholder>
    var images: map<ImageId, Image>
    var nextId: nat
    /** Folders directly inside the images directory. */
    var dirs: set<string>
    var files: Files

    ghost predicate Valid()
      reads this
    {
      && AllWellFormed(regions)
      && Linked(empties, images)
      && IdsBelow(images, nextId)
      && FlatNames(dirs)
      && Consistent(root, dirs, files)
    }

    /** The part of the state the asset pass works on. */
    function Snapshot(): Assets
      reads this
    {
      Assets(empties, images, nextId, files)
    }

    constructor (root: string, saved: bool, regions: seq<Region>, empties: seq<Placeholder>,
                 images: map<ImageId, Image>, nextId: nat, dirs: set<string>, files: Files)
      requires AllWellFormed(regions) && Linked(empties, images) && IdsBelow(images, nextId)
      requires FlatNames(dirs) && Consistent(root, dirs, files)
      ensures Valid()
      ensures this.root == root && this.saved == saved && this.regions == regions
      ensures this.empties == empties && this.images == images && this.nextId == nextId
      ensures this.dirs == dirs && this.files == files
    {
      this.root := root;
      this.saved := saved;
      this.regions := regions;
      this.empties := empties;
      this.images := images;
      this.nextId := nextId;
      this.dirs := dirs;
      this.files := files;
    }

    /** `orphans_purge`: loaded images that no placeholder shows and that
        have no other user (`otherUsers`) are dropped. */
    method PurgeOrphans(otherUsers: set<ImageId>)
      requires Valid()
      modifies this
      ensures Valid()
      ensures forall id :: id in images <==> id in old(images) && (Shown(id, empties) || id in otherUsers)
      ensures forall id :: id in images ==> images[id] == old(images)[id]
      ensures images == Purged(old(images), empties, otherUsers)
      ensures regions == old(regions) && empties == old(empties) && nextId == old(nextId)
      ensures dirs == old(dirs) && files == old(files) && saved == old(saved)
    {
      images := map id | id in images && (Shown(id, empties) || id in otherUsers) :: images[id];
    }

    /** Deletes every folder of the images directory that no region names,
        with everything in it. */
    method PruneFolders()
      requires Valid()
      modifies this
      ensures Valid()
      ensures dirs == old(dirs) * Labels(regions)
      ensures forall p :: p in files <==>
        p in old(files) && !(TopFolder(root, p).Some? && TopFolder(root, p).value in old(dirs) - Labels(regions))
      ensures forall p :: p in files ==> files[p] == old(files)[p]
      ensures files == Pruned(root, old(files), old(dirs) - Labels(regions))
      ensures regions == old(regions) && empties == old(empties) && images == old(images)
      ensures nextId == old(nextId) && saved == old(saved)
    {
      var stale := dirs - Labels(regions);
      ghost var gone: set<string> := {};
      while stale != {}
        invariant stale !! gone && stale + gone == old(dirs) - Labels(regions)
        invariant dirs == old(dirs) - gone
        invariant forall p :: p in files <==>
          p in old(files) && !(TopFolder(root, p).Some? && TopFolder(root, p).value in gone)
        invariant forall p :: p in files ==> files[p] == old(files)[p]
        invariant Valid()
        invariant regions == old(regions) && empties == old(empties) && images == old(images)
        invariant nextId == old(nextId) && saved == old(saved)
        decreases stale
      {
        var folder :| folder in stale;
        TopFolderAll(root, folder);
        files := RemoveTree(files, root, folder);
        dirs := dirs - {folder};
        stale := stale - {folder};
        gone := gone + {folder};
      }
    }

    /** Creates the folder of every region that has none yet. */
    method MakeRegionDirs()
      requires Valid()
      modifies this
      ensures Valid()
      ensures dirs == old(dirs) + Labels(regions)
      ensures regions == old(regions) && empties == old(empties) && images == old(images)
      ensures nextId == old(nextId) && files == old(files) && saved == old(saved)
    {
      var r := 0;
      while r < |regions|
        invariant r <= |regions|
        invariant dirs == old(dirs) + Labels(regions[..r])
        invariant Valid()
        invariant regions == old(regions) && empties == old(empties) && images == old(images)
        invariant nextId == old(nextId) && files == old(files) && saved == old(saved)
      {
        assert Labels(regions[..r + 1]) == Labels(regions[..r]) + {Folder(regions[r])} by {
          assert forall q :: 0 <= q < r ==> regions[..r + 1][q] == regions[..r][q];
          assert regions[..r + 1][r] == regions[r];
        }
        var folder := Folder(regions[r]);
        if folder !in dirs {
          dirs := dirs + {folder};
        }
        r := r + 1;
      }
      assert regions[..r] == regions;
    }

    /** Writes `png` to `dst`, inside the existing folder `folder`. */
    method WriteFile(dst: string, folder: string, png: Blob)
      requires Valid() && folder in dirs && Under(dst, FolderPath(root, folder))
      modifies this
      ensures Valid()
      ensures files == old(files)[dst := png]
      ensures regions == old(regions) && empties == old(empties) && images == old(images)
      ensures nextId == old(nextId) && dirs == old(dirs) && saved == old(saved)
    {
      WriteConsistent(root, dirs, files, dst, folder, png);
      files := files[dst := png];
    }

    /** `bpy.data.images.load` followed by `obj.data = new_image`: `img` is
        loaded under a fresh id and placeholder `k` shows it. */
    method LoadAndLink(k: nat, img: Image)
      requires Valid() && k < |empties|
      modifies this
      ensures Valid()
      ensures images == old(images)[old(nextId) := img]
      ensures nextId == old(nextId) + 1
      ensures empties == old(empties)[k := old(empties)[k].(image := old(nextId))]
      ensures regions == old(regions) && files == old(files) && dirs == old(dirs) && saved == old(saved)
    {
      LinkFresh(empties, images, nextId, k, img);
      images := images[nextId := img];
      empties := empties[k := empties[k].(image := nextId)];
      nextId := nextId + 1;
    }

    /** Writes the converted file `png` into the folder of region `r`, loads
        it as a new image and re-links placeholder `k` to it. */
    method Install(k: nat, r: nat, src: string, png: Blob)
      requires Valid() && Labels(regions) <= dirs
      requires r < |regions| && k < |empties|
      modifies this
      ensures Valid() && Labels(regions) <= dirs
      ensures regions == old(regions) && dirs == old(dirs) && saved == old(saved)
      ensures files == old(files)[Destination(root, regions[r], src) := png]
      ensures images == old(images)[old(nextId) := Converted(root, regions[r], src)]
      ensures nextId == old(nextId) + 1
      ensures empties == old(empties)[k := old(empties)[k].(image := old(nextId))]
    {
      var folder := Folder(regions[r]);
      assert folder in Labels(regions);
      DestinationInFolder(root, regions[r], src);
      WriteFile(Destination(root, regions[r], src), folder, png);
      LoadAndLink(k, Converted(root, regions[r], src));
    }

    /** One placeholder of region `r` shows the image loaded from `src`: its
        file is skipped when the region folder already holds an identical
        file of the same name; otherwise, with Pillow at hand, it is
        converted to PNG into the region folder and the placeholder is
        re-linked to the newly loaded, renamed image. */
    method Deliver(k: nat, r: nat, src: string, pillow: bool, toPng: Blob -> Option<Blob>) returns (d: Delivery)
      requires Valid() && Labels(regions) <= dirs
      requires r < |regions| && k < |empties| && src in files
      modifies this
      ensures Valid() && Labels(regions) <= dirs
      ensures regions == old(regions) && dirs == old(dirs) && saved == old(saved)
      ensures var dst := Destination(root, regions[r], src);
        var same := Identical(old(files), dst, src);
        && (d == Skipped <==> same)
        && (d == NeedPillow <==> !same && !pillow)
        && (d == ConvertFailed <==> !same && pillow && toPng(old(files)[src]).None?)
        && (d == Copied ==>
              && files == old(files)[dst := toPng(old(files)[src]).value]
              && images == old(images)[old(nextId) := Converted(root, regions[r], src)]
              && nextId == old(nextId) + 1
              && empties == old(empties)[k := old(empties)[k].(image := old(nextId))])
      ensures d != Copied ==>
        files == old(files) && images == old(images) && nextId == old(nextId) && empties == old(empties)
      ensures d != Skipped && k == FirstIn(old(empties)[k].image, old(empties), regions[r]) ==>
        (Snapshot(), d == NeedPillow) == Scan(root, regions[r], old(empties)[k].image, src, pillow, toPng, old(Snapshot()))
    {
      var dst := Destination(root, regions[r], src);
      if k == FirstIn(empties[k].image, empties, regions[r]) && !Identical(files, dst, src) {
        ScanAtFirst(root, regions[r], empties[k].image, src, pillow, toPng, Snapshot(), k);
      }
      if dst in files && files[dst] == files[src] {
        return Skipped;
      }
      if !pillow {
        return NeedPillow;
      }
      var png := toPng(files[src]);
      if png.None? {
        return ConvertFailed;
      }
      Install(k, r, src, png.value);
      d := Copied;
    }

    /** The placeholder loop of the asset pass for image `id` and region
        `r`: every placeholder of the region showing the image is handed to
        `Deliver` until one is not skipped. Since the files do not change
        while placeholders are skipped, this is `Scan`: only the first such
        placeholder can be converted. */
    method ScanRegion(id: ImageId, r: nat, src: string, pillow: bool, toPng: Blob -> Option<Blob>)
      returns (hit: bool, stopped: bool)
      requires Valid() && Labels(regions) <= dirs && r < |regions| && src in files
      modifies this
      ensures Valid() && Labels(regions) <= dirs
      ensures regions == old(regions) && dirs == old(dirs) && saved == old(saved)
      ensures hit <==> ShownIn(id, old(empties), regions[r])
      ensures !hit ==> empties == old(empties) && !stopped
      ensures (Snapshot(), stopped) == Scan(root, regions[r], id, src, pillow, toPng, old(Snapshot()))
    {
      hit, stopped := false, false;
      var k := 0;
      ghost var dst := Destination(root, regions[r], src);
      FirstInSpec(id, empties, regions[r]);
      while k < |empties|
        invariant k <= |empties|
        invariant empties == old(empties) && images == old(images) && nextId == old(nextId) && files == old(files)
        invariant dirs == old(dirs) && regions == old(regions) && saved == old(saved)
        invariant hit <==> FirstIn(id, empties, regions[r]) < k
        invariant hit ==> Identical(files, dst, src)
      {
        if empties[k].image == id && Holds(regions[r], empties[k].world) {
          assert hit || k == FirstIn(id, empties, regions[r]);
          hit := true;
          var d := Deliver(k, r, src, pillow, toPng);
          if d == NeedPillow {
            stopped := true;
            return;
          }
          if d != Skipped {
            return;
          }
        }
        k := k + 1;
      }
      assert Scan(root, regions[r], id, src, pillow, toPng, Snapshot()) == (Snapshot(), false);
    }

    /** One turn of the region loop for image `id`: region `r` is scanned,
        and `found` records whether some region up to `r` held a placeholder
        that showed the image when the loop started (`start`). */
    method RegionTurn(id: ImageId, r: nat, src: string, pillow: bool, toPng: Blob -> Option<Blob>,
                      ghost start: seq<Placeholder>, found: bool, ghost target: (Assets, bool))
      returns (found': bool, stopped: bool)
      requires Valid() && Labels(regions) <= dirs && r < |regions| && src in files
      requires target == ScanFrom(root, regions, r, id, src, pillow, toPng, Assets(empties, images, nextId, files))
      requires found <==> ShownAmong(id, start, regions, r)
      requires !found ==> empties == start
      modifies this
      ensures Valid() && Labels(regions) <= dirs
      ensures regions == old(regions) && dirs == old(dirs) && saved == old(saved)
      ensures src in files
      ensures !stopped ==> (found' <==> ShownAmong(id, start, regions, r + 1))
      ensures !found' ==> empties == start
      ensures stopped ==> target == (Assets(empties, images, nextId, files), true)
      ensures !stopped ==> target == ScanFrom(root, regions, r + 1, id, src, pillow, toPng, Assets(empties, images, nextId, files))
    {
      ghost var before := Snapshot();
      var hit;
      hit, stopped := ScanRegion(id, r, src, pillow, toPng);
      ScanFromStep(root, regions, r, id, src, pillow, toPng, before, Snapshot(), stopped);
      ShownAmongStep(id, start, regions, r);
      found' := found || hit;
    }

    /** The region loop of the asset pass for image `id`, which is
        `ScanFrom` over all regions: `found` tells whether a placeholder
        showing it lies in some region. */
    method ProcessImage(id: ImageId, src: string, pillow: bool, toPng: Blob -> Option<Blob>)
      returns (found: bool, stopped: bool)
      requires Valid() && Labels(regions) <= dirs && src in files
      modifies this
      ensures Valid() && Labels(regions) <= dirs
      ensures regions == old(regions) && dirs == old(dirs) && saved == old(saved)
      ensures !stopped ==> (found <==> Claimed(id, old(empties), regions))
      ensures (Snapshot(), stopped) == ScanFrom(root, regions, 0, id, src, pillow, toPng, old(Snapshot()))
    {
      found, stopped := false, false;
      ghost var target := ScanFrom(root, regions, 0, id, src, pillow, toPng, Snapshot());
      var r := 0;
      while r < |regions| && !stopped
        invariant r <= |regions|
        invariant Valid() && src in files
        invariant regions == old(regions) && dirs == old(dirs) && saved == old(saved)
        invariant target == if stopped then (Assets(empties, images, nextId, files), true)
          else ScanFrom(root, regions, r, id, src, pillow, toPng, Assets(empties, images, nextId, files))
        invariant !stopped ==> (found <==> ShownAmong(id, old(empties), regions, r))
        invariant !found ==> empties == old(empties)
      {
        found, stopped := RegionTurn(id, r, src, pillow, toPng, old(empties), found, target);
        r := r + 1;
      }
      ShownAmongAll(id, old(empties), regions);
    }

    /** One turn of the loop over the images: image `id`, when file-backed
        with an existing source file, goes through the region loop and is
        added to `toRemove` when no region held a placeholder showing it. */
    method ImageTurn(id: ImageId, pillow: bool, toPng: Blob -> Option<Blob>, toRemove: set<ImageId>)
      returns (toRemove': set<ImageId>, stopped: bool)
      requires Valid() && Labels(regions) <= dirs && id in images
      modifies this
      ensures Valid() && Labels(regions) <= dirs
      ensures regions == old(regions) && dirs == old(dirs) && saved == old(saved)
      ensures (Snapshot(), toRemove', stopped) == Handle(root, regions, pillow, toPng, old(Snapshot()), toRemove, id)
    {
      toRemove', stopped := toRemove, false;
      var image := images[id];
      if image.fromFile {
        var src := image.path;
        if src !in files {
          return;
        }
        var found;
        found, stopped := ProcessImage(id, src, pillow, toPng);
        if !stopped && !found {
          toRemove' := toRemove + {id};
        }
      }
    }

    /** The asset pass: the loaded images, taken in some order, go through
        `ImageTurn`; this is `Pass` in that order. `stopped` means a
        conversion found Pillow missing and the pass was abandoned. What the
        marked images are is `PassMarksUnclaimed`. */
    method Reconcile(pillow: bool, toPng: Blob -> Option<Blob>)
      returns (toRemove: set<ImageId>, stopped: bool, ghost order: seq<ImageId>)
      requires Valid() && Labels(regions) <= dirs
      modifies this
      ensures Valid() && Labels(regions) <= dirs
      ensures regions == old(regions) && dirs == old(dirs) && saved == old(saved)
      ensures Enumerates(order, old(images).Keys, !stopped)
      ensures (Snapshot(), toRemove, stopped) == Pass(root, regions, pillow, toPng, old(Snapshot()), order)
    {
      ghost var s0 := Snapshot();
      var todo := images.Keys;
      toRemove, stopped, order := {}, false, [];
      while todo != {}
        invariant todo <= s0.images.Keys
        invariant forall x :: x in order <==> x in s0.images && x !in todo
        invariant Enumerates(order, s0.images.Keys, false)
        invariant Valid() && Labels(regions) <= dirs
        invariant regions == old(regions) && dirs == old(dirs) && saved == old(saved)
        invariant !stopped && (Snapshot(), toRemove, false) == Pass(root, regions, pillow, toPng, s0, order)
        decreases todo
      {
        var id :| id in todo;
        PassSnoc(root, regions, pillow, toPng, s0, order, id);
        toRemove, stopped := ImageTurn(id, pillow, toPng, toRemove);
        todo := todo - {id};
        order := order + [id];
        if stopped {
          break;
        }
      }
    }

    /** The placeholders that do not show image `id`, in order. */
    method KeptWithout(id: ImageId) returns (kept: seq<Placeholder>)
      ensures kept == Without(empties, {id})
    {
      kept := [];
      var k := 0;
      while k < |empties|
        invariant k <= |empties|
        invariant kept == Without(empties[..k], {id})
      {
        assert empties[..k + 1][..k] == empties[..k];
        if empties[k].image != id {
          kept := kept + [empties[k]];
        }
        k := k + 1;
      }
      assert empties[..k] == empties;
    }

    /** Removes image `id` and the placeholders showing it. */
    method RemoveImage(id: ImageId)
      requires Valid()
      modifies this
      ensures Valid()
      ensures empties == Without(old(empties), {id})
      ensures images == old(images) - {id}
      ensures regions == old(regions) && nextId == old(nextId)
      ensures dirs == old(dirs) && files == old(files) && saved == old(saved)
    {
      var kept := KeptWithout(id);
      forall j | 0 <= j < |kept| ensures kept[j].image in images - {id} {
        assert kept[j] in kept;
      }
      empties := kept;
      images := images - {id};
    }

    /** Removes the images of `toRemove` together with the placeholders
        showing them. */
    method RemoveUnassociated(toRemove: set<ImageId>)
      requires Valid()
      modifies this
      ensures Valid()
      ensures empties == Without(old(empties), toRemove)
      ensures images == old(images) - toRemove
      ensures regions == old(regions) && nextId == old(nextId)
      ensures dirs == old(dirs) && files == old(files) && saved == old(saved)
    {
      var todo := toRemove;
      ghost var done: set<ImageId> := {};
      WithoutNone(empties);
      while todo != {}
        invariant todo !! done && todo + done == toRemove
        invariant empties == Without(old(empties), done)
        invariant images == old(images) - done
        invariant Valid()
        invariant regions == old(regions) && nextId == old(nextId)
        invariant dirs == old(dirs) && files == old(files) && saved == old(saved)
        decreases todo
      {
        var id :| id in todo;
        RemoveImage(id);
        WithoutUnion(old(empties), done, {id});
        assert images == old(images) - (done + {id});
        todo := todo - {id};
        done := done + {id};
      }
    }
    /** Whether some placeholder shows an image loaded from `p`; the scan
        stops at the first one. */
    method IsReferenced(p: string) returns (b: bool)
      requires Valid()
      ensures b <==> Referenced(empties, images, p)
    {
      b := false;
      var k := 0;
      while k < |empties|
        invariant k <= |empties|
        invariant !b ==> forall j :: 0 <= j < k ==> images[empties[j].image].path != p
        invariant b ==> Referenced(empties, images, p)
      {
        if images[empties[k].image].path == p {
          b := true;
          break;
        }
        k := k + 1;
      }
    }

    /** `os.remove(p)`. */
    method RemoveFile(p: string)
      requires Valid()
      modifies this
      ensures Valid()
      ensures forall q :: q in files <==> q in old(files) && q != p
      ensures forall q :: q in files ==> files[q] == old(files)[q]
      ensures regions == old(regions) && empties == old(empties) && images == old(images)
      ensures nextId == old(nextId) && dirs == old(dirs) && saved == old(saved)
    {
      files := files - {p};
    }

    /** One entry `p` of the folder of region `r`: deleted when it is an
        image file that no placeholder shows. */
    method PruneEntry(dir: string, p: string)
      requires Valid() && ListedIn(p, dir)
      modifies this
      ensures Valid()
      ensures regions == old(regions) && empties == old(empties) && images == old(images)
      ensures forall q :: q in files <==> q in old(files) && (q == p ==> !Stale(dir, empties, images, p))
      ensures forall q :: q in files ==> files[q] == old(files)[q]
      ensures nextId == old(nextId) && dirs == old(dirs) && saved == old(saved)
    {
      if HasImageExt(Basename(p)) {
        var referenced := IsReferenced(p);
        if !referenced {
          RemoveFile(p);
        }
      }
    }

    /** Deletes the image files listed in the folder of region `r` that no
        placeholder shows. */
    method PruneRegionFiles(r: nat)
      requires Valid() && r < |regions|
      modifies this
      ensures Valid()
      ensures regions == old(regions) && empties == old(empties) && images == old(images)
      ensures forall p :: p in files <==> p in old(files) && !Stale(FolderPath(root, Folder(regions[r])), empties, images, p)
      ensures forall p :: p in files ==> files[p] == old(files)[p]
      ensures nextId == old(nextId) && dirs == old(dirs) && saved == old(saved)
    {
      var dir := FolderPath(root, Folder(regions[r]));
      var listing := set p | p in files && ListedIn(p, dir);
      ghost var doomed := set p | p in files && Stale(FolderPath(root, Folder(regions[r])), empties, images, p);
      ghost var seen: set<string> := {};
      while listing != {}
        invariant regions == old(regions) && empties == old(empties) && images == old(images)
        invariant forall p :: p in listing ==> p !in seen && p in files && ListedIn(p, dir)
        invariant forall p :: p in old(files) && ListedIn(p, dir) ==> p in listing || p in seen
        invariant forall p :: p in files <==> p in old(files) && !(p in seen && p in doomed)
        invariant forall p :: p in files ==> files[p] == old(files)[p]
        invariant Valid()
        invariant nextId == old(nextId) && dirs == old(dirs) && saved == old(saved)
        decreases listing
      {
        var p :| p in listing;
        PruneEntry(dir, p);
        listing := listing - {p};
        seen := seen + {p};
      }
    }

    /** The placeholders of region `rg`, in collection order. */
    method Collect(rg: Region) returns (found: seq<Entry>)
      ensures found == Contained(empties, rg)
    {
      found := [];
      var k := 0;
      while k < |empties|
        invariant k <= |empties|
        invariant found == Contained(empties[..k], rg)
      {
        assert empties[..k + 1][..k] == empties[..k];
        if Holds(rg, empties[k].world) {
          found := found + [(empties[k].name, k)];
        }
        k := k + 1;
      }
      assert empties[..k] == empties;
    }

    /** `obj.location = p` for placeholder `k`. */
    method Move(k: nat, p: Vec3)
      requires Valid() && k < |empties|
      modifies this
      ensures Valid()
      ensures empties == old(empties)[k := old(empties)[k].(location := p)]
      ensures regions == old(regions) && images == old(images) && nextId == old(nextId)
      ensures dirs == old(dirs) && files == old(files) && saved == old(saved)
    {
      empties := empties[k := empties[k].(location := p)];
      assert forall j :: 0 <= j < |empties| ==> empties[j].image == old(empties)[j].image;
    }

    /** One turn of the grid loop: placeholder `order[i]` goes to the grid
        position at the cursor `(x, y)` the earlier ones left, wrapping to a
        new row before `xmax`, and the cursor moves past it. */
    method LayNext(es: seq<Placeholder>, order: seq<Entry>, i: nat, xmin: real, xmax: real, ymax: real,
                   x: real, y: real)
      returns (x': real, y': real)
      requires Valid() && i < |order| && |empties| == |es|
      requires forall j :: 0 <= j < |order| ==> order[j].1 < |es|
      requires Run(Sizes(es, order[..i]), xmin, xmax, ymax).1 == Cursor(x, y)
      requires empties == PlaceAll(es, order[..i], Layout(Sizes(es, order[..i]), xmin, xmax, ymax))
      modifies this
      ensures Valid() && |empties| == |es|
      ensures Run(Sizes(es, order[..i + 1]), xmin, xmax, ymax).1 == Cursor(x', y')
      ensures empties == PlaceAll(es, order[..i + 1], Layout(Sizes(es, order[..i + 1]), xmin, xmax, ymax))
      ensures regions == old(regions) && images == old(images) && nextId == old(nextId)
      ensures dirs == old(dirs) && files == old(files) && saved == old(saved)
    {
      var k := order[i].1;
      var size := Size(es[k]);
      LayStep(es, order, i, xmin, xmax, ymax);
      x', y' := x, y;
      if x' + size - Margin > xmax {
        x' := xmin + Margin;
        y' := y' - size;
      }
      assert Vec3(x', y', 0.0) == Place(Cursor(x, y), size, xmin, xmax);
      Move(k, Vec3(x', y', 0.0));
      x' := x' + size + Gap;
    }

    /** The grid loop: the placeholders `order` names, in that order, go to
        the grid positions of their sizes, from `xmin + 2.5` and `ymax - 2.5`,
        wrapping before `xmax`. */
    method Lay(order: seq<Entry>, xmin: real, xmax: real, ymax: real)
      requires Valid() && forall i :: 0 <= i < |order| ==> order[i].1 < |empties|
      modifies this
      ensures Valid()
      ensures empties == PlaceAll(old(empties), order, Layout(Sizes(old(empties), order), xmin, xmax, ymax))
      ensures regions == old(regions) && images == old(images) && nextId == old(nextId)
      ensures dirs == old(dirs) && files == old(files) && saved == old(saved)
    {
      var es := empties;
      var x, y := xmin + Margin, ymax - Margin;
      var i := 0;
      while i < |order|
        invariant i <= |order| && |empties| == |es|
        invariant Valid()
        invariant Run(Sizes(es, order[..i]), xmin, xmax, ymax).1 == Cursor(x, y)
        invariant empties == PlaceAll(es, order[..i], Layout(Sizes(es, order[..i]), xmin, xmax, ymax))
        invariant regions == old(regions) && images == old(images) && nextId == old(nextId)
        invariant dirs == old(dirs) && files == old(files) && saved == old(saved)
      {
        x, y := LayNext(es, order, i, xmin, xmax, ymax, x, y);
        i := i + 1;
      }
      assert order[..i] == order;
    }

    /** The grid pass of region `r`: its placeholders, sorted by name, are
        laid out on a grid inside it. */
    method ArrangeRegion(r: nat)
      requires Valid() && r < |regions|
      modifies this
      ensures Valid()
      ensures regions == old(regions) && images == old(images) && nextId == old(nextId)
      ensures empties == Arranged(old(empties), regions[r])
      ensures dirs == old(dirs) && files == old(files) && saved == old(saved)
    {
      var rg := regions[r];
      assert WellFormed(rg);
      var found := Collect(rg);
      var order := SortByName(found);
      OrderInRange(empties, rg);
      Lay(order, rg.corners[0].x, rg.corners[7].x, rg.corners[7].y);
    }

    /** One turn of the last loop of `sync_images`: the folder of region `r`
        is pruned, then its placeholders are laid out. */
    method TidyRegion(r: nat)
      requires Valid() && r < |regions|
      modifies this
      ensures Valid()
      ensures regions == old(regions) && images == old(images) && nextId == old(nextId)
      ensures dirs == old(dirs) && saved == old(saved)
      ensures empties == Arranged(old(empties), regions[r])
      ensures forall p :: p in files <==> p in old(files) && !Stale(FolderPath(root, Folder(regions[r])), old(empties), images, p)
      ensures forall p :: p in files ==> files[p] == old(files)[p]
    {
      PruneRegionFiles(r);
      ArrangeRegion(r);
    }

    /** The last loop of `sync_images`: each region in turn has its folder
        pruned and its placeholders laid out. */
    method TidyRegions()
      requires Valid()
      modifies this
      ensures Valid()
      ensures regions == old(regions) && images == old(images) && nextId == old(nextId)
      ensures dirs == old(dirs) && saved == old(saved)
      ensures empties == ArrangedAll(old(empties), regions)
      ensures forall p :: p in files <==> p in old(files) && !StaleAmong(root, regions, |regions|, old(empties), images, p)
      ensures forall p :: p in files ==> files[p] == old(files)[p]
      ensures files == Tidied(root, regions, old(files), old(empties), images)
      ensures forall r, p :: 0 <= r < |regions| && p in files ==> !Stale(FolderPath(root, Folder(regions[r])), empties, images, p)
    {
      ghost var e0 := empties;
      var r := 0;
      while r < |regions|
        invariant r <= |regions|
        invariant Valid()
        invariant regions == old(regions) && images == old(images) && nextId == old(nextId)
        invariant dirs == old(dirs) && saved == old(saved)
        invariant AllWellFormed(regions[..r])
        invariant empties == ArrangedAll(e0, regions[..r])
        invariant forall p :: p in files <==> p in old(files) && !StaleAmong(root, regions, r, e0, images, p)
        invariant forall p :: p in files ==> files[p] == old(files)[p]
      {
        ArrangedAllSpec(e0, regions[..r]);
        forall p ensures Referenced(empties, images, p) <==> Referenced(e0, images, p) {
          ReferencedStable(e0, empties, images, p);
        }
        TidyRegion(r);
        assert regions[..r + 1][..r] == regions[..r];
        r := r + 1;
      }
      assert regions[..r] == regions;
      ArrangedAllSpec(e0, regions);
      forall r, p | 0 <= r < |regions| && p in files
        ensures !Stale(FolderPath(root, Folder(regions[r])), empties, images, p)
      {
        ListedBeforeSpec(root, regions, |regions|, p);
        ReferencedStable(e0, empties, images, p);
      }
      TidiedExactly(root, regions, old(files), files, e0, images);
    }

    /** The passes of `sync_images` after the overlap guard: folder
        creation, the asset pass (`Pass`, in the order `order`), the removal
        of the images it marked together with their placeholders and, region
        by region, the file prune and the grid pass. `stopped` means the
        asset pass found Pillow missing and nothing after it ran. Files
        outside the region folders are left alone. */
    method Settle(pillow: bool, toPng: Blob -> Option<Blob>) returns (stopped: bool, ghost order: seq<ImageId>)
      requires Valid()
      modifies this
      ensures Valid()
      ensures regions == old(regions) && saved == old(saved)
      ensures dirs == old(dirs) + Labels(regions)
      ensures Enumerates(order, old(images).Keys, !stopped)
      ensures var p := Pass(root, regions, pillow, toPng, old(Snapshot()), order);
        && stopped == p.2
        && (stopped ==> Snapshot() == p.0)
        && (!stopped ==>
              && images == p.0.images - p.1
              && nextId == p.0.nextId
              && empties == ArrangedAll(Without(p.0.empties, p.1), regions)
              && files == Tidied(root, regions, p.0.files, Without(p.0.empties, p.1), p.0.images - p.1))
      ensures !stopped ==> forall id :: Unclaimed(id, old(images), old(files), old(empties), regions) ==> id !in images
      ensures !stopped ==> forall p :: !InRegionFolder(root, regions, p) ==>
        (p in files <==> p in old(files)) && (p in files ==> files[p] == old(files)[p])
      ensures !stopped ==>
        forall r, p :: 0 <= r < |regions| && p in files ==> !Stale(FolderPath(root, Folder(regions[r])), empties, images, p)
    {
      MakeRegionDirs();
      var toRemove;
      toRemove, stopped, order := Reconcile(pillow, toPng);
      if stopped {
        return;
      }
      PassMarksUnclaimed(root, regions, pillow, toPng, old(Snapshot()), order);
      ghost var f1 := files;
      RemoveUnassociated(toRemove);
      ghost var e2 := empties;
      TidyRegions();
      forall p | !InRegionFolder(root, regions, p)
        ensures (p in files <==> p in old(files)) && (p in files ==> files[p] == old(files)[p])
      {
        if p in f1 && StaleAmong(root, regions, |regions|, e2, images, p) {
          StaleInRegionFolder(root, regions, e2, images, p);
        }
      }
    }

    /** `sync_images`: the early exits, then the orphan purge, the folder
        prune, the overlap guard and `Settle`. `otherUsers` are the images
        something besides a placeholder uses; `pillow` says whether Pillow is
        installed; `toPng` is the conversion, `None` where it fails. The
        asset pass starts from the purged images and the pruned files. */
    method SyncImages(otherUsers: set<ImageId>, pillow: bool, toPng: Blob -> Option<Blob>)
      returns (outcome: SyncOutcome, ghost order: seq<ImageId>)
      requires Valid()
      modifies this
      ensures Valid()
      ensures regions == old(regions) && saved == old(saved)
      ensures outcome == NotSaved <==> !saved
      ensures outcome == NoRegions <==> saved && regions == []
      ensures outcome == NoPlaceholders <==> saved && regions != [] && old(empties) == []
      ensures outcome.Overlap? <==>
        saved && regions != [] && old(empties) != [] && OverlapPairs(BoxesOf(Corners(regions))) != []
      ensures outcome.Overlap? ==> outcome.pairs == OverlapPairs(BoxesOf(Corners(regions)))
      ensures outcome in {NotSaved, NoRegions, NoPlaceholders} ==>
        empties == old(empties) && images == old(images) && dirs == old(dirs) && files == old(files)
      ensures outcome.Overlap? ==>
        && empties == old(empties) && nextId == old(nextId)
        && images == Purged(old(images), old(empties), otherUsers)
        && dirs == old(dirs) * Labels(regions)
        && files == Pruned(root, old(files), old(dirs) - Labels(regions))
      ensures outcome in {PillowMissing, Finished} ==>
        var s0 := Assets(old(empties), Purged(old(images), old(empties), otherUsers), old(nextId),
                         Pruned(root, old(files), old(dirs) - Labels(regions)));
        var p := Pass(root, regions, pillow, toPng, s0, order);
        && dirs == Labels(regions)
        && Enumerates(order, s0.images.Keys, outcome == Finished)
        && (outcome == PillowMissing <==> p.2)
        && (outcome == PillowMissing ==> Snapshot() == p.0)
        && (outcome == Finished ==>
              && images == p.0.images - p.1
              && nextId == p.0.nextId
              && empties == ArrangedAll(Without(p.0.empties, p.1), regions)
              && files == Tidied(root, regions, p.0.files, Without(p.0.empties, p.1), p.0.images - p.1))
      ensures outcome == Finished ==>
        forall r, p :: 0 <= r < |regions| && p in files ==> !Stale(FolderPath(root, Folder(regions[r])), empties, images, p)
    {
      order := [];
      if !saved {
        return NotSaved, order;
      }
      if regions == [] {
        return NoRegions, order;
      }
      if empties == [] {
        return NoPlaceholders, order;
      }
      PurgeOrphans(otherUsers);
      PruneFolders();
      var pairs, overlapping := CheckOverlappingBoxes(BoxesOf(Corners(regions)));
      if overlapping {
        return Overlap(pairs), order;
      }
      var stopped;
      stopped, order := Settle(pillow, toPng);
      if stopped {
        return PillowMissing, order;
      }
      return Finished, order;
    }

    /** Region `i` becomes `reffolder_<newName>`, and its texts show the new
        name. */
    method Relabel(i: nat, newName: string)
      requires Valid() && i < |regions| && Sep !in newName
      modifies this
      ensures Valid()
      ensures regions == old(regions)[i := Renamed(old(regions)[i], newName)]
      ensures empties == old(empties) && images == old(images) && nextId == old(nextId)
      ensures dirs == old(dirs) && files == old(files) && saved == old(saved)
    {
      RenamedSpec(regions[i], newName);
      regions := regions[i := Renamed(regions[i], newName)];
    }

    /** `os.rename(root/before, root/after)` onto a free name: the entry and
        everything below it move. */
    method MoveEntry(before: string, after: string)
      requires Valid() && Sep !in before && Sep !in after
      requires before in dirs || FolderPath(root, before) in files
      requires after !in dirs && FolderPath(root, after) !in files
      modifies this
      ensures Valid()
      ensures files == Moved(old(files), FolderPath(root, before), FolderPath(root, after))
      ensures dirs == if before in old(dirs) then old(dirs) - {before} + {after} else old(dirs)
      ensures regions == old(regions) && empties == old(empties) && images == old(images)
      ensures nextId == old(nextId) && saved == old(saved)
    {
      NothingAt(root, dirs, files, after);
      if before in dirs {
        MovedConsistent(root, dirs, files, before, after);
        dirs := dirs - {before} + {after};
      } else {
        MovedFileConsistent(root, dirs, files, before, after);
      }
      files := Moved(files, FolderPath(root, before), FolderPath(root, after));
    }

    /** Every image path at or below `o` is rewritten to lie below `n`. */
    method RepointImages(o: string, n: string)
      requires Valid()
      modifies this
      ensures Valid()
      ensures images == Repointed(old(images), o, n)
      ensures regions == old(regions) && empties == old(empties) && nextId == old(nextId)
      ensures dirs == old(dirs) && files == old(files) && saved == old(saved)
    {
      images := Repointed(images, o, n);
    }

    /** One row of `rename_folders`: region `i` to `newName`. Nothing
        happens when the name is unchanged; `conflict` reports that
        `root/newName` already exists, and then nothing happens either. */
    method RenameOne(i: nat, newName: string) returns (conflict: bool)
      requires Valid() && i < |regions| && Sep !in newName
      modifies this
      ensures Valid()
      ensures |regions| == |old(regions)|
      ensures conflict <==> Folder(old(regions)[i]) != newName && Occupied(root, old(dirs), old(files), newName)
      ensures conflict || Folder(old(regions)[i]) == newName ==>
        regions == old(regions) && dirs == old(dirs) && files == old(files) && images == old(images)
      ensures !conflict && Folder(old(regions)[i]) != newName ==>
        var before := Folder(old(regions)[i]);
        var o, n := FolderPath(root, before), FolderPath(root, newName);
        && regions == old(regions)[i := Renamed(old(regions)[i], newName)]
        && dirs == (if before in old(dirs) then old(dirs) - {before} + {newName} else old(dirs))
        && files == (if before in old(dirs) || o in old(files) then Moved(old(files), o, n) else old(files))
        && images == Repointed(old(images), o, n)
      ensures !conflict ==>
        Renaming(regions, dirs, files, images) == RenameRow(root, Renaming(old(regions), old(dirs), old(files), old(images)), i, newName)
      ensures Follows(old(images), old(files), images, files)
      ensures files.Values == old(files).Values
      ensures empties == old(empties) && nextId == old(nextId) && saved == old(saved)
    {
      var before := Folder(regions[i]);
      conflict := false;
      if before == newName {
        return;
      }
      if Occupied(root, dirs, files, newName) {
        conflict := true;
        return;
      }
      assert WellFormed(regions[i]);
      var o, n := FolderPath(root, before), FolderPath(root, newName);
      ghost var i0, f0 := images, files;
      RenameFollows(root, dirs, files, images, before, newName);
      FreeName(root, dirs, files, newName);
      MovedValues(files, o, n);
      Relabel(i, newName);
      if before in dirs || o in files {
        MoveEntry(before, newName);
      }
      RepointImages(o, n);
    }

    /** One turn of the loop of `rename_folders`, from the start state
        `s0` after rows `0..i-1` went through: row `i` either meets a
        conflict and changes nothing, or goes through as `RenameRow`. */
    method RenameTurn(newNames: seq<string>, i: nat, ghost s0: Renaming) returns (conflict: bool)
      requires Valid() && i < |regions| && i < |newNames| && Sep !in newNames[i]
      requires i <= |s0.regions| && |regions| == |s0.regions|
      requires Renaming(regions, dirs, files, images) == RenameRows(root, s0, newNames, i)
      requires Follows(s0.images, s0.files, images, files) && files.Values == s0.files.Values
      modifies this
      ensures Valid() && |regions| == |s0.regions|
      ensures Follows(s0.images, s0.files, images, files) && files.Values == s0.files.Values
      ensures empties == old(empties) && nextId == old(nextId) && saved == old(saved)
      ensures conflict ==>
        && Folder(s0.regions[i]) != newNames[i]
        && Occupied(root, dirs, files, newNames[i])
        && Renaming(regions, dirs, files, images) == RenameRows(root, s0, newNames, i)
      ensures !conflict ==> ClearRow(root, s0, newNames, i)
      ensures !conflict ==> Renaming(regions, dirs, files, images) == RenameRows(root, s0, newNames, i + 1)
    {
      RenameRowsRegions(root, s0, newNames, i);
      ghost var i0, f0 := images, files;
      ghost var s := Renaming(regions, dirs, files, images);
      conflict := RenameOne(i, newNames[i]);
      FollowsTrans(s0.images, s0.files, i0, f0, images, files);
      if !conflict {
        assert Renaming(regions, dirs, files, images) == RenameRow(root, s, i, newNames[i]);
      }
    }

    /** The loop of `rename_folders`: rows go through one after the other
        until one meets a conflict (`conflict`, at row `i`) or the regions or
        the names run out. */
    method RenameLoop(newNames: seq<string>) returns (i: nat, conflict: bool)
      requires Valid() && forall i :: 0 <= i < |newNames| ==> Sep !in newNames[i]
      modifies this
      ensures Valid()
      ensures i <= |regions| && i <= |newNames| && |regions| == |old(regions)|
      ensures Renaming(regions, dirs, files, images) ==
        RenameRows(root, Renaming(old(regions), old(dirs), old(files), old(images)), newNames, i)
      ensures conflict ==>
        i < |regions| && i < |newNames| && Folder(old(regions)[i]) != newNames[i] && Occupied(root, dirs, files, newNames[i])
      ensures !conflict ==> i == |regions| || i == |newNames|
      ensures ClearUpTo(root, Renaming(old(regions), old(dirs), old(files), old(images)), newNames, i)
      ensures Follows(old(images), old(files), images, files)
      ensures files.Values == old(files).Values
      ensures empties == old(empties) && nextId == old(nextId) && saved == old(saved)
    {
      ghost var s0 := Renaming(old(regions), old(dirs), old(files), old(images));
      i := 0;
      conflict := false;
      while i < |regions| && i < |newNames| && !conflict
        invariant i <= |regions| && i <= |newNames| && |regions| == |old(regions)|
        invariant Valid()
        invariant Renaming(regions, dirs, files, images) == RenameRows(root, s0, newNames, i)
        invariant ClearUpTo(root, s0, newNames, i)
        invariant conflict ==>
          i < |regions| && i < |newNames| && Folder(s0.regions[i]) != newNames[i] && Occupied(root, dirs, files, newNames[i])
        invariant Follows(s0.images, s0.files, images, files)
        invariant files.Values == s0.files.Values
        invariant empties == old(empties) && nextId == old(nextId) && saved == old(saved)
        decreases |regions| - i, if conflict then 0 else 1
      {
        conflict := RenameTurn(newNames, i, s0);
        if !conflict {
          i := i + 1;
        }
      }
    }

    /** `rename_folders`: the regions and the new names, taken pairwise,
        renamed one after the other; the first changed name whose path
        already exists stops the pass with a conflict message, keeping the
        renames before it. */
    method RenameFolders(newNames: seq<string>) returns (message: string)
      requires Valid() && forall i :: 0 <= i < |newNames| ==> Sep !in newNames[i]
      modifies this
      ensures Valid()
      ensures |regions| == |old(regions)|
      ensures forall i :: 0 <= i < |regions| ==>
        regions[i] == old(regions)[i] || (i < |newNames| && regions[i] == Renamed(old(regions)[i], newNames[i]))
      ensures message == RenamedMessage ==> RenamedUpTo(old(regions), regions, newNames, |newNames|)
      ensures message == RenamedMessage ==>
        Renaming(regions, dirs, files, images) ==
          RenameRows(root, Renaming(old(regions), old(dirs), old(files), old(images)), newNames,
                     if |newNames| < |old(regions)| then |newNames| else |old(regions)|)
      ensures message == RenamedMessage ==>
        ClearUpTo(root, Renaming(old(regions), old(dirs), old(files), old(images)), newNames,
                  if |newNames| < |old(regions)| then |newNames| else |old(regions)|)
      ensures message != RenamedMessage ==> exists i ::
        && 0 <= i < |regions| && i < |newNames|
        && Folder(old(regions)[i]) != newNames[i]
        && Occupied(root, dirs, files, newNames[i])
        && message == ConflictMessage(FolderPath(root, newNames[i]))
        && RenamedUpTo(old(regions), regions, newNames, i)
        && ClearUpTo(root, Renaming(old(regions), old(dirs), old(files), old(images)), newNames, i)
        && Renaming(regions, dirs, files, images) ==
             RenameRows(root, Renaming(old(regions), old(dirs), old(files), old(images)), newNames, i)
      ensures Follows(old(images), old(files), images, files)
      ensures files.Values == old(files).Values
      ensures empties == old(empties) && nextId == old(nextId) && saved == old(saved)
    {
      var i, conflict := RenameLoop(newNames);
      ghost var s0 := Renaming(old(regions), old(dirs), old(files), old(images));
      RenameRowsRegions(root, s0, newNames, i);
      RenamedUpToEach(s0.regions, regions, newNames, i);
      if conflict {
        message := ConflictMessage(FolderPath(root, newNames[i]));
        assert message[6] != RenamedMessage[6];
        return;
      }
      RenamedUpToAll(s0.regions, regions, newNames, i);
      return RenamedMessage;
    }
  }
}
