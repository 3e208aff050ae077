/** The state `RefPicker.sync_images` and `RefPicker.rename_folders` work on:
    the scene (regions, image placeholders, loaded images) and the images
    directory next to the saved .blend file. */
module Scene {
  import opened Paths
  import opened Geometry
  import opened Ordering
  import opened Grid
  import opened Disk

  type ImageId = nat

  /** A FONT child of a region, showing the region's folder name. */
  datatype TextLabel = TextLabel(name: string, body: string)

  /** A region ("folder marker"): an object named `reffolder_<folder>`, with
      the eight corners of its bounding box in world space and its text
      children. */
  datatype Region = Region(name: string, corners: seq<Vec3>, texts: seq<TextLabel>)

  /** An image empty of the active collection: `world` is the translation of
      its world matrix, `location` the location the grid pass writes, and
      `displaySize * scaleX` its size on the grid. */
  datatype Placeholder = Placeholder(
    name: string, world: Vec3, location: Vec3, displaySize: real, scaleX: real, image: ImageId)

  /** A loaded image: its name, its file path made absolute, and whether its
      source is a file. */
  datatype Image = Image(name: string, path: string, fromFile: bool)

  datatype SyncOutcome =
    | NotSaved            // CANCELLED: the .blend file was never saved
    | NoRegions           // FINISHED after opening the help popup
    | NoPlaceholders      // CANCELLED: no image empty in the file
    | Overlap(pairs: seq<(nat, nat)>)  // CANCELLED: regions whose boxes overlap
    | PillowMissing       // a conversion needed Pillow; sync stops, the operator reports FINISHED
    | Finished

  /** Files `p` and `q` both exist and have the same contents. */
  predicate Identical(f: Files, p: string, q: string) {
    p in f && q in f && f[p] == f[q]
  }

  /** What became of one placeholder handed to the conversion step. */
  datatype Delivery = Skipped | NeedPillow | ConvertFailed | Copied

  function Folder(rg: Region): string {
    Label(rg.name)
  }

  predicate WellFormed(rg: Region) {
    |rg.corners| == 8 && StartsWith(rg.name, RegionPrefix) && Sep !in Folder(rg)
  }

  /** The x/y containment test of the sync pass, against corners 0 and 7. */
  predicate Holds(rg: Region, p: Vec3) {
    |rg.corners| == 8 && InsideXY(rg.corners[0], rg.corners[7], p)
  }

  predicate AllWellFormed(rs: seq<Region>) {
    forall r :: 0 <= r < |rs| ==> WellFormed(rs[r])
  }

  /** Every placeholder shows a loaded image. */
  predicate Linked(es: seq<Placeholder>, imgs: map<ImageId, Image>) {
    forall k :: 0 <= k < |es| ==> es[k].image in imgs
  }

  /** Every loaded image has an id below `n`, the next one to hand out. */
  predicate IdsBelow(imgs: map<ImageId, Image>, n: nat) {
    forall id :: id in imgs ==> id < n
  }

  /** Folder names of the images directory are single path segments. */
  predicate FlatNames(dirs: set<string>) {
    forall d :: d in dirs ==> Sep !in d
  }

  function Labels(rs: seq<Region>): set<string> {
    set r | 0 <= r < |rs| :: Folder(rs[r])
  }

  function Corners(rs: seq<Region>): (cs: seq<seq<Vec3>>)
    ensures |cs| == |rs| && forall r :: 0 <= r < |rs| ==> cs[r] == rs[r].corners
  {
    seq(|rs|, r requires 0 <= r < |rs| => rs[r].corners)
  }

  /** Some placeholder of `es` shows image `id` and lies in region `rg`. */
  predicate ShownIn(id: ImageId, es: seq<Placeholder>, rg: Region) {
    exists j :: 0 <= j < |es| && es[j].image == id && Holds(rg, es[j].world)
  }

  /** Image `id` is shown by a placeholder lying in some region. */
  predicate Claimed(id: ImageId, es: seq<Placeholder>, rs: seq<Region>) {
    exists r :: 0 <= r < |rs| && ShownIn(id, es, rs[r])
  }

  /** Image `id` is shown in one of the first `n` regions of `rs`. */
  predicate ShownAmong(id: ImageId, es: seq<Placeholder>, rs: seq<Region>, n: nat)
    requires n <= |rs|
  {
    exists q :: 0 <= q < n && ShownIn(id, es, rs[q])
  }

  lemma ShownAmongStep(id: ImageId, es: seq<Placeholder>, rs: seq<Region>, n: nat)
    requires n < |rs|
    ensures ShownAmong(id, es, rs, n + 1) <==> ShownAmong(id, es, rs, n) || ShownIn(id, es, rs[n])
  {
  }

  /** Shown in one of all the regions is claimed. */
  lemma ShownAmongAll(id: ImageId, es: seq<Placeholder>, rs: seq<Region>)
    ensures ShownAmong(id, es, rs, |rs|) <==> Claimed(id, es, rs)
  {
  }

  /** Some placeholder shows image `id`. */
  predicate Shown(id: ImageId, es: seq<Placeholder>) {
    exists k :: 0 <= k < |es| && es[k].image == id
  }

  /** Some placeholder shows an image loaded from path `p`. */
  predicate Referenced(es: seq<Placeholder>, imgs: map<ImageId, Image>, p: string) {
    exists k :: 0 <= k < |es| && es[k].image in imgs && imgs[es[k].image].path == p
  }

  /** The placeholders of `es` that show none of the images `ids`, in order. */
  function Without(es: seq<Placeholder>, ids: set<ImageId>): (r: seq<Placeholder>)
    ensures |r| <= |es|
    ensures forall e :: e in r <==> e in es && e.image !in ids
  {
    if es == [] then []
    else
      var last := es[|es| - 1];
      assert forall e :: e in es <==> e in es[..|es| - 1] || e == last by {
        assert es == es[..|es| - 1] + [last];
      }
      Without(es[..|es| - 1], ids) + (if last.image in ids then [] else [last])
  }

  /** Removing the placeholders of one image set and then of another is
      removing those of both. */
  lemma {:induction false} WithoutUnion(es: seq<Placeholder>, a: set<ImageId>, b: set<ImageId>)
    ensures Without(Without(es, a), b) == Without(es, a + b)
    decreases |es|
  {
    if es != [] {
      var init, last := es[..|es| - 1], es[|es| - 1];
      WithoutUnion(init, a, b);
      var w := Without(init, a);
      if last.image in a {
        assert Without(es, a) == w + [];
        assert w + [] == w;
      } else {
        var wl := w + [last];
        assert Without(es, a) == wl;
        assert wl[..|wl| - 1] == w;
      }
    }
  }

  /** Where the conversion step writes the file of source `src` for region
      `rg`. */
  function Destination(root: string, rg: Region, src: string): string {
    FilePath(root, Folder(rg), Basename(src))
  }

  /** The image loaded from that file, renamed as the conversion step does. */
  function Converted(root: string, rg: Region, src: string): Image {
    Image(ConvertedImageName(Basename(src)), Destination(root, rg, src), true)
  }

  /** A file already at its destination has itself as destination: the
      copy made for a region is not copied again for that region. */
  lemma DestinationStable(root: string, rg: Region, src: string)
    ensures Destination(root, rg, Destination(root, rg, src)) == Destination(root, rg, src)
  {
    BasenameOfJoin(FolderPath(root, Folder(rg)), Basename(src));
  }

  lemma DestinationInFolder(root: string, rg: Region, src: string)
    ensures Under(Destination(root, rg, src), FolderPath(root, Folder(rg)))
  {
    var f := FolderPath(root, Folder(rg));
    assert Destination(root, rg, src)[..|f| + 1] == f + [Sep];
  }

  /** `img` is what placeholder `e` shows after being re-linked: the converted
      copy, in the folder of a region holding `e`, of the file-backed image
      `e` showed before. */
  ghost predicate Relinked(root: string, rs: seq<Region>, e: Placeholder, i0: map<ImageId, Image>, img: Image) {
    && e.image in i0
    && i0[e.image].fromFile
    && exists r :: 0 <= r < |rs| && Holds(rs[r], e.world) && img == Converted(root, rs[r], i0[e.image].path)
  }

  ghost predicate InRegionFolder(root: string, rs: seq<Region>, p: string) {
    exists r :: 0 <= r < |rs| && Under(p, FolderPath(root, Folder(rs[r])))
  }

  /** Loaded images stay as they are; images loaded since have fresh ids. */
  ghost predicate ImagesKept(i0: map<ImageId, Image>, n0: nat, i1: map<ImageId, Image>) {
    && (forall id :: id in i0 ==> id in i1 && i1[id] == i0[id])
    && (forall id :: id in i1 && id !in i0 ==> n0 <= id)
  }

  /** Placeholders keep everything but the image they show. */
  ghost predicate OnlyImagesChange(e0: seq<Placeholder>, e1: seq<Placeholder>) {
    |e1| == |e0| && forall k :: 0 <= k < |e1| ==> SameButImage(e0[k], e1[k])
  }

  /** `a` and `b` differ at most in the image they show. */
  predicate SameButImage(a: Placeholder, b: Placeholder) {
    && a.name == b.name && a.world == b.world && a.location == b.location
    && a.displaySize == b.displaySize && a.scaleX == b.scaleX
  }

  /** A placeholder showing another image than before shows a fresh
      converted copy of the file-backed image it showed, whose source file
      exists. */
  ghost predicate RelinkOk(root: string, rs: seq<Region>, before: Placeholder, i0: map<ImageId, Image>, n0: nat,
                           after: Placeholder, i1: map<ImageId, Image>, f1: Files)
  {
    after.image != before.image ==>
      && n0 <= after.image
      && after.image in i1
      && Relinked(root, rs, before, i0, i1[after.image])
      && i0[before.image].path in f1
  }

  ghost predicate RelinksFresh(root: string, rs: seq<Region>, e0: seq<Placeholder>, i0: map<ImageId, Image>, n0: nat,
                               e1: seq<Placeholder>, i1: map<ImageId, Image>, f1: Files)
    requires |e1| == |e0|
  {
    forall k :: 0 <= k < |e1| ==> RelinkOk(root, rs, e0[k], i0, n0, e1[k], i1, f1)
  }

  /** Files never disappear, and only appear or change inside region
      folders. */
  ghost predicate FilesKept(root: string, rs: seq<Region>, f0: Files, f1: Files) {
    && (forall p :: p in f0 ==> p in f1)
    && (forall p :: p in f1 && (p !in f0 || f1[p] != f0[p]) ==> InRegionFolder(root, rs, p))
  }

  /** How the asset pass may change the state (e0, i0, n0, f0) into
      (e1, i1, n1, f1). */
  ghost predicate Evolved(
    root: string, rs: seq<Region>,
    e0: seq<Placeholder>, i0: map<ImageId, Image>, n0: nat, f0: Files,
    e1: seq<Placeholder>, i1: map<ImageId, Image>, n1: nat, f1: Files)
  {
    && n0 <= n1
    && ImagesKept(i0, n0, i1)
    && OnlyImagesChange(e0, e1)
    && RelinksFresh(root, rs, e0, i0, n0, e1, i1, f1)
    && FilesKept(root, rs, f0, f1)
  }

  /** Image `id` is one the asset pass marks for removal: file-backed, with
      an existing source file, and shown in no region. */
  ghost predicate Unclaimed(id: ImageId, imgs: map<ImageId, Image>, f: Files, es: seq<Placeholder>, rs: seq<Region>) {
    id in imgs && imgs[id].fromFile && imgs[id].path in f && !Claimed(id, es, rs)
  }

  /** A file the pruning of region `rg`'s folder deletes: an image file
      listed in that folder that no placeholder shows. */
  predicate Stale(dir: string, es: seq<Placeholder>, imgs: map<ImageId, Image>, p: string) {
    && ListedIn(p, dir)
    && HasImageExt(Basename(p))
    && !Referenced(es, imgs, p)
  }

  /** `p` is a direct entry of the folder of one of the first `n` regions. */
  predicate ListedBefore(root: string, rs: seq<Region>, n: nat, p: string)
    requires n <= |rs|
  {
    n > 0 && (ListedBefore(root, rs, n - 1, p) || ListedIn(p, FolderPath(root, Folder(rs[n - 1]))))
  }

  /** `ListedBefore` is the existential it abbreviates. */
  lemma {:induction false} ListedBeforeSpec(root: string, rs: seq<Region>, n: nat, p: string)
    requires n <= |rs|
    ensures ListedBefore(root, rs, n, p) <==> exists q :: 0 <= q < n && ListedIn(p, FolderPath(root, Folder(rs[q])))
  {
    if n > 0 {
      ListedBeforeSpec(root, rs, n - 1, p);
    }
  }

  /** `p` is a stale file of the folder of one of the first `n` regions. */
  predicate StaleAmong(root: string, rs: seq<Region>, n: nat, es: seq<Placeholder>, imgs: map<ImageId, Image>, p: string)
    requires n <= |rs|
  {
    ListedBefore(root, rs, n, p) && HasImageExt(Basename(p)) && !Referenced(es, imgs, p)
  }

  /** The prune only deletes files inside region folders. */
  lemma StaleInRegionFolder(root: string, rs: seq<Region>, es: seq<Placeholder>, imgs: map<ImageId, Image>, p: string)
    requires StaleAmong(root, rs, |rs|, es, imgs, p)
    ensures InRegionFolder(root, rs, p)
  {
    ListedBeforeSpec(root, rs, |rs|, p);
  }

  /** The files left once the folder of every region of `rs` is pruned of
      its stale image files. */
  function Tidied(root: string, rs: seq<Region>, f: Files, es: seq<Placeholder>, imgs: map<ImageId, Image>): Files {
    map p | p in f && !StaleAmong(root, rs, |rs|, es, imgs, p) :: f[p]
  }

  /** A file map that keeps exactly the files of `f` that are not stale,
      unchanged, is `Tidied`. */
  lemma TidiedExactly(root: string, rs: seq<Region>, f: Files, f1: Files, es: seq<Placeholder>, imgs: map<ImageId, Image>)
    requires forall p :: p in f1 <==> p in f && !StaleAmong(root, rs, |rs|, es, imgs, p)
    requires forall p :: p in f1 ==> f1[p] == f[p]
    ensures f1 == Tidied(root, rs, f, es, imgs)
  {
    assert f1.Keys == Tidied(root, rs, f, es, imgs).Keys;
  }

  /** The images `orphans_purge` keeps: those a placeholder shows or
      something else (`others`) uses. */
  function Purged(imgs: map<ImageId, Image>, es: seq<Placeholder>, others: set<ImageId>): map<ImageId, Image> {
    map id | id in imgs && (Shown(id, es) || id in others) :: imgs[id]
  }

  /** Whether a file is shown depends only on which image each placeholder
      shows. */
  lemma ReferencedStable(e0: seq<Placeholder>, e1: seq<Placeholder>, imgs: map<ImageId, Image>, p: string)
    requires |e0| == |e1| && forall k :: 0 <= k < |e0| ==> e1[k].image == e0[k].image
    ensures Referenced(e0, imgs, p) <==> Referenced(e1, imgs, p)
  {
  }

  const TextPrefix := "3dtext_"

  /** The FONT children after a rename to `newName`. */
  function Relabelled(texts: seq<TextLabel>, newName: string): (r: seq<TextLabel>)
    ensures |r| == |texts|
    ensures forall t :: 0 <= t < |r| ==> r[t] == TextLabel(TextPrefix + newName, newName)
  {
    if texts == [] then [] else Relabelled(texts[..|texts| - 1], newName) + [TextLabel(TextPrefix + newName, newName)]
  }

  /** Region `rg` renamed to `reffolder_<newName>`, its texts following. */
  function Renamed(rg: Region, newName: string): Region {
    Region(RegionPrefix + newName, rg.corners, Relabelled(rg.texts, newName))
  }

  /** The regions after `rename_folders` has gone through the rows before
      `stop`: each of those rows whose name changed is renamed, and every
      other region is as it was. */
  predicate RenamedUpTo(rs0: seq<Region>, rs: seq<Region>, newNames: seq<string>, stop: nat) {
    && |rs| == |rs0|
    && forall j :: 0 <= j < |rs| ==>
         rs[j] == if j < stop && j < |newNames| && Folder(rs0[j]) != newNames[j] then Renamed(rs0[j], newNames[j]) else rs0[j]
  }

  /** Once every row with a region and a name went through, the rest of the
      names change nothing. */
  lemma RenamedUpToAll(rs0: seq<Region>, rs: seq<Region>, newNames: seq<string>, k: nat)
    requires RenamedUpTo(rs0, rs, newNames, k) && (k >= |rs0| || k >= |newNames|)
    ensures RenamedUpTo(rs0, rs, newNames, |newNames|)
  {
  }

  /** Each region is either unchanged or renamed to its new name. */
  lemma RenamedUpToEach(rs0: seq<Region>, rs: seq<Region>, newNames: seq<string>, k: nat)
    requires RenamedUpTo(rs0, rs, newNames, k)
    ensures forall j :: 0 <= j < |rs| ==>
      rs[j] == rs0[j] || (j < |newNames| && rs[j] == Renamed(rs0[j], newNames[j]))
  {
  }

  /** A rename keeps the region well formed, and, unless the new name itself
      contains the prefix, the region's folder becomes the new name. */
  lemma RenamedSpec(rg: Region, newName: string)
    requires WellFormed(rg) && Sep !in newName
    ensures WellFormed(Renamed(rg, newName))
    ensures !Contains(newName, RegionPrefix) ==> Folder(Renamed(rg, newName)) == newName
  {
    var r := Renamed(rg, newName);
    assert r.name[..|RegionPrefix|] == RegionPrefix;
    assert Sep !in RegionPrefix + newName;
    ReplaceAllDrops(r.name, RegionPrefix, Sep);
    if !Contains(newName, RegionPrefix) {
      LabelOfPrefixed(newName);
    }
  }

  /** The images after the path rewrite of a rename from directory `o` to
      `n`, as intended: only paths at or below `o` move. */
  function Repointed(imgs: map<ImageId, Image>, o: string, n: string): (r: map<ImageId, Image>)
    ensures r.Keys == imgs.Keys
  {
    map id | id in imgs :: imgs[id].(path := MovedPath(imgs[id].path, o, n))
  }

  /** What `rename_folders` changes: the regions, the folders of the images
      directory, the files and the loaded images. */
  datatype Renaming = Renaming(regions: seq<Region>, dirs: set<string>, files: Files, images: map<ImageId, Image>)

  /** One row of `rename_folders` that meets no conflict: region `i` to
      `newName`. An unchanged name changes nothing. Otherwise the region is
      renamed, the folder or file at the old name (when there is one) moves
      to the new name with everything below it, and the image paths follow. */
  function RenameRow(root: string, s: Renaming, i: nat, newName: string): (r: Renaming)
    requires i < |s.regions|
    ensures |r.regions| == |s.regions|
  {
    var before := Folder(s.regions[i]);
    if before == newName then s
    else
      var o, n := FolderPath(root, before), FolderPath(root, newName);
      Renaming(s.regions[i := Renamed(s.regions[i], newName)],
               if before in s.dirs then s.dirs - {before} + {newName} else s.dirs,
               if before in s.dirs || o in s.files then Moved(s.files, o, n) else s.files,
               Repointed(s.images, o, n))
  }

  /** The rows `0..k-1` of `rename_folders`, one after the other, none of
      them meeting a conflict. */
  function RenameRows(root: string, s: Renaming, newNames: seq<string>, k: nat): (r: Renaming)
    requires k <= |s.regions| && k <= |newNames|
    ensures |r.regions| == |s.regions|
    decreases k
  {
    if k == 0 then s
    else RenameRow(root, RenameRows(root, s, newNames, k - 1), k - 1, newNames[k - 1])
  }

  /** Row `j` met no conflict: if its name changed, nothing was at the new
      name once the rows before it had gone through. */
  predicate ClearRow(root: string, s0: Renaming, newNames: seq<string>, j: nat)
    requires j < |s0.regions| && j < |newNames|
  {
    var s := RenameRows(root, s0, newNames, j);
    Folder(s0.regions[j]) != newNames[j] ==> !Occupied(root, s.dirs, s.files, newNames[j])
  }

  /** None of the rows before `k` met a conflict. */
  predicate ClearUpTo(root: string, s0: Renaming, newNames: seq<string>, k: nat)
    requires k <= |s0.regions| && k <= |newNames|
  {
    forall j :: 0 <= j < k ==> ClearRow(root, s0, newNames, j)
  }

  /** After the rows before `k`, exactly those of them whose name changed
      are renamed, each from its original region. */
  lemma {:induction false} RenameRowsRegions(root: string, s: Renaming, newNames: seq<string>, k: nat)
    requires k <= |s.regions| && k <= |newNames|
    ensures RenamedUpTo(s.regions, RenameRows(root, s, newNames, k).regions, newNames, k)
    decreases k
  {
    if k > 0 {
      RenameRowsRegions(root, s, newNames, k - 1);
    }
  }

  /** Every image whose file existed in `f0` still points at an existing file
      of `f1` with the same contents. */
  ghost predicate Follows(i0: map<ImageId, Image>, f0: Files, i1: map<ImageId, Image>, f1: Files) {
    forall id :: id in i0 && i0[id].path in f0 ==>
      id in i1 && i1[id].path in f1 && f1[i1[id].path] == f0[i0[id].path]
  }

  lemma FollowsTrans(i0: map<ImageId, Image>, f0: Files, i1: map<ImageId, Image>, f1: Files, i2: map<ImageId, Image>, f2: Files)
    requires Follows(i0, f0, i1, f1) && Follows(i1, f1, i2, f2)
    ensures Follows(i0, f0, i2, f2)
  {
    forall id | id in i0 && i0[id].path in f0
      ensures id in i2 && i2[id].path in f2 && f2[i2[id].path] == f0[i0[id].path]
    {
      assert id in i1 && i1[id].path in f1;
    }
  }

  /** Renaming the entry `before` of the images directory to a free name
      `after`, moving it when it exists and repointing the images, leaves
      every image whose file existed pointing at that file's contents. */
  lemma RenameFollows(root: string, dirs: set<string>, files: Files, imgs: map<ImageId, Image>, before: string, after: string)
    requires Sep !in before && Sep !in after
    requires Consistent(root, dirs, files)
    requires after !in dirs && FolderPath(root, after) !in files
    ensures var o, n := FolderPath(root, before), FolderPath(root, after);
      var f1 := if before in dirs || o in files then Moved(files, o, n) else files;
      Follows(imgs, files, Repointed(imgs, o, n), f1)
  {
    var o, n := FolderPath(root, before), FolderPath(root, after);
    var i1 := Repointed(imgs, o, n);
    NothingAt(root, dirs, files, after);
    if before in dirs || o in files {
      MovedSpec(files, o, n);
    } else {
      forall id | id in imgs && imgs[id].path in files
        ensures i1[id].path in files && files[i1[id].path] == files[imgs[id].path]
      {
        TopFolderOf(root, imgs[id].path, before);
      }
    }
  }

  /** Only placeholders that showed image `id` in `a` show another image in
      `b`. */
  ghost predicate Retargeted(a: seq<Placeholder>, b: seq<Placeholder>, id: ImageId) {
    |b| == |a| && forall j :: 0 <= j < |a| && b[j].image != a[j].image ==> a[j].image == id
  }

  /** Loading image `img` under the fresh id `n` and showing it on
      placeholder `k` keeps every placeholder linked and every id below the
      next one. */
  lemma LinkFresh(es: seq<Placeholder>, imgs: map<ImageId, Image>, n: nat, k: nat, img: Image)
    requires Linked(es, imgs) && IdsBelow(imgs, n) && k < |es|
    ensures Linked(es[k := es[k].(image := n)], imgs[n := img])
    ensures IdsBelow(imgs[n := img], n + 1)
  {
    var es2 := es[k := es[k].(image := n)];
    forall j | 0 <= j < |es2| ensures es2[j].image in imgs[n := img] {
      if j != k {
        assert es2[j] == es[j];
      }
    }
  }

  lemma RetargetedOne(a: seq<Placeholder>, k: nat, n: ImageId, id: ImageId)
    requires k < |a| && a[k].image == id
    ensures Retargeted(a, a[k := a[k].(image := n)], id)
  {
  }

  lemma RetargetedNone(a: seq<Placeholder>, id: ImageId)
    ensures Retargeted(a, a, id)
  {
  }

  lemma RetargetedTrans(a: seq<Placeholder>, b: seq<Placeholder>, c: seq<Placeholder>, id: ImageId)
    requires Retargeted(a, b, id) && Retargeted(b, c, id)
    ensures Retargeted(a, c, id)
  {
  }

  /** Re-linking placeholder `k`, which lies in region `r` and still shows
      the file-backed image loaded from `src`, to a fresh converted image is a
      change the asset pass may make. */
  lemma RelinkStep(root: string, rs: seq<Region>,
                   e0: seq<Placeholder>, i0: map<ImageId, Image>, n0: nat, f0: Files,
                   e1: seq<Placeholder>, i1: map<ImageId, Image>, n1: nat, f1: Files,
                   k: nat, r: nat, src: string, b: Blob)
    requires Evolved(root, rs, e0, i0, n0, f0, e1, i1, n1, f1)
    requires forall x :: x in i1 ==> x < n1
    requires k < |e1| && r < |rs| && Holds(rs[r], e1[k].world)
    requires e1[k].image in i0 && e1[k].image < n0 && i0[e1[k].image].fromFile
    requires i0[e1[k].image].path == src && src in f1
    ensures Evolved(root, rs, e0, i0, n0, f0,
                    e1[k := e1[k].(image := n1)], i1[n1 := Converted(root, rs[r], src)], n1 + 1,
                    f1[Destination(root, rs[r], src) := b])
  {
    var e2 := e1[k := e1[k].(image := n1)];
    var i2 := i1[n1 := Converted(root, rs[r], src)];
    var f2 := f1[Destination(root, rs[r], src) := b];
    ImagesKeptStep(i0, n0, i1, n1, Converted(root, rs[r], src));
    RelinksStep(root, rs, e0, i0, n0, e1, i1, n1, f1, k, r, src, b);
    FilesStep(root, rs, f0, f1, r, src, b);
  }

  lemma ImagesKeptStep(i0: map<ImageId, Image>, n0: nat, i1: map<ImageId, Image>, n1: nat, img: Image)
    requires n0 <= n1 && ImagesKept(i0, n0, i1)
    requires forall x :: x in i1 ==> x < n1
    ensures ImagesKept(i0, n0, i1[n1 := img])
  {
  }

  lemma RelinksStep(root: string, rs: seq<Region>, e0: seq<Placeholder>, i0: map<ImageId, Image>, n0: nat,
                    e1: seq<Placeholder>, i1: map<ImageId, Image>, n1: nat, f1: Files,
                    k: nat, r: nat, src: string, b: Blob)
    requires n0 <= n1 && OnlyImagesChange(e0, e1) && RelinksFresh(root, rs, e0, i0, n0, e1, i1, f1)
    requires forall x :: x in i1 ==> x < n1
    requires k < |e1| && r < |rs| && Holds(rs[r], e1[k].world)
    requires e1[k].image in i0 && e1[k].image < n0 && i0[e1[k].image].fromFile
    requires i0[e1[k].image].path == src && src in f1
    ensures var e2 := e1[k := e1[k].(image := n1)];
      && OnlyImagesChange(e0, e2)
      && RelinksFresh(root, rs, e0, i0, n0, e2, i1[n1 := Converted(root, rs[r], src)],
                      f1[Destination(root, rs[r], src) := b])
  {
    var e2 := e1[k := e1[k].(image := n1)];
    var i2 := i1[n1 := Converted(root, rs[r], src)];
    var f2 := f1[Destination(root, rs[r], src) := b];
    OnlyImagesChangeStep(e0, e1, k, n1);
    forall j | 0 <= j < |e2| ensures RelinkOk(root, rs, e0[j], i0, n0, e2[j], i2, f2) {
      assert RelinkOk(root, rs, e0[j], i0, n0, e1[j], i1, f1);
      if j == k {
        assert SameButImage(e0[k], e1[k]);
        RelinkHere(root, rs, e0[k], i0, n0, e1[k], i1, n1, f1, r, src, b);
      } else {
        RelinkKept(root, rs, e0[j], i0, n0, e1[j], i1, f1, n1, Converted(root, rs[r], src), f2);
      }
    }
  }

  lemma OnlyImagesChangeStep(e0: seq<Placeholder>, e1: seq<Placeholder>, k: nat, id: ImageId)
    requires OnlyImagesChange(e0, e1) && k < |e1|
    ensures OnlyImagesChange(e0, e1[k := e1[k].(image := id)])
  {
    var e2 := e1[k := e1[k].(image := id)];
    forall j | 0 <= j < |e2| ensures SameButImage(e0[j], e2[j]) {
      assert SameButImage(e0[j], e1[j]);
    }
  }

  lemma RelinkKept(root: string, rs: seq<Region>, before: Placeholder, i0: map<ImageId, Image>, n0: nat,
                   after: Placeholder, i1: map<ImageId, Image>, f1: Files, n1: nat, img: Image, f2: Files)
    requires RelinkOk(root, rs, before, i0, n0, after, i1, f1)
    requires after.image in i1 ==> after.image < n1
    requires forall p :: p in f1 ==> p in f2
    ensures RelinkOk(root, rs, before, i0, n0, after, i1[n1 := img], f2)
  {
    if after.image != before.image {
      assert i1[n1 := img][after.image] == i1[after.image];
    }
  }

  /** The placeholder being re-linked: it still showed its original image,
      so after the re-link it shows the fresh converted copy. */
  lemma RelinkHere(root: string, rs: seq<Region>, before: Placeholder, i0: map<ImageId, Image>, n0: nat,
                   after: Placeholder, i1: map<ImageId, Image>, n1: nat, f1: Files, r: nat, src: string, b: Blob)
    requires RelinkOk(root, rs, before, i0, n0, after, i1, f1)
    requires SameButImage(before, after) && n0 <= n1
    requires r < |rs| && Holds(rs[r], after.world)
    requires after.image in i0 && after.image < n0 && i0[after.image].fromFile
    requires i0[after.image].path == src && src in f1
    ensures RelinkOk(root, rs, before, i0, n0, after.(image := n1), i1[n1 := Converted(root, rs[r], src)],
                     f1[Destination(root, rs[r], src) := b])
  {
    assert before.image == after.image;
    RelinkedAt(root, rs, before, i0, r, src);
  }

  lemma RelinkedAt(root: string, rs: seq<Region>, e: Placeholder, i0: map<ImageId, Image>, r: nat, src: string)
    requires e.image in i0 && i0[e.image].fromFile && i0[e.image].path == src
    requires r < |rs| && Holds(rs[r], e.world)
    ensures Relinked(root, rs, e, i0, Converted(root, rs[r], src))
  {
  }

  lemma FilesStep(root: string, rs: seq<Region>, f0: Files, f1: Files, r: nat, src: string, b: Blob)
    requires FilesKept(root, rs, f0, f1) && r < |rs|
    ensures FilesKept(root, rs, f0, f1[Destination(root, rs[r], src) := b])
  {
    DestinationInFolder(root, rs[r], src);
    assert InRegionFolder(root, rs, Destination(root, rs[r], src));
  }

  /** Whether image `id` is claimed depends only on the placeholders showing
      it, which the asset pass leaves alone until it reaches `id`. */
  lemma ClaimedStable(id: ImageId, e0: seq<Placeholder>, e1: seq<Placeholder>, rs: seq<Region>, n0: nat)
    requires |e1| == |e0| && id < n0
    requires forall k :: 0 <= k < |e1| ==> SameButImage(e0[k], e1[k])
    requires forall k :: 0 <= k < |e1| && e1[k].image != e0[k].image ==> n0 <= e1[k].image
    requires forall k :: 0 <= k < |e1| && e0[k].image == id ==> e1[k].image == id
    ensures Claimed(id, e1, rs) <==> Claimed(id, e0, rs)
  {
    if Claimed(id, e1, rs) {
      var r :| 0 <= r < |rs| && ShownIn(id, e1, rs[r]);
      var j :| 0 <= j < |e1| && e1[j].image == id && Holds(rs[r], e1[j].world);
      assert ShownIn(id, e0, rs[r]);
    }
    if Claimed(id, e0, rs) {
      var r :| 0 <= r < |rs| && ShownIn(id, e0, rs[r]);
      var j :| 0 <= j < |e0| && e0[j].image == id && Holds(rs[r], e0[j].world);
      assert ShownIn(id, e1, rs[r]);
    }
  }

  /** Writing a file into an existing folder keeps every file in an
      existing folder. */
  lemma WriteConsistent(root: string, dirs: set<string>, files: Files, dst: string, folder: string, b: Blob)
    requires Consistent(root, dirs, files)
    requires folder in dirs && Sep !in folder && Under(dst, FolderPath(root, folder))
    ensures Consistent(root, dirs, files[dst := b])
  {
    TopFolderOf(root, dst, folder);
  }

  lemma {:induction false} WithoutNone(es: seq<Placeholder>)
    ensures Without(es, {}) == es
    decreases |es|
  {
    if es != [] {
      WithoutNone(es[..|es| - 1]);
      assert es[..|es| - 1] + [es[|es| - 1]] == es;
    }
  }
}
