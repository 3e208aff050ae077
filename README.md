# Ref Picker: synchronisation and folder renaming

Ref Picker is a Blender add-on for reference images. A "region" is a mesh
object named `reffolder_<folder>`. Each region owns a folder `<folder>`
inside the `images` directory next to the `.blend` file. Image "empties"
(placeholders) show loaded images.

This project models the two operations of `ref_picker.py` that keep the
scene and that directory in step:

- `RefPicker.sync_images`. It runs three early exits, then:
  - purges orphan images;
  - deletes folders that no region names;
  - refuses regions whose bounding boxes overlap;
  - creates the missing region folders;
  - for each file-backed image whose source file exists, and each region
    holding a placeholder that shows it: skips the region when its folder
    already holds an identical file of that name; otherwise stops the whole
    sync when Pillow is missing, changes nothing when the conversion fails,
    and else writes the PNG copy into the region's folder and re-links the
    first such placeholder to it;
  - removes the images that no region holds, with their placeholders;
  - per region, deletes the image files its folder lists that no
    placeholder shows;
  - per region, lays the placeholders it holds out on a grid, sorted by
    name.
- `RefPicker.rename_folders`, with the dialog's `check` and `execute`. It
  renames regions, their folders and their text labels, and rewrites image
  paths. It stops at the first target that already exists. The source
  rewrites every image path that contains the old folder path as a
  substring. The model rewrites only the paths at or below the renamed
  folder, which is the evidently intended behaviour (see "## Findings").

## Module layout

- `Paths` (paths.dfy): string and path helpers. These are Python's
  `str.replace`, `os.path.basename` and `os.path.splitext`, the name given
  to a converted image, the image extension filter, the illegal-character
  test, and the two path rewrites of a rename.
- `Disk` (disk.dfy): the images directory. It is a map from absolute paths
  to contents plus the set of folder names. This module also holds
  `shutil.rmtree`, `os.rename` and `os.path.exists`.
- `Geometry` (geometry.dfy): corner boxes and the overlap guard
  `check_overlapping_bboxes`.
- `Grid` (grid.dfy): the row-wrapping grid layout.
- `Ordering` (ordering.dfy): Python's string order and the name sort.
- `Scene` (scene.dfy): regions, placeholders and images. It also holds the
  predicates that specify each pass, and the batch rename as a fold
  (`RenameRow` is one row, `RenameRows` the first k rows).
- `Arrange` (arrange.dfy): the grid pass of one region, and of all
  regions, as functions on the placeholder list.
- `AssetPass` (asset_pass.dfy): the asset pass of `sync_images` as
  functions on the placeholders, images and files. `Scan` is one region,
  `ScanFrom` the region loop of one image, `Handle` one image and `Pass`
  the loop over the images in a given order. The lemmas prove what these
  functions may change.
- `Picker` (picker.dfy): the class `RefPicker`. It holds the scene and the
  directory as fields, and every pass is a method over them.
- `RenameDialog` (rename_dialog.dfy): the rename operator's `check` and
  `execute`.

Blender and the file system are fields of the class `RefPicker`:

| field | what it holds |
|---|---|
| `regions` | the region objects |
| `empties` | the image empties |
| `images` | `bpy.data.images` |
| `dirs` | the folders of the images directory |
| `files` | every file |

`Valid()` holds between operations:

- every region has 8 corners and the prefix;
- no region's folder label holds a separator;
- every placeholder shows a loaded image;
- every loaded image has an id below the next fresh id;
- every folder name is a single path segment;
- every file inside a folder lies in an existing folder.

What the methods do not see is passed to them as a parameter:

- the other users of an image (`otherUsers`);
- whether Pillow is installed (`pillow`);
- the PNG conversion (`toPng`, which is `None` where Pillow raises).

## Model

| member | source | states |
|---|---|---|
| Picker.RefPicker.SyncImages | ref_picker.py:151-348 | The three early exits happen exactly when the file is unsaved, when there is no region, or when there is no image empty. The placeholders, images, folders and files are then unchanged; on the no-region exit the source also opens the help operator, which is left out. The overlap exit happens exactly when some pair of region boxes overlaps, and reports those pairs. At that exit the orphans are purged and the folders no region names are deleted with everything below them, and nothing else has changed. Otherwise the folders become exactly the region labels and the asset pass runs from the purged images and pruned files, over every loaded image in some order. When it finds Pillow missing, the state is the asset pass's state at that point. After a full run the marked images and their placeholders are gone, the region folders are pruned, the placeholders are laid out per region, and no region folder lists an image file that no placeholder shows. The round trip is stated per region (`AssetPass.ScanRoundTrip`); idempotence does not hold (`Grid.LayoutLeavesRegion`); see "## Left out". |
| Picker.RefPicker.PurgeOrphans | ref_picker.py:169-170 | An image survives exactly when a placeholder shows it or something else uses it; surviving images are unchanged. |
| Picker.RefPicker.PruneFolders | ref_picker.py:179-196 | The folders become the old ones that some region names. A file is deleted exactly when it lies in a deleted folder. |
| Picker.RefPicker.MakeRegionDirs | ref_picker.py:202-206 | The folders become the old ones plus every region label; nothing else changes. A plain file at a label and the labels "", "." and ".." are under "## Left out". |
| Picker.RefPicker.Settle | ref_picker.py:202-346 | Everything after the overlap guard. The folder set gains every region label. The loop over the images visits each loaded image once, every one unless it stops, and its result is `Pass` for that order. A stop (Pillow missing) leaves that state. Otherwise the marked images and their placeholders are removed, the region folders are pruned of stale image files, and the placeholders are laid out region by region. Every image that was file-backed, had its file, and was shown in no region is gone. Files outside the region folders are untouched, and no region folder lists a stale file. |
| Picker.RefPicker.Reconcile | ref_picker.py:208-270 | The loop over the loaded images. It visits distinct images in some order, every one of them unless it stops, and ends in exactly the state, marked set and stop flag that `Pass` gives for that order. |
| Picker.RefPicker.ImageTurn | ref_picker.py:209-270 | One image of that loop. It skips images that are not file-backed or whose file is missing, and its result is `Handle` of that image. |
| Picker.RefPicker.ProcessImage | ref_picker.py:219-268 | The region loop of one image. Unless Pillow was missing, `found` holds exactly when some placeholder in some region shows the image. The result is `ScanFrom` over all regions. |
| Picker.RefPicker.RegionTurn | ref_picker.py:221-268 | One turn of the region loop: it advances `ScanFrom` by one region, and `found` becomes "shown in one of the first r+1 regions". |
| Picker.RefPicker.ScanRegion | ref_picker.py:226-267 | `hit` holds exactly when a placeholder of the region shows the image. With no hit, nothing changes and the pass goes on. The new state and stop flag are `Scan` of the region. |
| Picker.RefPicker.Deliver | ref_picker.py:235-264 | Skipped exactly when the destination exists with identical contents. Pillow is needed exactly when it is not skipped and Pillow is missing. The conversion fails exactly when `toPng` fails. A copy writes the PNG at `<folder>/<basename>`, loads it under a fresh id with the converted name, and re-links the placeholder. Every other outcome changes nothing. |
| Picker.RefPicker.Install | ref_picker.py:247-264 | The converted file is written into the region folder, loaded under a fresh id, and linked to the placeholder. |
| Picker.RefPicker.WriteFile | ref_picker.py:250 | `img.save(destination_file)`: the file map gains the written PNG at the destination inside an existing folder; nothing else changes. |
| Picker.RefPicker.LoadAndLink | ref_picker.py:253-255 | `bpy.data.images.load` then `obj.data = new_image`: the image is added under the next id, the id counter advances, and only placeholder k shows the new image. |
| AssetPass.FirstIn | ref_picker.py:226-233 | The index found is in range and names a placeholder showing the image inside the region, or it is past the end. |
| AssetPass.FirstInSpec | ref_picker.py:226-233 | No earlier placeholder shows the image inside the region, and the search finds one exactly when the region shows the image. |
| AssetPass.Scan | ref_picker.py:226-267 | One region never deletes a file or an image, never adds or drops a placeholder, and stops the sync only when Pillow is missing. |
| AssetPass.ScanAtFirst | ref_picker.py:235-264 | At the first placeholder showing the image, with no identical copy in place: a stop without Pillow, no change when the conversion fails, and otherwise exactly that placeholder re-linked to the copy written at the destination under the fresh id. |
| AssetPass.ScanOutcome | ref_picker.py:233-267 | One region of the placeholder loop either changes nothing, or re-links the first placeholder of the region showing the image to a converted copy written at the destination. |
| AssetPass.ScanSkipsOwnCopy | ref_picker.py:233-240 | An image whose file is already its destination in the region meets an identical copy there and is skipped: nothing changes and the sync goes on. |
| AssetPass.ScanRoundTrip | ref_picker.py:233-264 | Round trip: after a conversion for a region, the image it loaded points at an existing file that is its own destination. Scanning that image for the same region again converts nothing and changes nothing, whatever Pillow and the converter would do. |
| Scene.DestinationStable | ref_picker.py:216-233 | The destination of a file already at a region destination is that file itself. |
| Paths.BasenameOfJoin | ref_picker.py:216-233 | `basename(join(d, name))` is `name` when `name` holds no separator. |
| AssetPass.ScanFrom | ref_picker.py:221-268 | The region loop never deletes a file or an image, never adds or drops a placeholder, and stops only when Pillow is missing. |
| AssetPass.ScanFromStep | ref_picker.py:221-268 | The region loop is the first region followed by the loop over the rest, unless the first region stopped the sync. |
| AssetPass.Handle | ref_picker.py:209-270 | One image adds at most itself to the marked set, deletes no file and no image, and stops only when Pillow is missing. |
| AssetPass.Pass | ref_picker.py:209-270 | The loop over the images deletes no file and no image, marks only images it visited, and stops only when Pillow is missing. |
| AssetPass.PassSnoc | ref_picker.py:209-270 | One more image extends the loop by `Handle` of that image, unless it already stopped. |
| AssetPass.RelinkReaches | ref_picker.py:247-264 | Re-linking a placeholder of the image to its converted copy is a change the asset pass may make, and only that image's placeholder moves to a fresh image. |
| AssetPass.ScanReaches | ref_picker.py:226-267 | One region of the loop is a change the asset pass may make, and re-links only placeholders that showed the image. |
| AssetPass.ScanFromReaches | ref_picker.py:221-268 | The region loop of an image is a change the asset pass may make, and re-links only placeholders that showed that image. |
| AssetPass.ClaimedKept | ref_picker.py:209-268 | An image not visited yet is shown in a region exactly when it was at the start of the loop. |
| AssetPass.HandleKeeps | ref_picker.py:209-270 | After one more image, the loop has still only made allowed changes, left unvisited images' placeholders alone, marked only images no region showed at the start, and marked every such visited image unless it stopped. |
| AssetPass.PassHandles | ref_picker.py:209-270 | The same four facts hold for the whole loop over any order of distinct loaded images. |
| AssetPass.PassMarksUnclaimed | ref_picker.py:208-270 | Over every loaded image, the loop changes only what `Evolved` allows. It marks only file-backed images whose file exists and that no region showed at the start. Unless it stopped, it marks all of them. |
| Scene.RelinkStep | ref_picker.py:247-264 | One re-link keeps the asset pass within `Evolved`: old images stay, files only appear inside region folders, and the re-linked placeholder shows the fresh converted copy. |
| Scene.ClaimedStable | ref_picker.py:209-268 | Re-linking other images' placeholders does not change whether an image is shown in a region. |
| Scene.ShownAmongAll | ref_picker.py:221-268 | Being shown in one of all the regions is being shown in some region. |
| Paths.Stem | ref_picker.py:258 | `splitext` keeps a prefix of the name. |
| Paths.StemSpec | ref_picker.py:258 | The name is kept whole exactly when every dot in it is preceded only by dots. Otherwise it is cut at its last dot, and the stem keeps a character other than a dot. |
| Paths.StripDedupSuffix | ref_picker.py:259-260 | The strip keeps a prefix of the name. |
| Paths.StripDedupSuffixSpec | ref_picker.py:259-260 | The strip changes the name exactly when it ends in a digit and holds a dot. It then keeps the name up to its last dot. |
| Paths.ConvertedImageNameSpec | ref_picker.py:258-261 | The converted image is named by its file name, cut just before one of its dots. The name is cut whenever `splitext` finds an extension and leaves a non-empty stem. |
| Paths.ConvertedImageNameExamples | ref_picker.py:258-261 | `photo.001.jpg` gives `photo`, `scan.v2.png` gives `scan`, and `cat2.png` gives `cat2`. |
| Picker.RefPicker.RemoveUnassociated | ref_picker.py:272-284 | The images of `toRemove` are gone, and so is every placeholder showing one of them. The other placeholders keep their order. |
| Picker.RefPicker.RemoveImage | ref_picker.py:273-284 | One marked image and every placeholder showing it are removed; the other placeholders keep their order and nothing else changes. |
| Picker.RefPicker.KeptWithout | ref_picker.py:273-278 | The placeholders that do not show the image, in order. |
| Scene.WithoutUnion | ref_picker.py:272-284 | Removing the placeholders of two image sets one after the other equals removing those of their union. |
| Picker.RefPicker.IsReferenced | ref_picker.py:295-301 | The scan answers true exactly when some placeholder shows an image loaded from that path. |
| Picker.RefPicker.PruneEntry | ref_picker.py:293-308 | One listed entry is deleted exactly when it is stale (image extension, shown by no placeholder). Every other file is kept with its contents. |
| Picker.RefPicker.RemoveFile | ref_picker.py:305 | `os.remove(p)`: exactly the file p is gone; every other file keeps its contents. |
| Paths.HasImageExtCaseless | ref_picker.py:293 | The extension test ignores case. |
| Paths.HasImageExtExamples | ref_picker.py:293 | `Cat.JPEG` passes the test; `cat.gif` and a bare `png` do not. |
| Picker.RefPicker.PruneRegionFiles | ref_picker.py:291-308 | A file is deleted exactly when it is listed in the region folder, has an image extension, and no placeholder shows it. Other files keep their contents. |
| Picker.RefPicker.TidyRegions | ref_picker.py:286-346 | The per-region loop. The placeholders become the grid passes of all regions in order. The files become exactly those not stale in some region folder, with their contents. Afterwards no region folder lists a stale file. |
| Picker.RefPicker.TidyRegion | ref_picker.py:287-346 | One region of that loop: its placeholders become `Arranged` for the region, and exactly the stale files of its folder are removed; every other file keeps its contents. |
| Scene.ListedBeforeSpec | ref_picker.py:287-292 | A file is listed in one of the first n region folders exactly when some such folder lists it. |
| Scene.StaleInRegionFolder | ref_picker.py:287-308 | The prune deletes only files inside region folders. |
| Scene.TidiedExactly | ref_picker.py:286-308 | Keeping exactly the files that are not stale, unchanged, is the pruned file map. |
| Picker.RefPicker.Collect | ref_picker.py:312-326 | The entries (name, index) of the placeholders the region holds, in collection order. |
| Arrange.Contained | ref_picker.py:312-326 | Each entry names a placeholder that the region holds. The indices increase. Every held placeholder appears. |
| Picker.RefPicker.ArrangeRegion | ref_picker.py:310-346 | The placeholders become `Arranged` of the old ones for that region. |
| Picker.RefPicker.Lay | ref_picker.py:331-346 | The loop moves the placeholder `order[i]` to grid position i of the sizes, one after the other. |
| Picker.RefPicker.LayNext | ref_picker.py:337-346 | One turn of that loop: the next placeholder goes to the next grid position, and the cursor advances by its size. |
| Picker.RefPicker.Move | ref_picker.py:345 | `obj.location = ...`: only placeholder k moves, to the given position. |
| Arrange.ArrangedSpec | ref_picker.py:310-346 | The grid pass moves the placeholders the region holds, and only those, in name order, to the successive grid positions of their sizes. Every other field of every placeholder is unchanged. |
| Arrange.OrderInRange | ref_picker.py:328-329 | The sorted entries are sorted by name. Each names a held placeholder, and no two name the same one. |
| Arrange.OrderCovers | ref_picker.py:312-329 | A placeholder appears in the name order exactly when the region holds it. |
| Arrange.PlaceAllAt | ref_picker.py:337-346 | With distinct entries, the placeholder of entry i ends at position i. |
| Arrange.PlaceAllElsewhere | ref_picker.py:337-346 | A placeholder no entry names is not moved. |
| Arrange.ArrangedAllSpec | ref_picker.py:286-346 | The grid passes of all regions change only locations. A placeholder that no region holds stays where it is. |
| Ordering.SortByNameSpec | ref_picker.py:329 | The name sort returns a permutation of its input, sorted by Python's string order. |
| Ordering.LexLeTotal | ref_picker.py:329 | Python's string order is total. |
| Ordering.LexLeTransitive | ref_picker.py:329 | Python's string order is transitive. |
| Ordering.LexLeAntisymmetric | ref_picker.py:329 | Python's string order is antisymmetric. |
| Grid.LayoutStep | ref_picker.py:331-346 | Item k goes at the cursor left by item k-1, or at the margin-inset start. It goes back to the row start, lowered by its own size, exactly when `x + size - 2.5` passes the right edge. |
| Grid.LayoutFits | ref_picker.py:340-343 | Every item starts a row or ends within the right edge plus the margin. |
| Grid.LayoutMonotone | ref_picker.py:331-346 | With non-negative sizes, rows only go down. No item lies left of the row start or above the first row. |
| Grid.LayoutPrefix | ref_picker.py:337-346 | Adding items never moves the earlier ones. |
| Grid.FourSquaresScenario | ref_picker.py:331-346 | Four size-5 items in [0,20] x [0,10] land at (2.5,7.5), (8,7.5), (13.5,7.5) and (2.5,2.5). |
| Grid.LayoutLeavesRegion | ref_picker.py:331-346 | Sizes 8 then 1 in [0,10] x [0,10] land at (2.5,7.5) and (11,7.5). The second lies outside the region, so the layout is not stable under a second sync. |
| Geometry.CheckOverlappingBoxes | ref_picker.py:390-416 | The loop collects exactly `OverlapPairs` of the boxes, and reports an overlap exactly when that list is non-empty. |
| Geometry.BoxesOf | ref_picker.py:396-403 | One box per region, each the `CornerBox` (min and max) of that region's world-space corners. |
| Geometry.OverlapPairsSpec | ref_picker.py:392-409 | A pair (i, j) is reported exactly when i < j and the two boxes overlap. The pairs come in loop order, each once. |
| Geometry.CornerBoxIsTight | ref_picker.py:396-403 | Each region's box encloses all eight corners, and each of its faces touches a corner. |
| Geometry.OverlapsSymmetricAndStrict | ref_picker.py:406-408 | The overlap test is symmetric. Boxes that only share a face are not flagged. |
| Disk.TopFolderOf | ref_picker.py:189-196 | Lying below `root/L` is the same as having L as top folder. |
| Disk.RemoveTree | ref_picker.py:192-193 | `rmtree` deletes exactly the files below the folder and keeps the others unchanged. |
| Picker.RefPicker.RenameFolders | ref_picker.py:351-387 | Regions and names are taken pairwise, in order. On success every region whose name changed is renamed, and the others are unchanged; the regions, folders, files and images equal `Scene.RenameRows` over every row that has both a region and a name, and every changed row found its target free (`Scene.ClearUpTo`), so no rename lands on an existing folder or file. On a conflict there is a row i whose changed name exists on disk, and it is the first: every changed row before it found its target free; the message names that path, the rows before i are renamed, and row i and all after it are unchanged; the regions, folders, files and images equal `Scene.RenameRows` over the rows before i. With the corrected path rewrite, every image whose file existed still points at a file with the same contents, and no file contents are lost or created. |
| Picker.RefPicker.RenameLoop | ref_picker.py:352-385 | The loop stops at the first conflict or when the regions or names run out. Its new regions, folders, files and images equal `Scene.RenameRows` over the rows it went through, and each changed row among them found its target free (`Scene.ClearUpTo`). On a conflict, row i has a changed name that exists on disk. |
| Picker.RefPicker.RenameTurn | ref_picker.py:353-385 | One row of the loop: if there is no conflict, a changed name found its target free (`Scene.ClearRow`) and the new state is `Scene.RenameRows` one row further. On a conflict the state is unchanged, the name changes and the target exists. |
| Picker.RefPicker.RenameOne | ref_picker.py:353-385 | A conflict happens exactly when the name changes and `root/<new>` exists; then nothing changes. An unchanged name changes nothing. Otherwise the region is renamed; the folder or file at the old name, when there is one, moves to the new name with everything below it; and every image path at or below the old folder moves with it (the corrected rewrite). |
| Disk.FreeName | ref_picker.py:359 | A name that `os.path.exists` denies is not a folder and not "", "." or "..", and no file lies at or below it. |
| Disk.NothingAt | ref_picker.py:359-369 | When the new name is neither a folder nor a file, nothing lies at or below it, so the move clobbers nothing. |
| Picker.RefPicker.Relabel | ref_picker.py:363-385 | The region becomes `reffolder_<new>` and its texts show the new name; nothing else changes. |
| Scene.RenameRow | ref_picker.py:353-385 | The reference step of the rename fold: its definition is one row that meets no conflict (an unchanged name changes nothing; otherwise the region is renamed, the folder or file at the old name moves, and the image paths follow with the corrected rewrite). Its contract states only that the number of regions is kept. |
| Scene.RenameRows | ref_picker.py:352-385 | `RenameRow` applied to rows 0 to k-1 in order keeps the number of regions. |
| Scene.RenameRowsRegions | ref_picker.py:352-385 | After the first k rows, rows before k with a changed name are renamed, and all other rows are unchanged (`RenamedUpTo`). |
| Scene.RenamedUpToAll | ref_picker.py:352-385 | Once the loop has covered every region or every name, renaming up to that row is the same as renaming up to the end of the names. |
| Scene.RenamedUpToEach | ref_picker.py:352-385 | After a partial rename, every row is either unchanged or renamed to its own new name. |
| Scene.RenamedSpec | ref_picker.py:363-385 | The renamed region stays well formed. When the new name does not contain the prefix, its folder label is the new name. |
| Picker.RefPicker.MoveEntry | ref_picker.py:366-370 | `os.rename` moves the entry and everything below it, and the folder set follows. |
| Disk.MovedSpec | ref_picker.py:366-369 | A move onto a free name keeps every file, under its moved path and with its contents, and creates none. |
| Disk.MovedConsistent | ref_picker.py:366-369 | Renaming a folder keeps every file inside an existing folder. |
| Disk.MovedFileConsistent | ref_picker.py:366-369 | Renaming a plain file keeps every file inside an existing folder. |
| Disk.MovedValues | ref_picker.py:366-369 | A rename neither loses nor creates file contents. |
| Picker.RefPicker.RepointImages | ref_picker.py:372-378 | Every image path at or below the old folder is moved below the new one (the corrected rewrite); every other image is unchanged. |
| Scene.RenameFollows | ref_picker.py:366-380 | With the corrected rewrite, every image whose file existed still points at that file's contents after the move. |
| Scene.FollowsTrans | ref_picker.py:352-385 | Keeping images pointed at their contents composes across renames. |
| Paths.LabelSpec | ref_picker.py:353 | Deleting the prefix never lengthens a name and adds no character. A name without the prefix is its own label. |
| Paths.LabelOfPrefixed | ref_picker.py:353-363 | `reffolder_<f>` has label f when f does not contain the prefix. |
| Paths.ReplaceAllDrops | ref_picker.py:353 | Deleting the prefix adds no character, so a label without a separator comes from a name without one. |
| Paths.MovedPathRoundTrip | ref_picker.py:374-380 | The corrected path rewrite is undone by renaming back. |
| Paths.RewriteAsWrittenAgrees | ref_picker.py:375-376 | The rewrite as written equals the corrected one on the folder itself and on paths below it in which the old folder path does not occur again. Both leave alone every path in which it does not occur. |
| Paths.RewriteAsWrittenHitsSiblingFolder | ref_picker.py:374-380 | As written, renaming `cat` to `dog` rewrites `/i/cats/a` to `/i/dogs/a`. The corrected rewrite leaves that path alone. |
| RenameDialog.Check | ref_picker.py:485-500 | The dialog answers true exactly when no row is flagged: no changed name is an existing folder, no name has an illegal character, and no changed name is preceded by an equal one. |
| RenameDialog.CheckSpec | ref_picker.py:485-500 | No row is flagged exactly when three things hold: no name has an illegal character, no changed name is an existing folder, and a name that repeats an earlier one is unchanged. |
| Paths.LegalNameIsOneFolder | ref_picker.py:474-477 | A name the dialog accepts holds no separator and no backslash. |
| RenameDialog.Execute | ref_picker.py:470-483 | Names with an illegal character give the invalid-characters message and change nothing. Otherwise the rename runs: on success every changed name is applied, every changed row found its target free, and the state equals `Scene.RenameRows` over all rows; on a conflict the message names an existing target, it is the first conflicting row, the rows from there on are unchanged, and the state equals `Scene.RenameRows` over the rows before it. The placeholders, the image-id counter and the saved flag never change. The success message is not empty, so the operator reports CANCELLED in every case. |
| Paths.IndexOf | ref_picker.py:497 | The first occurrence, or -1 when there is none. |
| Paths.Basename | ref_picker.py:216 | The part after the last separator, which holds no separator. |

## Left out

- Blender's popups, undo, console output, and the help operator are left out.
- Pillow's installation and `ensure_pillow` are reduced to the `pillow` flag.
- PNG conversion is reduced to the `toPng` parameter.
- Errors raised by the file system (permissions, `remove_readonly`, failed
  reads or writes) are not modelled; every operation succeeds.
- `bpy.context.collection.objects` is taken to hold every image empty of the
  file.
- The world matrices are inputs and are never refreshed during the
  operator, as in Blender.
- Blender renames an object whose name is taken (`.001` suffixes); that is
  not modelled.
- Blender also adds a `.001` suffix to an image whose name is taken. The
  converted image is given exactly the name computed at
  ref_picker.py:258-261; Blender's suffixing is not modelled.
- `get_reffolder_objects` and the creation of the images directory are
  left out.
- `paste_ref_image`, `draw` and `invoke` are not part of this model.
- The loop over `bpy.data.images` visits the images loaded when it starts,
  not the copies it loads itself. The order is a ghost output (`order`)
  that the contracts quantify over.
- Picker.RefPicker.Valid: `Linked` requires every image empty to show a
  loaded image. In the source an empty with no image makes
  `obj.data.filepath` raise at ref_picker.py:299, which ends the sync; that
  state is not modelled.
- Picker.RefPicker.Valid: `WellFormed` requires a region's folder label to
  hold no separator. A region named `reffolder_a/b` is therefore outside
  the model. In the source `a` is not among the region labels, so each sync
  deletes `images/a` and everything below it with `rmtree`, then recreates
  `images/a/b` empty.
- Paths.IsDigit: only the ASCII digits 0-9 count. Python's `str.isdigit`
  (ref_picker.py:259) also accepts other Unicode digits such as `²`.
- Paths.StripDedupSuffixSpec: states the strip for ASCII digits only (see
  `Paths.IsDigit`). A name ending in another Unicode digit is stripped by
  the source and kept whole by the model.
- Picker.RefPicker.RenameFolders: models the intended path rewrite
  (`Paths.MovedPath`), not the substring replacement the source does at
  ref_picker.py:375-376. The as-written rewrite is `Paths.RewriteAsWritten`.
  The "still points at the same contents" clause holds for the model. It
  fails for the source when a sibling folder's name starts with the old
  name (see "## Findings").
- Picker.RefPicker.RenameFolders: labels "", "." and ".." of existing
  regions are treated as ordinary folder names. In the source,
  `os.rename` of the images directory itself would raise.
- Picker.RefPicker.SyncImages: idempotence (a second sync with no change
  in between leaves the files and the positions as they are) is not
  promised, because the source does not have it. The wrap test at
  ref_picker.py:340 lets an item smaller than 2.5 be placed past the
  region's right edge (`Grid.LayoutLeavesRegion`). At the next sync that
  placeholder lies in no region, so its image and the placeholder are
  removed (ref_picker.py:221-232, 271-284).
- Picker.RefPicker.SyncImages: the round trip is stated for one region and
  one image (`AssetPass.ScanRoundTrip`, `AssetPass.ScanSkipsOwnCopy`), not as
  two whole syncs in a row.
- Picker.RefPicker.SyncImages: region labels "", "." and ".." are treated
  as ordinary folder names (`Scene.WellFormed` admits them). In the source
  `os.path.join(images, "")` is the images directory itself, so copies land
  there and the prune at ref_picker.py:289-305 deletes the unreferenced
  image files of the images directory; ".." works in the folder of the
  `.blend` file.
- Picker.RefPicker.MakeRegionDirs: adds every region label to the folders,
  as the model's folders and files are separate namespaces
  (`Disk.Consistent` lets one name be both). When a plain file sits at
  `images/<label>`, the source's `os.path.exists` test at
  ref_picker.py:205 skips `makedirs`, and `os.listdir` then raises at
  ref_picker.py:292; the model creates the folder and goes on. The labels
  "", "." and ".." are the line above.
- Disk.Occupied: paths use the single separator `/` and compare names
  exactly, case included. On Windows, which the add-on targets
  (ref_picker.py:32), `os.path` also splits on `\` and `os.path.exists`
  ignores case, so renaming `cat` to `Cat` is a conflict at
  ref_picker.py:359 in the source and goes through in the model. The same
  holds for `Paths.Basename` and every path comparison.
- Ordering.SortByNameSpec: stability for equal names is not stated. Blender
  object names are unique.
- The overlap guard reports index pairs, not object names.

## Findings

| source | as written | input that shows it | evidently intended | confidence | as-written member | corrected member |
|---|---|---|---|---|---|---|
| ref_picker.py:374-380 | Image paths are rewritten when the old folder path occurs anywhere in them, by substring replacement. | Renaming folder `cat` to `dog` while an image lives in `images/cats/a.png`: its path becomes `images/dogs/a.png`, which does not exist. At the next sync no placeholder shows `images/cats/a.png` any more, so the prune deletes that file. | Rewrite only the paths at or below the renamed folder, as `os.rename` moved them. | high; not executed | Paths.RewriteAsWrittenHitsSiblingFolder | Scene.RenameFollows |
