/** The operator `RefPickerRenameFoldersOperator`: the dialog's `check`,
    which answers whether every row is acceptable (Blender takes the answer
    as a request to redraw the dialog), and
    `execute`, which refuses illegal characters and otherwise hands the names
    to `rename_folders`. */
module RenameDialog {
  import opened Paths
  import Disk
  import Scene
  import opened Picker

  /** What a Blender operator returns. */
  datatype Report = Finished | Cancelled

  const InvalidMessage := "Invalid characters found in folder names"

  /** Row `i` of the dialog is flagged: its name changed to a folder that
      already exists, it holds an illegal character, or it changed to a name
      an earlier row already has. */
  predicate Flagged(originals: seq<string>, existing: set<string>, newNames: seq<string>, i: nat)
    requires i < |newNames| <= |originals|
  {
    || (newNames[i] != originals[i] && newNames[i] in existing)
    || HasIllegalChar(newNames[i])
    || (IndexOf(newNames, newNames[i]) != i && newNames[i] != originals[i])
  }

  /** `check`: row by row, the first flagged row answers false. `originals`
      are the folder names the dialog opened with, `existing` the folders of
      the images directory. */
  method Check(originals: seq<string>, existing: set<string>, newNames: seq<string>) returns (ok: bool)
    requires |newNames| <= |originals|
    ensures ok <==> forall i :: 0 <= i < |newNames| ==> !Flagged(originals, existing, newNames, i)
  {
    var i := 0;
    while i < |newNames|
      invariant i <= |newNames|
      invariant forall j :: 0 <= j < i ==> !Flagged(originals, existing, newNames, j)
    {
      var newName, original := newNames[i], originals[i];
      if newName != original && newName in existing {
        assert Flagged(originals, existing, newNames, i);
        return false;
      }
      if HasIllegalChar(newName) {
        assert Flagged(originals, existing, newNames, i);
        return false;
      }
      var first := IndexOf(newNames, newName);
      if first != i && newName != original {
        assert Flagged(originals, existing, newNames, i);
        return false;
      }
      i := i + 1;
    }
    return true;
  }

  /** No row is flagged exactly when no name holds an illegal character, no
      changed name is an existing folder, and no changed name repeats an
      earlier one. */
  lemma CheckSpec(originals: seq<string>, existing: set<string>, newNames: seq<string>)
    requires |newNames| <= |originals|
    ensures (forall i :: 0 <= i < |newNames| ==> !Flagged(originals, existing, newNames, i)) <==>
      && (forall i :: 0 <= i < |newNames| ==> !HasIllegalChar(newNames[i]))
      && (forall i :: 0 <= i < |newNames| && newNames[i] != originals[i] ==> newNames[i] !in existing)
      && (forall i, j :: 0 <= i < j < |newNames| && newNames[i] == newNames[j] ==> newNames[j] == originals[j])
  {
    if forall i :: 0 <= i < |newNames| ==> !Flagged(originals, existing, newNames, i) {
      forall i | 0 <= i < |newNames|
        ensures !HasIllegalChar(newNames[i])
        ensures newNames[i] != originals[i] ==> newNames[i] !in existing
      {
        assert !Flagged(originals, existing, newNames, i);
      }
      forall i, j | 0 <= i < j < |newNames| && newNames[i] == newNames[j]
        ensures newNames[j] == originals[j]
      {
        assert !Flagged(originals, existing, newNames, j);
        assert newNames[j] in newNames[..j] by {
          assert newNames[..j][i] == newNames[i];
        }
      }
    }
    if && (forall i :: 0 <= i < |newNames| ==> !HasIllegalChar(newNames[i]))
       && (forall i :: 0 <= i < |newNames| && newNames[i] != originals[i] ==> newNames[i] !in existing)
       && (forall i, j :: 0 <= i < j < |newNames| && newNames[i] == newNames[j] ==> newNames[j] == originals[j])
    {
      forall j | 0 <= j < |newNames|
        ensures !Flagged(originals, existing, newNames, j)
      {
        var k := IndexOf(newNames, newNames[j]);
        if k < j {
          assert newNames[k] == newNames[j];
        }
      }
    }
  }

  /** `execute`: names with an illegal character are refused with a message
      and change nothing; otherwise `rename_folders` runs, and since its
      answer is never empty (it is the success message when every rename
      went through) the operator reports that answer and CANCELLED either
      way. */
  method Execute(picker: RefPicker, newNames: seq<string>) returns (report: Report, message: string)
    requires picker.Valid()
    modifies picker
    ensures picker.Valid()
    ensures report == Cancelled
    ensures (exists i :: 0 <= i < |newNames| && HasIllegalChar(newNames[i])) ==>
      && message == InvalidMessage
      && picker.regions == old(picker.regions) && picker.dirs == old(picker.dirs)
      && picker.files == old(picker.files) && picker.images == old(picker.images)
    ensures (forall i :: 0 <= i < |newNames| ==> !HasIllegalChar(newNames[i])) ==>
      message == RenamedMessage || exists i :: 0 <= i < |newNames| && message == ConflictMessage(FolderPath(picker.root, newNames[i]))
    ensures (forall i :: 0 <= i < |newNames| ==> !HasIllegalChar(newNames[i])) && message == RenamedMessage ==>
      && Scene.RenamedUpTo(old(picker.regions), picker.regions, newNames, |newNames|)
      && Scene.ClearUpTo(picker.root,
                         Scene.Renaming(old(picker.regions), old(picker.dirs), old(picker.files), old(picker.images)),
                         newNames, if |newNames| < |old(picker.regions)| then |newNames| else |old(picker.regions)|)
      && Scene.Renaming(picker.regions, picker.dirs, picker.files, picker.images) ==
           Scene.RenameRows(picker.root,
                            Scene.Renaming(old(picker.regions), old(picker.dirs), old(picker.files), old(picker.images)),
                            newNames, if |newNames| < |old(picker.regions)| then |newNames| else |old(picker.regions)|)
    ensures (forall i :: 0 <= i < |newNames| ==> !HasIllegalChar(newNames[i])) && message != RenamedMessage ==>
      exists i ::
        && 0 <= i < |old(picker.regions)| && i < |newNames|
        && Scene.Folder(old(picker.regions)[i]) != newNames[i]
        && Disk.Occupied(picker.root, picker.dirs, picker.files, newNames[i])
        && message == ConflictMessage(FolderPath(picker.root, newNames[i]))
        && Scene.RenamedUpTo(old(picker.regions), picker.regions, newNames, i)
        && Scene.ClearUpTo(picker.root,
                           Scene.Renaming(old(picker.regions), old(picker.dirs), old(picker.files), old(picker.images)),
                           newNames, i)
        && Scene.Renaming(picker.regions, picker.dirs, picker.files, picker.images) ==
             Scene.RenameRows(picker.root,
                              Scene.Renaming(old(picker.regions), old(picker.dirs), old(picker.files), old(picker.images)),
                              newNames, i)
    ensures Scene.Follows(old(picker.images), old(picker.files), picker.images, picker.files)
    ensures picker.empties == old(picker.empties) && picker.nextId == old(picker.nextId) && picker.saved == old(picker.saved)
  {
    if exists i :: 0 <= i < |newNames| && HasIllegalChar(newNames[i]) {
      return Cancelled, InvalidMessage;
    }
    forall i | 0 <= i < |newNames| ensures Sep !in newNames[i] {
      LegalNameIsOneFolder(newNames[i]);
    }
    message := picker.RenameFolders(newNames);
    report := if message != "" then Cancelled else Finished;
  }
}
