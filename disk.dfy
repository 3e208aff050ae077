/** The file system as the synchronisation and rename passes see it: a map
    from absolute file paths to contents, plus the set of folder names that
    exist directly inside the images directory `root`. A file lies in folder
    `L` when its path runs through `root/L/`. */
module Disk {
  import opened Paths

  datatype Option<T> = None | Some(value: T)

  type Blob = seq<bv8>

  type Files = map<string, Blob>

  /** The folder of the images directory that `p` lies in, if any: the path
      segment right after `root/`, when another separator follows it. */
  function TopFolder(root: string, p: string): Option<string> {
    if Under(p, root) then
      var rest := p[|root| + 1..];
      var i := IndexOf(rest, Sep);
      if i >= 0 then Some(rest[..i]) else None
    else None
  }

  /** For a folder name without separators, lying below `root/L` and having
      `L` as top folder are the same thing. */
  lemma TopFolderOf(root: string, p: string, folder: string)
    requires Sep !in folder
    ensures Under(p, FolderPath(root, folder)) <==> TopFolder(root, p) == Some(folder)
  {
    var d := FolderPath(root, folder) + [Sep];
    if Under(p, FolderPath(root, folder)) {
      assert p[..|d|] == d;
      assert p[..|root| + 1] == d[..|root| + 1] == root + [Sep];
      var rest := p[|root| + 1..];
      assert rest[..|folder|] == folder by {
        assert rest[..|folder|] == p[|root| + 1..|d| - 1] == d[|root| + 1..|d| - 1];
      }
      assert rest[|folder|] == Sep by {
        assert rest[|folder|] == p[|d| - 1] == d[|d| - 1];
      }
    }
    if TopFolder(root, p) == Some(folder) {
      var rest := p[|root| + 1..];
      var i := IndexOf(rest, Sep);
      assert p[..|d|] == d by {
        assert p[..|d|] == p[..|root| + 1] + rest[..i] + [rest[i]];
      }
    }
  }

  /** A folder path itself, with no separator after the folder name, lies in
      no folder. */
  lemma TopFolderOfFolderPath(root: string, folder: string)
    requires Sep !in folder
    ensures TopFolder(root, FolderPath(root, folder)).None?
  {
    var p := FolderPath(root, folder);
    assert p[..|root| + 1] == root + [Sep];
    assert p[|root| + 1..] == folder;
  }

  /** Every file that lies in a folder lies in an existing folder. */
  ghost predicate Consistent(root: string, dirs: set<string>, files: Files) {
    forall p :: p in files && TopFolder(root, p).Some? ==> TopFolder(root, p).value in dirs
  }

  /** `shutil.rmtree(root/L)`: the files of folder `L` are gone. */
  function RemoveTree(files: Files, root: string, folder: string): (r: Files)
    requires Sep !in folder
    ensures forall p :: p in r <==> p in files && !Under(p, FolderPath(root, folder))
    ensures forall p :: p in r ==> r[p] == files[p]
  {
    TopFolderAll(root, folder);
    map p | p in files && TopFolder(root, p) != Some(folder) :: files[p]
  }

  /** The files left once the folders `gone` are deleted with everything in
      them. */
  function Pruned(root: string, files: Files, gone: set<string>): Files {
    map p | p in files && !(TopFolder(root, p).Some? && TopFolder(root, p).value in gone) :: files[p]
  }

  lemma TopFolderAll(root: string, folder: string)
    requires Sep !in folder
    ensures forall p :: Under(p, FolderPath(root, folder)) <==> TopFolder(root, p) == Some(folder)
  {
    forall p ensures Under(p, FolderPath(root, folder)) <==> TopFolder(root, p) == Some(folder) {
      TopFolderOf(root, p, folder);
    }
  }

  /** `os.rename(o, n)`: the entry `o` and everything below it move to `n`. */
  function Moved(files: Files, o: string, n: string): Files {
    var keys := set p | p in files :: MovedPath(p, o, n);
    map q | q in keys && MovedPath(q, n, o) in files :: files[MovedPath(q, n, o)]
  }

  /** When nothing exists at or below the target, every file survives the
      move, under its moved path and with its contents, and nothing else
      appears. */
  lemma MovedSpec(files: Files, o: string, n: string)
    requires forall p :: p in files ==> !Under(p, n) && p != n
    ensures forall p :: p in files ==> MovedPath(p, o, n) in Moved(files, o, n)
    ensures forall p :: p in files ==> Moved(files, o, n)[MovedPath(p, o, n)] == files[p]
    ensures forall q :: q in Moved(files, o, n) ==> exists p :: p in files && q == MovedPath(p, o, n)
  {
    forall p | p in files
      ensures MovedPath(p, o, n) in Moved(files, o, n)
      ensures Moved(files, o, n)[MovedPath(p, o, n)] == files[p]
    {
      MovedPathRoundTrip(p, o, n);
    }
  }

  /** The folder `before` renamed to `after` keeps every file in a folder that
      exists. */
  lemma MovedConsistent(root: string, dirs: set<string>, files: Files, before: string, after: string)
    requires Sep !in before && Sep !in after
    requires Consistent(root, dirs, files)
    requires before in dirs
    requires forall p :: p in files ==> !Under(p, FolderPath(root, after)) && p != FolderPath(root, after)
    ensures Consistent(root, dirs - {before} + {after}, Moved(files, FolderPath(root, before), FolderPath(root, after)))
  {
    var o, n := FolderPath(root, before), FolderPath(root, after);
    var m := Moved(files, o, n);
    MovedSpec(files, o, n);
    forall q | q in m && TopFolder(root, q).Some?
      ensures TopFolder(root, q).value in dirs - {before} + {after}
    {
      var p :| p in files && q == MovedPath(p, o, n);
      MovedTopFolder(root, dirs, p, before, after);
    }
  }

  lemma MovedTopFolder(root: string, dirs: set<string>, p: string, before: string, after: string)
    requires Sep !in before && Sep !in after
    requires TopFolder(root, p).Some? ==> TopFolder(root, p).value in dirs
    ensures var q := MovedPath(p, FolderPath(root, before), FolderPath(root, after));
      TopFolder(root, q).Some? ==> TopFolder(root, q).value in dirs - {before} + {after}
  {
    var o, n := FolderPath(root, before), FolderPath(root, after);
    if p == o {
      TopFolderOfFolderPath(root, after);
    } else if Under(p, o) {
      var q := n + p[|o|..];
      assert q[..|n| + 1] == n + [Sep] by {
        assert p[..|o| + 1] == o + [Sep];
        assert p[|o|] == Sep;
      }
      TopFolderOf(root, q, after);
    } else {
      TopFolderOf(root, p, before);
    }
  }

  /** `os.path.exists(root/name)`: the images directory itself for "", "."
      and "..", a folder, or a plain file. */
  predicate Occupied(root: string, dirs: set<string>, files: Files, name: string) {
    name == "" || name == "." || name == ".." || name in dirs || FolderPath(root, name) in files
  }

  /** Nothing lies at or below a free name. */
  lemma NothingAt(root: string, dirs: set<string>, files: Files, name: string)
    requires Sep !in name && Consistent(root, dirs, files)
    requires name !in dirs && FolderPath(root, name) !in files
    ensures forall p :: p in files ==> !Under(p, FolderPath(root, name)) && p != FolderPath(root, name)
  {
    TopFolderAll(root, name);
  }

  /** A name `os.path.exists` denies is neither a folder nor a file, and
      nothing lies at or below it. */
  lemma FreeName(root: string, dirs: set<string>, files: Files, name: string)
    requires Sep !in name && Consistent(root, dirs, files)
    requires !Occupied(root, dirs, files, name)
    ensures name !in dirs && name != "" && name != "." && name != ".."
    ensures forall p :: p in files ==> !Under(p, FolderPath(root, name)) && p != FolderPath(root, name)
  {
    NothingAt(root, dirs, files, name);
  }

  /** Renaming a plain file `root/before` to `root/after` keeps every file in a
      folder that exists. */
  lemma MovedFileConsistent(root: string, dirs: set<string>, files: Files, before: string, after: string)
    requires Sep !in before && Sep !in after
    requires Consistent(root, dirs, files)
    requires before !in dirs
    requires forall p :: p in files ==> !Under(p, FolderPath(root, after)) && p != FolderPath(root, after)
    ensures Consistent(root, dirs, Moved(files, FolderPath(root, before), FolderPath(root, after)))
  {
    var o, n := FolderPath(root, before), FolderPath(root, after);
    var m := Moved(files, o, n);
    MovedSpec(files, o, n);
    forall q | q in m && TopFolder(root, q).Some?
      ensures TopFolder(root, q).value in dirs
    {
      var p :| p in files && q == MovedPath(p, o, n);
      TopFolderOf(root, p, before);
      if p == o {
        TopFolderOfFolderPath(root, after);
      }
    }
  }

  /** A move onto a free name loses no contents and creates none. */
  lemma MovedValues(files: Files, o: string, n: string)
    requires forall p :: p in files ==> !Under(p, n) && p != n
    ensures Moved(files, o, n).Values == files.Values
  {
    MovedValuesKept(files, o, n);
    MovedValuesNew(files, o, n);
  }

  lemma MovedValuesKept(files: Files, o: string, n: string)
    requires forall p :: p in files ==> !Under(p, n) && p != n
    ensures files.Values <= Moved(files, o, n).Values
  {
    var m := Moved(files, o, n);
    forall v | v in files.Values ensures v in m.Values {
      var p :| p in files && files[p] == v;
      MovedPathRoundTrip(p, o, n);
      assert m[MovedPath(p, o, n)] == v;
    }
  }

  lemma MovedValuesNew(files: Files, o: string, n: string)
    ensures Moved(files, o, n).Values <= files.Values
  {
    var m := Moved(files, o, n);
    forall v | v in m.Values ensures v in files.Values {
      var q :| q in m && m[q] == v;
      assert files[MovedPath(q, n, o)] == v;
    }
  }
}
