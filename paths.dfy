/** String and path helpers used by the synchronisation and rename passes of
    ref_picker.py: Python's `str.replace`, `in`, `os.path.basename`,
    `os.path.splitext`, the de-duplication suffix strip, the image-extension
    filter and the illegal-character test of the rename dialog. Paths are
    absolute strings with a single separator `Sep`. */
module Paths {

  const Sep: char := '/'

  /** Object-name prefix that marks a region ("folder marker"). */
  const RegionPrefix: string := "reffolder_"

  /** Extensions (lower case) that the per-folder file pruning looks at. */
  const ImageExts: seq<string> := [".png", ".jpg", ".jpeg", ".bmp", ".tga"]

  /** Characters refused in a folder name by the rename dialog. */
  const IllegalChars: set<char> := {'<', '>', ':', '"', '/', '\\', '|', '?', '*'}

  predicate StartsWith(s: string, pre: string) {
    |pre| <= |s| && s[..|pre|] == pre
  }

  predicate EndsWith(s: string, suf: string) {
    |suf| <= |s| && s[|s| - |suf|..] == suf
  }

  /** Python's `pat in s` for a non-empty pattern. */
  predicate Contains(s: string, pat: string) {
    exists i :: 0 <= i <= |s| - |pat| && OccursAt(s, pat, i)
  }

  predicate OccursAt(s: string, pat: string, i: int)
    requires 0 <= i <= |s| - |pat|
  {
    s[i..i + |pat|] == pat
  }

  /** Python's `s.replace(pat, rep)`: every non-overlapping occurrence of `pat`,
      scanning left to right, is replaced. */
  function ReplaceAll(s: string, pat: string, rep: string): string
    requires |pat| > 0
    decreases |s|
  {
    if |s| < |pat| then s
    else if s[..|pat|] == pat then rep + ReplaceAll(s[|pat|..], pat, rep)
    else [s[0]] + ReplaceAll(s[1..], pat, rep)
  }

  /** A string in which `pat` does not occur is left alone by `replace`. */
  lemma {:induction false} ReplaceAllAbsent(s: string, pat: string, rep: string)
    requires |pat| > 0 && !Contains(s, pat)
    ensures ReplaceAll(s, pat, rep) == s
    decreases |s|
  {
    if |s| >= |pat| {
      assert !OccursAt(s, pat, 0);
      assert s[0..0 + |pat|] == s[..|pat|];
      if Contains(s[1..], pat) {
        var i :| 0 <= i <= |s[1..]| - |pat| && OccursAt(s[1..], pat, i);
        assert s[i + 1..i + 1 + |pat|] == s[1..][i..i + |pat|];
        assert OccursAt(s, pat, i + 1);
        assert false;
      }
      ReplaceAllAbsent(s[1..], pat, rep);
    }
  }

  /** Python's `name.replace("reffolder_", "")`: the folder label of a region. */
  function Label(objectName: string): string {
    ReplaceAll(objectName, RegionPrefix, "")
  }

  /** Deleting the prefix never lengthens a name and brings in no character; a
      name in which the prefix does not occur is its own label. */
  lemma LabelSpec(objectName: string)
    ensures var r := Label(objectName);
      && |r| <= |objectName|
      && (forall c :: c in r ==> c in objectName)
      && (!Contains(objectName, RegionPrefix) ==> r == objectName)
  {
    DeleteAllShrinks(objectName, RegionPrefix);
    forall c | c !in objectName
      ensures c !in Label(objectName)
    {
      ReplaceAllDrops(objectName, RegionPrefix, c);
    }
    if !Contains(objectName, RegionPrefix) {
      ReplaceAllAbsent(objectName, RegionPrefix, "");
    }
  }

  lemma {:induction false} DeleteAllShrinks(s: string, pat: string)
    requires |pat| > 0
    ensures |ReplaceAll(s, pat, "")| <= |s|
    decreases |s|
  {
    if |s| >= |pat| {
      if s[..|pat|] == pat {
        DeleteAllShrinks(s[|pat|..], pat);
      } else {
        DeleteAllShrinks(s[1..], pat);
      }
    }
  }

  /** The object `reffolder_<folder>` has folder `<folder>` whenever the prefix
      does not occur inside the folder itself. */
  lemma LabelOfPrefixed(folder: string)
    requires !Contains(folder, RegionPrefix)
    ensures Label(RegionPrefix + folder) == folder
  {
    var s := RegionPrefix + folder;
    assert s[..|RegionPrefix|] == RegionPrefix;
    assert s[|RegionPrefix|..] == folder;
    ReplaceAllAbsent(folder, RegionPrefix, "");
  }

  function FolderPath(root: string, folder: string): string {
    root + [Sep] + folder
  }

  function FilePath(root: string, folder: string, fileName: string): string {
    FolderPath(root, folder) + [Sep] + fileName
  }

  /** `p` lies somewhere below directory `dir`. */
  predicate Under(p: string, dir: string) {
    StartsWith(p, dir + [Sep])
  }

  /** `p` is a direct entry of directory `dir`, as `os.listdir(dir)` lists it. */
  predicate ListedIn(p: string, dir: string) {
    Under(p, dir) && Sep !in p[|dir| + 1..]
  }

  /** Index of the first occurrence of `c` in `s`, or -1: `str.find` on a
      character, and the `next(...)` search of the rename dialog. */
  function IndexOf<T(==)>(s: seq<T>, c: T): (r: int)
    ensures -1 <= r < |s|
    ensures r >= 0 ==> s[r] == c && c !in s[..r]
    ensures r < 0 ==> c !in s
  {
    if s == [] then -1
    else if s[0] == c then 0
    else
      var i := IndexOf(s[1..], c);
      if i < 0 then -1
      else
        assert s[..i + 1] == [s[0]] + s[1..][..i];
        i + 1
  }

  /** Index of the last occurrence of `c` in `s`, or -1. */
  function LastIndexOf(s: string, c: char): (r: int)
    ensures -1 <= r < |s|
    ensures r >= 0 ==> s[r] == c
    ensures forall k :: r < k < |s| ==> s[k] != c
  {
    if s == [] then -1
    else if s[|s| - 1] == c then |s| - 1
    else LastIndexOf(s[..|s| - 1], c)
  }

  /** `os.path.basename`: the part of `p` after its last separator. */
  function Basename(p: string): (r: string)
    ensures Sep !in r
    ensures EndsWith(p, r)
    ensures |r| < |p| ==> p[|p| - |r| - 1] == Sep
  {
    p[LastIndexOf(p, Sep) + 1..]
  }

  /** The base name of a path joined onto a directory is the last component
      that was joined. */
  lemma BasenameOfJoin(dir: string, name: string)
    requires Sep !in name
    ensures Basename(dir + [Sep] + name) == name
  {
    var p := dir + [Sep] + name;
    assert p[|dir|] == Sep;
    assert forall k :: |dir| < k < |p| ==> p[k] == name[k - |dir| - 1];
    assert LastIndexOf(p, Sep) == |dir|;
    assert p[|dir| + 1..] == name;
  }

  /** `os.path.splitext(name)[0]` for a name without separators: the text
      before the last dot, unless that dot is preceded only by dots. */
  function Stem(name: string): (r: string)
    ensures StartsWith(name, r)
  {
    var d := LastIndexOf(name, '.');
    if d > 0 && exists k :: 0 <= k < d && name[k] != '.' then name[..d] else name
  }

  /** `splitext` cuts the name at its last dot unless every dot of the name is
      preceded only by dots (no dot, or a leading run such as `.bashrc`); the
      cut-off extension holds no further dot, and the stem keeps a character
      other than a dot. */
  lemma StemSpec(name: string)
    ensures var r := Stem(name);
      && (r == name <==> forall j, k :: 0 <= j < k < |name| && name[k] == '.' ==> name[j] == '.')
      && (r != name ==> name[|r|] == '.' && '.' !in name[|r| + 1..]
                        && exists k :: 0 <= k < |r| && r[k] != '.')
  {
    var r := Stem(name);
    var d := LastIndexOf(name, '.');
    if r == name {
      forall j, k | 0 <= j < k < |name| && name[k] == '.'
        ensures name[j] == '.'
      {
        assert k <= d;
      }
    } else {
      assert |r| == d;
      var k :| 0 <= k < d && name[k] != '.';
      assert r[k] == name[k];
    }
  }

  predicate IsDigit(c: char) {
    '0' <= c <= '9'
  }

  /** The renaming rule applied after a conversion: when the last character is
      a digit, `base_name.rsplit('.', 1)[0]`, i.e. drop everything from the
      last dot on (nothing when there is no dot). */
  function StripDedupSuffix(b: string): (r: string)
    ensures StartsWith(b, r)
  {
    if |b| > 0 && IsDigit(b[|b| - 1]) then
      var d := LastIndexOf(b, '.');
      if d >= 0 then b[..d] else b
    else b
  }

  /** The stripped name is unchanged exactly when the name does not end in a
      digit or holds no dot; otherwise it is the name up to a last dot, and the
      dropped tail ends in a digit and holds no further dot. */
  lemma StripDedupSuffixSpec(b: string)
    ensures var r := StripDedupSuffix(b);
      && StartsWith(b, r)
      && (r == b <==> !(|b| > 0 && IsDigit(b[|b| - 1]) && '.' in b))
      && (r != b ==> b[|r|] == '.' && '.' !in b[|r| + 1..] && IsDigit(b[|b| - 1]))
  {
    var r := StripDedupSuffix(b);
    if |b| > 0 && IsDigit(b[|b| - 1]) && '.' in b {
      var d := LastIndexOf(b, '.');
      var k :| 0 <= k < |b| && b[k] == '.';
      assert d >= 0;
      assert |r| == d < |b|;
    } else if |b| > 0 && IsDigit(b[|b| - 1]) {
      assert LastIndexOf(b, '.') == -1;
    }
  }

  /** Name given to a converted image: the stem of its file name with the
      de-duplication suffix stripped. When the stem is empty, indexing its last
      character fails inside the conversion's `try`, and the image keeps the
      name it was loaded under, the file name. */
  function ConvertedImageName(fileName: string): string {
    var b := Stem(fileName);
    if b == [] then fileName else StripDedupSuffix(b)
  }

  /** The converted image is named by its file name cut just before one of the
      file name's dots: the extension always goes when `splitext` finds one,
      and so does a dotted tail ending in a digit, such as Blender's `.001`. */
  lemma ConvertedImageNameSpec(fileName: string)
    ensures var r := ConvertedImageName(fileName);
      && StartsWith(fileName, r)
      && (r != fileName ==> fileName[|r|] == '.')
      && (Stem(fileName) != fileName && Stem(fileName) != [] ==> r != fileName)
  {
    var b := Stem(fileName);
    StemSpec(fileName);
    if b != [] {
      StripDedupSuffixSpec(b);
      var r := StripDedupSuffix(b);
      if r != b {
        assert fileName[|r|] == b[|r|];
      }
    }
  }

  /** The renaming on three file names: a duplicate suffix goes with the
      extension, and so does a dotted version tag that ends in a digit. */
  lemma ConvertedImageNameExamples()
    ensures ConvertedImageName("photo.001.jpg") == "photo"
    ensures ConvertedImageName("scan.v2.png") == "scan"
    ensures ConvertedImageName("cat2.png") == "cat2"
  {
    StemAt("photo.001.jpg", 9);
    assert "photo.001.jpg"[..9] == "photo.001";
    StripAt("photo.001", 5);
    assert "photo.001"[..5] == "photo";
    StemAt("scan.v2.png", 7);
    assert "scan.v2.png"[..7] == "scan.v2";
    StripAt("scan.v2", 4);
    assert "scan.v2"[..4] == "scan";
    StemAt("cat2.png", 4);
    assert "cat2.png"[..4] == "cat2";
    assert LastIndexOf("cat2", '.') == -1 by {
      assert forall k :: 0 <= k < 4 ==> "cat2"[k] != '.';
    }
  }

  lemma StemAt(s: string, d: nat)
    requires 0 < d < |s| && s[d] == '.' && s[0] != '.'
    requires forall k :: d < k < |s| ==> s[k] != '.'
    ensures Stem(s) == s[..d]
  {
    LastDotAt(s, d);
  }

  lemma StripAt(s: string, d: nat)
    requires d < |s| && s[d] == '.' && IsDigit(s[|s| - 1])
    requires forall k :: d < k < |s| ==> s[k] != '.'
    ensures StripDedupSuffix(s) == s[..d]
  {
    LastDotAt(s, d);
  }

  lemma LastDotAt(s: string, d: nat)
    requires d < |s| && s[d] == '.'
    requires forall k :: d < k < |s| ==> s[k] != '.'
    ensures LastIndexOf(s, '.') == d
  {
  }

  /** ASCII lower-casing of `str.lower()`. */
  function LowerChar(c: char): char {
    if 'A' <= c <= 'Z' then (c as int + 32) as char else c
  }

  /** Deleting every occurrence of a pattern adds no character. */
  lemma {:induction false} ReplaceAllDrops(s: string, pat: string, c: char)
    requires |pat| > 0 && c !in s
    ensures c !in ReplaceAll(s, pat, "")
    decreases |s|
  {
    if |s| >= |pat| {
      if s[..|pat|] == pat {
        ReplaceAllDrops(s[|pat|..], pat, c);
      } else {
        ReplaceAllDrops(s[1..], pat, c);
      }
    }
  }

  function Lower(s: string): (r: string)
    ensures |r| == |s|
    ensures forall i :: 0 <= i < |s| ==> r[i] == LowerChar(s[i])
  {
    if s == [] then [] else Lower(s[..|s| - 1]) + [LowerChar(s[|s| - 1])]
  }

  /** The file name, lower-cased, ends with one of the image extensions. */
  predicate HasImageExt(fileName: string) {
    exists i :: 0 <= i < |ImageExts| && EndsWith(Lower(fileName), ImageExts[i])
  }

  /** The extension test ignores case. */
  lemma HasImageExtCaseless(fileName: string)
    ensures HasImageExt(Lower(fileName)) <==> HasImageExt(fileName)
  {
    assert Lower(Lower(fileName)) == Lower(fileName);
  }

  /** Upper-case extensions count; other extensions and a bare `png` do not. */
  lemma HasImageExtExamples()
    ensures HasImageExt("Cat.JPEG")
    ensures !HasImageExt("cat.gif")
    ensures !HasImageExt("png")
  {
    LowerUpperJpeg();
    assert EndsWith("cat.jpeg", ImageExts[2]);
    NotImageExt("cat.gif");
    NotImageExt("png");
  }

  lemma LowerUpperJpeg()
    ensures Lower("Cat.JPEG") == "cat.jpeg"
  {
    var r := Lower("Cat.JPEG");
    assert forall i :: 0 <= i < 8 ==> r[i] == "cat.jpeg"[i];
  }

  /** A lower-case name ending in `f` or too short for an extension. */
  lemma NotImageExt(s: string)
    requires |s| < 4 || s[|s| - 1] == 'f'
    requires forall i :: 0 <= i < |s| ==> !('A' <= s[i] <= 'Z')
    ensures !HasImageExt(s)
  {
    assert Lower(s) == s;
  }

  predicate HasIllegalChar(name: string) {
    exists i :: 0 <= i < |name| && name[i] in IllegalChars
  }

  /** A name the dialog accepts holds no separator and no backslash, so it
      names a single folder directly inside the images directory. */
  lemma LegalNameIsOneFolder(name: string)
    requires !HasIllegalChar(name)
    ensures Sep !in name && '\\' !in name
  {
  }

  /** Where a path lands when the directory entry `oldDir` is renamed to
      `newDir`: the entry itself and everything below it move, nothing else. */
  function MovedPath(p: string, oldDir: string, newDir: string): string {
    if p == oldDir then newDir
    else if Under(p, oldDir) then newDir + p[|oldDir|..]
    else p
  }

  /** The image-path rewrite of `rename_folders` as written: any path that holds
      the old folder path as a substring has every occurrence replaced. */
  function RewriteAsWritten(p: string, oldDir: string, newDir: string): string
    requires |oldDir| > 0
  {
    if Contains(p, oldDir) then ReplaceAll(p, oldDir, newDir) else p
  }

  /** Where the rewrite as written and the corrected one agree: on the renamed
      folder itself and the paths below it in which the old folder path does not
      occur again, and on every path in which it does not occur at all. */
  lemma RewriteAsWrittenAgrees(p: string, oldDir: string, newDir: string)
    requires |oldDir| > 0
    ensures (p == oldDir || Under(p, oldDir)) && !Contains(p[|oldDir|..], oldDir)
            ==> RewriteAsWritten(p, oldDir, newDir) == MovedPath(p, oldDir, newDir)
    ensures !Contains(p, oldDir)
            ==> RewriteAsWritten(p, oldDir, newDir) == p == MovedPath(p, oldDir, newDir)
  {
    if p == oldDir || Under(p, oldDir) {
      assert p[..|oldDir|] == oldDir;
      assert p[0..0 + |oldDir|] == oldDir;
      assert OccursAt(p, oldDir, 0);
      if !Contains(p[|oldDir|..], oldDir) {
        ReplaceAllAbsent(p[|oldDir|..], oldDir, newDir);
      }
    }
  }

  /** Renaming folder `cat` to `dog` rewrites the path of an image kept in the
      sibling folder `cats`, which `os.rename` did not move; the corrected
      rewrite leaves it alone. */
  lemma RewriteAsWrittenHitsSiblingFolder()
    ensures var root, p := "/i", "/i/cats/a";
      && RewriteAsWritten(p, FolderPath(root, "cat"), FolderPath(root, "dog")) == "/i/dogs/a"
      && MovedPath(p, FolderPath(root, "cat"), FolderPath(root, "dog")) == p
  {
    var p, o, n := "/i/cats/a", "/i/cat", "/i/dog";
    assert o == FolderPath("/i", "cat") && n == FolderPath("/i", "dog");
    assert p[0..0 + |o|] == o;
    assert OccursAt(p, o, 0);
    assert p[..|o|] == o;
    assert p[|o|..] == "s/a";
    assert ReplaceAll("s/a", o, n) == "s/a";
    assert ReplaceAll(p, o, n) == n + "s/a";
    assert n + "s/a" == "/i/dogs/a";
    assert !Under(p, o) by {
      assert (o + [Sep])[6] == '/' && p[6] == 's';
    }
    assert p != o;
  }

  /** The corrected rewrite is undone by renaming back: a path moved from
      `oldDir` to `newDir` returns to where it was, provided it did not lie at
      or below `newDir` already. */
  lemma {:induction false} MovedPathRoundTrip(p: string, oldDir: string, newDir: string)
    requires !Under(p, newDir) && p != newDir
    ensures MovedPath(MovedPath(p, oldDir, newDir), newDir, oldDir) == p
  {
    var q := MovedPath(p, oldDir, newDir);
    if p == oldDir {
      assert q == newDir;
    } else if Under(p, oldDir) {
      assert q == newDir + p[|oldDir|..];
      assert p[..|oldDir| + 1] == oldDir + [Sep];
      assert p[|oldDir|] == Sep;
      assert q[..|newDir| + 1] == newDir + [Sep];
      assert Under(q, newDir);
      assert q != newDir;
      assert q[|newDir|..] == p[|oldDir|..];
      assert oldDir + p[|oldDir|..] == p;
    } else {
      assert q == p;
    }
  }
}
