/**
 * Staging the SCORM archives before the chef runs: `download_files` copies the
 * wanted items of a Drive folder listing into a local folder, skipping names
 * already present, and `unzip_scorm_files` extracts each `.zip` of `chefdata`
 * next to it, skipping archives whose directory already exists.
 *
 * The Drive listing is a parameter (the API call and the OAuth flow are not
 * modelled); the local file system is the path map of `Assets`.
 */
module Staging {
  import opened Strings
  import opened Paths
  import opened Assets

  /** One file of a Drive folder listing. */
  datatype DriveItem = DriveItem(id: string, name: string, mimeType: string)

  /** A download performed: the Drive file id and the local path written. */
  datatype Download = Download(fileId: string, target: string)

  /** Drive's mime type for folders, which are never downloaded. */
  const FolderMime: string := "application/vnd.google-apps.folder"

  /** The Drive folder `download_gdrive_files` lists. */
  const ScormFolderId: string := "1FyXSZXLbXReX-YKjFyIHc8Br_WkzzsnJ"

  /** The mime type `download_gdrive_files` asks for. */
  const ZipMime: string := "application/zip"

  /** The output folder `download_gdrive_files` uses; it is prefixed, not joined. */
  const ChefData: string := "chefdata/"

  /** An item the filter keeps: not a folder, and of exactly the requested mime type. */
  predicate Wanted(item: DriveItem, mimeType: string) {
    item.mimeType != FolderMime && item.mimeType == mimeType
  }

  /**
   * Item `j` is wanted and no earlier item is wanted under the same name: of
   * several same-named items, `download_file` fetches this one, and the later
   * ones find their path taken.
   */
  predicate FirstWanted(items: seq<DriveItem>, j: nat, mimeType: string)
    requires j < |items|
  {
    && Wanted(items[j], mimeType)
    && forall e :: 0 <= e < j ==> !(Wanted(items[e], mimeType) && items[e].name == items[j].name)
  }

  /** Download `d` fetches, into `folder + name`, the first wanted item of that name. */
  predicate FetchedFromFirst(d: Download, items: seq<DriveItem>, mimeType: string, folder: string) {
    exists j :: 0 <= j < |items| && FirstWanted(items, j, mimeType) && d == Download(items[j].id, folder + items[j].name)
  }

  /** Every local path the filter would write, by plain concatenation of folder and name. */
  function WantedTargets(items: seq<DriveItem>, mimeType: string, folder: string): set<string> {
    set k | 0 <= k < |items| && Wanted(items[k], mimeType) :: folder + items[k].name
  }

  /** The local paths of a sequence of downloads. */
  function Targets(downloads: seq<Download>): set<string> {
    set k | 0 <= k < |downloads| :: downloads[k].target
  }

  /** The wanted paths of a listing grow by at most one path per item. */
  lemma WantedTargetsSnoc(items: seq<DriveItem>, i: nat, mimeType: string, folder: string)
    requires i < |items|
    ensures WantedTargets(items[..i + 1], mimeType, folder)
         == WantedTargets(items[..i], mimeType, folder)
            + (if Wanted(items[i], mimeType) then {folder + items[i].name} else {})
  {
    var a := items[..i];
    var b := items[..i + 1];
    forall t | t in WantedTargets(b, mimeType, folder)
      ensures t in WantedTargets(a, mimeType, folder) || (Wanted(items[i], mimeType) && t == folder + items[i].name)
    {
      var k :| 0 <= k < |b| && Wanted(b[k], mimeType) && t == folder + b[k].name;
      if k < i {
        assert b[k] == a[k];
      }
    }
    forall t | t in WantedTargets(a, mimeType, folder) ensures t in WantedTargets(b, mimeType, folder) {
      var k :| 0 <= k < |a| && Wanted(a[k], mimeType) && t == folder + a[k].name;
      assert b[k] == a[k];
    }
    if Wanted(items[i], mimeType) {
      assert b[i] == items[i];
    }
  }

  /**
   * `download_files` over a listing `items`, starting from the paths that
   * already exist: each wanted item is written to `folder + name` unless that
   * path exists (`download_file`'s early return), so a name listed twice is
   * fetched once.
   */
  method DownloadFiles(existing: set<string>, items: seq<DriveItem>, mimeType: string, folder: string)
    returns (downloads: seq<Download>, files: set<string>)
    ensures files == existing + WantedTargets(items, mimeType, folder)
    ensures Targets(downloads) == WantedTargets(items, mimeType, folder) - existing
    ensures forall k :: 0 <= k < |downloads| ==> FetchedFromFirst(downloads[k], items, mimeType, folder)
    ensures forall k, l :: 0 <= k < l < |downloads| ==> downloads[k].target != downloads[l].target
    ensures forall j :: 0 <= j < |items| && FirstWanted(items, j, mimeType) && folder + items[j].name !in existing ==>
      Download(items[j].id, folder + items[j].name) in downloads
  {
    downloads := [];
    files := existing;
    for i := 0 to |items|
      invariant files == existing + WantedTargets(items[..i], mimeType, folder)
      invariant Targets(downloads) == WantedTargets(items[..i], mimeType, folder) - existing
      invariant forall k :: 0 <= k < |downloads| ==> FetchedFromFirst(downloads[k], items, mimeType, folder)
      invariant forall k, l :: 0 <= k < l < |downloads| ==> downloads[k].target != downloads[l].target
    {
      WantedTargetsSnoc(items, i, mimeType, folder);
      var item := items[i];
      if item.mimeType == FolderMime {
        continue;
      }
      if item.mimeType == mimeType {
        var target := folder + item.name;
        if target !in files {
          forall k | 0 <= k < |downloads| ensures downloads[k].target != target {
            assert downloads[k].target in Targets(downloads);
          }
          forall e | 0 <= e < i && Wanted(items[e], mimeType) ensures items[e].name != item.name {
            assert items[..i][e] == items[e];
            assert folder + items[e].name in WantedTargets(items[..i], mimeType, folder);
          }
          assert FirstWanted(items, i, mimeType);
          var d := Download(item.id, target);
          assert Targets(downloads + [d]) == Targets(downloads) + {target} by {
            assert (downloads + [d])[|downloads|] == d;
            forall k | 0 <= k < |downloads| ensures (downloads + [d])[k] == downloads[k] { }
          }
          assert FetchedFromFirst(d, items, mimeType, folder) by {
            assert d == Download(items[i].id, folder + items[i].name);
          }
          downloads := downloads + [d];
          files := files + {target};
        }
      }
    }
    assert items[..|items|] == items;
    forall j | 0 <= j < |items| && FirstWanted(items, j, mimeType) && folder + items[j].name !in existing
      ensures Download(items[j].id, folder + items[j].name) in downloads
    {
      var t := folder + items[j].name;
      assert t in WantedTargets(items, mimeType, folder);
      assert t in Targets(downloads);
      var k :| 0 <= k < |downloads| && downloads[k].target == t;
      var j' :| 0 <= j' < |items| && FirstWanted(items, j', mimeType)
                && downloads[k] == Download(items[j'].id, folder + items[j'].name);
      ConcatCancel(folder, items[j'].name, items[j].name);
      FirstWantedUnique(items, j, j', mimeType);
    }
  }

  /** Two first-wanted items with the same name are the same item. */
  lemma FirstWantedUnique(items: seq<DriveItem>, j: nat, j': nat, mimeType: string)
    requires j < |items| && j' < |items|
    requires FirstWanted(items, j, mimeType) && FirstWanted(items, j', mimeType)
    requires items[j].name == items[j'].name
    ensures j == j'
  {
  }

  /** A common prefix cancels. */
  lemma ConcatCancel(p: string, a: string, b: string)
    requires p + a == p + b
    ensures a == b
  {
    assert a == (p + a)[|p|..];
    assert b == (p + b)[|p|..];
  }

  /** No path is written exactly when there is no download. */
  lemma TargetsEmpty(downloads: seq<Download>)
    ensures Targets(downloads) == {} <==> downloads == []
  {
    if downloads != [] {
      assert downloads[0].target in Targets(downloads);
    }
  }

  /**
   * Running the download loop a second time over the same listing, from the
   * paths the first run left, downloads nothing and writes nothing.
   */
  method DownloadFilesTwice(existing: set<string>, items: seq<DriveItem>, mimeType: string, folder: string)
    returns (first: seq<Download>, again: seq<Download>, files: set<string>, filesAgain: set<string>)
    ensures files == existing + WantedTargets(items, mimeType, folder)
    ensures again == [] && filesAgain == files
  {
    first, files := DownloadFiles(existing, items, mimeType, folder);
    again, filesAgain := DownloadFiles(files, items, mimeType, folder);
    TargetsEmpty(again);
  }

  /**
   * `download_gdrive_files`: the zip archives of the SCORM folder's listing,
   * written under `chefdata/`.
   */
  method DownloadGdriveFiles(existing: set<string>, listing: seq<DriveItem>)
    returns (downloads: seq<Download>, files: set<string>)
    ensures files == existing + WantedTargets(listing, ZipMime, ChefData)
    ensures Targets(downloads) == WantedTargets(listing, ZipMime, ChefData) - existing
    ensures forall k :: 0 <= k < |downloads| ==> FetchedFromFirst(downloads[k], listing, ZipMime, ChefData)
    ensures forall k, l :: 0 <= k < l < |downloads| ==> downloads[k].target != downloads[l].target
    ensures forall k :: 0 <= k < |downloads| ==>
      downloads[k].target !in existing && ChefData <= downloads[k].target
    ensures forall j :: 0 <= j < |listing| && FirstWanted(listing, j, ZipMime) && ChefData + listing[j].name !in existing ==>
      Download(listing[j].id, ChefData + listing[j].name) in downloads
  {
    downloads, files := DownloadFiles(existing, listing, ZipMime, ChefData);
    forall k | 0 <= k < |downloads| ensures downloads[k].target !in existing && ChefData <= downloads[k].target {
      assert downloads[k].target in Targets(downloads);
    }
  }

  // ---------------------------------------------------------------------
  // Extracting the archives
  // ---------------------------------------------------------------------

  /** The directory the archives are listed in and extracted next to. */
  const ScormDir: string := "chefdata"

  /** `os.path.join("chefdata", f)`. */
  function ArchivePath(f: string): string {
    Join(ScormDir, f)
  }

  /** `os.path.splitext(file_path)[0]`: where an archive is extracted. */
  function ExtractTarget(f: string): (t: string)
    ensures t <= ArchivePath(f)
  {
    SplitExtRoot(ArchivePath(f))
  }

  /**
   * The target is the archive path cut at a dot of its last component, or the
   * whole path; a relative name keeps its target inside `chefdata/`.
   */
  lemma ExtractTargetShape(f: string)
    ensures var p, t := ArchivePath(f), ExtractTarget(f);
      && (t != p ==> p[|t|] == '.' && '/' !in p[|t|..])
      && (!(|f| > 0 && f[0] == '/') ==> "chefdata/" <= t)
  {
    var p := ArchivePath(f);
    if !(|f| > 0 && f[0] == '/') {
      assert p == "chefdata/" + f && p[8] == '/';
    }
  }

  /** A listed name that is a regular file ending in `.zip`. */
  predicate IsArchive(fs: FileSystem, f: string) {
    ArchivePath(f) in fs && fs[ArchivePath(f)] == FileEntry && EndsWith(f, ".zip")
  }

  /** The outcome of the extraction loop: the directories extracted into, in order, and the new tree. */
  datatype Unzipped = Unzipped(extracted: seq<string>, fs: FileSystem)

  /**
   * `unzip_scorm_files` over the listing `names` of `chefdata`: an archive is
   * extracted into its target unless that path already exists. The archive's
   * contents are not modelled; extraction creates the target directory.
   */
  function UnzipScorm(fs: FileSystem, names: seq<string>): (u: Unzipped)
    ensures forall p :: p in fs ==> p in u.fs && u.fs[p] == fs[p]
    decreases |names|
  {
    if |names| == 0 then Unzipped([], fs)
    else
      var f := names[0];
      if IsArchive(fs, f) && ExtractTarget(f) !in fs then
        var rest := UnzipScorm(fs[ExtractTarget(f) := DirEntry], names[1..]);
        Unzipped([ExtractTarget(f)] + rest.extracted, rest.fs)
      else UnzipScorm(fs, names[1..])
  }

  /** Creating a directory at a new path neither creates nor hides an archive. */
  lemma IsArchiveAfterExtract(fs: FileSystem, t: string, f: string)
    requires t !in fs
    ensures IsArchive(fs[t := DirEntry], f) <==> IsArchive(fs, f)
  {
  }

  /**
   * Every extraction is into a path that did not exist and is a directory
   * afterwards; the tree gains exactly the extracted paths.
   */
  lemma {:induction false} UnzipScormFresh(fs: FileSystem, names: seq<string>)
    ensures forall k :: 0 <= k < |UnzipScorm(fs, names).extracted| ==>
      && UnzipScorm(fs, names).extracted[k] !in fs
      && UnzipScorm(fs, names).extracted[k] in UnzipScorm(fs, names).fs
      && UnzipScorm(fs, names).fs[UnzipScorm(fs, names).extracted[k]] == DirEntry
    ensures forall p :: p in UnzipScorm(fs, names).fs ==> p in fs || p in UnzipScorm(fs, names).extracted
    decreases |names|
  {
    if |names| > 0 {
      var f := names[0];
      if IsArchive(fs, f) && ExtractTarget(f) !in fs {
        var fs1 := fs[ExtractTarget(f) := DirEntry];
        var rest := UnzipScorm(fs1, names[1..]);
        UnzipScormFresh(fs1, names[1..]);
        var u := Unzipped([ExtractTarget(f)] + rest.extracted, rest.fs);
        assert UnzipScorm(fs, names) == u;
        forall k | 0 < k < |u.extracted| ensures u.extracted[k] == rest.extracted[k - 1] { }
      } else {
        UnzipScormFresh(fs, names[1..]);
      }
    }
  }

  /** The targets of the listed names that are archives. */
  function ArchiveTargets(fs: FileSystem, names: seq<string>): set<string> {
    set j | 0 <= j < |names| && IsArchive(fs, names[j]) :: ExtractTarget(names[j])
  }

  /** Dropping the first name, or creating a directory at a new path, loses no archive target. */
  lemma ArchiveTargetsTail(fs: FileSystem, fs1: FileSystem, names: seq<string>, t: string)
    requires |names| > 0
    requires fs1 == fs || (t !in fs && fs1 == fs[t := DirEntry])
    ensures ArchiveTargets(fs1, names[1..]) <= ArchiveTargets(fs, names)
  {
    forall x | x in ArchiveTargets(fs1, names[1..]) ensures x in ArchiveTargets(fs, names) {
      var j :| 0 <= j < |names[1..]| && IsArchive(fs1, names[1..][j]) && x == ExtractTarget(names[1..][j]);
      assert names[1..][j] == names[j + 1];
      if fs1 != fs {
        IsArchiveAfterExtract(fs, t, names[j + 1]);
      }
    }
  }

  /** A path of a set, put in front of paths of that set, gives paths of that set. */
  lemma AllInCons(x: string, xs: seq<string>, s: set<string>)
    requires x in s
    requires forall k :: 0 <= k < |xs| ==> xs[k] in s
    ensures forall k :: 0 <= k < |[x] + xs| ==> ([x] + xs)[k] in s
  {
    forall k | 0 < k < |[x] + xs| ensures ([x] + xs)[k] == xs[k - 1] { }
  }

  /** Every extraction is into the target of a listed archive. */
  lemma {:induction false} UnzipScormSources(fs: FileSystem, names: seq<string>)
    ensures forall k :: 0 <= k < |UnzipScorm(fs, names).extracted| ==>
      UnzipScorm(fs, names).extracted[k] in ArchiveTargets(fs, names)
    decreases |names|
  {
    if |names| > 0 {
      var f := names[0];
      if IsArchive(fs, f) && ExtractTarget(f) !in fs {
        var fs1 := fs[ExtractTarget(f) := DirEntry];
        var rest := UnzipScorm(fs1, names[1..]);
        UnzipScormSources(fs1, names[1..]);
        ArchiveTargetsTail(fs, fs1, names, ExtractTarget(f));
        assert UnzipScorm(fs, names).extracted == [ExtractTarget(f)] + rest.extracted;
        assert ExtractTarget(names[0]) in ArchiveTargets(fs, names);
        AllInCons(ExtractTarget(f), rest.extracted, ArchiveTargets(fs, names));
      } else {
        UnzipScormSources(fs, names[1..]);
        ArchiveTargetsTail(fs, fs, names, f);
        assert UnzipScorm(fs, names) == UnzipScorm(fs, names[1..]);
      }
    }
  }

  /** No directory is extracted into twice. */
  lemma {:induction false} UnzipScormOnce(fs: FileSystem, names: seq<string>)
    ensures forall k, l :: 0 <= k < l < |UnzipScorm(fs, names).extracted| ==>
      UnzipScorm(fs, names).extracted[k] != UnzipScorm(fs, names).extracted[l]
    decreases |names|
  {
    if |names| > 0 {
      var f := names[0];
      if IsArchive(fs, f) && ExtractTarget(f) !in fs {
        var fs1 := fs[ExtractTarget(f) := DirEntry];
        var rest := UnzipScorm(fs1, names[1..]);
        UnzipScormOnce(fs1, names[1..]);
        UnzipScormFresh(fs1, names[1..]);
        var u := Unzipped([ExtractTarget(f)] + rest.extracted, rest.fs);
        assert UnzipScorm(fs, names) == u;
        forall k, l | 0 <= k < l < |u.extracted| ensures u.extracted[k] != u.extracted[l] {
          assert u.extracted[l] == rest.extracted[l - 1];
          if k > 0 {
            assert u.extracted[k] == rest.extracted[k - 1];
          }
        }
      } else {
        UnzipScormOnce(fs, names[1..]);
      }
    }
  }

  /** When every listed archive's target exists, nothing is extracted and the tree is unchanged. */
  lemma {:induction false} UnzipScormNothingToDo(fs: FileSystem, names: seq<string>)
    requires forall j :: 0 <= j < |names| && IsArchive(fs, names[j]) ==> ExtractTarget(names[j]) in fs
    ensures UnzipScorm(fs, names) == Unzipped([], fs)
    decreases |names|
  {
    if |names| > 0 {
      assert forall j :: 0 <= j < |names[1..]| ==> names[1..][j] == names[j + 1];
      UnzipScormNothingToDo(fs, names[1..]);
    }
  }

  /** Afterwards every listed archive's target exists, so a second run extracts nothing. */
  lemma {:induction false} UnzipScormTargetsExist(fs: FileSystem, names: seq<string>)
    ensures forall j :: 0 <= j < |names| && IsArchive(fs, names[j]) ==> ExtractTarget(names[j]) in UnzipScorm(fs, names).fs
    decreases |names|
  {
    if |names| > 0 {
      var f := names[0];
      if IsArchive(fs, f) && ExtractTarget(f) !in fs {
        var fs1 := fs[ExtractTarget(f) := DirEntry];
        UnzipScormTargetsExist(fs1, names[1..]);
        forall j | 0 < j < |names| && IsArchive(fs, names[j]) ensures ExtractTarget(names[j]) in UnzipScorm(fs, names).fs {
          assert names[1..][j - 1] == names[j];
          assert ArchivePath(names[j]) != ExtractTarget(f);
        }
      } else {
        UnzipScormTargetsExist(fs, names[1..]);
        forall j | 0 < j < |names| && IsArchive(fs, names[j]) ensures ExtractTarget(names[j]) in UnzipScorm(fs, names).fs {
          assert names[1..][j - 1] == names[j];
        }
      }
    }
  }

  /** A second run over the same listing extracts nothing and changes nothing. */
  lemma UnzipScormIdempotent(fs: FileSystem, names: seq<string>)
    ensures UnzipScorm(UnzipScorm(fs, names).fs, names) == Unzipped([], UnzipScorm(fs, names).fs)
  {
    var u := UnzipScorm(fs, names);
    UnzipScormFresh(fs, names);
    UnzipScormTargetsExist(fs, names);
    forall j | 0 <= j < |names| && IsArchive(u.fs, names[j]) ensures IsArchive(fs, names[j]) {
    }
    UnzipScormNothingToDo(u.fs, names);
  }

  /**
   * An archive `base.zip`, for a `base` without `/` holding some character other
   * than a dot, is extracted into `chefdata/base`.
   */
  lemma ExtractTargetStripsZip(base: string)
    requires '/' !in base
    requires exists i :: 0 <= i < |base| && base[i] != '.'
    ensures ExtractTarget(base + ".zip") == "chefdata/" + base
  {
    var f := base + ".zip";
    var p := ArchivePath(f);
    assert f[0] == base[0] != '/';
    assert p == "chefdata/" + base + ".zip";
    var n := |p|;
    assert forall j :: 9 <= j < 9 + |base| ==> p[j] == base[j - 9];
    assert p[n - 4..] == ".zip";
    RFindAt(p, '/', 8);
    RFindAt(p, '.', n - 4);
    var i :| 0 <= i < |base| && base[i] != '.';
    assert p[9 + i] != '.';
    assert HasNonDot(p, 9, n - 4);
    assert p[..n - 4] == "chefdata/" + base;
  }

  /**
   * A listed name `.zip` has no extension to strip: its target is the archive
   * itself, which exists, so it is never extracted.
   */
  lemma DotZipNeverExtracted(fs: FileSystem)
    ensures ExtractTarget(".zip") == ArchivePath(".zip")
    ensures UnzipScorm(fs, [".zip"]).extracted == []
  {
    var p := ArchivePath(".zip");
    assert p == "chefdata/.zip";
    RFindAt(p, '/', 8);
    RFindAt(p, '.', 9);
    assert !HasNonDot(p, 9, 9);
  }
}
