/**
 * What `prepare_lesson_html5_directory` does to a lesson's `assets` directory
 * before the page is patched: delete the assets the catalogue lists under
 * `remove_assets`, then shrink tall images.
 *
 * The file system is a map from path to entry kind. Paths are compared
 * literally, and a directory's contents are the paths that lie below it.
 */
module Assets {
  import opened Strings
  import opened Paths

  datatype Entry = FileEntry | DirEntry

  type FileSystem = map<string, Entry>

  /** `os.path.join(os.path.join(lesson_dir, "assets"), asset)`. */
  function AssetPath(lessonDir: string, asset: string): string {
    Join(Join(lessonDir, "assets"), asset)
  }

  /**
   * One `remove_assets` entry: a missing path is skipped, a file is removed
   * (`os.remove`), a directory is removed with everything below it (`shutil.rmtree`).
   */
  function RemovePath(fs: FileSystem, path: string): (r: FileSystem)
    ensures path !in r
    ensures forall q :: q in r ==> q in fs && r[q] == fs[q]
    ensures forall q :: q in fs ==>
      (q !in r <==> q == path || (path in fs && fs[path] == DirEntry && IsUnder(q, path)))
  {
    if path !in fs then fs
    else if fs[path] == FileEntry then fs - {path}
    else
      var r := map q | q in fs && q != path && !IsUnder(q, path) :: fs[q];
      assert fs[path] == DirEntry;
      assert forall q :: q in r <==> q in fs && q != path && !IsUnder(q, path);
      r
  }

  /** The loop over `remove_assets`, in list order. */
  function PruneAssets(fs: FileSystem, lessonDir: string, assets: seq<string>): (r: FileSystem)
    ensures forall q :: q in r ==> q in fs && r[q] == fs[q]
    decreases |assets|
  {
    if |assets| == 0 then fs
    else PruneAssets(RemovePath(fs, AssetPath(lessonDir, assets[0])), lessonDir, assets[1..])
  }

  /** Why a path is gone after pruning: it is listed, or lies below a listed directory. */
  ghost predicate Pruned(fs: FileSystem, lessonDir: string, assets: seq<string>, q: string) {
    exists k :: 0 <= k < |assets| &&
      (q == AssetPath(lessonDir, assets[k])
       || (AssetPath(lessonDir, assets[k]) in fs && fs[AssetPath(lessonDir, assets[k])] == DirEntry
           && IsUnder(q, AssetPath(lessonDir, assets[k]))))
  }

  /** No listed asset path is left, whether or not it existed. */
  lemma {:induction false} PruneAssetsRemovesListed(fs: FileSystem, lessonDir: string, assets: seq<string>)
    ensures forall k :: 0 <= k < |assets| ==> AssetPath(lessonDir, assets[k]) !in PruneAssets(fs, lessonDir, assets)
    decreases |assets|
  {
    if |assets| > 0 {
      var fs1 := RemovePath(fs, AssetPath(lessonDir, assets[0]));
      PruneAssetsRemovesListed(fs1, lessonDir, assets[1..]);
      forall k | 0 < k < |assets| ensures AssetPath(lessonDir, assets[k]) !in PruneAssets(fs, lessonDir, assets) {
        assert assets[k] == assets[1..][k - 1];
      }
    }
  }

  /**
   * A path of the original tree is gone afterwards exactly when it is listed or
   * lies below a listed path that was a directory: nothing else is touched.
   */
  lemma {:induction false} PruneAssetsExactly(fs: FileSystem, lessonDir: string, assets: seq<string>)
    ensures forall q :: q in fs ==> (q !in PruneAssets(fs, lessonDir, assets) <==> Pruned(fs, lessonDir, assets, q))
    decreases |assets|
  {
    if |assets| > 0 {
      var p0 := AssetPath(lessonDir, assets[0]);
      var fs1 := RemovePath(fs, p0);
      var rest := assets[1..];
      var r := PruneAssets(fs, lessonDir, assets);
      PruneAssetsExactly(fs1, lessonDir, rest);
      forall q | q in fs ensures q !in r <==> Pruned(fs, lessonDir, assets, q) {
        if q !in r {
          if q !in fs1 {
            assert q == AssetPath(lessonDir, assets[0]) || (p0 in fs && fs[p0] == DirEntry && IsUnder(q, p0));
          } else {
            var k :| 0 <= k < |rest| &&
              (q == AssetPath(lessonDir, rest[k])
               || (AssetPath(lessonDir, rest[k]) in fs1 && fs1[AssetPath(lessonDir, rest[k])] == DirEntry
                   && IsUnder(q, AssetPath(lessonDir, rest[k]))));
            assert rest[k] == assets[k + 1];
          }
        }
        if Pruned(fs, lessonDir, assets, q) && q in fs1 {
          var k :| 0 <= k < |assets| &&
            (q == AssetPath(lessonDir, assets[k])
             || (AssetPath(lessonDir, assets[k]) in fs && fs[AssetPath(lessonDir, assets[k])] == DirEntry
                 && IsUnder(q, AssetPath(lessonDir, assets[k]))));
          var pk := AssetPath(lessonDir, assets[k]);
          assert k > 0;
          assert assets[k] == rest[k - 1];
          if q != pk {
            if pk !in fs1 {
              if pk != p0 {
                IsUnderTrans(q, pk, p0);
              }
            }
            assert pk in fs1;
          }
          assert Pruned(fs1, lessonDir, rest, q);
        }
      }
    }
  }

  // ---------------------------------------------------------------------
  // Shrinking tall images
  // ---------------------------------------------------------------------

  /** The pixel size of an image file. */
  datatype Picture = Picture(width: nat, height: nat)

  /** The default `max_height` of `resize_images`. */
  const DefaultMaxHeight: nat := 640

  /** Only names ending in `.png` or `.jpg` are opened. */
  predicate IsImageName(name: string) {
    EndsWith(name, ".png") || EndsWith(name, ".jpg")
  }

  /**
   * The new size of an image taller than `maxHeight`: exactly `maxHeight` high,
   * with the width scaled by the same factor and rounded down.
   */
  function Shrink(p: Picture, maxHeight: nat): (q: Picture)
    requires p.height > maxHeight
    ensures q.height == maxHeight
    ensures q.width * p.height <= maxHeight * p.width < (q.width + 1) * p.height
  {
    Picture(maxHeight * p.width / p.height, maxHeight)
  }

  /**
   * The new width is zero exactly when the image is more than `maxHeight`
   * times taller than wide; the source then asks for a zero-width resize.
   */
  lemma ShrinkZeroWidth(p: Picture, maxHeight: nat)
    requires p.height > maxHeight
    ensures Shrink(p, maxHeight).width == 0 <==> maxHeight * p.width < p.height
  {
    var q := Shrink(p, maxHeight);
    if q.width > 0 {
      assert p.height <= q.width * p.height;
    }
  }

  /**
   * `resize_images(directory, max_height)` over the directory's listing, a map
   * from file name to picture size.
   */
  function ResizeImages(dir: map<string, Picture>, maxHeight: nat): (r: map<string, Picture>)
    ensures r.Keys == dir.Keys
    ensures forall n :: n in dir ==> (r[n] != dir[n] <==> IsImageName(n) && dir[n].height > maxHeight)
    ensures forall n :: n in dir && IsImageName(n) ==> r[n].height <= maxHeight
    ensures forall n :: n in dir && r[n] != dir[n] ==> r[n].height == maxHeight
  {
    map n | n in dir :: if IsImageName(n) && dir[n].height > maxHeight then Shrink(dir[n], maxHeight) else dir[n]
  }
}
