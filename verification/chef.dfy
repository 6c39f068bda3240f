/**
 * The chef's run as far as this model follows it: `download_content` records a
 * zip for every lesson, then `construct_channel` builds the tree from the
 * updated catalogue.
 */
module Chef {
  import opened Wrappers
  import opened Catalogue
  import opened Download
  import opened ChannelTree

  /**
   * `download_content` followed by `construct_channel`. Because every lesson
   * has its `zipfile` entry by then, the construction cannot fail.
   */
  function RunChef(existing: set<string>, cat: Catalogue, zipOf: string -> string): (r: CatalogueWalk)
    ensures |r.topics| == |cat| && |r.placements| == |cat|
  {
    var o := DownloadContent(existing, cat, zipOf);
    PrepareCoursesZips(existing, cat, zipOf);
    ConstructChannel(o.cat).value
  }

  /**
   * Every lesson's leaf in the finished tree carries its title, its source id,
   * and the zip made from its own lesson directory.
   */
  lemma RunChefLeafZip(existing: set<string>, cat: Catalogue, zipOf: string -> string, i: nat, j: nat)
    requires i < |cat| && j < |cat[i].lessons|
    ensures j < |RunChef(existing, cat, zipOf).placements[i]|
    ensures var w := RunChef(existing, cat, zipOf);
      var leaf := w.placements[i][j].leaf;
      && leaf < |w.builder.store|
      && w.builder.store[leaf].kind == LeafKind(zipOf(LessonDir(CourseDir(cat[i].name), cat[i].lessons[j].key)))
      && w.builder.store[leaf].title == cat[i].lessons[j].title
      && w.builder.store[leaf].sourceId == LeafSourceId(CourseDir(cat[i].name), cat[i].lessons[j].key)
  {
    var o := DownloadContent(existing, cat, zipOf);
    PrepareCoursesZips(existing, cat, zipOf);
    var w := ConstructChannel(o.cat).value;
    assert o.cat[i].name == cat[i].name;
    ChannelLessonPlaced(o.cat, w, i, j);
  }
}
