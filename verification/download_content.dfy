/**
 * `download_content`'s lesson loop: for every lesson of every course, build
 * the lesson's HTML5 directory unless it already exists (with the Storyline
 * kit variant for the `digital_enquirer_kit` course), then record the zip
 * made from that directory in the lesson's `zipfile` entry.
 *
 * The file system is a set of existing paths; building a directory adds it.
 * `create_predictable_zip` is a parameter `zipOf` from a lesson directory to
 * the path of its zip.
 */
module Download {
  import opened Wrappers
  import opened Catalogue

  /** The one course whose lessons are unpacked from Storyline archives. */
  const KitCourseDir: string := "digital_enquirer_kit"

  /** `prepare_lesson_html5_directory` or `copy_digital_enquirer_kit_files`. */
  datatype Variant = Html5 | Kit

  /** One directory build: the course directory, the lesson, and the variant used. */
  datatype Build = Build(courseDir: string, lesson: LessonSpec, variant: Variant)

  /** The lessons with their zip entries, the builds in order, and the paths existing afterwards. */
  datatype CourseOutcome = CourseOutcome(lessons: seq<LessonSpec>, builds: seq<Build>, existing: set<string>)

  datatype Outcome = Outcome(cat: Catalogue, builds: seq<Build>, existing: set<string>)

  /** Where a build writes. */
  function BuildDir(b: Build): string {
    LessonDir(b.courseDir, b.lesson.key)
  }

  /** A lesson after the loop: its `zipfile` entry names the zip of its directory. */
  function WithZip(lesson: LessonSpec, courseDir: string, zipOf: string -> string): LessonSpec {
    lesson.(zipFile := Some(zipOf(LessonDir(courseDir, lesson.key))))
  }

  /** The directories of a course's lessons. */
  function LessonDirs(courseDir: string, lessons: seq<LessonSpec>): set<string> {
    set j | 0 <= j < |lessons| :: LessonDir(courseDir, lessons[j].key)
  }

  /** The directories of all lessons of the catalogue. */
  function CatalogueDirs(cat: Catalogue): set<string> {
    set i, j | 0 <= i < |cat| && 0 <= j < |cat[i].lessons| :: LessonDir(CourseDir(cat[i].name), cat[i].lessons[j].key)
  }

  /** The directories a sequence of builds writes. */
  function BuildDirs(builds: seq<Build>): set<string> {
    set k | 0 <= k < |builds| :: BuildDir(builds[k])
  }

  /** No directory is built exactly when there is no build. */
  lemma BuildDirsEmpty(builds: seq<Build>)
    ensures BuildDirs(builds) == {} <==> builds == []
  {
    if builds != [] {
      assert BuildDir(builds[0]) in BuildDirs(builds);
    }
  }

  lemma LessonDirsCons(courseDir: string, lessons: seq<LessonSpec>)
    requires |lessons| > 0
    ensures LessonDirs(courseDir, lessons) == {LessonDir(courseDir, lessons[0].key)} + LessonDirs(courseDir, lessons[1..])
  {
    var dir := LessonDir(courseDir, lessons[0].key);
    forall d | d in LessonDirs(courseDir, lessons) ensures d in {dir} + LessonDirs(courseDir, lessons[1..]) {
      var j :| 0 <= j < |lessons| && d == LessonDir(courseDir, lessons[j].key);
      if j > 0 {
        assert lessons[j] == lessons[1..][j - 1];
      }
    }
    forall d | d in LessonDirs(courseDir, lessons[1..]) ensures d in LessonDirs(courseDir, lessons) {
      var j :| 0 <= j < |lessons[1..]| && d == LessonDir(courseDir, lessons[1..][j].key);
      assert lessons[1..][j] == lessons[j + 1];
    }
  }

  lemma BuildDirsAppend(a: seq<Build>, b: seq<Build>)
    ensures BuildDirs(a + b) == BuildDirs(a) + BuildDirs(b)
  {
    forall d | d in BuildDirs(a + b) ensures d in BuildDirs(a) + BuildDirs(b) {
      var k :| 0 <= k < |a + b| && d == BuildDir((a + b)[k]);
      if k >= |a| {
        assert (a + b)[k] == b[k - |a|];
      }
    }
    forall d | d in BuildDirs(a) ensures d in BuildDirs(a + b) {
      var k :| 0 <= k < |a| && d == BuildDir(a[k]);
      assert (a + b)[k] == a[k];
    }
    forall d | d in BuildDirs(b) ensures d in BuildDirs(a + b) {
      var k :| 0 <= k < |b| && d == BuildDir(b[k]);
      assert (a + b)[k + |a|] == b[k];
    }
  }

  /** The variant chosen for a course directory. */
  function VariantFor(courseDir: string): (v: Variant)
    ensures v == Kit <==> courseDir == KitCourseDir
  {
    if courseDir == KitCourseDir then Kit else Html5
  }

  /**
   * The inner loop over one course's lessons. Every lesson gets its zip
   * entry; a lesson whose directory does not exist yet is built first.
   */
  function PrepareLessons(existing: set<string>, courseDir: string, lessons: seq<LessonSpec>, zipOf: string -> string)
    : (o: CourseOutcome)
    ensures |o.lessons| == |lessons| && |o.builds| <= |lessons|
    decreases |lessons|
  {
    if |lessons| == 0 then CourseOutcome([], [], existing)
    else
      var dir := LessonDir(courseDir, lessons[0].key);
      var build := if dir in existing then [] else [Build(courseDir, lessons[0], VariantFor(courseDir))];
      var rest := PrepareLessons(existing + {dir}, courseDir, lessons[1..], zipOf);
      CourseOutcome([WithZip(lessons[0], courseDir, zipOf)] + rest.lessons, build + rest.builds, rest.existing)
  }

  /** The course loop, in catalogue order; the set of existing paths threads through it. */
  function PrepareCourses(existing: set<string>, cat: Catalogue, zipOf: string -> string): (o: Outcome)
    ensures |o.cat| == |cat|
    decreases |cat|
  {
    if |cat| == 0 then Outcome([], [], existing)
    else
      var c := PrepareLessons(existing, CourseDir(cat[0].name), cat[0].lessons, zipOf);
      var rest := PrepareCourses(c.existing, cat[1..], zipOf);
      Outcome([Course(cat[0].name, c.lessons)] + rest.cat, c.builds + rest.builds, rest.existing)
  }

  /** `download_content` after the Drive download and the unzipping, which `Staging` models. */
  function DownloadContent(existing: set<string>, cat: Catalogue, zipOf: string -> string): (o: Outcome)
    ensures AllZipped(o.cat)
  {
    PrepareCoursesZips(existing, cat, zipOf);
    PrepareCourses(existing, cat, zipOf)
  }

  /** The loop over a non-empty lesson list, one step unfolded. */
  lemma PrepareLessonsCons(existing: set<string>, courseDir: string, lessons: seq<LessonSpec>, zipOf: string -> string)
    requires |lessons| > 0
    ensures var dir := LessonDir(courseDir, lessons[0].key);
      PrepareLessons(existing, courseDir, lessons, zipOf).builds
      == (if dir in existing then [] else [Build(courseDir, lessons[0], VariantFor(courseDir))])
         + PrepareLessons(existing + {dir}, courseDir, lessons[1..], zipOf).builds
  {
  }

  /**
   * Every build of one course is for one of its lessons, with the course's
   * variant, into a directory that did not exist.
   */
  lemma {:induction false} PrepareLessonsBuildKinds(existing: set<string>, courseDir: string, lessons: seq<LessonSpec>,
                                                    zipOf: string -> string)
    ensures forall k :: 0 <= k < |PrepareLessons(existing, courseDir, lessons, zipOf).builds| ==>
      && PrepareLessons(existing, courseDir, lessons, zipOf).builds[k].courseDir == courseDir
      && PrepareLessons(existing, courseDir, lessons, zipOf).builds[k].variant == VariantFor(courseDir)
      && PrepareLessons(existing, courseDir, lessons, zipOf).builds[k].lesson in lessons
      && BuildDir(PrepareLessons(existing, courseDir, lessons, zipOf).builds[k]) !in existing
    decreases |lessons|
  {
    if |lessons| > 0 {
      var dir := LessonDir(courseDir, lessons[0].key);
      var build := if dir in existing then [] else [Build(courseDir, lessons[0], VariantFor(courseDir))];
      var rest := PrepareLessons(existing + {dir}, courseDir, lessons[1..], zipOf).builds;
      PrepareLessonsBuildKinds(existing + {dir}, courseDir, lessons[1..], zipOf);
      PrepareLessonsCons(existing, courseDir, lessons, zipOf);
      var bs := build + rest;
      forall k | 0 <= k < |bs|
        ensures bs[k].courseDir == courseDir && bs[k].variant == VariantFor(courseDir)
        ensures bs[k].lesson in lessons && BuildDir(bs[k]) !in existing
      {
        if k >= |build| {
          assert bs[k] == rest[k - |build|];
          assert bs[k].lesson in lessons[1..];
        }
      }
    }
  }

  /** No directory is built twice. */
  lemma {:induction false} PrepareLessonsBuildOnce(existing: set<string>, courseDir: string, lessons: seq<LessonSpec>,
                                                   zipOf: string -> string)
    ensures forall k, l :: 0 <= k < l < |PrepareLessons(existing, courseDir, lessons, zipOf).builds| ==>
      BuildDir(PrepareLessons(existing, courseDir, lessons, zipOf).builds[k])
      != BuildDir(PrepareLessons(existing, courseDir, lessons, zipOf).builds[l])
    decreases |lessons|
  {
    if |lessons| > 0 {
      var dir := LessonDir(courseDir, lessons[0].key);
      var build := if dir in existing then [] else [Build(courseDir, lessons[0], VariantFor(courseDir))];
      var rest := PrepareLessons(existing + {dir}, courseDir, lessons[1..], zipOf).builds;
      PrepareLessonsBuildOnce(existing + {dir}, courseDir, lessons[1..], zipOf);
      PrepareLessonsBuildDirs(existing + {dir}, courseDir, lessons[1..], zipOf);
      PrepareLessonsCons(existing, courseDir, lessons, zipOf);
      var bs := build + rest;
      forall k, l | 0 <= k < l < |bs| ensures BuildDir(bs[k]) != BuildDir(bs[l]) {
        assert bs[l] == rest[l - |build|];
        assert BuildDir(bs[l]) in BuildDirs(rest);
        if k >= |build| {
          assert bs[k] == rest[k - |build|];
        }
      }
    }
  }

  /** The directories built are exactly the course's lesson directories that did not exist. */
  lemma {:induction false} PrepareLessonsBuildDirs(existing: set<string>, courseDir: string, lessons: seq<LessonSpec>,
                                                   zipOf: string -> string)
    ensures BuildDirs(PrepareLessons(existing, courseDir, lessons, zipOf).builds) == LessonDirs(courseDir, lessons) - existing
    decreases |lessons|
  {
    if |lessons| > 0 {
      var dir := LessonDir(courseDir, lessons[0].key);
      var build := if dir in existing then [] else [Build(courseDir, lessons[0], VariantFor(courseDir))];
      var rest := PrepareLessons(existing + {dir}, courseDir, lessons[1..], zipOf).builds;
      PrepareLessonsBuildDirs(existing + {dir}, courseDir, lessons[1..], zipOf);
      PrepareLessonsCons(existing, courseDir, lessons, zipOf);
      LessonDirsCons(courseDir, lessons);
      BuildDirsAppend(build, rest);
      if dir !in existing {
        assert BuildDirs(build) == {dir} by {
          assert BuildDir(build[0]) == dir;
        }
      } else {
        assert BuildDirs(build) == {};
      }
    } else {
      assert LessonDirs(courseDir, lessons) == {};
    }
  }

  /** Every lesson keeps its fields and order and gains the zip of its directory. */
  lemma {:induction false} PrepareLessonsZips(existing: set<string>, courseDir: string, lessons: seq<LessonSpec>,
                                              zipOf: string -> string)
    ensures forall j :: 0 <= j < |lessons| ==>
      PrepareLessons(existing, courseDir, lessons, zipOf).lessons[j] == WithZip(lessons[j], courseDir, zipOf)
    decreases |lessons|
  {
    if |lessons| > 0 {
      var dir := LessonDir(courseDir, lessons[0].key);
      var rest := PrepareLessons(existing + {dir}, courseDir, lessons[1..], zipOf);
      PrepareLessonsZips(existing + {dir}, courseDir, lessons[1..], zipOf);
      var ls := [WithZip(lessons[0], courseDir, zipOf)] + rest.lessons;
      assert PrepareLessons(existing, courseDir, lessons, zipOf).lessons == ls;
      forall j | 0 < j < |lessons| ensures ls[j] == WithZip(lessons[j], courseDir, zipOf) {
        assert ls[j] == rest.lessons[j - 1] && lessons[j] == lessons[1..][j - 1];
      }
    }
  }

  /** Afterwards the course's lesson directories all exist, and nothing else was added. */
  lemma {:induction false} PrepareLessonsExisting(existing: set<string>, courseDir: string, lessons: seq<LessonSpec>,
                                                  zipOf: string -> string)
    ensures PrepareLessons(existing, courseDir, lessons, zipOf).existing == existing + LessonDirs(courseDir, lessons)
    decreases |lessons|
  {
    if |lessons| > 0 {
      var dir := LessonDir(courseDir, lessons[0].key);
      PrepareLessonsExisting(existing + {dir}, courseDir, lessons[1..], zipOf);
      LessonDirsCons(courseDir, lessons);
    } else {
      assert LessonDirs(courseDir, lessons) == {};
    }
  }

  /** Every course keeps its name and its lessons, each lesson gaining the zip of its directory. */
  lemma {:induction false} PrepareCoursesZips(existing: set<string>, cat: Catalogue, zipOf: string -> string)
    ensures forall i :: 0 <= i < |cat| ==>
      && PrepareCourses(existing, cat, zipOf).cat[i].name == cat[i].name
      && |PrepareCourses(existing, cat, zipOf).cat[i].lessons| == |cat[i].lessons|
    ensures forall i, j :: 0 <= i < |cat| && 0 <= j < |cat[i].lessons| ==>
      PrepareCourses(existing, cat, zipOf).cat[i].lessons[j] == WithZip(cat[i].lessons[j], CourseDir(cat[i].name), zipOf)
    decreases |cat|
  {
    if |cat| > 0 {
      var c := PrepareLessons(existing, CourseDir(cat[0].name), cat[0].lessons, zipOf);
      PrepareLessonsZips(existing, CourseDir(cat[0].name), cat[0].lessons, zipOf);
      var rest := PrepareCourses(c.existing, cat[1..], zipOf);
      PrepareCoursesZips(c.existing, cat[1..], zipOf);
      var cs := [Course(cat[0].name, c.lessons)] + rest.cat;
      assert PrepareCourses(existing, cat, zipOf).cat == cs;
      forall i | 0 < i < |cat| ensures cs[i] == rest.cat[i - 1] && cat[i] == cat[1..][i - 1] {
      }
    }
  }

  lemma CatalogueDirsCons(cat: Catalogue)
    requires |cat| > 0
    ensures CatalogueDirs(cat) == LessonDirs(CourseDir(cat[0].name), cat[0].lessons) + CatalogueDirs(cat[1..])
  {
    var head := LessonDirs(CourseDir(cat[0].name), cat[0].lessons);
    forall d | d in CatalogueDirs(cat) ensures d in head + CatalogueDirs(cat[1..]) {
      var i, j :| 0 <= i < |cat| && 0 <= j < |cat[i].lessons| && d == LessonDir(CourseDir(cat[i].name), cat[i].lessons[j].key);
      if i > 0 {
        assert cat[i] == cat[1..][i - 1];
      }
    }
    forall d | d in head ensures d in CatalogueDirs(cat) {
      var j :| 0 <= j < |cat[0].lessons| && d == LessonDir(CourseDir(cat[0].name), cat[0].lessons[j].key);
    }
    forall d | d in CatalogueDirs(cat[1..]) ensures d in CatalogueDirs(cat) {
      var i, j :| 0 <= i < |cat[1..]| && 0 <= j < |cat[1..][i].lessons|
        && d == LessonDir(CourseDir(cat[1..][i].name), cat[1..][i].lessons[j].key);
      assert cat[1..][i] == cat[i + 1];
    }
  }

  /** Afterwards every lesson directory of the catalogue exists, and nothing else was added. */
  lemma {:induction false} PrepareCoursesExisting(existing: set<string>, cat: Catalogue, zipOf: string -> string)
    ensures PrepareCourses(existing, cat, zipOf).existing == existing + CatalogueDirs(cat)
    decreases |cat|
  {
    if |cat| > 0 {
      var c := PrepareLessons(existing, CourseDir(cat[0].name), cat[0].lessons, zipOf);
      PrepareLessonsExisting(existing, CourseDir(cat[0].name), cat[0].lessons, zipOf);
      PrepareCoursesExisting(c.existing, cat[1..], zipOf);
      CatalogueDirsCons(cat);
    } else {
      assert CatalogueDirs(cat) == {};
    }
  }

  /**
   * Every build is for a lesson of some course, into that course's directory,
   * with the kit variant exactly when that directory is `digital_enquirer_kit`,
   * and into a directory that did not exist before.
   */
  lemma {:induction false} PrepareCoursesBuildKinds(existing: set<string>, cat: Catalogue, zipOf: string -> string)
    ensures forall k :: 0 <= k < |PrepareCourses(existing, cat, zipOf).builds| ==>
      && (PrepareCourses(existing, cat, zipOf).builds[k].variant == Kit
          <==> PrepareCourses(existing, cat, zipOf).builds[k].courseDir == KitCourseDir)
      && BuildDir(PrepareCourses(existing, cat, zipOf).builds[k]) !in existing
      && exists i :: 0 <= i < |cat| && PrepareCourses(existing, cat, zipOf).builds[k].courseDir == CourseDir(cat[i].name)
                     && PrepareCourses(existing, cat, zipOf).builds[k].lesson in cat[i].lessons
    decreases |cat|
  {
    if |cat| > 0 {
      var c := PrepareLessons(existing, CourseDir(cat[0].name), cat[0].lessons, zipOf);
      PrepareLessonsBuildKinds(existing, CourseDir(cat[0].name), cat[0].lessons, zipOf);
      PrepareLessonsExisting(existing, CourseDir(cat[0].name), cat[0].lessons, zipOf);
      var rest := PrepareCourses(c.existing, cat[1..], zipOf);
      PrepareCoursesBuildKinds(c.existing, cat[1..], zipOf);
      var bs := c.builds + rest.builds;
      assert PrepareCourses(existing, cat, zipOf).builds == bs;
      forall k | 0 <= k < |bs|
        ensures bs[k].variant == Kit <==> bs[k].courseDir == KitCourseDir
        ensures BuildDir(bs[k]) !in existing
        ensures exists i :: 0 <= i < |cat| && bs[k].courseDir == CourseDir(cat[i].name) && bs[k].lesson in cat[i].lessons
      {
        if k < |c.builds| {
          assert bs[k] == c.builds[k];
          assert bs[k].courseDir == CourseDir(cat[0].name) && bs[k].lesson in cat[0].lessons;
        } else {
          var b := rest.builds[k - |c.builds|];
          assert bs[k] == b;
          var i :| 0 <= i < |cat[1..]| && b.courseDir == CourseDir(cat[1..][i].name) && b.lesson in cat[1..][i].lessons;
          assert cat[1..][i] == cat[i + 1];
        }
      }
    }
  }

  /** The directories built are exactly the catalogue's lesson directories that did not exist. */
  lemma {:induction false} PrepareCoursesBuildDirs(existing: set<string>, cat: Catalogue, zipOf: string -> string)
    ensures BuildDirs(PrepareCourses(existing, cat, zipOf).builds) == CatalogueDirs(cat) - existing
    decreases |cat|
  {
    if |cat| > 0 {
      var c := PrepareLessons(existing, CourseDir(cat[0].name), cat[0].lessons, zipOf);
      PrepareLessonsBuildDirs(existing, CourseDir(cat[0].name), cat[0].lessons, zipOf);
      PrepareLessonsExisting(existing, CourseDir(cat[0].name), cat[0].lessons, zipOf);
      var rest := PrepareCourses(c.existing, cat[1..], zipOf);
      PrepareCoursesBuildDirs(c.existing, cat[1..], zipOf);
      BuildDirsAppend(c.builds, rest.builds);
      CatalogueDirsCons(cat);
    } else {
      assert CatalogueDirs(cat) == {};
    }
  }

  /** No directory is built twice over the whole catalogue. */
  lemma {:induction false} PrepareCoursesBuildOnce(existing: set<string>, cat: Catalogue, zipOf: string -> string)
    ensures forall k, l :: 0 <= k < l < |PrepareCourses(existing, cat, zipOf).builds| ==>
      BuildDir(PrepareCourses(existing, cat, zipOf).builds[k]) != BuildDir(PrepareCourses(existing, cat, zipOf).builds[l])
    decreases |cat|
  {
    if |cat| > 0 {
      var c := PrepareLessons(existing, CourseDir(cat[0].name), cat[0].lessons, zipOf);
      PrepareLessonsBuildOnce(existing, CourseDir(cat[0].name), cat[0].lessons, zipOf);
      PrepareLessonsBuildDirs(existing, CourseDir(cat[0].name), cat[0].lessons, zipOf);
      PrepareLessonsExisting(existing, CourseDir(cat[0].name), cat[0].lessons, zipOf);
      var rest := PrepareCourses(c.existing, cat[1..], zipOf);
      PrepareCoursesBuildOnce(c.existing, cat[1..], zipOf);
      PrepareCoursesBuildDirs(c.existing, cat[1..], zipOf);
      var bs := c.builds + rest.builds;
      assert PrepareCourses(existing, cat, zipOf).builds == bs;
      forall k, l | 0 <= k < l < |bs| ensures BuildDir(bs[k]) != BuildDir(bs[l]) {
        if l >= |c.builds| {
          assert bs[l] == rest.builds[l - |c.builds|];
          assert BuildDir(bs[l]) in BuildDirs(rest.builds);
          if k >= |c.builds| {
            assert bs[k] == rest.builds[k - |c.builds|];
          } else {
            assert bs[k] == c.builds[k];
            assert BuildDir(bs[k]) in BuildDirs(c.builds);
          }
        } else {
          assert bs[k] == c.builds[k] && bs[l] == c.builds[l];
        }
      }
    }
  }

  /** Recording the zip entries leaves the catalogue's lesson directories as they were. */
  lemma PrepareCoursesSameDirs(existing: set<string>, cat: Catalogue, zipOf: string -> string)
    ensures CatalogueDirs(PrepareCourses(existing, cat, zipOf).cat) == CatalogueDirs(cat)
  {
    var o := PrepareCourses(existing, cat, zipOf);
    PrepareCoursesZips(existing, cat, zipOf);
    forall d | d in CatalogueDirs(o.cat) ensures d in CatalogueDirs(cat) {
      var i, j :| 0 <= i < |o.cat| && 0 <= j < |o.cat[i].lessons|
        && d == LessonDir(CourseDir(o.cat[i].name), o.cat[i].lessons[j].key);
    }
    forall d | d in CatalogueDirs(cat) ensures d in CatalogueDirs(o.cat) {
      var i, j :| 0 <= i < |cat| && 0 <= j < |cat[i].lessons| && d == LessonDir(CourseDir(cat[i].name), cat[i].lessons[j].key);
      assert d == LessonDir(CourseDir(o.cat[i].name), o.cat[i].lessons[j].key);
    }
  }

  /** Running the loop over its own output catalogue changes no lesson. */
  lemma PrepareCoursesCatIdempotent(existing: set<string>, again: set<string>, cat: Catalogue, zipOf: string -> string)
    ensures PrepareCourses(again, PrepareCourses(existing, cat, zipOf).cat, zipOf).cat == PrepareCourses(existing, cat, zipOf).cat
  {
    var o := PrepareCourses(existing, cat, zipOf);
    var o2 := PrepareCourses(again, o.cat, zipOf);
    PrepareCoursesZips(existing, cat, zipOf);
    PrepareCoursesZips(again, o.cat, zipOf);
    forall i | 0 <= i < |cat| ensures o2.cat[i] == o.cat[i] {
      assert o2.cat[i].lessons == o.cat[i].lessons;
    }
  }

  /** When every lesson directory already exists, nothing is built and no path is created. */
  lemma PrepareCoursesAllExist(existing: set<string>, cat: Catalogue, zipOf: string -> string)
    requires CatalogueDirs(cat) <= existing
    ensures PrepareCourses(existing, cat, zipOf).builds == []
    ensures PrepareCourses(existing, cat, zipOf).existing == existing
  {
    var o := PrepareCourses(existing, cat, zipOf);
    PrepareCoursesExisting(existing, cat, zipOf);
    PrepareCoursesBuildDirs(existing, cat, zipOf);
    BuildDirsEmpty(o.builds);
  }

  /**
   * A second run of the loop over the first run's result builds nothing,
   * leaves the catalogue as it is and creates no path.
   */
  lemma DownloadContentIdempotent(existing: set<string>, cat: Catalogue, zipOf: string -> string)
    ensures var o := DownloadContent(existing, cat, zipOf);
      DownloadContent(o.existing, o.cat, zipOf) == o.(builds := [])
  {
    var o := PrepareCourses(existing, cat, zipOf);
    PrepareCoursesExisting(existing, cat, zipOf);
    PrepareCoursesSameDirs(existing, cat, zipOf);
    PrepareCoursesAllExist(o.existing, o.cat, zipOf);
    PrepareCoursesCatIdempotent(existing, o.existing, cat, zipOf);
  }
}
