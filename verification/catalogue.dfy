/**
 * The course catalogue read from `course_data.json` and the names the chef
 * derives from it: the course directory, the source ids of topics, sub-topics
 * and lesson leaves, lesson directories, and the naming of document nodes.
 */
module Catalogue {
  import opened Wrappers
  import opened Strings

  /**
   * One lesson entry: its key in the course's mapping, and the `title`, `file`,
   * `route` and `remove_assets` fields; `zipFile` is the `zipfile` entry that
   * `download_content` adds (absent until then).
   */
  datatype LessonSpec = LessonSpec(
    key: string,
    title: string,
    file: string,
    route: string,
    removeAssets: seq<string>,
    zipFile: Option<string>)

  /** A course and its lessons, in the catalogue's key order. */
  datatype Course = Course(name: string, lessons: seq<LessonSpec>)

  /** All courses, in the catalogue's key order. */
  type Catalogue = seq<Course>

  /** Every lesson of the catalogue carries a `zipfile` entry. */
  predicate AllZipped(cat: Catalogue) {
    forall i, j :: 0 <= i < |cat| && 0 <= j < |cat[i].lessons| ==> cat[i].lessons[j].zipFile.Some?
  }

  /**
   * `course.replace(" ", "_").replace("&", "").lower()`: the directory name of a
   * course, used both for the lesson directories and for the tree's source ids.
   * Each of the three steps rewrites single characters, so the name is computed
   * one character at a time; `CourseDirChain` shows this is the chain itself.
   */
  function CourseDir(course: string): (dir: string)
    ensures ' ' !in dir && '&' !in dir
    ensures |dir| <= |course|
    decreases |course|
  {
    if |course| == 0 then ""
    else if course[0] == '&' then CourseDir(course[1..])
    else [LowerChar(if course[0] == ' ' then '_' else course[0])] + CourseDir(course[1..])
  }

  /** The character-wise definition agrees with replacing, deleting and lowering in turn. */
  lemma {:induction false} CourseDirChain(course: string)
    ensures CourseDir(course) == Lower(DeleteChar(ReplaceChar(course, ' ', '_'), '&'))
    decreases |course|
  {
    if |course| > 0 {
      CourseDirChain(course[1..]);
      var u := ReplaceChar(course, ' ', '_');
      assert u == [u[0]] + ReplaceChar(course[1..], ' ', '_');
      assert u[1..] == ReplaceChar(course[1..], ' ', '_');
      var d := DeleteChar(u, '&');
      if course[0] != '&' {
        assert d == [u[0]] + DeleteChar(u[1..], '&');
        assert d[1..] == DeleteChar(u[1..], '&');
      }
    }
  }

  /**
   * A course directory has no space, no `&` and no upper-case ASCII letter,
   * and is shorter than the course name by the number of `&` in it.
   */
  lemma {:induction false} CourseDirSpec(course: string)
    ensures ' ' !in CourseDir(course) && '&' !in CourseDir(course)
    ensures forall i :: 0 <= i < |CourseDir(course)| ==> !('A' <= CourseDir(course)[i] <= 'Z')
    ensures |CourseDir(course)| == |course| - multiset(course)['&']
    decreases |course|
  {
    if |course| > 0 {
      CourseDirSpec(course[1..]);
      assert course == [course[0]] + course[1..];
      assert multiset(course) == multiset([course[0]]) + multiset(course[1..]);
      var dir := CourseDir(course);
      var rest := CourseDir(course[1..]);
      if course[0] != '&' {
        forall i | 0 <= i < |dir| ensures !('A' <= dir[i] <= 'Z') && dir[i] != ' ' && dir[i] != '&' {
          if i > 0 {
            assert dir[i] == rest[i - 1];
          }
        }
      }
    }
  }

  /** A name with no space, `&` or upper-case ASCII letter is its own course directory. */
  lemma {:induction false} CourseDirFixed(s: string)
    requires ' ' !in s && '&' !in s
    requires forall i :: 0 <= i < |s| ==> !('A' <= s[i] <= 'Z')
    ensures CourseDir(s) == s
    decreases |s|
  {
    if |s| > 0 {
      assert forall i :: 0 <= i < |s[1..]| ==> s[1..][i] == s[i + 1];
      CourseDirFixed(s[1..]);
      assert s == [s[0]] + s[1..];
    }
  }

  /** Normalising a course directory name a second time changes nothing. */
  lemma CourseDirIdempotent(course: string)
    ensures CourseDir(CourseDir(course)) == CourseDir(course)
  {
    CourseDirSpec(course);
    CourseDirFixed(CourseDir(course));
  }

  /** Source id of a course's topic node. */
  function TopicSourceId(courseDir: string): (id: string)
    ensures courseDir <= id && EndsWith(id, "_id")
  {
    courseDir + "_id"
  }

  /** Source id of a module sub-topic: spaces become `_` throughout. */
  function SubTopicSourceId(moduleName: string, courseDir: string): (id: string)
    ensures ' ' !in id
    ensures |id| == |moduleName| + |courseDir| + 4
  {
    ReplaceChar(moduleName + "_" + courseDir + "_id", ' ', '_')
  }

  /** Source id of a lesson's HTML5 leaf: spaces become `_` in the lesson key only. */
  function LeafSourceId(courseDir: string, lessonKey: string): (id: string)
    ensures courseDir + "_" <= id && EndsWith(id, "_id")
    ensures |id| == |courseDir| + |lessonKey| + 4
  {
    courseDir + "_" + ReplaceChar(lessonKey, ' ', '_') + "_id"
  }

  /** A sub-topic id is the module name and the course directory, each with spaces replaced. */
  lemma SubTopicSourceIdParts(moduleName: string, courseDir: string)
    ensures SubTopicSourceId(moduleName, courseDir)
         == ReplaceChar(moduleName, ' ', '_') + "_" + ReplaceChar(courseDir, ' ', '_') + "_id"
    ensures ' ' !in SubTopicSourceId(moduleName, courseDir)
  {
    var a := moduleName + "_";
    var ab := a + courseDir;
    ReplaceCharAppend(ab, "_id", ' ', '_');
    ReplaceCharAppend(a, courseDir, ' ', '_');
    ReplaceCharAppend(moduleName, "_", ' ', '_');
    assert ReplaceChar("_", ' ', '_') == "_";
    assert ReplaceChar("_id", ' ', '_') == "_id";
    var r := SubTopicSourceId(moduleName, courseDir);
    assert forall i :: 0 <= i < |r| ==> r[i] != ' ';
  }

  /** Leaf source ids built from a course directory contain no space and end in `_id`. */
  lemma LeafSourceIdShape(course: string, lessonKey: string)
    ensures ' ' !in LeafSourceId(CourseDir(course), lessonKey)
    ensures EndsWith(LeafSourceId(CourseDir(course), lessonKey), "_id")
    ensures CourseDir(course) + "_" <= LeafSourceId(CourseDir(course), lessonKey)
  {
    CourseDirSpec(course);
  }

  /** Distinct lesson keys may share a leaf source id: only spaces are rewritten. */
  lemma LeafSourceIdNotInjective()
    ensures LeafSourceId("c", "a b") == LeafSourceId("c", "a_b")
  {
    assert ReplaceChar("a b", ' ', '_') == "a_b";
    assert ReplaceChar("a_b", ' ', '_') == "a_b";
  }

  /** A lesson belongs to a module when its title contains `Module` (case-sensitive). */
  predicate IsModuleLesson(title: string) {
    Contains(title, "Module")
  }

  /** `title.split(":")[0]`: the module a lesson title names. */
  function ModuleName(title: string): (m: string)
    ensures m <= title && ':' !in m
    ensures |m| < |title| ==> title[|m|] == ':'
  {
    SplitHeadChar(title, ':');
    SplitHead(title, ":")
  }

  /** The module name is the title up to its first `:`, or the whole title without one. */
  lemma ModuleNameSpec(title: string)
    ensures ModuleName(title) <= title
    ensures ':' !in ModuleName(title)
    ensures ':' !in title ==> ModuleName(title) == title
    ensures |ModuleName(title)| < |title| ==> title[|ModuleName(title)|] == ':'
  {
    if ':' !in title {
      ContainsIff(title, ":");
      forall i: nat ensures !OccursAt(title, ":", i) {
        if i + 1 <= |title| {
          assert title[i..i + 1][0] != ':';
        }
      }
      SplitHeadAbsent(title, ":");
    }
  }

  /** A title `pre:rest` whose `pre` has no colon names the module `pre`. */
  lemma ModuleNameBefore(pre: string, rest: string)
    requires ':' !in pre
    ensures ModuleName(pre + ":" + rest) == pre
  {
    var title := pre + ":" + rest;
    var m := ModuleName(title);
    ModuleNameSpec(title);
    assert forall i :: 0 <= i < |pre| ==> title[i] == pre[i] != ':';
    assert title[|pre|] == ':';
    assert |m| == |pre|;
    assert m == title[..|m|] == pre;
  }

  /** `f"chefdata/{course_dir}/{lesson}"`: where a lesson's HTML5 directory is built. */
  function LessonDir(courseDir: string, lessonKey: string): string {
    "chefdata/" + courseDir + "/" + lessonKey
  }

  /** The fields of the document node `build_doc_node` creates. */
  datatype DocNode = DocNode(sourceId: string, title: string, path: string)

  /**
   * `build_doc_node`: the unit is the lesson title before the first `" - "`,
   * the document name is `doc` with every `.pdf` removed.
   */
  function BuildDocNode(doc: string, lessonTitle: string, lessonFile: string): (node: DocNode)
    ensures ' ' !in node.sourceId && EndsWith(node.sourceId, "_id")
    ensures SplitHead(lessonTitle, " - ") + " forms: " <= node.title
    ensures EndsWith(node.path, "/scormcontent/assets/" + doc)
  {
    var unit := SplitHead(lessonTitle, " - ");
    var docName := ReplaceAll(doc, ".pdf", "");
    var node := DocNode(
      ReplaceChar(docName, ' ', '_') + "_id",
      unit + " forms: " + docName,
      "chefdata/" + lessonFile + "/scormcontent/assets/" + doc);
    assert node.path[|node.path| - |"/scormcontent/assets/" + doc|..] == "/scormcontent/assets/" + doc;
    node
  }

  /**
   * For a document named `base + ".pdf"` with no dot in `base`, the node is
   * named after `base` and titled with the lesson's unit.
   */
  lemma BuildDocNodeStripsPdf(base: string, lessonTitle: string, lessonFile: string)
    requires '.' !in base
    ensures BuildDocNode(base + ".pdf", lessonTitle, lessonFile).title
         == SplitHead(lessonTitle, " - ") + " forms: " + base
    ensures BuildDocNode(base + ".pdf", lessonTitle, lessonFile).sourceId
         == ReplaceChar(base, ' ', '_') + "_id"
  {
    ReplaceAllAfter(base, ".pdf", "", "");
    assert ReplaceAll("", ".pdf", "") == "";
    assert base + ".pdf" + "" == base + ".pdf";
    assert base + "" + "" == base;
  }

  /** The title of a lesson without `" - "` is its own unit. */
  lemma BuildDocNodeWholeTitle(doc: string, lessonTitle: string, lessonFile: string)
    requires !Contains(lessonTitle, " - ")
    ensures lessonTitle + " forms: " <= BuildDocNode(doc, lessonTitle, lessonFile).title
  {
    SplitHeadAbsent(lessonTitle, " - ");
  }
}
