/**
 * `AtingiChef.construct_channel`: the walk over the catalogue that builds the
 * channel tree. Python nodes are shared references, so the tree is a node
 * store (node id = position in the store, children as id sequences) rather
 * than a value; one node can then be the child of two parents, as happens in
 * the source.
 */
module ChannelTree {
  import opened Wrappers
  import opened Strings
  import opened Catalogue

  type NodeId = nat

  /** The node classes the chef creates; a leaf wraps its lesson's zip file. */
  datatype Kind = ChannelKind | TopicKind | SubTopicKind | LeafKind(zipFile: string)

  datatype Node = Node(kind: Kind, sourceId: string, title: string, children: seq<NodeId>)

  /** Every node created so far; a new node gets the next free position. */
  type Store = seq<Node>

  /** The channel node returned by `get_channel`. */
  const Root: NodeId := 0
  const ChannelSourceId := "atingi"
  const ChannelTitle := "Learn with atingi"

  /** The walk's state: the node store and the variable `sub_topic_node`. */
  datatype Builder = Builder(store: Store, current: Option<NodeId>)

  /** Where one lesson's leaf went. */
  datatype Placement = Placement(leaf: NodeId, parent: NodeId)

  datatype Step = Step(builder: Builder, leaf: NodeId, parent: NodeId)
  datatype Walk = Walk(builder: Builder, placements: seq<Placement>)
  datatype CourseWalk = CourseWalk(builder: Builder, topic: NodeId, placements: seq<Placement>)
  datatype CatalogueWalk = CatalogueWalk(builder: Builder, topics: seq<NodeId>, placements: seq<seq<Placement>>)

  /** `lesson_data["zipfile"]` raises `KeyError` when a lesson was never packaged. */
  datatype TreeError = MissingZipFile

  /** The open sub-topic, if any, is a sub-topic node of the store. */
  predicate Valid(b: Builder) {
    b.current.Some? ==> b.current.value < |b.store| && b.store[b.current.value].kind == SubTopicKind
  }

  /** `t` keeps every node of `s` with the same kind, title and source id; children are only appended. */
  ghost predicate Extends(s: Store, t: Store) {
    && |s| <= |t|
    && forall id :: 0 <= id < |s| ==>
         && t[id].kind == s[id].kind
         && t[id].title == s[id].title
         && t[id].sourceId == s[id].sourceId
         && s[id].children <= t[id].children
  }

  lemma ExtendsTrans(s: Store, t: Store, u: Store)
    requires Extends(s, t) && Extends(t, u)
    ensures Extends(s, u)
  {
    forall id | 0 <= id < |s| ensures s[id].children <= u[id].children {
      assert s[id].children <= t[id].children <= u[id].children;
    }
  }

  /** `add_child`: append `child` to `parent`'s children. */
  function AddChild(store: Store, parent: NodeId, child: NodeId): (t: Store)
    requires parent < |store|
    ensures |t| == |store|
  {
    store[parent := store[parent].(children := store[parent].children + [child])]
  }

  predicate IsLeaf(store: Store, id: NodeId) {
    id < |store| && store[id].kind.LeafKind?
  }

  /** Children name existing nodes, and within every node's children leaves appear in increasing id order. */
  ghost predicate WellOrdered(store: Store) {
    && (forall id, k :: 0 <= id < |store| && 0 <= k < |store[id].children| ==> store[id].children[k] < |store|)
    && (forall id, i, j ::
          0 <= id < |store| && 0 <= i < j < |store[id].children|
          && IsLeaf(store, store[id].children[i]) && IsLeaf(store, store[id].children[j])
          ==> store[id].children[i] < store[id].children[j])
  }

  /** The facts about one lesson's leaf that the walk guarantees. */
  ghost predicate Placed(store: Store, topic: NodeId, courseDir: string, lesson: LessonSpec, p: Placement) {
    && p.leaf < |store| && p.parent < |store|
    && store[p.leaf].kind.LeafKind?
    && lesson.zipFile == Some(store[p.leaf].kind.zipFile)
    && store[p.leaf].title == lesson.title
    && store[p.leaf].sourceId == LeafSourceId(courseDir, lesson.key)
    && p.leaf in store[p.parent].children
    && (IsModuleLesson(lesson.title) ==>
          store[p.parent].kind == SubTopicKind && store[p.parent].title == ModuleName(lesson.title))
    && (!IsModuleLesson(lesson.title) ==> p.parent == topic)
  }

  lemma PlacedExtends(s: Store, t: Store, topic: NodeId, courseDir: string, lesson: LessonSpec, p: Placement)
    requires Placed(s, topic, courseDir, lesson, p) && Extends(s, t)
    ensures Placed(t, topic, courseDir, lesson, p)
  {
    var k :| 0 <= k < |s[p.parent].children| && s[p.parent].children[k] == p.leaf;
    assert t[p.parent].children[k] == p.leaf;
  }

  // ---------------------------------------------------------------------
  // One lesson
  // ---------------------------------------------------------------------

  /**
   * One iteration of the lesson loop. A module lesson reuses the open
   * sub-topic when its title is the lesson's module name; otherwise the open
   * sub-topic (if any) is attached to the topic and a new one is opened. A
   * lesson without `Module` in its title only clears the open sub-topic,
   * without attaching it anywhere. The lesson's leaf then goes to the open
   * sub-topic, or to the topic when there is none.
   */
  function PlaceLesson(b: Builder, topic: NodeId, courseDir: string, lesson: LessonSpec): (r: Step)
    requires Valid(b) && topic < |b.store|
    requires lesson.zipFile.Some?
    ensures Valid(r.builder)
    ensures |b.store| <= r.leaf < |r.builder.store| && r.parent < |r.builder.store|
  {
    AttachLeaf(OpenSubTopic(b, topic, courseDir, lesson.title), topic, courseDir, lesson)
  }

  /** The `if "Module" in title` part of the loop body: which sub-topic is open afterwards. */
  function OpenSubTopic(b: Builder, topic: NodeId, courseDir: string, title: string): (b1: Builder)
    requires Valid(b) && topic < |b.store|
    ensures Valid(b1) && |b.store| <= |b1.store|
  {
    if IsModuleLesson(title) then
      var moduleName := ModuleName(title);
      if b.current.None? || b.store[b.current.value].title != moduleName then
        OpenNew(b, topic, courseDir, moduleName,
                b.current.Some? && b.store[b.current.value].title != moduleName)
      else b
    else b.(current := None)
  }

  /**
   * Open a new sub-topic for `moduleName`, first attaching the open one to the
   * topic when `attachOpen` holds.
   */
  function OpenNew(b: Builder, topic: NodeId, courseDir: string, moduleName: string, attachOpen: bool): (b1: Builder)
    requires Valid(b) && topic < |b.store|
    requires attachOpen ==> b.current.Some?
    ensures Valid(b1) && |b1.store| == |b.store| + 1
    ensures b1.current == Some(|b.store|)
    ensures b1.store[|b.store|] == Node(SubTopicKind, SubTopicSourceId(moduleName, courseDir), moduleName, [])
    ensures b1.store[topic].children == b.store[topic].children + (if attachOpen then [b.current.value] else [])
  {
    var store0 := if attachOpen then AddChild(b.store, topic, b.current.value) else b.store;
    var sub := Node(SubTopicKind, SubTopicSourceId(moduleName, courseDir), moduleName, []);
    Builder(store0 + [sub], Some(|b.store|))
  }

  /** The end of the loop body: the lesson's leaf goes to the open sub-topic, else to the topic. */
  function AttachLeaf(b: Builder, topic: NodeId, courseDir: string, lesson: LessonSpec): (r: Step)
    requires Valid(b) && topic < |b.store| && lesson.zipFile.Some?
    ensures Valid(r.builder)
    ensures r.leaf == |b.store| && |r.builder.store| == |b.store| + 1 && r.builder.current == b.current
    ensures r.parent == (if b.current.Some? then b.current.value else topic)
    ensures r.builder.store[r.leaf]
         == Node(LeafKind(lesson.zipFile.value), LeafSourceId(courseDir, lesson.key), lesson.title, [])
    ensures r.builder.store[r.parent].children == b.store[r.parent].children + [r.leaf]
  {
    var leaf := Node(LeafKind(lesson.zipFile.value), LeafSourceId(courseDir, lesson.key), lesson.title, []);
    var parent := if b.current.Some? then b.current.value else topic;
    Step(Builder(AddChild(b.store + [leaf], parent, |b.store|), b.current), |b.store|, parent)
  }

  /**
   * The three outcomes of the `if "Module" in title` part: a lesson outside
   * any module closes the open sub-topic and touches no node; a lesson of the
   * open sub-topic's module keeps everything; a lesson of another module
   * attaches the open sub-topic, if any, to the topic and opens a fresh one.
   */
  lemma OpenSubTopicCases(b: Builder, topic: NodeId, courseDir: string, title: string)
    requires Valid(b) && topic < |b.store|
    ensures !IsModuleLesson(title) ==>
      OpenSubTopic(b, topic, courseDir, title) == Builder(b.store, None)
    ensures IsModuleLesson(title) && b.current.Some? && b.store[b.current.value].title == ModuleName(title)
      ==> OpenSubTopic(b, topic, courseDir, title) == b
    ensures IsModuleLesson(title) && (b.current.None? || b.store[b.current.value].title != ModuleName(title))
      ==> var b1 := OpenSubTopic(b, topic, courseDir, title);
          && |b1.store| == |b.store| + 1 && b1.current == Some(|b.store|)
          && b1.store[|b.store|]
             == Node(SubTopicKind, SubTopicSourceId(ModuleName(title), courseDir), ModuleName(title), [])
          && b1.store[topic].children
             == b.store[topic].children + (if b.current.Some? then [b.current.value] else [])
          && (forall id :: 0 <= id < |b.store| && id != topic ==> b1.store[id] == b.store[id])
  {
  }

  /** Attaching a leaf changes no node already present other than its parent. */
  lemma AttachLeafFrame(b: Builder, topic: NodeId, courseDir: string, lesson: LessonSpec)
    requires Valid(b) && topic < |b.store| && lesson.zipFile.Some?
    ensures var r := AttachLeaf(b, topic, courseDir, lesson);
      forall id :: 0 <= id < |b.store| && id != r.parent ==> r.builder.store[id] == b.store[id]
  {
  }

  /** A lesson's leaf is a new node carrying the lesson's title, zip file and source id, placed as `Placed` says. */
  lemma PlaceLessonLeaf(b: Builder, topic: NodeId, courseDir: string, lesson: LessonSpec)
    requires Valid(b) && topic < |b.store|
    requires lesson.zipFile.Some?
    ensures var r := PlaceLesson(b, topic, courseDir, lesson);
      && r.builder.store[r.leaf]
         == Node(LeafKind(lesson.zipFile.value), LeafSourceId(courseDir, lesson.key), lesson.title, [])
      && Placed(r.builder.store, topic, courseDir, lesson, Placement(r.leaf, r.parent))
      && (IsModuleLesson(lesson.title) ==> r.builder.current == Some(r.parent))
      && (!IsModuleLesson(lesson.title) ==> r.builder.current.None?)
  {
    var b1 := OpenSubTopic(b, topic, courseDir, lesson.title);
    var r := AttachLeaf(b1, topic, courseDir, lesson);
    assert r.builder.store[r.parent].children[|r.builder.store[r.parent].children| - 1] == r.leaf;
  }

  /**
   * A lesson without `Module` in its title clears the open sub-topic without
   * attaching it anywhere and appends its leaf to the topic.
   */
  lemma PlaceLessonPlain(b: Builder, topic: NodeId, courseDir: string, lesson: LessonSpec)
    requires Valid(b) && topic < |b.store|
    requires lesson.zipFile.Some? && !IsModuleLesson(lesson.title)
    ensures var r := PlaceLesson(b, topic, courseDir, lesson);
      && r.parent == topic && r.builder.current.None?
      && r.leaf == |b.store| && |r.builder.store| == |b.store| + 1
      && r.builder.store[topic].children == b.store[topic].children + [r.leaf]
      && (forall id :: 0 <= id < |b.store| && id != topic ==> r.builder.store[id] == b.store[id])
  {
  }

  /** A module lesson whose module name is the open sub-topic's title reuses that node. */
  lemma PlaceLessonReuse(b: Builder, topic: NodeId, courseDir: string, lesson: LessonSpec)
    requires Valid(b) && topic < |b.store|
    requires lesson.zipFile.Some? && IsModuleLesson(lesson.title)
    requires b.current.Some? && b.store[b.current.value].title == ModuleName(lesson.title)
    ensures var r := PlaceLesson(b, topic, courseDir, lesson);
      && r.parent == b.current.value && r.builder.current == b.current
      && r.leaf == |b.store| && |r.builder.store| == |b.store| + 1
      && r.builder.store[r.parent].children == b.store[r.parent].children + [r.leaf]
      && (forall id :: 0 <= id < |b.store| && id != r.parent ==> r.builder.store[id] == b.store[id])
  {
  }

  /**
   * A module lesson with another module name (or no open sub-topic) first
   * attaches the open sub-topic, if any, to the topic, then opens a new
   * sub-topic titled with the module name whose only child is the leaf.
   */
  lemma PlaceLessonNewModule(b: Builder, topic: NodeId, courseDir: string, lesson: LessonSpec)
    requires Valid(b) && topic < |b.store|
    requires lesson.zipFile.Some? && IsModuleLesson(lesson.title)
    requires b.current.None? || b.store[b.current.value].title != ModuleName(lesson.title)
    ensures var r := PlaceLesson(b, topic, courseDir, lesson);
      && r.parent == |b.store| && r.leaf == |b.store| + 1 && |r.builder.store| == |b.store| + 2
      && r.builder.current == Some(r.parent)
      && r.builder.store[r.parent]
         == Node(SubTopicKind, SubTopicSourceId(ModuleName(lesson.title), courseDir),
                 ModuleName(lesson.title), [r.leaf])
      && r.builder.store[topic].children
         == b.store[topic].children + (if b.current.Some? then [b.current.value] else [])
      && (forall id :: 0 <= id < |b.store| && id != topic ==> r.builder.store[id] == b.store[id])
  {
    var b1 := OpenSubTopic(b, topic, courseDir, lesson.title);
    var r := AttachLeaf(b1, topic, courseDir, lesson);
    assert r.parent == |b.store|;
  }

  /** One lesson changes only the topic and sub-topic nodes among those already present. */
  lemma PlaceLessonFrame(b: Builder, topic: NodeId, courseDir: string, lesson: LessonSpec)
    requires Valid(b) && topic < |b.store|
    requires lesson.zipFile.Some?
    ensures var r := PlaceLesson(b, topic, courseDir, lesson);
      forall id :: 0 <= id < |b.store| && id != topic && b.store[id].kind != SubTopicKind
        ==> r.builder.store[id] == b.store[id]
  {
    if !IsModuleLesson(lesson.title) {
      PlaceLessonPlain(b, topic, courseDir, lesson);
    } else if b.current.Some? && b.store[b.current.value].title == ModuleName(lesson.title) {
      PlaceLessonReuse(b, topic, courseDir, lesson);
    } else {
      PlaceLessonNewModule(b, topic, courseDir, lesson);
    }
  }

  // ---------------------------------------------------------------------
  // One course
  // ---------------------------------------------------------------------

  /** Every lesson of the sequence has been packaged. */
  predicate LessonsZipped(lessons: seq<LessonSpec>) {
    forall j :: 0 <= j < |lessons| ==> lessons[j].zipFile.Some?
  }

  /** The lesson loop of one course, in catalogue order. */
  function PlaceLessons(b: Builder, topic: NodeId, courseDir: string, lessons: seq<LessonSpec>): (w: Walk)
    requires Valid(b) && topic < |b.store|
    requires LessonsZipped(lessons)
    ensures Valid(w.builder) && |b.store| <= |w.builder.store|
    ensures |w.placements| == |lessons|
    decreases |lessons|, 1
  {
    if |lessons| == 0 then Walk(b, []) else PlaceNextLesson(b, topic, courseDir, lessons)
  }

  /** Place the first lesson, then the rest. */
  function PlaceNextLesson(b: Builder, topic: NodeId, courseDir: string, lessons: seq<LessonSpec>): (w: Walk)
    requires Valid(b) && topic < |b.store|
    requires LessonsZipped(lessons) && |lessons| > 0
    ensures Valid(w.builder) && |b.store| <= |w.builder.store|
    ensures |w.placements| == |lessons|
    decreases |lessons|, 0
  {
    var s := PlaceLesson(b, topic, courseDir, lessons[0]);
    var w := PlaceLessons(s.builder, topic, courseDir, lessons[1..]);
    Walk(w.builder, [Placement(s.leaf, s.parent)] + w.placements)
  }

  /** The loop over a non-empty lesson list, one step unfolded. */
  lemma PlaceLessonsCons(b: Builder, topic: NodeId, courseDir: string, lessons: seq<LessonSpec>)
    requires Valid(b) && topic < |b.store|
    requires LessonsZipped(lessons) && |lessons| > 0
    ensures var s := PlaceLesson(b, topic, courseDir, lessons[0]);
      var w := PlaceLessons(s.builder, topic, courseDir, lessons[1..]);
      PlaceLessons(b, topic, courseDir, lessons) == Walk(w.builder, [Placement(s.leaf, s.parent)] + w.placements)
  {
  }

  /** Every lesson of a course ends up as `Placed` says. */
  lemma {:induction false} PlaceLessonsPlaced(b: Builder, topic: NodeId, courseDir: string, lessons: seq<LessonSpec>)
    requires Valid(b) && topic < |b.store|
    requires LessonsZipped(lessons)
    ensures var w := PlaceLessons(b, topic, courseDir, lessons);
      forall j :: 0 <= j < |lessons| ==> Placed(w.builder.store, topic, courseDir, lessons[j], w.placements[j])
    decreases |lessons|
  {
    if |lessons| > 0 {
      var s := PlaceLesson(b, topic, courseDir, lessons[0]);
      PlaceLessonLeaf(b, topic, courseDir, lessons[0]);
      var w := PlaceLessons(s.builder, topic, courseDir, lessons[1..]);
      PlaceLessonsPlaced(s.builder, topic, courseDir, lessons[1..]);
      PlaceLessonsExtends(s.builder, topic, courseDir, lessons[1..]);
      PlacedExtends(s.builder.store, w.builder.store, topic, courseDir, lessons[0], Placement(s.leaf, s.parent));
      var ps := [Placement(s.leaf, s.parent)] + w.placements;
      assert PlaceLessons(b, topic, courseDir, lessons) == Walk(w.builder, ps);
      forall j | 0 < j < |lessons| ensures Placed(w.builder.store, topic, courseDir, lessons[j], ps[j]) {
        assert lessons[j] == lessons[1..][j - 1];
        assert ps[j] == w.placements[j - 1];
      }
    }
  }

  /** A course's leaves are new nodes, allocated in catalogue order. */
  lemma {:induction false} PlaceLessonsRange(b: Builder, topic: NodeId, courseDir: string, lessons: seq<LessonSpec>)
    requires Valid(b) && topic < |b.store|
    requires LessonsZipped(lessons)
    ensures forall j :: 0 <= j < |lessons| ==>
      |b.store| <= PlaceLessons(b, topic, courseDir, lessons).placements[j].leaf
               < |PlaceLessons(b, topic, courseDir, lessons).builder.store|
    ensures forall j, k :: 0 <= j < k < |lessons| ==>
      PlaceLessons(b, topic, courseDir, lessons).placements[j].leaf
      < PlaceLessons(b, topic, courseDir, lessons).placements[k].leaf
    decreases |lessons|
  {
    if |lessons| > 0 {
      var s := PlaceLesson(b, topic, courseDir, lessons[0]);
      var w := PlaceLessons(s.builder, topic, courseDir, lessons[1..]);
      PlaceLessonsRange(s.builder, topic, courseDir, lessons[1..]);
      var ps := [Placement(s.leaf, s.parent)] + w.placements;
      assert PlaceLessons(b, topic, courseDir, lessons) == Walk(w.builder, ps);
      forall j | 0 < j < |lessons| ensures |s.builder.store| <= ps[j].leaf < |w.builder.store| {
        assert ps[j] == w.placements[j - 1];
      }
    }
  }

  /** Among the nodes present before a course's lessons, only the topic and sub-topics change. */
  lemma {:induction false} PlaceLessonsFrame(b: Builder, topic: NodeId, courseDir: string, lessons: seq<LessonSpec>)
    requires Valid(b) && topic < |b.store|
    requires LessonsZipped(lessons)
    ensures var w := PlaceLessons(b, topic, courseDir, lessons);
      forall id :: 0 <= id < |b.store| && id != topic && b.store[id].kind != SubTopicKind
        ==> w.builder.store[id] == b.store[id]
    decreases |lessons|
  {
    if |lessons| > 0 {
      var s := PlaceLesson(b, topic, courseDir, lessons[0]);
      PlaceLessonFrame(b, topic, courseDir, lessons[0]);
      PlaceLessonsFrame(s.builder, topic, courseDir, lessons[1..]);
    }
  }

  /**
   * The sub-topic left open after a course's lessons is decided by its last
   * lesson: that lesson's parent when it is a module lesson, none otherwise;
   * a course without lessons leaves the state untouched.
   */
  lemma {:induction false} PlaceLessonsOpen(b: Builder, topic: NodeId, courseDir: string, lessons: seq<LessonSpec>)
    requires Valid(b) && topic < |b.store|
    requires LessonsZipped(lessons)
    ensures var w := PlaceLessons(b, topic, courseDir, lessons);
      && (|lessons| == 0 ==> w.builder == b)
      && (|lessons| > 0 ==>
            w.builder.current == (if IsModuleLesson(lessons[|lessons| - 1].title)
                                  then Some(w.placements[|lessons| - 1].parent) else None))
    decreases |lessons|
  {
    if |lessons| > 0 {
      var s := PlaceLesson(b, topic, courseDir, lessons[0]);
      PlaceLessonLeaf(b, topic, courseDir, lessons[0]);
      var w := PlaceLessons(s.builder, topic, courseDir, lessons[1..]);
      PlaceLessonsOpen(s.builder, topic, courseDir, lessons[1..]);
      var ps := [Placement(s.leaf, s.parent)] + w.placements;
      assert PlaceLessons(b, topic, courseDir, lessons) == Walk(w.builder, ps);
      if |lessons| > 1 {
        assert lessons[|lessons| - 1] == lessons[1..][|lessons| - 2];
      }
    }
  }

  /**
   * One iteration of the course loop: create the course's topic, run its
   * lessons, attach the sub-topic still open (if any) to the topic, and
   * attach the topic to the channel. The open sub-topic is not reset, so it
   * carries over into the next course.
   */
  function PlaceCourse(b: Builder, course: Course): (c: CourseWalk)
    requires Valid(b) && Root < |b.store|
    requires LessonsZipped(course.lessons)
    ensures Valid(c.builder)
    ensures c.topic == |b.store| < |c.builder.store|
    ensures |c.placements| == |course.lessons|
  {
    var b1 := StartTopic(b, course);
    var w := PlaceLessons(b1, |b.store|, CourseDir(course.name), course.lessons);
    var b2 := FinishCourse(w.builder, |b.store|);
    CourseWalk(b2, |b.store|, w.placements)
  }

  /** `TopicNode(...)` for a course: a new node titled with the course name. */
  function StartTopic(b: Builder, course: Course): (b1: Builder)
    requires Valid(b)
    ensures Valid(b1) && b1.current == b.current
    ensures b1.store == b.store + [Node(TopicKind, TopicSourceId(CourseDir(course.name)), course.name, [])]
  {
    Builder(b.store + [Node(TopicKind, TopicSourceId(CourseDir(course.name)), course.name, [])], b.current)
  }

  /** The end of the course loop body: attach the open sub-topic, then the topic to the channel. */
  function FinishCourse(w: Builder, topic: NodeId): (b: Builder)
    requires Valid(w) && topic < |w.store| && Root != topic
    ensures Valid(b) && |b.store| == |w.store| && b.current == w.current
    ensures b.store[Root].children == w.store[Root].children + [topic]
    ensures b.store[topic].children
         == w.store[topic].children + (if w.current.Some? then [w.current.value] else [])
  {
    var store1 := if w.current.Some? then AddChild(w.store, topic, w.current.value) else w.store;
    Builder(AddChild(store1, Root, topic), w.current)
  }

  /** Closing a course keeps every node's kind, title and source id, and changes no children but the channel's and the topic's. */
  lemma FinishCourseFrame(w: Builder, topic: NodeId)
    requires Valid(w) && topic < |w.store| && Root != topic
    ensures var b := FinishCourse(w, topic);
      && b.store[Root].(children := []) == w.store[Root].(children := [])
      && b.store[topic].(children := []) == w.store[topic].(children := [])
      && forall id :: 0 <= id < |w.store| && id != Root && id != topic ==> b.store[id] == w.store[id]
  {
  }

  /** A course's topic is a new node titled with the course name and keyed by its course directory. */
  lemma PlaceCourseTopicNode(b: Builder, course: Course)
    requires Valid(b) && Root < |b.store| && LessonsZipped(course.lessons)
    ensures var c := PlaceCourse(b, course);
      c.builder.store[c.topic].(children := [])
      == Node(TopicKind, TopicSourceId(CourseDir(course.name)), course.name, [])
  {
    var b1 := StartTopic(b, course);
    var w := PlaceLessons(b1, |b.store|, CourseDir(course.name), course.lessons);
    PlaceLessonsExtends(b1, |b.store|, CourseDir(course.name), course.lessons);
    FinishCourseExtends(w.builder, |b.store|);
  }

  /** A course appends its topic, and only its topic, to the channel's children. */
  lemma PlaceCourseTopic(b: Builder, course: Course)
    requires Valid(b) && Root < |b.store| && b.store[Root].kind == ChannelKind
    requires LessonsZipped(course.lessons)
    ensures var c := PlaceCourse(b, course);
      c.builder.store[Root].children == b.store[Root].children + [c.topic]
  {
    var b1 := StartTopic(b, course);
    PlaceLessonsFrame(b1, |b.store|, CourseDir(course.name), course.lessons);
  }

  /** A course changes no node already present other than the channel and sub-topics. */
  lemma PlaceCourseFrame(b: Builder, course: Course)
    requires Valid(b) && Root < |b.store|
    requires LessonsZipped(course.lessons)
    ensures var c := PlaceCourse(b, course);
      forall id :: 0 <= id < |b.store| && id != Root && b.store[id].kind != SubTopicKind
        ==> c.builder.store[id] == b.store[id]
  {
    var b1 := StartTopic(b, course);
    PlaceLessonsFrame(b1, |b.store|, CourseDir(course.name), course.lessons);
    var w := PlaceLessons(b1, |b.store|, CourseDir(course.name), course.lessons);
    var c := PlaceCourse(b, course);
    forall id | 0 <= id < |b.store| && id != Root && b.store[id].kind != SubTopicKind
      ensures c.builder.store[id] == b.store[id]
    {
      assert b1.store[id] == b.store[id];
      assert w.builder.store[id] == b1.store[id];
    }
  }

  /**
   * The sub-topic still open after a course's last lesson becomes the
   * topic's last child and stays open for the next course: it is the last
   * lesson's parent when that lesson is a module lesson, none when it is
   * not, and the one carried in when the course has no lessons.
   */
  lemma PlaceCourseOpen(b: Builder, course: Course)
    requires Valid(b) && Root < |b.store|
    requires LessonsZipped(course.lessons)
    ensures var c := PlaceCourse(b, course);
      && (c.builder.current.Some? ==>
            && |c.builder.store[c.topic].children| > 0
            && c.builder.store[c.topic].children[|c.builder.store[c.topic].children| - 1] == c.builder.current.value)
      && (|course.lessons| == 0 ==> c.builder.current == b.current)
      && (|course.lessons| > 0 ==>
            c.builder.current == (if IsModuleLesson(course.lessons[|course.lessons| - 1].title)
                                  then Some(c.placements[|course.lessons| - 1].parent) else None))
  {
    var b1 := StartTopic(b, course);
    PlaceLessonsOpen(b1, |b.store|, CourseDir(course.name), course.lessons);
  }

  /** Every lesson of the course is placed under this course's topic as `Placed` says. */
  lemma PlaceCoursePlaced(b: Builder, course: Course)
    requires Valid(b) && Root < |b.store|
    requires LessonsZipped(course.lessons)
    ensures var c := PlaceCourse(b, course);
      forall j :: 0 <= j < |course.lessons| ==>
        Placed(c.builder.store, c.topic, CourseDir(course.name), course.lessons[j], c.placements[j])
  {
    var dir := CourseDir(course.name);
    var topic := |b.store|;
    var b1 := StartTopic(b, course);
    var w := PlaceLessons(b1, topic, dir, course.lessons);
    PlaceLessonsPlaced(b1, topic, dir, course.lessons);
    FinishCourseExtends(w.builder, topic);
    var c := PlaceCourse(b, course);
    forall j | 0 <= j < |course.lessons|
      ensures Placed(c.builder.store, c.topic, dir, course.lessons[j], c.placements[j])
    {
      PlacedExtends(w.builder.store, c.builder.store, topic, dir, course.lessons[j], w.placements[j]);
    }
  }

  /** A course's leaves are created after its topic, in catalogue order. */
  lemma PlaceCourseRange(b: Builder, course: Course)
    requires Valid(b) && Root < |b.store|
    requires LessonsZipped(course.lessons)
    ensures forall j :: 0 <= j < |course.lessons| ==>
      |b.store| < PlaceCourse(b, course).placements[j].leaf < |PlaceCourse(b, course).builder.store|
    ensures forall j, k :: 0 <= j < k < |course.lessons| ==>
      PlaceCourse(b, course).placements[j].leaf < PlaceCourse(b, course).placements[k].leaf
  {
    var b1 := StartTopic(b, course);
    PlaceLessonsRange(b1, |b.store|, CourseDir(course.name), course.lessons);
  }

  // ---------------------------------------------------------------------
  // The catalogue
  // ---------------------------------------------------------------------

  lemma AllZippedTail(cat: Catalogue)
    requires |cat| > 0 && AllZipped(cat)
    ensures LessonsZipped(cat[0].lessons) && AllZipped(cat[1..])
  {
    forall i, j | 0 <= i < |cat[1..]| && 0 <= j < |cat[1..][i].lessons|
      ensures cat[1..][i].lessons[j].zipFile.Some?
    {
      assert cat[1..][i] == cat[i + 1];
    }
  }

  /** The course loop, in catalogue order. */
  function PlaceCourses(b: Builder, cat: Catalogue): (r: CatalogueWalk)
    requires Valid(b) && Root < |b.store|
    requires AllZipped(cat)
    ensures Valid(r.builder) && |b.store| <= |r.builder.store|
    ensures |r.topics| == |cat| && |r.placements| == |cat|
    decreases |cat|
  {
    if |cat| == 0 then CatalogueWalk(b, [], [])
    else
      AllZippedTail(cat);
      var c := PlaceCourse(b, cat[0]);
      var rest := PlaceCourses(c.builder, cat[1..]);
      CatalogueWalk(rest.builder, [c.topic] + rest.topics, [c.placements] + rest.placements)
  }

  /** A channel holding no topics yet. */
  function InitialBuilder(): (b: Builder)
    ensures Valid(b) && Root < |b.store| && b.store[Root].kind == ChannelKind
  {
    Builder([Node(ChannelKind, ChannelSourceId, ChannelTitle, [])], None)
  }

  /**
   * `construct_channel`: the whole walk from an empty channel. It fails
   * exactly when some lesson lacks its `zipfile` entry (the `KeyError`).
   */
  function ConstructChannel(cat: Catalogue): (r: Result<CatalogueWalk, TreeError>)
    ensures r.Success? <==> AllZipped(cat)
    ensures r.Success? ==> |r.value.topics| == |cat| && |r.value.placements| == |cat|
    ensures r.Success? ==> Root < |r.value.builder.store| && r.value.builder.store[Root].kind == ChannelKind
  {
    if AllZipped(cat) then
      PlaceCoursesExtends(InitialBuilder(), cat);
      Success(PlaceCourses(InitialBuilder(), cat))
    else Failure(MissingZipFile)
  }

  // ---------------------------------------------------------------------
  // Nodes are never replaced: kinds, titles and source ids stay, children grow
  // ---------------------------------------------------------------------

  lemma AddChildExtends(store: Store, parent: NodeId, child: NodeId)
    requires parent < |store|
    ensures Extends(store, AddChild(store, parent, child))
  {
  }

  lemma AppendExtends(store: Store, n: Node)
    ensures Extends(store, store + [n])
  {
  }

  /** One lesson only appends nodes and children. */
  lemma PlaceLessonExtends(b: Builder, topic: NodeId, courseDir: string, lesson: LessonSpec)
    requires Valid(b) && topic < |b.store| && lesson.zipFile.Some?
    ensures Extends(b.store, PlaceLesson(b, topic, courseDir, lesson).builder.store)
  {
    var b1 := OpenSubTopic(b, topic, courseDir, lesson.title);
    if IsModuleLesson(lesson.title) && (b.current.None? || b.store[b.current.value].title != ModuleName(lesson.title)) {
      var store0 := if b.current.Some? then AddChild(b.store, topic, b.current.value) else b.store;
      if b.current.Some? {
        AddChildExtends(b.store, topic, b.current.value);
      }
      assert b1.store == store0 + [b1.store[|b.store|]];
      AppendExtends(store0, b1.store[|b.store|]);
      ExtendsTrans(b.store, store0, b1.store);
    }
    var leaf := Node(LeafKind(lesson.zipFile.value), LeafSourceId(courseDir, lesson.key), lesson.title, []);
    var parent := if b1.current.Some? then b1.current.value else topic;
    AppendExtends(b1.store, leaf);
    AddChildExtends(b1.store + [leaf], parent, |b1.store|);
    ExtendsTrans(b1.store, b1.store + [leaf], AddChild(b1.store + [leaf], parent, |b1.store|));
    ExtendsTrans(b.store, b1.store, AddChild(b1.store + [leaf], parent, |b1.store|));
  }

  lemma {:induction false} PlaceLessonsExtends(b: Builder, topic: NodeId, courseDir: string, lessons: seq<LessonSpec>)
    requires Valid(b) && topic < |b.store| && LessonsZipped(lessons)
    ensures Extends(b.store, PlaceLessons(b, topic, courseDir, lessons).builder.store)
    decreases |lessons|
  {
    if |lessons| > 0 {
      var s := PlaceLesson(b, topic, courseDir, lessons[0]);
      PlaceLessonExtends(b, topic, courseDir, lessons[0]);
      PlaceLessonsExtends(s.builder, topic, courseDir, lessons[1..]);
      ExtendsTrans(b.store, s.builder.store, PlaceLessons(s.builder, topic, courseDir, lessons[1..]).builder.store);
    }
  }

  lemma FinishCourseExtends(w: Builder, topic: NodeId)
    requires Valid(w) && topic < |w.store| && Root != topic
    ensures Extends(w.store, FinishCourse(w, topic).store)
  {
    var store1 := if w.current.Some? then AddChild(w.store, topic, w.current.value) else w.store;
    if w.current.Some? {
      AddChildExtends(w.store, topic, w.current.value);
    }
    AddChildExtends(store1, Root, topic);
    ExtendsTrans(w.store, store1, AddChild(store1, Root, topic));
  }

  lemma PlaceCourseExtends(b: Builder, course: Course)
    requires Valid(b) && Root < |b.store| && LessonsZipped(course.lessons)
    ensures Extends(b.store, PlaceCourse(b, course).builder.store)
  {
    var b1 := StartTopic(b, course);
    var w := PlaceLessons(b1, |b.store|, CourseDir(course.name), course.lessons);
    AppendExtends(b.store, b1.store[|b.store|]);
    PlaceLessonsExtends(b1, |b.store|, CourseDir(course.name), course.lessons);
    FinishCourseExtends(w.builder, |b.store|);
    ExtendsTrans(b.store, b1.store, w.builder.store);
    ExtendsTrans(b.store, w.builder.store, FinishCourse(w.builder, |b.store|).store);
  }

  lemma {:induction false} PlaceCoursesExtends(b: Builder, cat: Catalogue)
    requires Valid(b) && Root < |b.store| && AllZipped(cat)
    ensures Extends(b.store, PlaceCourses(b, cat).builder.store)
    decreases |cat|
  {
    if |cat| > 0 {
      AllZippedTail(cat);
      var c := PlaceCourse(b, cat[0]);
      PlaceCourseExtends(b, cat[0]);
      PlaceCoursesExtends(c.builder, cat[1..]);
      ExtendsTrans(b.store, c.builder.store, PlaceCourses(c.builder, cat[1..]).builder.store);
    }
  }

  // ---------------------------------------------------------------------
  // Leaf order within every node
  // ---------------------------------------------------------------------

  /** Adding a node without children keeps the store well ordered. */
  lemma AddChildlessWellOrdered(store: Store, n: Node)
    requires WellOrdered(store) && n.children == []
    ensures WellOrdered(store + [n])
  {
    var t := store + [n];
    forall id, i, j | 0 <= id < |t| && 0 <= i < j < |t[id].children|
        && IsLeaf(t, t[id].children[i]) && IsLeaf(t, t[id].children[j])
      ensures t[id].children[i] < t[id].children[j]
    {
      assert t[id] == store[id];
    }
  }

  /** Appending a node that is not a leaf to some children keeps the store well ordered. */
  lemma AddNonLeafWellOrdered(store: Store, parent: NodeId, child: NodeId)
    requires WellOrdered(store) && parent < |store| && child < |store| && !IsLeaf(store, child)
    ensures WellOrdered(AddChild(store, parent, child))
  {
    var t := AddChild(store, parent, child);
    forall id, i, j | 0 <= id < |t| && 0 <= i < j < |t[id].children|
        && IsLeaf(t, t[id].children[i]) && IsLeaf(t, t[id].children[j])
      ensures t[id].children[i] < t[id].children[j]
    {
      if id == parent {
        assert t[id].children[i] == store[id].children[i];
        assert j < |store[id].children|;
      }
    }
  }

  /** Appending a new leaf, whose id exceeds every existing one, keeps the store well ordered. */
  lemma AddNewLeafWellOrdered(store: Store, parent: NodeId, leaf: Node)
    requires WellOrdered(store) && parent < |store| && leaf.children == []
    ensures WellOrdered(AddChild(store + [leaf], parent, |store|))
  {
    AddChildlessWellOrdered(store, leaf);
    var s1 := store + [leaf];
    var t := AddChild(s1, parent, |store|);
    forall id, k | 0 <= id < |t| && 0 <= k < |t[id].children| ensures t[id].children[k] < |t| {
      if id != parent || k < |s1[id].children| {
        assert t[id].children[k] == s1[id].children[k];
      }
    }
    forall id, i, j | 0 <= id < |t| && 0 <= i < j < |t[id].children|
        && IsLeaf(t, t[id].children[i]) && IsLeaf(t, t[id].children[j])
      ensures t[id].children[i] < t[id].children[j]
    {
      if id == parent {
        assert t[id].children[i] == s1[id].children[i] < |store|;
      }
    }
  }

  /** One lesson keeps the store well ordered. */
  lemma PlaceLessonWellOrdered(b: Builder, topic: NodeId, courseDir: string, lesson: LessonSpec)
    requires Valid(b) && topic < |b.store|
    requires lesson.zipFile.Some? && WellOrdered(b.store)
    ensures WellOrdered(PlaceLesson(b, topic, courseDir, lesson).builder.store)
  {
    var b1 := OpenSubTopic(b, topic, courseDir, lesson.title);
    if b1 != b && IsModuleLesson(lesson.title) {
      var moduleName := ModuleName(lesson.title);
      var attachOpen := b.current.Some? && b.store[b.current.value].title != moduleName;
      var store0 := if attachOpen then AddChild(b.store, topic, b.current.value) else b.store;
      if attachOpen {
        AddNonLeafWellOrdered(b.store, topic, b.current.value);
      }
      AddChildlessWellOrdered(store0, Node(SubTopicKind, SubTopicSourceId(moduleName, courseDir), moduleName, []));
    }
    var leaf := Node(LeafKind(lesson.zipFile.value), LeafSourceId(courseDir, lesson.key), lesson.title, []);
    AddNewLeafWellOrdered(b1.store, if b1.current.Some? then b1.current.value else topic, leaf);
  }

  lemma {:induction false} PlaceLessonsWellOrdered(b: Builder, topic: NodeId, courseDir: string, lessons: seq<LessonSpec>)
    requires Valid(b) && topic < |b.store|
    requires LessonsZipped(lessons) && WellOrdered(b.store)
    ensures WellOrdered(PlaceLessons(b, topic, courseDir, lessons).builder.store)
    decreases |lessons|
  {
    if |lessons| > 0 {
      PlaceLessonWellOrdered(b, topic, courseDir, lessons[0]);
      var s := PlaceLesson(b, topic, courseDir, lessons[0]);
      PlaceLessonsWellOrdered(s.builder, topic, courseDir, lessons[1..]);
    }
  }

  lemma PlaceCourseWellOrdered(b: Builder, course: Course)
    requires Valid(b) && Root < |b.store|
    requires LessonsZipped(course.lessons) && WellOrdered(b.store)
    ensures WellOrdered(PlaceCourse(b, course).builder.store)
  {
    var b1 := StartTopic(b, course);
    AddChildlessWellOrdered(b.store, Node(TopicKind, TopicSourceId(CourseDir(course.name)), course.name, []));
    PlaceLessonsWellOrdered(b1, |b.store|, CourseDir(course.name), course.lessons);
    var w := PlaceLessons(b1, |b.store|, CourseDir(course.name), course.lessons);
    var store1 := if w.builder.current.Some? then AddChild(w.builder.store, |b.store|, w.builder.current.value)
                  else w.builder.store;
    if w.builder.current.Some? {
      AddNonLeafWellOrdered(w.builder.store, |b.store|, w.builder.current.value);
    }
    PlaceLessonsExtends(b1, |b.store|, CourseDir(course.name), course.lessons);
    assert store1[|b.store|].kind == TopicKind;
    AddNonLeafWellOrdered(store1, Root, |b.store|);
  }

  lemma {:induction false} PlaceCoursesWellOrdered(b: Builder, cat: Catalogue)
    requires Valid(b) && Root < |b.store|
    requires AllZipped(cat) && WellOrdered(b.store)
    ensures WellOrdered(PlaceCourses(b, cat).builder.store)
    decreases |cat|
  {
    if |cat| > 0 {
      AllZippedTail(cat);
      PlaceCourseWellOrdered(b, cat[0]);
      PlaceCoursesWellOrdered(PlaceCourse(b, cat[0]).builder, cat[1..]);
    }
  }

  // ---------------------------------------------------------------------
  // Properties of the course loop
  // ---------------------------------------------------------------------

  /** One placement list per course, one placement per lesson. */
  lemma {:induction false} PlaceCoursesShape(b: Builder, cat: Catalogue)
    requires Valid(b) && Root < |b.store|
    requires AllZipped(cat)
    ensures forall i :: 0 <= i < |cat| ==> |PlaceCourses(b, cat).placements[i]| == |cat[i].lessons|
    decreases |cat|
  {
    if |cat| > 0 {
      AllZippedTail(cat);
      var c := PlaceCourse(b, cat[0]);
      var rest := PlaceCourses(c.builder, cat[1..]);
      PlaceCoursesShape(c.builder, cat[1..]);
      var ps := [c.placements] + rest.placements;
      assert PlaceCourses(b, cat).placements == ps;
      forall i | 0 <= i < |cat| ensures |ps[i]| == |cat[i].lessons| {
        if i > 0 {
          assert ps[i] == rest.placements[i - 1];
          assert cat[i] == cat[1..][i - 1];
        }
      }
    }
  }

  /** The channel's new children are exactly the courses' topics, in catalogue order. */
  lemma {:induction false} PlaceCoursesRoot(b: Builder, cat: Catalogue)
    requires Valid(b) && Root < |b.store| && b.store[Root].kind == ChannelKind
    requires AllZipped(cat)
    ensures PlaceCourses(b, cat).builder.store[Root].children == b.store[Root].children + PlaceCourses(b, cat).topics
    decreases |cat|
  {
    if |cat| > 0 {
      AllZippedTail(cat);
      var c := PlaceCourse(b, cat[0]);
      PlaceCourseTopic(b, cat[0]);
      PlaceCourseExtends(b, cat[0]);
      PlaceCoursesRoot(c.builder, cat[1..]);
      var rest := PlaceCourses(c.builder, cat[1..]);
      assert PlaceCourses(b, cat).topics == [c.topic] + rest.topics;
      assert PlaceCourses(b, cat).builder == rest.builder;
      var kids := b.store[Root].children;
      assert (kids + [c.topic]) + rest.topics == kids + ([c.topic] + rest.topics);
    }
  }

  /** Topics are new nodes, created in catalogue order. */
  lemma {:induction false} PlaceCoursesTopicOrder(b: Builder, cat: Catalogue)
    requires Valid(b) && Root < |b.store|
    requires AllZipped(cat)
    ensures |cat| > 0 ==> PlaceCourses(b, cat).topics[0] == |b.store|
    ensures forall i :: 0 <= i < |cat| ==>
      |b.store| <= PlaceCourses(b, cat).topics[i] < |PlaceCourses(b, cat).builder.store|
    ensures forall i, k :: 0 <= i < k < |cat| ==> PlaceCourses(b, cat).topics[i] < PlaceCourses(b, cat).topics[k]
    decreases |cat|
  {
    if |cat| > 0 {
      AllZippedTail(cat);
      var c := PlaceCourse(b, cat[0]);
      var rest := PlaceCourses(c.builder, cat[1..]);
      PlaceCoursesTopicOrder(c.builder, cat[1..]);
      IncreasingCons(c.topic, |b.store|, |c.builder.store|, |rest.builder.store|, rest.topics);
      assert PlaceCourses(b, cat).topics == [c.topic] + rest.topics;
    }
  }

  /** Putting a smaller id in front of an increasing run of ids in `[mid, hi)` gives an increasing run in `[lo, hi)`. */
  lemma IncreasingCons(t: NodeId, lo: nat, mid: nat, hi: nat, ids: seq<NodeId>)
    requires lo <= t < mid <= hi
    requires forall i :: 0 <= i < |ids| ==> mid <= ids[i] < hi
    requires forall i, k :: 0 <= i < k < |ids| ==> ids[i] < ids[k]
    ensures forall i :: 0 <= i < |[t] + ids| ==> lo <= ([t] + ids)[i] < hi
    ensures forall i, k :: 0 <= i < k < |[t] + ids| ==> ([t] + ids)[i] < ([t] + ids)[k]
  {
    var ts := [t] + ids;
    forall i | 0 < i < |ts| ensures ts[i] == ids[i - 1] { }
  }

  /**
   * A course's leaves are created after its topic and before the next
   * course's topic (or the end of the walk), in catalogue order.
   */
  lemma {:induction false} PlaceCoursesLeafRange(b: Builder, cat: Catalogue)
    requires Valid(b) && Root < |b.store|
    requires AllZipped(cat)
    ensures forall i, j :: 0 <= i < |cat| && 0 <= j < |PlaceCourses(b, cat).placements[i]| ==>
      && PlaceCourses(b, cat).topics[i] < PlaceCourses(b, cat).placements[i][j].leaf
      && PlaceCourses(b, cat).placements[i][j].leaf < |PlaceCourses(b, cat).builder.store|
      && (i + 1 < |cat| ==> PlaceCourses(b, cat).placements[i][j].leaf < PlaceCourses(b, cat).topics[i + 1])
    ensures forall i, j, k :: 0 <= i < |cat| && 0 <= j < k < |PlaceCourses(b, cat).placements[i]| ==>
      PlaceCourses(b, cat).placements[i][j].leaf < PlaceCourses(b, cat).placements[i][k].leaf
    decreases |cat|
  {
    if |cat| > 0 {
      AllZippedTail(cat);
      var c := PlaceCourse(b, cat[0]);
      PlaceCourseRange(b, cat[0]);
      var rest := PlaceCourses(c.builder, cat[1..]);
      PlaceCoursesLeafRange(c.builder, cat[1..]);
      PlaceCoursesTopicOrder(c.builder, cat[1..]);
      var ts := [c.topic] + rest.topics;
      var ps := [c.placements] + rest.placements;
      assert PlaceCourses(b, cat) == CatalogueWalk(rest.builder, ts, ps);
      forall j | 0 <= j < |ps[0]|
        ensures ts[0] < ps[0][j].leaf < |rest.builder.store|
        ensures 1 < |cat| ==> ps[0][j].leaf < ts[1]
      {
        if 1 < |cat| {
          assert ts[1] == rest.topics[0];
        }
      }
      forall i, j | 0 < i < |cat| && 0 <= j < |ps[i]|
        ensures ts[i] < ps[i][j].leaf < |rest.builder.store|
        ensures i + 1 < |cat| ==> ps[i][j].leaf < ts[i + 1]
      {
        assert ts[i] == rest.topics[i - 1] && ps[i] == rest.placements[i - 1];
        if i + 1 < |cat| {
          assert ts[i + 1] == rest.topics[i];
        }
      }
      forall i, j, k | 0 < i < |cat| && 0 <= j < k < |ps[i]| ensures ps[i][j].leaf < ps[i][k].leaf {
        assert ps[i] == rest.placements[i - 1];
      }
    }
  }

  /** Every course's topic is titled with the course name and keyed by its course directory. */
  lemma {:induction false} PlaceCoursesTopics(b: Builder, cat: Catalogue)
    requires Valid(b) && Root < |b.store|
    requires AllZipped(cat)
    ensures forall i :: 0 <= i < |cat| ==>
      && PlaceCourses(b, cat).topics[i] < |PlaceCourses(b, cat).builder.store|
      && PlaceCourses(b, cat).builder.store[PlaceCourses(b, cat).topics[i]]
         .(children := []) == Node(TopicKind, TopicSourceId(CourseDir(cat[i].name)), cat[i].name, [])
    decreases |cat|
  {
    if |cat| > 0 {
      AllZippedTail(cat);
      var c := PlaceCourse(b, cat[0]);
      PlaceCourseTopicNode(b, cat[0]);
      var rest := PlaceCourses(c.builder, cat[1..]);
      PlaceCoursesTopics(c.builder, cat[1..]);
      PlaceCoursesExtends(c.builder, cat[1..]);
      var ts := [c.topic] + rest.topics;
      assert PlaceCourses(b, cat) == CatalogueWalk(rest.builder, ts, [c.placements] + rest.placements);
      forall i | 0 < i < |cat|
        ensures ts[i] < |rest.builder.store|
        ensures rest.builder.store[ts[i]].(children := [])
             == Node(TopicKind, TopicSourceId(CourseDir(cat[i].name)), cat[i].name, [])
      {
        assert ts[i] == rest.topics[i - 1];
        assert cat[i] == cat[1..][i - 1];
      }
    }
  }

  /** Every lesson of every course is placed as `Placed` says under its own course's topic. */
  lemma {:induction false} PlaceCoursesPlaced(b: Builder, cat: Catalogue)
    requires Valid(b) && Root < |b.store|
    requires AllZipped(cat)
    ensures forall i, j :: 0 <= i < |cat| && 0 <= j < |cat[i].lessons| ==>
      && j < |PlaceCourses(b, cat).placements[i]|
      && Placed(PlaceCourses(b, cat).builder.store, PlaceCourses(b, cat).topics[i], CourseDir(cat[i].name),
                cat[i].lessons[j], PlaceCourses(b, cat).placements[i][j])
    decreases |cat|
  {
    if |cat| > 0 {
      AllZippedTail(cat);
      var c := PlaceCourse(b, cat[0]);
      PlaceCoursePlaced(b, cat[0]);
      var rest := PlaceCourses(c.builder, cat[1..]);
      PlaceCoursesPlaced(c.builder, cat[1..]);
      PlaceCoursesExtends(c.builder, cat[1..]);
      PlaceCoursesShape(c.builder, cat[1..]);
      var ts := [c.topic] + rest.topics;
      var ps := [c.placements] + rest.placements;
      assert PlaceCourses(b, cat) == CatalogueWalk(rest.builder, ts, ps);
      forall j | 0 <= j < |cat[0].lessons|
        ensures Placed(rest.builder.store, ts[0], CourseDir(cat[0].name), cat[0].lessons[j], ps[0][j])
      {
        PlacedExtends(c.builder.store, rest.builder.store, c.topic, CourseDir(cat[0].name),
                      cat[0].lessons[j], c.placements[j]);
      }
      forall i, j | 0 < i < |cat| && 0 <= j < |cat[i].lessons|
        ensures j < |ps[i]|
        ensures Placed(rest.builder.store, ts[i], CourseDir(cat[i].name), cat[i].lessons[j], ps[i][j])
      {
        assert ts[i] == rest.topics[i - 1] && ps[i] == rest.placements[i - 1];
        assert cat[i] == cat[1..][i - 1];
      }
    }
  }

  // ---------------------------------------------------------------------
  // The channel built by construct_channel
  // ---------------------------------------------------------------------

  lemma InitialWellOrdered()
    ensures WellOrdered(InitialBuilder().store)
  {
  }

  /**
   * The channel node is `get_channel`'s, and its children are the courses'
   * topics in catalogue order, each titled with its course name and keyed by
   * its course directory; every course has one placement per lesson.
   */
  lemma ChannelTopics(cat: Catalogue, w: CatalogueWalk)
    requires ConstructChannel(cat) == Success(w)
    ensures w.builder.store[Root].(children := []) == Node(ChannelKind, ChannelSourceId, ChannelTitle, [])
    ensures w.builder.store[Root].children == w.topics
    ensures forall i :: 0 <= i < |cat| ==>
      && w.topics[i] < |w.builder.store|
      && w.builder.store[w.topics[i]].(children := [])
         == Node(TopicKind, TopicSourceId(CourseDir(cat[i].name)), cat[i].name, [])
      && |w.placements[i]| == |cat[i].lessons|
  {
    var b := InitialBuilder();
    PlaceCoursesExtends(b, cat);
    PlaceCoursesRoot(b, cat);
    PlaceCoursesTopics(b, cat);
    PlaceCoursesShape(b, cat);
  }

  /**
   * Every lesson of every course becomes a leaf carrying its title, zip file
   * and source id: under its module's sub-topic when its title contains
   * `Module`, directly under its course's topic otherwise.
   */
  lemma ChannelLessonPlaced(cat: Catalogue, w: CatalogueWalk, i: nat, j: nat)
    requires ConstructChannel(cat) == Success(w)
    requires i < |cat| && j < |cat[i].lessons|
    ensures j < |w.placements[i]|
    ensures Placed(w.builder.store, w.topics[i], CourseDir(cat[i].name), cat[i].lessons[j], w.placements[i][j])
  {
    var b := InitialBuilder();
    PlaceCoursesPlaced(b, cat);
    var r := PlaceCourses(b, cat);
    assert j < |r.placements[i]|;
    assert Placed(r.builder.store, r.topics[i], CourseDir(cat[i].name), cat[i].lessons[j], r.placements[i][j]);
  }

  /** Leaves are created in catalogue order: by course, then by lesson. */
  lemma ChannelLeafOrder(cat: Catalogue, w: CatalogueWalk)
    requires ConstructChannel(cat) == Success(w)
    ensures forall i, j, k, l ::
      0 <= i < |w.placements| && 0 <= j < |w.placements[i]| &&
      0 <= k < |w.placements| && 0 <= l < |w.placements[k]| &&
      (i < k || (i == k && j < l))
      ==> w.placements[i][j].leaf < w.placements[k][l].leaf
  {
    var b := InitialBuilder();
    PlaceCoursesLeafRange(b, cat);
    PlaceCoursesTopicOrder(b, cat);
    forall i, j, k, l |
      0 <= i < |w.placements| && 0 <= j < |w.placements[i]| &&
      0 <= k < |w.placements| && 0 <= l < |w.placements[k]| &&
      (i < k || (i == k && j < l))
      ensures w.placements[i][j].leaf < w.placements[k][l].leaf
    {
      if i < k {
        assert w.placements[i][j].leaf < w.topics[i + 1] <= w.topics[k] < w.placements[k][l].leaf;
      }
    }
  }

  /** The channel's nodes keep their leaves in increasing id order. */
  lemma ChannelWellOrdered(cat: Catalogue, w: CatalogueWalk)
    requires ConstructChannel(cat) == Success(w)
    ensures WellOrdered(w.builder.store)
  {
    InitialWellOrdered();
    PlaceCoursesWellOrdered(InitialBuilder(), cat);
  }

  /**
   * Within every node's children, leaves keep catalogue order: when lesson
   * `(i, j)` comes before lesson `(k, l)` and both sit under the same parent,
   * the first one's leaf is the earlier child.
   */
  lemma ChannelSiblingOrder(cat: Catalogue, w: CatalogueWalk, i: nat, j: nat, k: nat, l: nat, m: nat, n: nat)
    requires ConstructChannel(cat) == Success(w)
    requires i < |w.placements| && j < |w.placements[i]| && k < |w.placements| && l < |w.placements[k]|
    requires i < k || (i == k && j < l)
    requires w.placements[i][j].parent == w.placements[k][l].parent < |w.builder.store|
    requires m < |w.builder.store[w.placements[i][j].parent].children|
    requires n < |w.builder.store[w.placements[i][j].parent].children|
    requires w.builder.store[w.placements[i][j].parent].children[m] == w.placements[i][j].leaf
    requires w.builder.store[w.placements[i][j].parent].children[n] == w.placements[k][l].leaf
    ensures m < n
  {
    var store := w.builder.store;
    var p := w.placements[i][j].parent;
    ChannelWellOrdered(cat, w);
    ChannelLeafOrder(cat, w);
    ChannelTopics(cat, w);
    ChannelLessonPlaced(cat, w, i, j);
    ChannelLessonPlaced(cat, w, k, l);
    assert w.placements[i][j].leaf < w.placements[k][l].leaf;
    if n < m {
      assert IsLeaf(store, store[p].children[m]) && IsLeaf(store, store[p].children[n]);
    }
  }
  // ---------------------------------------------------------------------
  // Dropped sub-topics stay out of the tree
  // ---------------------------------------------------------------------

  /** No node lists `x` among its children. */
  ghost predicate Detached(store: Store, x: NodeId) {
    forall id :: 0 <= id < |store| ==> x !in store[id].children
  }

  /**
   * A lesson attaches a node already present only when that node is the open
   * sub-topic and the lesson belongs to another module: a lesson outside any
   * module, or one of the open sub-topic's own module, leaves it unattached.
   * A lesson outside any module also closes it.
   */
  lemma PlaceLessonKeepsDetached(b: Builder, topic: NodeId, courseDir: string, lesson: LessonSpec, x: NodeId)
    requires Valid(b) && topic < |b.store| && lesson.zipFile.Some?
    requires x < |b.store| && Detached(b.store, x)
    requires b.current == Some(x) && IsModuleLesson(lesson.title) ==> b.store[x].title == ModuleName(lesson.title)
    ensures Detached(PlaceLesson(b, topic, courseDir, lesson).builder.store, x)
    ensures b.current != Some(x) || !IsModuleLesson(lesson.title)
      ==> PlaceLesson(b, topic, courseDir, lesson).builder.current != Some(x)
  {
    var r := PlaceLesson(b, topic, courseDir, lesson);
    PlaceLessonLeaf(b, topic, courseDir, lesson);
    if !IsModuleLesson(lesson.title) {
      PlaceLessonPlain(b, topic, courseDir, lesson);
    } else if b.current.Some? && b.store[b.current.value].title == ModuleName(lesson.title) {
      PlaceLessonReuse(b, topic, courseDir, lesson);
    } else {
      PlaceLessonNewModule(b, topic, courseDir, lesson);
    }
    forall id | 0 <= id < |r.builder.store| ensures x !in r.builder.store[id].children {
      if id < |b.store| {
        assert x !in b.store[id].children;
      }
    }
  }

  /** A freshly opened sub-topic is attached to nothing. */
  lemma PlaceLessonNewDetached(b: Builder, topic: NodeId, courseDir: string, lesson: LessonSpec)
    requires Valid(b) && topic < |b.store| && WellOrdered(b.store)
    requires lesson.zipFile.Some? && IsModuleLesson(lesson.title) && b.current.None?
    ensures var r := PlaceLesson(b, topic, courseDir, lesson);
      Detached(r.builder.store, r.parent)
  {
    var r := PlaceLesson(b, topic, courseDir, lesson);
    PlaceLessonLeaf(b, topic, courseDir, lesson);
    PlaceLessonNewModule(b, topic, courseDir, lesson);
    forall id | 0 <= id < |r.builder.store| ensures r.parent !in r.builder.store[id].children {
      if id < |b.store| {
        forall k | 0 <= k < |b.store[id].children| ensures b.store[id].children[k] != r.parent {
        }
      }
    }
  }

  lemma {:induction false} PlaceLessonsKeepsDetached(b: Builder, topic: NodeId, courseDir: string, lessons: seq<LessonSpec>, x: NodeId)
    requires Valid(b) && topic < |b.store| && LessonsZipped(lessons)
    requires x < |b.store| && b.current != Some(x) && Detached(b.store, x)
    ensures Detached(PlaceLessons(b, topic, courseDir, lessons).builder.store, x)
    ensures PlaceLessons(b, topic, courseDir, lessons).builder.current != Some(x)
    decreases |lessons|
  {
    if |lessons| > 0 {
      var s := PlaceLesson(b, topic, courseDir, lessons[0]);
      PlaceLessonKeepsDetached(b, topic, courseDir, lessons[0], x);
      PlaceLessonsKeepsDetached(s.builder, topic, courseDir, lessons[1..], x);
    }
  }

  /** Closing a course attaches only the open sub-topic and the topic. */
  lemma FinishCourseKeepsDetached(w: Builder, topic: NodeId, x: NodeId)
    requires Valid(w) && topic < |w.store| && Root != topic
    requires x != topic && w.current != Some(x) && Detached(w.store, x)
    ensures Detached(FinishCourse(w, topic).store, x)
  {
    var t := FinishCourse(w, topic).store;
    forall id | 0 <= id < |t| ensures x !in t[id].children {
      assert x !in w.store[id].children;
    }
  }

  /** A node that is neither open nor attached when a course starts is still unattached after it. */
  lemma PlaceCourseKeepsDetached(b: Builder, course: Course, x: NodeId)
    requires Valid(b) && Root < |b.store| && LessonsZipped(course.lessons)
    requires x < |b.store| && b.current != Some(x) && Detached(b.store, x)
    ensures Detached(PlaceCourse(b, course).builder.store, x)
    ensures PlaceCourse(b, course).builder.current != Some(x)
  {
    var b1 := StartTopic(b, course);
    assert Detached(b1.store, x) by {
      forall id | 0 <= id < |b1.store| ensures x !in b1.store[id].children {
        if id < |b.store| {
          assert b1.store[id] == b.store[id];
        }
      }
    }
    var w := PlaceLessons(b1, |b.store|, CourseDir(course.name), course.lessons);
    PlaceLessonsKeepsDetached(b1, |b.store|, CourseDir(course.name), course.lessons, x);
    FinishCourseKeepsDetached(w.builder, |b.store|, x);
  }

  lemma {:induction false} PlaceCoursesKeepsDetached(b: Builder, cat: Catalogue, x: NodeId)
    requires Valid(b) && Root < |b.store| && AllZipped(cat)
    requires x < |b.store| && b.current != Some(x) && Detached(b.store, x)
    ensures Detached(PlaceCourses(b, cat).builder.store, x)
    decreases |cat|
  {
    if |cat| > 0 {
      AllZippedTail(cat);
      var c := PlaceCourse(b, cat[0]);
      PlaceCourseKeepsDetached(b, cat[0], x);
      PlaceCoursesKeepsDetached(c.builder, cat[1..], x);
    }
  }

  /**
   * The lesson loop behind `DroppedSubTopic`: starting with no open
   * sub-topic, two lessons of one module, a lesson outside any module and a
   * lesson of a module leave the first module's sub-topic holding both of its
   * leaves and attached to nothing, add only the third leaf to the topic, and
   * leave the last lesson's sub-topic open.
   */
  lemma DroppedSubTopicLessons(b: Builder, topic: NodeId, dir: string, ls: seq<LessonSpec>)
    requires Valid(b) && topic < |b.store| && WellOrdered(b.store) && b.current.None?
    requires LessonsZipped(ls) && |ls| == 4
    requires IsModuleLesson(ls[0].title) && IsModuleLesson(ls[1].title)
    requires ModuleName(ls[1].title) == ModuleName(ls[0].title)
    requires !IsModuleLesson(ls[2].title) && IsModuleLesson(ls[3].title)
    ensures var w := PlaceLessons(b, topic, dir, ls);
      && |b.store| <= w.placements[0].parent == w.placements[1].parent < |w.builder.store|
      && w.builder.store[w.placements[0].parent].children == [w.placements[0].leaf, w.placements[1].leaf]
      && Detached(w.builder.store, w.placements[0].parent)
      && w.builder.store[topic].children == b.store[topic].children + [w.placements[2].leaf]
      && w.placements[0].parent < w.placements[3].parent
      && w.builder.current == Some(w.placements[3].parent)
  {
    var s1 := PlaceLesson(b, topic, dir, ls[0]);
    PlaceLessonNewModule(b, topic, dir, ls[0]);
    PlaceLessonNewDetached(b, topic, dir, ls[0]);
    var x := s1.parent;
    var s2 := PlaceLesson(s1.builder, topic, dir, ls[1]);
    PlaceLessonReuse(s1.builder, topic, dir, ls[1]);
    PlaceLessonKeepsDetached(s1.builder, topic, dir, ls[1], x);
    var s3 := PlaceLesson(s2.builder, topic, dir, ls[2]);
    PlaceLessonPlain(s2.builder, topic, dir, ls[2]);
    PlaceLessonKeepsDetached(s2.builder, topic, dir, ls[2], x);
    var s4 := PlaceLesson(s3.builder, topic, dir, ls[3]);
    PlaceLessonNewModule(s3.builder, topic, dir, ls[3]);
    PlaceLessonKeepsDetached(s3.builder, topic, dir, ls[3], x);
    PlaceLessonsCons(b, topic, dir, ls);
    assert ls[1..][0] == ls[1] && ls[1..][1..] == ls[2..];
    PlaceLessonsCons(s1.builder, topic, dir, ls[1..]);
    assert ls[2..][0] == ls[2] && ls[2..][1..] == ls[3..];
    PlaceLessonsCons(s2.builder, topic, dir, ls[2..]);
    assert ls[3..][0] == ls[3] && ls[3..][1..] == [];
    PlaceLessonsCons(s3.builder, topic, dir, ls[3..]);
  }

  /**
   * The dropped sub-topic. In a one-course catalogue whose lessons are two
   * lessons of one module, a lesson outside any module, then a lesson of a
   * module, the first module's sub-topic holds both of its leaves but is
   * attached to nothing; the topic holds the third lesson's leaf and the
   * second module's sub-topic, in that order, and nothing else.
   */
  lemma DroppedSubTopic(cat: Catalogue, w: CatalogueWalk)
    requires ConstructChannel(cat) == Success(w)
    requires |cat| == 1 && |cat[0].lessons| == 4
    requires IsModuleLesson(cat[0].lessons[0].title) && IsModuleLesson(cat[0].lessons[1].title)
    requires ModuleName(cat[0].lessons[1].title) == ModuleName(cat[0].lessons[0].title)
    requires !IsModuleLesson(cat[0].lessons[2].title) && IsModuleLesson(cat[0].lessons[3].title)
    ensures |w.placements[0]| == 4 && w.topics[0] < |w.builder.store|
    ensures w.placements[0][0].parent == w.placements[0][1].parent < |w.builder.store|
    ensures w.builder.store[w.placements[0][0].parent].children == [w.placements[0][0].leaf, w.placements[0][1].leaf]
    ensures Detached(w.builder.store, w.placements[0][0].parent)
    ensures w.builder.store[w.topics[0]].children == [w.placements[0][2].leaf, w.placements[0][3].parent]
  {
    var b := InitialBuilder();
    var course := cat[0];
    AllZippedTail(cat);
    var b1 := StartTopic(b, course);
    InitialWellOrdered();
    AddChildlessWellOrdered(b.store, b1.store[1]);
    var lw := PlaceLessons(b1, 1, CourseDir(course.name), course.lessons);
    DroppedSubTopicLessons(b1, 1, CourseDir(course.name), course.lessons);
    FinishCourseKeepsDetached(lw.builder, 1, lw.placements[0].parent);
    var c := PlaceCourse(b, course);
    assert c == CourseWalk(FinishCourse(lw.builder, 1), 1, lw.placements);
    assert cat[1..] == [];
    assert PlaceCourses(c.builder, cat[1..]) == CatalogueWalk(c.builder, [], []);
    assert w == PlaceCourses(b, cat);
  }

  /** What the lesson loop reads from the four example titles. */
  lemma ExampleTitles(t0: string, t1: string, t2: string, t3: string)
    requires t0 == "Module 1: Intro" && t1 == "Module 1: Basics" && t2 == "Quiz" && t3 == "Module 2: Advanced"
    ensures IsModuleLesson(t0) && IsModuleLesson(t1) && !IsModuleLesson(t2) && IsModuleLesson(t3)
    ensures ModuleName(t0) == ModuleName(t1) == "Module 1" && ModuleName(t3) == "Module 2"
  {
    ShortNotContains(t2, "Module");
    assert t0 == "Module 1" + ":" + " Intro";
    ModuleNameBefore("Module 1", " Intro");
    assert t1 == "Module 1" + ":" + " Basics";
    ModuleNameBefore("Module 1", " Basics");
    assert t3 == "Module 2" + ":" + " Advanced";
    ModuleNameBefore("Module 2", " Advanced");
  }

  /**
   * The dropped sub-topic on concrete titles: a course whose lessons are titled "Module 1: Intro",
   * "Module 1: Basics", "Quiz" and "Module 2: Advanced" give the topic the
   * children [Quiz, Module 2], while the "Module 1" sub-topic, holding the
   * first two leaves, is attached to nothing.
   */
  lemma DroppedSubTopicExample(cat: Catalogue, w: CatalogueWalk)
    requires ConstructChannel(cat) == Success(w)
    requires |cat| == 1 && |cat[0].lessons| == 4
    requires cat[0].lessons[0].title == "Module 1: Intro" && cat[0].lessons[1].title == "Module 1: Basics"
    requires cat[0].lessons[2].title == "Quiz" && cat[0].lessons[3].title == "Module 2: Advanced"
    ensures |w.placements[0]| == 4 && w.topics[0] < |w.builder.store|
    ensures w.placements[0][0].parent < |w.builder.store| && w.placements[0][3].parent < |w.builder.store|
    ensures w.builder.store[w.placements[0][0].parent].title == "Module 1"
    ensures w.builder.store[w.placements[0][0].parent].children == [w.placements[0][0].leaf, w.placements[0][1].leaf]
    ensures Detached(w.builder.store, w.placements[0][0].parent)
    ensures w.builder.store[w.placements[0][3].parent].title == "Module 2"
    ensures w.builder.store[w.topics[0]].children == [w.placements[0][2].leaf, w.placements[0][3].parent]
    ensures w.placements[0][2].leaf < |w.builder.store| && w.builder.store[w.placements[0][2].leaf].title == "Quiz"
  {
    var ls := cat[0].lessons;
    ExampleTitles(ls[0].title, ls[1].title, ls[2].title, ls[3].title);
    DroppedSubTopic(cat, w);
    ChannelLessonPlaced(cat, w, 0, 0);
    ChannelLessonPlaced(cat, w, 0, 2);
    ChannelLessonPlaced(cat, w, 0, 3);
  }

  // ---------------------------------------------------------------------
  // The open sub-topic carries over into the next course
  // ---------------------------------------------------------------------

  /**
   * A course whose first lesson is a module lesson meets the sub-topic left
   * open by the previous course: the same module reuses it, so the leaf joins
   * the previous course's sub-topic; another module attaches it to this
   * course's topic as well.
   */
  lemma PlaceCourseFirstLesson(b: Builder, course: Course)
    requires Valid(b) && Root < |b.store| && LessonsZipped(course.lessons)
    requires |course.lessons| > 0 && IsModuleLesson(course.lessons[0].title) && b.current.Some?
    ensures var c := PlaceCourse(b, course);
      && (b.store[b.current.value].title == ModuleName(course.lessons[0].title) ==>
              c.placements[0].parent == b.current.value)
      && (b.store[b.current.value].title != ModuleName(course.lessons[0].title) ==>
              b.current.value in c.builder.store[c.topic].children)
  {
    var dir := CourseDir(course.name);
    var topic := |b.store|;
    var x := b.current.value;
    var b1 := StartTopic(b, course);
    assert b1.store[x] == b.store[x];
    var s := PlaceLesson(b1, topic, dir, course.lessons[0]);
    var w := PlaceLessons(s.builder, topic, dir, course.lessons[1..]);
    PlaceLessonsCons(b1, topic, dir, course.lessons);
    if b.store[x].title == ModuleName(course.lessons[0].title) {
      PlaceLessonReuse(b1, topic, dir, course.lessons[0]);
    } else {
      PlaceLessonNewModule(b1, topic, dir, course.lessons[0]);
      assert s.builder.store[topic].children == [x];
      PlaceLessonsExtends(s.builder, topic, dir, course.lessons[1..]);
      FinishCourseExtends(w.builder, topic);
      assert PlaceCourse(b, course).builder.store[topic].children[0] == x;
    }
  }

  /**
   * Course `i` ends with a module lesson and course `i + 1` starts with one.
   * The last lesson's sub-topic is a child of course `i`'s topic; when the
   * next course's first lesson names the same module, its leaf goes to that
   * same sub-topic, and otherwise the sub-topic is attached to course
   * `i + 1`'s topic too.
   */
  ghost predicate CarriedOver(cat: Catalogue, r: CatalogueWalk, i: nat)
    requires i + 1 < |cat| && |cat[i].lessons| > 0 && |cat[i + 1].lessons| > 0
  {
    var last := |cat[i].lessons| - 1;
    && i + 1 < |r.placements| && i + 1 < |r.topics|
    && |r.placements[i]| == |cat[i].lessons| && |r.placements[i + 1]| == |cat[i + 1].lessons|
    && r.topics[i] < |r.builder.store| && r.topics[i + 1] < |r.builder.store|
    && r.placements[i][last].parent in r.builder.store[r.topics[i]].children
    && (ModuleName(cat[i + 1].lessons[0].title) == ModuleName(cat[i].lessons[last].title) ==>
          r.placements[i + 1][0].parent == r.placements[i][last].parent)
    && (ModuleName(cat[i + 1].lessons[0].title) != ModuleName(cat[i].lessons[last].title) ==>
          r.placements[i][last].parent in r.builder.store[r.topics[i + 1]].children)
  }

  /** A child stays a child as the store grows. */
  lemma ExtendsChild(s: Store, t: Store, id: NodeId, x: NodeId)
    requires Extends(s, t) && id < |s| && x in s[id].children
    ensures x in t[id].children
  {
    var k :| 0 <= k < |s[id].children| && s[id].children[k] == x;
    assert t[id].children[k] == x;
  }

  /** The carry-over between two courses placed one after the other. */
  lemma PlaceCourseCarryOver(b: Builder, a: Course, n: Course)
    requires Valid(b) && Root < |b.store| && LessonsZipped(a.lessons) && LessonsZipped(n.lessons)
    requires |a.lessons| > 0 && |n.lessons| > 0
    requires IsModuleLesson(a.lessons[|a.lessons| - 1].title) && IsModuleLesson(n.lessons[0].title)
    ensures var c := PlaceCourse(b, a);
      var d := PlaceCourse(c.builder, n);
      var p := c.placements[|a.lessons| - 1].parent;
      && p in d.builder.store[c.topic].children
      && (ModuleName(n.lessons[0].title) == ModuleName(a.lessons[|a.lessons| - 1].title) ==>
            d.placements[0].parent == p)
      && (ModuleName(n.lessons[0].title) != ModuleName(a.lessons[|a.lessons| - 1].title) ==>
            p in d.builder.store[d.topic].children)
  {
    var c := PlaceCourse(b, a);
    var last := |a.lessons| - 1;
    var p := c.placements[last].parent;
    PlaceCourseOpen(b, a);
    PlaceCoursePlaced(b, a);
    assert c.builder.store[p].title == ModuleName(a.lessons[last].title);
    PlaceCourseFirstLesson(c.builder, n);
    PlaceCourseExtends(c.builder, n);
    ExtendsChild(c.builder.store, PlaceCourse(c.builder, n).builder.store, c.topic, p);
  }

  /** The carry-over between the first two courses of a walk. */
  lemma PlaceCoursesCarryOverHead(b: Builder, cat: Catalogue)
    requires Valid(b) && Root < |b.store| && AllZipped(cat)
    requires 1 < |cat| && |cat[0].lessons| > 0 && |cat[1].lessons| > 0
    requires IsModuleLesson(cat[0].lessons[|cat[0].lessons| - 1].title)
    requires IsModuleLesson(cat[1].lessons[0].title)
    ensures CarriedOver(cat, PlaceCourses(b, cat), 0)
  {
    AllZippedTail(cat);
    var c := PlaceCourse(b, cat[0]);
    var rest := PlaceCourses(c.builder, cat[1..]);
    var r := PlaceCourses(b, cat);
    assert r == CatalogueWalk(rest.builder, [c.topic] + rest.topics, [c.placements] + rest.placements);
    assert cat[1..][0] == cat[1];
    AllZippedTail(cat[1..]);
    var d := PlaceCourse(c.builder, cat[1]);
    var rest2 := PlaceCourses(d.builder, cat[1..][1..]);
    assert rest == CatalogueWalk(rest2.builder, [d.topic] + rest2.topics, [d.placements] + rest2.placements);
    PlaceCourseCarryOver(b, cat[0], cat[1]);
    PlaceCoursesExtends(d.builder, cat[1..][1..]);
    var p := c.placements[|cat[0].lessons| - 1].parent;
    ExtendsChild(d.builder.store, rest2.builder.store, c.topic, p);
    if ModuleName(cat[1].lessons[0].title) != ModuleName(cat[0].lessons[|cat[0].lessons| - 1].title) {
      ExtendsChild(d.builder.store, rest2.builder.store, d.topic, p);
    }
  }

  /** `CarriedOver` for the catalogue's tail carries over to the whole catalogue, one course later. */
  lemma CarriedOverShift(cat: Catalogue, rest: CatalogueWalk, topic: NodeId, ps: seq<Placement>, i: nat)
    requires 0 < i && i + 1 < |cat| && |cat[i].lessons| > 0 && |cat[i + 1].lessons| > 0
    requires CarriedOver(cat[1..], rest, i - 1)
    ensures CarriedOver(cat, CatalogueWalk(rest.builder, [topic] + rest.topics, [ps] + rest.placements), i)
  {
    assert cat[1..][i - 1] == cat[i] && cat[1..][i] == cat[i + 1];
  }

  /** The carry-over between courses `i` and `i + 1` of a walk (see `CarriedOver`). */
  lemma {:induction false} PlaceCoursesCarryOver(b: Builder, cat: Catalogue, i: nat)
    requires Valid(b) && Root < |b.store| && AllZipped(cat)
    requires i + 1 < |cat| && |cat[i].lessons| > 0 && |cat[i + 1].lessons| > 0
    requires IsModuleLesson(cat[i].lessons[|cat[i].lessons| - 1].title)
    requires IsModuleLesson(cat[i + 1].lessons[0].title)
    ensures CarriedOver(cat, PlaceCourses(b, cat), i)
    decreases i
  {
    if i == 0 {
      PlaceCoursesCarryOverHead(b, cat);
    } else {
      AllZippedTail(cat);
      var c := PlaceCourse(b, cat[0]);
      assert cat[1..][i - 1] == cat[i] && cat[1..][i] == cat[i + 1];
      PlaceCoursesCarryOver(c.builder, cat[1..], i - 1);
      CarriedOverShift(cat, PlaceCourses(c.builder, cat[1..]), c.topic, c.placements, i);
    }
  }

  /**
   * `construct_channel` never resets the open sub-topic between courses:
   * consecutive courses `i` and `i + 1` joined by module lessons share or
   * attach the sub-topic as `CarriedOver` says.
   */
  lemma ChannelCarryOver(cat: Catalogue, w: CatalogueWalk, i: nat)
    requires ConstructChannel(cat) == Success(w)
    requires i + 1 < |cat| && |cat[i].lessons| > 0 && |cat[i + 1].lessons| > 0
    requires IsModuleLesson(cat[i].lessons[|cat[i].lessons| - 1].title)
    requires IsModuleLesson(cat[i + 1].lessons[0].title)
    ensures CarriedOver(cat, w, i)
  {
    PlaceCoursesCarryOver(InitialBuilder(), cat, i);
  }

  // ---------------------------------------------------------------------
  // Runs of lessons of one module
  // ---------------------------------------------------------------------

  /**
   * Lessons `j` and `j + 1` of a course, both module lessons: with the same
   * module name they share one sub-topic; with different names the earlier
   * sub-topic is a child of the course's topic.
   */
  ghost predicate ModuleRun(store: Store, topic: NodeId, lessons: seq<LessonSpec>, ps: seq<Placement>, j: nat) {
    && j + 1 < |lessons| && |ps| == |lessons| && topic < |store|
    && (ModuleName(lessons[j + 1].title) == ModuleName(lessons[j].title) ==> ps[j + 1].parent == ps[j].parent)
    && (ModuleName(lessons[j + 1].title) != ModuleName(lessons[j].title) ==> ps[j].parent in store[topic].children)
  }

  /** `ModuleRun` for two consecutive module lessons of one course's lesson loop. */
  lemma {:induction false} PlaceLessonsModuleRun(b: Builder, topic: NodeId, dir: string, lessons: seq<LessonSpec>, j: nat)
    requires Valid(b) && topic < |b.store| && LessonsZipped(lessons)
    requires j + 1 < |lessons| && IsModuleLesson(lessons[j].title) && IsModuleLesson(lessons[j + 1].title)
    ensures var w := PlaceLessons(b, topic, dir, lessons);
      ModuleRun(w.builder.store, topic, lessons, w.placements, j)
    decreases j
  {
    var s := PlaceLesson(b, topic, dir, lessons[0]);
    var rest := lessons[1..];
    var w1 := PlaceLessons(s.builder, topic, dir, rest);
    PlaceLessonsCons(b, topic, dir, lessons);
    var ps := [Placement(s.leaf, s.parent)] + w1.placements;
    assert PlaceLessons(b, topic, dir, lessons) == Walk(w1.builder, ps);
    assert rest[j] == lessons[j + 1];
    if j == 0 {
      PlaceLessonLeaf(b, topic, dir, lessons[0]);
      var s2 := PlaceLesson(s.builder, topic, dir, rest[0]);
      var w2 := PlaceLessons(s2.builder, topic, dir, rest[1..]);
      PlaceLessonsCons(s.builder, topic, dir, rest);
      assert ps[1] == Placement(s2.leaf, s2.parent);
      if ModuleName(lessons[1].title) == ModuleName(lessons[0].title) {
        PlaceLessonReuse(s.builder, topic, dir, rest[0]);
      } else {
        PlaceLessonNewModule(s.builder, topic, dir, rest[0]);
        assert s.parent in s2.builder.store[topic].children;
        PlaceLessonsExtends(s2.builder, topic, dir, rest[1..]);
        ExtendsChild(s2.builder.store, w2.builder.store, topic, s.parent);
      }
    } else {
      assert rest[j - 1] == lessons[j];
      PlaceLessonsModuleRun(s.builder, topic, dir, rest, j - 1);
      assert ps[j] == w1.placements[j - 1] && ps[j + 1] == w1.placements[j];
    }
  }

  /** `ModuleRun` for two consecutive module lessons of one course. */
  lemma PlaceCourseModuleRun(b: Builder, course: Course, j: nat)
    requires Valid(b) && Root < |b.store| && LessonsZipped(course.lessons)
    requires j + 1 < |course.lessons| && IsModuleLesson(course.lessons[j].title)
    requires IsModuleLesson(course.lessons[j + 1].title)
    ensures var c := PlaceCourse(b, course);
      ModuleRun(c.builder.store, c.topic, course.lessons, c.placements, j)
  {
    var b1 := StartTopic(b, course);
    var w := PlaceLessons(b1, |b.store|, CourseDir(course.name), course.lessons);
    PlaceLessonsModuleRun(b1, |b.store|, CourseDir(course.name), course.lessons, j);
    var fin := FinishCourse(w.builder, |b.store|);
    assert PlaceCourse(b, course) == CourseWalk(fin, |b.store|, w.placements);
    FinishCourseExtends(w.builder, |b.store|);
    if ModuleName(course.lessons[j + 1].title) != ModuleName(course.lessons[j].title) {
      ExtendsChild(w.builder.store, fin.store, |b.store|, w.placements[j].parent);
    }
  }

  /** `ModuleRun` for two consecutive module lessons of course `i` of a walk. */
  lemma {:induction false} PlaceCoursesModuleRun(b: Builder, cat: Catalogue, i: nat, j: nat)
    requires Valid(b) && Root < |b.store| && AllZipped(cat)
    requires i < |cat| && j + 1 < |cat[i].lessons|
    requires IsModuleLesson(cat[i].lessons[j].title) && IsModuleLesson(cat[i].lessons[j + 1].title)
    ensures var r := PlaceCourses(b, cat);
      ModuleRun(r.builder.store, r.topics[i], cat[i].lessons, r.placements[i], j)
    decreases i
  {
    AllZippedTail(cat);
    var c := PlaceCourse(b, cat[0]);
    var rest := PlaceCourses(c.builder, cat[1..]);
    assert PlaceCourses(b, cat) == CatalogueWalk(rest.builder, [c.topic] + rest.topics, [c.placements] + rest.placements);
    if i == 0 {
      PlaceCourseModuleRun(b, cat[0], j);
      PlaceCoursesExtends(c.builder, cat[1..]);
      if ModuleName(cat[0].lessons[j + 1].title) != ModuleName(cat[0].lessons[j].title) {
        ExtendsChild(c.builder.store, rest.builder.store, c.topic, c.placements[j].parent);
      }
    } else {
      assert cat[1..][i - 1] == cat[i];
      PlaceCoursesModuleRun(c.builder, cat[1..], i - 1, j);
    }
  }

  /**
   * Consecutive module lessons `j` and `j + 1` of course `i` in the channel:
   * with the same module name both leaves go to one sub-topic; with a
   * different name the first one's sub-topic is attached to the course's topic.
   */
  lemma ChannelModuleRun(cat: Catalogue, w: CatalogueWalk, i: nat, j: nat)
    requires ConstructChannel(cat) == Success(w)
    requires i < |cat| && j + 1 < |cat[i].lessons|
    requires IsModuleLesson(cat[i].lessons[j].title) && IsModuleLesson(cat[i].lessons[j + 1].title)
    ensures j + 1 < |w.placements[i]| && w.topics[i] < |w.builder.store|
    ensures ModuleName(cat[i].lessons[j + 1].title) == ModuleName(cat[i].lessons[j].title)
      ==> w.placements[i][j + 1].parent == w.placements[i][j].parent
    ensures ModuleName(cat[i].lessons[j + 1].title) != ModuleName(cat[i].lessons[j].title)
      ==> w.placements[i][j].parent in w.builder.store[w.topics[i]].children
  {
    PlaceCoursesModuleRun(InitialBuilder(), cat, i, j);
  }
}
