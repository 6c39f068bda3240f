# atingi sushi chef, modelled in Dafny

The chef turns the atingi course catalogue into a Kolibri channel. It works in two stages.

**`download_content`** prepares the lessons:
- It fetches the course archives from a Google Drive folder into `chefdata/`.
- It unpacks every `*.zip` found there, unless its target directory already exists.
- It builds an HTML5 directory for every lesson that does not have one yet. The lesson's SCORM content is copied, the listed assets are pruned, tall images are shrunk, and a `<style>` and a route-setting `<script>` are added to `index.html`'s `<head>`. The lessons of the "digital enquirer kit" course use a different builder.
- It records a zip of each lesson directory in the catalogue.

**`construct_channel`** walks the catalogue. It builds:
- one topic per course;
- one sub-topic per run of consecutive lessons whose titles contain `Module` and name the same module (the text before the first `:`); such a run can continue into the next course;
- one HTML5 leaf per lesson.

The model has one module per concern:

| module | file | models |
|---|---|---|
| `Wrappers` | wrappers.dfy | `Option`, `Result` |
| `Strings` | strings.dfy | Python's `in`, `split(sep)[0]`, `replace`, `lower` (ASCII) |
| `Paths` | paths.dfy | `os.path.join`, `os.path.splitext(...)[0]`, "lies below a directory" |
| `Catalogue` | catalogue.dfy | the course catalogue, the course directory name, source ids, module names, `build_doc_node` |
| `ChannelTree` | channel_tree.dfy | `construct_channel` as a state machine over a node store |
| `Download` | download_content.dfy | the lesson loop of `download_content` |
| `HtmlPatch` | html_patch.dfy | the `<head>` patch of `prepare_lesson_html5_directory` |
| `Assets` | assets.dfy | asset pruning and `resize_images` |
| `Staging` | staging.dfy | `download_files`, `download_gdrive_files`, `unzip_scorm_files` |
| `Chef` | chef.dfy | the two stages run one after the other |

The channel tree is a sequence of nodes. A node's id is its index. The channel is node 0, and a new node gets the next free index. Each node holds its children's ids in insertion order, as `add_child` appends them. The walk keeps the open sub-topic (`sub_topic_node`) in a `Builder` next to the store.

The model follows the source's behaviour, with the differences listed under "Left out". It keeps two quirks of the source:
- **The dropped sub-topic.** A lesson outside any module closes the open sub-topic without attaching it anywhere. When that sub-topic was opened in the current course, it and the leaves in it never reach the channel (`ChannelTree.DroppedSubTopic`). A sub-topic carried over from the previous course is already a child of that course's topic, so its leaves do reach the channel.
- **The carry-over.** The open sub-topic is not reset between courses. When the next course's first lesson is a module lesson, it either reuses that sub-topic or attaches it to its own topic as well (`ChannelTree.ChannelCarryOver`). When the first lesson is outside any module, it closes the sub-topic, which then stays only under the previous course's topic. An empty next course attaches the sub-topic to its own topic when the course ends (`ChannelTree.PlaceCourseOpen`).

File systems are modelled as sets of paths, or as maps from path to file or directory. Drive listings, zip creation and image sizes are parameters.

## Model

| member | source | states |
|---|---|---|
| Catalogue.CourseDir | sushichef.py:67 | A course directory holds no space and no `&`, and is never longer than the course name. |
| Catalogue.CourseDirChain | sushichef.py:67 | The per-character course directory equals: spaces replaced by `_`, then `&` deleted, then lower-cased. |
| Catalogue.CourseDirSpec | sushichef.py:116 | A course directory has no space, no `&` and no upper-case ASCII letter. It is exactly as long as the name minus its `&`s. |
| Catalogue.CourseDirFixed | sushichef.py:116 | A name that is already in normal form is its own course directory. |
| Catalogue.TopicSourceId | sushichef.py:119 | A topic id starts with the course directory and ends in `_id`. |
| Catalogue.SubTopicSourceId | sushichef.py:144-146 | A sub-topic id holds no space, and is four characters longer than module name and course directory together. |
| Catalogue.LeafSourceId | sushichef.py:160-162 | A leaf id starts with the course directory and `_`, ends in `_id`, and is four characters longer than course directory and lesson key together. |
| Catalogue.SubTopicSourceIdParts | sushichef.py:144-146 | A sub-topic id is the module name, `_`, the course directory and `_id`, with spaces rewritten everywhere. It never contains a space. |
| Catalogue.LeafSourceIdShape | sushichef.py:160-162 | A leaf id starts with the course directory and `_`, ends in `_id`, and has no space. |
| Catalogue.LeafSourceIdNotInjective | sushichef.py:160-162 | Two different lesson keys ("a b" and "a_b") get the same leaf id. |
| Catalogue.ModuleName | sushichef.py:131 | The module name is a prefix of the title holding no `:`, and when it is shorter than the title a `:` follows it. |
| Catalogue.ModuleNameSpec | sushichef.py:131 | The module name is the title's prefix up to its first `:`. It is the whole title when there is no `:`. |
| Catalogue.ModuleNameBefore | sushichef.py:131 | A title `pre:rest` whose `pre` has no colon names the module `pre`. |
| Catalogue.BuildDocNode | sushichef.py:92-110 | The document id has no space and ends in `_id`. The title starts with the unit (the lesson title before `" - "`) and `" forms: "`. The file path ends in `/scormcontent/assets/` followed by the document name. |
| Catalogue.BuildDocNodeStripsPdf | sushichef.py:95-99 | For `base.pdf` where `base` has no `.`, the title is `unit forms: base` and the id is `base` with spaces replaced, plus `_id`. |
| Catalogue.BuildDocNodeWholeTitle | sushichef.py:95 | A lesson title without `" - "` is its own unit. |
| ChannelTree.PlaceLesson | sushichef.py:127-173 | A lesson's leaf is a node the lesson added, its parent is a node of the resulting store, and the store stays well formed. |
| ChannelTree.OpenNew | sushichef.py:137-153 | A new sub-topic titled with the module name and keyed by module and course directory becomes the open one. When asked, the previous open sub-topic is first appended to the topic. |
| ChannelTree.OpenSubTopicCases | sushichef.py:130-156 | A lesson outside any module closes the open sub-topic and touches no node. A lesson of the open sub-topic's module changes nothing. A lesson of another module attaches the open sub-topic, if any, to the topic and opens a fresh sub-topic. |
| ChannelTree.AttachLeaf | sushichef.py:158-173 | The leaf is a new node holding the lesson's zip, title and leaf id. It is appended to the children of the open sub-topic, or of the topic when none is open. |
| ChannelTree.AttachLeafFrame | sushichef.py:170-173 | Attaching a leaf changes no existing node but its parent. |
| ChannelTree.PlaceLessonLeaf | sushichef.py:127-173 | A lesson's leaf carries the lesson's zip file, title and source id. A module lesson lands in a sub-topic titled with its module name, which stays open. Any other lesson lands in the topic and closes the sub-topic. |
| ChannelTree.PlaceLessonPlain | sushichef.py:155-156 | A lesson outside any module closes the open sub-topic without attaching it. Its leaf is appended to the topic, and no other node changes. |
| ChannelTree.PlaceLessonReuse | sushichef.py:132-136 | A module lesson naming the open sub-topic's module goes into that sub-topic, and no other node changes. |
| ChannelTree.PlaceLessonNewModule | sushichef.py:137-153 | A module lesson naming another module does three things. It attaches the open sub-topic, if any, to the topic. It opens a new sub-topic. The new sub-topic's only child is the leaf. |
| ChannelTree.PlaceLessonFrame | sushichef.py:127-173 | A lesson changes no node already present except the topic and sub-topics. |
| ChannelTree.PlaceLessons | sushichef.py:127-173 | The lesson loop gives one placement per lesson, and the store never shrinks. |
| ChannelTree.PlaceLessonsPlaced | sushichef.py:127-173 | Every lesson of a course is placed as `Placed` says. |
| ChannelTree.PlaceLessonsRange | sushichef.py:127-173 | A course's leaves are new nodes, created in lesson order. |
| ChannelTree.PlaceLessonsOpen | sushichef.py:127-173 | The sub-topic left open after a course's lessons is the last lesson's sub-topic when that lesson is a module lesson, and none otherwise. |
| ChannelTree.FinishCourse | sushichef.py:174-176 | The open sub-topic, if any, is appended to the topic, and the topic to the channel. No node is added, and the open sub-topic stays open. |
| ChannelTree.FinishCourseFrame | sushichef.py:174-176 | Closing a course keeps every node's kind, title and source id, and changes the children of no node but the channel and the topic. |
| ChannelTree.PlaceCourse | sushichef.py:115-176 | A course's topic is the next new node, and the course gets one placement per lesson. |
| ChannelTree.PlaceCourseTopicNode | sushichef.py:116-126 | A course's topic is a new node titled with the course name and keyed `course_dir + "_id"`. |
| ChannelTree.PlaceCourseTopic | sushichef.py:176 | A course appends exactly its own topic to the channel's children. |
| ChannelTree.PlaceCourseOpen | sushichef.py:174-175 | The sub-topic still open at the end of a course becomes the topic's last child, and it stays open. |
| ChannelTree.PlaceCourses | sushichef.py:115-176 | The course loop gives one topic and one placement list per course, and the store never shrinks. |
| ChannelTree.ConstructChannel | sushichef.py:112-177 | Construction fails exactly when some lesson lacks its `zipfile` entry. On success there is one topic and one placement list per course, and node 0 is the channel. |
| ChannelTree.ChannelTopics | sushichef.py:113-126 | The channel node is `atingi` / "Learn with atingi". Its children are exactly the courses' topics in catalogue order, each titled with its course name. |
| ChannelTree.ChannelLessonPlaced | sushichef.py:127-173 | Every lesson of every course becomes a leaf with its title, zip and source id. It sits under its module's sub-topic when the title contains `Module`, and under its course's topic otherwise. |
| ChannelTree.ChannelLeafOrder | sushichef.py:115-177 | Leaves are created in catalogue order: by course, then by lesson. |
| ChannelTree.ChannelWellOrdered | sushichef.py:112-177 | In every node's children, leaves appear in increasing id order. |
| ChannelTree.ChannelSiblingOrder | sushichef.py:170-173 | Two lessons under the same parent appear among its children in catalogue order. |
| ChannelTree.PlaceLessonKeepsDetached | sushichef.py:132-156 | Only a lesson of another module attaches the open sub-topic. A lesson outside any module, or one of the same module, leaves it unattached. |
| ChannelTree.DroppedSubTopic | sushichef.py:155-156 | Take lessons "module A, module A, no module, module B". A's sub-topic holds both A leaves but is attached to nothing. The topic's children are exactly the third leaf and B's sub-topic. |
| ChannelTree.DroppedSubTopicExample | sushichef.py:127-175 | The same on concrete titles: the "Module 1" sub-topic is lost and the topic holds [Quiz, Module 2]. |
| ChannelTree.PlaceCourseFirstLesson | sushichef.py:114-115 | When a course's first lesson is a module lesson, it meets the sub-topic left open by the previous course. The same module reuses it; another module attaches it to the new topic. |
| ChannelTree.ChannelCarryOver | sushichef.py:114-175 | Take consecutive courses where the first ends and the second begins with a module lesson. The sub-topic is a child of the first course's topic. The second course's first lesson either joins it or attaches it to the second topic as well. |
| ChannelTree.PlaceLessonsModuleRun | sushichef.py:130-153 | Two consecutive module lessons of a course's lesson loop share one sub-topic when they name the same module. Otherwise the first one's sub-topic is a child of the topic. |
| ChannelTree.ChannelModuleRun | sushichef.py:130-153 | The same for consecutive module lessons of any course in the finished channel. |
| Download.PrepareLessons | sushichef.py:69-86 | The lesson loop keeps one lesson entry per lesson and builds at most one directory per lesson. |
| Download.PrepareCourses | sushichef.py:66-86 | The course loop returns one course entry per catalogue course. |
| Download.PrepareLessonsBuildDirs | sushichef.py:69-78 | The directories built for a course are exactly its lesson directories that did not exist before. |
| Download.PrepareCoursesBuildDirs | sushichef.py:66-78 | The directories built are exactly the catalogue's lesson directories that did not exist before. |
| Download.PrepareCoursesBuildOnce | sushichef.py:70-71 | No lesson directory is built twice, even when two lessons share one. |
| Download.PrepareCoursesBuildKinds | sushichef.py:67-78 | Every build uses the kit builder exactly for the kit course. It writes a directory that did not exist. It belongs to a lesson of a course of the catalogue. |
| Download.PrepareCoursesExisting | sushichef.py:66-78 | Afterwards the existing paths are the old ones plus every lesson directory. |
| Download.PrepareCoursesZips | sushichef.py:82-86 | Every course keeps its name and lessons. Every lesson gains the zip of its own directory, built or not. |
| Download.DownloadContent | sushichef.py:60-86 | Afterwards every lesson has a `zipfile` entry. |
| Download.PrepareCoursesAllExist | sushichef.py:71 | When every lesson directory exists, nothing is built. |
| Download.PrepareCoursesCatIdempotent | sushichef.py:82-86 | Re-running the loop on its own output catalogue changes no lesson. |
| Download.DownloadContentIdempotent | sushichef.py:60-86 | A second run on the first run's output builds nothing and changes nothing. |
| HtmlPatch.FindHead | transform.py:225 | The result is the first `<head>`, or there is none. |
| HtmlPatch.WithHead | transform.py:225-228 | Afterwards the page has a `<head>`. |
| HtmlPatch.AppendToHeadHas | transform.py:231-246 | After appending, the page holds a tag/string pair exactly when it held it before or the new element carries it. |
| HtmlPatch.AddIfAbsent | transform.py:231-246 | Afterwards the page holds the tag/string pair, the head stays a head, and the page keeps its length. |
| HtmlPatch.PatchPage | transform.py:224-246 | The patched page has a head, the CSS addition in a `<style>`, and the route's script in a `<script>`. |
| HtmlPatch.PatchPageAppends | transform.py:231-246 | Only the head changes. Its children gain exactly the missing style and the missing script, the style first. |
| HtmlPatch.PatchPageHead | transform.py:224-228 | With no head, one is inserted at position 0 and the rest of the page follows unchanged. Otherwise the first head keeps its place and its old children come first. |
| HtmlPatch.PatchPageStyleBeforeScript | transform.py:231-246 | A page with neither addition gains the `<style>`, then the `<script>`. |
| HtmlPatch.PatchPageIdempotent | transform.py:231-246 | Patching an already patched page with the same route changes nothing. |
| HtmlPatch.PlaceholderOnce | transform.py:59-85 | The JS addition contains the placeholder at exactly one position. |
| HtmlPatch.ScriptText | transform.py:238-240 | Replacing the placeholder in the JS addition yields the JS prefix, the route and the JS suffix. |
| Assets.RemovePath | transform.py:210-215 | The listed path is gone afterwards. Along with it goes everything below it when it was a directory. A missing path changes nothing, and nothing else is touched. |
| Assets.PruneAssets | transform.py:208-215 | Pruning only removes paths, and leaves every remaining entry as it was. |
| Assets.PruneAssetsRemovesListed | transform.py:209-215 | No listed asset path remains after pruning. |
| Assets.PruneAssetsExactly | transform.py:208-215 | A path is removed exactly when it is listed, or lies below a listed path that was a directory. |
| Assets.Shrink | transform.py:190-193 | A tall image gets exactly the maximum height, with its width scaled by the same factor and rounded down. |
| Assets.ShrinkZeroWidth | transform.py:190 | The new width is zero exactly when the image is more than `max_height` times taller than wide. |
| Assets.ResizeImages | transform.py:185-194 | The same files remain. An image changes exactly when it is a `.png`/`.jpg` taller than the limit, and every image ends up no taller than the limit. |
| Staging.DownloadFiles | transform.py:143-163 | The files afterwards are the old ones plus every wanted item's `folder + name`. A download happens exactly for the wanted targets that did not exist, and no target twice. Of several wanted items with one name, the first in listing order is the one fetched, with its own id. |
| Staging.DownloadFilesTwice | transform.py:127-129 | A second run over the same listing downloads nothing and adds no file. |
| Staging.DownloadGdriveFiles | transform.py:166-168 | The files afterwards are the old ones plus `chefdata/` + name for every zip item. Downloads go exactly to those paths that did not exist, and no path twice. Of several zip items with one name, the first in listing order is the one fetched, with its own id. |
| Paths.JoinShape | transform.py:173 | `os.path.join` ends with its second argument. An absolute second argument is the whole result; otherwise the first argument comes first, with one `/` added unless it already ends in one. |
| Paths.SplitExtRoot | transform.py:174 | The root is a prefix of the path. When it is shorter, it is cut at the last `.`, with no `/` after it. |
| Paths.SplitExtRootCuts | transform.py:174 | The path is cut exactly when a `.` in its final component follows a character other than `.` in that component. |
| Staging.ExtractTarget | transform.py:173-174 | An archive's target is a prefix of the archive path. |
| Staging.ExtractTargetShape | transform.py:173-174 | The target is the archive path cut at a dot of its last component, or the whole path. A relative name's target stays inside `chefdata/`. |
| Staging.UnzipScorm | transform.py:171-182 | Extraction keeps every existing path with its entry. |
| Staging.UnzipScormFresh | transform.py:176-180 | Every extraction creates a directory at a path that did not exist. Nothing else is added. |
| Staging.UnzipScormSources | transform.py:171-180 | Every extraction target belongs to a listed regular file ending in `.zip`. |
| Staging.UnzipScormOnce | transform.py:177 | No target is extracted into twice. |
| Staging.UnzipScormTargetsExist | transform.py:171-180 | Afterwards every archive's target exists. |
| Staging.UnzipScormNothingToDo | transform.py:177 | When every archive's target exists, nothing is extracted. |
| Staging.UnzipScormIdempotent | transform.py:171-182 | A second pass extracts nothing. |
| Staging.ExtractTargetStripsZip | transform.py:173-174 | `name.zip` is extracted into `chefdata/name`. |
| Staging.DotZipNeverExtracted | transform.py:174-177 | A file named just `.zip` has itself as its target, which exists, so it is never extracted. |
| Chef.RunChefLeafZip | sushichef.py:82-86 | After `download_content`, every lesson's leaf carries the zip made from its own lesson directory, its title and its source id. |

## Left out

- Google OAuth and the Drive API: the folder listing is a parameter of `DownloadFiles`.
- Failed or partial downloads. The source swallows the exception and goes on, so the model treats every download as successful.
- Failing lesson builds. In the source, `prepare_lesson_html5_directory` or `copy_digital_enquirer_kit_files` can raise. Causes are a failed copy, a missing `index.html` or `story.html`, a missing `file`, `remove_assets` or `route` entry, or an image so narrow that its new width is zero (`Assets.ShrinkZeroWidth`), which the imaging library refuses to resize to. The raise aborts `download_content` and can leave a half-built lesson directory, which the next run then skips because it exists. The model lets every build complete. Its idempotence lemmas (`Download.PrepareCoursesCatIdempotent`, `Download.DownloadContentIdempotent`) describe runs in which every build completed.
- Zip extraction contents, `shutil.copytree`, `copy_digital_enquirer_kit_files` and `create_predictable_zip`. These are file-system and archive operations. The model records which builder runs and passes the zip as a function `zipOf` of the lesson directory.
- What `zipOf` stands for. It is the zip's content, which `create_predictable_zip` makes depend only on the directory. The real `zipfile` entry is the path of a new temporary file on every call, so across runs only the content repeats. The idempotence lemmas hold of the content, not of that path.
- HTML parsing and serialisation. A page is a flat list of items in document order, and a `<head>` holds only elements. Matching `string=` compares an element's text exactly.
- The full CSS and JS addition texts. The model uses short constants with the same structure: the JS is a prefix, the `TO_REPLACE_BY_LESSON_ID` marker and a suffix. `PlaceholderOnce` holds of the real JS text as well, because its text before the marker has no `T` and its text after the marker has no `_`.
- Assets.Shrink: the width is `floor(max_height * width / height)` in exact arithmetic. The source computes `int((max_height / height) * width)` in floating point, which can come out one lower.
- Assets.Shrink: a zero new width is returned as a picture of width 0. In the source the resize call then raises, which aborts the lesson build as described under "Failing lesson builds". The imaging library is not part of this model.
- Images that fail to decode, and the image file contents. An image is only its size.
- Channel and node metadata: licence, language, categories, grade levels, author, thumbnails (`chefdata/{course_dir}.png`) and the channel description. The model keeps kind, source id, title, children and zip file.
- `get_channel`, `pre_run` and the JSON loading of the catalogue. The catalogue is a value with courses and lessons in the JSON's key order.
- Python's `lower()` beyond ASCII letters.
- Path normalisation. Paths are compared literally: `.`, `..` and repeated `/` are not resolved, and a directory's contents are the paths that start with it and a `/`.
- Logging and progress messages.
- `main` and the command-line entry point.
