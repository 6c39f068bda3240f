/**
 * The head patch `prepare_lesson_html5_directory` applies to a lesson's
 * `index.html`: make sure there is a head, then append the menu-hiding style
 * and the route-redirect script unless an identical one is already present.
 *
 * The parsed document is abstracted to its items in document order: plain
 * elements `(tag, string, attrs)` and head elements holding their children.
 * A search such as `page.find("style", string=css)` looks at every element of
 * the page, inside a head or not.
 */
module HtmlPatch {
  import opened Wrappers
  import opened Strings

  /** An element: its tag, its `.string` (absent when it has none) and its attributes. */
  datatype Element = Element(tag: string, text: Option<string>, attrs: seq<(string, string)>)

  /** A top-level item of the document: an ordinary element or a head with its children. */
  datatype Item = Tag(element: Element) | Head(children: seq<Element>)

  type Page = seq<Item>

  /** The marker in the script text that is replaced by the lesson's route. */
  const Placeholder: string := "TO_REPLACE_BY_LESSON_ID"

  /** Stand-in for the script text before the marker: the assignment of the route hash. */
  const JsPrefix: string := "window.location.hash = '#/lessons/"

  /** Stand-in for the script text after the marker. */
  const JsSuffix: string := "';"

  /** `JS_ADDITION`: the script text with its single route marker. */
  const JsAddition: string := JsPrefix + Placeholder + JsSuffix

  /** Stand-in for `CSS_ADDITION`, the style text hiding the course navigation. */
  const CssAddition: string := "/*  Added for kolibri usage */"

  /** The element carries tag `tag` and its string is exactly `text`. */
  predicate Holds(e: Element, tag: string, text: string) {
    e.tag == tag && e.text == Some(text)
  }

  /** The item is, or (for a head) contains, an element with that tag and string. */
  predicate ItemHas(item: Item, tag: string, text: string) {
    match item
    case Tag(e) => Holds(e, tag, text)
    case Head(cs) => exists j :: 0 <= j < |cs| && Holds(cs[j], tag, text)
  }

  /** `page.find(tag, string=text)` finds something. */
  predicate PageHas(p: Page, tag: string, text: string) {
    exists i :: 0 <= i < |p| && ItemHas(p[i], tag, text)
  }

  /** `page.find("head")`: the index of the first head, if any. */
  function FindHead(p: Page): (r: Option<nat>)
    ensures r.Some? ==> r.value < |p| && p[r.value].Head?
    ensures r.Some? ==> forall i :: 0 <= i < r.value ==> !p[i].Head?
    ensures r.None? ==> forall i :: 0 <= i < |p| ==> !p[i].Head?
    decreases |p|
  {
    if |p| == 0 then None
    else if p[0].Head? then Some(0)
    else
      match FindHead(p[1..])
      case None => None
      case Some(k) => Some(k + 1)
  }

  /** `head.append(e)` for the head at index `h`. */
  function AppendToHead(p: Page, h: nat, e: Element): (r: Page)
    requires h < |p| && p[h].Head?
    ensures |r| == |p| && r[h] == Head(p[h].children + [e])
    ensures forall i :: 0 <= i < |p| && i != h ==> r[i] == p[i]
  {
    p[h := Head(p[h].children + [e])]
  }

  /** The head the patch appends to: the first one, or a new empty head inserted at position 0. */
  function WithHead(p: Page): (r: (Page, nat))
    ensures r.1 < |r.0| && r.0[r.1].Head?
  {
    match FindHead(p)
    case Some(h) => (p, h)
    case None => ([Head([])] + p, 0)
  }

  /** `JS_ADDITION.replace("TO_REPLACE_BY_LESSON_ID", route)`. */
  function ScriptText(route: string): (text: string)
    ensures text == JsPrefix + route + JsSuffix
  {
    JsAdditionReplaced(route);
    ReplaceAll(JsAddition, Placeholder, route)
  }

  /** The new `<style>` element. */
  function StyleElement(): Element {
    Element("style", Some(CssAddition), [])
  }

  /** The new `<script type="text/javascript">` element for a route. */
  function ScriptElement(route: string): Element {
    Element("script", Some(ScriptText(route)), [("type", "text/javascript")])
  }

  /**
   * `if not page.find(tag, string=text): head.append(e)`, for an element `e`
   * that itself carries that tag and string.
   */
  function AddIfAbsent(p: Page, h: nat, e: Element, tag: string, text: string): (r: Page)
    requires h < |p| && p[h].Head?
    requires Holds(e, tag, text)
    ensures |r| == |p| && r[h].Head?
    ensures PageHas(r, tag, text)
  {
    if PageHas(p, tag, text) then p
    else
      var r := AppendToHead(p, h, e);
      assert r[h].children[|r[h].children| - 1] == e;
      assert ItemHas(r[h], tag, text);
      r
  }

  /**
   * The whole patch for a lesson with route `route`: ensure a head, append the
   * style unless one with exactly that text exists anywhere in the page, then
   * append the script unless an identical script exists anywhere in the page.
   */
  function PatchPage(p: Page, route: string): (r: Page)
    ensures FindHead(r).Some?
    ensures PageHas(r, "style", CssAddition)
    ensures PageHas(r, "script", ScriptText(route))
  {
    var (p1, h) := WithHead(p);
    var p2 := AddIfAbsent(p1, h, StyleElement(), "style", CssAddition);
    var p3 := AddIfAbsent(p2, h, ScriptElement(route), "script", ScriptText(route));
    if PageHas(p2, "script", ScriptText(route)) then p3
    else
      PatchKeepsFound(p2, h, ScriptElement(route), "style", CssAddition);
      assert !FindHead(p3).None? by {
        assert p3[h].Head?;
      }
      p3
  }

  /** Appending to a head never hides an element a search would have found. */
  lemma PatchKeepsFound(p: Page, h: nat, e: Element, tag: string, text: string)
    requires h < |p| && p[h].Head?
    requires PageHas(p, tag, text)
    ensures PageHas(AppendToHead(p, h, e), tag, text)
  {
    var r := AppendToHead(p, h, e);
    var i :| 0 <= i < |p| && ItemHas(p[i], tag, text);
    if i == h {
      var j :| 0 <= j < |p[h].children| && Holds(p[h].children[j], tag, text);
      assert r[h].children[j] == p[h].children[j];
      assert ItemHas(r[h], tag, text);
    } else {
      assert ItemHas(r[i], tag, text);
    }
  }

  /** Appending `e` to a head makes a search succeed exactly when it did before or `e` matches. */
  lemma AppendToHeadHas(p: Page, h: nat, e: Element, tag: string, text: string)
    requires h < |p| && p[h].Head?
    ensures PageHas(AppendToHead(p, h, e), tag, text) <==> PageHas(p, tag, text) || Holds(e, tag, text)
  {
    var r := AppendToHead(p, h, e);
    var cs := p[h].children;
    if PageHas(p, tag, text) {
      PatchKeepsFound(p, h, e, tag, text);
    }
    if Holds(e, tag, text) {
      assert r[h].children[|cs|] == e;
      assert ItemHas(r[h], tag, text);
    }
    if PageHas(r, tag, text) && !Holds(e, tag, text) {
      var i :| 0 <= i < |r| && ItemHas(r[i], tag, text);
      if i == h {
        var j :| 0 <= j < |cs| + 1 && Holds(r[h].children[j], tag, text);
        assert j < |cs| && r[h].children[j] == cs[j];
        assert ItemHas(p[h], tag, text);
      } else {
        assert ItemHas(p[i], tag, text);
      }
    }
  }

  /** What the patch appends to the head: the style, the script, both in that order, or nothing. */
  function Additions(p: Page, route: string): seq<Element> {
    (if PageHas(p, "style", CssAddition) then [] else [StyleElement()])
    + (if PageHas(p, "script", ScriptText(route)) then [] else [ScriptElement(route)])
  }

  /**
   * The patch only appends to one head: with `(q, h)` the page with its head
   * ensured, every other item is unchanged and the head's children gain exactly
   * the missing style and script, the style first.
   */
  lemma PatchPageAppends(p: Page, route: string)
    ensures var (q, h) := WithHead(p);
      && |PatchPage(p, route)| == |q|
      && (forall i :: 0 <= i < |q| && i != h ==> PatchPage(p, route)[i] == q[i])
      && PatchPage(p, route)[h] == Head(q[h].children + Additions(q, route))
  {
    var (q, h) := WithHead(p);
    var st := StyleElement();
    var sc := ScriptElement(route);
    var q2 := AddIfAbsent(q, h, st, "style", CssAddition);
    AppendToHeadHas(q, h, st, "script", ScriptText(route));
    assert PageHas(q2, "script", ScriptText(route)) <==> PageHas(q, "script", ScriptText(route));
    assert q2[h].children == q[h].children + (if PageHas(q, "style", CssAddition) then [] else [st]);
  }

  /**
   * A page without a head gets a new one at position 0 and keeps all its items
   * after it; a page with a head keeps its length and its other items, and the
   * head keeps its children as a prefix.
   */
  lemma PatchPageHead(p: Page, route: string)
    ensures FindHead(p).None? ==>
      PatchPage(p, route)[0].Head? && PatchPage(p, route)[1..] == p
    ensures FindHead(p).Some? ==>
      && |PatchPage(p, route)| == |p|
      && FindHead(PatchPage(p, route)) == FindHead(p)
      && (forall i :: 0 <= i < |p| && i != FindHead(p).value ==> PatchPage(p, route)[i] == p[i])
      && p[FindHead(p).value].children <= PatchPage(p, route)[FindHead(p).value].children
  {
    PatchPageAppends(p, route);
    var r := PatchPage(p, route);
    if FindHead(p).None? {
      assert WithHead(p) == ([Head([])] + p, 0);
      forall i | 0 <= i < |p| ensures r[1..][i] == p[i] {
        assert r[i + 1] == ([Head([])] + p)[i + 1];
      }
    } else {
      var h := FindHead(p).value;
      assert WithHead(p) == (p, h);
      FindHeadAt(r, h);
    }
  }

  /** A head at `h` with no head before it is what `find("head")` returns. */
  lemma {:induction false} FindHeadAt(p: Page, h: nat)
    requires h < |p| && p[h].Head?
    requires forall i :: 0 <= i < h ==> !p[i].Head?
    ensures FindHead(p) == Some(h)
    decreases h
  {
    if h > 0 {
      FindHeadAt(p[1..], h - 1);
    }
  }

  /**
   * On a page holding neither addition, the head ends with the style followed
   * by the script.
   */
  lemma PatchPageStyleBeforeScript(p: Page, route: string)
    requires !PageHas(p, "style", CssAddition) && !PageHas(p, "script", ScriptText(route))
    ensures var h := WithHead(p).1;
      PatchPage(p, route)[h].children == WithHead(p).0[h].children + [StyleElement(), ScriptElement(route)]
  {
    PatchPageAppends(p, route);
    var (q, h) := WithHead(p);
    if FindHead(p).None? {
      forall tag, text | PageHas(q, tag, text) ensures PageHas(p, tag, text) {
        var i :| 0 <= i < |q| && ItemHas(q[i], tag, text);
        assert i > 0 && q[i] == p[i - 1];
      }
    }
  }

  /** Patching an already patched page changes nothing. */
  lemma PatchPageIdempotent(p: Page, route: string)
    ensures PatchPage(PatchPage(p, route), route) == PatchPage(p, route)
  {
    var r := PatchPage(p, route);
    PatchPageAppends(p, route);
    var (q, h) := WithHead(p);
    if FindHead(p).None? {
      FindHeadAt(r, 0);
    } else {
      PatchPageHead(p, route);
    }
    assert WithHead(r) == (r, h);
  }

  /** The route marker occurs in the script text exactly once, right after the prefix. */
  lemma PlaceholderOnce()
    ensures forall i: nat :: OccursAt(JsAddition, Placeholder, i) <==> i == |JsPrefix|
  {
    assert 'T' !in JsPrefix;
    assert forall k :: 0 <= k < |JsPrefix| ==> JsAddition[k] == JsPrefix[k];
    assert forall k :: |JsPrefix| <= k < |JsPrefix| + |Placeholder| ==> JsAddition[k] == Placeholder[k - |JsPrefix|];
    assert forall k :: 0 < k < |Placeholder| ==> Placeholder[k] != 'T';
    forall i: nat | OccursAt(JsAddition, Placeholder, i) ensures i == |JsPrefix| {
      assert JsAddition[i..i + |Placeholder|][0] == Placeholder[0] == 'T';
    }
    assert JsAddition[|JsPrefix|..|JsPrefix| + |Placeholder|] == Placeholder;
  }

  /** Replacing the route marker yields the prefix, the route and the suffix. */
  lemma JsAdditionReplaced(route: string)
    ensures ReplaceAll(JsAddition, Placeholder, route) == JsPrefix + route + JsSuffix
  {
    assert 'T' !in JsPrefix;
    ReplaceAllAfter(JsPrefix, Placeholder, route, JsSuffix);
    ReplaceAllAbsent(JsSuffix, Placeholder, route, 'T');
  }
}
