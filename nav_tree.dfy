/**
 * The in-memory mirror of the course catalogue (navigator_logic.py:8-113):
 * the classification of one catalogue element (`VirtualItem.__init__`), the
 * pre-order build that numbers every node with an index path, and the anchor
 * the build records on the way.
 */
module NavTree {
  import opened Text
  import opened Paths

  /** Which icon descendants a title element has. */
  datatype Icons = Icons(arrow: bool, video: bool)

  /**
   * A title element (class contains "basic"): its raw text, its `href`
   * attribute and its `class` attribute ("" when absent, as `or ""` makes it),
   * and whether `.icon-xiangxia, .icon-xiangshang` resp. `.icon-video`
   * descendants exist.
   */
  datatype TitleDiv = TitleDiv(text: string, href: string, cls: string, icons: Icons)

  /**
   * A catalogue element as the page resolves it: its tag, its `class`
   * ("" when absent), its own text, `href` and icons (read when the element is
   * itself a title), its first `./div[contains(@class,"basic")]` child, the
   * elements `./div[contains(@class,"resourcelist")]/div[contains(@class,"basic")]`
   * and the elements `./ul/li`.
   */
  datatype Element = Element(
    tag: string,
    cls: string,
    text: string,
    href: string,
    icons: Icons,
    basicChild: Option<TitleDiv>,
    resources: seq<Element>,
    subItems: seq<Element>)

  /** The classification of one element, fixed when its node is built. */
  datatype Item = Item(
    text: string,
    hasTitle: bool,
    completed: bool,
    active: bool,
    unopen: bool,
    selfActive: bool,
    container: bool,
    collapsed: bool,
    video: bool)

  /** A node of the mirror: its index path, its classification, its children. */
  datatype Node = Node(path: Path, item: Item, children: seq<Node>)

  const FilesWords: seq<string> := ["附件", "文档"]
  const QuizWords: seq<string> := ["测验", "测试", "作业", "考试"]
  const VideoWord: string := "视频"

  /** `any(k in text for k in keys)`. */
  predicate AnyIn(text: string, keys: seq<string>)
  {
    exists i :: 0 <= i < |keys| && Contains(text, keys[i])
  }

  /** The title element: the element itself when its class contains "basic", else its basic child. */
  function TitleOf(e: Element): Option<TitleDiv>
  {
    if Contains(e.cls, "basic") then Some(TitleDiv(e.text, e.href, e.cls, e.icons)) else e.basicChild
  }

  /** Resource children are looked up only under `li` elements. */
  function ChildRes(e: Element): seq<Element>
  {
    if e.tag == "li" then e.resources else []
  }

  function ChildUl(e: Element): seq<Element>
  {
    if e.tag == "li" then e.subItems else []
  }

  function NumKids(e: Element): nat
  {
    |ChildRes(e)| + |ChildUl(e)|
  }

  /** The k-th child (0-based) in build order: resource children first, then `ul` children. */
  function Kid(e: Element, k: nat): Element
    requires k < NumKids(e)
  {
    if k < |ChildRes(e)| then ChildRes(e)[k] else ChildUl(e)[k - |ChildRes(e)|]
  }

  /** The id rule: the last digit run of `href`, if longer than 4, occurs in the URL. */
  predicate IdMatches(href: string, url: string)
  {
    var id := LastDigitRun(href);
    id.Some? && |id.value| > 4 && Contains(url, id.value)
  }

  /** The category rule for attachment (`/files`) and quiz (`/quiz`) pages. */
  predicate SemanticMatch(text: string, url: string)
  {
    || (Contains(url, "/files") && AnyIn(text, FilesWords))
    || (Contains(url, "/quiz") && AnyIn(text, QuizWords))
  }

  /** The anchor test of navigator_logic.py:41-54, in the order the code tries its rules. */
  predicate SelfActiveRule(active: bool, href: string, text: string, url: string)
  {
    if active then true
    else if IdMatches(href, url) then true
    else if Contains(url, "/files") || Contains(url, "/quiz") then SemanticMatch(text, url)
    else false
  }

  /** `VirtualItem.__init__`: the flags of one element, given the current URL. */
  function Classify(e: Element, url: string): Item
  {
    var title := TitleOf(e);
    var text := if title.Some? then Normalize(title.value.text) else "Unknown";
    var href := if title.Some? then title.value.href else "";
    var titleClass := if title.Some? then title.value.cls else "";
    var completed := Contains(titleClass, "complete") && !Contains(titleClass, "uncomplete");
    var active := Contains(titleClass, "active");
    var unopen := Contains(e.cls, "unopen");
    var hasArrow := title.Some? && title.value.icons.arrow;
    var hasKids := |ChildRes(e)| > 0 || |ChildUl(e)| > 0;
    var container := hasKids || hasArrow;
    var collapsed := container && (unopen || !hasKids);
    var video := !container && title.Some? && (title.value.icons.video || Contains(text, VideoWord));
    Item(text, title.Some?, completed, active, unopen,
         SelfActiveRule(active, href, text, url), container, collapsed, video)
  }

  /** What the flags of navigator_logic.py:36-75 mean for the element they describe. */
  lemma {:induction false} ClassifyFlags(e: Element, url: string)
    ensures var it := Classify(e, url);
      && (it.hasTitle <==> TitleOf(e).Some?)
      && (it.completed <==> TitleOf(e).Some? && Contains(TitleOf(e).value.cls, "complete")
                            && !Contains(TitleOf(e).value.cls, "uncomplete"))
      && (it.container <==> NumKids(e) > 0 || (TitleOf(e).Some? && TitleOf(e).value.icons.arrow))
      && (it.collapsed <==> it.container && (Contains(e.cls, "unopen") || NumKids(e) == 0))
      && (it.video <==> !it.container && TitleOf(e).Some?
                        && (TitleOf(e).value.icons.video || Contains(it.text, VideoWord)))
      && (e.tag != "li" ==> (it.container <==> TitleOf(e).Some? && TitleOf(e).value.icons.arrow))
      && (!it.hasTitle ==> it.text == "Unknown" && !it.completed && !it.video && !it.selfActive)
  {
    if TitleOf(e).None? {
      UntitledNeverActive(url);
    }
  }

  /** An untitled item ("Unknown", no class, no link) is never the anchor: no category word occurs in "Unknown". */
  lemma UntitledNeverActive(url: string)
    ensures !SelfActiveRule(false, "", "Unknown", url)
  {
    forall i | 0 <= i < |FilesWords| ensures !Contains("Unknown", FilesWords[i]) {
      MissingHeadNotContained("Unknown", FilesWords[i]);
    }
    forall i | 0 <= i < |QuizWords| ensures !Contains("Unknown", QuizWords[i]) {
      MissingHeadNotContained("Unknown", QuizWords[i]);
    }
  }

  /** The three anchor rules: an active title, a matching id, or (only if the id test fails) a category word. */
  lemma {:induction false} SelfActiveRules(active: bool, href: string, text: string, url: string)
    ensures SelfActiveRule(active, href, text, url) <==>
              active || IdMatches(href, url) || SemanticMatch(text, url)
  {
  }

  // ---------------------------------------------------------------------------
  // The mirror the build produces, as functions
  // ---------------------------------------------------------------------------

  /**
   * The classification the build applies to every element: `VirtualItem`
   * under the page's current URL.
   */
  function ClassifierAt(url: string): Element -> Item
  {
    e => Classify(e, url)
  }

  /*
   * The mirror and the build below take the classifier as a parameter
   * (`ClassifierAt(url)` in `BuildTree`), so that their structural lemmas hold
   * for every classification.
   */

  /** The node `_recursive_build(e, path)` returns. */
  function MirrorNode(e: Element, path: Path, cl: Element -> Item): Node
    decreases e, 1
  {
    Node(path, cl(e),
         if e.tag != "li" then []
         else MirrorList(e.resources, path, 1, cl, |e.resources|)
              + MirrorList(e.subItems, path, |e.resources| + 1, cl, |e.subItems|))
  }

  /** The first `n` elements of `es` mirrored as children of `parent`, numbered from `first`. */
  function MirrorList(es: seq<Element>, parent: Path, first: nat, cl: Element -> Item, n: nat): (r: seq<Node>)
    requires n <= |es|
    ensures |r| == n
    decreases es, 0, n
  {
    if n == 0 then []
    else MirrorList(es, parent, first, cl, n - 1) + [MirrorNode(es[n - 1], parent + [first + n - 1], cl)]
  }

  /** The roots `build_tree_and_find_anchor` returns: root `i` gets path `[i + 1]`. */
  function MirrorForest(roots: seq<Element>, cl: Element -> Item): seq<Node>
  {
    MirrorList(roots, [], 1, cl, |roots|)
  }

  lemma {:induction false} MirrorListAt(es: seq<Element>, parent: Path, first: nat, cl: Element -> Item, n: nat, j: nat)
    requires n <= |es| && j < n
    ensures MirrorList(es, parent, first, cl, n)[j] == MirrorNode(es[j], parent + [first + j], cl)
  {
    var prev := MirrorList(es, parent, first, cl, n - 1);
    var last := MirrorNode(es[n - 1], parent + [first + n - 1], cl);
    assert MirrorList(es, parent, first, cl, n) == prev + [last];
    if j < n - 1 {
      MirrorListAt(es, parent, first, cl, n - 1, j);
      assert (prev + [last])[j] == prev[j];
    } else {
      assert (prev + [last])[j] == last;
    }
  }

  /**
   * Path numbering: a node has one child per resource and `ul` child, the
   * resource children first, and child `k` (0-based) has the parent's path
   * extended by `k + 1`.
   */
  lemma {:induction false} MirrorChildAt(e: Element, path: Path, cl: Element -> Item, k: nat)
    requires k < NumKids(e)
    ensures MirrorNode(e, path, cl).path == path
    ensures |MirrorNode(e, path, cl).children| == NumKids(e)
    ensures MirrorNode(e, path, cl).children[k] == MirrorNode(Kid(e, k), path + [k + 1], cl)
  {
    var res, uls := ChildRes(e), ChildUl(e);
    if k < |res| {
      MirrorListAt(res, path, 1, cl, |res|, k);
    } else {
      MirrorListAt(uls, path, |res| + 1, cl, |uls|, k - |res|);
    }
  }

  lemma {:induction false} MirrorChildCount(e: Element, path: Path, cl: Element -> Item)
    ensures MirrorNode(e, path, cl).path == path
    ensures |MirrorNode(e, path, cl).children| == NumKids(e)
  {
  }

  /** Root `i` of the forest is the mirror of `roots[i]` with path `[i + 1]`. */
  lemma {:induction false} MirrorRootAt(roots: seq<Element>, cl: Element -> Item, i: nat)
    requires i < |roots|
    ensures |MirrorForest(roots, cl)| == |roots|
    ensures MirrorForest(roots, cl)[i] == MirrorNode(roots[i], [i + 1], cl)
  {
    MirrorListAt(roots, [], 1, cl, |roots|, i);
    assert [] + [1 + i] == [i + 1];
  }

  // ---------------------------------------------------------------------------
  // The anchor the build records
  // ---------------------------------------------------------------------------

  /**
   * `active_path` after building the subtree `n` starting from `acc`: every
   * self-active node overwrites it (navigator_logic.py:88-89).
   */
  function AnchorAfter(n: Node, acc: Option<Path>): Option<Path>
    decreases n, 1
  {
    AnchorAfterSeq(n.children, if n.item.selfActive then Some(n.path) else acc)
  }

  function AnchorAfterSeq(ns: seq<Node>, acc: Option<Path>): Option<Path>
    decreases ns, 0
  {
    if ns == [] then acc else AnchorAfter(ns[|ns| - 1], AnchorAfterSeq(ns[..|ns| - 1], acc))
  }

  /** The nodes of `n` in pre-order. */
  function PreOrder(n: Node): seq<Node>
    decreases n, 1
  {
    [n] + PreOrderSeq(n.children)
  }

  function PreOrderSeq(ns: seq<Node>): seq<Node>
    decreases ns, 0
  {
    if ns == [] then [] else PreOrderSeq(ns[..|ns| - 1]) + PreOrder(ns[|ns| - 1])
  }

  /** Reference definition: the path of the last self-active node of `list`, or `acc` when there is none. */
  function LastActive(list: seq<Node>, acc: Option<Path>): Option<Path>
  {
    if list == [] then acc
    else if list[|list| - 1].item.selfActive then Some(list[|list| - 1].path)
    else LastActive(list[..|list| - 1], acc)
  }

  lemma {:induction false} LastActiveConcat(a: seq<Node>, b: seq<Node>, acc: Option<Path>)
    ensures LastActive(a + b, acc) == LastActive(b, LastActive(a, acc))
    decreases |b|
  {
    if b == [] {
      assert a + b == a;
    } else {
      assert (a + b)[..|a + b| - 1] == a + b[..|b| - 1];
      LastActiveConcat(a, b[..|b| - 1], acc);
    }
  }

  /** The anchor the build threads through a subtree is the last self-active node of its pre-order. */
  lemma {:induction false} AnchorIsLastActive(n: Node, acc: Option<Path>)
    ensures AnchorAfter(n, acc) == LastActive(PreOrder(n), acc)
    decreases n, 1
  {
    AnchorSeqIsLastActive(n.children, if n.item.selfActive then Some(n.path) else acc);
    LastActiveConcat([n], PreOrderSeq(n.children), acc);
    assert LastActive([n], acc) == (if n.item.selfActive then Some(n.path) else acc) by {
      assert [n][..0] == [];
    }
  }

  lemma {:induction false} AnchorSeqIsLastActive(ns: seq<Node>, acc: Option<Path>)
    ensures AnchorAfterSeq(ns, acc) == LastActive(PreOrderSeq(ns), acc)
    decreases ns, 0
  {
    if ns != [] {
      var init, last := ns[..|ns| - 1], ns[|ns| - 1];
      AnchorSeqIsLastActive(init, acc);
      AnchorIsLastActive(last, AnchorAfterSeq(init, acc));
      LastActiveConcat(PreOrderSeq(init), PreOrder(last), acc);
    }
  }

  /**
   * `LastActive(list, None)` is the path of the LAST self-active node of
   * `list` (every later node is not self-active), and None exactly when no
   * node of `list` is self-active.
   */
  lemma {:induction false} LastActiveSpec(list: seq<Node>)
    ensures LastActive(list, None).None? <==> forall i :: 0 <= i < |list| ==> !list[i].item.selfActive
    ensures LastActive(list, None).Some? ==>
              exists i :: 0 <= i < |list| && list[i].item.selfActive && list[i].path == LastActive(list, None).value
                          && forall j :: i < j < |list| ==> !list[j].item.selfActive
    decreases |list|
  {
    if list != [] {
      var init, last := list[..|list| - 1], list[|list| - 1];
      LastActiveSpec(init);
      assert forall j :: 0 <= j < |init| ==> list[j] == init[j];
      if last.item.selfActive {
        LastIsActive(list);
      } else {
        assert LastActive(list, None) == LastActive(init, None);
        if LastActive(init, None).Some? {
          var i :| 0 <= i < |init| && init[i].item.selfActive && init[i].path == LastActive(init, None).value
                   && forall j :: i < j < |init| ==> !init[j].item.selfActive;
          assert list[i] == init[i];
          LaterInactive(list, init, i);
        }
      }
    }
  }

  /** When the last node is self-active, it is the witness of `LastActiveSpec`. */
  lemma LastIsActive(list: seq<Node>)
    requires list != [] && list[|list| - 1].item.selfActive
    ensures LastActive(list, None) == Some(list[|list| - 1].path)
    ensures exists i :: 0 <= i < |list| && list[i].item.selfActive && list[i].path == LastActive(list, None).value
                        && forall j :: i < j < |list| ==> !list[j].item.selfActive
  {
    var i := |list| - 1;
    assert list[i].item.selfActive && list[i].path == LastActive(list, None).value;
  }

  /** Extending the "nothing later is active" range of an inner witness by an inactive last node. */
  lemma LaterInactive(list: seq<Node>, init: seq<Node>, i: nat)
    requires list != [] && init == list[..|list| - 1] && i < |init| && !list[|list| - 1].item.selfActive
    requires forall j :: i < j < |init| ==> !init[j].item.selfActive
    ensures forall j :: i < j < |list| ==> !list[j].item.selfActive
  {
    forall j | i < j < |list| ensures !list[j].item.selfActive {
      if j < |init| {
        assert list[j] == init[j];
      }
    }
  }

  // ---------------------------------------------------------------------------
  // The build, as the source performs it
  // ---------------------------------------------------------------------------

  /** One more element mirrored at the end of the list. */
  lemma MirrorListSnoc(es: seq<Element>, parent: Path, first: nat, cl: Element -> Item, i: nat, k: nat, child: Node)
    requires i < |es| && k == first + i && child == MirrorNode(es[i], parent + [k], cl)
    ensures MirrorList(es, parent, first, cl, i + 1) == MirrorList(es, parent, first, cl, i) + [child]
  {
  }

  /** The anchor threads through two lists of siblings one after the other. */
  lemma {:induction false} AnchorSeqConcat(a: seq<Node>, b: seq<Node>, acc: Option<Path>)
    ensures AnchorAfterSeq(a + b, acc) == AnchorAfterSeq(b, AnchorAfterSeq(a, acc))
    decreases |b|
  {
    if b == [] {
      assert a + b == a;
    } else {
      assert (a + b)[..|a + b| - 1] == a + b[..|b| - 1];
      AnchorSeqConcat(a, b[..|b| - 1], acc);
    }
  }

  /** The anchor after one more subtree is that subtree's anchor from the previous one. */
  lemma AnchorSeqSnoc(ns: seq<Node>, n: Node, acc: Option<Path>)
    ensures AnchorAfterSeq(ns + [n], acc) == AnchorAfter(n, AnchorAfterSeq(ns, acc))
  {
    assert (ns + [n])[..|ns|] == ns;
  }

  /**
   * `_recursive_build(e, path)` with `active_path` passed in as `anchorIn`:
   * it classifies `e`, records `path` as the anchor when the node is
   * self-active, then numbers and builds the resource children and the `ul`
   * children in that order, one shared `child_counter` across both loops.
   */
  method BuildNode(e: Element, path: Path, cl: Element -> Item, anchorIn: Option<Path>) returns (node: Node, anchor: Option<Path>)
    ensures node == MirrorNode(e, path, cl)
    ensures anchor == AnchorAfter(node, anchorIn)
    decreases e, 2
  {
    var item := cl(e);
    anchor := anchorIn;
    if item.selfActive {
      anchor := Some(path);
    }
    var children: seq<Node> := [];
    if e.tag == "li" {
      ghost var start := anchor;
      var fromRes, counter, fromUl;
      fromRes, anchor, counter := BuildSiblings(e.resources, path, 0, cl, anchor);
      fromUl, anchor, counter := BuildSiblings(e.subItems, path, counter, cl, anchor);
      AnchorSeqConcat(fromRes, fromUl, start);
      children := fromRes + fromUl;
    }
    node := Node(path, item, children);
  }

  /**
   * One `for` loop of `_recursive_build`: each element of `es` gets the next
   * value of the counter (which stands at `counterIn` before the loop) as its
   * last path index, and its subtree is built and appended in turn.
   */
  method BuildSiblings(es: seq<Element>, path: Path, counterIn: nat, cl: Element -> Item, anchorIn: Option<Path>)
    returns (children: seq<Node>, anchor: Option<Path>, counter: nat)
    ensures children == MirrorList(es, path, counterIn + 1, cl, |es|)
    ensures anchor == AnchorAfterSeq(children, anchorIn)
    ensures counter == counterIn + |es|
    decreases es, 1
  {
    children := [];
    anchor := anchorIn;
    counter := counterIn;
    for i := 0 to |es|
      invariant counter == counterIn + i
      invariant children == MirrorList(es, path, counterIn + 1, cl, i)
      invariant anchor == AnchorAfterSeq(children, anchorIn)
    {
      counter := counter + 1;
      children, anchor := BuildSibling(es, path, counterIn, cl, anchorIn, i, children, anchor);
    }
  }

  /** One iteration of that loop: element `i` is numbered `counterIn + i + 1`, built and appended. */
  method BuildSibling(es: seq<Element>, path: Path, counterIn: nat, cl: Element -> Item, anchorIn: Option<Path>,
                      i: nat, children: seq<Node>, anchor: Option<Path>)
    returns (children': seq<Node>, anchor': Option<Path>)
    requires i < |es|
    requires children == MirrorList(es, path, counterIn + 1, cl, i)
    requires anchor == AnchorAfterSeq(children, anchorIn)
    ensures children' == MirrorList(es, path, counterIn + 1, cl, i + 1)
    ensures anchor' == AnchorAfterSeq(children', anchorIn)
    decreases es, 0
  {
    var counter := counterIn + i + 1;
    var child, a := BuildNode(es[i], path + [counter], cl, anchor);
    MirrorListSnoc(es, path, counterIn + 1, cl, i, counter, child);
    AnchorSeqSnoc(children, child, anchorIn);
    children' := children + [child];
    anchor' := a;
  }

  /** `build_tree_and_find_anchor`: the forest of mirrored roots and the anchor path. */
  method BuildTree(roots: seq<Element>, url: string) returns (forest: seq<Node>, anchor: Option<Path>)
    ensures forest == MirrorForest(roots, ClassifierAt(url))
    ensures anchor == AnchorAfterSeq(forest, None)
  {
    var cl := ClassifierAt(url);
    forest := [];
    anchor := None;
    for i := 0 to |roots|
      invariant forest == MirrorList(roots, [], 1, cl, i)
      invariant anchor == AnchorAfterSeq(forest, None)
    {
      forest, anchor := BuildRoot(roots, cl, i, forest, anchor);
    }
  }

  /** One iteration of that loop: root `i` gets path `[i + 1]`, is built and appended. */
  method BuildRoot(roots: seq<Element>, cl: Element -> Item, i: nat, forest: seq<Node>, anchor: Option<Path>)
    returns (forest': seq<Node>, anchor': Option<Path>)
    requires i < |roots|
    requires forest == MirrorList(roots, [], 1, cl, i)
    requires anchor == AnchorAfterSeq(forest, None)
    ensures forest' == MirrorList(roots, [], 1, cl, i + 1)
    ensures anchor' == AnchorAfterSeq(forest', None)
  {
    var path := [i + 1];
    var node, a := BuildNode(roots[i], path, cl, anchor);
    assert [] + [i + 1] == path;
    MirrorListSnoc(roots, [], 1, cl, i, i + 1, node);
    AnchorSeqSnoc(forest, node, None);
    forest' := forest + [node];
    anchor' := a;
  }

  /** The anchor the build returns is the last self-active node of the forest in pre-order. */
  lemma {:induction false} BuildAnchorIsLastActive(roots: seq<Element>, cl: Element -> Item)
    ensures AnchorAfterSeq(MirrorForest(roots, cl), None) == LastActive(PreOrderSeq(MirrorForest(roots, cl)), None)
  {
    AnchorSeqIsLastActive(MirrorForest(roots, cl), None);
  }

  // ---------------------------------------------------------------------------
  // Paths are distinct and follow pre-order
  // ---------------------------------------------------------------------------

  /** Child `k` (0-based) of every node has the parent's path extended by `k + 1`. */
  ghost predicate WellNumbered(n: Node)
    decreases n, 1
  {
    SiblingsNumbered(n.children, n.path)
  }

  /** `cs[k]` has path `parent + [k + 1]`, and each is well numbered. */
  ghost predicate SiblingsNumbered(cs: seq<Node>, parent: Path)
    decreases cs, 0
  {
    forall k :: 0 <= k < |cs| ==> cs[k].path == parent + [k + 1] && WellNumbered(cs[k])
  }

  lemma {:induction false} MirrorWellNumbered(e: Element, path: Path, cl: Element -> Item)
    ensures MirrorNode(e, path, cl).path == path
    ensures WellNumbered(MirrorNode(e, path, cl))
    decreases e
  {
    var n := MirrorNode(e, path, cl);
    MirrorChildCount(e, path, cl);
    forall k | 0 <= k < |n.children|
      ensures n.children[k].path == path + [k + 1] && WellNumbered(n.children[k])
    {
      MirrorChildAt(e, path, cl, k);
      MirrorWellNumbered(Kid(e, k), path + [k + 1], cl);
    }
  }

  lemma {:induction false} ForestNumbered(roots: seq<Element>, cl: Element -> Item)
    ensures SiblingsNumbered(MirrorForest(roots, cl), [])
  {
    var f := MirrorForest(roots, cl);
    forall k | 0 <= k < |f| ensures f[k].path == [] + [k + 1] && WellNumbered(f[k]) {
      MirrorRootAt(roots, cl, k);
      MirrorWellNumbered(roots[k], [k + 1], cl);
    }
  }

  /** Paths strictly increase along the list, in Python's list order. */
  ghost predicate Ascending(ns: seq<Node>)
  {
    forall i, j :: 0 <= i < j < |ns| ==> Less(ns[i].path, ns[j].path)
  }

  lemma {:induction false} AscendingConcat(a: seq<Node>, b: seq<Node>)
    requires Ascending(a) && Ascending(b)
    requires forall i, j :: 0 <= i < |a| && 0 <= j < |b| ==> Less(a[i].path, b[j].path)
    ensures Ascending(a + b)
  {
    forall i, j | 0 <= i < j < |a + b| ensures Less((a + b)[i].path, (a + b)[j].path) {
      if j < |a| {
        assert (a + b)[i] == a[i] && (a + b)[j] == a[j];
      } else if i >= |a| {
        assert (a + b)[i] == b[i - |a|] && (a + b)[j] == b[j - |a|];
      } else {
        assert (a + b)[i] == a[i] && (a + b)[j] == b[j - |a|];
      }
    }
  }

  /** Every node of a well-numbered subtree extends the root's path, and pre-order is ascending. */
  lemma {:induction false} SubtreeOrdered(n: Node)
    requires WellNumbered(n)
    ensures Ascending(PreOrder(n))
    ensures forall i :: 0 <= i < |PreOrder(n)| ==> Extends(PreOrder(n)[i].path, n.path)
    decreases n, 1
  {
    var cs := n.children;
    SiblingsOrdered(cs, n.path, |cs|);
    assert cs[..|cs|] == cs;
    var rest := PreOrderSeq(cs);
    forall j | 0 <= j < |rest| ensures Less(n.path, rest[j].path) {
      PrefixLess(n.path, rest[j].path);
    }
    AscendingConcat([n], rest);
  }

  /**
   * The pre-order of the first `k` siblings is ascending; each of its nodes
   * extends `parent` by a branch number between 1 and `k`.
   */
  lemma {:induction false} SiblingsOrdered(cs: seq<Node>, parent: Path, k: nat)
    requires SiblingsNumbered(cs, parent) && k <= |cs|
    ensures Ascending(PreOrderSeq(cs[..k]))
    ensures forall i :: 0 <= i < |PreOrderSeq(cs[..k])| ==>
              var q := PreOrderSeq(cs[..k])[i].path;
              Extends(q, parent) && |q| > |parent| && 1 <= q[|parent|] <= k
    decreases cs, 0, k
  {
    if k > 0 {
      var c := cs[k - 1];
      assert cs[..k][..k - 1] == cs[..k - 1];
      SiblingsOrdered(cs, parent, k - 1);
      SubtreeOrdered(c);
      var left, right := PreOrderSeq(cs[..k - 1]), PreOrder(c);
      assert PreOrderSeq(cs[..k]) == left + right;
      forall j | 0 <= j < |right|
        ensures var q := right[j].path; Extends(q, parent) && |q| > |parent| && q[|parent|] == k
      {
        var q := right[j].path;
        assert q[..|c.path|] == parent + [k];
        assert q[..|parent|] == (parent + [k])[..|parent|];
        assert q[|parent|] == (parent + [k])[|parent|];
      }
      forall i, j | 0 <= i < |left| && 0 <= j < |right| ensures Less(left[i].path, right[j].path) {
        BranchLess(left[i].path, right[j].path, |parent|);
      }
      AscendingConcat(left, right);
      forall i | 0 <= i < |left + right|
        ensures var q := (left + right)[i].path; Extends(q, parent) && |q| > |parent| && 1 <= q[|parent|] <= k
      {
        if i < |left| { assert (left + right)[i] == left[i]; } else { assert (left + right)[i] == right[i - |left|]; }
      }
    }
  }

  /** All paths of the built forest are distinct and strictly increase in pre-order. */
  lemma {:induction false} ForestOrdered(roots: seq<Element>, cl: Element -> Item)
    ensures Ascending(PreOrderSeq(MirrorForest(roots, cl)))
    ensures forall i, j :: 0 <= i < j < |PreOrderSeq(MirrorForest(roots, cl))| ==>
              PreOrderSeq(MirrorForest(roots, cl))[i].path != PreOrderSeq(MirrorForest(roots, cl))[j].path
  {
    var f := MirrorForest(roots, cl);
    ForestNumbered(roots, cl);
    SiblingsOrdered(f, [], |f|);
    assert f[..|f|] == f;
    var list := PreOrderSeq(f);
    forall i, j | 0 <= i < j < |list| ensures list[i].path != list[j].path {
      LessIrreflexive(list[i].path);
    }
  }
}
