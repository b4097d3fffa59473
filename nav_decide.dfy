/**
 * The decision engine (navigator_logic.py:119-192) and the entry point that
 * builds the mirror and decides on it (navigator_logic.py:195-210): a
 * depth-first search over the built forest, relative to the anchor, that
 * returns the first node with something to do.
 */
module NavDecide {
  import opened Text
  import opened Paths
  import opened NavTree

  /**
   * The triple `(nav_needed, target, desc)`. The target is the title element
   * of a node, identified here by that node's path; None stands for Python's
   * `None` and for a node without a title element.
   */
  datatype Decision = Decision(navNeeded: bool, target: Option<Path>, desc: Option<string>)

  /** `(False, None, None)`. */
  const NoResult := Decision(false, None, None)

  /** The leaf text that means "nothing further to open" (navigator_logic.py:181). */
  const Sentinel: string := "点击下方继续学习"
  const ExpandPrefix: string := "展开: "
  const EnterPrefix: string := "进入: "
  const PlayingPrefix: string := "正在播放: "
  const AllDone: string := "所有任务已完成"
  const NoCatalogue: string := "未找到目录"

  /** `res[0] or res[2]`: the search stops at a result that needs navigation or carries a description. */
  predicate Found(d: Decision)
  {
    d.navNeeded || (d.desc.Some? && d.desc.value != [])
  }

  /** `if active_path:` — an anchor is present and is a non-empty list. */
  predicate HasAnchor(a: Option<Path>)
  {
    a.Some? && a.value != []
  }

  /** The positional filter of navigator_logic.py:132-134: what it lets through. */
  predicate Eligible(p: Path, a: Option<Path>)
  {
    !HasAnchor(a) || IsGreater(p, a.value) || IsAncestorOrSelf(p, a.value)
  }

  /** `should_expand` (navigator_logic.py:146-149). */
  predicate ShouldExpand(p: Path, a: Option<Path>)
  {
    if !HasAnchor(a) then true
    else if IsGreater(p, a.value) then true
    else IsAncestorOrSelf(p, a.value)
  }

  /** `is_path_parent`: the node is a strict ancestor of the anchor. */
  predicate IsPathParent(p: Path, a: Option<Path>)
  {
    HasAnchor(a) && IsAncestorOrSelf(p, a.value) && p != a.value
  }

  /** `node.title_div` as the click target. */
  function Target(n: Node): Option<Path>
  {
    if n.item.hasTitle then Some(n.path) else None
  }

  // ---------------------------------------------------------------------------
  // The three results the engine can return
  // ---------------------------------------------------------------------------

  predicate IsExpand(n: Node, r: Decision)
  {
    r == Decision(true, Target(n), Some(ExpandPrefix + n.item.text))
  }

  predicate IsEnter(n: Node, r: Decision)
  {
    r == Decision(true, Target(n), Some(EnterPrefix + n.item.text))
  }

  predicate IsPlaying(n: Node, r: Decision)
  {
    r == Decision(false, None, Some(PlayingPrefix + n.item.text))
  }

  // ---------------------------------------------------------------------------
  // The engine, as the source computes it
  // ---------------------------------------------------------------------------

  /** `_recursive_decide(n)` with `active_path` = `a`. */
  function DecideNode(n: Node, a: Option<Path>): (r: Decision)
    ensures r == NoResult || Found(r)
    decreases n, 1
  {
    if !Eligible(n.path, a) then NoResult
    else if n.item.container then
      var fromChildren := if !n.item.collapsed then DecideSeq(n.children, a) else NoResult;
      if Found(fromChildren) then fromChildren
      else if n.item.collapsed && ShouldExpand(n.path, a)
              && (!n.item.completed || IsPathParent(n.path, a)) then
        Decision(true, Target(n), Some(ExpandPrefix + n.item.text))
      else NoResult
    else if HasAnchor(a) && n.path == a.value then
      if n.item.completed then NoResult
      else if n.item.video then Decision(false, None, Some(PlayingPrefix + n.item.text))
      else NoResult
    else if !n.item.completed then
      if Contains(n.item.text, Sentinel) then NoResult
      else Decision(true, Target(n), Some(EnterPrefix + n.item.text))
    else NoResult
  }

  /** The loop over siblings: the first found result of `ns`, in order. */
  function DecideSeq(ns: seq<Node>, a: Option<Path>): (r: Decision)
    ensures r == NoResult || Found(r)
    decreases ns, 0
  {
    if ns == [] then NoResult
    else
      var r := DecideNode(ns[0], a);
      if Found(r) then r else DecideSeq(ns[1..], a)
  }

  /** `decide_action(roots, a)`: the first found result of the forest, or "all done". */
  function DecideAction(roots: seq<Node>, a: Option<Path>): (r: Decision)
    ensures Found(r)
  {
    var r := DecideSeq(roots, a);
    if Found(r) then r else Decision(false, None, Some(AllDone))
  }

  // ---------------------------------------------------------------------------
  // A reference definition: the first node, in pre-order of the searched
  // region, whose own result is not empty
  // ---------------------------------------------------------------------------

  /**
   * What node `n` contributes by itself, without its children: the expand of
   * a collapsed container, the "playing" report of the anchor leaf, or the
   * enter of an unfinished leaf.
   */
  function OwnResult(n: Node, a: Option<Path>): (r: Decision)
    ensures r == NoResult || IsExpand(n, r) || IsEnter(n, r) || IsPlaying(n, r)
  {
    if !Eligible(n.path, a) then NoResult
    else if n.item.container then
      if n.item.collapsed && (!n.item.completed || IsPathParent(n.path, a))
      then Decision(true, Target(n), Some(ExpandPrefix + n.item.text))
      else NoResult
    else if HasAnchor(a) && n.path == a.value then
      if !n.item.completed && n.item.video
      then Decision(false, None, Some(PlayingPrefix + n.item.text))
      else NoResult
    else if !n.item.completed && !Contains(n.item.text, Sentinel)
    then Decision(true, Target(n), Some(EnterPrefix + n.item.text))
    else NoResult
  }

  /**
   * The nodes the search visits under `n`, in the order it visits them: `n`,
   * then its children's regions when `n` is an eligible, open container.
   */
  function Searched(n: Node, a: Option<Path>): seq<Node>
    decreases n, 1
  {
    [n] + (if Eligible(n.path, a) && n.item.container && !n.item.collapsed
           then SearchedSeq(n.children, a) else [])
  }

  function SearchedSeq(ns: seq<Node>, a: Option<Path>): seq<Node>
    decreases ns, 0
  {
    if ns == [] then [] else Searched(ns[0], a) + SearchedSeq(ns[1..], a)
  }

  /** The own result of the first node of `list` that has one, or `NoResult`. */
  function FirstFound(list: seq<Node>, a: Option<Path>): Decision
  {
    if list == [] then NoResult
    else if Found(OwnResult(list[0], a)) then OwnResult(list[0], a)
    else FirstFound(list[1..], a)
  }

  lemma {:induction false} FirstFoundConcat(l1: seq<Node>, l2: seq<Node>, a: Option<Path>)
    ensures FirstFound(l1 + l2, a) ==
              (if Found(FirstFound(l1, a)) then FirstFound(l1, a) else FirstFound(l2, a))
    ensures !Found(FirstFound(l1, a)) ==> FirstFound(l1, a) == NoResult
    decreases |l1|
  {
    if l1 == [] {
      assert l1 + l2 == l2;
    } else {
      assert (l1 + l2)[0] == l1[0] && (l1 + l2)[1..] == l1[1..] + l2;
      FirstFoundConcat(l1[1..], l2, a);
    }
  }

  /**
   * The early-return recursion of `_recursive_decide` returns exactly the
   * first non-empty own result among the nodes it visits, in pre-order.
   */
  lemma {:induction false} DecideIsFirstFound(n: Node, a: Option<Path>)
    ensures DecideNode(n, a) == FirstFound(Searched(n, a), a)
    decreases n, 1
  {
    var rest := if Eligible(n.path, a) && n.item.container && !n.item.collapsed
                then SearchedSeq(n.children, a) else [];
    FirstFoundConcat([n], rest, a);
    assert [n][1..] == [];
    if Eligible(n.path, a) && n.item.container && !n.item.collapsed {
      DecideSeqIsFirstFound(n.children, a);
      FirstFoundConcat(rest, [], a);
      assert rest + [] == rest;
    } else {
      FirstFoundConcat(rest, [], a);
    }
  }

  lemma {:induction false} DecideSeqIsFirstFound(ns: seq<Node>, a: Option<Path>)
    ensures DecideSeq(ns, a) == FirstFound(SearchedSeq(ns, a), a)
    decreases ns, 0
  {
    if ns != [] {
      DecideIsFirstFound(ns[0], a);
      DecideSeqIsFirstFound(ns[1..], a);
      FirstFoundConcat(Searched(ns[0], a), SearchedSeq(ns[1..], a), a);
    }
  }

  /** A node with a non-empty own result passed the positional filter. */
  lemma OwnResultEligible(n: Node, a: Option<Path>)
    requires Found(OwnResult(n, a))
    ensures Eligible(n.path, a)
  {
  }

  /**
   * `FirstFound` names its node: the result is the own result of node `i` of
   * the list, and no earlier node has one.
   */
  lemma {:induction false} FirstFoundAt(list: seq<Node>, a: Option<Path>) returns (i: nat)
    requires Found(FirstFound(list, a))
    ensures i < |list| && FirstFound(list, a) == OwnResult(list[i], a)
    ensures forall j :: 0 <= j < i ==> !Found(OwnResult(list[j], a))
  {
    if Found(OwnResult(list[0], a)) {
      i := 0;
    } else {
      var k := FirstFoundAt(list[1..], a);
      i := k + 1;
      forall j | 0 <= j < i ensures !Found(OwnResult(list[j], a)) {
        if j > 0 { assert list[j] == list[1..][j - 1]; }
      }
    }
  }

  lemma {:induction false} FirstFoundNone(list: seq<Node>, a: Option<Path>)
    requires forall j :: 0 <= j < |list| ==> !Found(OwnResult(list[j], a))
    ensures FirstFound(list, a) == NoResult
  {
    if list != [] {
      assert forall j :: 0 <= j < |list| - 1 ==> list[1..][j] == list[j + 1];
      FirstFoundNone(list[1..], a);
    }
  }

  /** Every node the search visits is a node of the tree, in the tree's pre-order. */
  lemma {:induction false} SearchedInPreOrder(n: Node, a: Option<Path>)
    ensures forall m :: m in Searched(n, a) ==> m in PreOrder(n)
    decreases n, 1
  {
    if Eligible(n.path, a) && n.item.container && !n.item.collapsed {
      SearchedSeqInPreOrder(n.children, a);
    }
  }

  lemma {:induction false} SearchedSeqInPreOrder(ns: seq<Node>, a: Option<Path>)
    ensures forall m :: m in SearchedSeq(ns, a) ==> m in PreOrderSeq(ns)
    decreases ns, 0
  {
    if ns != [] {
      SearchedInPreOrder(ns[0], a);
      SearchedSeqInPreOrder(ns[1..], a);
      PreOrderSeqCons(ns);
    }
  }

  lemma {:induction false} PreOrderSeqCons(ns: seq<Node>)
    requires ns != []
    ensures PreOrderSeq(ns) == PreOrder(ns[0]) + PreOrderSeq(ns[1..])
    decreases |ns|
  {
    if |ns| == 1 {
      assert ns[..0] == [] && ns[1..] == [];
      assert PreOrderSeq(ns) == PreOrderSeq([]) + PreOrder(ns[0]);
    } else {
      var init, tail := ns[..|ns| - 1], ns[1..];
      PreOrderSeqCons(init);
      assert init[0] == ns[0];
      assert tail[..|tail| - 1] == init[1..];
      assert tail[|tail| - 1] == ns[|ns| - 1];
      calc {
        PreOrderSeq(ns);
        PreOrderSeq(init) + PreOrder(ns[|ns| - 1]);
        (PreOrder(ns[0]) + PreOrderSeq(init[1..])) + PreOrder(ns[|ns| - 1]);
        PreOrder(ns[0]) + (PreOrderSeq(init[1..]) + PreOrder(ns[|ns| - 1]));
        PreOrder(ns[0]) + PreOrderSeq(tail);
      }
    }
  }

  /** `s` is `t` with some elements left out and the others kept in their order. */
  predicate Subsequence<T(==)>(s: seq<T>, t: seq<T>)
    decreases |t|
  {
    s == [] || (t != [] && ((s[0] == t[0] && Subsequence(s[1..], t[1..])) || Subsequence(s, t[1..])))
  }

  lemma {:induction false} SubsequenceRefl<T>(s: seq<T>)
    ensures Subsequence(s, s)
    decreases |s|
  {
    if s != [] {
      SubsequenceRefl(s[1..]);
    }
  }

  lemma {:induction false} SubsequenceWiden<T>(c: seq<T>, b: seq<T>, d: seq<T>)
    requires Subsequence(c, d)
    ensures Subsequence(c, b + d)
    decreases |b|
  {
    if b == [] {
      assert b + d == d;
    } else {
      SubsequenceWiden(c, b[1..], d);
      assert (b + d)[1..] == b[1..] + d;
    }
  }

  lemma {:induction false} SubsequenceConcat<T>(a: seq<T>, b: seq<T>, c: seq<T>, d: seq<T>)
    requires Subsequence(a, b) && Subsequence(c, d)
    ensures Subsequence(a + c, b + d)
    decreases |b|
  {
    if a == [] {
      assert a + c == c;
      SubsequenceWiden(c, b, d);
    } else {
      assert (b + d)[1..] == b[1..] + d;
      if a[0] == b[0] && Subsequence(a[1..], b[1..]) {
        SubsequenceConcat(a[1..], b[1..], c, d);
        assert (a + c)[1..] == a[1..] + c;
        assert (a + c)[0] == (b + d)[0];
      } else {
        SubsequenceConcat(a, b[1..], c, d);
      }
    }
  }

  /** The search visits the nodes of a subtree in pre-order, leaving out pruned and collapsed regions. */
  lemma {:induction false} SearchedIsSubsequence(n: Node, a: Option<Path>)
    ensures Subsequence(Searched(n, a), PreOrder(n))
    decreases n, 1
  {
    SubsequenceRefl([n]);
    if Eligible(n.path, a) && n.item.container && !n.item.collapsed {
      SearchedSeqIsSubsequence(n.children, a);
      SubsequenceConcat([n], [n], SearchedSeq(n.children, a), PreOrderSeq(n.children));
    } else {
      assert Subsequence([], PreOrderSeq(n.children));
      SubsequenceConcat([n], [n], [], PreOrderSeq(n.children));
      assert Searched(n, a) == [n] + [];
    }
  }

  lemma {:induction false} SearchedSeqIsSubsequence(ns: seq<Node>, a: Option<Path>)
    ensures Subsequence(SearchedSeq(ns, a), PreOrderSeq(ns))
    decreases ns, 0
  {
    if ns != [] {
      PreOrderSeqCons(ns);
      SearchedIsSubsequence(ns[0], a);
      SearchedSeqIsSubsequence(ns[1..], a);
      SubsequenceConcat(Searched(ns[0], a), PreOrder(ns[0]), SearchedSeq(ns[1..], a), PreOrderSeq(ns[1..]));
    }
  }

  /** No node of the subtree is filtered out, and every node with children is an open container. */
  predicate Unpruned(n: Node, a: Option<Path>)
    decreases n
  {
    && Eligible(n.path, a)
    && (n.children != [] ==> n.item.container && !n.item.collapsed)
    && forall i :: 0 <= i < |n.children| ==> Unpruned(n.children[i], a)
  }

  /** When nothing is pruned or collapsed, the search visits the whole subtree in pre-order. */
  lemma {:induction false} FullSearch(n: Node, a: Option<Path>)
    requires Unpruned(n, a)
    ensures Searched(n, a) == PreOrder(n)
    decreases n, 1
  {
    FullSearchSeq(n.children, a);
  }

  lemma {:induction false} FullSearchSeq(ns: seq<Node>, a: Option<Path>)
    requires forall i :: 0 <= i < |ns| ==> Unpruned(ns[i], a)
    ensures SearchedSeq(ns, a) == PreOrderSeq(ns)
    decreases ns, 0
  {
    if ns != [] {
      PreOrderSeqCons(ns);
      FullSearch(ns[0], a);
      assert forall i :: 0 <= i < |ns| - 1 ==> ns[1..][i] == ns[i + 1];
      FullSearchSeq(ns[1..], a);
    }
  }

  /**
   * A cold start (no anchor) on a fully opened catalogue decides on the first
   * node of the forest's pre-order with a result of its own.
   */
  lemma ColdStartFirstInPreOrder(roots: seq<Node>)
    requires forall i :: 0 <= i < |roots| ==> Unpruned(roots[i], None)
    ensures var first := FirstFound(PreOrderSeq(roots), None);
      DecideAction(roots, None) == if Found(first) then first else Decision(false, None, Some(AllDone))
  {
    DecideSeqIsFirstFound(roots, None);
    FullSearchSeq(roots, None);
  }

  /** The subtree under a node that fails the positional filter fails it everywhere. */
  lemma {:induction false} IneligibleDescendant(p: Path, q: Path, a: Option<Path>)
    requires !Eligible(p, a) && Extends(q, p)
    ensures !Eligible(q, a)
  {
    var b := a.value;
    LessTotal(p, b);
    // p is below the anchor and not its prefix: the two part at a position m
    // where p is smaller, and every extension of p parts from b there too.
    var m := FirstDifference(p, b);
    assert m < |p| && m < |b| && p[..m] == b[..m] && p[m] < b[m] by {
      if m == |b| {
        assert b == p[..|b|];
        PrefixLess(b, p);
      } else if p[m] > b[m] {
        BranchLess(b, p, m);
      }
    }
    assert q[..m] == p[..m] && q[m] == p[m];
    BranchLess(q, b, m);
    LessTotal(q, b);
  }

  /** The first position where `p` and `b` differ, or the shorter length. */
  function FirstDifference(p: Path, b: Path): (m: nat)
    ensures m <= |p| && m <= |b| && p[..m] == b[..m]
    ensures m < |p| && m < |b| ==> p[m] != b[m]
  {
    if p == [] || b == [] || p[0] != b[0] then 0
    else
      var k := FirstDifference(p[1..], b[1..]);
      assert p[..k + 1] == [p[0]] + p[1..][..k];
      assert b[..k + 1] == [b[0]] + b[1..][..k];
      k + 1
  }

  // ---------------------------------------------------------------------------
  // What the decision means
  // ---------------------------------------------------------------------------

  /**
   * Search order and soundness: the decision on a forest is either "all done",
   * when no visited node has a result of its own, or the own result of the
   * FIRST visited node that has one; that node is a node of the forest and
   * passed the positional filter.
   */
  lemma DecideActionSpec(roots: seq<Node>, a: Option<Path>)
    ensures var r := DecideAction(roots, a); var list := SearchedSeq(roots, a);
      && (r == Decision(false, None, Some(AllDone)) <==>
            forall j :: 0 <= j < |list| ==> !Found(OwnResult(list[j], a)))
      && (r != Decision(false, None, Some(AllDone)) ==>
            exists i :: 0 <= i < |list| && FirstAt(list, i, a, r) && list[i] in PreOrderSeq(roots))
  {
    var r, list := DecideAction(roots, a), SearchedSeq(roots, a);
    DecideSeqIsFirstFound(roots, a);
    SearchedSeqInPreOrder(roots, a);
    if forall j :: 0 <= j < |list| ==> !Found(OwnResult(list[j], a)) {
      FirstFoundNone(list, a);
    } else {
      var j :| 0 <= j < |list| && Found(OwnResult(list[j], a));
      FirstFoundFound(list, a, j);
      var i := FirstFoundAt(list, a);
      OwnResultEligible(list[i], a);
      OwnShapes(list[i], a);
      assert FirstAt(list, i, a, r);
    }
  }

  /** Node `i` of `list` is the first with a result, `r` is its result, and it is eligible. */
  predicate FirstAt(list: seq<Node>, i: nat, a: Option<Path>, r: Decision)
  {
    && i < |list| && r == OwnResult(list[i], a) && Found(r)
    && Eligible(list[i].path, a)
    && (forall j :: 0 <= j < i ==> !Found(OwnResult(list[j], a)))
  }

  lemma {:induction false} FirstFoundFound(list: seq<Node>, a: Option<Path>, j: nat)
    requires j < |list| && Found(OwnResult(list[j], a))
    ensures Found(FirstFound(list, a))
    decreases j
  {
    if j > 0 && !Found(OwnResult(list[0], a)) {
      assert list[1..][j - 1] == list[j];
      FirstFoundFound(list[1..], a, j - 1);
    }
  }

  /** The all-done text never collides with a node's own result. */
  lemma OwnShapes(n: Node, a: Option<Path>)
    ensures OwnResult(n, a) != Decision(false, None, Some(AllDone))
  {
    var r := OwnResult(n, a);
    if r.desc.Some? && !r.navNeeded {
      assert r.desc.value[..|PlayingPrefix|] == PlayingPrefix;
      assert AllDone[..|PlayingPrefix|] != PlayingPrefix by {
        assert AllDone[0] != PlayingPrefix[0];
      }
    }
  }

  /**
   * Positional soundness: with an anchor, a node that is neither after the
   * anchor nor on its path is never returned, and nothing under it is searched.
   */
  lemma {:induction false} PrunedSubtree(n: Node, a: Option<Path>)
    requires !Eligible(n.path, a)
    ensures DecideNode(n, a) == NoResult && Searched(n, a) == [n]
    ensures forall m :: m in PreOrder(n) && Extends(m.path, n.path) ==> !Eligible(m.path, a)
  {
    forall m | m in PreOrder(n) && Extends(m.path, n.path) ensures !Eligible(m.path, a) {
      IneligibleDescendant(n.path, m.path, a);
    }
  }

  /** The children of a collapsed container are never searched. */
  lemma CollapsedNotSearched(n: Node, a: Option<Path>)
    requires n.item.collapsed
    ensures Searched(n, a) == [n]
    ensures forall cs :: DecideNode(Node(n.path, n.item, cs), a) == DecideNode(n, a)
  {
  }

  /**
   * The expand rule: only a collapsed container is expanded, and only when it
   * is not completed or is a strict ancestor of the anchor; `should_expand`
   * always holds once the positional filter has passed.
   */
  lemma ExpandRule(n: Node, a: Option<Path>)
    ensures IsExpand(n, OwnResult(n, a)) ==>
              n.item.container && n.item.collapsed && (!n.item.completed || IsPathParent(n.path, a))
    ensures Eligible(n.path, a) ==> ShouldExpand(n.path, a)
  {
    assert (ExpandPrefix + n.item.text)[0] != (EnterPrefix + n.item.text)[0];
  }

  /**
   * The leaf rules: "playing" only for the anchor leaf that is an unfinished
   * video, with no navigation and no target; "enter" only for an unfinished
   * leaf that is not the anchor and whose text lacks the sentinel.
   */
  lemma LeafRules(n: Node, a: Option<Path>)
    requires !n.item.container
    ensures var r := OwnResult(n, a);
      && (Found(r) && !r.navNeeded <==>
            HasAnchor(a) && n.path == a.value && !n.item.completed && n.item.video)
      && (Found(r) && !r.navNeeded ==> IsPlaying(n, r))
      && (r.navNeeded <==>
            Eligible(n.path, a) && !(HasAnchor(a) && n.path == a.value)
            && !n.item.completed && !Contains(n.item.text, Sentinel))
      && (r.navNeeded ==> IsEnter(n, r))
  {
    var r := OwnResult(n, a);
    if HasAnchor(a) && n.path == a.value {
      assert Eligible(n.path, a) by {
        assert n.path[..|n.path|] == n.path;
      }
    }
  }

  // ---------------------------------------------------------------------------
  // The entry point
  // ---------------------------------------------------------------------------

  /**
   * `get_navigation_action`: "catalogue not found" when the root list is
   * missing, otherwise the decision on the mirror built under the URL.
   */
  function NavigationSpec(catalogue: Option<seq<Element>>, url: string): (r: Decision)
    ensures catalogue.None? ==> r == Decision(false, None, Some(NoCatalogue))
    ensures catalogue.Some? ==>
      var forest := MirrorForest(catalogue.value, ClassifierAt(url));
      r == DecideAction(forest, LastActive(PreOrderSeq(forest), None))
  {
    if catalogue.None? then Decision(false, None, Some(NoCatalogue))
    else
      var forest := MirrorForest(catalogue.value, ClassifierAt(url));
      BuildAnchorIsLastActive(catalogue.value, ClassifierAt(url));
      DecideAction(forest, AnchorAfterSeq(forest, None))
  }

  /** `get_navigation_action` as the source performs it: build, then decide. */
  method GetNavigationAction(catalogue: Option<seq<Element>>, url: string) returns (r: Decision)
    ensures r == NavigationSpec(catalogue, url)
  {
    if catalogue.None? {
      return Decision(false, None, Some(NoCatalogue));
    }
    var forest, anchor := BuildTree(catalogue.value, url);
    r := DecideAction(forest, anchor);
  }
}
