# Uooc auto-play: navigator, answer synchroniser and main loop in Dafny

This project models the core of a script that drives a Uooc online course in a
browser tab. The script plays each video lesson in turn and answers the quizzes
that pop up along the way. The model covers three parts.

* **The navigator** (`navigator_logic.py`), in three steps:
  * It mirrors the catalogue (`#catologOuter > ul.rank-1`) as a tree of items.
    * Each item is numbered by its path of 1-based sibling positions.
  * It classifies every item from its classes, icons, link and text, and
    locates the *anchor*: the item the site currently treats as open.
  * A depth-first search, relative to the anchor, returns one decision:
    * expand a collapsed chapter;
    * enter an unfinished lesson;
    * report that the anchored video is playing;
    * or report that everything is done.
* **The quiz solver** (`answer_logic.py`):
  * It reads the options of the visible quiz layer, keyed by their upper-cased value.
  * It reads which options are selected.
  * It clicks the difference between the current selection and a target selection.
  * It submits the answer and polls the page. The page may close the layer, or
    it may disclose the correct answer letters.
  * On a disclosure, one second round with those letters follows.
* **The main loop** (`main.py:92-279`):
  * `safe_scan_and_click` retries the navigator up to six times.
  * The four-state loop cycles through SCAN, SWITCH, WATCH and QUIZ_MODE.
  * Above the states sit a forced refresh every 1800 s, quiz detection
    that preempts all other work, and a watchdog. Outside QUIZ_MODE, the
    watchdog refreshes the tab and returns to SCAN after more than 300 s
    without progress, whether the loop is in SCAN, SWITCH or WATCH.

Modules follow the program's structure:

| file | module | models |
|---|---|---|
| `text.dfy` | `Text` | the string operations the source relies on: `in`, `strip`, `replace('\n', ' ')`, `upper`, and "the last run of digits" as `re.findall(r'(\d+)', ...)[-1]` |
| `paths.dfy` | `Paths` | index paths and Python's list comparison, `is_greater` and `is_ancestor_or_self` |
| `nav_tree.dfy` | `NavTree` | the catalogue elements; `VirtualItem`'s classification; the mirror tree; the anchor; `build_tree_and_find_anchor` as recursive methods |
| `nav_decide.dfy` | `NavDecide` | `decide_action` and `get_navigation_action` |
| `answer_options.dfy` | `AnswerOptions` | the quiz page as a class whose labels change when clicked; `get_all_options`, `get_selected_options` and `adjust_selection` as methods over it |
| `answer_converge.dfy` | `AnswerConverge` | what `adjust_selection` achieves: checkboxes converge to the target, radio groups are never cleared, and concrete two-option scenarios |
| `answer_submit.dfy` | `AnswerSubmit` | the answer-letter regex, `submit_and_check` and `run` |
| `orchestrator.dfy` | `Orchestrator` | `safe_scan_and_click` and the main loop as a state machine over per-iteration readings |

Parts of the browser that the code only asks questions of are inputs to the model:

* the page: the catalogue elements, the URL, the quiz labels, the submit outcome, the clock;
* what one loop iteration observes, given as a `Reading`:
  * the answer of `is_valid_quiz`;
  * the attempts of a scan;
  * the catalogue and URL seen in SWITCH and WATCH.

The decision itself is not an input: the model computes it from the catalogue and the URL with `NavDecide.NavigationSpec`.

What a click on a label does is the model's assumption about the browser (`AnswerOptions.ClickEffect`):

* a checkbox toggles;
* a radio button becomes the only checked radio button (one radio group per quiz);
* a label without an input changes nothing;
* a click never changes an input's classes, so it never adds or removes the "ng-valid-parse" marker. AngularJS may add that class once an input is parsed and keep it after the box is unchecked. The convergence theorems (`AnswerConverge.CheckboxesConverge`, `AnswerConverge.RadioConverge`, `AnswerSubmit.RunResyncs`) depend on this assumption.

The constants come from the source:

* `FORCE_REFRESH_INTERVAL` = 1800 s (`config.py:15`).
* `WATCHDOG_TIMEOUT` = 300 s (`config.py:14`).
* `QUIZ_CHECK_RETRIES` = 5 (`config.py:25`).
* `QUIZ_SAFETY_BUFFER` = 5 s (`main.py:137`).
* `MAX_RETRIES` = 6 (`main.py:94`).
* The page markers, such as "展开", "正在播放", "点击下方继续学习" and "ng-valid-parse".
* The id rule: a numeric id longer than 4 digits that occurs in the URL.

Times are integer milliseconds.

## Behaviour worth noting

* **The last match is the anchor.** The build overwrites `active_path` at every matching node (`navigator_logic.py:88-89`), so when several items look active, the last one in pre-order wins. `NavTree.LastActiveSpec` and `NavTree.BuildAnchorIsLastActive` state this.
* **No keyword skip rule.** `KEYWORDS_SKIP` (`config.py:7`) is defined but never read. The only leaf text `decide_action` tests is "点击下方继续学习" (`navigator_logic.py:181`).
* **No parent-completion check.** Items keep no reference to their parent. A completed anchor is passed over only because it is itself completed (`navigator_logic.py:168-170`).

## Model

| member | source | states |
|---|---|---|
| Text.Contains | navigator_logic.py:36 | definition: Python's `sub in s`; characterised by ContainsAt and ContainsWitness |
| Text.MissingHeadNotContained | navigator_logic.py:52 | a keyword whose first character does not occur in the text is not in the text |
| Text.ContainsAt | navigator_logic.py:36 | an occurrence of `sub` at some position of `s` makes `sub in s` true |
| Text.ContainsWitness | navigator_logic.py:36 | `sub in s` yields a position where `sub` occurs (the converse of ContainsAt) |
| Text.ReplaceNewlines | navigator_logic.py:25 | same length, no newline left, every newline became a space and every other character is kept |
| Text.Strip | navigator_logic.py:25 | the result is empty only for an all-whitespace string; otherwise it is the infix of `s` between whitespace-only ends and neither of its ends is whitespace |
| Text.Normalize | navigator_logic.py:25 | a title text has no newline and no whitespace at either end |
| Text.UpperChar | answer_logic.py:52 | lower-case ASCII letters map to their upper-case counterparts; every other character is unchanged |
| Text.Upper | answer_logic.py:52 | the upper-cased value has the same length and upper-cases each character |
| Text.LastDigitRun | navigator_logic.py:45-46 | None exactly when the link has no digit; otherwise the last maximal run of digits |
| Paths.Less | navigator_logic.py:122 | definition: Python's `>` on lists of integers, read as `b < a`; a strict total order by LessIrreflexive, LessTransitive and LessTotal |
| Paths.IsGreater | navigator_logic.py:120-122 | definition: `is_greater`, true when the anchor path is empty |
| Paths.IsAncestorOrSelf | navigator_logic.py:124-128 | definition: `is_ancestor_or_self`; characterised by AncestorOrSelfIsPrefix |
| Paths.LessIrreflexive | navigator_logic.py:120-122 | no path is greater than itself |
| Paths.LessTransitive | navigator_logic.py:120-122 | the list order on paths is transitive |
| Paths.LessTotal | navigator_logic.py:120-122 | two distinct paths are ordered one way and not both ways |
| Paths.PrefixLess | navigator_logic.py:120-122 | a proper prefix comes before its extensions |
| Paths.BranchLess | navigator_logic.py:120-122 | paths that agree up to position m and differ there are ordered by that position |
| Paths.DescendantIsGreater | navigator_logic.py:120-122 | every strict descendant of the anchor is greater than the anchor |
| Paths.AncestorOrSelfIsPrefix | navigator_logic.py:124-128 | `is_ancestor_or_self(a, b)` holds exactly when b is non-empty and a is a prefix of b |
| NavTree.ClassifyFlags | navigator_logic.py:14-75 | completed iff there is a title whose class contains "complete" and not "uncomplete"; container iff children or an arrow icon; collapsed iff a container that is "unopen" or has no children; video iff a titled leaf with a video icon or "视频" in its text; a non-`li` element is a container only by its arrow; an untitled item is "Unknown", not completed, not a video and never the anchor |
| NavTree.UntitledNeverActive | navigator_logic.py:29-54 | an untitled item (text "Unknown", empty class and link) is never the anchor: no category keyword occurs in "Unknown" |
| NavTree.Classify | navigator_logic.py:9-75 | definition: the flags `VirtualItem.__init__` computes; their meaning is stated by ClassifyFlags and SelfActiveRules |
| NavTree.SelfActiveRules | navigator_logic.py:41-54 | an item is the anchor iff its title is "active", its last digit run (longer than 4) occurs in the URL, or the URL is a files/quiz page and the text carries that category's keyword |
| NavTree.MirrorNode | navigator_logic.py:84-106 | definition: the node `_recursive_build` returns, with resource children before sub-list children; characterised by MirrorChildAt |
| NavTree.MirrorForest | navigator_logic.py:108-111 | definition: the roots the build returns; characterised by MirrorRootAt |
| NavTree.MirrorList | navigator_logic.py:94-104 | the first n sibling mirrors are n nodes |
| NavTree.MirrorListAt | navigator_logic.py:94-104 | the j-th sibling mirror is the mirror of the j-th element at path `parent + [first + j]` |
| NavTree.MirrorChildAt | navigator_logic.py:91-104 | a node keeps its path, has one child per resource and sub-list child, and the k-th child is the mirror of the k-th child element at `path + [k + 1]` (resource children first) |
| NavTree.MirrorChildCount | navigator_logic.py:91-104 | a node keeps its path and has one child per child element |
| NavTree.MirrorRootAt | navigator_logic.py:108-111 | the forest has one root per top-level `li`, root i at path `[i + 1]` |
| NavTree.AnchorAfter | navigator_logic.py:88-89 | definition: `active_path` after building a subtree, overwritten at every self-active node |
| NavTree.AnchorAfterSeq | navigator_logic.py:92-104 | definition: the same threaded through a list of siblings |
| NavTree.PreOrder | navigator_logic.py:84-106 | definition: the order in which the build creates the nodes of a subtree |
| NavTree.LastActive | navigator_logic.py:88-89 | reference definition: the path of the last self-active node of a list; characterised by LastActiveSpec |
| NavTree.AnchorIsLastActive | navigator_logic.py:84-106 | the anchor threaded through one subtree's build is the last anchored item of its pre-order (or the incoming one) |
| NavTree.AnchorSeqIsLastActive | navigator_logic.py:94-104 | the same for a list of siblings |
| NavTree.LastActiveSpec | navigator_logic.py:88-89 | None iff no item is anchored; otherwise the path of an anchored item with no anchored item after it |
| NavTree.BuildNode | navigator_logic.py:84-106 | `_recursive_build` builds the node's mirror and returns the anchor after its subtree |
| NavTree.BuildSiblings | navigator_logic.py:92-104 | the children loop builds the sibling mirrors, advances the counter by their number and threads the anchor |
| NavTree.BuildSibling | navigator_logic.py:95-98 | one child step extends the built siblings by the next mirror and threads the anchor |
| NavTree.BuildTree | navigator_logic.py:80-113 | `build_tree_and_find_anchor` returns the mirror forest classified against the URL and the anchor after the whole forest |
| NavTree.BuildRoot | navigator_logic.py:108-111 | one root step extends the forest by the next root's mirror |
| NavTree.BuildAnchorIsLastActive | navigator_logic.py:80-113 | the anchor the build returns is the last anchored item in pre-order |
| NavTree.MirrorWellNumbered | navigator_logic.py:92-104 | every child's path is its parent's path plus its 1-based position |
| NavTree.ForestNumbered | navigator_logic.py:108-111 | the roots are numbered 1, 2, ... and every subtree is well numbered |
| NavTree.AscendingConcat | navigator_logic.py:120-122 | two ascending sequences, each path of the first before each of the second, concatenate to an ascending one |
| NavTree.SubtreeOrdered | navigator_logic.py:84-106 | a subtree's pre-order is strictly ascending and lies under the subtree's path |
| NavTree.SiblingsOrdered | navigator_logic.py:92-104 | the pre-order of the first k siblings is ascending and lies under the parent at positions 1..k |
| NavTree.ForestOrdered | navigator_logic.py:80-113 | the forest's pre-order is strictly ascending, so paths are unique across the forest |
| NavDecide.Eligible | navigator_logic.py:132-134 | definition: what the positional filter lets through; closed under descendants by IneligibleDescendant |
| NavDecide.ShouldExpand | navigator_logic.py:146-149 | definition: `should_expand`; every eligible node satisfies it (ExpandRule) |
| NavDecide.IsPathParent | navigator_logic.py:153 | definition: `is_path_parent`, a strict ancestor of the anchor |
| NavDecide.Searched | navigator_logic.py:130-142 | reference definition: the nodes the search visits, in visiting order; a subsequence of the pre-order (SearchedIsSubsequence) |
| NavDecide.FirstFound | navigator_logic.py:187-190 | reference definition: the own result of the first node of a list that has one |
| NavDecide.DecideNode | navigator_logic.py:130-185 | `_recursive_decide` returns `(False, None, None)` or a result that stops the search |
| NavDecide.DecideSeq | navigator_logic.py:140-142 | the children loop returns `(False, None, None)` or the first stopping result |
| NavDecide.DecideAction | navigator_logic.py:187-192 | `decide_action` always returns a stopping result (a decision or "all done") |
| NavDecide.OwnResult | navigator_logic.py:130-185 | a node's own verdict is nothing, an expand of itself, an enter of itself or a playing report of itself |
| NavDecide.FirstFoundConcat | navigator_logic.py:187-190 | the first stopping verdict of a concatenation comes from the first part if it has one |
| NavDecide.DecideIsFirstFound | navigator_logic.py:130-158 | `_recursive_decide` returns the first stopping verdict among the nodes it visits, in visiting order |
| NavDecide.DecideSeqIsFirstFound | navigator_logic.py:140-142 | the same for a sibling list |
| NavDecide.OwnResultEligible | navigator_logic.py:132-134 | only a node that passes the position filter can yield a verdict |
| NavDecide.FirstFoundAt | navigator_logic.py:187-190 | a stopping first verdict is some visited node's verdict, and no earlier node has one |
| NavDecide.FirstFoundNone | navigator_logic.py:187-192 | when no visited node has a verdict, the search returns nothing |
| NavDecide.SearchedInPreOrder | navigator_logic.py:139-142 | every visited node is in the subtree's pre-order |
| NavDecide.SearchedSeqInPreOrder | navigator_logic.py:139-142 | the same for a sibling list |
| NavDecide.PreOrderSeqCons | navigator_logic.py:187-190 | a forest's pre-order is the first tree's pre-order followed by the rest |
| NavDecide.IneligibleDescendant | navigator_logic.py:132-134 | a descendant of a filtered-out node is filtered out too (content before the anchor is never revisited) |
| NavDecide.FirstDifference | navigator_logic.py:120-122 | two paths agree up to m and differ at m when both are longer than m |
| NavDecide.DecideActionSpec | navigator_logic.py:187-192 | "all done" iff no visited node yields a verdict; otherwise the decision is the first visited node's verdict, and that node passes the filter and is a node of the forest |
| NavDecide.SubsequenceRefl | navigator_logic.py:139-142 | every sequence is a subsequence of itself |
| NavDecide.SubsequenceWiden | navigator_logic.py:139-142 | a subsequence of d is a subsequence of anything ending in d |
| NavDecide.SubsequenceConcat | navigator_logic.py:139-142 | subsequences of two parts concatenate to a subsequence of the concatenation |
| NavDecide.SearchedIsSubsequence | navigator_logic.py:130-158 | the search visits the nodes of a subtree in pre-order, only leaving some out |
| NavDecide.SearchedSeqIsSubsequence | navigator_logic.py:140-142 | the same for a sibling list |
| NavDecide.FullSearch | navigator_logic.py:130-158 | when no node is filtered out and every node with children is an open container, the search visits exactly the subtree's pre-order |
| NavDecide.FullSearchSeq | navigator_logic.py:140-142 | the same for a sibling list |
| NavDecide.ColdStartFirstInPreOrder | navigator_logic.py:187-192 | with no anchor and every container open, the decision is the first node of the forest's pre-order with a result of its own, or "all done" |
| NavDecide.FirstFoundFound | navigator_logic.py:187-190 | a visited node with a verdict makes the search stop |
| NavDecide.OwnShapes | navigator_logic.py:192 | no single node yields "all done" |
| NavDecide.PrunedSubtree | navigator_logic.py:132-134 | a filtered-out node returns nothing, nothing inside it is visited, and every descendant is filtered out |
| NavDecide.CollapsedNotSearched | navigator_logic.py:139-142 | the children of a collapsed container are never visited and do not affect the decision |
| NavDecide.ExpandRule | navigator_logic.py:145-156 | an expand comes only from a collapsed container that is unfinished or a strict ancestor of the anchor; every node past the filter satisfies the expansion condition |
| NavDecide.LeafRules | navigator_logic.py:163-185 | a leaf reports playing iff it is the unfinished anchored video; it asks to enter iff it passes the filter, is not the anchor, is unfinished and does not carry "点击下方继续学习" |
| NavDecide.NavigationSpec | navigator_logic.py:195-212 | no catalogue gives "未找到目录"; otherwise the decision on the mirror forest relative to its last anchored item |
| NavDecide.GetNavigationAction | navigator_logic.py:195-212 | the method builds the tree and decides, meeting NavigationSpec |
| AnswerOptions.KindOf | answer_logic.py:51 | definition: the input's type, "checkbox" when missing; each map entry records it (OptionsKinds) |
| AnswerOptions.IsSelected | answer_logic.py:62-68 | definition: checked, or the class carries "ng-valid-parse"; the selection is characterised by SelectedOf |
| AnswerOptions.Put | answer_logic.py:52-56 | storing an option updates that key, keeps the key order and appends a new key at the end |
| AnswerOptions.OptionsUpTo | answer_logic.py:44-56 | the options map built from the first n labels is well formed |
| AnswerOptions.OptionsUpToSpec | answer_logic.py:44-56 | the map holds exactly the upper-cased non-empty values of the first n labels, each mapped to the last label carrying it, with that input's type ("checkbox" when missing) |
| AnswerOptions.OptionsSkip | answer_logic.py:47-50 | a label without an input or with an empty value leaves the map unchanged |
| AnswerOptions.OptionsStep | answer_logic.py:52-56 | a usable label stores its upper-cased value |
| AnswerOptions.OptionsOf | answer_logic.py:41-57 | the options map is well formed |
| AnswerOptions.OptionsResolve | answer_logic.py:44-56 | every key points to a label with an input, and distinct keys point to distinct labels |
| AnswerOptions.SelectedUpTo | answer_logic.py:59-69 | the first n keys that are checked or marked "ng-valid-parse", without repeats |
| AnswerOptions.SelectedOf | answer_logic.py:59-69 | a key is selected iff its input is checked or has the "ng-valid-parse" class; no key is listed twice |
| AnswerOptions.UncheckRadios | answer_logic.py:91 | every label keeps its control and only radio inputs are unchecked |
| AnswerOptions.ClickEffect | answer_logic.py:91 | a click keeps the number of labels |
| AnswerOptions.ClickEffectSpec | answer_logic.py:91 | a click keeps every control; a radio becomes the only checked radio; a checkbox toggles; a label without an input changes nothing |
| AnswerOptions.ClickKeepsResolves | answer_logic.py:97 | the options map keeps pointing to inputs after a click |
| AnswerOptions.QuizPage.constructor | answer_logic.py:28-39 | a page holds whether the quiz layer is shown and its labels |
| AnswerOptions.QuizPage.Click | answer_logic.py:97 | clicking label i applies ClickEffect and leaves the layer's visibility alone |
| AnswerOptions.GetAllOptions | answer_logic.py:41-57 | `{}` without a visible layer; otherwise the options map of its labels |
| AnswerOptions.GetSelectedOptions | answer_logic.py:59-69 | the method returns SelectedOf for the page's labels |
| AnswerOptions.Without | answer_logic.py:82-83 | the list comprehension keeps no element of the excluded list |
| AnswerOptions.WithoutMembers | answer_logic.py:82-83 | x survives iff it is in the first list and not in the second; a repeat-free list stays repeat-free |
| AnswerOptions.WithoutConcat | answer_logic.py:82-83 | the comprehension maps a concatenation to the concatenation of its parts, so survivors keep their order |
| AnswerOptions.WithoutSingle | answer_logic.py:82-83 | a single element survives exactly when it is not in the excluded list |
| AnswerOptions.DiffSets | answer_logic.py:82-83 | extra = current − target; missing = target − current; they are disjoint; current + missing − extra = target |
| AnswerOptions.Clicked | answer_logic.py:86-98 | the options a loop clicks are no more than the options it walks |
| AnswerOptions.ClickedMembers | answer_logic.py:86-98 | an option is clicked iff it is in the map and, in the extras loop, not a radio |
| AnswerOptions.ClickedConcat | answer_logic.py:86-98 | the clicks over a concatenation are the clicks over each part |
| AnswerOptions.ClickedPrefix | answer_logic.py:86-98 | the clicks over a prefix of the walk are a prefix of all clicks |
| AnswerOptions.ClickPlan | answer_logic.py:82-98 | definition: the keys clicked, extras loop first, then the missing loop; characterised by ClickPlanSpec |
| AnswerOptions.ClicksMade | answer_logic.py:85-101 | definition: how many planned clicks happen before the one that raises |
| AnswerOptions.ClickPlanSpec | answer_logic.py:85-98 | every click is on a mapped key; an extra is clicked iff mapped and not a radio; a missing option is clicked iff mapped; every click is on a key in exactly one of current and target |
| AnswerOptions.ApplyClicks | answer_logic.py:85-98 | a series of clicks keeps the number of labels |
| AnswerOptions.ApplyClicksSameControl | answer_logic.py:85-98 | a series of clicks keeps every label's control type and value |
| AnswerOptions.ApplyClicksResolves | answer_logic.py:85-98 | the options map still resolves after any series of clicks |
| AnswerOptions.ApplyClicksConcat | answer_logic.py:85-98 | clicking a then b is clicking a, then b on the result |
| AnswerOptions.AdjustOutcome | answer_logic.py:71-111 | adjusting keeps the number of labels (its meaning is AnswerConverge.AdjustResultSpec) |
| AnswerOptions.PlanOutcome | answer_logic.py:82-111 | running the click plan keeps the number of labels |
| AnswerOptions.ClickEach | answer_logic.py:86-98 | a loop clicks its clickable options in order; a raise at click n stops it after n clicks with ok false |
| AnswerOptions.ClickNext | answer_logic.py:86-98 | one loop iteration either raises before its click or extends the clicks made by at most this option |
| AnswerOptions.ClickKey | answer_logic.py:87-97 | clicks the option iff it is clickable and the click does not raise; otherwise the page is unchanged |
| AnswerOptions.AdjustSelection | answer_logic.py:71-111 | the method returns AdjustOutcome's verdict and leaves the page as AdjustOutcome says |
| AnswerOptions.SyncClicks | answer_logic.py:82-111 | the two loops and the final check return PlanOutcome's verdict and page |
| AnswerOptions.PlanStopsInFirst | answer_logic.py:85-101 | a raise during the extras loop returns False after the clicks before it |
| AnswerOptions.PlanStopsInSecond | answer_logic.py:94-101 | a raise during the missing loop returns False after all extras and the missing clicks before it |
| AnswerOptions.PlanCompletes | answer_logic.py:103-111 | without a raise, every click is made and the result is whether the final selection equals the target as sets |
| AnswerConverge.OptionsSpec | answer_logic.py:41-57 | a key is in the map iff some usable label carries it, and each key maps to the last such label with its type |
| AnswerConverge.AdjustResultSpec | answer_logic.py:71-111 | False for an empty map; True whenever the selection already equals the target (page untouched); otherwise the plan's clicks up to a raise, and ok iff the final selection equals the target; ok always means the target is selected |
| AnswerConverge.ClicksKeepShape | answer_logic.py:85-98 | under the assumed click effect, which leaves classes untouched, clicks create no radio, remove no radio and add no "ng-valid-parse" marker; the last part comes from that assumption, not from the source |
| AnswerConverge.SelectedIsChecked | answer_logic.py:59-69 | without markers, a key is selected iff its input is checked |
| AnswerConverge.OptionsKinds | answer_logic.py:51-55 | each key's recorded type is its label's input type; an all-checkbox page has no radio keys and an all-radio page only radio keys |
| AnswerConverge.FlipClicks | answer_logic.py:85-98 | on checkboxes, a key's checked state after distinct clicks is its old state flipped iff it was clicked |
| AnswerConverge.DistinctConcat | answer_logic.py:82-83 | two repeat-free lists with no common element concatenate to a repeat-free list |
| AnswerConverge.CheckboxPlan | answer_logic.py:82-98 | on checkboxes, the plan clicks each mapped key at most once, and exactly those in one of current and target |
| AnswerConverge.CheckboxesConverge | answer_logic.py:71-111 | on a quiz of checkboxes with no "ng-valid-parse" marker, a non-empty options map, a target without repeats and no click raising, adjusting selects exactly the target's keys that the quiz has, and succeeds iff every target key exists |
| AnswerConverge.CheckboxesFinal | answer_logic.py:103-111 | after the plan on checkboxes the selection is target ∩ keys |
| AnswerConverge.ClickedNone | answer_logic.py:86-88 | a walk with no clickable option clicks nothing |
| AnswerConverge.RadioPlan | answer_logic.py:82-98 | on a radio quiz the plan for target [t] is [t] unless t is already selected |
| AnswerConverge.RadioExtrasSkipped | answer_logic.py:86-88 | on a radio quiz the extras loop clicks nothing |
| AnswerConverge.MissingOne | answer_logic.py:94-98 | the missing loop for [t] clicks t iff t is mapped and not selected |
| AnswerConverge.RadioClick | answer_logic.py:94-98 | clicking radio t leaves exactly t selected |
| AnswerConverge.RadioConverge | answer_logic.py:71-111 | on a radio quiz with target [t]: if t was not selected it becomes the only selection and the call succeeds; if it was, the page is untouched and the call succeeds iff t was the only selection |
| AnswerConverge.AdjustShown | answer_logic.py:72-80 | with a non-empty map, adjusting is True and touches nothing when the selection already equals the target, and otherwise runs the plan |
| AnswerConverge.RadioFresh | answer_logic.py:94-111 | an unselected radio target ends as the only selection and the call succeeds |
| AnswerConverge.RadioKept | answer_logic.py:78-111 | a selected radio target is left as is; the call succeeds iff it is the only selection |
| AnswerConverge.OnePlanOutcome | answer_logic.py:103-111 | a one-click plan ends with that click made and is ok iff the selection then equals the target |
| AnswerConverge.TwoCheckboxesKeys | answer_logic.py:44-57 | two checkboxes with distinct upper-case values give the map keys {a, b} |
| AnswerConverge.PlainChoices | answer_logic.py:59-69 | plain checkbox choices carry no radio and no marker |
| AnswerConverge.CheckboxScenario | answer_logic.py:71-111 | with a selected and b not, adjusting to [b] succeeds with exactly b selected |
| AnswerConverge.OneRadioEntry | answer_logic.py:44-57 | one radio label gives one entry pointing to it |
| AnswerConverge.EmptyPlanKeeps | answer_logic.py:103-111 | an empty plan leaves the page untouched and is ok iff the selection equals the target |
| AnswerConverge.RadiosNeverCleared | answer_logic.py:86-88 | adjusting a radio quiz to [] clicks nothing, and succeeds iff nothing was selected |
| AnswerConverge.RadioScenario | answer_logic.py:86-88 | a checked radio cannot be cleared: adjusting it to [] fails and leaves it checked |
| AnswerSubmit.DisclosedLetters | answer_logic.py:144 | every match is one upper-case letter, and each takes three characters of the text |
| AnswerSubmit.NoLettersIff | answer_logic.py:144 | no letter is found iff no position of the text starts a quote-letter-quote match |
| AnswerSubmit.PlainPrefix | answer_logic.py:144 | text without quotes before the hint contributes no letters |
| AnswerSubmit.QuotedHead | answer_logic.py:144 | a quoted letter at the start is the first match |
| AnswerSubmit.ItemsCons | answer_logic.py:144 | the round trip of a list of letters extends from its tail to the whole list |
| AnswerSubmit.ItemsRoundTrip | answer_logic.py:144 | the regex recovers the letters from their list items `'A', 'B'` |
| AnswerSubmit.PlainOpening | answer_logic.py:144 | a quote-free prefix followed by "[" contains no quote |
| AnswerSubmit.ReprRoundTrip | answer_logic.py:144 | a hint that shows `['A', 'C']` after quote-free text discloses exactly the letters A, C in order |
| AnswerSubmit.HintResult | answer_logic.py:141-151 | definition: GONE when the target is non-empty and equals the disclosed letters as a set, else the letters |
| AnswerSubmit.PollOutcome | answer_logic.py:130-159 | definition: the polling loop from poll k; characterised by PollOutcomeSpec |
| AnswerSubmit.SubmitOutcome | answer_logic.py:113-159 | definition: `submit_and_check`; characterised by SubmitSpec and DisclosedSpec |
| AnswerSubmit.PollOutcomeSpec | answer_logic.py:130-159 | TIMEOUT iff every remaining poll is silent; otherwise the first decisive poll's result (GONE for a vanished layer, else the hint's result) |
| AnswerSubmit.SubmitSpec | answer_logic.py:113-159 | GONE without a layer; ERROR iff the layer has no "确定" button; TIMEOUT iff all five polls are silent; otherwise the first decisive poll decides |
| AnswerSubmit.DisclosedSpec | answer_logic.py:141-151 | disclosed letters are upper-case letters and, for a non-empty target, differ from it as a set (an equal set returns GONE) |
| AnswerSubmit.PollsBounded | answer_logic.py:130 | only the first five polls matter |
| AnswerSubmit.SubmitAndCheck | answer_logic.py:113-159 | the method meets SubmitOutcome |
| AnswerSubmit.RunOutcome | answer_logic.py:161-186 | definition: `run`'s one or two rounds; characterised by RunSpec |
| AnswerSubmit.RunSpec | answer_logic.py:161-186 | first ["A"] is submitted; a second round runs iff that disclosed letters, and submits exactly those letters |
| AnswerSubmit.OptionsUpToSameControl | answer_logic.py:44-56 | labels with unchanged controls give the same options map |
| AnswerSubmit.RunResyncs | answer_logic.py:175-181 | on a quiz of checkboxes with no "ng-valid-parse" marker, when the first submit discloses distinct letters that are all options and no click of the second round raises, the second round selects exactly those letters (under the page assumption of RunOutcome) |
| AnswerSubmit.ClicksKeepShapeAdjust | answer_logic.py:167 | the first round's clicks leave a checkbox quiz a checkbox quiz without markers |
| AnswerSubmit.Run | answer_logic.py:161-186 | the method performs RunOutcome: the targets, the results and the final page |
| Orchestrator.Retries | main.py:96-112 | definition: an attempt ends in the `except`: the lookup raised, or navigation is needed and the description is None or the click raised |
| Orchestrator.Settled | main.py:97-106 | definition: what an attempt that does not retry returns; characterised by SettledSpec |
| Orchestrator.ScanFrom | main.py:95-113 | definition: the retry loop from attempt i; characterised by ScanIsFirstSettled and ScanResultSpec |
| Orchestrator.FirstSettled | main.py:95-112 | the first attempt at or after i that does not end in the `except`, or 6 when all do |
| Orchestrator.ScanIsFirstSettled | main.py:95-113 | the scan returns the first settled attempt's result, or `(False, False, None)` after six failures |
| Orchestrator.SettledSpec | main.py:97-106 | no navigation or target gives `(False, False, desc)`; success iff navigation with a target, then the click went through and is-expand iff the description contains "展开" |
| Orchestrator.ScanResultSpec | main.py:92-113 | failure never claims an expand; success carries a description, and is-expand iff it contains "展开" |
| Orchestrator.ScanReadsSix | main.py:94-95 | attempts after the sixth are never made |
| Orchestrator.SafeScanAndClick | main.py:92-113 | the retry loop meets ScanFrom |
| Orchestrator.Initial | main.py:130-140 | the loop starts in SCAN with both timers at the start time, no quiz end and no expand |
| Orchestrator.Iterate | main.py:143-270 | one pass of the loop body meets Step |
| Orchestrator.ModeStep | main.py:165-261 | definition: the branch of the current state |
| Orchestrator.Watchdog | main.py:263-270 | definition: the stall check at the end of an iteration |
| Orchestrator.Step | main.py:143-270 | definition: one iteration; its transitions are stated by RefreshFirst through WatchdogSpec |
| Orchestrator.RunFrom | main.py:142-279 | definition: the iterations over a list of readings, stopping at the first that raises; characterised by CrashIsFinal and QuizHolds |
| Orchestrator.RefreshFirst | main.py:147-153 | a due refresh preempts all else: refresh, SCAN, the refresh timer reset, nothing else changed |
| Orchestrator.QuizPreempts | main.py:156-160 | outside QUIZ_MODE a visible quiz switches to QUIZ_MODE and stamps the quiz end |
| Orchestrator.QuizModeSpec | main.py:165-181 | in QUIZ_MODE the solver runs iff a quiz is shown; the mode returns to SCAN iff no quiz and the 5 s buffer has passed, and that resets the action timer |
| Orchestrator.ScanSpec | main.py:186-196 | a scan that clicks goes to SWITCH recording whether it expanded; one that reports playing goes to WATCH; otherwise SCAN |
| Orchestrator.ScanStalled | main.py:265-270 | a scan stalled beyond 300 s ends with a refresh, back in SCAN with the action timer reset |
| Orchestrator.SwitchSpec | main.py:201-227 | after an expand, back to SCAN at once; a raised lookup ends the program; WATCH iff the page reports playing, then the video is started and the action timer reset |
| Orchestrator.WatchSpec | main.py:232-261 | keep-alive is sent first; back to SCAN iff navigation is needed; otherwise stay in WATCH with the action timer reset; a raised lookup ends the program |
| Orchestrator.RefreshLeadsToScan | main.py:147-153 | every iteration that refreshes leaves the loop in SCAN |
| Orchestrator.WatchdogSpec | main.py:263-270 | a watchdog refresh happens only outside QUIZ_MODE after more than 300 s without action, and resets to SCAN |
| Orchestrator.CrashIsFinal | main.py:276-279 | once an iteration raises, later readings change nothing |
| Orchestrator.QuizHolds | main.py:155-172 | while a quiz stays shown the loop stays in QUIZ_MODE, never crashes, leaves the timers alone and runs only the solver |
| Orchestrator.MainLoop | main.py:142-279 | the loop over the readings meets RunFrom from the initial state |

## Left out

- Browser I/O through DrissionPage is an input to the model. This covers element lookups, `page.url`, `states.is_displayed`, attribute and property reads, the connection set-up (`get_browser`, `_ensure_connection`) and the logging (`log_main`, `DualLogger`).
- Sleeps and waits are not modelled, and neither are the constants that time them: `PAGE_LOAD_WAIT`, `DOM_WAIT`, `DOM_CLICK_WAIT`.
- The clock is reduced to two readings per iteration. `now` is read at the top of the loop; `later` stands for every later reading of that iteration. This equates the several `time.time()` calls after the top.
- `NAV_CHECK_INTERVAL`, `INJECT_INTERVAL`, `HEARTBEAT_INTERVAL` and `QUIZ_COOLDOWN` are not read by the modelled code.
- `KEYWORDS_SKIP` (`config.py:7`) is not read by the modelled code either.
- `is_valid_quiz`, `check_video_status` and `keep_alive_action`, with the injected `ANTI_PAUSE_JS`, are observations (`Reading.quiz`) or recorded actions (`KeepAlive`, `StartVideo`). Their JavaScript is not modelled.
- The click that resumes a paused video in WATCH (`main.py:235-238`) is not modelled; its exceptions are swallowed.
- The three keep-alive clicks in SWITCH are one `StartVideo` action.
- The solver object and its lazy creation (`main.py:168`) hold no state the loop reads. `QuizSolver.run` is `RunSolver`; its internals are `AnswerSubmit.Run`.
- `get_quiz_layer` is `QuizPage.shown`; the quiz layer stays shown during a round of clicks.
- Exceptions inside the click loops of `adjust_selection` are an explicit input, `raiseAt`: the number of the click that raises.
- Stale-element errors while reading options are not modelled.
- `submit_and_check` sees the page through `SubmitEnv`: whether a layer and a button exist, and one `Poll` per check. A poll past the given ones shows no hint. Its `shown` field is an input separate from the layer visibility that `adjust_selection` sees, although in the source both come from `get_quiz_layer` (`answer_logic.py:28-39`). The model therefore also admits runs where the two disagree. Every proved property holds for every such environment.
- An exception raised inside a poll's `try` counts as a silent poll.
- The scan attempts of `safe_scan_and_click` are given as `Probe`s. An attempt past the given ones raises.
- An exception escaping SWITCH or WATCH ends the program, as the `except Exception` at `main.py:276-279` does. The model records it as `Crash`.
- `KeyboardInterrupt` and the `input()` prompt are not modelled.
- `solver.run()` raising in QUIZ_MODE is not modelled.
- Text.Upper: upper-casing covers ASCII letters only. Python's `str.upper` also maps other scripts. Text.UpperChar carries the same restriction.
- Text.LastDigitRun: `\d` is taken as the ASCII digits. Python's `\d` also matches other Unicode decimal digits.
- AnswerOptions.ClickEffect: the browser's reaction to a label click is an assumption about the page, not code of this repository. It assumes at most one radio group per quiz. It also assumes a click leaves every input's classes as they are, so the "ng-valid-parse" marker (`answer_logic.py:66-68`) is never added or removed by a click. A page where AngularJS adds the marker on the first change is not modelled: there an unchecked option stays selected, and the convergence theorems may fail.
- AnswerConverge.CheckboxesConverge: it requires a target without repeats. With a repeated missing option, the source clicks it twice and toggles it back.
- AnswerConverge.CheckboxScenario: the scenario is stated for any two distinct non-empty upper-case values, not only "A" and "B".
- AnswerConverge.RadioScenario: the scenario is stated for any non-empty upper-case value.
- AnswerSubmit.RunOutcome: round two adjusts the labels and layer visibility that round one left. This assumes the submit click (`answer_logic.py:123`) and the polls change no option's checked state or classes, and do not hide the layer. AnswerSubmit.RunResyncs relies on this assumption. A page that resets the selection after a wrong answer is not modelled.
- `discussion_bot.py` and `quiz_get_text.py` are not part of this model. They are separate tools, outside the auto-play loop.
- The `__main__` debug entry points and the debug prints of `navigator_logic.py` and `answer_logic.py` are not modelled.
