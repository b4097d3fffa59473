/**
 * The selection synchroniser of the quiz solver (answer_logic.py:41-111):
 * the option map read from the quiz layer, the current selection, and the
 * clicks that move the selection toward a target list of option keys.
 *
 * The quiz page is the mutable world the solver acts on. Its labels change
 * only through `QuizPage.Click`, whose effect is the browser's, not the
 * solver's: it is stated here as an assumption (see `ClickEffect`).
 */
module AnswerOptions {
  import opened Text

  /**
   * The `input` inside a `label.ti-a`: its `value` and `type` attributes
   * ("" when absent), its `checked` property and its `class` ("" when absent).
   */
  datatype Input = Input(value: string, itype: string, checked: bool, cls: string)

  /** A `label.ti-a` of the quiz layer, with its `input` if it has one. */
  datatype Label = Label(input: Option<Input>)

  /** One entry of `options_map`: the label (by its position on the page) and the option kind. */
  datatype OptionInfo = OptionInfo(index: nat, kind: string)

  /** `options_map`: an insertion-ordered dictionary, as Python's `dict` is. */
  datatype OptionMap = OptionMap(keys: seq<string>, info: map<string, OptionInfo>)

  const EmptyMap := OptionMap([], map[])
  const Radio: string := "radio"
  const DefaultKind: string := "checkbox"
  const ValidMarker: string := "ng-valid-parse"

  /** `input.attr('type') or 'checkbox'`. */
  function KindOf(inp: Input): string
  {
    if inp.itype != "" then inp.itype else DefaultKind
  }

  /** The label has an input whose `value` is non-empty: it contributes an entry. */
  predicate Usable(l: Label)
  {
    l.input.Some? && l.input.value.value != ""
  }

  /** `value.upper()`: the key a usable label contributes. */
  function KeyOf(l: Label): string
    requires Usable(l)
  {
    Upper(l.input.value.value)
  }

  /** Label `l` contributes key `k`. */
  predicate Keyed(l: Label, k: string)
  {
    Usable(l) && KeyOf(l) == k
  }

  predicate Distinct(s: seq<string>)
  {
    forall i, j :: 0 <= i < j < |s| ==> s[i] != s[j]
  }

  function SetOf(s: seq<string>): set<string>
  {
    set x | x in s
  }

  /** The keys list holds each key of the dictionary once. */
  predicate WellFormed(m: OptionMap)
  {
    && Distinct(m.keys)
    && (forall k :: k in m.info ==> k in m.keys)
    && (forall k :: k in m.keys ==> k in m.info)
  }

  /** `m[k] = v`: a new key goes to the end, an existing key keeps its place and takes the new value. */
  function Put(m: OptionMap, k: string, v: OptionInfo): (r: OptionMap)
    requires WellFormed(m)
    ensures WellFormed(r) && r.info == m.info[k := v]
    ensures k in m.info ==> r.keys == m.keys
    ensures k !in m.info ==> r.keys == m.keys + [k]
  {
    if k in m.info then OptionMap(m.keys, m.info[k := v])
    else OptionMap(m.keys + [k], m.info[k := v])
  }

  /**
   * Entry `e` for key `k` is the one the first `n` labels produce: it names
   * the LAST label among them that carries `k` (a later label with the same
   * key overwrites the entry), with that label's kind.
   */
  predicate EntryOf(labels: seq<Label>, n: nat, k: string, e: OptionInfo)
    requires n <= |labels|
  {
    && e.index < n && Keyed(labels[e.index], k) && e.kind == KindOf(labels[e.index].input.value)
    && forall j :: e.index < j < n ==> !Keyed(labels[j], k)
  }

  /** Every usable label among the first `n` has its key in the map. */
  predicate Covers(labels: seq<Label>, n: nat, m: OptionMap)
    requires n <= |labels|
  {
    forall j :: 0 <= j < n && Usable(labels[j]) ==> KeyOf(labels[j]) in m.info
  }

  /** What the option map built from the first `n` labels holds. */
  predicate MapOf(labels: seq<Label>, n: nat, m: OptionMap)
    requires n <= |labels|
  {
    && WellFormed(m)
    && (forall k :: k in m.info ==> EntryOf(labels, n, k, m.info[k]))
    && Covers(labels, n, m)
  }

  /** The loop of `get_all_options` after the first `n` labels. */
  function OptionsUpTo(labels: seq<Label>, n: nat): (m: OptionMap)
    requires n <= |labels|
    ensures WellFormed(m)
  {
    if n == 0 then EmptyMap
    else
      var m := OptionsUpTo(labels, n - 1);
      var l := labels[n - 1];
      if Usable(l) then Put(m, KeyOf(l), OptionInfo(n - 1, KindOf(l.input.value)))
      else m
  }

  /**
   * The map of the first `n` labels has an entry for every usable label's
   * key, and that entry names the last label carrying the key, with its kind.
   */
  lemma {:induction false} OptionsUpToSpec(labels: seq<Label>, n: nat)
    requires n <= |labels|
    ensures MapOf(labels, n, OptionsUpTo(labels, n))
  {
    if n > 0 {
      OptionsUpToSpec(labels, n - 1);
      if Usable(labels[n - 1]) {
        OptionsStep(labels, n, OptionsUpTo(labels, n - 1));
      } else {
        OptionsSkip(labels, n, OptionsUpTo(labels, n - 1));
      }
    }
  }

  /** A label without a usable value leaves the map as it is. */
  lemma OptionsSkip(labels: seq<Label>, n: nat, m: OptionMap)
    requires 0 < n <= |labels| && MapOf(labels, n - 1, m)
    requires !Usable(labels[n - 1])
    ensures MapOf(labels, n, m)
  {
    forall k | k in m.info ensures EntryOf(labels, n, k, m.info[k]) {
      assert EntryOf(labels, n - 1, k, m.info[k]);
    }
  }

  /** Putting the entry of label `n - 1` into the map of the first `n - 1` labels gives the map of the first `n`. */
  lemma OptionsStep(labels: seq<Label>, n: nat, m: OptionMap)
    requires 0 < n <= |labels| && MapOf(labels, n - 1, m)
    requires Usable(labels[n - 1])
    ensures MapOf(labels, n, Put(m, KeyOf(labels[n - 1]), OptionInfo(n - 1, KindOf(labels[n - 1].input.value))))
  {
    var l := labels[n - 1];
    var key := KeyOf(l);
    var r := Put(m, key, OptionInfo(n - 1, KindOf(l.input.value)));
    forall k | k in r.info ensures EntryOf(labels, n, k, r.info[k]) {
      if k != key {
        assert r.info[k] == m.info[k];
        assert EntryOf(labels, n - 1, k, m.info[k]);
      }
    }
    assert Covers(labels, n - 1, m);
  }

  function OptionsOf(labels: seq<Label>): (m: OptionMap)
    ensures WellFormed(m)
  {
    OptionsUpTo(labels, |labels|)
  }

  /** Every entry of the map names a label that has an input. */
  predicate Resolves(m: OptionMap, labels: seq<Label>)
  {
    forall k :: k in m.info ==> m.info[k].index < |labels| && labels[m.info[k].index].input.Some?
  }

  /** Different keys of the map name different labels. */
  predicate Injective(m: OptionMap)
  {
    forall x, y :: x in m.info && y in m.info && m.info[x].index == m.info[y].index ==> x == y
  }

  lemma OptionsResolve(labels: seq<Label>)
    ensures WellFormed(OptionsOf(labels)) && Resolves(OptionsOf(labels), labels)
    ensures Injective(OptionsOf(labels))
  {
    var m := OptionsOf(labels);
    OptionsUpToSpec(labels, |labels|);
    forall k | k in m.info ensures m.info[k].index < |labels| && labels[m.info[k].index].input.Some? {
      assert EntryOf(labels, |labels|, k, m.info[k]);
    }
    forall x, y | x in m.info && y in m.info && m.info[x].index == m.info[y].index ensures x == y {
      assert EntryOf(labels, |labels|, x, m.info[x]) && EntryOf(labels, |labels|, y, m.info[y]);
    }
  }

  /** `input.property('checked') is True`, or the class carries the "ng-valid-parse" marker. */
  predicate IsSelected(inp: Input)
  {
    inp.checked || Contains(inp.cls, ValidMarker)
  }

  /** Key `x` is in the map and its label's input reads as selected on `labels`. */
  predicate SelectedKey(labels: seq<Label>, m: OptionMap, x: string)
  {
    && x in m.info && m.info[x].index < |labels| && labels[m.info[x].index].input.Some?
    && IsSelected(labels[m.info[x].index].input.value)
  }

  /** The loop of `get_selected_options` over the first `n` keys, in dictionary order. */
  function SelectedUpTo(labels: seq<Label>, m: OptionMap, n: nat): (r: seq<string>)
    requires WellFormed(m) && Resolves(m, labels) && n <= |m.keys|
    ensures forall x :: x in r <==> x in m.keys[..n] && SelectedKey(labels, m, x)
    ensures Distinct(r)
  {
    if n == 0 then []
    else
      var r := SelectedUpTo(labels, m, n - 1);
      var x := m.keys[n - 1];
      assert m.keys[..n] == m.keys[..n - 1] + [x];
      assert x !in m.keys[..n - 1];
      if IsSelected(labels[m.info[x].index].input.value) then r + [x] else r
  }

  /** `get_selected_options(m)` on the page's current labels. */
  function SelectedOf(labels: seq<Label>, m: OptionMap): (r: seq<string>)
    requires WellFormed(m) && Resolves(m, labels)
    ensures forall x :: x in r <==> SelectedKey(labels, m, x)
    ensures Distinct(r)
  {
    assert m.keys[..|m.keys|] == m.keys;
    SelectedUpTo(labels, m, |m.keys|)
  }

  // ---------------------------------------------------------------------------
  // The page and the assumed effect of a click
  // ---------------------------------------------------------------------------

  /** The control of a label stays the same control: same input presence, value, type and class. */
  predicate SameControl(a: Label, b: Label)
  {
    a.input.Some? == b.input.Some?
    && (a.input.Some? ==>
          a.input.value.value == b.input.value.value && a.input.value.itype == b.input.value.itype
          && a.input.value.cls == b.input.value.cls)
  }

  function SetChecked(l: Label, c: bool): Label
    requires l.input.Some?
  {
    Label(Some(l.input.value.(checked := c)))
  }

  predicate IsRadio(l: Label)
  {
    l.input.Some? && l.input.value.itype == Radio
  }

  function UncheckRadio(l: Label): Label
  {
    if IsRadio(l) then SetChecked(l, false) else l
  }

  /** Every radio of the layer unchecked, everything else as it was. */
  function UncheckRadios(ls: seq<Label>): (r: seq<Label>)
    ensures |r| == |ls| && forall j :: 0 <= j < |ls| ==> r[j] == UncheckRadio(ls[j])
  {
    if ls == [] then [] else [UncheckRadio(ls[0])] + UncheckRadios(ls[1..])
  }

  /**
   * ASSUMED browser behaviour of clicking label `i` (it is not the solver's
   * code): a radio input becomes checked and every other radio of the layer
   * unchecked (the layer is taken to hold one radio group); any other input
   * flips its `checked` property; a label without an input changes nothing.
   * Classes, and so the "ng-valid-parse" marker, are left as they are.
   */
  function ClickEffect(labels: seq<Label>, i: nat): (r: seq<Label>)
    requires i < |labels|
    ensures |r| == |labels|
  {
    if labels[i].input.None? then labels
    else if IsRadio(labels[i]) then UncheckRadios(labels)[i := SetChecked(labels[i], true)]
    else labels[i := SetChecked(labels[i], !labels[i].input.value.checked)]
  }

  /**
   * The assumed click effect, case by case: every label keeps its control;
   * after clicking a radio exactly that radio is checked and non-radio labels
   * are untouched; clicking any other input flips it alone; clicking a label
   * without an input changes nothing.
   */
  lemma ClickEffectSpec(labels: seq<Label>, i: nat)
    requires i < |labels|
    ensures var r := ClickEffect(labels, i);
      && (forall j :: 0 <= j < |labels| ==> SameControl(r[j], labels[j]))
      && (IsRadio(labels[i]) ==>
            && (forall j :: 0 <= j < |labels| && IsRadio(labels[j]) ==>
                  r[j].input.Some? && r[j].input.value.checked == (j == i))
            && (forall j :: 0 <= j < |labels| && !IsRadio(labels[j]) ==> r[j] == labels[j]))
      && (labels[i].input.Some? && !IsRadio(labels[i]) ==>
            r == labels[i := SetChecked(labels[i], !labels[i].input.value.checked)])
      && (labels[i].input.None? ==> r == labels)
  {
  }

  lemma ClickKeepsResolves(m: OptionMap, labels: seq<Label>, i: nat)
    requires Resolves(m, labels) && i < |labels|
    ensures Resolves(m, ClickEffect(labels, i))
  {
    var r := ClickEffect(labels, i);
    ClickEffectSpec(labels, i);
    forall k | k in m.info ensures r[m.info[k].index].input.Some? {
      assert SameControl(r[m.info[k].index], labels[m.info[k].index]);
    }
  }

  /** The quiz layer as the solver sees it: whether it is displayed, and its labels. */
  class QuizPage {
    var shown: bool
    var labels: seq<Label>

    constructor(shown: bool, labels: seq<Label>)
      ensures this.shown == shown && this.labels == labels
    {
      this.shown := shown;
      this.labels := labels;
    }

    /** `label.click()`, with the assumed effect. */
    method Click(i: nat)
      requires i < |labels|
      modifies this
      ensures labels == ClickEffect(old(labels), i) && shown == old(shown)
    {
      labels := ClickEffect(labels, i);
    }
  }

  /** `get_all_options`: the empty map when the layer is not displayed, else one entry per usable label. */
  method GetAllOptions(page: QuizPage) returns (m: OptionMap)
    ensures m == (if page.shown then OptionsOf(page.labels) else EmptyMap)
  {
    if !page.shown {
      return EmptyMap;
    }
    var labels := page.labels;
    m := EmptyMap;
    for n := 0 to |labels|
      invariant m == OptionsUpTo(labels, n)
    {
      var l := labels[n];
      if l.input.Some? {
        var val := l.input.value.value;
        if val != "" {
          var itype := if l.input.value.itype != "" then l.input.value.itype else DefaultKind;
          m := Put(m, Upper(val), OptionInfo(n, itype));
        }
      }
    }
  }

  /** `get_selected_options(m)`: the selected keys, in the map's order. */
  method GetSelectedOptions(page: QuizPage, m: OptionMap) returns (selected: seq<string>)
    requires WellFormed(m) && Resolves(m, page.labels)
    ensures selected == SelectedOf(page.labels, m)
  {
    selected := [];
    for n := 0 to |m.keys|
      invariant selected == SelectedUpTo(page.labels, m, n)
    {
      var val := m.keys[n];
      var inp := page.labels[m.info[val].index].input.value;
      if inp.checked {
        selected := selected + [val];
      } else if Contains(inp.cls, ValidMarker) {
        selected := selected + [val];
      }
    }
    assert m.keys[..|m.keys|] == m.keys;
  }

  // ---------------------------------------------------------------------------
  // The difference between the current and the target selection
  // ---------------------------------------------------------------------------

  /** `[o for o in a if o not in b]`: `extra` is `Without(current, target)`, `missing` is `Without(target, current)`. */
  function Without(a: seq<string>, b: seq<string>): (r: seq<string>)
    ensures |r| <= |a|
    ensures forall i :: 0 <= i < |r| ==> r[i] !in b
  {
    if a == [] then []
    else
      var r := Without(a[..|a| - 1], b);
      if a[|a| - 1] !in b then r + [a[|a| - 1]] else r
  }

  /** The comprehension keeps exactly the elements of `a` not in `b`, each once if `a` has no repeats. */
  lemma {:induction false} WithoutMembers(a: seq<string>, b: seq<string>)
    ensures forall x :: x in Without(a, b) <==> x in a && x !in b
    ensures Distinct(a) ==> Distinct(Without(a, b))
    decreases |a|
  {
    if a != [] {
      WithoutMembers(a[..|a| - 1], b);
      assert a == a[..|a| - 1] + [a[|a| - 1]];
    }
  }

  /**
   * The comprehension keeps the survivors in their order in `a`: it maps a
   * concatenation to the concatenation of its parts (WithoutConcat), and
   * keeps or drops each single element by its membership in `b` (WithoutSingle).
   */
  lemma {:induction false} WithoutConcat(a1: seq<string>, a2: seq<string>, b: seq<string>)
    ensures Without(a1 + a2, b) == Without(a1, b) + Without(a2, b)
    decreases |a2|
  {
    if a2 == [] {
      assert a1 + a2 == a1;
    } else {
      var init, last := a2[..|a2| - 1], a2[|a2| - 1];
      WithoutConcat(a1, init, b);
      var whole := a1 + a2;
      assert whole[..|whole| - 1] == a1 + init;
      assert whole[|whole| - 1] == last;
      var tail := if last !in b then [last] else [];
      assert Without(whole, b) == Without(a1 + init, b) + tail;
      assert Without(a2, b) == Without(init, b) + tail;
    }
  }

  lemma WithoutSingle(x: string, b: seq<string>)
    ensures Without([x], b) == if x in b then [] else [x]
  {
    assert [x][..0] == [];
  }

  /**
   * The two lists as sets: `extra` is current minus target, `missing` is
   * target minus current, they are disjoint, and adding the missing and
   * removing the extra keys turns the current set into the target set.
   */
  lemma DiffSets(cur: seq<string>, target: seq<string>)
    ensures SetOf(Without(cur, target)) == SetOf(cur) - SetOf(target)
    ensures SetOf(Without(target, cur)) == SetOf(target) - SetOf(cur)
    ensures SetOf(Without(cur, target)) * SetOf(Without(target, cur)) == {}
    ensures (SetOf(cur) + SetOf(Without(target, cur))) - SetOf(Without(cur, target)) == SetOf(target)
  {
    WithoutMembers(cur, target);
    WithoutMembers(target, cur);
  }

  /**
   * Whether a click loop clicks key `o`: the map has it and, in the loop over
   * `extra` (`skipRadio`), it is not a radio.
   */
  predicate Clickable(m: OptionMap, skipRadio: bool, o: string)
  {
    o in m.info && !(skipRadio && m.info[o].kind == Radio)
  }

  /** The keys of `opts` a click loop clicks, in order. */
  function Clicked(m: OptionMap, skipRadio: bool, opts: seq<string>): (r: seq<string>)
    ensures |r| <= |opts|
  {
    if opts == [] then []
    else
      var r := Clicked(m, skipRadio, opts[..|opts| - 1]);
      if Clickable(m, skipRadio, opts[|opts| - 1]) then r + [opts[|opts| - 1]] else r
  }

  lemma {:induction false} ClickedMembers(m: OptionMap, skipRadio: bool, opts: seq<string>)
    ensures forall x :: x in Clicked(m, skipRadio, opts) <==> x in opts && Clickable(m, skipRadio, x)
    ensures Distinct(opts) ==> Distinct(Clicked(m, skipRadio, opts))
    decreases |opts|
  {
    if opts != [] {
      ClickedMembers(m, skipRadio, opts[..|opts| - 1]);
      assert opts == opts[..|opts| - 1] + [opts[|opts| - 1]];
    }
  }

  lemma ClickedSnoc(m: OptionMap, skipRadio: bool, opts: seq<string>, o: string)
    ensures Clicked(m, skipRadio, opts + [o]) ==
              Clicked(m, skipRadio, opts) + (if Clickable(m, skipRadio, o) then [o] else [])
  {
    assert (opts + [o])[..|opts|] == opts;
  }

  lemma {:induction false} ClickedConcat(m: OptionMap, skipRadio: bool, a: seq<string>, b: seq<string>)
    ensures Clicked(m, skipRadio, a + b) == Clicked(m, skipRadio, a) + Clicked(m, skipRadio, b)
    decreases |b|
  {
    if b == [] {
      assert a + b == a;
    } else {
      var init := b[..|b| - 1];
      assert (a + b)[..|a + b| - 1] == a + init;
      assert (a + b)[|a + b| - 1] == b[|b| - 1];
      ClickedConcat(m, skipRadio, a, init);
    }
  }

  /** What a click loop clicks over a prefix of its keys is a prefix of what it clicks over all of them. */
  lemma ClickedPrefix(m: OptionMap, skipRadio: bool, opts: seq<string>, i: nat)
    requires i <= |opts|
    ensures |Clicked(m, skipRadio, opts[..i])| <= |Clicked(m, skipRadio, opts)|
    ensures Clicked(m, skipRadio, opts)[..|Clicked(m, skipRadio, opts[..i])|] == Clicked(m, skipRadio, opts[..i])
  {
    ClickedConcat(m, skipRadio, opts[..i], opts[i..]);
    assert opts[..i] + opts[i..] == opts;
  }

  /** One more key of a click loop. */
  lemma ClickedStep(m: OptionMap, skipRadio: bool, opts: seq<string>, i: nat)
    requires i < |opts|
    ensures Clicked(m, skipRadio, opts[..i + 1]) ==
              Clicked(m, skipRadio, opts[..i]) + (if Clickable(m, skipRadio, opts[i]) then [opts[i]] else [])
  {
    assert opts[..i + 1] == opts[..i] + [opts[i]];
    ClickedSnoc(m, skipRadio, opts[..i], opts[i]);
  }

  /** A loop stopped at a clickable key has clicked a proper prefix of what it would have clicked. */
  lemma ClickedStop(m: OptionMap, skipRadio: bool, opts: seq<string>, i: nat)
    requires i < |opts| && Clickable(m, skipRadio, opts[i])
    ensures |Clicked(m, skipRadio, opts[..i])| < |Clicked(m, skipRadio, opts)|
    ensures Clicked(m, skipRadio, opts)[..|Clicked(m, skipRadio, opts[..i])|] == Clicked(m, skipRadio, opts[..i])
  {
    ClickedStep(m, skipRadio, opts, i);
    ClickedPrefix(m, skipRadio, opts, i + 1);
    var done := Clicked(m, skipRadio, opts[..i]);
    var kept := Clicked(m, skipRadio, opts);
    assert kept[..|done| + 1] == done + [opts[i]];
    assert kept[..|done|] == (done + [opts[i]])[..|done|];
  }

  lemma ClickedAll(m: OptionMap, skipRadio: bool, opts: seq<string>)
    ensures Clicked(m, skipRadio, opts[..|opts|]) == Clicked(m, skipRadio, opts)
    ensures Clicked(m, skipRadio, opts)[..|Clicked(m, skipRadio, opts)|] == Clicked(m, skipRadio, opts)
  {
    assert opts[..|opts|] == opts;
  }

  /** The keys whose labels `adjust_selection` clicks, in click order. */
  function ClickPlan(m: OptionMap, cur: seq<string>, target: seq<string>): seq<string>
  {
    Clicked(m, true, Without(cur, target)) + Clicked(m, false, Without(target, cur))
  }

  /**
   * The clicks: every clicked key is in the map; an extra key (selected now,
   * not in the target) is clicked iff it is not a radio; a missing key is
   * clicked iff the map has it; nothing else is clicked.
   */
  lemma ClickPlanSpec(m: OptionMap, cur: seq<string>, target: seq<string>)
    ensures var plan := ClickPlan(m, cur, target);
      && (forall o :: o in plan ==> o in m.info)
      && (forall o :: o in cur && o !in target ==> (o in plan <==> o in m.info && m.info[o].kind != Radio))
      && (forall o :: o in target && o !in cur ==> (o in plan <==> o in m.info))
      && (forall o :: o in plan ==> (o in cur) != (o in target))
  {
    var extra, missing := Without(cur, target), Without(target, cur);
    WithoutMembers(cur, target);
    WithoutMembers(target, cur);
    ClickedMembers(m, true, extra);
    ClickedMembers(m, false, missing);
  }

  /** The labels after clicking the labels of `keys` in order (a key the map lacks clicks nothing). */
  function ApplyClicks(labels: seq<Label>, m: OptionMap, keys: seq<string>): (r: seq<Label>)
    ensures |r| == |labels|
  {
    if keys == [] then labels
    else
      var before := ApplyClicks(labels, m, keys[..|keys| - 1]);
      var k := keys[|keys| - 1];
      if k in m.info && m.info[k].index < |before| then ClickEffect(before, m.info[k].index) else before
  }

  /** Clicks never add or remove inputs, nor change their values, types or classes. */
  lemma {:induction false} ApplyClicksSameControl(labels: seq<Label>, m: OptionMap, keys: seq<string>)
    ensures forall j :: 0 <= j < |labels| ==> SameControl(ApplyClicks(labels, m, keys)[j], labels[j])
    decreases |keys|
  {
    if keys != [] {
      var before := ApplyClicks(labels, m, keys[..|keys| - 1]);
      ApplyClicksSameControl(labels, m, keys[..|keys| - 1]);
      var k := keys[|keys| - 1];
      if k in m.info && m.info[k].index < |before| {
        ClickEffectSpec(before, m.info[k].index);
      }
    }
  }

  lemma ApplyClicksResolves(labels: seq<Label>, m: OptionMap, keys: seq<string>)
    requires Resolves(m, labels)
    ensures Resolves(m, ApplyClicks(labels, m, keys))
  {
    var r := ApplyClicks(labels, m, keys);
    ApplyClicksSameControl(labels, m, keys);
    forall k | k in m.info ensures r[m.info[k].index].input.Some? {
      assert SameControl(r[m.info[k].index], labels[m.info[k].index]);
    }
  }

  /**
   * The clicks of a plan of `n` that are made: all of them, or those before
   * click number `raiseAt` when that click raises.
   */
  function ClicksMade(n: nat, raiseAt: Option<nat>): nat
  {
    if raiseAt.Some? && raiseAt.value < n then raiseAt.value else n
  }

  /** What `adjust_selection` returns and leaves on the page. */
  datatype Adjustment = Adjustment(ok: bool, labels: seq<Label>)

  /**
   * `adjust_selection(target)` as a function of the page before the call and
   * of `raiseAt`, the number (from 0) of the first click that raises, if any.
   */
  function AdjustOutcome(shown: bool, labels: seq<Label>, target: seq<string>, raiseAt: Option<nat>): (r: Adjustment)
    ensures |r.labels| == |labels|
  {
    var m := if shown then OptionsOf(labels) else EmptyMap;
    OptionsResolve(labels);
    if m.keys == [] then Adjustment(false, labels)
    else
      var cur := SelectedOf(labels, m);
      if SetOf(cur) == SetOf(target) then Adjustment(true, labels)
      else
        PlanOutcome(labels, m, cur, target, raiseAt)
  }

  /**
   * The clicking part of `adjust_selection`: the clicks of the plan made
   * before the one that raises (then `False`), or all of them followed by the
   * re-read selection compared with the target as sets.
   */
  function PlanOutcome(labels: seq<Label>, m: OptionMap, cur: seq<string>, target: seq<string>,
                       raiseAt: Option<nat>): (r: Adjustment)
    requires WellFormed(m) && Resolves(m, labels)
    ensures |r.labels| == |labels|
  {
    var plan := ClickPlan(m, cur, target);
    var k := ClicksMade(|plan|, raiseAt);
    if k < |plan| then Adjustment(false, ApplyClicks(labels, m, plan[..k]))
    else
      var final := ApplyClicks(labels, m, plan);
      ApplyClicksResolves(labels, m, plan);
      Adjustment(SetOf(SelectedOf(final, m)) == SetOf(target), final)
  }

  /** One more click. */
  lemma ApplyClicksSnoc(labels: seq<Label>, m: OptionMap, done: seq<string>, o: string)
    requires o in m.info && m.info[o].index < |labels|
    ensures ApplyClicks(labels, m, done + [o]) == ClickEffect(ApplyClicks(labels, m, done), m.info[o].index)
  {
    assert (done + [o])[..|done|] == done;
  }

  /** Clicking `a` and then `b` is clicking `a + b`. */
  lemma {:induction false} ApplyClicksConcat(labels: seq<Label>, m: OptionMap, a: seq<string>, b: seq<string>)
    ensures ApplyClicks(labels, m, a + b) == ApplyClicks(ApplyClicks(labels, m, a), m, b)
    decreases |b|
  {
    if b == [] {
      assert a + b == a;
    } else {
      var init := b[..|b| - 1];
      assert (a + b)[..|a + b| - 1] == a + init;
      assert (a + b)[|a + b| - 1] == b[|b| - 1];
      ApplyClicksConcat(labels, m, a, init);
    }
  }

  /**
   * One of the two click loops of `adjust_selection` (over `extra` with
   * `skipRadio`, over `missing` without): each key of `opts` that the map has
   * (and that is not a skipped radio) gets its label clicked; clicks are
   * numbered on from `start`, and click number `raiseAt` raises and ends the
   * loop.
   */
  method ClickEach(page: QuizPage, m: OptionMap, opts: seq<string>, skipRadio: bool,
                   raiseAt: Option<nat>, start: nat) returns (ok: bool, clicks: nat)
    requires Resolves(m, page.labels)
    modifies page
    ensures page.shown == old(page.shown)
    ensures ok ==> clicks == start + |Clicked(m, skipRadio, opts)| && !(raiseAt.Some? && start <= raiseAt.value < clicks)
    ensures !ok ==> raiseAt.Some? && raiseAt.value == clicks && start <= clicks < start + |Clicked(m, skipRadio, opts)|
    ensures page.labels == ApplyClicks(old(page.labels), m, Clicked(m, skipRadio, opts)[..clicks - start])
  {
    ghost var labels0 := page.labels;
    ghost var done: seq<string> := [];
    clicks := start;
    for i := 0 to |opts|
      invariant done == Clicked(m, skipRadio, opts[..i])
      invariant clicks == start + |done|
      invariant !(raiseAt.Some? && start <= raiseAt.value < clicks)
      invariant page.labels == ApplyClicks(labels0, m, done) && page.shown == old(page.shown)
      invariant Resolves(m, page.labels)
    {
      var raised;
      raised, clicks, done := ClickNext(page, m, opts, i, skipRadio, raiseAt, start, clicks, labels0, done);
      if raised {
        return false, clicks;
      }
    }
    ClickedAll(m, skipRadio, opts);
    ok := true;
  }

  /**
   * Key `i` of a click loop that has clicked `done` so far: either the click
   * numbered `clicks` raises, and `done` is a proper prefix of what the whole
   * loop would have clicked, or the loop goes on with one more key done.
   */
  method ClickNext(page: QuizPage, m: OptionMap, opts: seq<string>, i: nat, skipRadio: bool,
                   raiseAt: Option<nat>, start: nat, clicks: nat, ghost labels0: seq<Label>,
                   ghost done: seq<string>) returns (raised: bool, clicks': nat, ghost done': seq<string>)
    requires i < |opts| && done == Clicked(m, skipRadio, opts[..i]) && clicks == start + |done|
    requires Resolves(m, page.labels) && page.labels == ApplyClicks(labels0, m, done)
    modifies page
    ensures page.shown == old(page.shown) && Resolves(m, page.labels) && clicks' == start + |done'|
    ensures raised ==> (&& done' == done && raiseAt.Some? && raiseAt.value == clicks
                        && clicks < start + |Clicked(m, skipRadio, opts)|
                        && Clicked(m, skipRadio, opts)[..clicks - start] == done)
    ensures !raised ==> (&& done' == Clicked(m, skipRadio, opts[..i + 1])
                         && (clicks' == clicks || clicks' == clicks + 1)
                         && (clicks' == clicks + 1 ==> !(raiseAt.Some? && raiseAt.value == clicks)))
    ensures page.labels == ApplyClicks(labels0, m, done')
  {
    ClickedStep(m, skipRadio, opts, i);
    raised := ClickKey(page, m, opts[i], skipRadio, raiseAt, clicks, labels0, done);
    clicks', done' := clicks, done;
    if raised {
      ClickedStop(m, skipRadio, opts, i);
    } else if Clickable(m, skipRadio, opts[i]) {
      done' := done + [opts[i]];
      clicks' := clicks + 1;
    }
  }

  /**
   * One key of a click loop: a radio among the extra keys is skipped (it is
   * never unchecked), a key the map lacks is skipped, and any other key gets
   * its label clicked; the click numbered `raiseAt` raises instead.
   */
  method ClickKey(page: QuizPage, m: OptionMap, opt: string, skipRadio: bool, raiseAt: Option<nat>,
                  clicks: nat, ghost labels0: seq<Label>, ghost done: seq<string>) returns (raised: bool)
    requires Resolves(m, page.labels) && page.labels == ApplyClicks(labels0, m, done)
    modifies page
    ensures page.shown == old(page.shown) && Resolves(m, page.labels)
    ensures raised <==> Clickable(m, skipRadio, opt) && raiseAt.Some? && raiseAt.value == clicks
    ensures !Clickable(m, skipRadio, opt) || raised ==> page.labels == old(page.labels)
    ensures Clickable(m, skipRadio, opt) && !raised ==> page.labels == ApplyClicks(labels0, m, done + [opt])
  {
    var present := opt in m.info;
    if present && skipRadio && m.info[opt].kind == Radio {
      return false;
    } else if present {
      if raiseAt.Some? && raiseAt.value == clicks {
        return true;
      }
      ApplyClicksSnoc(labels0, m, done, opt);
      ClickKeepsResolves(m, page.labels, m.info[opt].index);
      page.Click(m.info[opt].index);
      return false;
    }
    return false;
  }

  /**
   * `adjust_selection(target)`: read the options and the current selection,
   * stop early when there is nothing to do, click the extra non-radio keys
   * and then the missing keys that exist, abort on the first click that
   * raises, and finally compare the re-read selection with the target as sets.
   */
  method AdjustSelection(page: QuizPage, target: seq<string>, raiseAt: Option<nat>) returns (ok: bool)
    modifies page
    ensures page.shown == old(page.shown)
    ensures ok == AdjustOutcome(old(page.shown), old(page.labels), target, raiseAt).ok
    ensures page.labels == AdjustOutcome(old(page.shown), old(page.labels), target, raiseAt).labels
  {
    ghost var labels0 := page.labels;
    OptionsResolve(labels0);
    var m := GetAllOptions(page);
    if m.keys == [] {
      return false;
    }
    var cur := GetSelectedOptions(page, m);
    if SetOf(cur) == SetOf(target) {
      return true;
    }
    ok := SyncClicks(page, m, cur, target, raiseAt);
  }

  /** The two click loops of `adjust_selection` and the final comparison, against `PlanOutcome`. */
  method SyncClicks(page: QuizPage, m: OptionMap, cur: seq<string>, target: seq<string>,
                    raiseAt: Option<nat>) returns (ok: bool)
    requires WellFormed(m) && Resolves(m, page.labels)
    modifies page
    ensures page.shown == old(page.shown)
    ensures ok == PlanOutcome(old(page.labels), m, cur, target, raiseAt).ok
    ensures page.labels == PlanOutcome(old(page.labels), m, cur, target, raiseAt).labels
  {
    ghost var labels0 := page.labels;
    var extra := Without(cur, target);
    var missing := Without(target, cur);
    ghost var first, second := Clicked(m, true, extra), Clicked(m, false, missing);
    ghost var plan := ClickPlan(m, cur, target);
    var ok1, clicks := ClickEach(page, m, extra, true, raiseAt, 0);
    if !ok1 {
      PlanStopsInFirst(labels0, m, cur, target, raiseAt);
      return false;
    }
    assert first[..clicks] == first;
    ApplyClicksResolves(labels0, m, first);
    var ok2, clicks2 := ClickEach(page, m, missing, false, raiseAt, clicks);
    if !ok2 {
      PlanStopsInSecond(labels0, m, cur, target, raiseAt);
      return false;
    }
    assert second[..clicks2 - clicks] == second;
    PlanCompletes(labels0, m, cur, target, raiseAt);
    var final := GetSelectedOptions(page, m);
    ok := SetOf(final) == SetOf(target);
  }

  /** The outcome when a click of the loop over `extra` raises. */
  lemma PlanStopsInFirst(labels: seq<Label>, m: OptionMap, cur: seq<string>, target: seq<string>, raiseAt: Option<nat>)
    requires WellFormed(m) && Resolves(m, labels)
    requires raiseAt.Some? && raiseAt.value < |Clicked(m, true, Without(cur, target))|
    ensures PlanOutcome(labels, m, cur, target, raiseAt) ==
              Adjustment(false, ApplyClicks(labels, m, Clicked(m, true, Without(cur, target))[..raiseAt.value]))
  {
    var first := Clicked(m, true, Without(cur, target));
    var plan := ClickPlan(m, cur, target);
    assert plan[..raiseAt.value] == first[..raiseAt.value];
  }

  /** The outcome when a click of the loop over `missing` raises. */
  lemma PlanStopsInSecond(labels: seq<Label>, m: OptionMap, cur: seq<string>, target: seq<string>, raiseAt: Option<nat>)
    requires WellFormed(m) && Resolves(m, labels)
    requires var n1 := |Clicked(m, true, Without(cur, target))|;
      raiseAt.Some? && n1 <= raiseAt.value < n1 + |Clicked(m, false, Without(target, cur))|
    ensures var first, second := Clicked(m, true, Without(cur, target)), Clicked(m, false, Without(target, cur));
      PlanOutcome(labels, m, cur, target, raiseAt) ==
        Adjustment(false, ApplyClicks(ApplyClicks(labels, m, first), m, second[..raiseAt.value - |first|]))
  {
    var first, second := Clicked(m, true, Without(cur, target)), Clicked(m, false, Without(target, cur));
    var plan := ClickPlan(m, cur, target);
    assert plan[..raiseAt.value] == first + second[..raiseAt.value - |first|];
    ApplyClicksConcat(labels, m, first, second[..raiseAt.value - |first|]);
  }

  /** The outcome when no click raises: both loops ran to the end and the selection is re-read. */
  lemma PlanCompletes(labels: seq<Label>, m: OptionMap, cur: seq<string>, target: seq<string>, raiseAt: Option<nat>)
    requires WellFormed(m) && Resolves(m, labels)
    requires !(raiseAt.Some? && raiseAt.value < |ClickPlan(m, cur, target)|)
    ensures var first, second := Clicked(m, true, Without(cur, target)), Clicked(m, false, Without(target, cur));
      var final := ApplyClicks(ApplyClicks(labels, m, first), m, second);
      && Resolves(m, final)
      && PlanOutcome(labels, m, cur, target, raiseAt) == Adjustment(SetOf(SelectedOf(final, m)) == SetOf(target), final)
  {
    var first, second := Clicked(m, true, Without(cur, target)), Clicked(m, false, Without(target, cur));
    ApplyClicksConcat(labels, m, first, second);
    ApplyClicksResolves(labels, m, first + second);
  }
}
