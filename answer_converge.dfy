/**
 * What `adjust_selection` (answer_logic.py:71-111) achieves: its result in
 * every case, and the selection it converges to on a layer of checkboxes
 * and on a layer of radios, under the assumed click effect of
 * `AnswerOptions.ClickEffect`.
 */
module AnswerConverge {
  import opened Text
  import opened AnswerOptions

  /**
   * `get_all_options`: a key is in the map iff some label carries it (an
   * input with a non-empty `value` whose upper case is the key); its entry
   * names the last such label, with that label's type or "checkbox".
   */
  lemma OptionsSpec(labels: seq<Label>)
    ensures var m := OptionsOf(labels);
      && WellFormed(m)
      && (forall k :: k in m.info <==> exists j :: 0 <= j < |labels| && Keyed(labels[j], k))
      && (forall k :: k in m.info ==> EntryOf(labels, |labels|, k, m.info[k]))
  {
    var m := OptionsOf(labels);
    OptionsUpToSpec(labels, |labels|);
    forall k | exists j :: 0 <= j < |labels| && Keyed(labels[j], k)
      ensures k in m.info
    {
      var j :| 0 <= j < |labels| && Keyed(labels[j], k);
      assert Covers(labels, |labels|, m);
    }
    forall k | k in m.info
      ensures exists j :: 0 <= j < |labels| && Keyed(labels[j], k)
    {
      assert EntryOf(labels, |labels|, k, m.info[k]);
    }
  }

  /**
   * The result of `adjust_selection`: `False` with no click on an empty
   * option map; `True` with no click when the selection already equals the
   * target as a set; `False` when a click raises; and otherwise `True` iff
   * the re-read selection equals the target as a set. `True` always means the
   * selection now equals the target.
   */
  lemma AdjustResultSpec(shown: bool, labels: seq<Label>, target: seq<string>, raiseAt: Option<nat>)
    ensures var m := if shown then OptionsOf(labels) else EmptyMap;
      var r := AdjustOutcome(shown, labels, target, raiseAt);
      && WellFormed(m) && Resolves(m, labels) && Resolves(m, r.labels)
      && (m.keys == [] ==> !r.ok && r.labels == labels)
      && (r.ok ==> SetOf(SelectedOf(r.labels, m)) == SetOf(target))
      && (m.keys != [] && SetOf(SelectedOf(labels, m)) == SetOf(target) ==> r.ok && r.labels == labels)
      && (m.keys != [] && SetOf(SelectedOf(labels, m)) != SetOf(target) ==>
            var plan := ClickPlan(m, SelectedOf(labels, m), target);
            && (raiseAt.Some? && raiseAt.value < |plan| ==>
                  !r.ok && r.labels == ApplyClicks(labels, m, plan[..raiseAt.value]))
            && (!(raiseAt.Some? && raiseAt.value < |plan|) ==>
                  r.labels == ApplyClicks(labels, m, plan)
                  && (r.ok <==> SetOf(SelectedOf(r.labels, m)) == SetOf(target))))
  {
    OptionsResolve(labels);
    var m := if shown then OptionsOf(labels) else EmptyMap;
    if m.keys != [] {
      var cur := SelectedOf(labels, m);
      if SetOf(cur) != SetOf(target) {
        var plan := ClickPlan(m, cur, target);
        ApplyClicksResolves(labels, m, plan[..ClicksMade(|plan|, raiseAt)]);
        ApplyClicksResolves(labels, m, plan);
      }
    }
  }

  /** No input of the layer is a radio. */
  predicate NoRadio(labels: seq<Label>)
  {
    forall j :: 0 <= j < |labels| ==> !IsRadio(labels[j])
  }

  /** Every input of the layer is a radio (of the one group `ClickEffect` assumes). */
  predicate AllRadio(labels: seq<Label>)
  {
    forall j :: 0 <= j < |labels| && labels[j].input.Some? ==> IsRadio(labels[j])
  }

  /** No input carries the "ng-valid-parse" marker: `checked` alone decides what is selected. */
  predicate NoMarker(labels: seq<Label>)
  {
    forall j :: 0 <= j < |labels| && labels[j].input.Some? ==> !Contains(labels[j].input.value.cls, ValidMarker)
  }

  /** Clicks keep the kinds of the inputs and their classes. */
  lemma ClicksKeepShape(labels: seq<Label>, m: OptionMap, keys: seq<string>)
    ensures NoRadio(labels) ==> NoRadio(ApplyClicks(labels, m, keys))
    ensures AllRadio(labels) ==> AllRadio(ApplyClicks(labels, m, keys))
    ensures NoMarker(labels) ==> NoMarker(ApplyClicks(labels, m, keys))
  {
    var r := ApplyClicks(labels, m, keys);
    ApplyClicksSameControl(labels, m, keys);
    forall j | 0 <= j < |labels| ensures SameControl(r[j], labels[j]) {}
  }

  /** Without the marker, an option is selected iff its input is checked. */
  lemma SelectedIsChecked(labels: seq<Label>, m: OptionMap)
    requires WellFormed(m) && Resolves(m, labels) && NoMarker(labels)
    ensures forall x :: x in SelectedOf(labels, m) <==>
              x in m.info && labels[m.info[x].index].input.value.checked
  {
  }

  /** Each entry's kind is the type of the input it names: no entry of a radio-free layer is a radio. */
  lemma OptionsKinds(labels: seq<Label>)
    ensures Resolves(OptionsOf(labels), labels)
    ensures forall k :: k in OptionsOf(labels).info ==>
              OptionsOf(labels).info[k].kind == KindOf(labels[OptionsOf(labels).info[k].index].input.value)
    ensures NoRadio(labels) ==> forall k :: k in OptionsOf(labels).info ==> OptionsOf(labels).info[k].kind != Radio
    ensures AllRadio(labels) ==> forall k :: k in OptionsOf(labels).info ==> OptionsOf(labels).info[k].kind == Radio
  {
    var m := OptionsOf(labels);
    OptionsUpToSpec(labels, |labels|);
    OptionsResolve(labels);
    forall k | k in m.info ensures m.info[k].kind == KindOf(labels[m.info[k].index].input.value) {
      assert EntryOf(labels, |labels|, k, m.info[k]);
    }
  }

  /**
   * On a layer without radios, clicking distinct keys of the map flips the
   * `checked` property of exactly their labels.
   */
  lemma {:induction false} FlipClicks(labels: seq<Label>, m: OptionMap, keys: seq<string>)
    requires Resolves(m, labels) && Injective(m) && NoRadio(labels)
    requires Distinct(keys) && forall i :: 0 <= i < |keys| ==> keys[i] in m.info
    ensures forall x :: x in m.info ==>
              && ApplyClicks(labels, m, keys)[m.info[x].index].input.Some?
              && ApplyClicks(labels, m, keys)[m.info[x].index].input.value.checked ==
                   (labels[m.info[x].index].input.value.checked != (x in keys))
    decreases |keys|
  {
    if keys != [] {
      var init, k := keys[..|keys| - 1], keys[|keys| - 1];
      assert keys == init + [k];
      FlipClicks(labels, m, init);
      var before := ApplyClicks(labels, m, init);
      ApplyClicksResolves(labels, m, init);
      ClicksKeepShape(labels, m, init);
      var i := m.info[k].index;
      ClickEffectSpec(before, i);
      assert ApplyClicks(labels, m, keys) == ClickEffect(before, i);
      assert k !in init;
      forall x | x in m.info
        ensures ApplyClicks(labels, m, keys)[m.info[x].index].input.value.checked ==
                  (labels[m.info[x].index].input.value.checked != (x in keys))
      {
        assert x in keys <==> x in init || x == k;
      }
    }
  }

  lemma DistinctConcat(a: seq<string>, b: seq<string>)
    requires Distinct(a) && Distinct(b) && forall x :: x in a ==> x !in b
    ensures Distinct(a + b)
  {
    forall i, j | 0 <= i < j < |a + b| ensures (a + b)[i] != (a + b)[j] {
      if i < |a| && j >= |a| {
        assert (a + b)[i] in a && (a + b)[j] in b;
      }
    }
  }

  /**
   * The click plan on a layer without radios, for a target without repeats:
   * its keys are distinct, all in the map, and a key of the map is clicked
   * iff exactly one of "selected now" and "in the target" holds for it.
   */
  lemma CheckboxPlan(labels: seq<Label>, m: OptionMap, cur: seq<string>, target: seq<string>)
    requires m == OptionsOf(labels) && NoRadio(labels) && Distinct(cur) && Distinct(target)
    requires forall x :: x in cur ==> x in m.info
    ensures var plan := ClickPlan(m, cur, target);
      && Distinct(plan)
      && (forall i :: 0 <= i < |plan| ==> plan[i] in m.info)
      && (forall x :: x in m.info ==> (x in plan <==> (x in cur) != (x in target)))
  {
    var extra, missing := Without(cur, target), Without(target, cur);
    var first, second := Clicked(m, true, extra), Clicked(m, false, missing);
    WithoutMembers(cur, target);
    WithoutMembers(target, cur);
    ClickedMembers(m, true, extra);
    ClickedMembers(m, false, missing);
    OptionsKinds(labels);
    DistinctConcat(first, second);
    ClickPlanSpec(m, cur, target);
  }

  /**
   * A layer of checkboxes (no radio, no "ng-valid-parse" marker, a non-empty
   * option map), a target without repeats, no click raising:
   * `adjust_selection` leaves exactly the target keys the map has selected,
   * and returns `True` iff every target key is in the map.
   */
  lemma CheckboxesConverge(labels: seq<Label>, target: seq<string>)
    requires NoRadio(labels) && NoMarker(labels) && Distinct(target)
    requires OptionsOf(labels).keys != []
    ensures var m := OptionsOf(labels);
      var r := AdjustOutcome(true, labels, target, None);
      && Resolves(m, r.labels)
      && SetOf(SelectedOf(r.labels, m)) == SetOf(target) * SetOf(m.keys)
      && (r.ok <==> SetOf(target) <= SetOf(m.keys))
  {
    var m := OptionsOf(labels);
    OptionsResolve(labels);
    var cur := SelectedOf(labels, m);
    var r := AdjustOutcome(true, labels, target, None);
    if SetOf(cur) == SetOf(target) {
      assert r.labels == labels;
      assert SetOf(target) <= SetOf(m.keys);
    } else {
      var plan := ClickPlan(m, cur, target);
      assert r.labels == ApplyClicks(labels, m, plan);
      CheckboxesFinal(labels, m, cur, target);
    }
  }

  /** The clicks of a plan on a checkbox layer leave exactly the target keys the map has selected. */
  lemma CheckboxesFinal(labels: seq<Label>, m: OptionMap, cur: seq<string>, target: seq<string>)
    requires NoRadio(labels) && NoMarker(labels) && Distinct(target)
    requires m == OptionsOf(labels) && WellFormed(m) && Resolves(m, labels) && cur == SelectedOf(labels, m)
    ensures var final := ApplyClicks(labels, m, ClickPlan(m, cur, target));
      && Resolves(m, final)
      && SetOf(SelectedOf(final, m)) == SetOf(target) * SetOf(m.keys)
  {
    OptionsResolve(labels);
    SelectedIsChecked(labels, m);
    var plan := ClickPlan(m, cur, target);
    CheckboxPlan(labels, m, cur, target);
    var final := ApplyClicks(labels, m, plan);
    FlipClicks(labels, m, plan);
    ApplyClicksResolves(labels, m, plan);
    ClicksKeepShape(labels, m, plan);
    SelectedIsChecked(final, m);
    forall x ensures x in SetOf(SelectedOf(final, m)) <==> x in SetOf(target) * SetOf(m.keys) {
      assert x in SelectedOf(final, m) <==> x in m.info && x in target;
    }
  }

  /** A click loop over keys none of which it clicks clicks nothing. */
  lemma {:induction false} ClickedNone(m: OptionMap, skipRadio: bool, opts: seq<string>)
    requires forall i :: 0 <= i < |opts| ==> !Clickable(m, skipRadio, opts[i])
    ensures Clicked(m, skipRadio, opts) == []
    decreases |opts|
  {
    if opts != [] {
      ClickedNone(m, skipRadio, opts[..|opts| - 1]);
    }
  }

  /** A plan with only radios among the extra keys clicks only missing keys. */
  lemma RadioPlan(labels: seq<Label>, m: OptionMap, cur: seq<string>, t: string)
    requires m == OptionsOf(labels) && AllRadio(labels) && t in m.info
    requires forall x :: x in cur ==> x in m.info
    ensures ClickPlan(m, cur, [t]) == if t in cur then [] else [t]
  {
    RadioExtrasSkipped(labels, m, cur, [t]);
    MissingOne(m, cur, t);
  }

  /** On a layer of radios the first loop (extra keys, radios skipped) clicks nothing. */
  lemma RadioExtrasSkipped(labels: seq<Label>, m: OptionMap, cur: seq<string>, target: seq<string>)
    requires m == OptionsOf(labels) && AllRadio(labels)
    requires forall x :: x in cur ==> x in m.info
    ensures Clicked(m, true, Without(cur, target)) == []
  {
    var extra := Without(cur, target);
    OptionsKinds(labels);
    WithoutMembers(cur, target);
    forall i | 0 <= i < |extra| ensures !Clickable(m, true, extra[i]) {
      assert extra[i] in cur;
    }
    ClickedNone(m, true, extra);
  }

  /** The second loop for a one-key target clicks that key iff it is not selected yet. */
  lemma MissingOne(m: OptionMap, cur: seq<string>, t: string)
    requires t in m.info
    ensures Clicked(m, false, Without([t], cur)) == if t in cur then [] else [t]
  {
    assert [t][..0] == [];
    assert Without([t], cur) == if t in cur then [] else [t];
    assert [t] == [] + [t];
    assert Clicked(m, false, [t]) == Clicked(m, false, []) + [t];
  }

  /** Clicking the radio of key `t` leaves exactly `t` selected. */
  lemma RadioClick(labels: seq<Label>, m: OptionMap, t: string)
    requires m == OptionsOf(labels) && AllRadio(labels) && NoMarker(labels) && t in m.info
    ensures WellFormed(m) && Resolves(m, ApplyClicks(labels, m, [t]))
    ensures SetOf(SelectedOf(ApplyClicks(labels, m, [t]), m)) == {t}
  {
    OptionsResolve(labels);
    var i := m.info[t].index;
    var final := ClickEffect(labels, i);
    assert ApplyClicks(labels, m, [t]) == ClickEffect(ApplyClicks(labels, m, []), i);
    ApplyClicksResolves(labels, m, [t]);
    ClickEffectSpec(labels, i);
    ClicksKeepShape(labels, m, [t]);
    SelectedIsChecked(final, m);
    forall x ensures x in SetOf(SelectedOf(final, m)) <==> x == t {
      if x in m.info {
        assert IsRadio(labels[m.info[x].index]);
      }
    }
  }

  /**
   * A layer of radios (one group, no marker), target one key of the map, no
   * click raising: when the key is not selected yet, `adjust_selection` clicks
   * it alone and ends with exactly it selected and `True`; when it is
   * selected already, no click is made and the result is `True` iff it is
   * the only selected key.
   */
  lemma RadioConverge(labels: seq<Label>, t: string)
    requires AllRadio(labels) && NoMarker(labels) && t in OptionsOf(labels).info
    ensures var m := OptionsOf(labels);
      && WellFormed(m) && Resolves(m, labels)
      && var cur := SelectedOf(labels, m);
         var r := AdjustOutcome(true, labels, [t], None);
         && Resolves(m, r.labels)
         && (t !in cur ==> r.ok && SetOf(SelectedOf(r.labels, m)) == {t})
         && (t in cur ==> r.labels == labels && (r.ok <==> SetOf(cur) == {t}))
  {
    var m := OptionsOf(labels);
    OptionsResolve(labels);
    assert t in SelectedOf(labels, m) <==> SelectedKey(labels, m, t);
    if SelectedKey(labels, m, t) {
      RadioKept(labels, t);
    } else {
      RadioFresh(labels, t);
    }
  }

  /** `adjust_selection` on a shown layer with options, no click raising. */
  lemma AdjustShown(labels: seq<Label>, target: seq<string>)
    requires OptionsOf(labels).keys != []
    ensures var m := OptionsOf(labels);
      && WellFormed(m) && Resolves(m, labels)
      && var cur := SelectedOf(labels, m);
         AdjustOutcome(true, labels, target, None) ==
           if SetOf(cur) == SetOf(target) then Adjustment(true, labels)
           else PlanOutcome(labels, m, cur, target, None)
  {
    OptionsResolve(labels);
  }

  /** The radio case where the target key is not selected yet: it alone is clicked. */
  lemma RadioFresh(labels: seq<Label>, t: string)
    requires AllRadio(labels) && NoMarker(labels) && t in OptionsOf(labels).info
    requires !SelectedKey(labels, OptionsOf(labels), t)
    ensures var m := OptionsOf(labels);
      var r := AdjustOutcome(true, labels, [t], None);
      && WellFormed(m) && Resolves(m, r.labels) && r.ok && SetOf(SelectedOf(r.labels, m)) == {t}
  {
    var m := OptionsOf(labels);
    OptionsResolve(labels);
    var cur := SelectedOf(labels, m);
    assert t in m.keys;
    AdjustShown(labels, [t]);
    RadioPlan(labels, m, cur, t);
    assert t !in SetOf(cur) && SetOf([t]) == {t};
    OnePlanOutcome(labels, m, cur, [t], t);
    RadioClick(labels, m, t);
  }

  /** The radio case where the target key is selected already: nothing is clicked. */
  lemma RadioKept(labels: seq<Label>, t: string)
    requires AllRadio(labels) && t in OptionsOf(labels).info
    requires SelectedKey(labels, OptionsOf(labels), t)
    ensures var m := OptionsOf(labels);
      var r := AdjustOutcome(true, labels, [t], None);
      && WellFormed(m) && Resolves(m, labels)
      && r.labels == labels && (r.ok <==> SetOf(SelectedOf(labels, m)) == {t})
  {
    var m := OptionsOf(labels);
    OptionsResolve(labels);
    var cur := SelectedOf(labels, m);
    assert t in m.keys;
    AdjustShown(labels, [t]);
    RadioPlan(labels, m, cur, t);
    assert SetOf([t]) == {t};
    EmptyPlanKeeps(labels, m, cur, [t]);
  }

  /** A plan of one click (none raising) makes it and compares the selection it leaves. */
  lemma OnePlanOutcome(labels: seq<Label>, m: OptionMap, cur: seq<string>, target: seq<string>, t: string)
    requires WellFormed(m) && Resolves(m, labels) && ClickPlan(m, cur, target) == [t] && t in m.info
    ensures Resolves(m, ApplyClicks(labels, m, [t]))
    ensures PlanOutcome(labels, m, cur, target, None) ==
              Adjustment(SetOf(SelectedOf(ApplyClicks(labels, m, [t]), m)) == SetOf(target), ApplyClicks(labels, m, [t]))
  {
    assert ClicksMade(1, None) == 1;
    ApplyClicksResolves(labels, m, [t]);
  }

  /** A label holding an input with the given value, type and checked state, and no class. */
  function Choice(value: string, itype: string, checked: bool): Label
  {
    Label(Some(Input(value, itype, checked, "")))
  }

  /** The keys of two checkboxes with distinct upper-case values `a` (first) and `b`. */
  lemma TwoCheckboxesKeys(a: string, b: string, ca: bool, cb: bool)
    requires a != "" && b != "" && a != b && Upper(a) == a && Upper(b) == b
    ensures var m := OptionsOf([Choice(a, "checkbox", ca), Choice(b, "checkbox", cb)]);
      m.keys != [] && SetOf(m.keys) == {a, b}
  {
    var labels := [Choice(a, "checkbox", ca), Choice(b, "checkbox", cb)];
    var m := OptionsOf(labels);
    OptionsSpec(labels);
    assert Keyed(labels[0], a) && Keyed(labels[1], b);
    assert a in m.info && b in m.info;
    forall k | k in SetOf(m.keys) ensures k == a || k == b {
      assert k in m.info;
      var j :| 0 <= j < |labels| && Keyed(labels[j], k);
      assert j == 0 || j == 1;
    }
    assert a in SetOf(m.keys) && b in SetOf(m.keys);
  }

  /** Labels of plain checkboxes: no radio and no "ng-valid-parse" marker. */
  lemma PlainChoices(labels: seq<Label>)
    requires forall j :: 0 <= j < |labels| ==>
      exists v, c :: labels[j] == Choice(v, "checkbox", c)
    ensures NoMarker(labels) && NoRadio(labels)
  {
    assert !Contains("", ValidMarker);
  }

  /**
   * Checkbox `a` checked and checkbox `b` unchecked (for instance A and B),
   * target `[b]`: the selection converges to {b} and the result is `True`.
   */
  lemma CheckboxScenario(a: string, b: string)
    requires a != "" && b != "" && a != b && Upper(a) == a && Upper(b) == b
    ensures var labels := [Choice(a, "checkbox", true), Choice(b, "checkbox", false)];
      var m := OptionsOf(labels);
      var r := AdjustOutcome(true, labels, [b], None);
      && Resolves(m, r.labels)
      && r.ok && SetOf(SelectedOf(r.labels, m)) == {b}
  {
    var labels := [Choice(a, "checkbox", true), Choice(b, "checkbox", false)];
    TwoCheckboxesKeys(a, b, true, false);
    var m := OptionsOf(labels);
    var target := [b];
    assert SetOf(m.keys) == {a, b} && SetOf(target) == {b};
    PlainChoices(labels);
    CheckboxesConverge(labels, target);
    assert SetOf(target) <= SetOf(m.keys) && SetOf(target) * SetOf(m.keys) == {b};
  }

  /** One radio with an upper-case value `a` gives the entry `a` naming it. */
  lemma OneRadioEntry(a: string)
    requires a != "" && Upper(a) == a
    ensures var m := OptionsOf([Choice(a, "radio", true)]);
      a in m.info && m.info[a].index == 0
  {
    var labels := [Choice(a, "radio", true)];
    OptionsSpec(labels);
    assert Keyed(labels[0], a);
    assert EntryOf(labels, 1, a, OptionsOf(labels).info[a]);
  }

  /** A plan with no clicks leaves the labels as they are and compares the current selection. */
  lemma EmptyPlanKeeps(labels: seq<Label>, m: OptionMap, cur: seq<string>, target: seq<string>)
    requires WellFormed(m) && Resolves(m, labels) && ClickPlan(m, cur, target) == []
    ensures PlanOutcome(labels, m, cur, target, None) ==
              Adjustment(SetOf(SelectedOf(labels, m)) == SetOf(target), labels)
  {
    assert ClicksMade(0, None) == 0;
    assert ApplyClicks(labels, m, []) == labels;
  }

  /**
   * An empty target on a layer of radios clicks nothing (a selected radio is
   * never unchecked): the labels stay, and the result is `True` iff the layer
   * has options and none of them is selected.
   */
  lemma RadiosNeverCleared(labels: seq<Label>)
    requires AllRadio(labels)
    ensures var m := OptionsOf(labels);
      var r := AdjustOutcome(true, labels, [], None);
      r.labels == labels &&
      (r.ok <==> m.keys != [] && forall k :: k in m.info ==> !SelectedKey(labels, m, k))
  {
    var m := OptionsOf(labels);
    OptionsResolve(labels);
    var none: seq<string> := [];
    var r := AdjustOutcome(true, labels, none, None);
    if m.keys != [] {
      var cur := SelectedOf(labels, m);
      if cur == [] {
        assert SetOf(cur) == SetOf(none);
        assert r == Adjustment(true, labels);
      } else {
        assert cur[0] in SetOf(cur);
        assert SetOf(cur) != SetOf(none);
        RadioExtrasSkipped(labels, m, cur, none);
        assert Without(none, cur) == [];
        assert ClickPlan(m, cur, none) == [];
        EmptyPlanKeeps(labels, m, cur, none);
        assert r == Adjustment(false, labels);
        assert SelectedKey(labels, m, cur[0]);
      }
    }
  }

  /**
   * A checked radio `a` (for instance A), target `[]`: the radio is never
   * unchecked, no click is made, and the final comparison fails.
   */
  lemma RadioScenario(a: string)
    requires a != "" && Upper(a) == a
    ensures var labels := [Choice(a, "radio", true)];
      var r := AdjustOutcome(true, labels, [], None);
      !r.ok && r.labels == labels
  {
    var labels := [Choice(a, "radio", true)];
    OneRadioEntry(a);
    OptionsResolve(labels);
    RadiosNeverCleared(labels);
    assert SelectedKey(labels, OptionsOf(labels), a);
  }
}
