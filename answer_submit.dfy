/**
 * The submit protocol of the quiz solver (answer_logic.py:113-186): the
 * letters a hint discloses, the bounded polling after a submit, and the two
 * rounds of `run`.
 *
 * What the page shows after the submit button is clicked is not the
 * solver's doing: it is given as a `SubmitEnv` — whether the layer is there,
 * whether it has the button, and what each poll observes.
 */
module AnswerSubmit {
  import opened Text
  import opened AnswerOptions
  import opened AnswerConverge

  /** `QUIZ_CHECK_RETRIES` (config.py:25). */
  const QuizCheckRetries: nat := 5

  /** The first guess of `run`. */
  const FirstGuess: seq<string> := ["A"]

  // ---------------------------------------------------------------------------
  // Disclosed letters: re.findall(r'["\']([A-Z])["\']', text)
  // ---------------------------------------------------------------------------

  predicate IsQuote(c: char)
  {
    c == '"' || c == '\''
  }

  predicate IsUpperLetter(c: char)
  {
    'A' <= c <= 'Z'
  }

  /** The pattern matches at position `i`: a quote, one capital letter, a quote. */
  predicate MatchAt(s: string, i: nat)
  {
    i + 3 <= |s| && IsQuote(s[i]) && IsUpperLetter(s[i + 1]) && IsQuote(s[i + 2])
  }

  /** A disclosed answer: one capital letter. */
  predicate IsLetter(x: string)
  {
    |x| == 1 && IsUpperLetter(x[0])
  }

  /**
   * The non-overlapping matches of the pattern, scanning left to right: a
   * match consumes its three characters, a failed position only itself.
   */
  function DisclosedLetters(s: string): (r: seq<string>)
    ensures forall i :: 0 <= i < |r| ==> IsLetter(r[i])
    ensures 3 * |r| <= |s|
    decreases |s|
  {
    if |s| < 3 then []
    else if MatchAt(s, 0) then [[s[1]]] + DisclosedLetters(s[3..])
    else DisclosedLetters(s[1..])
  }

  /** No letter is disclosed iff the pattern matches nowhere. */
  lemma {:induction false} NoLettersIff(s: string)
    ensures DisclosedLetters(s) == [] <==> forall i :: 0 <= i < |s| ==> !MatchAt(s, i)
    decreases |s|
  {
    if |s| >= 3 && !MatchAt(s, 0) {
      NoLettersIff(s[1..]);
      forall i | 1 <= i < |s| ensures MatchAt(s, i) == MatchAt(s[1..], i - 1) {}
      if DisclosedLetters(s) != [] {
        var i :| 0 <= i < |s[1..]| && MatchAt(s[1..], i);
        assert MatchAt(s, i + 1);
      }
    }
  }

  /** Text without quotes before the letters discloses nothing of its own. */
  lemma {:induction false} PlainPrefix(pre: string, s: string)
    requires forall i :: 0 <= i < |pre| ==> !IsQuote(pre[i])
    ensures DisclosedLetters(pre + s) == DisclosedLetters(s)
    decreases |pre|
  {
    if pre == [] {
      assert pre + s == s;
    } else {
      PlainPrefix(pre[1..], s);
      var t := pre + s;
      assert t[0] == pre[0] && !MatchAt(t, 0);
      assert t[1..] == pre[1..] + s;

    }
  }

  /** Python's `repr` of a list of one-letter strings: `['A', 'B']`. */
  function Repr(xs: seq<string>): string
  {
    "[" + Items(xs) + "]"
  }

  function Items(xs: seq<string>): string
  {
    if xs == [] then ""
    else if |xs| == 1 then "'" + xs[0] + "'"
    else "'" + xs[0] + "', " + Items(xs[1..])
  }

  /** A quoted letter in front of `t` discloses that letter, then what `t` discloses. */
  lemma QuotedHead(x: string, t: string)
    requires IsLetter(x)
    ensures DisclosedLetters("'" + x + "'" + t) == [x] + DisclosedLetters(t)
  {
    var s := "'" + x + "'" + t;
    assert |s| >= 3 && s[0] == '\'' && s[1] == x[0] && s[2] == '\'';
    assert MatchAt(s, 0);
    assert s[3..] == t;
    assert [s[1]] == x;
  }

  /** The step of the round trip: a letter in front of a list that round-trips. */
  lemma ItemsCons(xs: seq<string>)
    requires |xs| >= 2 && IsLetter(xs[0])
    requires DisclosedLetters(Items(xs[1..]) + "]") == xs[1..]
    ensures DisclosedLetters(Items(xs) + "]") == xs
  {
    var rest := Items(xs[1..]) + "]";
    assert Items(xs) + "]" == "'" + xs[0] + "'" + (", " + rest);
    QuotedHead(xs[0], ", " + rest);
    PlainPrefix(", ", rest);
    assert [xs[0]] + xs[1..] == xs;
  }

  lemma {:induction false} ItemsRoundTrip(xs: seq<string>)
    requires forall i :: 0 <= i < |xs| ==> IsLetter(xs[i])
    ensures DisclosedLetters(Items(xs) + "]") == xs
    decreases |xs|
  {
    if xs == [] {
      assert Items(xs) + "]" == "]";
    } else if |xs| == 1 {
      assert Items(xs) + "]" == "'" + xs[0] + "'" + "]";
      QuotedHead(xs[0], "]");
      assert DisclosedLetters("]") == [];
    } else {
      ItemsRoundTrip(xs[1..]);
      ItemsCons(xs);
    }
  }

  lemma PlainOpening(pre: string)
    requires forall i :: 0 <= i < |pre| ==> !IsQuote(pre[i])
    ensures forall i :: 0 <= i < |pre + "["| ==> !IsQuote((pre + "[")[i])
  {
    var p := pre + "[";
    forall i | 0 <= i < |p| ensures !IsQuote(p[i]) {
      if i < |pre| {
        assert p[i] == pre[i];
      }
    }
  }

  lemma ReprSplit(pre: string, items: string)
    ensures pre + ("[" + items + "]") == (pre + "[") + (items + "]")
  {
  }

  /** A hint that shows a list of letters after quote-free text discloses exactly those letters. */
  lemma ReprRoundTrip(pre: string, xs: seq<string>)
    requires forall i :: 0 <= i < |pre| ==> !IsQuote(pre[i])
    requires forall i :: 0 <= i < |xs| ==> IsLetter(xs[i])
    ensures DisclosedLetters(pre + Repr(xs)) == xs
  {
    PlainOpening(pre);
    ReprSplit(pre, Items(xs));
    PlainPrefix(pre + "[", Items(xs) + "]");
    ItemsRoundTrip(xs);
  }

  // ---------------------------------------------------------------------------
  // submit_and_check
  // ---------------------------------------------------------------------------

  /**
   * What one poll observes: the layer has gone (either lookup finds no
   * displayed layer); a displayed hint with its text; no displayed hint; or
   * the lookup raised, which the poll ignores.
   */
  datatype Poll = LayerGone | Hint(text: string) | NoHint | Raised

  /** The page around one submit: the layer before it, the button, and the polls after it. */
  datatype SubmitEnv = SubmitEnv(shown: bool, hasButton: bool, polls: seq<Poll>)

  /** The four outcomes of `submit_and_check`; `Disclosed` is the returned list of letters. */
  datatype SubmitResult = Gone | Error | Timeout | Disclosed(letters: seq<string>)

  /** Poll `k` (a poll past the end of the list observes nothing). */
  function PollAt(polls: seq<Poll>, k: nat): Poll
  {
    if k < |polls| then polls[k] else NoHint
  }

  /** A poll that lets the loop go on. */
  predicate Silent(p: Poll)
  {
    p.NoHint? || p.Raised?
  }

  /** What a hint text decides: `GONE` when the target is non-empty and equals the letters as a set. */
  function HintResult(text: string, target: seq<string>): SubmitResult
  {
    var letters := DisclosedLetters(text);
    if target != [] && SetOf(letters) == SetOf(target) then Gone else Disclosed(letters)
  }

  /** The polling loop from poll `k` on. */
  function PollOutcome(polls: seq<Poll>, target: seq<string>, k: nat): SubmitResult
    decreases QuizCheckRetries - k
  {
    if k >= QuizCheckRetries then Timeout
    else
      match PollAt(polls, k)
      case LayerGone => Gone
      case Hint(text) => HintResult(text, target)
      case _ => PollOutcome(polls, target, k + 1)
  }

  /** `submit_and_check(target)`. */
  function SubmitOutcome(env: SubmitEnv, target: seq<string>): SubmitResult
  {
    if !env.shown then Gone
    else if !env.hasButton then Error
    else PollOutcome(env.polls, target, 0)
  }

  /** `k` is the first poll that is not silent, before the retries run out. */
  predicate Decisive(polls: seq<Poll>, k: nat)
  {
    k < QuizCheckRetries && !Silent(PollAt(polls, k)) && forall j :: 0 <= j < k ==> Silent(PollAt(polls, j))
  }

  /** From poll `k` on: the loop times out iff polls `k..4` are all silent, and otherwise the first loud one decides. */
  lemma {:induction false} PollOutcomeSpec(polls: seq<Poll>, target: seq<string>, k: nat)
    requires forall j :: 0 <= j < k ==> Silent(PollAt(polls, j))
    ensures PollOutcome(polls, target, k) == Timeout <==>
              forall j :: k <= j < QuizCheckRetries ==> Silent(PollAt(polls, j))
    ensures PollOutcome(polls, target, k) != Timeout ==>
              exists d :: Decisive(polls, d) && k <= d &&
                PollOutcome(polls, target, k) == (if PollAt(polls, d).LayerGone? then Gone else HintResult(PollAt(polls, d).text, target))
    decreases QuizCheckRetries - k
  {
    if k < QuizCheckRetries {
      if Silent(PollAt(polls, k)) {
        PollOutcomeSpec(polls, target, k + 1);
      } else {
        assert Decisive(polls, k);
      }
    }
  }

  /**
   * `submit_and_check`: `GONE` when the layer is absent; `ERROR` when it has
   * no submit button; `TIMEOUT` iff none of the 5 polls sees the layer gone
   * or a hint; otherwise the first poll that does decides, a hint giving
   * `GONE` when its letters equal the non-empty target as a set and the
   * letters otherwise.
   */
  lemma SubmitSpec(env: SubmitEnv, target: seq<string>)
    ensures var r := SubmitOutcome(env, target);
      && (!env.shown ==> r == Gone)
      && (r == Error <==> env.shown && !env.hasButton)
      && (r == Timeout <==>
            (env.shown && env.hasButton && forall j :: 0 <= j < QuizCheckRetries ==> Silent(PollAt(env.polls, j))))
      && (env.shown && env.hasButton && r != Timeout ==>
            exists d :: Decisive(env.polls, d) &&
              r == (if PollAt(env.polls, d).LayerGone? then Gone else HintResult(PollAt(env.polls, d).text, target)))
  {
    PollOutcomeSpec(env.polls, target, 0);
  }

  /** Disclosed letters are single capital letters that differ, as a set, from a non-empty target. */
  lemma DisclosedSpec(env: SubmitEnv, target: seq<string>)
    ensures var r := SubmitOutcome(env, target);
      r.Disclosed? ==>
        && (forall i :: 0 <= i < |r.letters| ==> IsLetter(r.letters[i]))
        && (target != [] ==> SetOf(r.letters) != SetOf(target))
  {
    SubmitSpec(env, target);
  }

  /** Only the first five polls matter. */
  lemma {:induction false} PollsBounded(p1: seq<Poll>, p2: seq<Poll>, target: seq<string>, k: nat)
    requires forall j :: k <= j < QuizCheckRetries ==> PollAt(p1, j) == PollAt(p2, j)
    ensures PollOutcome(p1, target, k) == PollOutcome(p2, target, k)
    decreases QuizCheckRetries - k
  {
    if k < QuizCheckRetries {
      PollsBounded(p1, p2, target, k + 1);
    }
  }

  /** `submit_and_check` as the loop it is. */
  method SubmitAndCheck(env: SubmitEnv, target: seq<string>) returns (r: SubmitResult)
    ensures r == SubmitOutcome(env, target)
  {
    if !env.shown {
      return Gone;
    }
    if !env.hasButton {
      return Error;
    }
    for k := 0 to QuizCheckRetries
      invariant PollOutcome(env.polls, target, k) == PollOutcome(env.polls, target, 0)
    {
      var p := PollAt(env.polls, k);
      if p.LayerGone? {
        return Gone;
      }
      if p.Hint? {
        var letters := DisclosedLetters(p.text);
        if target != [] && SetOf(letters) == SetOf(target) {
          return Gone;
        }
        return Disclosed(letters);
      }
    }
    return Timeout;
  }

  // ---------------------------------------------------------------------------
  // run
  // ---------------------------------------------------------------------------

  /** The submissions of `run`, their targets, and the labels left on the page. */
  datatype RunResult = RunResult(targets: seq<seq<string>>, results: seq<SubmitResult>, labels: seq<Label>)

  /**
   * `run`: select the first guess and submit; only when that discloses
   * letters, select exactly them and submit once more. What
   * `adjust_selection` returns is ignored.
   */
  function RunOutcome(shown: bool, labels: seq<Label>, env1: SubmitEnv, env2: SubmitEnv,
                      raise1: Option<nat>, raise2: Option<nat>): RunResult
  {
    var a1 := AdjustOutcome(shown, labels, FirstGuess, raise1);
    var r1 := SubmitOutcome(env1, FirstGuess);
    if r1.Disclosed? then
      var a2 := AdjustOutcome(shown, a1.labels, r1.letters, raise2);
      RunResult([FirstGuess, r1.letters], [r1, SubmitOutcome(env2, r1.letters)], a2.labels)
    else RunResult([FirstGuess], [r1], a1.labels)
  }

  /**
   * `run` submits once or twice, never more; the second submission happens
   * iff the first disclosed letters, and its target is exactly those letters.
   */
  lemma RunSpec(shown: bool, labels: seq<Label>, env1: SubmitEnv, env2: SubmitEnv,
                raise1: Option<nat>, raise2: Option<nat>)
    ensures var r := RunOutcome(shown, labels, env1, env2, raise1, raise2);
      && 1 <= |r.results| <= 2 && |r.targets| == |r.results|
      && r.targets[0] == FirstGuess && r.results[0] == SubmitOutcome(env1, FirstGuess)
      && (|r.results| == 2 <==> r.results[0].Disclosed?)
      && (|r.results| == 2 ==>
            r.targets[1] == r.results[0].letters && r.results[1] == SubmitOutcome(env2, r.targets[1]))
      && (forall i :: 0 <= i < |r.results| ==> r.results[i] == SubmitOutcome(if i == 0 then env1 else env2, r.targets[i]))
  {
  }

  /** Clicks keep the option map: it depends on values and types only. */
  lemma {:induction false} OptionsUpToSameControl(a: seq<Label>, b: seq<Label>, n: nat)
    requires |a| == |b| && n <= |a| && forall j :: 0 <= j < |a| ==> SameControl(a[j], b[j])
    ensures OptionsUpTo(a, n) == OptionsUpTo(b, n)
  {
    if n > 0 {
      OptionsUpToSameControl(a, b, n - 1);
      assert SameControl(a[n - 1], b[n - 1]);
    }
  }

  /**
   * On a layer of checkboxes, when the first submission discloses letters
   * that differ from each other and are all options, the second round leaves
   * exactly those letters selected (no click raising in that round).
   */
  lemma RunResyncs(labels: seq<Label>, env1: SubmitEnv, env2: SubmitEnv, raise1: Option<nat>)
    requires NoRadio(labels) && NoMarker(labels) && OptionsOf(labels).keys != []
    requires var r1 := SubmitOutcome(env1, FirstGuess);
      r1.Disclosed? && Distinct(r1.letters) && SetOf(r1.letters) <= SetOf(OptionsOf(labels).keys)
    ensures var m := OptionsOf(labels);
      var r := RunOutcome(true, labels, env1, env2, raise1, None);
      && Resolves(m, r.labels)
      && SetOf(SelectedOf(r.labels, m)) == SetOf(SubmitOutcome(env1, FirstGuess).letters)
  {
    var m := OptionsOf(labels);
    var a1 := AdjustOutcome(true, labels, FirstGuess, raise1);
    var letters := SubmitOutcome(env1, FirstGuess).letters;
    AdjustResultSpec(true, labels, FirstGuess, raise1);
    assert OptionsOf(a1.labels) == m by {
      OptionsResolve(labels);
      var cur := SelectedOf(labels, m);
      if m.keys != [] && SetOf(cur) != SetOf(FirstGuess) {
        var plan := ClickPlan(m, cur, FirstGuess);
        ApplyClicksSameControl(labels, m, plan[..ClicksMade(|plan|, raise1)]);
        ApplyClicksSameControl(labels, m, plan);
      }
      OptionsUpToSameControl(a1.labels, labels, |labels|);
    }
    ClicksKeepShapeAdjust(labels, raise1);
    CheckboxesConverge(a1.labels, letters);
  }

  /** The first round leaves a layer of checkboxes a layer of checkboxes. */
  lemma ClicksKeepShapeAdjust(labels: seq<Label>, raise1: Option<nat>)
    requires NoRadio(labels) && NoMarker(labels)
    ensures var a1 := AdjustOutcome(true, labels, FirstGuess, raise1);
      NoRadio(a1.labels) && NoMarker(a1.labels)
  {
    var m := OptionsOf(labels);
    OptionsResolve(labels);
    if m.keys != [] {
      var cur := SelectedOf(labels, m);
      if SetOf(cur) != SetOf(FirstGuess) {
        var plan := ClickPlan(m, cur, FirstGuess);
        ClicksKeepShape(labels, m, plan[..ClicksMade(|plan|, raise1)]);
        ClicksKeepShape(labels, m, plan);
      }
    }
  }

  /**
   * `run` on the page: adjust to the first guess, submit, and on disclosed
   * letters adjust to them and submit again; returns the submissions' results.
   */
  method Run(page: QuizPage, env1: SubmitEnv, env2: SubmitEnv, raise1: Option<nat>, raise2: Option<nat>)
    returns (targets: seq<seq<string>>, results: seq<SubmitResult>)
    modifies page
    ensures page.shown == old(page.shown)
    ensures RunOutcome(old(page.shown), old(page.labels), env1, env2, raise1, raise2) ==
              RunResult(targets, results, page.labels)
  {
    var adjusted := AdjustSelection(page, FirstGuess, raise1);
    var result := SubmitAndCheck(env1, FirstGuess);
    targets, results := [FirstGuess], [result];
    if result.Disclosed? {
      var correct := result.letters;
      adjusted := AdjustSelection(page, correct, raise2);
      var final := SubmitAndCheck(env2, correct);
      targets, results := targets + [correct], results + [final];
    }
  }
}
