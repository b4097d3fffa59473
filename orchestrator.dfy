/**
 * The orchestrator (main.py:92-270): the bounded retry around the navigator
 * and the four-state loop that alternates scanning the catalogue, waiting for
 * a page switch, watching a video and answering quizzes.
 *
 * One iteration of the `while True` loop is a step over a `Reading`: what the
 * clock and the page probes report during that iteration. The clock is in
 * integer milliseconds; `now` is the reading at the top of the iteration and
 * `later` stands for every later clock reading of the same iteration. The
 * sleeps, the logging, the injected keep-alive script and the browser
 * connection are not modelled; refreshing the tab, running the quiz solver,
 * clicking and keeping the video alive are recorded as `Action`s.
 */
module Orchestrator {
  import opened Text
  import opened NavTree
  import opened NavDecide

  /** `FORCE_REFRESH_INTERVAL` (config.py:15), 1800 s. */
  const ForceRefreshInterval: int := 1_800_000
  /** `WATCHDOG_TIMEOUT` (config.py:14), 300 s. */
  const WatchdogTimeout: int := 300_000
  /** `QUIZ_SAFETY_BUFFER` (main.py:137), 5 s. */
  const QuizSafetyBuffer: int := 5_000
  /** `MAX_RETRIES` of `safe_scan_and_click` (main.py:94). */
  const MaxScanRetries: nat := 6

  const ExpandMarker: string := "展开"
  const PlayingMarker: string := "正在播放"

  // ---------------------------------------------------------------------------
  // Page probes
  // ---------------------------------------------------------------------------

  /** What `get_navigation_action` reads from the tab: the catalogue root (None when absent) and the URL. */
  datatype View = View(catalogue: Option<seq<Element>>, url: string)

  /** The navigator's decision on a view. */
  function Decide(v: View): Decision
  {
    NavigationSpec(v.catalogue, v.url)
  }

  /**
   * One attempt of `safe_scan_and_click`: the view the navigator reads (None
   * when the lookup raises) and whether clicking the target raises.
   */
  datatype Probe = Probe(view: Option<View>, clickFails: bool)

  /** The attempts the page answers; an attempt past the end raises. */
  function ProbeAt(probes: seq<Probe>, i: nat): Probe
  {
    if i < |probes| then probes[i] else Probe(None, false)
  }

  /** `desc and marker in desc`. */
  predicate Mentions(desc: Option<string>, marker: string)
  {
    desc.Some? && Contains(desc.value, marker)
  }

  // ---------------------------------------------------------------------------
  // safe_scan_and_click
  // ---------------------------------------------------------------------------

  /** `(success, is_expand, desc)`. */
  datatype ScanResult = ScanResult(success: bool, isExpand: bool, desc: Option<string>)

  /**
   * An attempt that ends in the `except` branch: the lookup raised, or
   * navigation is needed and either the description is None (so that
   * `"展开" in desc` raises) or the click raised.
   */
  predicate Retries(p: Probe)
  {
    p.view.None? ||
    (var d := Decide(p.view.value);
     d.navNeeded && d.target.Some? && (d.desc.None? || p.clickFails))
  }

  /** What an attempt that does not retry returns. */
  function Settled(p: Probe): ScanResult
    requires !Retries(p)
  {
    var d := Decide(p.view.value);
    if !d.navNeeded || d.target.None? then ScanResult(false, false, d.desc)
    else ScanResult(true, Contains(d.desc.value, ExpandMarker), d.desc)
  }

  /** The retry loop from attempt `i` on. */
  function ScanFrom(probes: seq<Probe>, i: nat): ScanResult
    decreases MaxScanRetries - i
  {
    if i >= MaxScanRetries then ScanResult(false, false, None)
    else if Retries(ProbeAt(probes, i)) then ScanFrom(probes, i + 1)
    else Settled(ProbeAt(probes, i))
  }

  /** The first attempt at or after `i` that does not retry, or `MaxScanRetries` when all of them do. */
  function FirstSettled(probes: seq<Probe>, i: nat): (k: nat)
    requires i <= MaxScanRetries
    ensures i <= k <= MaxScanRetries
    ensures forall j :: i <= j < k ==> Retries(ProbeAt(probes, j))
    ensures k < MaxScanRetries ==> !Retries(ProbeAt(probes, k))
    decreases MaxScanRetries - i
  {
    if i == MaxScanRetries then i
    else if Retries(ProbeAt(probes, i)) then FirstSettled(probes, i + 1)
    else i
  }

  /**
   * The scan returns what the first attempt that does not retry returns, and
   * `(False, False, None)` when all six attempts retry.
   */
  lemma {:induction false} ScanIsFirstSettled(probes: seq<Probe>, i: nat)
    requires i <= MaxScanRetries
    ensures var k := FirstSettled(probes, i);
      ScanFrom(probes, i) ==
        (if k == MaxScanRetries then ScanResult(false, false, None) else Settled(ProbeAt(probes, k)))
    decreases MaxScanRetries - i
  {
    if i < MaxScanRetries && Retries(ProbeAt(probes, i)) {
      ScanIsFirstSettled(probes, i + 1);
    }
  }

  /**
   * The outcome of one attempt that does not retry: `(False, False, desc)`
   * when no navigation is needed or there is no target, and otherwise a
   * success classified EXPAND iff the description contains "展开".
   */
  lemma SettledSpec(p: Probe)
    requires !Retries(p)
    ensures var d := Decide(p.view.value); var r := Settled(p);
      (!d.navNeeded || d.target.None? ==> r == ScanResult(false, false, d.desc)) &&
      (r.success <==> d.navNeeded && d.target.Some?) &&
      (r.success ==> !p.clickFails && r.desc == d.desc && d.desc.Some? &&
                     (r.isExpand <==> Contains(d.desc.value, ExpandMarker)))
  {
  }

  /** Every scan result: only a success is an expand, and it is one iff its description says "展开". */
  lemma ScanResultSpec(probes: seq<Probe>)
    ensures var r := ScanFrom(probes, 0);
      (!r.success ==> !r.isExpand) &&
      (r.success ==> r.desc.Some? && (r.isExpand <==> Contains(r.desc.value, ExpandMarker)))
  {
    ScanIsFirstSettled(probes, 0);
    var k := FirstSettled(probes, 0);
    if k < MaxScanRetries {
      SettledSpec(ProbeAt(probes, k));
    }
  }

  /** At most six attempts are made: the scan depends on the first six probes only. */
  lemma {:induction false} ScanReadsSix(probes: seq<Probe>, more: seq<Probe>, i: nat)
    requires |probes| >= MaxScanRetries
    ensures ScanFrom(probes + more, i) == ScanFrom(probes[..MaxScanRetries], i)
    decreases MaxScanRetries - i
  {
    if i < MaxScanRetries {
      assert ProbeAt(probes + more, i) == ProbeAt(probes[..MaxScanRetries], i);
      ScanReadsSix(probes, more, i + 1);
    }
  }

  /** `safe_scan_and_click`: up to six attempts, each reading the navigator and clicking its target. */
  method SafeScanAndClick(probes: seq<Probe>) returns (r: ScanResult)
    ensures r == ScanFrom(probes, 0)
  {
    var i := 0;
    while i < MaxScanRetries
      invariant 0 <= i <= MaxScanRetries
      invariant ScanFrom(probes, 0) == ScanFrom(probes, i)
    {
      var p := ProbeAt(probes, i);
      if p.view.Some? {
        var d := GetNavigationAction(p.view.value.catalogue, p.view.value.url);
        if !d.navNeeded || d.target.None? {
          return ScanResult(false, false, d.desc);
        }
        if d.desc.Some? && !p.clickFails {
          return ScanResult(true, Contains(d.desc.value, ExpandMarker), d.desc);
        }
      }
      i := i + 1;
    }
    return ScanResult(false, false, None);
  }

  // ---------------------------------------------------------------------------
  // The state machine
  // ---------------------------------------------------------------------------

  datatype Mode = Scan | Switch | Watch | QuizMode

  /** The loop variables of `main` (the solver object has no state of its own and is left out). */
  datatype Machine = Machine(
    mode: Mode,
    lastForceRefresh: int,
    lastAction: int,
    lastQuizEnd: int,
    lastOpWasExpand: bool)

  /** The state before the first iteration, with the clock at `start`. */
  function Initial(start: int): (m: Machine)
    ensures m.mode == Scan && m.lastForceRefresh == start && m.lastAction == start
    ensures m.lastQuizEnd == 0 && !m.lastOpWasExpand
  {
    Machine(Scan, start, start, 0, false)
  }

  /**
   * What one iteration observes: the clock at its top and after its work,
   * whether `is_valid_quiz` holds (the loop asks it at most once per
   * iteration), the attempts of a scan, and the view the navigator reads in
   * SWITCH and WATCH (None when that lookup raises).
   */
  datatype Reading = Reading(now: int, later: int, quiz: bool, probes: seq<Probe>, nav: Option<View>)

  /** The side effects of an iteration. */
  datatype Action = Refresh | RunSolver | ClickTarget | StartVideo | KeepAlive

  /** An iteration goes on to the next one, or raises out of the loop and ends the program. */
  datatype Outcome = Continue(next: Machine, actions: seq<Action>) | Crash(actions: seq<Action>)

  predicate RefreshDue(m: Machine, r: Reading)
  {
    r.now - m.lastForceRefresh > ForceRefreshInterval
  }

  predicate WatchdogDue(m: Machine, now: int)
  {
    m.mode != QuizMode && now - m.lastAction > WatchdogTimeout
  }

  /** The branch of the current state (main.py:165-261). */
  function ModeStep(m: Machine, r: Reading): Outcome
  {
    match m.mode
    case QuizMode =>
      if r.quiz then Continue(m.(lastQuizEnd := r.later), [RunSolver])
      else if r.later - m.lastQuizEnd > QuizSafetyBuffer then Continue(m.(mode := Scan, lastAction := r.later), [])
      else Continue(m, [])
    case Scan =>
      var s := ScanFrom(r.probes, 0);
      if s.success then Continue(m.(mode := Switch, lastOpWasExpand := s.isExpand), [ClickTarget])
      else if Mentions(s.desc, PlayingMarker) then Continue(m.(mode := Watch), [])
      else Continue(m, [])
    case Switch =>
      if m.lastOpWasExpand then Continue(m.(mode := Scan), [])
      else if r.nav.None? then Crash([])
      else
        var d := Decide(r.nav.value);
        if !d.navNeeded && Mentions(d.desc, PlayingMarker) then
          Continue(m.(mode := Watch, lastAction := r.later), [StartVideo])
        else Continue(m.(mode := Scan), [])
    case Watch =>
      if r.nav.None? then Crash([KeepAlive])
      else if Decide(r.nav.value).navNeeded then Continue(m.(mode := Scan), [KeepAlive])
      else Continue(m.(lastAction := r.later), [KeepAlive])
  }

  /** The stall check at the end of an iteration (main.py:265-270), against the clock at its top. */
  function Watchdog(o: Outcome, now: int): Outcome
  {
    if o.Continue? && WatchdogDue(o.next, now) then
      Continue(o.next.(mode := Scan, lastAction := now), o.actions + [Refresh])
    else o
  }

  /** One iteration of the loop body (main.py:144-270). */
  function Step(m: Machine, r: Reading): Outcome
  {
    if RefreshDue(m, r) then Continue(m.(mode := Scan, lastForceRefresh := r.now), [Refresh])
    else if m.mode != QuizMode && r.quiz then Continue(m.(mode := QuizMode, lastQuizEnd := r.later), [])
    else if m.mode == Switch && m.lastOpWasExpand then ModeStep(m, r)
    else Watchdog(ModeStep(m, r), r.now)
  }

  /** The loop body as the source performs it, calling the scan and the navigator. */
  method Iterate(m: Machine, r: Reading) returns (o: Outcome)
    ensures o == Step(m, r)
  {
    if r.now - m.lastForceRefresh > ForceRefreshInterval {
      return Continue(m.(mode := Scan, lastForceRefresh := r.now), [Refresh]);
    }
    if m.mode != QuizMode && r.quiz {
      return Continue(m.(mode := QuizMode, lastQuizEnd := r.later), []);
    }
    var n := m;
    var actions: seq<Action> := [];
    match m.mode {
      case QuizMode =>
        if r.quiz {
          actions := [RunSolver];
          n := n.(lastQuizEnd := r.later);
        } else if r.later - m.lastQuizEnd > QuizSafetyBuffer {
          n := n.(mode := Scan, lastAction := r.later);
        }
      case Scan =>
        var s := SafeScanAndClick(r.probes);
        if s.success {
          actions := [ClickTarget];
          n := n.(mode := Switch, lastOpWasExpand := s.isExpand);
        } else if s.desc.Some? && Contains(s.desc.value, PlayingMarker) {
          n := n.(mode := Watch);
        }
      case Switch =>
        if m.lastOpWasExpand {
          return Continue(m.(mode := Scan), []);
        }
        if r.nav.None? {
          return Crash([]);
        }
        var d := GetNavigationAction(r.nav.value.catalogue, r.nav.value.url);
        if !d.navNeeded && d.desc.Some? && Contains(d.desc.value, PlayingMarker) {
          actions := [StartVideo];
          n := n.(mode := Watch, lastAction := r.later);
        } else {
          n := n.(mode := Scan);
        }
      case Watch =>
        actions := [KeepAlive];
        if r.nav.None? {
          return Crash(actions);
        }
        var d := GetNavigationAction(r.nav.value.catalogue, r.nav.value.url);
        if d.navNeeded {
          n := n.(mode := Scan);
        } else {
          n := n.(lastAction := r.later);
        }
    }
    if n.mode != QuizMode && r.now - n.lastAction > WatchdogTimeout {
      actions := actions + [Refresh];
      n := n.(mode := Scan, lastAction := r.now);
    }
    return Continue(n, actions);
  }

  // ---------------------------------------------------------------------------
  // Transitions of one iteration
  // ---------------------------------------------------------------------------

  /** A due refresh comes first: it forces SCAN and nothing else happens in that iteration. */
  lemma RefreshFirst(m: Machine, r: Reading)
    requires RefreshDue(m, r)
    ensures var o := Step(m, r);
      o.Continue? && o.actions == [Refresh] && o.next.mode == Scan &&
      o.next.lastForceRefresh == r.now && o.next.lastAction == m.lastAction &&
      o.next.lastQuizEnd == m.lastQuizEnd && o.next.lastOpWasExpand == m.lastOpWasExpand
  {
  }

  /** Outside QUIZ_MODE a valid quiz switches to QUIZ_MODE and ends the iteration. */
  lemma QuizPreempts(m: Machine, r: Reading)
    requires !RefreshDue(m, r) && m.mode != QuizMode && r.quiz
    ensures var o := Step(m, r);
      o.Continue? && o.actions == [] && o.next.mode == QuizMode && o.next.lastQuizEnd == r.later &&
      o.next.lastForceRefresh == m.lastForceRefresh && o.next.lastAction == m.lastAction &&
      o.next.lastOpWasExpand == m.lastOpWasExpand
  {
  }

  /**
   * QUIZ_MODE runs the solver while a quiz shows, stays while the safety
   * buffer has not elapsed, and leaves only for SCAN; the watchdog never
   * fires in it.
   */
  lemma QuizModeSpec(m: Machine, r: Reading)
    requires !RefreshDue(m, r) && m.mode == QuizMode && r.now <= r.later
    ensures var o := Step(m, r);
      o.Continue? && (o.next.mode == QuizMode || o.next.mode == Scan) &&
      (o.next.mode == Scan <==> !r.quiz && r.later - m.lastQuizEnd > QuizSafetyBuffer) &&
      (o.actions == [RunSolver] <==> r.quiz) && (!r.quiz ==> o.actions == []) &&
      (r.quiz ==> o.next.lastQuizEnd == r.later) &&
      (o.next.mode == Scan ==> o.next.lastAction == r.later)
  {
  }

  /**
   * SCAN, with the watchdog quiet: a successful click goes to SWITCH and
   * records whether it expanded, a "正在播放" description goes to WATCH, and
   * anything else stays in SCAN.
   */
  lemma ScanSpec(m: Machine, r: Reading)
    requires !RefreshDue(m, r) && m.mode == Scan && !r.quiz
    requires r.now - m.lastAction <= WatchdogTimeout
    ensures var o := Step(m, r); var s := ScanFrom(r.probes, 0);
      o.Continue? && (o.actions == [ClickTarget] <==> s.success) && (!s.success ==> o.actions == []) &&
      (o.next.mode == Switch <==> s.success) &&
      (o.next.mode == Watch <==> !s.success && Mentions(s.desc, PlayingMarker)) &&
      (o.next.mode == Scan <==> !s.success && !Mentions(s.desc, PlayingMarker)) &&
      (s.success ==> o.next.lastOpWasExpand == s.isExpand) &&
      o.next.lastAction == m.lastAction
  {
  }

  /** SCAN with a stale action timer: the watchdog refreshes and resets to SCAN, whatever the scan did. */
  lemma ScanStalled(m: Machine, r: Reading)
    requires !RefreshDue(m, r) && m.mode == Scan && !r.quiz
    requires r.now - m.lastAction > WatchdogTimeout
    ensures var o := Step(m, r);
      o.Continue? && o.next.mode == Scan && o.next.lastAction == r.now &&
      |o.actions| > 0 && o.actions[|o.actions| - 1] == Refresh
  {
  }

  /**
   * SWITCH: after an expand it returns to SCAN at once (the watchdog is not
   * consulted); otherwise it goes to WATCH iff the navigator reports nothing
   * to do with a "正在播放" description, and to SCAN in every other case.
   */
  lemma SwitchSpec(m: Machine, r: Reading)
    requires !RefreshDue(m, r) && m.mode == Switch && !r.quiz && r.now <= r.later
    ensures var o := Step(m, r);
      (m.lastOpWasExpand ==> o == Continue(m.(mode := Scan), [])) &&
      (!m.lastOpWasExpand && r.nav.None? ==> o.Crash?) &&
      (!m.lastOpWasExpand && r.nav.Some? ==>
        var d := Decide(r.nav.value);
        o.Continue? &&
        (o.next.mode == Watch <==> !d.navNeeded && Mentions(d.desc, PlayingMarker)) &&
        (o.next.mode == Watch || o.next.mode == Scan) &&
        (o.next.mode == Watch ==> o.actions == [StartVideo] && o.next.lastAction == r.later))
  {
  }

  /**
   * WATCH keeps the video alive, goes to SCAN iff the navigator reports
   * `nav_needed`, and otherwise stays and resets the action timer, so the
   * watchdog stays quiet while the video plays.
   */
  lemma WatchSpec(m: Machine, r: Reading)
    requires !RefreshDue(m, r) && m.mode == Watch && !r.quiz && r.now <= r.later
    ensures var o := Step(m, r);
      (r.nav.None? ==> o == Crash([KeepAlive])) &&
      (r.nav.Some? ==>
        var d := Decide(r.nav.value);
        o.Continue? && |o.actions| > 0 && o.actions[0] == KeepAlive &&
        (o.next.mode == Scan <==> d.navNeeded) && (o.next.mode == Watch <==> !d.navNeeded) &&
        (!d.navNeeded ==> o.actions == [KeepAlive] && o.next.lastAction == r.later))
  {
  }

  /** Every refresh, forced or by the watchdog, leaves the machine in SCAN; so none happens in QUIZ_MODE. */
  lemma RefreshLeadsToScan(m: Machine, r: Reading)
    ensures var o := Step(m, r);
      o.Continue? && Refresh in o.actions ==> o.next.mode == Scan
  {
  }

  /**
   * The watchdog only fires outside QUIZ_MODE, when the action timer was
   * already stale at the top of the iteration, and it restarts that timer.
   */
  lemma WatchdogSpec(m: Machine, r: Reading)
    requires !RefreshDue(m, r) && r.now <= r.later
    ensures var o := Step(m, r);
      o.Continue? && Refresh in o.actions ==>
        m.mode != QuizMode && r.now - m.lastAction > WatchdogTimeout &&
        o.next.mode == Scan && o.next.lastAction == r.now
  {
  }

  // ---------------------------------------------------------------------------
  // The loop
  // ---------------------------------------------------------------------------

  /** The state after some iterations, the actions taken, and whether the loop raised out. */
  datatype History = History(last: Machine, actions: seq<Action>, crashed: bool)

  /** The iterations over `readings`, stopping at the first that raises. */
  function RunFrom(start: Machine, readings: seq<Reading>): History
    decreases |readings|
  {
    if readings == [] then History(start, [], false)
    else
      var h := RunFrom(start, readings[..|readings| - 1]);
      if h.crashed then h
      else match Step(h.last, readings[|readings| - 1])
        case Continue(n, a) => History(n, h.actions + a, false)
        case Crash(a) => History(h.last, h.actions + a, true)
  }

  /** Once the loop has raised, later readings change nothing. */
  lemma {:induction false} CrashIsFinal(start: Machine, readings: seq<Reading>, k: nat)
    requires k <= |readings| && RunFrom(start, readings[..k]).crashed
    ensures RunFrom(start, readings) == RunFrom(start, readings[..k])
    decreases |readings| - k
  {
    if k < |readings| {
      var next := readings[..k + 1];
      assert next[..k] == readings[..k];
      CrashIsFinal(start, readings, k + 1);
    } else {
      assert readings[..k] == readings;
    }
  }

  /** A quiz that stays on screen: every reading shows it and none makes a refresh due. */
  predicate QuizStays(m: Machine, readings: seq<Reading>)
  {
    forall i :: 0 <= i < |readings| ==>
      readings[i].quiz && readings[i].now - m.lastForceRefresh <= ForceRefreshInterval
  }

  /**
   * While a quiz stays on screen the machine enters QUIZ_MODE (if it was not
   * there) and then runs the solver on every iteration, never leaving the
   * mode, never refreshing and never raising.
   */
  lemma {:induction false} QuizHolds(m: Machine, readings: seq<Reading>)
    requires QuizStays(m, readings) && readings != []
    ensures var h := RunFrom(m, readings);
      !h.crashed && h.last.mode == QuizMode && h.last.lastForceRefresh == m.lastForceRefresh &&
      h.last.lastAction == m.lastAction &&
      |h.actions| == |readings| - (if m.mode == QuizMode then 0 else 1) &&
      forall i :: 0 <= i < |h.actions| ==> h.actions[i] == RunSolver
    decreases |readings|
  {
    var init := readings[..|readings| - 1];
    if init == [] {
      assert RunFrom(m, init) == History(m, [], false);
    } else {
      assert QuizStays(m, init) by {
        forall i | 0 <= i < |init| ensures init[i] == readings[i] {}
      }
      QuizHolds(m, init);
    }
  }

  /** `main` after the browser is taken over: the loop over the readings from the initial state. */
  method MainLoop(start: int, readings: seq<Reading>) returns (h: History)
    ensures h == RunFrom(Initial(start), readings)
  {
    var m := Initial(start);
    var actions: seq<Action> := [];
    var i := 0;
    while i < |readings|
      invariant 0 <= i <= |readings|
      invariant RunFrom(Initial(start), readings[..i]) == History(m, actions, false)
    {
      assert readings[..i + 1][..i] == readings[..i];
      var o := Iterate(m, readings[i]);
      if o.Crash? {
        h := History(m, actions + o.actions, true);
        assert RunFrom(Initial(start), readings[..i + 1]) == h;
        CrashIsFinal(Initial(start), readings, i + 1);
        return;
      }
      m := o.next;
      actions := actions + o.actions;
      i := i + 1;
    }
    assert readings[..i] == readings;
    h := History(m, actions, false);
  }
}
