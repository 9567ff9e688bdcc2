/**
 * `goHome` and `tryDismissAllMessages` of `Utils`: the retry loop that drives
 * the browser back to BASE_URL, and the best-effort clicking of known dialog
 * buttons it uses on foreign pages.
 *
 * The browser is an oracle again. For the dialogs it is a function from a
 * locator to what `find_elements` does with it; for `goHome` it is a function
 * from the iteration number to what the page shows in that iteration.
 */
module Navigation {
  import opened Polling

  datatype By = Id | CssSelector

  datatype Locator = Locator(strategy: By, selector: string)

  /** The dismiss buttons, in the order `tryDismissAllMessages` tries them. */
  const Buttons: seq<Locator> := [
    Locator(Id, "iLandingViewAction"),
    Locator(Id, "iShowSkip"),
    Locator(Id, "iNext"),
    Locator(Id, "iLooksGood"),
    Locator(Id, "idSIButton9"),
    Locator(CssSelector, ".ms-Button.ms-Button--primary"),
    Locator(Id, "bnp_btn_accept")
  ]

  /**
   * What `find_elements` does for one locator: it raises, or it returns the
   * matching elements, each given by whether its `click()` succeeds.
   */
  datatype Matches = LookupError | Elements(clicks: seq<bool>)

  /** Every click succeeds. */
  predicate AllClick(clicks: seq<bool>)
  {
    forall i :: 0 <= i < |clicks| ==> clicks[i]
  }

  /**
   * How many clicks are attempted when elements are clicked in order and the
   * first failing click ends the attempt.
   */
  function ClicksTried(clicks: seq<bool>): (n: nat)
    ensures n <= |clicks|
    ensures AllClick(clicks) ==> n == |clicks|
    ensures !AllClick(clicks) ==> 0 < n && !clicks[n - 1] && forall i :: 0 <= i < n - 1 ==> clicks[i]
  {
    if clicks == [] then 0
    else if !clicks[0] then 1
    else 1 + ClicksTried(clicks[1..])
  }

  /** A selector counts as dismissed when its lookup did not raise and every click succeeded. */
  predicate Dismissed(m: Matches)
  {
    m.Elements? && AllClick(m.clicks)
  }

  /** Clicks attempted for one selector: none when the lookup raised. */
  function Attempted(m: Matches): nat
  {
    match m
    case LookupError => 0
    case Elements(clicks) => ClicksTried(clicks)
  }

  /**
   * The inner `for element in elements: element.click()` of
   * `tryDismissAllMessages`, which the first failing click leaves.
   */
  method ClickAll(clicks: seq<bool>) returns (ok: bool, attempted: nat)
    ensures ok <==> AllClick(clicks)
    ensures attempted == ClicksTried(clicks)
  {
    attempted := 0;
    while attempted < |clicks|
      invariant attempted <= |clicks|
      invariant forall i :: 0 <= i < attempted ==> clicks[i]
    {
      attempted := attempted + 1;
      if !clicks[attempted - 1] {
        ok := false;
        return;
      }
    }
    ok := true;
  }

  /**
   * `tryDismissAllMessages`: look up every listed button once, in order, and
   * click everything found. The result is true when at least one lookup
   * succeeded and all of its clicks did (an empty match list included).
   * `visited` is the sequence of lookups made and `attempts[s]` the number of
   * clicks tried on what the `s`-th lookup found.
   */
  method TryDismissAllMessages(find: Locator -> Matches) returns (result: bool, visited: seq<Locator>, attempts: seq<nat>)
    ensures visited == Buttons
    ensures |attempts| == |Buttons|
    ensures forall s :: 0 <= s < |Buttons| ==> attempts[s] == Attempted(find(Buttons[s]))
    ensures result == AnyDismissed(find)
  {
    result := false;
    visited, attempts := [], [];
    for b := 0 to |Buttons|
      invariant visited == Buttons[..b] && |attempts| == b
      invariant forall s :: 0 <= s < b ==> attempts[s] == Attempted(find(Buttons[s]))
      invariant result <==> exists s :: 0 <= s < b && Dismissed(find(Buttons[s]))
    {
      var button := Buttons[b];
      visited := visited + [button];
      var elements := find(button);
      if elements.LookupError? {
        attempts := attempts + [0];
        continue;
      }
      var ok, tried := ClickAll(elements.clicks);
      attempts := attempts + [tried];
      if !ok {
        continue;
      }
      result := true;
    }
  }

  /** `reloadThreshold`: the loop ends right after this many refreshes. */
  const ReloadThreshold: nat := 5
  /** `reloadInterval`: failed iterations between two refreshes. */
  const ReloadInterval: nat := 10
  /** The most iterations `goHome` can run. */
  const MaxIterations: nat := ReloadThreshold * ReloadInterval

  /**
   * What the browser shows in one iteration of `goHome`: whether the
   * "more-activities" marker is found, the hostname of the current URL, and
   * how the dismiss buttons respond should `tryDismissAllMessages` be called.
   */
  datatype Observation = Observation(marker: bool, host: string, dialogs: Locator -> Matches)

  /**
   * What one iteration of `goHome` did: found the marker (and stopped), called
   * `tryDismissAllMessages`, navigated to BASE_URL again, refreshed.
   */
  datatype Step = Step(markerFound: bool, dismissCalled: bool, renavigated: bool, refreshed: bool)

  predicate MarkerSeen(o: Observation) { o.marker }

  /** Some dismiss button would be dismissed on this page. */
  predicate AnyDismissed(dialogs: Locator -> Matches)
  {
    exists s :: 0 <= s < |Buttons| && Dismissed(dialogs(Buttons[s]))
  }

  /**
   * The reference description of iteration `i` (from 0): stop on the marker;
   * otherwise try the dialogs only off the BASE_URL host, navigate back only if
   * that succeeded, and refresh at the end of every tenth failed iteration.
   */
  function StepAt(baseHost: string, o: Observation, i: nat): (s: Step)
    ensures s.markerFound == MarkerSeen(o)
    ensures s.markerFound ==> !s.dismissCalled && !s.renavigated && !s.refreshed
    ensures s.dismissCalled <==> !s.markerFound && o.host != baseHost
    ensures s.renavigated <==> s.dismissCalled && AnyDismissed(o.dialogs)
    ensures s.refreshed <==> !s.markerFound && (i + 1) % ReloadInterval == 0
  {
    if o.marker then Step(true, false, false, false)
    else
      var away := o.host != baseHost;
      Step(false, away, away && AnyDismissed(o.dialogs), (i + 1) % ReloadInterval == 0)
  }

  lemma RefreshDue(reloads: nat, intervalCount: nat)
    requires intervalCount < ReloadInterval
    ensures ((10 * reloads + intervalCount + 1) % ReloadInterval == 0) == (intervalCount + 1 == ReloadInterval)
  {
    var n := reloads * ReloadInterval + intervalCount + 1;
    if intervalCount + 1 == ReloadInterval {
      assert n == (reloads + 1) * ReloadInterval;
    } else {
      assert n == reloads * ReloadInterval + (intervalCount + 1);
    }
  }

  /**
   * `goHome` after its initial `get(BASE_URL)`: `steps` lists what every
   * iteration of the loop did. The loop stops at the first iteration that finds
   * the marker, or after the fifth refresh, whichever comes first.
   */
  method GoHome(baseHost: string, page: nat -> Observation) returns (steps: seq<Step>)
    ensures var k := FirstWhere(page, MarkerSeen, 0, MaxIterations);
            |steps| == if k < MaxIterations then k + 1 else MaxIterations
    ensures forall i :: 0 <= i < |steps| ==> steps[i] == StepAt(baseHost, page(i), i)
  {
    var reloads, intervalCount := 0, 0;
    steps := [];
    while true
      invariant intervalCount < ReloadInterval && reloads < ReloadThreshold
      // ReloadInterval written out, which keeps the arithmetic linear
      invariant |steps| == 10 * reloads + intervalCount
      invariant forall i :: 0 <= i < |steps| ==> !MarkerSeen(page(i))
      invariant forall i :: 0 <= i < |steps| ==> steps[i] == StepAt(baseHost, page(i), i)
      decreases MaxIterations - |steps|
    {
      var o := page(|steps|);
      if o.marker {
        FirstWhereUnique(page, MarkerSeen, MaxIterations, |steps|);
        steps := steps + [Step(true, false, false, false)];
        return;
      }
      var dismissCalled, renavigated := false, false;
      if o.host != baseHost {
        dismissCalled := true;
        var dismissed, _, _ := TryDismissAllMessages(o.dialogs);
        renavigated := dismissed;
      }
      RefreshDue(reloads, intervalCount);
      intervalCount := intervalCount + 1;
      var refreshed := false;
      if intervalCount >= ReloadInterval {
        intervalCount := 0;
        reloads := reloads + 1;
        refreshed := true;
      }
      steps := steps + [Step(false, dismissCalled, renavigated, refreshed)];
      if refreshed && reloads >= ReloadThreshold {
        FirstWhereUnique(page, MarkerSeen, MaxIterations, MaxIterations);
        return;
      }
    }
  }

  /** The number of iterations among `steps` that refreshed the page. */
  function Refreshes(steps: seq<Step>): nat
  {
    if steps == [] then 0
    else Refreshes(steps[..|steps| - 1]) + if steps[|steps| - 1].refreshed then 1 else 0
  }

  /**
   * Any prefix of a `goHome` run refreshes at most once per ten iterations,
   * so `reloads` never exceeds 5.
   */
  lemma {:induction false} RefreshesBounded(baseHost: string, page: nat -> Observation, steps: seq<Step>)
    requires |steps| <= MaxIterations
    requires forall i :: 0 <= i < |steps| ==> steps[i] == StepAt(baseHost, page(i), i)
    ensures Refreshes(steps) <= |steps| / ReloadInterval <= ReloadThreshold
  {
    if steps != [] {
      var n := |steps|;
      RefreshesBounded(baseHost, page, steps[..n - 1]);
      if steps[n - 1].refreshed {
        assert n % ReloadInterval == 0;
        assert n / ReloadInterval == (n - 1) / ReloadInterval + 1;
      }
    }
  }
}
