/**
 * The two bounded poll-then-refresh loops of `Utils`: `waitForMSRewardElement`
 * and `waitUntilJS`.
 *
 * The browser is an oracle: `find(i)` / `script(i)` is what the driver answers
 * to the i-th probe of the run (counting from 0, across refreshes). Sleeps and
 * refreshes are not performed; the run reports how many of each it issued.
 */
module Polling {

  /** `loadingTimeAllowed / checkingInterval` = 5 / 0.5 = 10.0 in the source. */
  const Checks: nat := 10
  /** `refreshsAllowed`. */
  const RefreshesAllowed: nat := 5
  /** The test is `tries < checks`, so a page load gets `Checks + 1` probes. */
  const ProbesPerLoad: nat := Checks + 1
  /** The initial load and every refresh each get `ProbesPerLoad` probes. */
  const MaxProbes: nat := ProbesPerLoad * (RefreshesAllowed + 1)

  /** What one `find_element` call did. */
  datatype Lookup = Found | NotFound | DriverError

  /** What one `execute_script` call did: return a value, or raise. */
  datatype Eval<T> = Value(value: T) | ScriptError

  /** How `waitUntilJS` ends: by returning a script value, or by letting a script error escape. */
  datatype ScriptRun<T> = Returned(value: T) | Raised

  /**
   * The driver traffic of one run: probes made, `checkingInterval` sleeps,
   * `refresh()` calls and the 5-second settle sleeps that follow them.
   */
  datatype Tally = Tally(probes: nat, intervalSleeps: nat, refreshes: nat, settleSleeps: nat)

  /**
   * The index of the first of `xs(from)`, ..., `xs(n - 1)` that satisfies
   * `stop`, or `n` when none does.
   */
  function FirstWhere<X>(xs: nat -> X, stop: X -> bool, from: nat, n: nat): (k: nat)
    requires from <= n
    ensures from <= k <= n
    ensures k < n ==> stop(xs(k))
    ensures forall j :: from <= j < k ==> !stop(xs(j))
    decreases n - from
  {
    if from == n then n
    else if stop(xs(from)) then from
    else FirstWhere(xs, stop, from + 1, n)
  }

  /** Any index that is preceded only by misses and is itself a hit (or is `n`) is the first hit. */
  lemma FirstWhereUnique<X>(xs: nat -> X, stop: X -> bool, n: nat, k: nat)
    requires k <= n
    requires forall j :: 0 <= j < k ==> !stop(xs(j))
    requires k < n ==> stop(xs(k))
    ensures FirstWhere(xs, stop, 0, n) == k
  {
  }

  /**
   * The closed form of what a run that made `n` probes has spent: every probe
   * but the last was followed either by an interval sleep or, after each
   * eleventh probe of a load, by a refresh and a settle sleep.
   */
  function Spent(n: nat): (t: Tally)
    requires 1 <= n <= MaxProbes
    ensures t.probes == n
    ensures t.refreshes <= RefreshesAllowed && t.intervalSleeps <= RefreshesAllowed * Checks + Checks
    ensures t.probes == 1 + t.intervalSleeps + t.refreshes && t.settleSleeps == t.refreshes
  {
    var loads := (n - 1) / ProbesPerLoad;
    Tally(n, n - 1 - loads, loads, loads)
  }

  /**
   * After `refreshCount` refreshes and `tries` misses on the current load, the
   * next probe brings the tally to its closed form.
   */
  lemma SpentAt(refreshCount: nat, tries: nat, t: Tally)
    requires refreshCount <= RefreshesAllowed && tries <= Checks
    requires t == Tally(11 * refreshCount + tries, 10 * refreshCount + tries, refreshCount, refreshCount)
    ensures t.probes < MaxProbes
    ensures Spent(t.probes + 1) == t.(probes := t.probes + 1)
  {
    assert t.probes / ProbesPerLoad == refreshCount;
  }

  /** A run that exhausts every probe refreshed 5 times and slept 60 intervals. */
  lemma SpentAll()
    ensures Spent(MaxProbes) == Tally(66, 60, 5, 5)
  {
  }

  predicate IsFound(l: Lookup) { l == Found }

  /**
   * `waitForMSRewardElement`: probe for the element, sleeping between probes,
   * refreshing after each 11 misses on a load, and giving up after the 66th
   * miss. A driver error counts as a miss.
   */
  method WaitForMSRewardElement(find: nat -> Lookup) returns (found: bool, t: Tally)
    ensures found <==> exists j :: 0 <= j < MaxProbes && find(j) == Found
    ensures var k := FirstWhere(find, IsFound, 0, MaxProbes);
            found == (k < MaxProbes) && t == Spent(if found then k + 1 else MaxProbes)
  {
    var tries, refreshCount := 0, 0;
    t := Tally(0, 0, 0, 0);
    while true
      invariant tries <= Checks && refreshCount <= RefreshesAllowed
      // ProbesPerLoad and Checks written out, which keeps the arithmetic linear
      invariant t == Tally(11 * refreshCount + tries, 10 * refreshCount + tries, refreshCount, refreshCount)
      invariant forall j :: 0 <= j < t.probes ==> !IsFound(find(j))
      decreases MaxProbes - t.probes
    {
      var outcome := find(t.probes);
      SpentAt(refreshCount, tries, t);
      t := t.(probes := t.probes + 1);
      assert t == Spent(t.probes);
      if outcome == Found {
        FirstWhereUnique(find, IsFound, MaxProbes, t.probes - 1);
        assert find(t.probes - 1) == Found;
        found := true;
        return;
      }
      if tries < Checks {
        tries := tries + 1;
        t := t.(intervalSleeps := t.intervalSleeps + 1);
      } else if refreshCount < RefreshesAllowed {
        refreshCount := refreshCount + 1;
        tries := 0;
        t := t.(refreshes := t.refreshes + 1, settleSleeps := t.settleSleeps + 1);
      } else {
        FirstWhereUnique(find, IsFound, MaxProbes, MaxProbes);
        assert forall j :: 0 <= j < MaxProbes ==> find(j) != Found;
        found := false;
        return;
      }
    }
  }

  /** A script value ends the polling when it is truthy; a script error ends it by escaping. */
  function Settles<T>(truthy: T -> bool): Eval<T> -> bool
  {
    (e: Eval<T>) => e.ScriptError? || truthy(e.value)
  }

  /** What `waitUntilJS` makes of its last `execute_script` call. */
  function Outcome<T>(e: Eval<T>): (r: ScriptRun<T>)
    ensures r.Raised? <==> e.ScriptError?
    ensures r.Returned? ==> r.value == e.value
  {
    match e
    case Value(v) => Returned(v)
    case ScriptError => Raised
  }

  /**
   * An evaluation ends the polling exactly when, taken as the last one, it
   * would make `waitUntilJS` raise or return a truthy value.
   */
  lemma SettlesIffEnds<T>(truthy: T -> bool, e: Eval<T>)
    ensures Settles(truthy)(e) <==> Outcome(e).Raised? || truthy(Outcome(e).value)
  {
  }

  /**
   * Reading the ending of `WaitUntilJS` back: the run returns a truthy value
   * exactly when some value among the first 66 is truthy and every earlier one
   * is a falsy value; it raises exactly when a script error comes first.
   */
  lemma {:induction false} ScriptEnding<T>(script: nat -> Eval<T>, truthy: T -> bool)
    ensures var k := FirstWhere(script, Settles(truthy), 0, MaxProbes);
            var out := Outcome(script(if k < MaxProbes then k else MaxProbes - 1));
            && (out.Returned? && truthy(out.value) <==>
                exists j :: 0 <= j < MaxProbes && script(j).Value? && truthy(script(j).value) && FalsyBefore(script, truthy, j))
            && (out.Raised? <==>
                exists j :: 0 <= j < MaxProbes && script(j).ScriptError? && FalsyBefore(script, truthy, j))
  {
    var k := FirstWhere(script, Settles(truthy), 0, MaxProbes);
    forall j | 0 <= j < MaxProbes && FalsyBefore(script, truthy, j) && Settles(truthy)(script(j))
      ensures j == k
    {
      FirstWhereUnique(script, Settles(truthy), MaxProbes, j);
    }
    if k < MaxProbes {
      assert FalsyBefore(script, truthy, k);
    }
  }

  /** Every script value before the `j`-th one is a falsy value. */
  ghost predicate FalsyBefore<T>(script: nat -> Eval<T>, truthy: T -> bool, j: nat)
  {
    forall i :: 0 <= i < j ==> script(i).Value? && !truthy(script(i).value)
  }

  /**
   * `waitUntilJS`: evaluate the script until it yields a truthy value, with the
   * same sleep/refresh schedule as `WaitForMSRewardElement`. Script errors are
   * not caught. After 66 falsy values the last one is returned.
   */
  method WaitUntilJS<T>(script: nat -> Eval<T>, truthy: T -> bool) returns (out: ScriptRun<T>, t: Tally)
    ensures var k := FirstWhere(script, Settles(truthy), 0, MaxProbes);
            var last := if k < MaxProbes then k else MaxProbes - 1;
            t == Spent(last + 1) && out == Outcome(script(last))
  {
    var tries, refreshCount := 0, 0;
    t := Tally(0, 0, 0, 0);
    while true
      invariant tries <= Checks && refreshCount <= RefreshesAllowed
      // ProbesPerLoad and Checks written out, which keeps the arithmetic linear
      invariant t == Tally(11 * refreshCount + tries, 10 * refreshCount + tries, refreshCount, refreshCount)
      invariant forall j :: 0 <= j < t.probes ==> !Settles(truthy)(script(j))
      decreases MaxProbes - t.probes
    {
      var elem := script(t.probes);
      SpentAt(refreshCount, tries, t);
      t := t.(probes := t.probes + 1);
      assert t == Spent(t.probes);
      if elem.ScriptError? {
        FirstWhereUnique(script, Settles(truthy), MaxProbes, t.probes - 1);
        out := Raised;
        return;
      }
      if truthy(elem.value) {
        FirstWhereUnique(script, Settles(truthy), MaxProbes, t.probes - 1);
        out := Returned(elem.value);
        return;
      }
      if tries < Checks {
        tries := tries + 1;
        t := t.(intervalSleeps := t.intervalSleeps + 1);
      } else if refreshCount < RefreshesAllowed {
        refreshCount := refreshCount + 1;
        tries := 0;
        t := t.(refreshes := t.refreshes + 1, settleSleeps := t.settleSleeps + 1);
      } else {
        FirstWhereUnique(script, Settles(truthy), MaxProbes, MaxProbes);
        out := Returned(elem.value);
        return;
      }
    }
  }
}
