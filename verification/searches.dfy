/**
 * `getRemainingSearches` of `Utils`: how many desktop and mobile searches are
 * still worth points, read from the dashboard object the rewards page exposes.
 * The dashboard is a parameter here (see `getDashboardData`).
 */
module Searches {
  import opened Wrappers

  /** One entry of a counter list: points earned so far and points available. */
  datatype Counter = Counter(pointProgress: int, pointProgressMax: int)

  datatype LevelInfo = LevelInfo(activeLevel: string)

  datatype UserStatus = UserStatus(counters: map<string, seq<Counter>>, levelInfo: LevelInfo)

  datatype Dashboard = Dashboard(userStatus: UserStatus)

  /** The exceptions the Python code can raise while reading the dashboard. */
  datatype Failure = KeyError(key: string) | IndexError(key: string, index: nat)

  /**
   * Points per search, from the desktop target total: 3 for the EU tiers
   * (33 and 102), 5 for the US tiers (55, and 170 or more), 1 otherwise.
   */
  function PointsPerSearch(targetDesktop: int): (p: int)
    ensures p == 3 <==> targetDesktop == 33 || targetDesktop == 102
    ensures p == 5 <==> targetDesktop == 55 || targetDesktop >= 170
    ensures p == 1 <==> targetDesktop !in {33, 55, 102} && targetDesktop < 170
  {
    if targetDesktop in [33, 102] then 3
    else if targetDesktop == 55 || targetDesktop >= 170 then 5
    else 1
  }

  /**
   * Python's `int(a / b)` for a positive divisor: true division, then
   * truncation toward zero (not Dafny's `/`, which rounds down).
   */
  function TruncDiv(a: int, b: int): (q: int)
    requires b > 0
    ensures 0 <= a ==> 0 <= q && q * b <= a < q * b + b
    ensures a < 0 ==> q <= 0 && q * b - b < a <= q * b
  {
    if a >= 0 then
      DivBounds(a, b);
      a / b
    else
      DivBounds(-a, b);
      NegateProduct((-a) / b, b);
      -((-a) / b)
  }

  /** Dafny's `/` on a natural numerator leaves a remainder below the divisor. */
  lemma DivBounds(a: nat, b: int)
    requires b > 0
    ensures 0 <= a / b && (a / b) * b <= a < (a / b) * b + b
  {
    assert a == (a / b) * b + a % b;
  }

  lemma NegateProduct(x: int, b: int)
    ensures (-x) * b == -(x * b)
  {
  }

  /** The quotient is determined by the remainder lying strictly within one divisor of zero, on the side of `a`. */
  lemma TruncDivUnique(a: int, b: int, q: int)
    requires b > 0
    requires 0 <= a ==> q * b <= a < q * b + b
    requires a < 0 ==> q * b - b < a <= q * b
    ensures TruncDiv(a, b) == q
  {
    var r := TruncDiv(a, b);
    if q < r {
      MulStep(q, r, b);
    } else if r < q {
      MulStep(r, q, b);
    }
  }

  /** Quotients that differ are at least a whole divisor apart once multiplied back. */
  lemma MulStep(x: int, y: int, b: int)
    requires x < y && b > 0
    ensures x * b + b <= y * b
    decreases y - x
  {
    assert y * b == (y - 1) * b + b;
    if x < y - 1 {
      MulStep(x, y - 1, b);
    }
  }

  /** Truncation and Dafny's floor division disagree on negative numerators. */
  lemma TruncDivIsNotFloor()
    ensures TruncDiv(-1, 3) == 0 && -1 / 3 == -1
  {
  }

  /** `getRemainingSearches`, on the dashboard `getDashboardData` returned. */
  function GetRemainingSearches(d: Dashboard): (r: Result<(int, int), Failure>)
    ensures "pcSearch" !in d.userStatus.counters ==> r == Ok((0, 0))
    ensures "pcSearch" in d.userStatus.counters && |d.userStatus.counters["pcSearch"]| < 2 ==>
              r == Err(IndexError("pcSearch", |d.userStatus.counters["pcSearch"]|))
    ensures r.Ok? && d.userStatus.levelInfo.activeLevel == "Level1" ==> r.value.1 == 0
    ensures r.Err? <==>
              "pcSearch" in d.userStatus.counters &&
              (|d.userStatus.counters["pcSearch"]| < 2 ||
               (d.userStatus.levelInfo.activeLevel != "Level1" &&
                ("mobileSearch" !in d.userStatus.counters || d.userStatus.counters["mobileSearch"] == [])))
  {
    var counters := d.userStatus.counters;
    if "pcSearch" !in counters then Ok((0, 0))
    else
      var pc := counters["pcSearch"];
      if |pc| < 2 then Err(IndexError("pcSearch", |pc|))
      else
        var progressDesktop := pc[0].pointProgress + pc[1].pointProgress;
        var targetDesktop := pc[0].pointProgressMax + pc[1].pointProgressMax;
        var searchPoints := PointsPerSearch(targetDesktop);
        var remainingDesktop := TruncDiv(targetDesktop - progressDesktop, searchPoints);
        if d.userStatus.levelInfo.activeLevel == "Level1" then Ok((remainingDesktop, 0))
        else if "mobileSearch" !in counters then Err(KeyError("mobileSearch"))
        else
          var mobile := counters["mobileSearch"];
          if |mobile| == 0 then Err(IndexError("mobileSearch", 0))
          else
            var remainingMobile := TruncDiv(mobile[0].pointProgressMax - mobile[0].pointProgress, searchPoints);
            Ok((remainingDesktop, remainingMobile))
  }

  /**
   * What the two counts mean: with `p` the points per search of the desktop
   * target, each count `n` is the number of whole `p`-point searches in the
   * missing points `m` (`n * p <= m < n * p + p`, mirrored when more than the
   * target was earned), and the same `p` serves desktop and mobile.
   */
  lemma RemainingSearchesMeaning(d: Dashboard)
    requires GetRemainingSearches(d).Ok? && "pcSearch" in d.userStatus.counters
    ensures var pc := d.userStatus.counters["pcSearch"];
            var p := PointsPerSearch(pc[0].pointProgressMax + pc[1].pointProgressMax);
            var missing := (pc[0].pointProgressMax + pc[1].pointProgressMax) - (pc[0].pointProgress + pc[1].pointProgress);
            var n := GetRemainingSearches(d).value.0;
            && p in {1, 3, 5}
            && (0 <= missing ==> 0 <= n && n * p <= missing < n * p + p)
            && (missing < 0 ==> n <= 0 && n * p - p < missing <= n * p)
            && (d.userStatus.levelInfo.activeLevel != "Level1" ==>
                  var m := d.userStatus.counters["mobileSearch"][0];
                  var missingMobile := m.pointProgressMax - m.pointProgress;
                  var nm := GetRemainingSearches(d).value.1;
                  && (0 <= missingMobile ==> 0 <= nm && nm * p <= missingMobile < nm * p + p)
                  && (missingMobile < 0 ==> nm <= 0 && nm * p - p < missingMobile <= nm * p))
  {
  }
}
