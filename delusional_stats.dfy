/** The delusional-stats route: the current share of flagged comments from
    the latest analysis, a level for it, and its trend against the average of
    the last six recorded percentages.

    Percentages are real numbers here. Each file is given as what checking,
    reading and parsing it produced. `Corrupt` also stands for a file that
    parses but makes the route throw before it answers, which the route
    reports like an unreadable file: a latest analysis that is `null`, whose
    `statistics` cannot be read, and a trend file that is not an array, on
    which `slice(-6).map(...)` fails. */
module DelusionalStats {
  import opened Common

  const NoAnalysis := "No analysis data available"
  const FetchFailed := "Failed to fetch delusional statistics"
  const HistoryLength: nat := 6

  datatype Level = Low | Medium | High | Extreme

  datatype Direction = Up | Down | Stable

  datatype Trend = Trend(direction: Direction, amount: real)

  datatype Stats = Stats(level: Level, percentage: real, trend: Trend)

  /** The `statistics` object of the latest analysis; a field that is absent
      takes the destructuring default 0. */
  datatype Statistics = Statistics(analyzedComments: Option<real>, delusionalComments: Option<real>)

  /** The latest analysis file; `statistics` may be absent or falsy. */
  datatype LatestAnalysis = LatestAnalysis(statistics: Option<Statistics>)

  /** A trend entry; only its percentage is read. */
  datatype TrendEntry = TrendEntry(percentage: real)

  // ================================================================ level

  function Rank(l: Level): nat {
    match l
    case Low => 0
    case Medium => 1
    case High => 2
    case Extreme => 3
  }

  /** `determineLevel`: thresholds at 30, 20 and 10 percent. */
  function DetermineLevel(percentage: real): (l: Level)
    ensures l == Extreme <==> percentage >= 30.0
    ensures l == High <==> 20.0 <= percentage < 30.0
    ensures l == Medium <==> 10.0 <= percentage < 20.0
    ensures l == Low <==> percentage < 10.0
  {
    if percentage >= 30.0 then Extreme
    else if percentage >= 20.0 then High
    else if percentage >= 10.0 then Medium
    else Low
  }

  /** A higher percentage never gives a lower level. */
  lemma LevelMonotone(p: real, q: real)
    requires p <= q
    ensures Rank(DetermineLevel(p)) <= Rank(DetermineLevel(q))
  {
  }

  // ================================================================ trend

  /** `reduce((a, b) => a + b, 0)` */
  function Sum(s: seq<real>): real {
    if s == [] then 0.0 else Sum(s[..|s| - 1]) + s[|s| - 1]
  }

  function Mean(s: seq<real>): real
    requires |s| > 0
  {
    Sum(s) / (|s| as real)
  }

  function Abs(x: real): (r: real)
    ensures r >= 0.0 && (r == x || r == -x)
  {
    if x < 0.0 then -x else x
  }

  /** `calculateTrend`: stable with amount 0 without history; otherwise the
      direction of the difference from the mean, ignoring one point either
      way, and its size. */
  function CalculateTrend(current: real, previous: seq<real>): (t: Trend)
    ensures previous == [] ==> t == Trend(Stable, 0.0)
    ensures previous != [] ==>
      var diff := current - Mean(previous);
      && (t.direction == Up <==> diff > 1.0)
      && (t.direction == Down <==> diff < -1.0)
      && t.amount == Abs(diff)
    ensures t.amount >= 0.0
  {
    if previous == [] then Trend(Stable, 0.0)
    else
      var diff := current - Mean(previous);
      Trend(if diff > 1.0 then Up else if diff < -1.0 then Down else Stable, Abs(diff))
  }

  lemma {:induction false} SumBounds(s: seq<real>, lo: real, hi: real)
    requires forall k :: 0 <= k < |s| ==> lo <= s[k] <= hi
    ensures lo * (|s| as real) <= Sum(s) <= hi * (|s| as real)
  {
    if s != [] {
      SumBounds(s[..|s| - 1], lo, hi);
    }
  }

  /** The mean lies between the least and the greatest entry. */
  lemma MeanBounds(s: seq<real>, lo: real, hi: real)
    requires |s| > 0
    requires forall k :: 0 <= k < |s| ==> lo <= s[k] <= hi
    ensures lo <= Mean(s) <= hi
  {
    SumBounds(s, lo, hi);
    var n := |s| as real;
    assert Sum(s) / n * n == Sum(s);
  }

  /** A current value within one point of every earlier one is stable. */
  lemma StableWhenClose(current: real, previous: seq<real>)
    requires forall k :: 0 <= k < |previous| ==> current - 1.0 <= previous[k] <= current + 1.0
    ensures CalculateTrend(current, previous).direction == Stable
  {
    if previous != [] {
      MeanBounds(previous, current - 1.0, current + 1.0);
    }
  }

  /** A current value more than one point (by `margin`) above every earlier
      one is a rise. */
  lemma UpWhenAboveAll(current: real, previous: seq<real>, margin: real)
    requires |previous| > 0 && margin > 1.0
    requires forall k :: 0 <= k < |previous| ==> previous[k] <= current - margin
    ensures CalculateTrend(current, previous).direction == Up
  {
    MeanUpper(previous, current - margin);
  }

  lemma MeanUpper(s: seq<real>, hi: real)
    requires |s| > 0
    requires forall k :: 0 <= k < |s| ==> s[k] <= hi
    ensures Mean(s) <= hi
  {
    var lo := Least(s);
    MeanBounds(s, lo, hi);
  }

  function Least(s: seq<real>): (m: real)
    requires |s| > 0
    ensures forall k :: 0 <= k < |s| ==> m <= s[k]
  {
    if |s| == 1 then s[0]
    else
      var m := Least(s[1..]);
      assert forall k :: 1 <= k < |s| ==> s[k] == s[1..][k - 1];
      if s[0] <= m then s[0] else m
  }

  // ================================================================ the route

  /** `slice(-6)`: the last six entries, or all of them when there are fewer. */
  function LastEntries(s: seq<TrendEntry>): (r: seq<real>)
    ensures |r| == Min(HistoryLength, |s|)
    ensures forall k :: 0 <= k < |r| ==> r[k] == s[|s| - |r| + k].percentage
  {
    var start := if |s| > HistoryLength then |s| - HistoryLength else 0;
    seq(|s| - start, k requires 0 <= k < |s| - start => s[start + k].percentage)
  }

  /** The current percentage, 0 when no comment was analyzed. */
  function CurrentPercentage(latest: LatestAnalysis): (p: real)
    ensures var st := latest.statistics.GetOr(Statistics(None, None));
      var analyzed := st.analyzedComments.GetOr(0.0);
      var flagged := st.delusionalComments.GetOr(0.0);
      && (analyzed > 0.0 ==> p * analyzed == flagged * 100.0)
      && (analyzed <= 0.0 ==> p == 0.0)
  {
    var st := latest.statistics.GetOr(Statistics(None, None));
    var analyzed := st.analyzedComments.GetOr(0.0);
    var flagged := st.delusionalComments.GetOr(0.0);
    if analyzed > 0.0 then flagged / analyzed * 100.0 else 0.0
  }

  /** `GET /api/delusional-stats`. A missing latest analysis is a 404 whatever
      the trend file holds; an unreadable trend or analysis file is a 500; a
      missing trend file is an empty history. */
  function DelusionalStatsRoute(latest: FileRead<LatestAnalysis>, trends: FileRead<seq<TrendEntry>>): (resp: Response<Stats>)
    ensures latest.NotFound? <==> resp == Failed(404, NoAnalysis)
    ensures !latest.NotFound? && (trends.Corrupt? || latest.Corrupt?) <==> resp == Failed(500, FetchFailed)
    ensures resp.Ok? <==> latest.Loaded? && !trends.Corrupt?
    ensures resp.Ok? ==>
      var history := if trends.Loaded? then LastEntries(trends.value) else [];
      var current := CurrentPercentage(latest.value);
      && resp.body.percentage == current
      && resp.body.level == DetermineLevel(current)
      && resp.body.trend == CalculateTrend(current, history)
  {
    match latest
    case NotFound => Failed(404, NoAnalysis)
    case _ =>
      match trends
      case Corrupt => Failed(500, FetchFailed)
      case NotFound => StatsFrom(latest, [])
      case Loaded(entries) => StatsFrom(latest, LastEntries(entries))
  }

  /** Reading the latest analysis once the history is known. */
  function StatsFrom(latest: FileRead<LatestAnalysis>, history: seq<real>): Response<Stats> {
    match latest
    case Loaded(analysis) =>
      var current := CurrentPercentage(analysis);
      Ok(Stats(DetermineLevel(current), current, CalculateTrend(current, history)))
    case _ => Failed(500, FetchFailed)
  }

  /** With no trend file the trend is stable with amount 0. */
  lemma NoHistoryIsStable(latest: LatestAnalysis)
    ensures DelusionalStatsRoute(Loaded(latest), NotFound).body.trend == Trend(Stable, 0.0)
  {
  }

  /** A share of flagged comments between 0 and the number analyzed is a
      percentage between 0 and 100. */
  lemma CurrentPercentageInRange(analyzed: real, flagged: real)
    requires 0.0 <= flagged <= analyzed
    ensures 0.0 <= CurrentPercentage(LatestAnalysis(Some(Statistics(Some(analyzed), Some(flagged))))) <= 100.0
  {
    if analyzed > 0.0 {
      var p := CurrentPercentage(LatestAnalysis(Some(Statistics(Some(analyzed), Some(flagged)))));
      assert p * analyzed == flagged * 100.0;
      assert flagged * 100.0 <= analyzed * 100.0;
    }
  }
}
