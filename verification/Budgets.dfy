/** Budget thresholds (src/lib/billing.ts, `checkBudgets`). */
module Budgets {
  import opened Sequences

  datatype Action = Alert | Pause

  datatype Budget = Budget(provider: string, period: string, limitAmount: real, thresholds: seq<int>, action: Action)

  type MarkKey = (string, string)  // provider, period

  function Pct(spend: real, limitAmount: real): real {
    if limitAmount > 0.0 then spend / limitAmount * 100.0 else 0.0
  }

  predicate Ascending(ts: seq<int>) {
    forall i, j | 0 <= i < j < |ts| :: ts[i] < ts[j]
  }

  predicate Thresholds(ts: seq<int>) {
    Ascending(ts) && forall i | 0 <= i < |ts| :: ts[i] > 0
  }

  /** The last of the first `n` thresholds that the percentage reaches, 0 if it reaches none. */
  function Highest(ts: seq<int>, pct: real, n: nat): int
    requires n <= |ts|
  {
    if n == 0 then 0 else if pct >= ts[n - 1] as real then ts[n - 1] else Highest(ts, pct, n - 1)
  }

  /** The thresholds among the first `n` that lie above `low` and not above `high`, in order. */
  function Between(ts: seq<int>, low: int, high: int, n: nat): seq<int>
    requires n <= |ts|
  {
    if n == 0 then []
    else Between(ts, low, high, n - 1) + if low < ts[n - 1] <= high then [ts[n - 1]] else []
  }

  function Lowest(ts: seq<int>): int {
    if ts == [] then 50 else ts[0]
  }

  predicate Crosses(ts: seq<int>, mark: int, pct: real) {
    Highest(ts, pct, |ts|) > mark
  }

  predicate Resets(ts: seq<int>, mark: int, pct: real) {
    Highest(ts, pct, |ts|) < mark && pct < Lowest(ts) as real
  }

  /** One check against the stored mark: the new mark and the thresholds that raise an alert. */
  function Check(ts: seq<int>, mark: int, pct: real): (int, seq<int>) {
    var highestNow := Highest(ts, pct, |ts|);
    if Crosses(ts, mark, pct) then (highestNow, Between(ts, mark, highestNow, |ts|))
    else if Resets(ts, mark, pct) then (0, [])
    else (mark, [])
  }

  function MarkOf(crossed: map<MarkKey, int>, key: MarkKey): int {
    if key in crossed then crossed[key] else 0
  }

  /** An alert: which budget and which threshold. */
  type Fired = seq<(MarkKey, int)>

  /** One turn of the loop over the budgets: the marks after it and the alerts it fires. */
  function Turn(crossed: map<MarkKey, int>, b: Budget, spend: real): (map<MarkKey, int>, Fired) {
    var (key, mark, pct) := (KeyOf(b), MarkOf(crossed, KeyOf(b)), Pct(spend, b.limitAmount));
    var (next, alerts) := Check(b.thresholds, mark, pct);
    var writes := Crosses(b.thresholds, mark, pct) || Resets(b.thresholds, mark, pct);
    (if writes then crossed[key := next] else crossed, Tagged(key, alerts))
  }

  function Marks(crossed: map<MarkKey, int>, budgets: seq<Budget>, spends: seq<real>, n: nat): map<MarkKey, int>
    requires n <= |budgets| == |spends|
  {
    if n == 0 then crossed else Turn(Marks(crossed, budgets, spends, n - 1), budgets[n - 1], spends[n - 1]).0
  }

  function Alerts(crossed: map<MarkKey, int>, budgets: seq<Budget>, spends: seq<real>, n: nat): Fired
    requires n <= |budgets| == |spends|
  {
    if n == 0 then []
    else
      Alerts(crossed, budgets, spends, n - 1)
      + Turn(Marks(crossed, budgets, spends, n - 1), budgets[n - 1], spends[n - 1]).1
  }

  predicate Paused(budgets: seq<Budget>, spends: seq<real>, n: nat)
    requires n <= |budgets| == |spends|
  {
    n > 0 && (Paused(budgets, spends, n - 1) || Pauses(budgets[n - 1], spends[n - 1]))
  }

  lemma NothingChecked(crossed: map<MarkKey, int>, budgets: seq<Budget>, spends: seq<real>)
    requires |budgets| == |spends|
    ensures Marks(crossed, budgets, spends, 0) == crossed && Alerts(crossed, budgets, spends, 0) == []
    ensures !Paused(budgets, spends, 0)
  {
  }

  lemma OneMoreChecked(crossed: map<MarkKey, int>, budgets: seq<Budget>, spends: seq<real>, n: nat)
    requires n < |budgets| == |spends|
    ensures var turn := Turn(Marks(crossed, budgets, spends, n), budgets[n], spends[n]);
            && Marks(crossed, budgets, spends, n + 1) == turn.0
            && Alerts(crossed, budgets, spends, n + 1) == Alerts(crossed, budgets, spends, n) + turn.1
    ensures Paused(budgets, spends, n + 1) <==> Paused(budgets, spends, n) || Pauses(budgets[n], spends[n])
  {
  }

  /** A threshold is reached when the spend is that many percent of the limit; without a limit none is. */
  lemma PctReaches(spend: real, limitAmount: real, threshold: int)
    requires threshold > 0
    ensures Pct(spend, limitAmount) >= threshold as real
            <==> limitAmount > 0.0 && spend * 100.0 >= threshold as real * limitAmount
  {
    if limitAmount > 0.0 {
      var q := spend / limitAmount;
      assert q * limitAmount == spend;
      assert q * 100.0 >= threshold as real <==> q * 100.0 * limitAmount >= threshold as real * limitAmount;
    }
  }

  /** A provider is paused exactly when one of its budgets that asks for it is spent. */
  lemma {:induction false} PausedIff(budgets: seq<Budget>, spends: seq<real>, n: nat)
    requires n <= |budgets| == |spends|
    ensures Paused(budgets, spends, n)
            <==> exists i | 0 <= i < n ::
                   budgets[i].action == Pause && budgets[i].limitAmount > 0.0 && spends[i] >= budgets[i].limitAmount
  {
    if n > 0 {
      PausedIff(budgets, spends, n - 1);
      PctReaches(spends[n - 1], budgets[n - 1].limitAmount, 100);
    }
  }

  /** Without thresholds a mark that is left over is cleared below 50 percent and stays from there on. */
  lemma NoThresholds(mark: int, pct: real)
    requires mark > 0
    ensures Check([], mark, pct) == if pct < 50.0 then (0, []) else (mark, [])
  {
  }

  /** The stored billing settings, and the alerts raised so far; one that cannot be raised is not tried again. */
  class BillingConfig {
    var budgetCrossed: map<MarkKey, int>
    var paused: set<string>
    var alerts: Fired

    constructor ()
      ensures budgetCrossed == map[] && paused == {} && alerts == []
    {
      budgetCrossed, paused, alerts := map[], {}, [];
    }

    /** `spends` holds the real spend of each budget; thresholds arrive sorted. */
    method CheckBudgets(provider: string, budgets: seq<Budget>, spends: seq<real>)
      requires |spends| == |budgets| && forall i | 0 <= i < |budgets| :: budgets[i].provider == provider
      modifies this
      ensures budgetCrossed == Marks(old(budgetCrossed), budgets, spends, |budgets|)
      ensures alerts == old(alerts) + Alerts(old(budgetCrossed), budgets, spends, |budgets|)
      ensures paused == old(paused) + if Paused(budgets, spends, |budgets|) then {provider} else {}
    {
      hide Marks;
      hide Alerts;
      hide Paused;
      NothingChecked(budgetCrossed, budgets, spends);
      var crossed, nowPaused, dirty := budgetCrossed, paused, false;
      for n := 0 to |budgets|
        invariant budgetCrossed == old(budgetCrossed) && paused == old(paused)
        invariant crossed == Marks(old(budgetCrossed), budgets, spends, n)
        invariant alerts == old(alerts) + Alerts(old(budgetCrossed), budgets, spends, n)
        invariant nowPaused == old(paused) + if Paused(budgets, spends, n) then {provider} else {}
        invariant !dirty ==> crossed == budgetCrossed && nowPaused == paused
      {
        OneMoreChecked(old(budgetCrossed), budgets, spends, n);
        TaggedNothing((provider, budgets[n].period));
        var b := budgets[n];
        var pct := Pct(spends[n], b.limitAmount);
        var key := (provider, b.period);
        var mark := MarkOf(crossed, key);
        var highestNow := Highest(b.thresholds, pct, |b.thresholds|);
        if highestNow > mark {
          FireNewlyCrossed(key, b.thresholds, mark, highestNow);
          crossed := crossed[key := highestNow];
          dirty := true;
        } else if highestNow < mark && pct < Lowest(b.thresholds) as real {
          crossed := crossed[key := 0];
          dirty := true;
        }
        if pct >= 100.0 && b.action == Pause && provider !in nowPaused {
          nowPaused := nowPaused + {provider};
          dirty := true;
        }
      }
      if dirty { budgetCrossed, paused := crossed, nowPaused; }
    }

    /** One alert per threshold above the mark and not above the highest one reached. */
    method FireNewlyCrossed(key: MarkKey, ts: seq<int>, mark: int, highestNow: int)
      modifies this`alerts
      ensures alerts == old(alerts) + Tagged(key, Between(ts, mark, highestNow, |ts|))
    {
      for k := 0 to |ts|
        invariant alerts == old(alerts) + Tagged(key, Between(ts, mark, highestNow, k))
      {
        var th := ts[k];
        TaggedSnoc(key, Between(ts, mark, highestNow, k), th);
        if th > mark && th <= highestNow { alerts := alerts + [(key, th)]; }
      }
    }
  }

  predicate Pauses(b: Budget, spend: real) {
    Pct(spend, b.limitAmount) >= 100.0 && b.action == Pause
  }

  function Tagged(key: MarkKey, ts: seq<int>): Fired {
    seq(|ts|, i requires 0 <= i < |ts| => (key, ts[i]))
  }

  lemma TaggedSnoc(key: MarkKey, ts: seq<int>, th: int)
    ensures Tagged(key, ts + [th]) == Tagged(key, ts) + [(key, th)] && Tagged(key, ts + []) == Tagged(key, ts)
  {
    assert ts + [] == ts;
  }

  lemma TaggedNothing(key: MarkKey)
    ensures Tagged(key, []) == []
  {
  }

  function KeyOf(b: Budget): MarkKey {
    (b.provider, b.period)
  }

  predicate DistinctKeys(budgets: seq<Budget>) {
    forall i, j | 0 <= i < j < |budgets| :: KeyOf(budgets[i]) != KeyOf(budgets[j])
  }

  /** The thresholds of the alerts that carry the key, in order. */
  function OfKey(fired: Fired, key: MarkKey): seq<int> {
    if fired == [] then []
    else OfKey(fired[..|fired| - 1], key) + if fired[|fired| - 1].0 == key then [fired[|fired| - 1].1] else []
  }

  lemma {:induction false} OfKeyAppend(a: Fired, b: Fired, key: MarkKey)
    ensures OfKey(a + b, key) == OfKey(a, key) + OfKey(b, key)
    decreases |b|
  {
    if b == [] {
      assert a + b == a;
    } else {
      var init := b[..|b| - 1];
      assert (a + b)[..|a + b| - 1] == a + init;
      OfKeyAppend(a, init, key);
    }
  }

  lemma {:induction false} OfKeyTagged(own: MarkKey, ts: seq<int>, key: MarkKey)
    ensures OfKey(Tagged(own, ts), key) == if own == key then ts else []
    decreases |ts|
  {
    if ts != [] {
      var init := ts[..|ts| - 1];
      OfKeyTagged(own, init, key);
      assert Tagged(own, ts)[..|ts| - 1] == Tagged(own, init);
      assert ts == init + [ts[|ts| - 1]];
    }
  }

  /** Where the budget of the key stands among the first `n`; `n` if it is not among them. */
  function IndexOf(budgets: seq<Budget>, n: nat, key: MarkKey): (i: nat)
    requires n <= |budgets|
    ensures i <= n && (i < n ==> KeyOf(budgets[i]) == key) && forall j | 0 <= j < i :: KeyOf(budgets[j]) != key
  {
    if n == 0 then 0
    else
      var i := IndexOf(budgets, n - 1, key);
      if i < n - 1 then i else if KeyOf(budgets[n - 1]) == key then n - 1 else n
  }

  lemma NoAlerts(key: MarkKey)
    ensures OfKey([], key) == []
  {
  }

  /**
   * With one budget per period, each budget makes exactly one `Check` step of its own: its mark moves by that step, the
   * alerts that carry its key are those of that step, and nothing happens to a key without a budget.
   */
  lemma {:induction false} EachBudgetChecksAlone(crossed: map<MarkKey, int>, budgets: seq<Budget>, spends: seq<real>,
                                                 n: nat, key: MarkKey)
    requires n <= |budgets| == |spends| && DistinctKeys(budgets)
    ensures var (i, mark) := (IndexOf(budgets, n, key), MarkOf(crossed, key));
            (MarkOf(Marks(crossed, budgets, spends, n), key), OfKey(Alerts(crossed, budgets, spends, n), key))
            == if i < n then Check(budgets[i].thresholds, mark, Pct(spends[i], budgets[i].limitAmount)) else (mark, [])
  {
    hide Check;
    hide OfKey;
    hide Turn;
    hide Pct;
    if n == 0 {
      NoAlerts(key);
    } else {
      EachBudgetChecksAlone(crossed, budgets, spends, n - 1, key);
      var before := Marks(crossed, budgets, spends, n - 1);
      var turn := Turn(before, budgets[n - 1], spends[n - 1]);
      OfKeyAppend(Alerts(crossed, budgets, spends, n - 1), turn.1, key);
      OneTurn(before, budgets[n - 1], spends[n - 1], key);
      var sofar := OfKey(Alerts(crossed, budgets, spends, n - 1), key);
      assert sofar + [] == sofar && [] + OfKey(turn.1, key) == OfKey(turn.1, key);
    }
  }

  lemma OneTurn(crossed: map<MarkKey, int>, b: Budget, spend: real, key: MarkKey)
    ensures var (turn, mark) := (Turn(crossed, b, spend), MarkOf(crossed, key));
            (MarkOf(turn.0, key), OfKey(turn.1, key))
            == if KeyOf(b) == key then Check(b.thresholds, mark, Pct(spend, b.limitAmount)) else (mark, [])
  {
    hide Highest;
    hide Between;
    hide OfKey;
    OfKeyTagged(KeyOf(b), Check(b.thresholds, MarkOf(crossed, KeyOf(b)), Pct(spend, b.limitAmount)).1, key);
  }

  // ----- one budget over any run of checks

  lemma {:induction false} HighestFacts(ts: seq<int>, pct: real, n: nat)
    requires Thresholds(ts) && n <= |ts|
    ensures var h := Highest(ts, pct, n);
            && (h == 0 || (h in ts[..n] && pct >= h as real))
            && h >= 0 && forall i | 0 <= i < n :: pct >= ts[i] as real <==> ts[i] <= h
  {
    if n > 0 {
      HighestFacts(ts, pct, n - 1);
      assert ts[..n] == ts[..n - 1] + [ts[n - 1]];
    }
  }

  /** The highest threshold reached by any of the percentages from `from` up to `n`. */
  function Peak(ts: seq<int>, pcts: seq<real>, from: nat, n: nat): int
    requires from <= n <= |pcts|
  {
    if n == from then 0
    else
      var (before, now) := (Peak(ts, pcts, from, n - 1), Highest(ts, pcts[n - 1], |ts|));
      if now > before then now else before
  }

  /** The run: mark, index just after the last reset, the alerts up to that reset and those since. */
  datatype Run = Run(mark: int, since: nat, past: seq<int>, fired: seq<int>)

  function RunOf(ts: seq<int>, pcts: seq<real>, n: nat): Run
    requires n <= |pcts|
  {
    if n == 0 then Run(0, 0, [], [])
    else
      var before := RunOf(ts, pcts, n - 1);
      var (mark, alerts) := Check(ts, before.mark, pcts[n - 1]);
      if mark < before.mark then Run(mark, n, before.past + before.fired, [])
      else before.(mark := mark, fired := before.fired + alerts)
  }

  /** All thresholds not above the mark. */
  function UpTo(ts: seq<int>, mark: int): seq<int> {
    Between(ts, 0, mark, |ts|)
  }

  lemma {:induction false} BetweenJoins(ts: seq<int>, low: int, mid: int, high: int, n: nat)
    requires Ascending(ts) && n <= |ts| && low <= mid <= high
    ensures Between(ts, low, mid, n) + Between(ts, mid, high, n) == Between(ts, low, high, n)
  {
    if n > 0 {
      BetweenJoins(ts, low, mid, high, n - 1);
      if ts[n - 1] <= mid {
        NoneAbove(ts, mid, high, n - 1);
        NoneAbove(ts, mid, high, n);
      }
    }
  }

  lemma {:induction false} NoneAbove(ts: seq<int>, mid: int, high: int, n: nat)
    requires Ascending(ts) && n <= |ts| && (n > 0 ==> ts[n - 1] <= mid)
    ensures Between(ts, mid, high, n) == []
  {
    if n > 0 {
      NoneAbove(ts, mid, high, n - 1);
    }
  }

  lemma {:induction false} NothingUpToZero(ts: seq<int>, n: nat)
    requires n <= |ts|
    ensures Between(ts, 0, 0, n) == []
  {
    if n > 0 {
      NothingUpToZero(ts, n - 1);
    }
  }

  /** A reset is a drop below the lowest threshold after something was crossed, and nothing else. */
  lemma ResetIff(ts: seq<int>, mark: int, pct: real)
    requires Thresholds(ts) && mark >= 0 && (mark == 0 || mark in ts)
    ensures Check(ts, mark, pct).0 < mark <==> mark > 0 && pct < Lowest(ts) as real
    ensures Check(ts, mark, pct).0 < mark ==> Check(ts, mark, pct) == (0, [])
  {
    HighestFacts(ts, pct, |ts|);
    if ts != [] && pct < ts[0] as real {
      var h := Highest(ts, pct, |ts|);
      assert h == 0;
    }
  }

  /** One budget over any run of its checks. */
  lemma {:induction false} RunFacts(ts: seq<int>, pcts: seq<real>, n: nat)
    requires Thresholds(ts) && n <= |pcts|
    ensures var run := RunOf(ts, pcts, n);
            && run.since <= n && run.mark == Peak(ts, pcts, run.since, n)
            && run.fired == UpTo(ts, run.mark)
            && run.mark >= 0 && (run.mark == 0 || run.mark in ts)
  {
    if n == 0 {
      NothingUpToZero(ts, |ts|);
    } else {
      RunFacts(ts, pcts, n - 1);
      var (before, pct) := (RunOf(ts, pcts, n - 1), pcts[n - 1]);
      var h := Highest(ts, pct, |ts|);
      HighestFacts(ts, pct, |ts|);
      assert ts[..|ts|] == ts;
      ResetIff(ts, before.mark, pct);
      if Check(ts, before.mark, pct).0 < before.mark {
        NothingUpToZero(ts, |ts|);
      } else if h > before.mark {
        BetweenJoins(ts, 0, before.mark, h, |ts|);
      } else {
        assert before.fired + [] == before.fired;
      }
    }
  }

  // ----- one period: the spend only rises within it

  predicate Rising(pcts: seq<real>, from: nat, to: nat)
    requires to <= |pcts|
  {
    forall i, j | from <= i < j < to :: pcts[i] <= pcts[j]
  }

  /** The alerts of the checks from `from` up to `n`. */
  function AlertsOf(ts: seq<int>, pcts: seq<real>, from: nat, n: nat): seq<int>
    requires from <= n <= |pcts|
  {
    if n == from then []
    else AlertsOf(ts, pcts, from, n - 1) + Check(ts, RunOf(ts, pcts, n - 1).mark, pcts[n - 1]).1
  }

  /** The mark that the checks of a period count from: the old one, unless the first check resets it. */
  function Base(ts: seq<int>, mark: int, first: real): int {
    if first < Lowest(ts) as real then 0 else mark
  }

  lemma {:induction false} HighestRises(ts: seq<int>, p: real, q: real, n: nat)
    requires Thresholds(ts) && n <= |ts| && p <= q
    ensures Highest(ts, p, n) <= Highest(ts, q, n)
  {
    if n > 0 {
      HighestRises(ts, p, q, n - 1);
      HighestFacts(ts, p, n - 1);
      assert Highest(ts, p, n - 1) in ts[..n - 1] ==> Highest(ts, p, n - 1) < ts[n - 1];
    }
  }

  /** Within a period no check but the first can reset, and the peak is that of the last check. */
  lemma {:induction false} PeriodFacts(ts: seq<int>, pcts: seq<real>, from: nat, n: nat)
    requires Thresholds(ts) && from < n <= |pcts| && Rising(pcts, from, n)
    ensures var (base, peak) := (Base(ts, RunOf(ts, pcts, from).mark, pcts[from]), Highest(ts, pcts[n - 1], |ts|));
            && Peak(ts, pcts, from, n) == peak
            && RunOf(ts, pcts, n).mark == (if peak > base then peak else base)
            && AlertsOf(ts, pcts, from, n) == Between(ts, base, peak, |ts|)
  {
    hide Check;
    hide Highest;
    hide Between;
    hide Thresholds;
    hide Lowest;
    var (base, pct) := (Base(ts, RunOf(ts, pcts, from).mark, pcts[from]), pcts[n - 1]);
    var mark := RunOf(ts, pcts, n - 1).mark;
    RunFacts(ts, pcts, from);
    RunFacts(ts, pcts, n - 1);
    ResetIff(ts, mark, pct);
    HighestFacts(ts, pct, |ts|);
    if n - 1 == from {
      FirstOfPeriod(ts, mark, pct);
    } else {
      PeriodFacts(ts, pcts, from, n - 1);
      HighestRises(ts, pcts[n - 2], pct, |ts|);
      LaterInPeriod(ts, base, pcts[from], pcts[n - 2], pct);
    }
  }

  lemma FirstOfPeriod(ts: seq<int>, mark: int, pct: real)
    requires Thresholds(ts) && mark >= 0 && (mark == 0 || mark in ts)
    ensures var (base, peak) := (Base(ts, mark, pct), Highest(ts, pct, |ts|));
            && peak >= 0
            && Check(ts, mark, pct).0 == (if peak > base then peak else base)
            && Check(ts, mark, pct).1 == Between(ts, base, peak, |ts|)
  {
    var peak := Highest(ts, pct, |ts|);
    HighestFacts(ts, pct, |ts|);
    assert ts[..|ts|] == ts;
    if pct < Lowest(ts) as real {
      LowestFirst(ts, pct);
      NothingUpToZero(ts, |ts|);
    } else if peak <= mark {
      EmptyBetween(ts, mark, peak, |ts|);
    }
  }

  /** Below the lowest threshold none is reached. */
  lemma LowestFirst(ts: seq<int>, pct: real)
    requires Thresholds(ts) && pct < Lowest(ts) as real
    ensures Highest(ts, pct, |ts|) == 0
  {
    HighestFacts(ts, pct, |ts|);
    assert ts[..|ts|] == ts;
  }

  lemma {:induction false} EmptyBetween(ts: seq<int>, low: int, high: int, n: nat)
    requires n <= |ts| && high <= low
    ensures Between(ts, low, high, n) == []
  {
    if n > 0 {
      EmptyBetween(ts, low, high, n - 1);
    }
  }

  lemma LaterInPeriod(ts: seq<int>, base: int, first: real, p: real, q: real)
    requires Thresholds(ts) && first <= p <= q
    requires base >= 0 && (base == 0 || (base in ts && first >= Lowest(ts) as real))
    requires Highest(ts, p, |ts|) <= Highest(ts, q, |ts|)
    ensures var (was, peak) := (Highest(ts, p, |ts|), Highest(ts, q, |ts|));
            var mark := if was > base then was else base;
            && was >= 0
            && Check(ts, mark, q).0 == (if peak > base then peak else base)
            && Between(ts, base, was, |ts|) + Check(ts, mark, q).1 == Between(ts, base, peak, |ts|)
  {
    var (was, peak) := (Highest(ts, p, |ts|), Highest(ts, q, |ts|));
    var mark := if was > base then was else base;
    HighestFacts(ts, p, |ts|);
    assert ts[..|ts|] == ts;
    ResetIff(ts, mark, q);
    if was > 0 {
      assert p >= ts[0] as real;
    }
    var sofar := Between(ts, base, was, |ts|);
    if peak > mark {
      if was > base {
        BetweenJoins(ts, base, was, peak, |ts|);
      } else {
        EmptyBetween(ts, base, was, |ts|);
        assert sofar + Between(ts, base, peak, |ts|) == Between(ts, base, peak, |ts|);
      }
    } else if was > base {
      assert peak == was && sofar + [] == sofar;
    } else {
      EmptyBetween(ts, base, was, |ts|);
      EmptyBetween(ts, base, peak, |ts|);
      assert sofar + [] == sofar;
    }
  }

  /**
   * In a period, every threshold that the spend reaches raises its alert, once, exactly when nothing was crossed
   * before or the first check of the period finds the spend below the lowest threshold. Otherwise the thresholds up
   * to the old mark stay silent.
   */
  lemma OncePerPeriodIff(ts: seq<int>, pcts: seq<real>, from: nat, n: nat)
    requires Thresholds(ts) && from < n <= |pcts| && Rising(pcts, from, n)
    ensures AlertsOf(ts, pcts, from, n) == UpTo(ts, Peak(ts, pcts, from, n))
            <==> RunOf(ts, pcts, from).mark == 0 || pcts[from] < Lowest(ts) as real
  {
    var (mark, peak) := (RunOf(ts, pcts, from).mark, Highest(ts, pcts[n - 1], |ts|));
    PeriodFacts(ts, pcts, from, n);
    RunFacts(ts, pcts, from);
    if mark > 0 && pcts[from] >= Lowest(ts) as real {
      assert ts[0] <= mark;
      HighestFacts(ts, pcts[n - 1], |ts|);
      BetweenMember(ts, mark, peak, |ts|, ts[0]);
      BetweenMember(ts, 0, peak, |ts|, ts[0]);
    }
  }

  lemma {:induction false} BetweenMember(ts: seq<int>, low: int, high: int, n: nat, t: int)
    requires n <= |ts|
    ensures t in Between(ts, low, high, n) <==> t in ts[..n] && low < t <= high
  {
    if n > 0 {
      BetweenMember(ts, low, high, n - 1, t);
      assert ts[..n] == ts[..n - 1] + [ts[n - 1]];
    }
  }

  // ----- any run of calls, each over several budgets

  datatype Call = Call(budgets: seq<Budget>, spends: seq<real>)

  datatype State = State(crossed: map<MarkKey, int>, alerts: Fired)

  predicate ValidCall(c: Call) {
    |c.budgets| == |c.spends| && DistinctKeys(c.budgets)
  }

  /** What `CheckBudgets` makes of marks and alerts. */
  function Called(s: State, c: Call): State
    requires ValidCall(c)
  {
    State(Marks(s.crossed, c.budgets, c.spends, |c.budgets|),
          s.alerts + Alerts(s.crossed, c.budgets, c.spends, |c.budgets|))
  }

  predicate ValidCalls(calls: seq<Call>) {
    forall i | 0 <= i < |calls| :: ValidCall(calls[i])
  }

  function After(calls: seq<Call>, n: nat): State
    requires n <= |calls| && ValidCalls(calls)
  {
    if n == 0 then State(map[], []) else Called(After(calls, n - 1), calls[n - 1])
  }

  /** The budget of the key, whenever a call has one, is this one. */
  predicate Fixed(calls: seq<Call>, b: Budget) {
    forall c, i | 0 <= c < |calls| && 0 <= i < |calls[c].budgets| && KeyOf(calls[c].budgets[i]) == KeyOf(b) ::
      calls[c].budgets[i] == b
  }

  /** The percentages the budget had in the calls that included it. */
  function Percentages(calls: seq<Call>, n: nat, b: Budget): seq<real>
    requires n <= |calls| && ValidCalls(calls)
  {
    if n == 0 then []
    else
      var (before, call) := (Percentages(calls, n - 1, b), calls[n - 1]);
      var i := IndexOf(call.budgets, |call.budgets|, KeyOf(b));
      if i < |call.budgets| then before + [Pct(call.spends[i], b.limitAmount)] else before
  }

  function History(calls: seq<Call>, n: nat, b: Budget): Run
    requires n <= |calls| && ValidCalls(calls)
  {
    var pcts := Percentages(calls, n, b);
    RunOf(b.thresholds, pcts, |pcts|)
  }

  lemma {:induction false} RunOfLonger(ts: seq<int>, pcts: seq<real>, pct: real, n: nat)
    requires n <= |pcts|
    ensures RunOf(ts, pcts + [pct], n) == RunOf(ts, pcts, n)
  {
    hide Check;
    if n > 0 {
      RunOfLonger(ts, pcts, pct, n - 1);
    }
  }

  /** Marks and alerts of one key follow the run of its own budget, whatever the other budgets do. */
  lemma {:induction false} CallsFollowRun(calls: seq<Call>, n: nat, b: Budget)
    requires n <= |calls| && ValidCalls(calls) && Fixed(calls, b) && Thresholds(b.thresholds)
    ensures var (s, run) := (After(calls, n), History(calls, n, b));
            MarkOf(s.crossed, KeyOf(b)) == run.mark && OfKey(s.alerts, KeyOf(b)) == run.past + run.fired
  {
    if n > 0 {
      CallsFollowRun(calls, n - 1, b);
      var (before, call) := (After(calls, n - 1), calls[n - 1]);
      var i := IndexOf(call.budgets, |call.budgets|, KeyOf(b));
      OneCall(before, call, b, Percentages(calls, n - 1, b), i);
    }
  }

  lemma OneCall(s: State, call: Call, b: Budget, pcts: seq<real>, i: nat)
    requires ValidCall(call) && Thresholds(b.thresholds)
    requires i == IndexOf(call.budgets, |call.budgets|, KeyOf(b)) && (i < |call.budgets| ==> call.budgets[i] == b)
    requires var run := RunOf(b.thresholds, pcts, |pcts|);
             MarkOf(s.crossed, KeyOf(b)) == run.mark && OfKey(s.alerts, KeyOf(b)) == run.past + run.fired
    ensures var more := if i < |call.budgets| then pcts + [Pct(call.spends[i], b.limitAmount)] else pcts;
            var (next, run) := (Called(s, call), RunOf(b.thresholds, more, |more|));
            MarkOf(next.crossed, KeyOf(b)) == run.mark && OfKey(next.alerts, KeyOf(b)) == run.past + run.fired
  {
    var n := |call.budgets|;
    EachBudgetChecksAlone(s.crossed, call.budgets, call.spends, n, KeyOf(b));
    OfKeyAppend(s.alerts, Alerts(s.crossed, call.budgets, call.spends, n), KeyOf(b));
    if i < n {
      var pct := Pct(call.spends[i], b.limitAmount);
      RunOfLonger(b.thresholds, pcts, pct, |pcts|);
      var run := RunOf(b.thresholds, pcts, |pcts|);
      RunFacts(b.thresholds, pcts, |pcts|);
      ResetIff(b.thresholds, run.mark, pct);
      Assoc(run.past, run.fired, Check(b.thresholds, run.mark, pct).1);
    }
  }

  /**
   * After any sequence of calls over any budgets: the mark of a fixed budget is the highest threshold reached since its
   * last reset, and its alerts since then are exactly the thresholds up to the mark, each once and in order.
   */
  lemma MarkIsPeak(calls: seq<Call>, n: nat, b: Budget)
    requires n <= |calls| && ValidCalls(calls) && Fixed(calls, b) && Thresholds(b.thresholds)
    ensures var (s, run, pcts) := (After(calls, n), History(calls, n, b), Percentages(calls, n, b));
            && run.since <= |pcts|
            && MarkOf(s.crossed, KeyOf(b)) == Peak(b.thresholds, pcts, run.since, |pcts|)
            && OfKey(s.alerts, KeyOf(b)) == run.past + UpTo(b.thresholds, MarkOf(s.crossed, KeyOf(b)))
  {
    CallsFollowRun(calls, n, b);
    var pcts := Percentages(calls, n, b);
    RunFacts(b.thresholds, pcts, |pcts|);
  }
}
