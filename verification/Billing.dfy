/** Billing arithmetic (src/lib/billing.ts): `round6`, `spendSummary` and the drift of `reconcile`. */

module Millionths {
  import opened JsNumber

  const MILLION := 1000000.0

  function Round6(n: real): real {
    RoundTo(n, MILLION)
  }

  /** Half a millionth at most is lost or gained. */
  lemma Round6Error(n: real)
    ensures -0.0000005 < Round6(n) - n <= 0.0000005
  {
  }

  /** A whole number of millionths. */
  lemma Round6Whole(n: real)
    ensures Round6(n) * MILLION == Round(n * MILLION) as real
  {
  }

  /** Differences of rounded numbers need no further rounding. */
  lemma Round6OfDifference(x: real, y: real)
    ensures Round6(Abs(Round6(x) - Round6(y))) == Abs(Round6(x) - Round6(y))
  {
    var (i, j) := (Round(x * MILLION), Round(y * MILLION));
    var d := if i >= j then i - j else j - i;
    assert Abs(Round6(x) - Round6(y)) * MILLION == d as real;
    assert (d as real + 0.5).Floor == d;
  }
}

/** `spendSummary`: totals and one row per group, whatever the events are grouped by. */
module Spend {
  import opened JsNumber
  import opened Millionths

  datatype Event = Event(key: string, totalCost: real, tokensIn: real, tokensOut: real, tokensReasoning: real,
                         isByok: bool, isFreeTier: bool)

  /** A column: what one event adds to it. */
  type Column = Event -> real

  const Cost: Column := (e: Event) => if e.isFreeTier then 0.0 else e.totalCost
  const ByokCost: Column := (e: Event) => if e.isFreeTier || !e.isByok then 0.0 else e.totalCost
  const DirectCost: Column := (e: Event) => if e.isFreeTier || e.isByok then 0.0 else e.totalCost
  const Requests: Column := (e: Event) => 1.0
  const FreeRequests: Column := (e: Event) => if e.isFreeTier then 1.0 else 0.0
  const TokensIn: Column := (e: Event) => e.tokensIn
  const TokensOut: Column := (e: Event) => e.tokensOut + e.tokensReasoning

  function Sum(events: seq<Event>, n: nat, f: Column): real
    requires n <= |events|
  {
    if n == 0 then 0.0 else Sum(events, n - 1, f) + f(events[n - 1])
  }

  function SumOf(events: seq<Event>, n: nat, key: string, f: Column): real
    requires n <= |events|
  {
    if n == 0 then 0.0 else SumOf(events, n - 1, key, f) + if events[n - 1].key == key then f(events[n - 1]) else 0.0
  }

  /** The events of a class, in order. */
  function Only(events: seq<Event>, n: nat, keep: Event -> bool): seq<Event>
    requires n <= |events|
  {
    if n == 0 then []
    else Only(events, n - 1, keep) + if keep(events[n - 1]) then [events[n - 1]] else []
  }

  lemma {:induction false} SumOnly(events: seq<Event>, n: nat, keep: Event -> bool, f: Column, column: Column)
    requires n <= |events| && forall e: Event :: column(e) == if keep(e) then f(e) else 0.0
    ensures var only := Only(events, n, keep); Sum(events, n, column) == Sum(only, |only|, f)
  {
    if n > 0 {
      SumOnly(events, n - 1, keep, f, column);
      var before, now := Only(events, n - 1, keep), Only(events, n, keep);
      if keep(events[n - 1]) {
        SumOfPrefix(before, [events[n - 1]], |before|, f);
      } else {
        assert now == before;
      }
    }
  }

  lemma {:induction false} SumOfPrefix(events: seq<Event>, more: seq<Event>, n: nat, f: Column)
    requires n <= |events|
    ensures Sum(events + more, n, f) == Sum(events, n, f)
  {
    if n > 0 {
      SumOfPrefix(events, more, n - 1, f);
    }
  }

  lemma {:induction false} SumPlus(events: seq<Event>, n: nat, f: Column, g: Column, both: Column)
    requires n <= |events| && forall e: Event :: both(e) == f(e) + g(e)
    ensures Sum(events, n, both) == Sum(events, n, f) + Sum(events, n, g)
  {
    if n > 0 {
      SumPlus(events, n - 1, f, g, both);
    }
  }

  lemma {:induction false} SumOnes(events: seq<Event>, n: nat, one: Column)
    requires n <= |events| && forall e: Event :: one(e) == 1.0
    ensures Sum(events, n, one) == n as real
  {
    if n > 0 {
      SumOnes(events, n - 1, one);
    }
  }

  const TotalCost: Column := (e: Event) => e.totalCost
  const OutputTokens: Column := (e: Event) => e.tokensOut
  const ReasoningTokens: Column := (e: Event) => e.tokensReasoning
  const One: Column := (e: Event) => 1.0

  const IsFree: Event -> bool := (e: Event) => e.isFreeTier
  const IsPaid: Event -> bool := (e: Event) => !e.isFreeTier
  const IsPaidByok: Event -> bool := (e: Event) => !e.isFreeTier && e.isByok
  const IsPaidDirect: Event -> bool := (e: Event) => !e.isFreeTier && !e.isByok

  /**
   * What the columns add up: the costs of the events that are not free, of those among them on a key of the user, and
   * of the others; all events, and the free ones; the tokens out together with those for reasoning.
   */
  lemma ColumnsOfClasses(events: seq<Event>, n: nat)
    requires n <= |events|
    ensures var (paid, free) := (Only(events, n, IsPaid), Only(events, n, IsFree));
            var (byok, direct) := (Only(events, n, IsPaidByok), Only(events, n, IsPaidDirect));
            && Sum(events, n, Cost) == Sum(paid, |paid|, TotalCost)
            && Sum(events, n, ByokCost) == Sum(byok, |byok|, TotalCost)
            && Sum(events, n, DirectCost) == Sum(direct, |direct|, TotalCost)
            && Sum(events, n, Requests) == n as real && Sum(events, n, FreeRequests) == |free| as real
            && Sum(events, n, TokensOut) == Sum(events, n, OutputTokens) + Sum(events, n, ReasoningTokens)
  {
    SumOnly(events, n, IsPaid, TotalCost, Cost);
    SumOnly(events, n, IsPaidByok, TotalCost, ByokCost);
    SumOnly(events, n, IsPaidDirect, TotalCost, DirectCost);
    SumOnly(events, n, IsFree, One, FreeRequests);
    var free := Only(events, n, IsFree);
    SumOnes(free, |free|, One);
    SumOnes(events, n, Requests);
    SumPlus(events, n, OutputTokens, ReasoningTokens, TokensOut);
  }

  datatype SpendRow = SpendRow(key: string, cost: real, requests: real, tokensIn: real, tokensOut: real, byokCost: real,
                               freeRequests: real)

  function EmptyRow(key: string): SpendRow {
    SpendRow(key, 0.0, 0.0, 0.0, 0.0, 0.0, 0.0)
  }

  function RowOf(events: seq<Event>, n: nat, key: string): SpendRow
    requires n <= |events|
  {
    SpendRow(key, SumOf(events, n, key, Cost), SumOf(events, n, key, Requests),
             SumOf(events, n, key, TokensIn), SumOf(events, n, key, TokensOut), SumOf(events, n, key, ByokCost),
             SumOf(events, n, key, FreeRequests))
  }

  /** The keys in the order of their first event. */
  function Keys(events: seq<Event>, n: nat): seq<string>
    requires n <= |events|
  {
    if n == 0 then []
    else
      var before := Keys(events, n - 1);
      if events[n - 1].key in before then before else before + [events[n - 1].key]
  }

  datatype Totals = Totals(total: real, byokTotal: real, directTotal: real, freeRequests: real)

  /** Before rounding: the four totals and the rows in the order of the map. */
  method Accumulate(events: seq<Event>) returns (t: Totals, order: seq<string>, table: map<string, SpendRow>)
    ensures t == Totals(Sum(events, |events|, Cost), Sum(events, |events|, ByokCost),
                        Sum(events, |events|, DirectCost), Sum(events, |events|, FreeRequests))
    ensures order == Keys(events, |events|)
    ensures forall key | key in order :: key in table && table[key] == RowOf(events, |events|, key)
  {
    t, order, table := Totals(0.0, 0.0, 0.0, 0.0), [], map[];
    for n := 0 to |events|
      invariant t == Totals(Sum(events, n, Cost), Sum(events, n, ByokCost),
                            Sum(events, n, DirectCost), Sum(events, n, FreeRequests))
      invariant order == Keys(events, n) && forall key :: key in table <==> key in order
      invariant forall key | key in table :: table[key] == RowOf(events, n, key)
    {
      var e := events[n];
      var r := if e.key in table then table[e.key] else EmptyRow(e.key);
      if e.key !in table {
        NewKeySums(events, n, e.key);
        order := order + [e.key];
      }
      r := r.(requests := r.requests + 1.0, tokensIn := r.tokensIn + e.tokensIn,
              tokensOut := r.tokensOut + (e.tokensOut + e.tokensReasoning));
      if e.isFreeTier {
        r := r.(freeRequests := r.freeRequests + 1.0);
        t := t.(freeRequests := t.freeRequests + 1.0);
      } else {
        r := r.(cost := r.cost + e.totalCost);
        t := t.(total := t.total + e.totalCost);
        if e.isByok {
          r := r.(byokCost := r.byokCost + e.totalCost);
          t := t.(byokTotal := t.byokTotal + e.totalCost);
        } else {
          t := t.(directTotal := t.directTotal + e.totalCost);
        }
      }
      table := table[e.key := r];
    }
  }

  lemma {:induction false} SumOfUnknown(events: seq<Event>, n: nat, key: string, f: Column)
    requires n <= |events| && key !in Keys(events, n)
    ensures SumOf(events, n, key, f) == 0.0
  {
    if n > 0 {
      SumOfUnknown(events, n - 1, key, f);
    }
  }

  lemma NewKeySums(events: seq<Event>, n: nat, key: string)
    requires n <= |events| && key !in Keys(events, n)
    ensures RowOf(events, n, key) == EmptyRow(key)
  {
    SumOfUnknown(events, n, key, Cost);
    SumOfUnknown(events, n, key, Requests);
    SumOfUnknown(events, n, key, TokensIn);
    SumOfUnknown(events, n, key, TokensOut);
    SumOfUnknown(events, n, key, ByokCost);
    SumOfUnknown(events, n, key, FreeRequests);
  }

  // ----- rows against totals

  predicate Distinct(keys: seq<string>) {
    forall i, j | 0 <= i < j < |keys| :: keys[i] != keys[j]
  }

  lemma {:induction false} KeysDistinct(events: seq<Event>, n: nat)
    requires n <= |events|
    ensures Distinct(Keys(events, n))
  {
    if n > 0 {
      KeysDistinct(events, n - 1);
    }
  }

  /** The column summed over the first `m` rows. */
  function SumRows(events: seq<Event>, n: nat, keys: seq<string>, m: nat, f: Column): real
    requires n <= |events| && m <= |keys|
  {
    if m == 0 then 0.0 else SumRows(events, n, keys, m - 1, f) + SumOf(events, n, keys[m - 1], f)
  }

  lemma {:induction false} OneMoreEvent(events: seq<Event>, n: nat, keys: seq<string>, m: nat, f: Column)
    requires 0 < n <= |events| && m <= |keys| && Distinct(keys)
    ensures SumRows(events, n, keys, m, f)
            == SumRows(events, n - 1, keys, m, f) + if events[n - 1].key in keys[..m] then f(events[n - 1]) else 0.0
  {
    if m > 0 {
      OneMoreEvent(events, n, keys, m - 1, f);
      assert keys[..m] == keys[..m - 1] + [keys[m - 1]];
      assert keys[m - 1] !in keys[..m - 1];
    }
  }

  lemma {:induction false} RowsOfPrefix(events: seq<Event>, n: nat, keys: seq<string>, key: string, m: nat, f: Column)
    requires n <= |events| && m <= |keys|
    ensures SumRows(events, n, keys + [key], m, f) == SumRows(events, n, keys, m, f)
  {
    if m > 0 {
      RowsOfPrefix(events, n, keys, key, m - 1, f);
    }
  }

  /** For every grouping and every column, the rows sum to the total. */
  lemma {:induction false} RowsSumToTotal(events: seq<Event>, n: nat, f: Column)
    requires n <= |events|
    ensures SumRows(events, n, Keys(events, n), |Keys(events, n)|, f) == Sum(events, n, f)
  {
    if n > 0 {
      RowsSumToTotal(events, n - 1, f);
      KeysDistinct(events, n);
      var (before, keys, key) := (Keys(events, n - 1), Keys(events, n), events[n - 1].key);
      OneMoreEvent(events, n, keys, |keys|, f);
      assert keys[..|keys|] == keys;
      if key !in before {
        RowsOfPrefix(events, n - 1, before, key, |before|, f);
        SumOfUnknown(events, n - 1, key, f);
      }
    }
  }

  lemma {:induction false} TotalIsByokPlusDirect(events: seq<Event>, n: nat)
    requires n <= |events|
    ensures Sum(events, n, Cost) == Sum(events, n, ByokCost) + Sum(events, n, DirectCost)
    ensures Sum(events, n, Requests) == n as real
  {
    if n > 0 {
      TotalIsByokPlusDirect(events, n - 1);
    }
  }

  // ----- after rounding

  function SumRounded(events: seq<Event>, n: nat, keys: seq<string>, m: nat, f: Column): real
    requires n <= |events| && m <= |keys|
  {
    if m == 0 then 0.0 else SumRounded(events, n, keys, m - 1, f) + Round6(SumOf(events, n, keys[m - 1], f))
  }

  lemma {:induction false} RoundedRowsError(events: seq<Event>, n: nat, keys: seq<string>, m: nat, f: Column)
    requires n <= |events| && m <= |keys|
    ensures Abs(SumRounded(events, n, keys, m, f) - SumRows(events, n, keys, m, f)) <= m as real * 0.0000005
  {
    if m > 0 {
      RoundedRowsError(events, n, keys, m - 1, f);
      Round6Error(SumOf(events, n, keys[m - 1], f));
    }
  }

  lemma RowsNearTotal(events: seq<Event>, n: nat, keys: seq<string>, total: real, f: Column)
    requires n <= |events| && total == SumRows(events, n, keys, |keys|, f)
    ensures Abs(SumRounded(events, n, keys, |keys|, f) - Round6(total)) <= |keys| as real * 0.0000005 + 0.0000005
  {
    RoundedRowsError(events, n, keys, |keys|, f);
    Round6Error(total);
    Near(SumRounded(events, n, keys, |keys|, f), total, Round6(total), |keys| as real * 0.0000005);
  }

  lemma Near(x: real, y: real, z: real, d: real)
    requires Abs(x - y) <= d && -0.0000005 <= z - y <= 0.0000005
    ensures Abs(x - z) <= d + 0.0000005
  {
  }

  /** The reported rows miss the reported total by at most half a millionth per rounding. */
  lemma ReportedRowsMatchTotal(events: seq<Event>, n: nat, keys: seq<string>, f: Column)
    requires n == |events| && keys == Keys(events, n)
    ensures Abs(SumRounded(events, n, keys, |keys|, f) - Round6(Sum(events, n, f)))
            <= |keys| as real * 0.0000005 + 0.0000005
  {
    RowsSumToTotal(events, n, f);
    RowsNearTotal(events, n, keys, Sum(events, n, f), f);
  }

  /** The reported total is the reported BYOK and direct totals, give or take one millionth. */
  lemma ReportedTotalSplits(events: seq<Event>)
    ensures var n := |events|;
            var parts := Round6(Sum(events, n, ByokCost)) + Round6(Sum(events, n, DirectCost));
            var d := Round6(Sum(events, n, Cost)) - parts;
            Abs(d) <= 0.000001
  {
    var n := |events|;
    TotalIsByokPlusDirect(events, n);
    var (t, b, d) := (Sum(events, n, Cost), Sum(events, n, ByokCost), Sum(events, n, DirectCost));
    Round6Error(t);
    Round6Error(b);
    Round6Error(d);
    Round6Whole(t);
    Round6Whole(b);
    Round6Whole(d);
    var k := Round(t * MILLION) - Round(b * MILLION) - Round(d * MILLION);
    assert (Round6(t) - Round6(b) - Round6(d)) * MILLION == k as real;
    assert -1.5 <= k as real <= 1.5;
    assert -1 <= k <= 1;
  }
}

/** The drift figures of `reconcile`. */
module Reconciliation {
  import opened JsNumber
  import opened Millionths

  /** Cost per model name, as captured or as the provider reports it. */
  type Costs = seq<(string, real)>

  function SumCosts(xs: Costs, n: nat): real
    requires n <= |xs|
  {
    if n == 0 then 0.0 else SumCosts(xs, n - 1) + xs[n - 1].1
  }

  /** `new Map(xs).get(m) ?? 0`: the last cost listed for the model. */
  function CostOf(xs: Costs, n: nat, m: string): real
    requires n <= |xs|
  {
    if n == 0 then 0.0 else if xs[n - 1].0 == m then xs[n - 1].1 else CostOf(xs, n - 1, m)
  }

  /** The models of the first `n` entries added to those found already. */
  function Models(found: seq<string>, xs: Costs, n: nat): seq<string>
    requires n <= |xs|
  {
    if n == 0 then found
    else
      var before := Models(found, xs, n - 1);
      if xs[n - 1].0 in before then before else before + [xs[n - 1].0]
  }

  function AllModels(captured: Costs, activity: Costs): seq<string> {
    Models(Models([], captured, |captured|), activity, |activity|)
  }

  datatype Line = Line(model: string, captured: real, provider: real, drift: real)

  datatype Report = Report(capturedTotal: real, providerTotal: real, driftAbs: real, driftPct: real, flagged: bool,
                           breakdown: seq<Line>)

  function LineOf(captured: Costs, activity: Costs, m: string): Line {
    var (cap, pr) := (CostOf(captured, |captured|, m), CostOf(activity, |activity|, m));
    Line(m, Round6(cap), Round6(pr), Round6(Abs(cap - pr)))
  }

  function Reconciled(captured: Costs, activity: Costs, pctThresh: real, usdThresh: real): Report {
    var models := AllModels(captured, activity);
    var capturedTotal := Round6(SumCosts(captured, |captured|));
    var providerTotal := Round6(SumCosts(activity, |activity|));
    var driftAbs := Round6(Abs(capturedTotal - providerTotal));
    var driftPct :=
      if providerTotal > 0.0 then Round6(driftAbs / providerTotal * 100.0)
      else if capturedTotal > 0.0 then 100.0 else 0.0;
    Report(capturedTotal, providerTotal, driftAbs, driftPct, driftPct > pctThresh && driftAbs > usdThresh,
           seq(|models|, i requires 0 <= i < |models| => LineOf(captured, activity, models[i])))
  }

  lemma {:induction false} LastCost(xs: Costs, n: nat, i: nat)
    requires i < n <= |xs| && forall j | i < j < n :: xs[j].0 != xs[i].0
    ensures CostOf(xs, n, xs[i].0) == xs[i].1
  {
    if i < n - 1 {
      LastCost(xs, n - 1, i);
    }
  }

  lemma {:induction false} NoCost(xs: Costs, n: nat, m: string)
    requires n <= |xs| && forall j | 0 <= j < n :: xs[j].0 != m
    ensures CostOf(xs, n, m) == 0.0
  {
    if n > 0 {
      NoCost(xs, n - 1, m);
    }
  }

  /** The line of a model that was captured shows its last captured cost on that side, and 0 for a silent provider. */
  lemma CapturedSide(captured: Costs, activity: Costs, i: nat)
    requires i < |captured| && forall j | i < j < |captured| :: captured[j].0 != captured[i].0
    ensures var (m, cost) := captured[i];
            var line := LineOf(captured, activity, m);
            && line.model == m && line.captured == Round6(cost)
            && ((forall j | 0 <= j < |activity| :: activity[j].0 != m) ==>
                  line.provider == 0.0 && line.drift == Round6(Abs(cost)))
  {
    LastCost(captured, |captured|, i);
    if forall j | 0 <= j < |activity| :: activity[j].0 != captured[i].0 {
      NoCost(activity, |activity|, captured[i].0);
      assert (0.0 + 0.5).Floor == 0;
    }
  }

  /** The same for a model that the provider reports. */
  lemma ProviderSide(captured: Costs, activity: Costs, i: nat)
    requires i < |activity| && forall j | i < j < |activity| :: activity[j].0 != activity[i].0
    ensures var (m, cost) := activity[i];
            var line := LineOf(captured, activity, m);
            && line.model == m && line.provider == Round6(cost)
            && ((forall j | 0 <= j < |captured| :: captured[j].0 != m) ==>
                  line.captured == 0.0 && line.drift == Round6(Abs(cost)))
  {
    LastCost(activity, |activity|, i);
    if forall j | 0 <= j < |captured| :: captured[j].0 != activity[i].0 {
      NoCost(captured, |captured|, activity[i].0);
      assert (0.0 + 0.5).Floor == 0;
    }
  }

  /** The totals are those of the two lists, and a report is flagged when its drift is above both thresholds. */
  lemma ReportFigures(captured: Costs, activity: Costs, pctThresh: real, usdThresh: real)
    ensures var r := Reconciled(captured, activity, pctThresh, usdThresh);
            && -0.0000005 < r.capturedTotal - SumCosts(captured, |captured|) <= 0.0000005
            && -0.0000005 < r.providerTotal - SumCosts(activity, |activity|) <= 0.0000005
            && (r.providerTotal > 0.0 ==>
                  -0.0000005 < r.driftPct - 100.0 * (r.driftAbs / r.providerTotal) <= 0.0000005)
            && (r.providerTotal <= 0.0 ==> r.driftPct == if r.capturedTotal > 0.0 then 100.0 else 0.0)
            && (r.flagged <==> r.driftPct > pctThresh && r.driftAbs > usdThresh)
  {
    Round6Error(SumCosts(captured, |captured|));
    Round6Error(SumCosts(activity, |activity|));
    var r := Reconciled(captured, activity, pctThresh, usdThresh);
    if r.providerTotal > 0.0 {
      Round6Error(r.driftAbs / r.providerTotal * 100.0);
    }
  }

  /** The models are those of both lists, those that were captured first. */
  lemma AllModelsListed(captured: Costs, activity: Costs)
    ensures var (models, n) := (AllModels(captured, activity), |Models([], captured, |captured|)|);
            && n <= |models|
            && (forall i | 0 <= i < n :: Lists(captured, models[i]))
            && (forall i | n <= i < |models| :: !Lists(captured, models[i]) && Lists(activity, models[i]))
            && (forall m :: m in models <==> Lists(captured, m) || Lists(activity, m))
  {
    var first := Models([], captured, |captured|);
    ModelsListed([], captured, |captured|);
    ModelsListed(first, activity, |activity|);
    var models := AllModels(captured, activity);
    assert forall i | 0 <= i < |first| :: models[i] == first[i];
  }

  /** And the breakdown has a line for each of them, in that order. */
  lemma BreakdownLines(captured: Costs, activity: Costs, pctThresh: real, usdThresh: real)
    ensures var (lines, models) :=
              (Reconciled(captured, activity, pctThresh, usdThresh).breakdown, AllModels(captured, activity));
            |lines| == |models| && forall i | 0 <= i < |lines| :: lines[i] == LineOf(captured, activity, models[i])
  {
  }

  predicate Lists(xs: Costs, m: string) {
    exists i | 0 <= i < |xs| :: xs[i].0 == m
  }

  lemma {:induction false} ModelsListed(found: seq<string>, xs: Costs, n: nat)
    requires n <= |xs|
    ensures var models := Models(found, xs, n);
            && found <= models
            && (forall m :: m in models <==> m in found || exists i | 0 <= i < n :: xs[i].0 == m)
            && (forall i | |found| <= i < |models| :: models[i] !in found)
  {
    if n > 0 {
      ModelsListed(found, xs, n - 1);
    }
  }

  // ----- sums over the models

  function Sum(models: seq<string>, n: nat, f: string -> real): real
    requires n <= |models|
  {
    if n == 0 then 0.0 else Sum(models, n - 1, f) + f(models[n - 1])
  }

  predicate Distinct(models: seq<string>) {
    forall i, j | 0 <= i < j < |models| :: models[i] != models[j]
  }

  lemma {:induction false} ModelsFacts(found: seq<string>, xs: Costs, n: nat)
    requires n <= |xs| && Distinct(found)
    ensures var ms := Models(found, xs, n);
            Distinct(ms) && (forall m | m in found :: m in ms) && forall i | 0 <= i < n :: xs[i].0 in ms
  {
    if n > 0 {
      ModelsFacts(found, xs, n - 1);
    }
  }

  lemma {:induction false} SumOfZero(models: seq<string>, n: nat, xs: Costs)
    requires n <= |models|
    ensures Sum(models, n, m => CostOf(xs, 0, m)) == 0.0
  {
    if n > 0 {
      SumOfZero(models, n - 1, xs);
    }
  }

  /** One more entry changes the sum at its own model only. */
  lemma {:induction false} SumStep(models: seq<string>, n: nat, xs: Costs, k: nat)
    requires n <= |models| && 0 < k <= |xs| && Distinct(models)
    ensures Sum(models, n, m => CostOf(xs, k, m))
            == Sum(models, n, m => CostOf(xs, k - 1, m))
               + if xs[k - 1].0 in models[..n] then xs[k - 1].1 - CostOf(xs, k - 1, xs[k - 1].0) else 0.0
  {
    if n > 0 {
      SumStep(models, n - 1, xs, k);
      assert models[..n] == models[..n - 1] + [models[n - 1]];
      assert models[n - 1] !in models[..n - 1];
    }
  }

  /** What later entries of the same model overwrite among the first `n`. */
  function Overwritten(xs: Costs, n: nat): real
    requires n <= |xs|
  {
    if n == 0 then 0.0 else Overwritten(xs, n - 1) + CostOf(xs, n - 1, xs[n - 1].0)
  }

  /** The per-model column sums to the total less what was overwritten. */
  lemma {:induction false} ColumnSum(models: seq<string>, xs: Costs, n: nat)
    requires Distinct(models) && n <= |xs| && forall i | 0 <= i < n :: xs[i].0 in models
    ensures Sum(models, |models|, m => CostOf(xs, n, m)) == SumCosts(xs, n) - Overwritten(xs, n)
  {
    if n == 0 {
      SumOfZero(models, |models|, xs);
    } else {
      ColumnSum(models, xs, n - 1);
      SumStep(models, |models|, xs, n);
      assert models[..|models|] == models;
    }
  }

  lemma {:induction false} CostOfNatural(xs: Costs, n: nat, m: string)
    requires n <= |xs| && forall i | 0 <= i < n :: xs[i].1 >= 0.0
    ensures CostOf(xs, n, m) >= 0.0
    ensures (forall i | 0 <= i < n && xs[i].0 == m :: xs[i].1 == 0.0) ==> CostOf(xs, n, m) == 0.0
  {
    if n > 0 {
      CostOfNatural(xs, n - 1, m);
    }
  }

  /** A model whose entries so far cost nothing has no cost in the map. */
  lemma {:induction false} CostOfFree(xs: Costs, n: nat, m: string)
    requires n <= |xs| && forall i | 0 <= i < n && xs[i].0 == m :: xs[i].1 == 0.0
    ensures CostOf(xs, n, m) == 0.0
  {
    if n > 0 {
      CostOfFree(xs, n - 1, m);
    }
  }

  /** Only groups without cost come before another one of the same model name. */
  predicate RepeatsAreFree(xs: Costs, n: nat)
    requires n <= |xs|
  {
    forall i, j | 0 <= i < j < n && xs[i].0 == xs[j].0 :: xs[i].1 == 0.0
  }

  lemma {:induction false} NothingOverwritten(xs: Costs, n: nat)
    requires n <= |xs| && RepeatsAreFree(xs, n)
    ensures Overwritten(xs, n) == 0.0
  {
    if n > 0 {
      NothingOverwritten(xs, n - 1);
      CostOfFree(xs, n - 1, xs[n - 1].0);
    }
  }

  /**
   * The breakdown accounts for the whole captured total exactly when no group that costs something is followed by
   * another one of its model name.
   */
  lemma {:induction false} OverwrittenIff(xs: Costs, n: nat)
    requires n <= |xs| && forall i | 0 <= i < |xs| :: xs[i].1 >= 0.0
    ensures Overwritten(xs, n) >= 0.0
    ensures Overwritten(xs, n) == 0.0 <==> RepeatsAreFree(xs, n)
  {
    if n > 0 {
      OverwrittenIff(xs, n - 1);
      CostOfNatural(xs, n - 1, xs[n - 1].0);
      if RepeatsAreFree(xs, n - 1) {
        if CostOf(xs, n - 1, xs[n - 1].0) == 0.0 {
          LastIsFree(xs, n - 1, xs[n - 1].0);
        }
      }
    }
  }

  /** If earlier repeats are free and the map holds no cost for a model, none of its entries costs anything. */
  lemma {:induction false} LastIsFree(xs: Costs, n: nat, m: string)
    requires n <= |xs| && RepeatsAreFree(xs, n) && CostOf(xs, n, m) == 0.0
    ensures forall i | 0 <= i < n && xs[i].0 == m :: xs[i].1 == 0.0
  {
    if n > 0 && xs[n - 1].0 != m {
      LastIsFree(xs, n - 1, m);
    }
  }

  lemma {:induction false} SumOfAbs(models: seq<string>, n: nat, captured: Costs, activity: Costs)
    requires n <= |models|
    ensures Abs(Sum(models, n, m => CostOf(captured, |captured|, m))
                - Sum(models, n, m => CostOf(activity, |activity|, m)))
            <= Sum(models, n, m => LineOf(captured, activity, m).drift) + n as real * 0.0000005
  {
    if n > 0 {
      SumOfAbs(models, n - 1, captured, activity);
      var m := models[n - 1];
      Round6Error(Abs(CostOf(captured, |captured|, m) - CostOf(activity, |activity|, m)));
    }
  }

  /** The overall drift is explained by the drifts of the models, up to (n + 2)/2 millionths. */
  lemma DriftBound(captured: Costs, activity: Costs, pctThresh: real, usdThresh: real)
    requires RepeatsAreFree(captured, |captured|) && RepeatsAreFree(activity, |activity|)
    ensures var r := Reconciled(captured, activity, pctThresh, usdThresh);
            var models := AllModels(captured, activity);
            && r.driftAbs == Abs(r.capturedTotal - r.providerTotal)
            && r.driftAbs <= Sum(models, |models|, m => LineOf(captured, activity, m).drift)
                             + (|models| + 2) as real * 0.0000005
  {
    var models := AllModels(captured, activity);
    ModelsFacts([], captured, |captured|);
    ModelsFacts(Models([], captured, |captured|), activity, |activity|);
    ColumnSum(models, captured, |captured|);
    ColumnSum(models, activity, |activity|);
    NothingOverwritten(captured, |captured|);
    NothingOverwritten(activity, |activity|);
    SumOfAbs(models, |models|, captured, activity);
    var (c, p) := (SumCosts(captured, |captured|), SumCosts(activity, |activity|));
    Round6OfDifference(c, p);
    Round6Error(c);
    Round6Error(p);
  }

  /**
   * Two groups that both read "unknown" hide a drift from the breakdown: the overall drift is 1, the models show
   * none.
   */
  lemma CollidingModelsHideDrift()
    ensures var captured := [("unknown", 1.0), ("unknown", 1.0)];
            var activity := [("unknown", 1.0)];
            var r := Reconciled(captured, activity, 2.0, 1.0);
            r.driftAbs == 1.0 && r.breakdown == [Line("unknown", 1.0, 1.0, 0.0)]
  {
    var captured := [("unknown", 1.0), ("unknown", 1.0)];
    var activity := [("unknown", 1.0)];
    assert (1000000.0 + 0.5).Floor == 1000000 && (2000000.0 + 0.5).Floor == 2000000 && (0.0 + 0.5).Floor == 0;
    assert SumCosts(captured, 1) == 1.0 && SumCosts(captured, 2) == 2.0 && SumCosts(activity, 1) == 1.0;
    assert Models([], captured, 1) == ["unknown"] && Models([], captured, 2) == ["unknown"];
    assert Models(["unknown"], activity, 1) == ["unknown"];
    assert CostOf(captured, 2, "unknown") == 1.0 && CostOf(activity, 1, "unknown") == 1.0;
  }
}
