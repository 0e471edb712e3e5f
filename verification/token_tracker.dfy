/** The usage ledger of src/token_tracker.py. Every recorded call is billed
    from a pricing map and added to three aggregates (lifetime, per model, per
    calendar day) and to the session history. The ledger is an immutable
    value; the JSON files it is loaded from and saved to, and the clock, are
    not part of the model (the date and timestamp are parameters). Costs are
    exact rationals. */
module TokenTracker {
  import opened Wrappers

  /** The model whose rates bill a model missing from the pricing map. */
  const FallbackModel: string := "gpt-4o-mini"

  /** Prices are per this many tokens. */
  const TokensPerPriceUnit: real := 1000000.0

  /** Per-model prices, in dollars per million input / output tokens. */
  datatype Rate = Rate(input: real, output: real)

  type Pricing = map<string, Rate>

  /** The rates used when neither the model nor the fallback model is priced. */
  const HardCodedRate: Rate := Rate(0.165, 0.66)

  /** The pricing configuration written when none exists yet. */
  const DefaultPricing: Pricing := map[
    "o3-mini" := Rate(1.21, 4.84),
    "gpt-4o-mini" := Rate(0.165, 0.66),
    "gpt-4o" := Rate(2.75, 11.00),
    "gpt-35-turbo-16k" := Rate(3.00, 4.00),
    "Mistral-Small" := Rate(1.00, 3.00),
    "Meta-Llama-3-1-8B-Instruct" := Rate(3.000, 0.61),
    "Meta-Llama-3-1-70B-Instruct" := Rate(2.68, 3.54)
  ]

  /** Token and cost totals, as kept for the lifetime total and for each day. */
  datatype Totals = Totals(tokens: int, inputTokens: int, outputTokens: int, cost: real)

  const NoUsage: Totals := Totals(0, 0, 0, 0.0)

  function Plus(a: Totals, b: Totals): Totals {
    Totals(a.tokens + b.tokens, a.inputTokens + b.inputTokens,
           a.outputTokens + b.outputTokens, a.cost + b.cost)
  }

  /** `UsageStats`: totals plus the number of calls, as kept for each model. */
  datatype UsageStats = UsageStats(totals: Totals, callCount: int)

  const NoCalls: UsageStats := UsageStats(NoUsage, 0)

  /** `UsageStats.add_usage`: one call's tokens and cost, and one more call. */
  function AddUsage(s: UsageStats, promptTokens: int, completionTokens: int,
                    totalTokens: int, cost: real): (r: UsageStats)
    ensures r.totals.tokens - s.totals.tokens == totalTokens
    ensures r.totals.inputTokens - s.totals.inputTokens == promptTokens
    ensures r.totals.outputTokens - s.totals.outputTokens == completionTokens
    ensures r.totals.cost - s.totals.cost == cost
    ensures r.callCount == s.callCount + 1
  {
    UsageStats(Plus(s.totals, Totals(totalTokens, promptTokens, completionTokens, cost)),
               s.callCount + 1)
  }

  /** Statistics do not depend on the order in which calls are added. */
  lemma AddUsageOrderIndependent(s: UsageStats, p1: int, c1: int, t1: int, k1: real,
                                 p2: int, c2: int, t2: int, k2: real)
    ensures AddUsage(AddUsage(s, p1, c1, t1, k1), p2, c2, t2, k2)
         == AddUsage(AddUsage(s, p2, c2, t2, k2), p1, c1, t1, k1)
  {
  }

  /** `TokenUsage`: the record of one call. */
  datatype TokenUsage = TokenUsage(model: string, promptTokens: int, completionTokens: int,
                                   totalTokens: int, timestamp: string,
                                   inputCost: real, outputCost: real, totalCost: real)

  /** What one call adds to a `Totals`. */
  function UsageTotals(u: TokenUsage): Totals {
    Totals(u.totalTokens, u.promptTokens, u.completionTokens, u.totalCost)
  }

  /** The persisted ledger: lifetime totals, per-model statistics, per-day
      totals (keyed by `YYYY-MM-DD`) and the session history. */
  datatype Ledger = Ledger(total: Totals, models: map<string, UsageStats>,
                           daily: map<string, Totals>, history: seq<TokenUsage>)

  /** The ledger `_load_usage_data` starts from when no file exists. */
  const FreshLedger: Ledger := Ledger(NoUsage, map[], map[], [])

  // ---------------------------------------------------------------------------
  // Pricing

  /** The rates a model is billed at: its own, else the fallback model's, else
      the hard-coded rates. Lookup never fails. */
  function RateFor(pricing: Pricing, model: string): (r: Rate)
    ensures model in pricing ==> r == pricing[model]
    ensures model !in pricing && FallbackModel in pricing ==> r == pricing[FallbackModel]
    ensures model !in pricing && FallbackModel !in pricing ==> r == HardCodedRate
  {
    if model in pricing then pricing[model]
    else if FallbackModel in pricing then pricing[FallbackModel]
    else HardCodedRate
  }

  datatype Costs = Costs(input: real, output: real, total: real)

  /** `_calculate_costs`: input and output cost at the model's rates per
      million tokens; the total is their sum. */
  function CalculateCosts(pricing: Pricing, model: string, promptTokens: int,
                          completionTokens: int): (c: Costs)
    ensures c.input * TokensPerPriceUnit == promptTokens as real * RateFor(pricing, model).input
    ensures c.output * TokensPerPriceUnit == completionTokens as real * RateFor(pricing, model).output
    ensures c.total == c.input + c.output
  {
    var rate := RateFor(pricing, model);
    var input := (promptTokens as real / TokensPerPriceUnit) * rate.input;
    var output := (completionTokens as real / TokensPerPriceUnit) * rate.output;
    Costs(input, output, input + output)
  }

  /** A model missing from the pricing map is billed exactly like the fallback model. */
  lemma UnknownModelBilledAsFallback(pricing: Pricing, model: string, promptTokens: int,
                                     completionTokens: int)
    requires model !in pricing
    ensures CalculateCosts(pricing, model, promptTokens, completionTokens)
         == CalculateCosts(pricing, FallbackModel, promptTokens, completionTokens)
  {
  }

  /** Billing is additive: two calls cost what one call with their summed tokens costs. */
  lemma CostsAreAdditive(pricing: Pricing, model: string, p1: int, c1: int, p2: int, c2: int)
    ensures CalculateCosts(pricing, model, p1 + p2, c1 + c2).total
         == CalculateCosts(pricing, model, p1, c1).total + CalculateCosts(pricing, model, p2, c2).total
  {
  }

  /** `update_pricing`: the model gets the new rates; every other entry stays. */
  function UpdatePricing(pricing: Pricing, model: string, inputPrice: real, outputPrice: real): (r: Pricing)
    ensures r.Keys == pricing.Keys + {model}
    ensures r[model] == Rate(inputPrice, outputPrice)
    ensures forall m :: m in pricing && m != model ==> r[m] == pricing[m]
  {
    pricing[model := Rate(inputPrice, outputPrice)]
  }

  /** A pricing update takes effect on the very next call for that model, and
      changes no other model's bill unless the updated model is the fallback
      and the other model is unpriced. */
  lemma UpdatePricingEffect(pricing: Pricing, model: string, inputPrice: real, outputPrice: real,
                            other: string, promptTokens: int, completionTokens: int)
    ensures var p' := UpdatePricing(pricing, model, inputPrice, outputPrice);
      CalculateCosts(p', model, promptTokens, completionTokens).input * TokensPerPriceUnit
        == promptTokens as real * inputPrice
    ensures other != model && (other in pricing || model != FallbackModel) ==>
      CalculateCosts(UpdatePricing(pricing, model, inputPrice, outputPrice), other, promptTokens, completionTokens)
        == CalculateCosts(pricing, other, promptTokens, completionTokens)
  {
  }

  // ---------------------------------------------------------------------------
  // Recording

  datatype Recorded = Recorded(ledger: Ledger, usage: TokenUsage)

  /** `record_usage`: bill the call, raise the lifetime totals, the model's
      statistics (created empty first) and the day's totals (created empty
      first) by it, and append its record to the history. */
  function RecordUsage(l: Ledger, pricing: Pricing, model: string, promptTokens: int,
                       completionTokens: int, totalTokens: int,
                       timestamp: string, date: string): (r: Recorded)
    ensures r.usage.model == model && r.usage.timestamp == timestamp
    ensures r.usage.totalTokens == totalTokens && r.usage.promptTokens == promptTokens
    ensures r.usage.completionTokens == completionTokens
    ensures Costs(r.usage.inputCost, r.usage.outputCost, r.usage.totalCost)
         == CalculateCosts(pricing, model, promptTokens, completionTokens)
    ensures r.ledger.total == Plus(l.total, UsageTotals(r.usage))
    ensures r.ledger.models.Keys == l.models.Keys + {model}
    ensures r.ledger.models[model]
         == AddUsage(if model in l.models then l.models[model] else NoCalls,
                     promptTokens, completionTokens, totalTokens, r.usage.totalCost)
    ensures forall m :: m in l.models && m != model ==> r.ledger.models[m] == l.models[m]
    ensures r.ledger.daily.Keys == l.daily.Keys + {date}
    ensures r.ledger.daily[date]
         == Plus(if date in l.daily then l.daily[date] else NoUsage, UsageTotals(r.usage))
    ensures forall d :: d in l.daily && d != date ==> r.ledger.daily[d] == l.daily[d]
    ensures r.ledger.history == l.history + [r.usage]
  {
    var costs := CalculateCosts(pricing, model, promptTokens, completionTokens);
    var usage := TokenUsage(model, promptTokens, completionTokens, totalTokens, timestamp,
                            costs.input, costs.output, costs.total);
    var modelStats := if model in l.models then l.models[model] else NoCalls;
    var day := if date in l.daily then l.daily[date] else NoUsage;
    var ledger := Ledger(
      Plus(l.total, UsageTotals(usage)),
      l.models[model := AddUsage(modelStats, promptTokens, completionTokens, totalTokens, costs.total)],
      l.daily[date := Plus(day, UsageTotals(usage))],
      l.history + [usage]);
    Recorded(ledger, usage)
  }

  // ---------------------------------------------------------------------------
  // Queries

  /** `get_daily_usage`: the day's totals, all-zero for a day without usage;
      no date means today, which the caller supplies. */
  function GetDailyUsage(l: Ledger, date: Option<string>, today: string): (t: Totals)
    ensures var d := if date.Some? then date.value else today;
      && (d !in l.daily ==> t == NoUsage)
      && (d in l.daily ==> t == l.daily[d])
  {
    var d := if date.None? then today else date.value;
    if d in l.daily then l.daily[d] else NoUsage
  }

  /** After a call is recorded on `date`, that day's usage grows by the call
      and every other day reads as before. */
  lemma DailyUsageAfterRecord(l: Ledger, pricing: Pricing, model: string, promptTokens: int,
                              completionTokens: int, totalTokens: int,
                              timestamp: string, date: string, other: string)
    ensures var r := RecordUsage(l, pricing, model, promptTokens, completionTokens, totalTokens, timestamp, date);
      && GetDailyUsage(r.ledger, None, date) == Plus(GetDailyUsage(l, None, date), UsageTotals(r.usage))
      && (other != date ==> GetDailyUsage(r.ledger, Some(other), date) == GetDailyUsage(l, Some(other), date))
  {
  }

  datatype Summary = Summary(total: Totals, modelBreakdown: map<string, UsageStats>,
                             recentSessions: seq<TokenUsage>)

  /** How many sessions the summary lists. */
  const RecentSessionCount: nat := 10

  /** `get_usage_summary`: the lifetime totals, the per-model breakdown and
      the last ten records of the history, oldest first. */
  function GetUsageSummary(l: Ledger): (s: Summary)
    ensures s.total == l.total && s.modelBreakdown == l.models
    ensures |s.recentSessions| == if |l.history| < RecentSessionCount then |l.history| else RecentSessionCount
    ensures s.recentSessions == l.history[|l.history| - |s.recentSessions|..]
  {
    var h := l.history;
    Summary(l.total, l.models,
            if |h| <= RecentSessionCount then h else h[|h| - RecentSessionCount..])
  }

  // ---------------------------------------------------------------------------
  // Conservation: lifetime = sum over models = sum over days = sum of history

  /** Some key of a non-empty map. */
  ghost function Pick<K, V>(m: map<K, V>): (k: K)
    requires |m| > 0
    ensures k in m
  {
    assert exists k :: k in m by {
      assert |m.Keys| > 0;
    }
    var k :| k in m; k
  }

  ghost function SumTotals<K>(m: map<K, Totals>): Totals
    decreases |m|
  {
    if |m| == 0 then NoUsage
    else
      var k := Pick(m);
      Plus(SumTotals(m - {k}), m[k])
  }

  ghost function SumCalls<K>(m: map<K, UsageStats>): int
    decreases |m|
  {
    if |m| == 0 then 0
    else
      var k := Pick(m);
      SumCalls(m - {k}) + m[k].callCount
  }

  function ModelTotals(models: map<string, UsageStats>): map<string, Totals> {
    map m | m in models :: models[m].totals
  }

  function HistoryTotals(h: seq<TokenUsage>): Totals {
    if |h| == 0 then NoUsage else Plus(HistoryTotals(h[..|h| - 1]), UsageTotals(h[|h| - 1]))
  }

  /** The conservation invariant of the ledger. */
  ghost predicate Consistent(l: Ledger) {
    && l.total == SumTotals(l.daily)
    && l.total == SumTotals(ModelTotals(l.models))
    && l.total == HistoryTotals(l.history)
    && SumCalls(l.models) == |l.history|
  }

  /** Any key may be taken out first: the sum does not depend on the choice. */
  lemma {:induction false} SumTotalsRemove<K>(m: map<K, Totals>, k: K)
    requires k in m
    ensures SumTotals(m) == Plus(SumTotals(m - {k}), m[k])
    decreases |m|
  {
    var j := Pick(m);
    if j != k {
      var mj := m - {j};
      var mk := m - {k};
      assert |mj| < |m| && |mk| < |m| by {
        assert mj.Keys == m.Keys - {j};
        assert mk.Keys == m.Keys - {k};
      }
      var rest := mj - {k};
      assert rest == mk - {j};
      calc {
        SumTotals(m);
        Plus(SumTotals(mj), m[j]);
        { SumTotalsRemove(mj, k); }
        Plus(Plus(SumTotals(rest), m[k]), m[j]);
        Plus(Plus(SumTotals(rest), m[j]), m[k]);
        { SumTotalsRemove(mk, j); }
        Plus(SumTotals(mk), m[k]);
      }
    }
  }

  lemma {:induction false} SumCallsRemove<K>(m: map<K, UsageStats>, k: K)
    requires k in m
    ensures SumCalls(m) == SumCalls(m - {k}) + m[k].callCount
    decreases |m|
  {
    var j := Pick(m);
    if j != k {
      var mj := m - {j};
      var mk := m - {k};
      assert |mj| < |m| && |mk| < |m| by {
        assert mj.Keys == m.Keys - {j};
        assert mk.Keys == m.Keys - {k};
      }
      var rest := mj - {k};
      assert rest == mk - {j};
      calc {
        SumCalls(m);
        SumCalls(mj) + m[j].callCount;
        { SumCallsRemove(mj, k); }
        SumCalls(rest) + m[k].callCount + m[j].callCount;
        { SumCallsRemove(mk, j); }
        SumCalls(mk) + m[k].callCount;
      }
    }
  }

  /** Adding `v` to the entry at `k` (created empty if absent) adds `v` to the sum. */
  lemma SumTotalsBump<K>(m: map<K, Totals>, k: K, v: Totals)
    ensures SumTotals(m[k := Plus(if k in m then m[k] else NoUsage, v)]) == Plus(SumTotals(m), v)
  {
    if k in m {
      SumTotalsBumpPresent(m, k, v);
    } else {
      SumTotalsInsert(m, k, Plus(NoUsage, v));
      assert Plus(NoUsage, v) == v;
    }
  }

  lemma SumTotalsBumpPresent<K>(m: map<K, Totals>, k: K, v: Totals)
    requires k in m
    ensures SumTotals(m[k := Plus(m[k], v)]) == Plus(SumTotals(m), v)
  {
    var m' := m[k := Plus(m[k], v)];
    SumTotalsRemove(m', k);
    UpdateThenRemove(m, k, Plus(m[k], v));
    SumTotalsRemove(m, k);
    PlusAssociates(SumTotals(m - {k}), m[k], v);
  }

  lemma SumTotalsInsert<K>(m: map<K, Totals>, k: K, x: Totals)
    requires k !in m
    ensures SumTotals(m[k := x]) == Plus(SumTotals(m), x)
  {
    SumTotalsRemove(m[k := x], k);
    UpdateThenRemove(m, k, x);
    assert m - {k} == m;
  }

  lemma PlusAssociates(a: Totals, b: Totals, c: Totals)
    ensures Plus(a, Plus(b, c)) == Plus(Plus(a, b), c)
  {
  }

  lemma UpdateThenRemove<K, V>(m: map<K, V>, k: K, x: V)
    ensures m[k := x] - {k} == m - {k}
  {
  }

  lemma SumCallsBump<K>(m: map<K, UsageStats>, k: K, s: UsageStats)
    requires s.callCount == (if k in m then m[k].callCount else 0) + 1
    ensures SumCalls(m[k := s]) == SumCalls(m) + 1
  {
    var m' := m[k := s];
    SumCallsRemove(m', k);
    UpdateThenRemove(m, k, s);
    if k in m {
      SumCallsRemove(m, k);
    } else {
      assert m - {k} == m;
    }
  }

  /** The fresh ledger is consistent. */
  lemma FreshLedgerConsistent()
    ensures Consistent(FreshLedger)
  {
    assert |ModelTotals(map[])| == 0;
  }

  lemma DailySumAfterRecord(l: Ledger, pricing: Pricing, model: string,
                             promptTokens: int, completionTokens: int, totalTokens: int,
                             timestamp: string, date: string)
    ensures var r := RecordUsage(l, pricing, model, promptTokens, completionTokens, totalTokens, timestamp, date);
      SumTotals(r.ledger.daily) == Plus(SumTotals(l.daily), UsageTotals(r.usage))
  {
    var r := RecordUsage(l, pricing, model, promptTokens, completionTokens, totalTokens, timestamp, date);
    var v := UsageTotals(r.usage);
    SumTotalsBump(l.daily, date, v);
    assert r.ledger.daily == l.daily[date := Plus(if date in l.daily then l.daily[date] else NoUsage, v)];
  }

  lemma ModelTotalsUpdate(models: map<string, UsageStats>, k: string, st: UsageStats)
    ensures ModelTotals(models[k := st]) == ModelTotals(models)[k := st.totals]
  {
  }

  lemma ModelSumAfterRecord(l: Ledger, pricing: Pricing, model: string,
                            promptTokens: int, completionTokens: int, totalTokens: int,
                            timestamp: string, date: string)
    ensures var r := RecordUsage(l, pricing, model, promptTokens, completionTokens, totalTokens, timestamp, date);
      SumTotals(ModelTotals(r.ledger.models)) == Plus(SumTotals(ModelTotals(l.models)), UsageTotals(r.usage))
  {
    var r := RecordUsage(l, pricing, model, promptTokens, completionTokens, totalTokens, timestamp, date);
    var v := UsageTotals(r.usage);
    var mt := ModelTotals(l.models);
    var st := r.ledger.models[model];
    assert r.ledger.models == l.models[model := st];
    ModelTotalsUpdate(l.models, model, st);
    assert st.totals == Plus(if model in mt then mt[model] else NoUsage, v);
    SumTotalsBump(mt, model, v);
  }

  lemma CallSumAfterRecord(l: Ledger, pricing: Pricing, model: string,
                           promptTokens: int, completionTokens: int, totalTokens: int,
                           timestamp: string, date: string)
    ensures var r := RecordUsage(l, pricing, model, promptTokens, completionTokens, totalTokens, timestamp, date);
      SumCalls(r.ledger.models) == SumCalls(l.models) + 1
  {
    var r := RecordUsage(l, pricing, model, promptTokens, completionTokens, totalTokens, timestamp, date);
    var st := r.ledger.models[model];
    assert r.ledger.models == l.models[model := st];
    SumCallsBump(l.models, model, st);
  }

  /** `record_usage` keeps the ledger consistent: lifetime totals remain the
      sum over models, the sum over days and the sum of the history, and the
      models' call counts add up to the history's length. */
  lemma RecordUsagePreservesConsistency(l: Ledger, pricing: Pricing, model: string,
                                        promptTokens: int, completionTokens: int, totalTokens: int,
                                        timestamp: string, date: string)
    requires Consistent(l)
    ensures Consistent(RecordUsage(l, pricing, model, promptTokens, completionTokens,
                                   totalTokens, timestamp, date).ledger)
  {
    var r := RecordUsage(l, pricing, model, promptTokens, completionTokens, totalTokens, timestamp, date);
    DailySumAfterRecord(l, pricing, model, promptTokens, completionTokens, totalTokens, timestamp, date);
    ModelSumAfterRecord(l, pricing, model, promptTokens, completionTokens, totalTokens, timestamp, date);
    CallSumAfterRecord(l, pricing, model, promptTokens, completionTokens, totalTokens, timestamp, date);
    var h := r.ledger.history;
    assert h[..|h| - 1] == l.history;
    assert HistoryTotals(h) == Plus(l.total, UsageTotals(r.usage));
  }

  /** Recording a sequence of calls, all on one day and one model. */
  function RecordAll(l: Ledger, pricing: Pricing, model: string, calls: seq<(int, int)>,
                     timestamp: string, date: string): Ledger
    decreases |calls|
  {
    if |calls| == 0 then l
    else
      var (p, c) := calls[0];
      RecordAll(RecordUsage(l, pricing, model, p, c, p + c, timestamp, date).ledger,
                pricing, model, calls[1..], timestamp, date)
  }

  /** Three `gpt-4o` calls at the default prices, 100+50, 200+100 and 50+25
      tokens: 525 tokens in all, costing 350 input tokens at 2.75 plus 175
      output tokens at 11.00 per million, i.e. 0.0028875 dollars. */
  lemma ThreeCallScenario()
    ensures var l := RecordAll(FreshLedger, DefaultPricing, "gpt-4o",
                               [(100, 50), (200, 100), (50, 25)], "t", "2025-01-01");
      && l.total.tokens == 525
      && l.total.cost == 0.0028875
      && l.models["gpt-4o"].callCount == 3
      && GetDailyUsage(l, Some("2025-01-01"), "2025-01-02").tokens == 525
  {
    var l0 := FreshLedger;
    var l1 := RecordUsage(l0, DefaultPricing, "gpt-4o", 100, 50, 150, "t", "2025-01-01").ledger;
    var l2 := RecordUsage(l1, DefaultPricing, "gpt-4o", 200, 100, 300, "t", "2025-01-01").ledger;
    var l3 := RecordUsage(l2, DefaultPricing, "gpt-4o", 50, 25, 75, "t", "2025-01-01").ledger;
    var calls: seq<(int, int)> := [(100, 50), (200, 100), (50, 25)];
    assert calls[1..] == [(200, 100), (50, 25)];
    assert calls[1..][1..] == [(50, 25)];
    assert |calls[1..][1..][1..]| == 0;
    assert RecordAll(FreshLedger, DefaultPricing, "gpt-4o", calls, "t", "2025-01-01") == l3;
    assert "gpt-4o" in DefaultPricing;
  }
}
