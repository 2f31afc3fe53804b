/** scripts/backfill_ai_call_costs.py: preview and UPDATE of missing call costs. */
module CostBackfill {
  import opened Prelude

  /** A row of ai_model_calls; None is NULL. */
  datatype Call = Call(model: string, inputTokens: Option<int>, outputTokens: Option<int>, cost: Option<real>)

  /** Rates in USD per million tokens; model names are unique. */
  datatype Rate = Rate(input: real, output: real)

  type Pricing = map<string, Rate>

  function Coalesce(tokens: Option<int>): int {
    if tokens.Some? then tokens.value else 0
  }

  /** The common WHERE clause of both statements. */
  predicate Selected(only: Option<string>, c: Call) {
    c.cost.None? && c.inputTokens.Some? && (only.None? || only == Some(c.model))
  }

  predicate Updated(pricing: Pricing, only: Option<string>, c: Call) {
    Selected(only, c) && c.model in pricing
  }

  function ExactCost(rate: Rate, input: int, output: int): real {
    (input as real / 1000000.0) * rate.input + (output as real / 1000000.0) * rate.output
  }

  /** NUMERIC(12, 6): six decimals, halves away from zero. */
  function Numeric6(x: real): real {
    if x >= 0.0 then (x * 1000000.0 + 0.5).Floor as real / 1000000.0
    else -((-x * 1000000.0 + 0.5).Floor as real / 1000000.0)
  }

  function Backfilled(pricing: Pricing, only: Option<string>, c: Call): Call {
    if Updated(pricing, only, c)
    then c.(cost := Some(Numeric6(ExactCost(pricing[c.model], Coalesce(c.inputTokens), Coalesce(c.outputTokens)))))
    else c
  }

  /** The UPDATE, row by row over one snapshot. */
  function BackfilledTable(pricing: Pricing, only: Option<string>, calls: seq<Call>): seq<Call> {
    seq(|calls|, i requires 0 <= i < |calls| => Backfilled(pricing, only, calls[i]))
  }

  // ---------------------------------------------------------------------------
  // Sums over the table
  // ---------------------------------------------------------------------------

  /** Rows the UPDATE touches, their exact cost, and what is stored for them. */
  function UpdatedRows(pricing: Pricing, only: Option<string>, calls: seq<Call>): nat {
    if calls == [] then 0
    else (if Updated(pricing, only, calls[0]) then 1 else 0) + UpdatedRows(pricing, only, calls[1..])
  }

  function ExactTotal(pricing: Pricing, only: Option<string>, calls: seq<Call>): real {
    if calls == [] then 0.0
    else (if Updated(pricing, only, calls[0])
          then ExactCost(pricing[calls[0].model], Coalesce(calls[0].inputTokens), Coalesce(calls[0].outputTokens)) else 0.0)
         + ExactTotal(pricing, only, calls[1..])
  }

  function StoredTotal(pricing: Pricing, only: Option<string>, calls: seq<Call>): real {
    if calls == [] then 0.0
    else (if Updated(pricing, only, calls[0]) then Backfilled(pricing, only, calls[0]).cost.value else 0.0)
         + StoredTotal(pricing, only, calls[1..])
  }

  lemma RoundingError(x: real)
    ensures -0.0000005 <= Numeric6(x) - x <= 0.0000005
  {
    var y := if x >= 0.0 then x * 1000000.0 + 0.5 else -x * 1000000.0 + 0.5;
    assert y - 1.0 < y.Floor as real <= y;
  }

  /** What is stored differs from the exact cost by at most half a millionth of a dollar per row. */
  lemma {:induction false} StoredNearExact(pricing: Pricing, only: Option<string>, calls: seq<Call>)
    ensures var slack := UpdatedRows(pricing, only, calls) as real * 0.0000005;
      -slack <= StoredTotal(pricing, only, calls) - ExactTotal(pricing, only, calls) <= slack
  {
    if calls != [] {
      StoredNearExact(pricing, only, calls[1..]);
      if Updated(pricing, only, calls[0]) {
        RoundingError(ExactCost(pricing[calls[0].model], Coalesce(calls[0].inputTokens), Coalesce(calls[0].outputTokens)));
      }
    }
  }

  // ---------------------------------------------------------------------------
  // The grouped preview
  // ---------------------------------------------------------------------------

  /** One row of the summary query. */
  datatype Group = Group(model: string, calls: nat, inputTokens: int, outputTokens: int, rate: Option<Rate>)

  predicate Of(only: Option<string>, m: string, c: Call) {
    Selected(only, c) && c.model == m
  }

  /** count(*) and the two sums for one model. */
  function Summary(only: Option<string>, m: string, calls: seq<Call>): (nat, int, int) {
    if calls == [] then (0, 0, 0)
    else
      var (n, i, o) := Summary(only, m, calls[1..]);
      if Of(only, m, calls[0]) then (n + 1, i + Coalesce(calls[0].inputTokens), o + Coalesce(calls[0].outputTokens))
      else (n, i, o)
  }

  function RateOf(pricing: Pricing, m: string): Option<Rate> {
    if m in pricing then Some(pricing[m]) else None
  }

  /** The groups GROUP BY produces, in any order: one per selected model. */
  ghost predicate IsSummary(pricing: Pricing, only: Option<string>, calls: seq<Call>, groups: seq<Group>) {
    && (forall g, h :: 0 <= g < h < |groups| ==> groups[g].model != groups[h].model)
    && (forall g :: 0 <= g < |groups| ==>
          groups[g].rate == RateOf(pricing, groups[g].model)
          && (groups[g].calls, groups[g].inputTokens, groups[g].outputTokens) == Summary(only, groups[g].model, calls))
    && (forall c :: c in calls && Selected(only, c) ==> exists g :: 0 <= g < |groups| && groups[g].model == c.model)
  }

  function GroupCost(g: Group): real {
    if g.rate.Some? then ExactCost(g.rate.value, g.inputTokens, g.outputTokens) else 0.0
  }

  function GroupTotal(groups: seq<Group>): real {
    if groups == [] then 0.0 else GroupTotal(groups[..|groups| - 1]) + GroupCost(groups[|groups| - 1])
  }

  function GroupCalls(groups: seq<Group>): nat {
    if groups == [] then 0
    else GroupCalls(groups[..|groups| - 1]) + if groups[|groups| - 1].rate.Some? then groups[|groups| - 1].calls else 0
  }

  /** The same sums, restricted to some models. */
  ghost function CostIn(pricing: Pricing, only: Option<string>, calls: seq<Call>, models: set<string>): real {
    if calls == [] then 0.0
    else (if Updated(pricing, only, calls[0]) && calls[0].model in models
          then ExactCost(pricing[calls[0].model], Coalesce(calls[0].inputTokens), Coalesce(calls[0].outputTokens)) else 0.0)
         + CostIn(pricing, only, calls[1..], models)
  }

  ghost function RowsIn(pricing: Pricing, only: Option<string>, calls: seq<Call>, models: set<string>): nat {
    if calls == [] then 0
    else (if Updated(pricing, only, calls[0]) && calls[0].model in models then 1 else 0)
         + RowsIn(pricing, only, calls[1..], models)
  }

  lemma ExactCostAdds(rate: Rate, i: int, o: int, j: int, p: int)
    ensures ExactCost(rate, i + j, o + p) == ExactCost(rate, i, o) + ExactCost(rate, j, p)
  {
    var m := 1000000.0;
    assert (i + j) as real / m == i as real / m + j as real / m;
    assert (o + p) as real / m == o as real / m + p as real / m;
    Distributes(i as real / m, j as real / m, rate.input);
    Distributes(o as real / m, p as real / m, rate.output);
  }

  lemma Distributes(a: real, b: real, r: real)
    ensures (a + b) * r == a * r + b * r
  {
  }

  /** Taking one more model into account adds what that model's group adds up to. */
  lemma {:induction false} OneMoreModel(pricing: Pricing, only: Option<string>, calls: seq<Call>, models: set<string>, m: string)
    requires m !in models
    ensures var (n, i, o) := Summary(only, m, calls);
      && CostIn(pricing, only, calls, models + {m}) ==
           CostIn(pricing, only, calls, models) + (if m in pricing then ExactCost(pricing[m], i, o) else 0.0)
      && RowsIn(pricing, only, calls, models + {m}) ==
           RowsIn(pricing, only, calls, models) + (if m in pricing then n else 0)
  {
    if calls != [] {
      OneMoreModel(pricing, only, calls[1..], models, m);
      if m in pricing && Of(only, m, calls[0]) {
        var (n, i, o) := Summary(only, m, calls[1..]);
        ExactCostAdds(pricing[m], i, o, Coalesce(calls[0].inputTokens), Coalesce(calls[0].outputTokens));
      }
    }
  }

  lemma {:induction false} NoModels(pricing: Pricing, only: Option<string>, calls: seq<Call>)
    ensures CostIn(pricing, only, calls, {}) == 0.0 && RowsIn(pricing, only, calls, {}) == 0
  {
    if calls != [] {
      NoModels(pricing, only, calls[1..]);
    }
  }

  lemma {:induction false} AllModels(pricing: Pricing, only: Option<string>, calls: seq<Call>, models: set<string>)
    requires forall c :: c in calls && Selected(only, c) ==> c.model in models
    ensures CostIn(pricing, only, calls, models) == ExactTotal(pricing, only, calls)
    ensures RowsIn(pricing, only, calls, models) == UpdatedRows(pricing, only, calls)
  {
    if calls != [] {
      assert calls[0] in calls;
      AllModels(pricing, only, calls[1..], models);
    }
  }

  function Models(groups: seq<Group>): set<string> {
    set g | 0 <= g < |groups| :: groups[g].model
  }

  lemma {:induction false} GroupsCover(pricing: Pricing, only: Option<string>, calls: seq<Call>, groups: seq<Group>)
    requires forall g, h :: 0 <= g < h < |groups| ==> groups[g].model != groups[h].model
    requires forall g :: 0 <= g < |groups| ==>
      groups[g].rate == RateOf(pricing, groups[g].model)
      && (groups[g].calls, groups[g].inputTokens, groups[g].outputTokens) == Summary(only, groups[g].model, calls)
    ensures GroupTotal(groups) == CostIn(pricing, only, calls, Models(groups))
    ensures GroupCalls(groups) == RowsIn(pricing, only, calls, Models(groups))
  {
    if groups == [] {
      assert Models(groups) == {};
      NoModels(pricing, only, calls);
    } else {
      var init, last := groups[..|groups| - 1], groups[|groups| - 1];
      GroupsCover(pricing, only, calls, init);
      assert Models(groups) == Models(init) + {last.model} by {
        assert forall g :: 0 <= g < |init| ==> init[g] == groups[g];
      }
      OneMoreModel(pricing, only, calls, Models(init), last.model);
    }
  }

  /** The preview's total is the exact cost of the rows the UPDATE will touch, and its count is
      their number, however the rows are grouped. */
  lemma PreviewIsExact(pricing: Pricing, only: Option<string>, calls: seq<Call>, groups: seq<Group>)
    requires IsSummary(pricing, only, calls, groups)
    ensures GroupTotal(groups) == ExactTotal(pricing, only, calls)
    ensures GroupCalls(groups) == UpdatedRows(pricing, only, calls)
  {
    GroupsCover(pricing, only, calls, groups);
    forall c | c in calls && Selected(only, c) ensures c.model in Models(groups) {
      var g :| 0 <= g < |groups| && groups[g].model == c.model;
    }
    AllModels(pricing, only, calls, Models(groups));
  }

  lemma RestOfTable(pricing: Pricing, only: Option<string>, calls: seq<Call>)
    requires calls != []
    ensures BackfilledTable(pricing, only, calls)[1..] == BackfilledTable(pricing, only, calls[1..])
  {
    var after, rest := BackfilledTable(pricing, only, calls), BackfilledTable(pricing, only, calls[1..]);
    assert |after[1..]| == |rest|;
    assert forall i :: 0 <= i < |rest| ==> after[1..][i] == rest[i];
  }

  /** A second run finds nothing left to price, and priced rows are never rewritten. */
  lemma {:induction false} SecondRunUpdatesNothing(pricing: Pricing, only: Option<string>, calls: seq<Call>)
    ensures var after := BackfilledTable(pricing, only, calls);
      && UpdatedRows(pricing, only, after) == 0
      && BackfilledTable(pricing, only, after) == after
      && forall i :: 0 <= i < |calls| && calls[i].cost.Some? ==> after[i] == calls[i]
  {
    if calls != [] {
      var after := BackfilledTable(pricing, only, calls);
      SecondRunUpdatesNothing(pricing, only, calls[1..]);
      RestOfTable(pricing, only, calls);
    }
  }

  lemma ScaledProduct(tokens: int, rate: real)
    ensures (tokens as real / 1000000.0) * rate == (tokens as real * rate) / 1000000.0
  {
    var share := tokens as real / 1000000.0;
    assert share * 1000000.0 == tokens as real;
    assert (share * rate) * 1000000.0 == tokens as real * rate;
  }

  /** A rate is charged per million tokens, the input rate for input, the output rate for output. */
  lemma PerMillionTokens(rate: Rate, input: int, output: int)
    ensures ExactCost(rate, input, output) == (input as real * rate.input + output as real * rate.output) / 1000000.0
  {
    ScaledProduct(input, rate.input);
    ScaledProduct(output, rate.output);
  }

  /** n millionths of a dollar. */
  function Micros(n: int): real {
    n as real / 1000000.0
  }

  /** `after` is `before` with the price of its tokens, to six decimals; missing output tokens count
      as none. */
  ghost predicate PricedAt(rate: Rate, before: Call, after: Call)
    requires before.inputTokens.Some?
  {
    var output := if before.outputTokens == None then 0 else before.outputTokens.value;
    var dollars := (before.inputTokens.value as real * rate.input + output as real * rate.output) / 1000000.0;
    && after.cost.Some? && after == before.(cost := after.cost)
    && -0.0000005 <= after.cost.value - dollars <= 0.0000005
    && exists n: int :: after.cost.value == Micros(n)
  }

  /** What the UPDATE does to one row, column by column.  A row without a cost, with its input tokens
      recorded, of the chosen model if one was chosen, and of a model with a rate, gets its price; all
      other rows stay. */
  lemma RowIsPriced(pricing: Pricing, only: Option<string>, calls: seq<Call>, i: nat)
    requires i < |calls|
    ensures var before, after := calls[i], BackfilledTable(pricing, only, calls)[i];
      if before.cost == None && before.inputTokens.Some? && before.model in pricing && (only == None || only == Some(before.model))
      then PricedAt(pricing[before.model], before, after)
      else after == before
  {
    if Updated(pricing, only, calls[i]) {
      PriceOf(pricing[calls[i].model], calls[i]);
    }
  }

  lemma PriceOf(rate: Rate, call: Call)
    requires call.inputTokens.Some?
    ensures PricedAt(rate, call, call.(cost := Some(Numeric6(ExactCost(rate, Coalesce(call.inputTokens), Coalesce(call.outputTokens))))))
  {
    var dollars := ExactCost(rate, Coalesce(call.inputTokens), Coalesce(call.outputTokens));
    PerMillionTokens(rate, Coalesce(call.inputTokens), Coalesce(call.outputTokens));
    RoundingError(dollars);
    var n := SixDecimals(dollars);
  }

  lemma SixDecimals(x: real) returns (n: int)
    ensures Numeric6(x) == Micros(n)
  {
    n := if x >= 0.0 then (x * 1000000.0 + 0.5).Floor else -(-x * 1000000.0 + 0.5).Floor;
  }

  class CallTable {
    var calls: seq<Call>

    /** The body of `main`, given what the summary query returned: the announced total and count, then the
        UPDATE unless this is a dry run. */
    method Backfill(pricing: Pricing, only: Option<string>, dryRun: bool, groups: seq<Group>)
        returns (pricedTotal: real, pricedCalls: nat, unpriced: seq<(string, nat)>)
      requires IsSummary(pricing, only, calls, groups)
      modifies this
      ensures pricedTotal == ExactTotal(pricing, only, old(calls))
      ensures pricedCalls == UpdatedRows(pricing, only, old(calls))
      ensures forall g :: g in groups ==> (g.rate.None? <==> (g.model, g.calls) in unpriced)
      ensures forall u :: u in unpriced ==> exists g :: g in groups && g.rate.None? && u == (g.model, g.calls)
      ensures calls == if dryRun || groups == [] then old(calls) else BackfilledTable(pricing, only, old(calls))
    {
      PreviewIsExact(pricing, only, calls, groups);
      pricedTotal, pricedCalls, unpriced := 0.0, 0, [];
      if groups == [] {
        return;
      }
      for g := 0 to |groups|
        invariant calls == old(calls)
        invariant pricedTotal == GroupTotal(groups[..g]) && pricedCalls == GroupCalls(groups[..g])
        invariant forall k :: 0 <= k < g ==> (groups[k].rate.None? <==> (groups[k].model, groups[k].calls) in unpriced)
        invariant forall u :: u in unpriced ==>
          exists k :: 0 <= k < g && groups[k].rate.None? && u == (groups[k].model, groups[k].calls)
      {
        assert groups[..g + 1][..g] == groups[..g];
        if groups[g].rate.None? {
          unpriced := unpriced + [(groups[g].model, groups[g].calls)];
        } else {
          pricedTotal := pricedTotal + ExactCost(groups[g].rate.value, groups[g].inputTokens, groups[g].outputTokens);
          pricedCalls := pricedCalls + groups[g].calls;
        }
      }
      assert groups[..|groups|] == groups;
      if !dryRun {
        calls := BackfilledTable(pricing, only, calls);
      }
    }
  }
}
