/** WeightsMetrics of cvss/common/metrics.go: a metric vector paired with a
    read-only weight table (metric -> value -> weight) that decides which
    pairs may be set. Weights are only stored and looked up, so their type
    is the parameter W. */
module Weighted {
  import opened Vector

  /** The table knows the metric and allows the value for it. */
  ghost predicate Allowed<W>(weights: map<string, map<string, W>>, metric: string, value: string)
  {
    metric in weights && value in weights[metric]
  }

  /** Every stored pair is allowed by the table. */
  ghost predicate Conforms<W>(vals: map<string, string>, weights: map<string, map<string, W>>)
  {
    forall m :: m in vals ==> Allowed(weights, m, vals[m])
  }

  /** The pairs of `ms` whose keys are in `keys`. */
  function Restrict(ms: map<string, string>, keys: set<string>): map<string, string>
  {
    map k | k in keys && k in ms :: ms[k]
  }

  /** Committing one more parsed pair extends the committed part by that pair. */
  lemma RestrictGrow(base: map<string, string>, parsed: map<string, string>, keys: set<string>, k: string)
    requires k in parsed
    ensures (base + Restrict(parsed, keys))[k := parsed[k]] == base + Restrict(parsed, keys + {k})
  {
  }

  class WeightsMetrics<W> {
    const metrics: Metrics
    const weights: map<string, map<string, W>>

    /** The invariant the weight lookups rely on: every stored pair is in the table. */
    ghost predicate Valid()
      reads metrics
    {
      Conforms(metrics.vals, weights)
    }

    /** A vector over `weights` with nothing selected yet. */
    constructor (weights: map<string, map<string, W>>)
      ensures this.weights == weights
      ensures fresh(metrics) && metrics.vals == map[]
      ensures Valid()
    {
      this.weights := weights;
      metrics := new Metrics();
    }

    /** WeightsMetrics.Set: UnknownMetric for a metric the table lacks,
        InvalidValue for a value the table does not list for it, and
        otherwise the pair is stored. */
    method Set(metric: string, value: string) returns (r: Outcome)
      requires Valid()
      modifies metrics
      ensures Valid()
      ensures r == Fail(UnknownMetric) <==> metric !in weights
      ensures r == Fail(InvalidValue) <==> metric in weights && value !in weights[metric]
      ensures r == Pass <==> Allowed(weights, metric, value)
      ensures metrics.vals == if r == Pass then old(metrics.vals)[metric := value] else old(metrics.vals)
    {
      if metric !in weights {
        return Fail(UnknownMetric);
      }
      var values := weights[metric];
      if value !in values {
        return Fail(InvalidValue);
      }
      r := metrics.Set(metric, value);
    }

    /** WeightsMetrics.Parse: strToMetrics first, then every parsed pair is
        committed through Set, in map order, up to the first pair Set
        rejects. `committed` names the pairs stored before the call returned. */
    method Parse(str: string) returns (r: Outcome, ghost committed: set<string>)
      requires Valid()
      modifies metrics
      ensures Valid()
      // a string strToMetrics rejects changes nothing
      ensures Decode(str).Err? ==> r == Fail(Decode(str).error) && metrics.vals == old(metrics.vals)
      // otherwise some of the parsed pairs, and no others, are stored
      ensures Decode(str).Ok? ==>
        && committed <= Decode(str).value.Keys
        && metrics.vals == old(metrics.vals) + Restrict(Decode(str).value, committed)
      // it succeeds exactly when the table allows every parsed pair, and then stores them all
      ensures r == Pass <==> Decode(str).Ok? && Conforms(Decode(str).value, weights)
      ensures r == Pass ==> committed == Decode(str).value.Keys
      ensures r == Pass ==> forall k :: k in Decode(str).value ==> metrics.Get(k) == Ok(Decode(str).value[k])
      // a failure after parsing names a pair the table rejects
      ensures Decode(str).Ok? && r.Fail? ==>
        exists k :: k in Decode(str).value && !Allowed(weights, k, Decode(str).value[k]) &&
          r.error == (if k in weights then InvalidValue else UnknownMetric)
    {
      committed := {};
      var raw := StrToMetrics(str);
      if raw.Err? {
        return Fail(raw.error), committed;
      }
      var parsed := raw.value;
      var rest := parsed.Keys;
      while rest != {}
        invariant rest <= parsed.Keys
        invariant committed == parsed.Keys - rest
        invariant Valid()
        invariant metrics.vals == old(metrics.vals) + Restrict(parsed, committed)
        invariant forall k :: k in committed ==> Allowed(weights, k, parsed[k])
        decreases rest
      {
        var metric :| metric in rest;
        var e := Set(metric, parsed[metric]);
        if e.Fail? {
          r := e;
          return;
        }
        RestrictGrow(old(metrics.vals), parsed, committed, metric);
        committed := committed + {metric};
        rest := rest - {metric};
      }
      assert Restrict(parsed, committed) == parsed;
      r := Pass;
    }

    /** WeightsMetrics.Weight: the table's weight for the selected value, or
        NotFound when the metric is not set. The inner lookup always exists
        because of Valid(). */
    function Weight(metric: string): (r: Result<W>)
      reads metrics
      requires Valid()
      ensures r.Ok? <==> metric in metrics.vals
      ensures r.Ok? ==> r.value == weights[metric][metrics.vals[metric]]
      ensures r.Err? ==> r.error == NotFound
    {
      match metrics.Get(metric)
      case Err(e) => Err(e)
      case Ok(value) => Ok(weights[metric][value])
    }

    /** WeightsMetrics.WeightMust: Weight for a metric the caller knows is set. */
    function WeightMust(metric: string): (w: W)
      reads metrics
      requires Valid()
      requires metric in metrics.vals
      ensures w == weights[metric][metrics.vals[metric]]
    {
      Weight(metric).value
    }

    /** WeightsMetrics.WeightDefault: Weight, or `def` when the metric is not set. */
    function WeightDefault(metric: string, def: W): (w: W)
      reads metrics
      requires Valid()
      ensures metric !in metrics.vals ==> w == def
      ensures metric in metrics.vals ==> w == weights[metric][metrics.vals[metric]]
    {
      match Weight(metric)
      case Ok(w) => w
      case Err(_) => def
    }
  }
}
