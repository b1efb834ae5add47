/** The plain metric vector of cvss/common/metrics.go: a map from metric name
    to value, its `m:v/m:v` serialisation and the raw parser strToMetrics. */
module Vector {
  import opened Strings

  const PartSeparator: char := '/'
  const MetricSeparator: char := ':'

  /** The kinds of error the vector engine reports; the message text is not modelled. */
  datatype Error =
    | NotFound         // Get of a metric that is not set
    | MalformedToken   // a `/`-token that does not split on `:` into two pieces
    | DuplicateMetric  // the same metric name in two tokens of one string
    | UnknownMetric    // a metric the weight table does not know
    | InvalidValue     // a value the weight table does not allow for its metric

  datatype Result<T> = Ok(value: T) | Err(error: Error)

  /** The `error` return of a Go function that returns nothing else. */
  datatype Outcome = Pass | Fail(error: Error)

  /** The token String writes for one pair. */
  function Token(metric: string, value: string): (t: string)
    ensures |t| == |metric| + 1 + |value|
    ensures t[..|metric|] == metric && t[|metric|] == MetricSeparator && t[|metric| + 1..] == value
  {
    metric + [MetricSeparator] + value
  }

  /** The tokens of `ms` in the order `order` visits its keys. */
  function Tokens(ms: map<string, string>, order: seq<string>): seq<string>
    requires forall i :: 0 <= i < |order| ==> order[i] in ms
  {
    seq(|order|, i requires 0 <= i < |order| => Token(order[i], ms[order[i]]))
  }

  /** `order` lists every key of `keys` exactly once: one possible iteration
      order of a Go map with those keys. */
  ghost predicate IsOrdering(order: seq<string>, keys: set<string>)
  {
    && (forall i, j :: 0 <= i < j < |order| ==> order[i] != order[j])
    && (forall i :: 0 <= i < |order| ==> order[i] in keys)
    && (forall k :: k in keys ==> k in order)
  }

  /** A name or value that contains neither separator. */
  ghost predicate Clean(s: string)
  {
    PartSeparator !in s && MetricSeparator !in s
  }

  /** Every key and value of `ms` is clean. */
  ghost predicate CleanMap(ms: map<string, string>)
  {
    forall k :: k in ms ==> Clean(k) && Clean(ms[k])
  }

  /** The Go type Metrics: one mutable map, shared by everyone who holds it. */
  class Metrics {
    var vals: map<string, string>

    constructor ()
      ensures vals == map[]
    {
      vals := map[];
    }

    /** Metrics.Get: the stored value, or NotFound for a metric never set. */
    function Get(m: string): (r: Result<string>)
      reads this
      ensures r.Ok? <==> m in vals
      ensures r.Ok? ==> r.value == vals[m]
      ensures r.Err? ==> r.error == NotFound
    {
      if m in vals then Ok(vals[m]) else Err(NotFound)
    }

    /** Metrics.Set: overwrites unconditionally and never fails. */
    method Set(metric: string, value: string) returns (r: Outcome)
      modifies this
      ensures r == Pass
      ensures vals == old(vals)[metric := value]
    {
      vals := vals[metric := value];
      r := Pass;
    }

    /** Metrics.String: one `m:v` token per pair, joined by `/`, in whatever
        order the map is visited. For a non-empty map with clean keys and
        values, strToMetrics reads the result back as the same map. */
    method String() returns (s: string)
      ensures exists order :: IsOrdering(order, vals.Keys) && s == Join(Tokens(vals, order), PartSeparator)
      ensures vals == map[] ==> s == ""
      ensures vals != map[] && CleanMap(vals) ==> Decode(s) == Ok(vals)
    {
      var parts: seq<string> := [];
      var rest := vals.Keys;
      ghost var order: seq<string> := [];
      while rest != {}
        invariant rest <= vals.Keys
        invariant IsOrdering(order, vals.Keys - rest)
        invariant parts == Tokens(vals, order)
        decreases rest
      {
        var metric :| metric in rest;
        parts := parts + [Token(metric, vals[metric])];
        order := order + [metric];
        rest := rest - {metric};
      }
      s := Join(parts, PartSeparator);
      if vals != map[] && CleanMap(vals) {
        RoundTrip(vals, order);
      }
    }
  }

  /** A token that splits on `:` into exactly two pieces. */
  predicate TokenOk(t: string)
  {
    |Split(t, MetricSeparator)| == 2
  }

  function Name(t: string): string
    requires TokenOk(t)
  {
    Split(t, MetricSeparator)[0]
  }

  function Value(t: string): string
    requires TokenOk(t)
  {
    Split(t, MetricSeparator)[1]
  }

  /** What the loop of strToMetrics computes from the tokens it is given:
      the map it builds, or the first error it returns early with. */
  function Collect(tokens: seq<string>): Result<map<string, string>>
  {
    if tokens == [] then Ok(map[])
    else
      match Collect(tokens[..|tokens| - 1])
      case Err(e) => Err(e)
      case Ok(m) =>
        var t := tokens[|tokens| - 1];
        if !TokenOk(t) then Err(MalformedToken)
        else if Name(t) in m then Err(DuplicateMetric)
        else Ok(m[Name(t) := Value(t)])
  }

  /** The value strToMetrics returns for `str`. */
  function Decode(str: string): Result<map<string, string>>
  {
    Collect(Split(str, PartSeparator))
  }

  /** strToMetrics: parse `A:B/C:D` into map{A:B, C:D}. */
  method StrToMetrics(str: string) returns (r: Result<map<string, string>>)
    ensures r == Decode(str)
  {
    var metrics: map<string, string> := map[];
    var parts := Split(str, PartSeparator);
    for i := 0 to |parts|
      invariant Collect(parts[..i]) == Ok(metrics)
    {
      assert parts[..i + 1][..i] == parts[..i];
      var tmp := Split(parts[i], MetricSeparator);
      if |tmp| != 2 {
        CollectErrPersists(parts, i + 1);
        return Err(MalformedToken);
      }
      if tmp[0] in metrics {
        CollectErrPersists(parts, i + 1);
        return Err(DuplicateMetric);
      }
      metrics := metrics[tmp[0] := tmp[1]];
    }
    assert parts[..|parts|] == parts;
    r := Ok(metrics);
  }

  /** Once a prefix of the tokens has failed, the whole sequence fails the
      same way: strToMetrics returns at the first bad token. */
  lemma {:induction false} CollectErrPersists(tokens: seq<string>, n: nat)
    requires n <= |tokens|
    requires Collect(tokens[..n]).Err?
    ensures Collect(tokens) == Collect(tokens[..n])
    decreases |tokens| - n
  {
    if n < |tokens| {
      assert tokens[..n + 1][..n] == tokens[..n];
      CollectErrPersists(tokens, n + 1);
    } else {
      assert tokens[..n] == tokens;
    }
  }

  /** Every token is well formed and no metric name occurs twice. */
  ghost predicate Accepted(tokens: seq<string>)
  {
    && (forall i :: 0 <= i < |tokens| ==> TokenOk(tokens[i]))
    && (forall i, j :: 0 <= i < j < |tokens| ==> Name(tokens[i]) != Name(tokens[j]))
  }

  /** The metric names of the well-formed tokens. */
  ghost function Names(tokens: seq<string>): set<string>
  {
    set i | 0 <= i < |tokens| && TokenOk(tokens[i]) :: Name(tokens[i])
  }

  /** Appending one token keeps a sequence accepted exactly when the token is
      well formed and its name is new. */
  lemma AcceptedSnoc(init: seq<string>, t: string)
    ensures Accepted(init + [t]) <==> Accepted(init) && TokenOk(t) && Name(t) !in Names(init)
    ensures TokenOk(t) ==> Names(init + [t]) == Names(init) + {Name(t)}
  {
    var s := init + [t];
    var n := |init|;
    assert forall i :: 0 <= i < n ==> s[i] == init[i];
    assert s[n] == t;
    if Accepted(s) {
      assert Accepted(init);
    }
    if TokenOk(t) && Name(t) in Names(init) {
      var i :| 0 <= i < n && TokenOk(init[i]) && Name(init[i]) == Name(t);
      assert Name(s[i]) == Name(s[n]);
    }
    if Accepted(init) && TokenOk(t) && Name(t) !in Names(init) {
      forall i, j | 0 <= i < j < |s| ensures Name(s[i]) != Name(s[j]) {
        if j == n {
          assert Name(init[i]) in Names(init);
        }
      }
    }
    if TokenOk(t) {
      assert Names(s) == Names(init) + {Name(t)};
    }
  }

  /** strToMetrics succeeds exactly when every token is well formed and the
      names are distinct, and then its map has exactly the tokens' names as
      keys, each mapped to its token's value. */
  lemma {:induction false} CollectOk(tokens: seq<string>)
    ensures Collect(tokens).Ok? <==> Accepted(tokens)
    ensures Collect(tokens).Ok? ==> Collect(tokens).value.Keys == Names(tokens)
    ensures Collect(tokens).Ok? ==>
      forall i :: 0 <= i < |tokens| ==> Collect(tokens).value[Name(tokens[i])] == Value(tokens[i])
    decreases |tokens|
  {
    if tokens != [] {
      var n := |tokens| - 1;
      var init := tokens[..n];
      var t := tokens[n];
      assert tokens == init + [t];
      CollectOk(init);
      AcceptedSnoc(init, t);
      if Collect(tokens).Ok? {
        var m := Collect(init).value;
        var m' := Collect(tokens).value;
        assert m' == m[Name(t) := Value(t)];
        forall i | 0 <= i < |tokens| ensures m'[Name(tokens[i])] == Value(tokens[i]) {
          if i < n {
            assert tokens[i] == init[i];
            assert Name(init[i]) in Names(init);
          }
        }
      }
    }
  }

  /** The error strToMetrics reports is decided by the first token that is
      bad: MalformedToken if it does not split into two pieces, and
      DuplicateMetric if its name was already used by an earlier token. */
  lemma {:induction false} CollectFirstFailure(tokens: seq<string>, i: nat)
    requires i < |tokens| && Accepted(tokens[..i])
    ensures !TokenOk(tokens[i]) ==> Collect(tokens) == Err(MalformedToken)
    ensures TokenOk(tokens[i]) && Name(tokens[i]) in Names(tokens[..i]) ==>
      Collect(tokens) == Err(DuplicateMetric)
    ensures TokenOk(tokens[i]) && Name(tokens[i]) !in Names(tokens[..i]) ==>
      Accepted(tokens[..i + 1])
  {
    var init := tokens[..i];
    CollectOk(init);
    assert tokens[..i + 1][..i] == init;
    assert tokens[..i + 1][i] == tokens[i];
    if !TokenOk(tokens[i]) || Name(tokens[i]) in Names(init) {
      CollectErrPersists(tokens, i + 1);
    } else {
      CollectOk(tokens[..i + 1]);
    }
  }

  /** Split gives the two halves of a token whose halves are clean. */
  lemma TokenSplits(metric: string, value: string)
    requires Clean(metric) && Clean(value)
    ensures TokenOk(Token(metric, value))
    ensures Name(Token(metric, value)) == metric
    ensures Value(Token(metric, value)) == value
  {
    assert Join([metric, value], MetricSeparator) == Token(metric, value);
    SplitJoin([metric, value], MetricSeparator);
  }

  /** The tokens of a map with clean keys and values, visited in any order,
      are all well formed, carry distinct names and none contains `/`. */
  lemma TokensAccepted(ms: map<string, string>, order: seq<string>)
    requires IsOrdering(order, ms.Keys)
    requires CleanMap(ms)
    ensures Accepted(Tokens(ms, order))
    ensures FreeOf(Tokens(ms, order), PartSeparator)
    ensures forall i :: 0 <= i < |order| ==>
      Name(Tokens(ms, order)[i]) == order[i] && Value(Tokens(ms, order)[i]) == ms[order[i]]
  {
    var toks := Tokens(ms, order);
    forall i | 0 <= i < |order|
      ensures TokenOk(toks[i]) && Name(toks[i]) == order[i] && Value(toks[i]) == ms[order[i]]
      ensures PartSeparator !in toks[i]
    {
      TokenSplits(order[i], ms[order[i]]);
    }
  }

  /** The names of the tokens of a map are exactly its keys. */
  lemma TokensNames(ms: map<string, string>, order: seq<string>)
    requires IsOrdering(order, ms.Keys)
    requires CleanMap(ms)
    ensures Names(Tokens(ms, order)) == ms.Keys
  {
    var toks := Tokens(ms, order);
    TokensAccepted(ms, order);
    forall k | k in ms ensures k in Names(toks) {
      var i :| 0 <= i < |order| && order[i] == k;
      assert Name(toks[i]) == k;
    }
  }

  /** strToMetrics' loop, run on the tokens String writes, rebuilds the map. */
  lemma CollectTokens(ms: map<string, string>, order: seq<string>)
    requires IsOrdering(order, ms.Keys)
    requires CleanMap(ms)
    ensures Collect(Tokens(ms, order)) == Ok(ms)
  {
    var toks := Tokens(ms, order);
    TokensAccepted(ms, order);
    CollectOk(toks);
    TokensNames(ms, order);
    var m := Collect(toks).value;
    assert m.Keys == ms.Keys;
    forall k | k in ms ensures m[k] == ms[k] {
      var i :| 0 <= i < |order| && order[i] == k;
      assert Name(toks[i]) == k && Value(toks[i]) == ms[k];
    }
    assert m == ms;
  }

  /** Round trip: for a non-empty map whose keys and values contain neither
      separator, strToMetrics(ms.String()) gives back ms, whatever order
      String visited the keys in. */
  lemma RoundTrip(ms: map<string, string>, order: seq<string>)
    requires ms != map[]
    requires IsOrdering(order, ms.Keys)
    requires CleanMap(ms)
    ensures Decode(Join(Tokens(ms, order), PartSeparator)) == Ok(ms)
  {
    var toks := Tokens(ms, order);
    var k :| k in ms;
    assert k in order;
    TokensAccepted(ms, order);
    SplitJoin(toks, PartSeparator);
    CollectTokens(ms, order);
  }

  /** Whatever order String uses, splitting its output on `/` gives one
      token per pair, and the tokens are exactly {m + ":" + v | m:v in ms}. */
  lemma StringTokens(ms: map<string, string>, order: seq<string>)
    requires ms != map[]
    requires IsOrdering(order, ms.Keys)
    requires CleanMap(ms)
    ensures |Split(Join(Tokens(ms, order), PartSeparator), PartSeparator)| == |ms|
    ensures (set t | t in Split(Join(Tokens(ms, order), PartSeparator), PartSeparator))
         == (set k | k in ms :: Token(k, ms[k]))
  {
    var toks := Tokens(ms, order);
    var k :| k in ms;
    assert k in order;
    TokensAccepted(ms, order);
    SplitJoin(toks, PartSeparator);
    OrderingSize(order, ms.Keys);
    TokenSet(ms, order);
  }

  /** The tokens of a map in any order are exactly its `m:v` tokens. */
  lemma TokenSet(ms: map<string, string>, order: seq<string>)
    requires IsOrdering(order, ms.Keys)
    ensures (set t | t in Tokens(ms, order)) == (set k | k in ms :: Token(k, ms[k]))
  {
    var toks := Tokens(ms, order);
    forall t | t in toks ensures t in (set k | k in ms :: Token(k, ms[k])) {
      var i :| 0 <= i < |toks| && toks[i] == t;
    }
    forall k | k in ms ensures Token(k, ms[k]) in toks {
      var i :| 0 <= i < |order| && order[i] == k;
      assert toks[i] == Token(k, ms[k]);
    }
  }

  /** An ordering of a set has as many entries as the set has elements. */
  lemma {:induction false} OrderingSize(order: seq<string>, keys: set<string>)
    requires IsOrdering(order, keys)
    ensures |order| == |keys|
    decreases |order|
  {
    if order != [] {
      var n := |order| - 1;
      var init := order[..n];
      assert order[n] !in init;
      assert IsOrdering(init, keys - {order[n]});
      OrderingSize(init, keys - {order[n]});
    } else {
      assert keys == {};
    }
  }

  /** The empty map serialises to "", which strToMetrics rejects: "" splits
      into the single token "", and "" does not split on `:` into two pieces. */
  lemma EmptyDoesNotRoundTrip()
    ensures Join(Tokens(map[], []), PartSeparator) == ""
    ensures Decode("") == Err(MalformedToken)
  {
    assert Split("", PartSeparator) == [""];
    assert !TokenOk("");
    CollectFirstFailure([""], 0);
  }

  /** A token without `:` after a good one is malformed, as in "A:B/C". */
  lemma MissingSeparatorRejected(m: string, v: string, c: string)
    requires Clean(m) && Clean(v) && Clean(c)
    ensures Decode(Token(m, v) + [PartSeparator] + c) == Err(MalformedToken)
  {
    TokenSplits(m, v);
    SplitAfterPiece(Token(m, v), c, PartSeparator);
    SplitOfFree(c, PartSeparator);
    SplitOfFree(c, MetricSeparator);
    var toks := [Token(m, v), c];
    assert Split(Token(m, v) + [PartSeparator] + c, PartSeparator) == toks;
    assert toks[..1] == [Token(m, v)];
    CollectFirstFailure(toks, 1);
  }

  /** A token with two `:` is malformed, as in "A:B:C". */
  lemma ExtraSeparatorRejected(m: string, v: string, w: string)
    requires Clean(m) && Clean(v) && Clean(w)
    ensures Decode(Token(m, v) + [MetricSeparator] + w) == Err(MalformedToken)
  {
    var t := Token(m, v) + [MetricSeparator] + w;
    assert t == m + [MetricSeparator] + (v + [MetricSeparator] + w);
    SplitAfterPiece(m, v + [MetricSeparator] + w, MetricSeparator);
    SplitAfterPiece(v, w, MetricSeparator);
    SplitOfFree(w, MetricSeparator);
    assert !TokenOk(t);
    SplitOfFree(t, PartSeparator);
    CollectFirstFailure([t], 0);
  }

  /** A metric named in two tokens is a duplicate, as in "A:B/A:C". */
  lemma DuplicateRejected(m: string, v1: string, v2: string)
    requires Clean(m) && Clean(v1) && Clean(v2)
    ensures Decode(Token(m, v1) + [PartSeparator] + Token(m, v2)) == Err(DuplicateMetric)
  {
    TokenSplits(m, v1);
    TokenSplits(m, v2);
    SplitAfterPiece(Token(m, v1), Token(m, v2), PartSeparator);
    SplitOfFree(Token(m, v2), PartSeparator);
    var toks := [Token(m, v1), Token(m, v2)];
    assert Split(Token(m, v1) + [PartSeparator] + Token(m, v2), PartSeparator) == toks;
    assert toks[..1] == [Token(m, v1)];
    assert Name(toks[..1][0]) in Names(toks[..1]);
    CollectFirstFailure(toks, 1);
  }
}
