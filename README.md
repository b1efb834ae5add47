# CVSS metric vectors: a Dafny model of `cvss/common/metrics.go`

This project models the generic metric-vector engine of nvdtools' CVSS
packages. It has two layers.

- **`Metrics`** is a mutable map from metric name to value. It supports
  `Get` and `Set`, serialises to `m:v` tokens joined by `/` (`String`), and
  has a raw parser `strToMetrics` that reads such a string back. The parser
  splits on `/`, then each token on `:`. It stops with an error at the first
  token that does not split into two pieces, or whose metric name was
  already used.
- **`WeightsMetrics`** pairs a `Metrics` with a read-only weight table
  (metric → value → weight). Its `Set` admits only pairs the table lists.
  `Parse` runs the raw parser and then commits every pair through that
  `Set`. `Weight`, `WeightMust` and `WeightDefault` look the selected value
  up in the table.

Files:

- `strings.dfy` (module `Strings`): Go's `strings.Split` and `strings.Join`
  for a one-character separator, with their round-trip lemmas. `Split` of a
  string with n separators gives n + 1 pieces, so `Split("")` is `[""]`.
- `vector.dfy` (module `Vector`): the error kinds, the separators, the class
  `Metrics`, and `StrToMetrics` proved against the function `Decode`. Also
  the lemmas that characterise `Decode`: when it succeeds, what it returns,
  which error wins, and the round trip with `String`.
- `weighted.dfy` (module `Weighted`): the class `WeightsMetrics`. Its
  invariant `Valid()` says every stored pair is in the table.
- `scenarios.dfy` (module `Scenarios`): client methods that use only the
  contracts. They work on the table `{"AV": {"N": 0.85, "A": 0.62}}`.

Go iterates maps in an unspecified order. `String` and `Parse` model this by
taking the next key with `:|` from the keys not yet visited. The contract
of `String` fixes the output up to that ordering: it is the `/`-join of the
`m:v` tokens in some ordering that lists every key once. It also states
outright that an empty map gives `""` and that a clean non-empty map parses
back to itself, and the round-trip lemmas hold for every ordering.

Weights are a type parameter `W`, because the source only stores and looks
them up. The scenarios instantiate `W` with `real`.

A repeated metric name is reported as DuplicateMetric only when no earlier
token is malformed, because `strToMetrics` stops at the first bad token:
`A:B/C/A:D` fails with MalformedToken. `CollectFirstFailure` states this
rule.

## Model

| member | source | states |
|---|---|---|
| `Strings.Split` | cvss/common/metrics.go:57-58 | `strings.Split` gives at least one piece. |
| `Strings.SplitPieces` | cvss/common/metrics.go:57-58 | There is one more piece than there are separators. No piece contains the separator. |
| `Strings.JoinSplit` | cvss/common/metrics.go:51-57 | Joining the pieces of a split gives back the original string. |
| `Strings.SplitJoin` | cvss/common/metrics.go:51-57 | Splitting a join of one or more separator-free parts gives back exactly those parts. |
| `Strings.Join` | cvss/common/metrics.go:51 | `strings.Join(parts, "/")`: the output starts with the first part. With separator-free parts it holds exactly one separator fewer than there are parts, and none for no parts (it is then `""`). |
| `Vector.Metrics.constructor` | cvss/common/metrics.go:56 | `make(Metrics)`: a new, empty map. |
| `Vector.Metrics.Get` | cvss/common/metrics.go:34-39 | Succeeds exactly when the metric is a key, and returns its value. Otherwise it returns NotFound. It only reads the map. |
| `Vector.Metrics.Set` | cvss/common/metrics.go:41-44 | Never fails. Afterwards the metric maps to the value and every other key keeps its value. So setting the same pair twice is idempotent. |
| `Vector.Metrics.String` | cvss/common/metrics.go:46-52 | The output is `Join` over `/` of one `m:v` token per pair, in some order that lists every key exactly once. An empty map gives `""`. For a non-empty map with separator-free keys and values, `strToMetrics` reads the output back as the same map. |
| `Vector.Token` | cvss/common/metrics.go:49 | The `Sprintf("%s%s%s", metric, ":", value)` token: the metric, then one `:`, then the value, and nothing else. |
| `Vector.StrToMetrics` | cvss/common/metrics.go:55-68 | Returns exactly `Decode(str)`, the result of folding the `/`-tokens with early returns. |
| `Vector.CollectErrPersists` | cvss/common/metrics.go:57-64 | Once a prefix of the tokens has failed, later tokens cannot change the error. |
| `Vector.CollectOk` | cvss/common/metrics.go:55-67 | Parsing succeeds exactly when every token splits into two pieces and all names are distinct. The resulting map's keys are exactly the names, and each name maps to its token's value. |
| `Vector.CollectFirstFailure` | cvss/common/metrics.go:57-65 | After an accepted prefix: a token that does not split into two gives MalformedToken. A token whose name the prefix already used gives DuplicateMetric. Any other token extends the accepted prefix. |
| `Vector.TokenSplits` | cvss/common/metrics.go:49-58 | Splitting a token `m:v` on `:` gives back `m` and `v`, when neither contains a separator. |
| `Vector.RoundTrip` | cvss/common/metrics.go:46-68 | For a non-empty map with separator-free keys and values, parsing what `String` writes returns the same map, whatever the token order. |
| `Vector.StringTokens` | cvss/common/metrics.go:46-52 | For such a map, splitting the output of `String` on `/` gives one token per pair. The set of tokens is exactly `{m + ":" + v}` over the map's pairs. |
| `Vector.TokenSet` | cvss/common/metrics.go:48-50 | In any visiting order, the tokens the loop appends are exactly `{m + ":" + v}` over the map's pairs. |
| `Vector.EmptyDoesNotRoundTrip` | cvss/common/metrics.go:46-61 | An empty map serialises to `""`. Parsing `""` fails with MalformedToken. |
| `Vector.MissingSeparatorRejected` | cvss/common/metrics.go:57-61 | A token with no `:` after a good token fails with MalformedToken, as in `A:B/C`. |
| `Vector.ExtraSeparatorRejected` | cvss/common/metrics.go:57-61 | A token with two `:` fails with MalformedToken, as in `A:B:C`. |
| `Vector.DuplicateRejected` | cvss/common/metrics.go:62-64 | Two tokens with the same metric name fail with DuplicateMetric, as in `A:B/A:C`. |
| `Weighted.WeightsMetrics.constructor` | cvss/common/metrics.go:70-74 | Starts with an empty selection over the given table, which satisfies the invariant. |
| `Weighted.WeightsMetrics.Set` | cvss/common/metrics.go:76-85 | UnknownMetric exactly when the table lacks the metric. InvalidValue exactly when the table lacks the value for that metric. Either error leaves the map unchanged. Otherwise the pair is stored. The table invariant is preserved. |
| `Weighted.WeightsMetrics.Parse` | cvss/common/metrics.go:87-98 | A raw-parse error is returned and nothing is stored. Otherwise the stored map is the old one extended by a subset of the parsed pairs. It succeeds exactly when the table allows every parsed pair, and then every parsed pair is retrievable with `Get`. A failure names an error kind of some rejected pair. The invariant is preserved. |
| `Weighted.WeightsMetrics.Weight` | cvss/common/metrics.go:102-109 | Succeeds exactly when the metric is set, with `Weights[m][Get(m)]`. That inner lookup exists by the invariant. Otherwise it returns NotFound. |
| `Weighted.WeightsMetrics.WeightMust` | cvss/common/metrics.go:111-117 | For a set metric, returns `Weights[m][Get(m)]`. |
| `Weighted.WeightsMetrics.WeightDefault` | cvss/common/metrics.go:119-124 | Returns the default when the metric is unset, and the table's weight for its value when it is set. |

## Left out

- Error messages and the `errors.Wrapf` context are not modelled. Errors are an enumerated kind (`Vector.Error`), and `Parse` passes on the kind it received.
- `Weighted.WeightsMetrics.WeightMust`: the `panic` for an unset metric becomes the precondition `metric in metrics.vals`.
- `Weighted.WeightsMetrics.Weight`: with a table that does not cover the stored value, Go would return the float zero value. The model instead requires the invariant `Valid()`, which the constructor establishes and every weighted `Set` and `Parse` preserves.
- `Weighted.WeightsMetrics.WeightMust`: requires `Valid()` for the same reason as `Weight`, where Go would return the zero value for an uncovered stored value.
- `Weighted.WeightsMetrics.WeightDefault`: requires `Valid()` for the same reason as `Weight`, where Go would return the zero value rather than the default for an uncovered stored value.
- `Weighted.WeightsMetrics.constructor`: always allocates a fresh empty map. A Go `WeightsMetrics{Weights: w}` literal has a nil `Metrics`, on which `Set` panics with an assignment to a nil map (cvss/common/metrics.go:42); that case cannot arise in the model.
- `float64` arithmetic is not modelled. Weights are a type parameter, because they are only looked up.
- Go's randomised map order is not a concrete order here. `String` and `Parse` pick the next key nondeterministically.
- `Weighted.WeightsMetrics.Parse`: after a failure inside the commit loop, the model does not say which pairs stay committed, since that depends on the order. It says only that they are a subset of the parsed pairs and that they satisfy the table.
- Go's value receivers share one map by reference. The model instead keeps one `Metrics` object as a `const` field of `WeightsMetrics`. The unchecked `Metrics.Set` can still be reached through that field, as the embedded map can in Go. Nothing the model proves relies on callers avoiding it, beyond the `Valid()` preconditions.
- Separators inside names or values are not rejected by `Set` or `String`, just as in Go. The round-trip lemmas therefore require clean keys and values.
