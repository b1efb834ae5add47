/** Clients of the weighted vector, on the one-metric table
    {"AV": {"N": 0.85, "A": 0.62}}: what callers can conclude from the
    contracts alone. */
module Scenarios {
  import opened Strings
  import opened Vector
  import opened Weighted

  function Table(): map<string, map<string, real>>
  {
    map["AV" := map["N" := 0.85, "A" := 0.62]]
  }

  /** Set accepts a listed value, twice over, and rejects the rest. */
  method SetAndWeigh()
  {
    var v := new WeightsMetrics(Table());

    var r := v.Set("AV", "N");
    assert r == Pass;
    assert v.Weight("AV") == Ok(0.85);
    r := v.Set("AV", "N");
    assert r == Pass && v.metrics.Get("AV") == Ok("N");

    r := v.Set("AV", "Z");
    assert r == Fail(InvalidValue);
    r := v.Set("XX", "N");
    assert r == Fail(UnknownMetric);
    assert v.WeightDefault("XX", 1.0) == 1.0;
  }

  /** A duplicate is caught by the raw parse, before any Set. */
  method ParseDuplicate()
  {
    var u := new WeightsMetrics(Table());
    assert Token("AV", "N") + [PartSeparator] + Token("AV", "A") == "AV:N/AV:A";
    assert Clean("AV") && Clean("N") && Clean("A");
    DuplicateRejected("AV", "N", "A");
    var p, committed := u.Parse("AV:N/AV:A");
    assert p == Fail(DuplicateMetric) && u.metrics.vals == map[];
  }

  /** A clean vector parses, its weight can be taken unchecked, and what
      String writes parses back to the same selection. */
  method ParseAndPrint()
  {
    var u := new WeightsMetrics(Table());
    var one := map["AV" := "A"];
    assert Decode("AV:A") == Ok(one) by {
      assert Clean("AV") && Clean("A");
      assert Join(Tokens(one, ["AV"]), PartSeparator) == "AV:A";
      RoundTrip(one, ["AV"]);
    }
    var p, committed := u.Parse("AV:A");
    assert u.metrics.vals == one;
    assert p == Pass && u.WeightMust("AV") == 0.62;

    assert CleanMap(one) by {
      assert Clean("AV") && Clean("A");
    }
    var s := u.metrics.String();
    assert Decode(s) == Ok(one);
  }
}
