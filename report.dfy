/** The interview report: for each dimension the arithmetic mean of its scores
    (0 when it has none), an overall score that averages the means of the
    scored dimensions only, and the hiring decision at the fixed threshold 3.5.
    Scores are exact rationals (`real`), not floating point. */
module Report {
  import opened InterviewTypes

  function Sum(s: seq<real>): real {
    if s == [] then 0.0 else Sum(s[..|s| - 1]) + s[|s| - 1]
  }

  /** sum(scores) / len(scores), or 0 for an empty list. */
  function Mean(s: seq<real>): (r: real)
    ensures s != [] ==> r * (|s| as real) == Sum(s)
    ensures s == [] ==> r == 0.0
  {
    if |s| == 0 then 0.0 else Sum(s) / (|s| as real)
  }

  /** Every dimension iterated has a score list. */
  predicate Covers(dims: seq<string>, results: map<string, seq<real>>) {
    forall i :: 0 <= i < |dims| ==> dims[i] in results
  }

  /** The running `overall_score` before the division: the sum of the means of
      the dimensions that have at least one score. */
  function MeanTotal(dims: seq<string>, results: map<string, seq<real>>): real
    requires Covers(dims, results)
  {
    if dims == [] then 0.0
    else
      var last := dims[|dims| - 1];
      MeanTotal(dims[..|dims| - 1], results) + (if results[last] != [] then Mean(results[last]) else 0.0)
  }

  /** The running `total_scores_count`: how many dimensions have a score. */
  function ScoredCount(dims: seq<string>, results: map<string, seq<real>>): nat
    requires Covers(dims, results)
  {
    if dims == [] then 0
    else
      var last := dims[|dims| - 1];
      ScoredCount(dims[..|dims| - 1], results) + (if results[last] != [] then 1 else 0)
  }

  function OverallScore(dims: seq<string>, results: map<string, seq<real>>): (r: real)
    requires Covers(dims, results)
    ensures ScoredCount(dims, results) > 0 ==> r * (ScoredCount(dims, results) as real) == MeanTotal(dims, results)
    ensures ScoredCount(dims, results) == 0 ==> r == 0.0
  {
    var n := ScoredCount(dims, results);
    if n > 0 then MeanTotal(dims, results) / (n as real) else 0.0
  }

  const HireThreshold: real := 3.5

  datatype InterviewReport = InterviewReport(overallScore: real, dimensionScores: map<string, real>, hired: bool)

  /** The aggregation loop of get_interview_report (both copies). */
  method Aggregate(dims: seq<string>, results: map<string, seq<real>>) returns (report: InterviewReport)
    requires Covers(dims, results)
    ensures forall d :: d in report.dimensionScores <==> d in dims
    ensures forall d :: d in report.dimensionScores ==> report.dimensionScores[d] == Mean(results[d])
    ensures report.overallScore == OverallScore(dims, results)
    ensures report.hired <==> report.overallScore >= HireThreshold
  {
    var dimensionScores: map<string, real> := map[];
    var overall := 0.0;
    var count := 0;
    var i := 0;
    while i < |dims|
      invariant 0 <= i <= |dims|
      invariant forall d :: d in dimensionScores <==> d in dims[..i]
      invariant forall d :: d in dimensionScores ==> dimensionScores[d] == Mean(results[d])
      invariant overall == MeanTotal(dims[..i], results)
      invariant count == ScoredCount(dims[..i], results)
    {
      var dim := dims[i];
      assert dims[..i + 1][..i] == dims[..i];
      assert dims[..i + 1] == dims[..i] + [dim];
      if results[dim] != [] {
        var avg := Sum(results[dim]) / (|results[dim]| as real);
        dimensionScores := dimensionScores[dim := avg];
        overall := overall + avg;
        count := count + 1;
      } else {
        dimensionScores := dimensionScores[dim := 0.0];
      }
      i := i + 1;
    }
    assert dims[..|dims|] == dims;
    if count > 0 {
      overall := overall / (count as real);
    } else {
      overall := 0.0;
    }
    report := InterviewReport(overall, dimensionScores, overall >= HireThreshold);
  }

  // ---------------------------------------------------------------------------
  // Reference definition: the overall score is the mean of the per-dimension
  // means, taken over the scored dimensions only.

  /** The means of the dimensions that have at least one score, in order. */
  function ScoredMeans(dims: seq<string>, results: map<string, seq<real>>): seq<real>
    requires Covers(dims, results)
  {
    if dims == [] then []
    else
      var last := dims[|dims| - 1];
      ScoredMeans(dims[..|dims| - 1], results) + (if results[last] != [] then [Mean(results[last])] else [])
  }

  lemma {:induction false} ScoredMeansTotals(dims: seq<string>, results: map<string, seq<real>>)
    requires Covers(dims, results)
    ensures |ScoredMeans(dims, results)| == ScoredCount(dims, results)
    ensures Sum(ScoredMeans(dims, results)) == MeanTotal(dims, results)
  {
    if dims != [] {
      var init := dims[..|dims| - 1];
      var last := dims[|dims| - 1];
      ScoredMeansTotals(init, results);
      if results[last] != [] {
        var m := ScoredMeans(init, results) + [Mean(results[last])];
        assert m[..|m| - 1] == ScoredMeans(init, results);
      } else {
        assert ScoredMeans(dims, results) == ScoredMeans(init, results);
      }
    }
  }

  /** overall_score is the arithmetic mean of the scored dimensions' means. */
  lemma OverallIsMeanOfScoredMeans(dims: seq<string>, results: map<string, seq<real>>)
    requires Covers(dims, results)
    ensures OverallScore(dims, results) == Mean(ScoredMeans(dims, results))
  {
    ScoredMeansTotals(dims, results);
  }

  // ---------------------------------------------------------------------------
  // Bounds.

  ghost predicate AllWithin(s: seq<real>, lo: real, hi: real) {
    forall i :: 0 <= i < |s| ==> lo <= s[i] <= hi
  }

  lemma {:induction false} SumWithin(s: seq<real>, lo: real, hi: real)
    requires AllWithin(s, lo, hi)
    ensures (|s| as real) * lo <= Sum(s) <= (|s| as real) * hi
  {
    if s != [] {
      var init := s[..|s| - 1];
      assert AllWithin(init, lo, hi) by {
        forall i | 0 <= i < |init| ensures lo <= init[i] <= hi {
          assert init[i] == s[i];
        }
      }
      SumWithin(init, lo, hi);
      assert (|s| as real) * lo == (|init| as real) * lo + lo;
      assert (|s| as real) * hi == (|init| as real) * hi + hi;
    }
  }

  /** A dimension's mean lies between the smallest and largest bound of its
      scores. */
  lemma MeanWithin(s: seq<real>, lo: real, hi: real)
    requires |s| > 0 && AllWithin(s, lo, hi)
    ensures lo <= Mean(s) <= hi
  {
    SumWithin(s, lo, hi);
    var n := |s| as real;
    assert Sum(s) / n >= lo by {
      assert Sum(s) >= n * lo;
    }
    assert Sum(s) / n <= hi by {
      assert Sum(s) <= n * hi;
    }
  }

  ghost predicate ScoresWithin(dims: seq<string>, results: map<string, seq<real>>, lo: real, hi: real)
    requires Covers(dims, results)
  {
    forall i :: 0 <= i < |dims| ==> AllWithin(results[dims[i]], lo, hi)
  }

  /** When every recorded score lies in [lo, hi] and some dimension is scored,
      the overall score lies in [lo, hi] too: scores of 1 to 5 give an overall
      score of 1 to 5. */
  lemma OverallWithin(dims: seq<string>, results: map<string, seq<real>>, lo: real, hi: real)
    requires Covers(dims, results) && ScoresWithin(dims, results, lo, hi)
    requires ScoredCount(dims, results) > 0
    ensures lo <= OverallScore(dims, results) <= hi
  {
    ScoredMeansTotals(dims, results);
    ScoredMeansWithin(dims, results, lo, hi);
    MeanWithin(ScoredMeans(dims, results), lo, hi);
  }

  lemma {:induction false} ScoredMeansWithin(dims: seq<string>, results: map<string, seq<real>>, lo: real, hi: real)
    requires Covers(dims, results) && ScoresWithin(dims, results, lo, hi)
    ensures AllWithin(ScoredMeans(dims, results), lo, hi)
  {
    if dims != [] {
      var init := dims[..|dims| - 1];
      var last := dims[|dims| - 1];
      assert ScoresWithin(init, results, lo, hi) by {
        forall i | 0 <= i < |init| ensures AllWithin(results[init[i]], lo, hi) {
          assert init[i] == dims[i];
        }
      }
      ScoredMeansWithin(init, results, lo, hi);
      if results[last] != [] {
        assert AllWithin(results[dims[|dims| - 1]], lo, hi);
        MeanWithin(results[last], lo, hi);
      }
    }
  }

  // ---------------------------------------------------------------------------
  // Unscored dimensions are left out of the divisor.

  /** Inserting a dimension without scores anywhere in the iteration order
      changes neither the total, nor the count, nor the overall score. */
  lemma {:induction false} UnscoredDimensionIgnored(front: seq<string>, d: string, back: seq<string>, results: map<string, seq<real>>)
    requires Covers(front + back, results) && d in results && results[d] == []
    ensures Covers(front + [d] + back, results)
    ensures MeanTotal(front + [d] + back, results) == MeanTotal(front + back, results)
    ensures ScoredCount(front + [d] + back, results) == ScoredCount(front + back, results)
    ensures OverallScore(front + [d] + back, results) == OverallScore(front + back, results)
  {
    var with := front + [d] + back;
    var without := front + back;
    assert Covers(with, results) by {
      forall i | 0 <= i < |with| ensures with[i] in results {
        if i < |front| { assert with[i] == without[i]; }
        else if i > |front| { assert with[i] == without[i - 1]; }
      }
    }
    if back == [] {
      assert with[..|with| - 1] == front;
      assert without == front;
    } else {
      var backInit := back[..|back| - 1];
      assert with[..|with| - 1] == front + [d] + backInit;
      assert without[..|without| - 1] == front + backInit;
      assert with[|with| - 1] == without[|without| - 1];
      assert Covers(front + backInit, results) by {
        forall i | 0 <= i < |front + backInit| ensures (front + backInit)[i] in results {
          assert (front + backInit)[i] == without[i];
        }
      }
      UnscoredDimensionIgnored(front, d, backInit, results);
    }
  }

  /** With no score recorded anywhere the overall score is 0 and nobody is
      hired. */
  lemma {:induction false} NothingScoredNotHired(dims: seq<string>, results: map<string, seq<real>>)
    requires Covers(dims, results)
    requires forall i :: 0 <= i < |dims| ==> results[dims[i]] == []
    ensures ScoredCount(dims, results) == 0
    ensures OverallScore(dims, results) == 0.0 && !(OverallScore(dims, results) >= HireThreshold)
  {
    if dims != [] {
      var init := dims[..|dims| - 1];
      assert forall i :: 0 <= i < |init| ==> init[i] == dims[i];
      NothingScoredNotHired(init, results);
    }
  }

  /** The worked example: {A: [4, 4], B: [], C: [2]} gives (4 + 2) / 2 = 3, not
      (4 + 0 + 2) / 3 = 2, and no hire. */
  lemma ExampleOverall()
    ensures var results := map["A" := [4.0, 4.0], "B" := [], "C" := [2.0]];
      && Covers(["A", "B", "C"], results)
      && OverallScore(["A", "B", "C"], results) == 3.0
      && !(OverallScore(["A", "B", "C"], results) >= HireThreshold)
  {
    var results := map["A" := [4.0, 4.0], "B" := [], "C" := [2.0]];
    var dims := ["A", "B", "C"];
    assert dims[..2] == ["A", "B"] && dims[..2][..1] == ["A"] && dims[..2][..1][..0] == [];
    assert [4.0, 4.0][..1] == [4.0] && [4.0][..0] == [];
    assert Mean(results["A"]) == 4.0;
    assert Mean(results["C"]) == 2.0;
    assert MeanTotal(dims[..1], results) == 4.0 && ScoredCount(dims[..1], results) == 1;
    assert MeanTotal(dims[..2], results) == 4.0 && ScoredCount(dims[..2], results) == 1;
    assert MeanTotal(dims, results) == 6.0 && ScoredCount(dims, results) == 2;
  }
}
