/** Crediting one evaluation to the per-dimension score lists: the
    `for dim in evaluation_dimensions` loop that appends a score only for a
    dimension whose key is present with a numeric value. */
module Scoring {
  import opened InterviewTypes

  /** A value of the decoded evaluation object. Python's
      isinstance(v, (int, float)) also accepts booleans (bool subclasses int),
      and sum() counts True as 1. */
  datatype ScoreValue = Number(value: real) | Boolean(flag: bool) | NonNumeric

  predicate IsNumeric(v: ScoreValue) {
    v.Number? || v.Boolean?
  }

  function NumericValue(v: ScoreValue): real
    requires IsNumeric(v)
  {
    match v
    case Number(x) => x
    case Boolean(b) => if b then 1.0 else 0.0
  }

  /** json.loads of the extracted evaluation text: invalid JSON, or an object. */
  datatype ScoreDoc = MalformedScores | ScoreObject(fields: map<string, ScoreValue>)

  /** The entries one occurrence of `dim` in the loop appends. */
  function Appended(scores: map<string, ScoreValue>, dim: string): (r: seq<real>)
    ensures |r| <= 1
    ensures |r| == 1 <==> dim in scores && IsNumeric(scores[dim])
  {
    if dim in scores && IsNumeric(scores[dim]) then [NumericValue(scores[dim])] else []
  }

  function Occurrences(dims: seq<string>, dim: string): nat {
    if dims == [] then 0
    else Occurrences(dims[..|dims| - 1], dim) + (if dims[|dims| - 1] == dim then 1 else 0)
  }

  function Repeat(s: seq<real>, n: nat): seq<real> {
    if n == 0 then [] else Repeat(s, n - 1) + s
  }

  /** Reference definition of the loop's effect: every list keeps its entries
      and receives the dimension's value once per occurrence of the dimension in
      the iterated list, when the evaluation holds a numeric value for it. */
  function Credited(dims: seq<string>, results: map<string, seq<real>>, scores: map<string, ScoreValue>): (r: map<string, seq<real>>)
    ensures r.Keys == results.Keys
  {
    map d | d in results :: results[d] + Repeat(Appended(scores, d), Occurrences(dims, d))
  }

  /** The loop of interview_manager.py and main.py, on a copy of the lists. */
  method RecordScores(dims: seq<string>, results: map<string, seq<real>>, scores: map<string, ScoreValue>)
    returns (updated: map<string, seq<real>>)
    requires forall i :: 0 <= i < |dims| ==> dims[i] in results
    ensures updated == Credited(dims, results, scores)
  {
    updated := results;
    var i := 0;
    CreditedNone(results, scores);
    while i < |dims|
      invariant 0 <= i <= |dims|
      invariant updated == Credited(dims[..i], results, scores)
    {
      var dim := dims[i];
      assert dims[..i + 1] == dims[..i] + [dim];
      CreditedSnoc(dims[..i], dim, results, scores);
      if dim in scores && IsNumeric(scores[dim]) {
        updated := updated[dim := updated[dim] + [NumericValue(scores[dim])]];
      } else {
        assert Appended(scores, dim) == [] && updated[dim] + [] == updated[dim];
        assert updated == updated[dim := updated[dim] + Appended(scores, dim)];
      }
      i := i + 1;
    }
    assert dims[..|dims|] == dims;
  }

  lemma CreditedNone(results: map<string, seq<real>>, scores: map<string, ScoreValue>)
    ensures Credited([], results, scores) == results
  {
    forall d | d in results
      ensures Credited([], results, scores)[d] == results[d]
    {
      assert Occurrences([], d) == 0;
    }
  }

  /** One more iteration of the loop appends the dimension's entry. */
  lemma CreditedSnoc(dims: seq<string>, dim: string, results: map<string, seq<real>>, scores: map<string, ScoreValue>)
    requires dim in results
    ensures Credited(dims + [dim], results, scores)
      == Credited(dims, results, scores)[dim := Credited(dims, results, scores)[dim] + Appended(scores, dim)]
  {
    var before := Credited(dims, results, scores);
    var after := Credited(dims + [dim], results, scores);
    forall d | d in results
      ensures after[d] == before[dim := before[dim] + Appended(scores, dim)][d]
    {
      assert (dims + [dim])[..|dims|] == dims;
      assert Occurrences(dims + [dim], d) == Occurrences(dims, d) + (if dim == d then 1 else 0);
    }
  }

  lemma {:induction false} OccurrencesOfDistinct(dims: seq<string>, dim: string)
    requires Distinct(dims)
    ensures Occurrences(dims, dim) == if dim in dims then 1 else 0
  {
    if dims != [] {
      var init := dims[..|dims| - 1];
      assert Distinct(init);
      OccurrencesOfDistinct(init, dim);
      assert dims == init + [dims[|dims| - 1]];
      assert dim in dims <==> dim in init || dim == dims[|dims| - 1];
    }
  }

  /** One evaluation turn over the eight dimensions: each list grows by at most
      one entry, a list grows exactly when the evaluation holds a numeric value
      under its dimension, and keys outside the dimensions add no list. */
  lemma CreditOneEvaluation(results: map<string, seq<real>>, scores: map<string, ScoreValue>)
    requires results.Keys == DimensionSet
    ensures Credited(EvaluationDimensions, results, scores).Keys == DimensionSet
    ensures forall d :: d in results ==>
      Credited(EvaluationDimensions, results, scores)[d] == results[d] + Appended(scores, d)
  {
    EvaluationDimensionsDistinct();
    forall d | d in results
      ensures Credited(EvaluationDimensions, results, scores)[d] == results[d] + Appended(scores, d)
    {
      OccurrencesOfDistinct(EvaluationDimensions, d);
      assert Repeat(Appended(scores, d), 1) == Appended(scores, d);
    }
  }

  /** `{dim: [] for dim in EVALUATION_DIMENSIONS}` */
  const NoScores: map<string, seq<real>> := map d | d in EvaluationDimensions :: []

  lemma NoScoresShape()
    ensures NoScores.Keys == DimensionSet
    ensures forall d :: d in NoScores ==> NoScores[d] == []
  {
  }

  lemma {:induction false} RepeatNothing(n: nat)
    ensures Repeat([], n) == []
  {
    if n > 0 {
      RepeatNothing(n - 1);
    }
  }

  /** An evaluation that yields no usable scores leaves every list as it was. */
  lemma CreditedNothing(dims: seq<string>, results: map<string, seq<real>>)
    ensures Credited(dims, results, map[]) == results
  {
    forall d | d in results
      ensures Credited(dims, results, map[])[d] == results[d]
    {
      RepeatNothing(Occurrences(dims, d));
    }
  }
}
