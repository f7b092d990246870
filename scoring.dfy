/** The scoring engine of app.js (`computeScores`): likelihood from the three
    exploitation levels, impact from identifiability, the selected
    identification types and the risk type, and the overall band from the
    likelihood-by-impact matrix. Averages are kept as exact ratios; every
    value the engine rounds is a sum of quarters over a small count, so the
    exact value is the one the floating-point code rounds. */
module Scoring {
  import opened Helpers
  import opened Assessment

  datatype Scores = Scores(likelihood: int, impact: int, overallBandIdx: int)

  /** `clamp(Math.round(avg([cost, linkability, ease])), 1, 3)`. */
  function Likelihood(s: Record): (r: int)
    ensures 1 <= r <= 3
  {
    Clamp(Round(Avg([s.cost, s.linkability, s.ease])), 1, 3)
  }

  /** The weights, in quarters, of the types selected among the first `n`,
      in mask-bit order: what the push loop holds after `n` rounds. */
  function SelectedUpTo(mask: bv4, n: nat): (r: seq<int>)
    requires n <= 4
    ensures |r| <= n
    ensures forall k :: 0 <= k < |r| ==> 1 <= r[k] <= 4
    decreases n
  {
    if n == 0 then []
    else SelectedUpTo(mask, n - 1) + (if Selected(mask, n - 1) then [WeightQuarters[n - 1]] else [])
  }

  /** The weights of all selected identification types. */
  function SelectedWeights(mask: bv4): seq<int>
  {
    SelectedUpTo(mask, 4)
  }

  /** `clamp(Math.round(idWeighted * 2) + 1, 1, 3)`, where idWeighted is the
      average weight of the selection (0 when nothing is selected). With
      weights in quarters, `idWeighted * 2` is `sum / (2 * count)`. */
  function IdScaled(selected: seq<int>): (r: int)
    requires forall k :: 0 <= k < |selected| ==> 1 <= selected[k] <= 4
    ensures 1 <= r <= 3
    ensures selected == [] ==> r == 1
    ensures selected != [] ==> 2 <= r <= 3
  {
    if selected == [] then
      Clamp(RoundHalfUp(0, 1) + 1, 1, 3)
    else
      var a := Avg(selected);
      AvgBounds(selected, 1, 4);
      WeightedInRange(a.num, a.den);
      Clamp(RoundHalfUp(a.num, 2 * a.den) + 1, 1, 3)
  }

  /** A mean weight between a quarter and one, doubled, rounds to 1 or 2. */
  lemma WeightedInRange(sum: int, count: int)
    requires count >= 1 && count <= sum <= 4 * count
    ensures 1 <= RoundHalfUp(sum, 2 * count) <= 2
  {
    var r := RoundHalfUp(sum, 2 * count);
    if r < 1 {
      MulMonotone(2 * count, r, 0);
    } else if r > 2 {
      MulMonotone(2 * count, 3, r);
    }
  }

  /** The impact before the risk-type adjustment:
      `clamp(Math.round(avg([identifiability, idScaled])), 1, 3)`. */
  function BaseImpact(s: Record): (r: int)
    ensures 1 <= r <= 3
  {
    var id := IdScaled(SelectedWeights(s.idTypesMask));
    Clamp(Round(Avg([s.identifiability, id])), 1, 3)
  }

  /** `CONFIG.riskTypeAdj` as selected by strict comparison with 1 and 2;
      every other risk type counts as both. */
  function RiskTypeAdjustment(riskType: int): (r: int)
    ensures 0 <= r <= 2
    ensures r == 0 <==> riskType == 1
    ensures r == 1 <==> riskType == 2
  {
    if riskType == 1 then SecurityAdj else if riskType == 2 then PrivacyAdj else BothAdj
  }

  /** `clamp(impact + adj, 1, 3)`. */
  function Impact(s: Record): (r: int)
    ensures 1 <= r <= 3
  {
    Clamp(BaseImpact(s) + RiskTypeAdjustment(s.riskType), 1, 3)
  }

  /** `CONFIG.overallMatrix[likelihood - 1][impact - 1]`. */
  function OverallBand(likelihood: int, impact: int): (r: int)
    requires 1 <= likelihood <= 3 && 1 <= impact <= 3
    ensures 0 <= r <= 4
    ensures r == likelihood + impact - 2
  {
    Matrix[likelihood - 1][impact - 1]
  }

  /** The result `computeScores(s)` returns. */
  function ScoresOf(s: Record): (r: Scores)
    ensures 1 <= r.likelihood <= 3 && 1 <= r.impact <= 3
    ensures 0 <= r.overallBandIdx <= 4
    ensures r.overallBandIdx == r.likelihood + r.impact - 2
  {
    var l := Likelihood(s);
    var i := Impact(s);
    Scores(l, i, OverallBand(l, i))
  }

  /** `computeScores`: the selected weights are gathered by a loop over the
      four mask bits, then the scores are derived from them. */
  method ComputeScores(s: Record) returns (sc: Scores)
    ensures sc == ScoresOf(s)
  {
    var likelihood := Clamp(Round(Avg([s.cost, s.linkability, s.ease])), 1, 3);
    var selected := CollectSelected(s.idTypesMask);
    var idScaled := IdScaled(selected);
    var impact := Clamp(Round(Avg([s.identifiability, idScaled])), 1, 3);
    var adj := if s.riskType == 1 then SecurityAdj else if s.riskType == 2 then PrivacyAdj else BothAdj;
    impact := Clamp(impact + adj, 1, 3);
    sc := Scores(likelihood, impact, Matrix[likelihood - 1][impact - 1]);
  }

  /** The push loop of `computeScores`: for each of the four bits set in the
      mask, in order, the weight of that type is appended. */
  method CollectSelected(mask: bv4) returns (selected: seq<int>)
    ensures selected == SelectedWeights(mask)
    ensures |selected| <= 4
    ensures forall k :: 0 <= k < |selected| ==> 1 <= selected[k] <= 4
  {
    selected := [];
    for i := 0 to 4
      invariant selected == SelectedUpTo(mask, i)
    {
      if Selected(mask, i) {
        selected := selected + [WeightQuarters[i]];
      }
    }
  }

  // ---- Properties ----

  /** The matrix grows along both rows and columns, one band per step. */
  lemma MatrixMonotone(l1: int, i1: int, l2: int, i2: int)
    requires 1 <= l1 <= l2 <= 3 && 1 <= i1 <= i2 <= 3
    ensures OverallBand(l1, i1) <= OverallBand(l2, i2)
    ensures (l1 < l2 || i1 < i2) ==> OverallBand(l1, i1) < OverallBand(l2, i2)
  {
  }

  /** Likelihood never decreases when any exploitation level increases. */
  lemma LikelihoodMonotone(s: Record, t: Record)
    requires s.cost <= t.cost && s.linkability <= t.linkability && s.ease <= t.ease
    ensures Likelihood(s) <= Likelihood(t)
  {
    Sum3(s.cost, s.linkability, s.ease);
    Sum3(t.cost, t.linkability, t.ease);
    RoundHalfUpMonotone(s.cost + s.linkability + s.ease, t.cost + t.linkability + t.ease, 3);
    ClampMonotone(Round(Avg([s.cost, s.linkability, s.ease])), Round(Avg([t.cost, t.linkability, t.ease])), 1, 3);
  }

  /** Likelihood of three levels in 1..3 is their nearest integer mean;
      halves cannot occur with three values. */
  lemma LikelihoodOfLevels(s: Record)
    requires 1 <= s.cost <= 3 && 1 <= s.linkability <= 3 && 1 <= s.ease <= 3
    ensures 3 * Likelihood(s) - 1 <= s.cost + s.linkability + s.ease <= 3 * Likelihood(s) + 1
  {
    Sum3(s.cost, s.linkability, s.ease);
  }

  /** The risk-type adjustment: Security leaves the base impact alone,
      Privacy raises it by one level up to High, anything else makes it High. */
  lemma RiskTypeEffect(s: Record)
    ensures s.riskType == 1 ==> Impact(s) == BaseImpact(s)
    ensures s.riskType == 2 ==> Impact(s) == (if BaseImpact(s) == 3 then 3 else BaseImpact(s) + 1)
    ensures s.riskType != 1 && s.riskType != 2 ==> Impact(s) == 3
  {
  }

  /** Impact never decreases when identifiability increases. */
  lemma ImpactMonotoneInIdentifiability(s: Record, t: Record)
    requires s.identifiability <= t.identifiability
    requires s.idTypesMask == t.idTypesMask && s.riskType == t.riskType
    ensures Impact(s) <= Impact(t)
  {
    var id := IdScaled(SelectedWeights(s.idTypesMask));
    Sum2(s.identifiability, id);
    Sum2(t.identifiability, id);
    RoundHalfUpMonotone(s.identifiability + id, t.identifiability + id, 2);
    ClampMonotone(Round(Avg([s.identifiability, id])), Round(Avg([t.identifiability, id])), 1, 3);
    ClampMonotone(BaseImpact(s) + RiskTypeAdjustment(s.riskType), BaseImpact(t) + RiskTypeAdjustment(t.riskType), 1, 3);
  }

  /** The selection is empty exactly when no identification type is set. */
  lemma SelectionEmptyIff(mask: bv4)
    ensures SelectedWeights(mask) == [] <==> mask == 0
  {
    assert SelectedUpTo(mask, 0) == [];
  }

  /** The default record scores Medium likelihood, Medium impact and the
      Medium band: the impact mean (2 + 1) / 2 is a half that rounds up. */
  lemma DefaultScores()
    ensures ScoresOf(Defaults) == Scores(2, 2, 2)
  {
    DefaultLikelihood();
    DefaultBaseImpact();
    SecurityScores(Defaults);
  }

  /** A Security assessment keeps its base impact, so its scores follow from
      the likelihood and the base impact alone. */
  lemma SecurityScores(s: Record)
    requires s.riskType == 1
    ensures ScoresOf(s) == Scores(Likelihood(s), BaseImpact(s), Likelihood(s) + BaseImpact(s) - 2)
  {
  }

  lemma DefaultLikelihood()
    ensures Likelihood(Defaults) == 2
  {
    Sum3(2, 2, 2);
    RoundHalfUpUnique(6, 3, 2);
  }

  lemma DefaultBaseImpact()
    ensures BaseImpact(Defaults) == 2
  {
    SelectionEmptyIff(0);
    Sum2(2, 1);
    RoundHalfUpUnique(3, 2, 2);
  }

  /** Selecting only the averaging attack (weight 0.25) doubles to the half
      0.5, which rounds up: the scaled identification level is 2, not 1. */
  lemma AveragingAloneRoundsUp(mask: bv4)
    requires mask == 1
    ensures IdScaled(SelectedWeights(mask)) == 2
  {
    OnlyAveraging(mask);
    assert SelectedUpTo(mask, 1) == [1];
    assert SelectedWeights(mask) == [1];
    assert Sum([1]) == 1 + Sum([]);
    assert RoundHalfUp(1, 2) == 1;
  }

  lemma OnlyAveraging(mask: bv4)
    requires mask == 1
    ensures Selected(mask, 0) && !Selected(mask, 1) && !Selected(mask, 2) && !Selected(mask, 3)
  {
  }
}
