/** The assessment record the rater edits and shares (the `state` object of
    app.js), the configuration constants the scoring engine and the codec
    read (`CONFIG`), and the bit toggle of the identification-type mask. */
module Assessment {
  import opened Helpers

  /** One privacy-risk assessment. Levels are 1 (Low) to 3 (High) when set
      through the rater; riskType is 1 (Security), 2 (Privacy) or 3 (both);
      bit i of idTypesMask selects identification type i (averaging attack,
      singling out, inference, linkage). A decoded code can carry level 4.
      The mask is only ever read and written by JavaScript's bitwise
      operators; the defaults, a decoded code and a toggle of one of the four
      types all leave bits 4 and up clear, so the model stores the low four
      bits. */
  datatype Record = Record(
    cost: int,
    linkability: int,
    ease: int,
    identifiability: int,
    riskType: int,
    idTypesMask: bv4)

  /** The record the rater starts from and `resetAll` restores. */
  const Defaults: Record := Record(2, 2, 2, 2, 1, 0)

  /** `CONFIG.version`, the first byte of every code. */
  const Version: bv8 := 1

  /** `CONFIG.overallMatrix`: rows are likelihood 1..3, columns impact 1..3,
      entries the overall band 0 (Informational) .. 4 (Critical). */
  const Matrix: seq<seq<int>> := [[0, 1, 2], [1, 2, 3], [2, 3, 4]]

  /** `CONFIG.idTypeWeights` in quarters, in mask-bit order: averaging 0.25,
      singling out 1.0, inference 0.5, linkage 0.75. */
  const WeightQuarters: seq<int> := [1, 4, 2, 3]

  /** `CONFIG.riskTypeAdj`: security 0, privacy 1, both 2. */
  const SecurityAdj: int := 0
  const PrivacyAdj: int := 1
  const BothAdj: int := 2

  /** Every level and the risk type in 1..3: the records the rater's own
      controls produce. */
  predicate InUiRange(r: Record)
  {
    1 <= r.cost <= 3 && 1 <= r.linkability <= 3 && 1 <= r.ease <= 3 &&
    1 <= r.identifiability <= 3 && 1 <= r.riskType <= 3
  }

  /** Every level and the risk type in 1..4: the records a 16-bit code can
      describe. */
  predicate InCodeRange(r: Record)
  {
    1 <= r.cost <= 4 && 1 <= r.linkability <= 4 && 1 <= r.ease <= 4 &&
    1 <= r.identifiability <= 4 && 1 <= r.riskType <= 4
  }

  lemma DefaultsInRange()
    ensures InUiRange(Defaults) && InCodeRange(Defaults)
    ensures Defaults.idTypesMask == 0 && Defaults.riskType == 1
  {
  }

  /** `mask & (1 << i)` is non-zero: identification type `i` (0..3) is
      selected. */
  predicate Selected(mask: bv4, i: nat)
  {
    if i == 0 then mask & 1 != 0
    else if i == 1 then mask & 2 != 0
    else if i == 2 then mask & 4 != 0
    else i == 3 && mask & 8 != 0
  }

  /** `toggleIdType`'s update, `mask ^= (1 << idx)`: type `idx` changes
      between selected and not selected, every other type stays as it was. */
  function ToggleBit(mask: bv4, idx: nat): (r: bv4)
    requires idx < 4
    ensures forall j :: 0 <= j < 4 ==> (Selected(r, j) <==> (Selected(mask, j) != (j == idx)))
  {
    if idx == 0 then mask ^ 1
    else if idx == 1 then mask ^ 2
    else if idx == 2 then mask ^ 4
    else mask ^ 8
  }

  /** Toggling the same type twice restores the mask. */
  lemma ToggleTwice(mask: bv4, idx: nat)
    requires idx < 4
    ensures ToggleBit(ToggleBit(mask, idx), idx) == mask
  {
  }

  /** Two masks that select the same types are the same mask. */
  lemma MaskBySelection(m1: bv4, m2: bv4)
    requires forall j :: 0 <= j < 4 ==> (Selected(m1, j) <==> Selected(m2, j))
    ensures m1 == m2
  {
    assert Selected(m1, 0) == Selected(m2, 0);
    assert Selected(m1, 1) == Selected(m2, 1);
    assert Selected(m1, 2) == Selected(m2, 2);
    assert Selected(m1, 3) == Selected(m2, 3);
  }

  /** The toggled mask is the only mask that flips type idx and keeps the
      other three types: `mask ^ (1 << idx)` is determined by what it selects. */
  lemma ToggleBitUnique(mask: bv4, idx: nat, m: bv4)
    requires idx < 4
    requires forall j :: 0 <= j < 4 ==> (Selected(m, j) <==> (Selected(mask, j) != (j == idx)))
    ensures m == ToggleBit(mask, idx)
  {
    MaskBySelection(m, ToggleBit(mask, idx));
  }
}
