/** The GPA band of a predicted score (gpa_range) and the 2.0 eligibility
    threshold that the prediction page counts against. */
module GpaBand {
  import opened Seqs

  /** The six labels gpa_range returns, lowest band first. */
  const Labels: seq<string> :=
    ["0.0 – 1.5", "1.5 – 2.0", "2.0 – 2.5", "2.5 – 3.0", "3.0 – 3.5", "3.5 – 4.0"]

  /** Inclusive lower bounds of bands 1 to 5; band 0 has no lower bound and
      band 5 no upper bound. */
  const Cuts: seq<real> := [1.5, 2.0, 2.5, 3.0, 3.5]

  /** A prediction at or above this is counted as an eligible GPA. */
  const PassMark: real := 2.0

  /** gpa_range: the first threshold the score is below decides the band. */
  function GpaRange(val: real): (band: string)
    ensures band in Labels
  {
    if val < 1.5 then "0.0 – 1.5"
    else if val < 2.0 then "1.5 – 2.0"
    else if val < 2.5 then "2.0 – 2.5"
    else if val < 3.0 then "2.5 – 3.0"
    else if val < 3.5 then "3.0 – 3.5"
    else "3.5 – 4.0"
  }

  /** Band k is the half-open interval [Cuts[k-1], Cuts[k]), unbounded
      below for k = 0 and above for k = 5. */
  predicate InBand(val: real, k: nat)
    requires k < |Labels|
  {
    (k == 0 || Cuts[k - 1] <= val) && (k == |Labels| - 1 || val < Cuts[k])
  }

  /** Reference definition of the band: the number of cuts at or below val. */
  function BandIndex(val: real): (k: nat)
    ensures k < |Labels|
  {
    Count(Cuts, c => c <= val)
  }

  lemma LabelsDistinct()
    ensures Distinct(Labels)
  {
  }

  lemma CutsIncreasing()
    ensures forall i, j :: 0 <= i < j < |Cuts| ==> Cuts[i] < Cuts[j]
  {
  }

  /** The bands partition the real line: each score lies in exactly the band
      whose label gpa_range returns, inclusive at the lower bound. */
  lemma GpaRangeIsItsBand(val: real, k: nat)
    requires k < |Labels|
    ensures GpaRange(val) == Labels[k] <==> InBand(val, k)
  {
    LabelsDistinct();
  }

  /** gpa_range returns the label at position BandIndex(val). */
  lemma GpaRangeAtBandIndex(val: real)
    ensures GpaRange(val) == Labels[BandIndex(val)]
  {
    var le := (c: real) => c <= val;
    assert Cuts[1..][1..][1..][1..][1..] == [];
    assert Count(Cuts, le) ==
      (if 1.5 <= val then 1 else 0) + (if 2.0 <= val then 1 else 0) + (if 2.5 <= val then 1 else 0)
      + (if 3.0 <= val then 1 else 0) + (if 3.5 <= val then 1 else 0);
  }

  /** gpa_range is monotone: a higher score never gets a lower band. */
  lemma GpaRangeMonotone(a: real, b: real)
    requires a <= b
    ensures FirstIndex(Labels, GpaRange(a)) <= FirstIndex(Labels, GpaRange(b))
  {
    LabelsDistinct();
    GpaRangeAtBandIndex(a);
    GpaRangeAtBandIndex(b);
    BandIndexMonotone(Cuts, a, b);
    assert forall k :: 0 <= k < |Labels| ==> FirstIndex(Labels, Labels[k]) == k;
  }

  lemma {:induction false} BandIndexMonotone(cuts: seq<real>, a: real, b: real)
    requires a <= b
    ensures Count(cuts, c => c <= a) <= Count(cuts, c => c <= b)
  {
    if cuts != [] {
      BandIndexMonotone(cuts[1..], a, b);
    }
  }

  /** A prediction is eligible (at least 2.0) exactly when its band is one of
      the four from "2.0 – 2.5" upwards. */
  lemma EligibleIffUpperBand(p: real)
    ensures p >= PassMark <==> GpaRange(p) in Labels[2..]
  {
    LabelsDistinct();
  }

  /** The boundary cases: 2.0 is the lowest score of its band, 1.9999 falls
      below it, negative scores and scores above 4 land in the end bands. */
  lemma BandBoundaries()
    ensures GpaRange(2.0) == "2.0 – 2.5" && GpaRange(1.9999) == "1.5 – 2.0"
    ensures GpaRange(-0.5) == "0.0 – 1.5" && GpaRange(4.7) == "3.5 – 4.0"
  {
  }

}
