/** The integer parts of the ribosome-binding energetics: the largest
    helix span behind the kinetic score, the backward scan that finds where
    the ribosome binds, and the window cut out of the mRNA around a start
    codon. Energies, powers and divisions in floating point are not part of
    this model; where the program derives a float from an integer, the model
    returns the integer and names the formula. */
module Calculations {
  import opened Wrappers
  import opened Types

  /** How many bases on each side of the start codon `cutoff_mrna` keeps. */
  const CUTOFF: nat := 35

  /** A debug-build panic of the program, made an explicit outcome. */
  datatype CalcError =
    | Underflow           // a `usize` subtraction below zero
    | IndexOutOfRange     // a slice index past the end
    | Exhausted           // every pair was skipped: `num_folded_bases - counter` underflows
    | StartCodonOccluded  // "Ribosome is sitting on the start codon"
    | SliceOrder          // a slice whose start lies after its end

  // ----------------------------------------------------------------------
  // calc_kinetic_score

  /** `min_bp_prob`: exactly 1.0 when no helix spans anything, otherwise
      `span` raised to the power -1.44. */
  datatype MinBpProb = Unity | SpanPower(span: nat)

  /** The kinetic score is `largestSpan / mrnaLength` in floating point (not
      a number when the sequence is empty). */
  datatype KineticScore = KineticScore(largestSpan: nat, mrnaLength: nat, minBpProb: MinBpProb)

  /** The number of pairs the zipped iteration visits. */
  function PairCount(fold: MonoFoldResult): (n: nat)
    ensures n <= |fold.bpX| && n <= |fold.bpY|
    ensures n == |fold.bpX| || n == |fold.bpY|
  {
    if |fold.bpX| <= |fold.bpY| then |fold.bpX| else |fold.bpY|
  }

  /** A pair counts towards the span only when both ends lie within the
      sequence. */
  predicate Qualifies(fold: MonoFoldResult, i: nat)
    requires i < PairCount(fold)
  {
    fold.bpX[i] <= |fold.seqs| && fold.bpY[i] <= |fold.seqs|
  }

  /** `calc_kinetic_score`: the largest `bp_y[i] - bp_x[i]` over the
      qualifying pairs, or 0 when none qualifies. A qualifying pair whose
      closing end lies before its opening end underflows. */
  method CalcKineticScore(fold: MonoFoldResult) returns (r: Result<KineticScore, CalcError>)
    ensures r.Err? <==>
      exists i | 0 <= i < PairCount(fold) :: Qualifies(fold, i) && fold.bpY[i] < fold.bpX[i]
    ensures r.Err? ==> r.error == Underflow
    ensures r.Ok? ==> r.value.mrnaLength == |fold.seqs|
    ensures r.Ok? ==> forall i | 0 <= i < PairCount(fold) && Qualifies(fold, i) ::
      fold.bpY[i] - fold.bpX[i] <= r.value.largestSpan
    ensures r.Ok? && r.value.largestSpan > 0 ==>
      exists i | 0 <= i < PairCount(fold) && Qualifies(fold, i) ::
        fold.bpY[i] - fold.bpX[i] == r.value.largestSpan
    ensures r.Ok? ==> r.value.largestSpan <= |fold.seqs|
    ensures r.Ok? ==> (r.value.minBpProb == Unity <==> r.value.largestSpan == 0)
    ensures r.Ok? && r.value.largestSpan > 0 ==> r.value.minBpProb == SpanPower(r.value.largestSpan)
  {
    var mrnaLength := |fold.seqs|;
    var largest: nat := 0;
    var n := PairCount(fold);
    for i := 0 to n
      invariant forall j | 0 <= j < i :: Qualifies(fold, j) ==> fold.bpX[j] <= fold.bpY[j]
      invariant forall j | 0 <= j < i && Qualifies(fold, j) :: fold.bpY[j] - fold.bpX[j] <= largest
      invariant largest > 0 ==>
        exists j | 0 <= j < i && Qualifies(fold, j) :: fold.bpY[j] - fold.bpX[j] == largest
      invariant largest <= mrnaLength
    {
      var ntX := fold.bpX[i];
      var ntY := fold.bpY[i];
      if ntX <= mrnaLength && ntY <= mrnaLength {
        if ntY < ntX {
          return Err(Underflow);
        }
        var span := ntY - ntX;
        if span > largest {
          largest := span;
        }
      }
    }
    var minBpProb := if largest > 0 then SpanPower(largest) else Unity;
    return Ok(KineticScore(largest, mrnaLength, minBpProb));
  }

  // ----------------------------------------------------------------------
  // find_binding_position

  /** `j` is the highest index below `n` whose closing end reaches into the
      rRNA (is at least the mRNA length): every later pair folds back onto
      the mRNA. */
  predicate IsLastBound(bpY: seq<nat>, lenMrna: nat, n: nat, j: nat)
    requires n <= |bpY|
  {
    j < n && bpY[j] >= lenMrna && forall i | j < i < n :: bpY[i] < lenMrna
  }

  /** The backward search for the last pair below `k` binding the rRNA. */
  function LastBound(bpY: seq<nat>, lenMrna: nat, k: nat): (r: Option<nat>)
    requires k <= |bpY|
    ensures r.Some? ==> IsLastBound(bpY, lenMrna, k, r.value)
    ensures r.None? <==> forall i | 0 <= i < k :: bpY[i] < lenMrna
  {
    if k == 0 then None
    else if bpY[k - 1] >= lenMrna then Some(k - 1)
    else LastBound(bpY, lenMrna, k - 1)
  }

  /** What `find_binding_position` computes. The pairs are visited from the
      last towards the first; a pair whose closing end lies in the mRNA is
      skipped as backfolding; the first one that reaches into the rRNA
      either occludes the start codon or calibrates the position. */
  function BindingPosition(startPos: nat, fold: CoFoldResult): Result<nat, CalcError>
  {
    var n := |fold.bpX|;
    var lenMrna := |fold.seqs.0|;
    var lenRrna := |fold.seqs.1|;
    if n > 0 && |fold.bpY| < n then Err(IndexOutOfRange)
    else
      match LastBound(fold.bpY, lenMrna, n)
      case None => Err(Exhausted)
      case Some(j) =>
        if fold.bpX[j] >= startPos then Err(StartCodonOccluded)
        else if fold.bpY[j] < lenRrna then Err(Underflow)
        else if startPos - fold.bpX[j] < fold.bpY[j] - lenRrna then Err(Underflow)
        else Ok((startPos - fold.bpX[j]) - (fold.bpY[j] - lenRrna))
  }

  /** The outcomes of `find_binding_position`, each characterised by the
      pairs: too few closing ends to index, no pair reaching into the rRNA,
      the last such pair starting at or after the start codon, a calibration
      that would go below zero, or the calibrated position itself. */
  lemma BindingOutcomes(startPos: nat, fold: CoFoldResult)
    ensures var n := |fold.bpX|;
      (BindingPosition(startPos, fold) == Err(IndexOutOfRange) <==> n > 0 && |fold.bpY| < n)
    ensures var n := |fold.bpX|;
      (BindingPosition(startPos, fold) == Err(Exhausted) <==>
        n <= |fold.bpY| && forall i | 0 <= i < n :: fold.bpY[i] < |fold.seqs.0|)
    ensures var n := |fold.bpX|;
      (BindingPosition(startPos, fold) == Err(StartCodonOccluded) <==>
        n <= |fold.bpY| &&
        exists j: nat :: IsLastBound(fold.bpY, |fold.seqs.0|, n, j) && fold.bpX[j] >= startPos)
    ensures var n := |fold.bpX|;
      (BindingPosition(startPos, fold) == Err(Underflow) <==>
        n <= |fold.bpY| &&
        exists j: nat :: IsLastBound(fold.bpY, |fold.seqs.0|, n, j) && fold.bpX[j] < startPos &&
          (fold.bpY[j] < |fold.seqs.1| || startPos - fold.bpX[j] < fold.bpY[j] - |fold.seqs.1|))
    ensures var n := |fold.bpX|;
      BindingPosition(startPos, fold).Ok? ==>
        n <= |fold.bpY| &&
        exists j: nat :: IsLastBound(fold.bpY, |fold.seqs.0|, n, j) && fold.bpX[j] < startPos &&
          fold.bpY[j] >= |fold.seqs.1| &&
          BindingPosition(startPos, fold).value + (fold.bpY[j] - |fold.seqs.1|) == startPos - fold.bpX[j]
    ensures BindingPosition(startPos, fold).Err? ==>
      BindingPosition(startPos, fold).error in {IndexOutOfRange, Exhausted, StartCodonOccluded, Underflow}
  {
  }

  /** `find_binding_position`: the while loop over `counter`, with the two
      `Option` variables that end it. */
  method FindBindingPosition(startPos: nat, fold: CoFoldResult) returns (r: Result<nat, CalcError>)
    ensures r == BindingPosition(startPos, fold)
  {
    var lastBoundRrna: Option<nat> := None;
    var lastBoundMrna: Option<nat> := None;
    var lenRrna := |fold.seqs.1|;
    var lenMrna := |fold.seqs.0|;
    var numFoldedBases := |fold.bpX|;
    var counter: nat := 1;
    ghost var found: nat := 0;
    while lastBoundRrna.None?
      invariant 1 <= counter <= numFoldedBases + 1
      invariant counter > 1 ==> numFoldedBases <= |fold.bpY|
      invariant lastBoundRrna.None? ==>
        (counter == 1 ||
         LastBound(fold.bpY, lenMrna, numFoldedBases) ==
         LastBound(fold.bpY, lenMrna, numFoldedBases - counter + 1))
      invariant lastBoundRrna.Some? ==>
        counter > 1 && found == numFoldedBases - counter + 1 &&
        LastBound(fold.bpY, lenMrna, numFoldedBases) == Some(found) &&
        lastBoundRrna == Some(fold.bpY[found]) && lastBoundMrna == Some(fold.bpX[found]) &&
        fold.bpX[found] < startPos
      invariant lastBoundRrna.Some? <==> lastBoundMrna.Some?
      decreases numFoldedBases + 1 - counter, if lastBoundRrna.None? then 1 else 0
    {
      if counter > numFoldedBases {
        return Err(Exhausted);
      }
      var index := numFoldedBases - counter;
      if index >= |fold.bpY| {
        return Err(IndexOutOfRange);
      }
      var rrna := fold.bpY[index];
      var mrna := fold.bpX[index];
      if rrna < lenMrna {
        // mRNA backfolding
      } else if mrna >= startPos {
        return Err(StartCodonOccluded);
      } else {
        lastBoundRrna, lastBoundMrna := Some(rrna), Some(mrna);
        found := index;
      }
      counter := counter + 1;
    }
    var boundMrna := lastBoundMrna.value;
    var boundRrna := lastBoundRrna.value;
    assert numFoldedBases <= |fold.bpY| && LastBound(fold.bpY, lenMrna, numFoldedBases) == Some(found);
    assert boundMrna == fold.bpX[found] < startPos && boundRrna == fold.bpY[found];
    if boundRrna < lenRrna {
      return Err(Underflow);
    }
    var beforeStart := startPos - boundMrna;
    var intoRrna := boundRrna - lenRrna;
    if beforeStart < intoRrna {
      return Err(Underflow);
    }
    return Ok(beforeStart - intoRrna);
  }

  // ----------------------------------------------------------------------
  // cutoff_mrna

  /** The first index kept: `max(0, start_pos - CUTOFF)`. */
  function WindowStart(startPos: nat): nat
  {
    if startPos >= CUTOFF then startPos - CUTOFF else 0
  }

  /** One past the last index kept: `min(len, start_pos + CUTOFF)`. */
  function WindowEnd(len: nat, startPos: nat): nat
  {
    if len <= startPos + CUTOFF then len else startPos + CUTOFF
  }

  /** `cutoff_mrna`: the bases within CUTOFF of the start codon, clipped to
      the sequence. A start position more than CUTOFF past the end puts the
      slice's start after its end, which panics. */
  function CutoffMrna(mrna: string, startPos: nat): (r: Result<string, CalcError>)
    ensures r.Ok? <==> startPos <= |mrna| + CUTOFF
    ensures r.Err? ==> r.error == SliceOrder
    ensures r.Ok? ==> |r.value| <= 2 * CUTOFF
    ensures r.Ok? ==> forall p | 0 <= p < |mrna| && p + CUTOFF >= startPos && p < startPos + CUTOFF ::
      p - WindowStart(startPos) < |r.value| && r.value[p - WindowStart(startPos)] == mrna[p]
    ensures r.Ok? ==> WindowStart(startPos) + |r.value| <= |mrna|
    ensures r.Ok? ==> WindowStart(startPos) + |r.value| <= startPos + CUTOFF
    ensures r.Ok? ==>
      WindowStart(startPos) + |r.value| == |mrna| || WindowStart(startPos) + |r.value| == startPos + CUTOFF
  {
    var lower := WindowStart(startPos);
    var upper := WindowEnd(|mrna|, startPos);
    if lower <= upper then Ok(mrna[lower..upper]) else Err(SliceOrder)
  }

  /** Far enough from both ends, the window has its full width and the
      start codon sits CUTOFF bases into it. */
  lemma CutoffCentresStart(mrna: string, startPos: nat)
    requires CUTOFF <= startPos && startPos + CUTOFF <= |mrna|
    ensures CutoffMrna(mrna, startPos).Ok?
    ensures |CutoffMrna(mrna, startPos).value| == 2 * CUTOFF
    ensures CutoffMrna(mrna, startPos).value[CUTOFF..] == mrna[startPos..startPos + CUTOFF]
  {
    var w := CutoffMrna(mrna, startPos).value;
    assert w == mrna[startPos - CUTOFF..startPos + CUTOFF];
  }
}
