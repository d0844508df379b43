/** The start-codon scan at the beginning of `ostir`: for each of eight
    codons in a fixed order, every non-overlapping occurrence in the record,
    found left to right, tagged with the codon. */
module StartCodons {

  /** The codons tried, in the order they are tried. */
  const START_CODONS: seq<string> := ["ATG", "GTG", "TTG", "CTG", "AUG", "GUG", "UUG", "CUG"]

  /** `pat` occurs in `text` at `i`. */
  predicate OccursAt(text: string, pat: string, i: nat)
  {
    i + |pat| <= |text| && text[i..i + |pat|] == pat
  }

  /** `str::match_indices` from position `from` on: the leftmost
      occurrence, then the search resumes after it. */
  function MatchIndices(text: string, pat: string, from: nat): (r: seq<nat>)
    requires |pat| > 0 && from <= |text|
    ensures forall k | 0 <= k < |r| :: from <= r[k] && OccursAt(text, pat, r[k])
    ensures forall k | 0 <= k < |r| - 1 :: r[k] + |pat| <= r[k + 1]
    decreases |text| - from
  {
    if |text| - from < |pat| then []
    else if text[from..from + |pat|] == pat then [from] + MatchIndices(text, pat, from + |pat|)
    else MatchIndices(text, pat, from + 1)
  }

  /** Every occurrence from `from` on is reported, unless it overlaps the
      end of one that was reported before it. */
  lemma {:induction false} MatchIndicesComplete(text: string, pat: string, from: nat, i: nat)
    requires |pat| > 0 && from <= i <= |text|
    requires OccursAt(text, pat, i)
    ensures i in MatchIndices(text, pat, from) ||
      exists h | h in MatchIndices(text, pat, from) :: h < i < h + |pat|
    decreases |text| - from
  {
    var r := MatchIndices(text, pat, from);
    if from == i {
      assert text[from..from + |pat|] == pat;
      assert r[0] == i;
    } else if text[from..from + |pat|] == pat {
      assert r[0] == from;
      if i < from + |pat| {
        assert from in r;
      } else {
        MatchIndicesComplete(text, pat, from + |pat|, i);
        var rest := MatchIndices(text, pat, from + |pat|);
        assert r == [from] + rest;
        assert forall h | h in rest :: h in r;
      }
    } else {
      MatchIndicesComplete(text, pat, from + 1, i);
    }
  }

  /** No proper prefix of `pat` is also a suffix of it. */
  predicate NotSelfOverlapping(pat: string)
  {
    forall d | 0 < d < |pat| :: pat[d..] != pat[..|pat| - d]
  }

  /** For a codon that cannot overlap itself, every occurrence is found. */
  lemma AllOccurrencesFound(text: string, pat: string, i: nat)
    requires |pat| > 0 && NotSelfOverlapping(pat)
    requires OccursAt(text, pat, i)
    ensures i in MatchIndices(text, pat, 0)
  {
    MatchIndicesComplete(text, pat, 0, i);
    if i !in MatchIndices(text, pat, 0) {
      var h :| h in MatchIndices(text, pat, 0) && h < i < h + |pat|;
      OverlapIsBorder(text, pat, h, i);
      assert false;
    }
  }

  /** Two occurrences that overlap make the overlap a border of `pat`. */
  lemma OverlapIsBorder(text: string, pat: string, h: nat, i: nat)
    requires OccursAt(text, pat, h) && OccursAt(text, pat, i)
    requires h < i < h + |pat|
    ensures pat[i - h..] == pat[..|pat| - (i - h)]
  {
    var d := i - h;
    assert pat[d..] == text[i..h + |pat|];
    assert pat[..|pat| - d] == text[i..h + |pat|];
  }

  /** A three-letter pattern overlaps itself exactly when it begins and
      ends with the same letter. */
  lemma ThreeLetterOverlap(pat: string)
    requires |pat| == 3
    ensures NotSelfOverlapping(pat) <==> pat[0] != pat[2]
  {
    assert pat[2..] == [pat[2]] && pat[..1] == [pat[0]];
    assert pat[1..] == [pat[1], pat[2]] && pat[..2] == [pat[0], pat[1]];
  }

  /** Every start codon but GTG and GUG (the second and the sixth) cannot
      overlap itself. */
  lemma CodonOverlaps(k: nat)
    requires k < |START_CODONS|
    ensures NotSelfOverlapping(START_CODONS[k]) <==> k != 1 && k != 5
  {
    var c := START_CODONS[k];
    ThreeLetterOverlap(c);
    if k == 0 { assert c == "ATG"; }
    else if k == 1 { assert c == "GTG"; }
    else if k == 2 { assert c == "TTG"; }
    else if k == 3 { assert c == "CTG"; }
    else if k == 4 { assert c == "AUG"; }
    else if k == 5 { assert c == "GUG"; }
    else if k == 6 { assert c == "UUG"; }
    else { assert c == "CUG"; }
  }

  /** In "GTGTG" GTG occurs at 0 and at 2, but only 0 is reported. */
  lemma GtgOverlapExample(text: string)
    requires text == "GTGTG"
    ensures OccursAt(text, "GTG", 2)
    ensures MatchIndices(text, "GTG", 0) == [0]
  {
    assert text[0..3] == "GTG";
    assert text[2..5] == "GTG";
    assert MatchIndices(text, "GTG", 3) == [];
  }

  /** One `(index, codon)` entry per match. */
  function Tagged(hits: seq<nat>, codon: string): (r: seq<(nat, string)>)
    ensures |r| == |hits|
    ensures forall k | 0 <= k < |r| :: r[k] == (hits[k], codon)
  {
    seq(|hits|, k requires 0 <= k < |hits| => (hits[k], codon))
  }

  /** Every pattern of the list is non-empty. */
  predicate Patterns(codons: seq<string>)
  {
    forall k | 0 <= k < |codons| :: |codons[k]| > 0
  }

  /** No pattern appears twice in the list. */
  predicate Distinct(codons: seq<string>)
  {
    forall k, l | 0 <= k < l < |codons| :: codons[k] != codons[l]
  }

  /** The start codons are eight distinct three-letter patterns. */
  lemma StartCodonsWellFormed()
    ensures |START_CODONS| == 8 && Patterns(START_CODONS) && Distinct(START_CODONS)
  {
  }

  /** The entries the scan has collected after the first `n` patterns of
      `codons`. */
  function Collected(record: string, codons: seq<string>, n: nat): seq<(nat, string)>
    requires Patterns(codons) && n <= |codons|
  {
    if n == 0 then []
    else Collected(record, codons, n - 1) + Tagged(MatchIndices(record, codons[n - 1], 0), codons[n - 1])
  }

  /** The scan loop of `ostir`. */
  method StartCodonPositions(record: string) returns (positions: seq<(nat, string)>)
    ensures Patterns(START_CODONS)
    ensures positions == Collected(record, START_CODONS, |START_CODONS|)
  {
    StartCodonsWellFormed();
    positions := [];
    for k := 0 to |START_CODONS|
      invariant positions == Collected(record, START_CODONS, k)
    {
      var codon := START_CODONS[k];
      var result := Tagged(MatchIndices(record, codon, 0), codon);
      positions := positions + result;
    }
  }

  /** The position of a pattern in the list: its first occurrence. */
  function Rank(codons: seq<string>, codon: string): (r: nat)
    requires codon in codons
    ensures r < |codons| && codons[r] == codon
    ensures forall j | 0 <= j < r :: codons[j] != codon
  {
    if codons[0] == codon then 0 else 1 + Rank(codons[1..], codon)
  }

  /** In a list without repeats, the `k`-th pattern has rank `k`. */
  lemma RankOf(codons: seq<string>, k: nat)
    requires Distinct(codons) && k < |codons|
    ensures Rank(codons, codons[k]) == k
  {
  }

  /** Every entry is a pattern among the first `n` that really occurs at
      its index. */
  lemma {:induction false} CollectedOccur(record: string, codons: seq<string>, n: nat)
    requires Patterns(codons) && Distinct(codons) && n <= |codons|
    ensures forall k | 0 <= k < |Collected(record, codons, n)| ::
      var e := Collected(record, codons, n)[k];
      e.1 in codons && Rank(codons, e.1) < n && OccursAt(record, e.1, e.0)
  {
    if n > 0 {
      CollectedOccur(record, codons, n - 1);
      var prev := Collected(record, codons, n - 1);
      var codon := codons[n - 1];
      var hits := MatchIndices(record, codon, 0);
      var group := Tagged(hits, codon);
      var c := Collected(record, codons, n);
      assert c == prev + group;
      RankOf(codons, n - 1);
      forall k | 0 <= k < |c|
        ensures c[k].1 in codons && Rank(codons, c[k].1) < n && OccursAt(record, c[k].1, c[k].0)
      {
        if k < |prev| {
          assert c[k] == prev[k];
        } else {
          assert c[k] == group[k - |prev|] == (hits[k - |prev|], codon);
        }
      }
    }
  }

  /** The entries come grouped by pattern in list order, and within one
      pattern with ascending, non-overlapping indices. */
  lemma {:induction false} CollectedOrder(record: string, codons: seq<string>, n: nat)
    requires Patterns(codons) && Distinct(codons) && n <= |codons|
    ensures forall k, l | 0 <= k < l < |Collected(record, codons, n)| ::
      var c := Collected(record, codons, n);
      c[k].1 in codons && c[l].1 in codons &&
      Rank(codons, c[k].1) <= Rank(codons, c[l].1) &&
      (c[k].1 == c[l].1 ==> c[k].0 + |c[k].1| <= c[l].0)
  {
    CollectedOccur(record, codons, n);
    if n > 0 {
      CollectedOrder(record, codons, n - 1);
      CollectedOccur(record, codons, n - 1);
      var prev := Collected(record, codons, n - 1);
      var codon := codons[n - 1];
      var hits := MatchIndices(record, codon, 0);
      var group := Tagged(hits, codon);
      var c := Collected(record, codons, n);
      assert c == prev + group;
      RankOf(codons, n - 1);
      forall k, l | 0 <= k < l < |c|
        ensures Rank(codons, c[k].1) <= Rank(codons, c[l].1) && (c[k].1 == c[l].1 ==> c[k].0 + |c[k].1| <= c[l].0)
      {
        if l < |prev| {
          assert c[k] == prev[k] && c[l] == prev[l];
        } else if k < |prev| {
          assert c[k] == prev[k] && c[l] == group[l - |prev|] == (hits[l - |prev|], codon);
        } else {
          assert c[k] == group[k - |prev|] == (hits[k - |prev|], codon);
          assert c[l] == group[l - |prev|] == (hits[l - |prev|], codon);
          AscendingGap(hits, |codon|, k - |prev|, l - |prev|);
        }
      }
    }
  }

  /** Consecutive gaps of at least `w` add up to a gap of at least `w`
      between any two matches. */
  lemma {:induction false} AscendingGap(hits: seq<nat>, w: nat, k: nat, l: nat)
    requires forall j | 0 <= j < |hits| - 1 :: hits[j] + w <= hits[j + 1]
    requires k < l < |hits|
    ensures hits[k] + w <= hits[l]
    decreases l - k
  {
    if k + 1 < l {
      AscendingGap(hits, w, k + 1, l);
    }
  }

  /** Every occurrence of a pattern that cannot overlap itself is
      reported. */
  lemma EveryOccurrenceReported(record: string, codons: seq<string>, k: nat, i: nat)
    requires Patterns(codons) && k < |codons| && NotSelfOverlapping(codons[k])
    requires OccursAt(record, codons[k], i)
    ensures (i, codons[k]) in Collected(record, codons, |codons|)
  {
    AllOccurrencesFound(record, codons[k], i);
    TaggedHas(MatchIndices(record, codons[k], 0), codons[k], i);
    GroupCollected(record, codons, k, (i, codons[k]));
  }

  /** The scan reports every occurrence of the `k`-th start codon when that
      is ATG, TTG, CTG, AUG, UUG or CUG (all but the second and the sixth). */
  lemma EveryNonOverlappingCodonReported(record: string, k: nat, i: nat)
    requires k < |START_CODONS| && k != 1 && k != 5
    requires OccursAt(record, START_CODONS[k], i)
    ensures Patterns(START_CODONS)
    ensures (i, START_CODONS[k]) in Collected(record, START_CODONS, |START_CODONS|)
  {
    StartCodonsWellFormed();
    CodonOverlaps(k);
    EveryOccurrenceReported(record, START_CODONS, k, i);
  }

  /** A match becomes an entry tagged with its pattern. */
  lemma TaggedHas(hits: seq<nat>, codon: string, i: nat)
    requires i in hits
    ensures (i, codon) in Tagged(hits, codon)
  {
    var j :| 0 <= j < |hits| && hits[j] == i;
    assert Tagged(hits, codon)[j] == (i, codon);
  }

  /** The entries of the `k`-th pattern's group stay in the final list. */
  lemma GroupCollected(record: string, codons: seq<string>, k: nat, x: (nat, string))
    requires Patterns(codons) && k < |codons|
    requires x in Tagged(MatchIndices(record, codons[k], 0), codons[k])
    ensures x in Collected(record, codons, |codons|)
  {
    var group := Tagged(MatchIndices(record, codons[k], 0), codons[k]);
    var before := Collected(record, codons, k);
    CollectedGrows(record, codons, k + 1, |codons|);
    assert Collected(record, codons, k + 1) == before + group;
    InPrefix(before, group, Collected(record, codons, |codons|), x);
  }

  /** What a prefix holds, the whole sequence holds. */
  lemma InPrefix<T>(a: seq<T>, b: seq<T>, c: seq<T>, x: T)
    requires a + b <= c && x in b
    ensures x in c
  {
    var j :| 0 <= j < |b| && b[j] == x;
    assert (a + b)[|a| + j] == x;
    assert c[|a| + j] == x;
  }

  /** Later patterns only add entries after the earlier ones. */
  lemma {:induction false} CollectedGrows(record: string, codons: seq<string>, m: nat, n: nat)
    requires Patterns(codons) && m <= n <= |codons|
    ensures Collected(record, codons, m) <= Collected(record, codons, n)
    decreases n - m
  {
    if m < n {
      CollectedGrows(record, codons, m, n - 1);
    }
  }
}
