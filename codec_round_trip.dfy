/** The codec in both directions: the decoder ignores strand markers except
    through the stripped positions; the encoder's output, markers removed,
    is one character per position; and decoding what the encoder wrote for
    well-formed, non-crossing pairs gives the pairs back, with the decoder's
    closing offset and its shift by one. */
module CodecRoundTrip {
  import opened Wrappers
  import opened ViennaWrapper
  import opened CodecProofs

  // ----------------------------------------------------------------------
  // Removing markers

  lemma {:induction false} StripConcat(a: string, b: string)
    ensures StripMarkers(a + b) == StripMarkers(a) + StripMarkers(b)
    decreases |b|
  {
    if |b| == 0 {
      assert a + b == a;
    } else {
      var b' := b[..|b| - 1];
      assert (a + b)[..|a + b| - 1] == a + b';
      StripConcat(a, b');
    }
  }

  lemma {:induction false} StripNoMarker(s: string)
    requires '&' !in s
    ensures StripMarkers(s) == s
    ensures CountChar(s, '&') == 0
  {
    if |s| > 0 {
      var s' := s[..|s| - 1];
      assert s[|s| - 1] != '&' by { assert s[|s| - 1] in s; }
      assert '&' !in s' by {
        assert forall i | 0 <= i < |s'| :: s'[i] == s[i];
      }
      StripNoMarker(s');
      assert s == s' + [s[|s| - 1]];
    }
  }

  /** Removing markers keeps every other character. */
  lemma {:induction false} StripCount(s: string, c: char)
    requires c != '&'
    ensures CountChar(StripMarkers(s), c) == CountChar(s, c)
  {
    if |s| > 0 {
      var s' := s[..|s| - 1];
      StripCount(s', c);
      var t := StripMarkers(s);
      assert CountChar(s, c) == CountChar(s', c) + (if s[|s| - 1] == c then 1 else 0);
      if s[|s| - 1] != '&' {
        assert t == StripMarkers(s') + [s[|s| - 1]];
        assert t[..|t| - 1] == StripMarkers(s');
        assert CountChar(t, c) == CountChar(t[..|t| - 1], c) + (if t[|t| - 1] == c then 1 else 0);
      } else {
        assert t == StripMarkers(s');
      }
    }
  }

  /** The markers removed from a prefix give a prefix. */
  lemma StripPrefix(s: string, k: nat)
    requires k <= |s|
    ensures StripMarkers(s[..k]) <= StripMarkers(s)
  {
    assert s == s[..k] + s[k..];
    StripConcat(s[..k], s[k..]);
  }

  lemma StripLast(s: string, k: nat)
    requires k < |s|
    ensures StripMarkers(s[..k + 1]) == StripMarkers(s[..k]) + (if s[k] == '&' then [] else [s[k]])
  {
    assert s[..k + 1][..k] == s[..k];
  }

  // ----------------------------------------------------------------------
  // The decoder does not see markers

  /** A scan outcome with the marker count dropped. */
  function Forget(r: Result<ScanState, CodecError>): Result<ScanState, CodecError>
  {
    match r
    case Err(e) => Err(e)
    case Ok(st) => Ok(st.(numStrands := 0))
  }

  /** A character other than `&` does the same at the same stripped
      position, whatever the marker count. */
  lemma StepForget(st: ScanState, pos: nat, c: char)
    requires st.numStrands <= pos && c != '&'
    ensures Forget(Step(st, pos, c)) == Step(st.(numStrands := 0), pos - st.numStrands, c)
    ensures Step(st, pos, c).Ok? ==> Step(st, pos, c).value.numStrands == st.numStrands
  {
  }

  /** After `k` characters of `s` the scan is where the scan of the
      stripped string is after the same characters without their markers,
      and the marker count is the markers read. */
  predicate StripAgrees(s: string, k: nat)
    requires k <= |s|
  {
    && k - CountChar(s[..k], '&') <= |StripMarkers(s)|
    && (ScanTo(s, k).Ok? ==> ScanTo(s, k).value.numStrands == CountChar(s[..k], '&'))
    && Forget(ScanTo(s, k)) == ScanTo(StripMarkers(s), k - CountChar(s[..k], '&'))
  }

  lemma {:induction false} ScanStrip(s: string, k: nat)
    requires k <= |s|
    ensures StripAgrees(s, k)
  {
    if k == 0 {
      ScanStripStart(s);
    } else {
      ScanStrip(s, k - 1);
      ScanStripStep(s, k - 1);
    }
  }

  /** Both scans start from one zero slot per `)`: removing markers keeps
      the `)`. */
  lemma ScanStripStart(s: string)
    ensures StripAgrees(s, 0)
  {
    assert s[..0] == [];
    StripCount(s, ')');
  }

  lemma ScanStripStep(s: string, k: nat)
    requires k < |s| && StripAgrees(s, k)
    ensures StripAgrees(s, k + 1)
  {
    if s[k] == '&' {
      MarkerAgrees(s, k);
    } else {
      OtherAgrees(s, k);
    }
  }

  lemma MarkerAgrees(s: string, k: nat)
    requires k < |s| && s[k] == '&' && StripAgrees(s, k)
    ensures StripAgrees(s, k + 1)
  {
    CountStep(s, k, '&');
    MarkerStep(s, k);
  }

  lemma OtherAgrees(s: string, k: nat)
    requires k < |s| && s[k] != '&' && StripAgrees(s, k)
    ensures StripAgrees(s, k + 1)
  {
    var j := k - CountChar(s[..k], '&');
    StrippedIndex(s, k);
    CountStep(s, k, '&');
    OtherStep(s, k, j);
  }

  /** A character other than `&` at index `k` sits in the stripped string
      at `k` less the markers before it. */
  lemma StrippedIndex(s: string, k: nat)
    requires k < |s| && s[k] != '&'
    ensures var j := k - CountChar(s[..k], '&');
      0 <= j < |StripMarkers(s)| && StripMarkers(s)[j] == s[k]
  {
    StripPrefix(s, k + 1);
    StripLast(s, k);
    assert |StripMarkers(s[..k])| == k - CountChar(s[..k], '&');
    assert StripMarkers(s[..k + 1])[k - CountChar(s[..k], '&')] == s[k];
  }

  /** A marker only counts. */
  lemma MarkerStep(s: string, k: nat)
    requires k < |s| && s[k] == '&'
    requires ScanTo(s, k).Ok? ==> ScanTo(s, k).value.numStrands == CountChar(s[..k], '&')
    ensures ScanTo(s, k + 1).Ok? ==> ScanTo(s, k + 1).value.numStrands == CountChar(s[..k], '&') + 1
    ensures Forget(ScanTo(s, k + 1)) == Forget(ScanTo(s, k))
  {
    var prev := ScanTo(s, k);
    if prev.Ok? {
      assert ScanTo(s, k + 1) == Ok(prev.value.(numStrands := prev.value.numStrands + 1));
    }
  }

  /** Any other character is the next character of the stripped string. */
  lemma OtherStep(s: string, k: nat, j: nat)
    requires k < |s| && s[k] != '&'
    requires ScanTo(s, k).Ok? ==> ScanTo(s, k).value.numStrands == k - j
    requires j < |StripMarkers(s)| && StripMarkers(s)[j] == s[k]
    requires Forget(ScanTo(s, k)) == ScanTo(StripMarkers(s), j)
    ensures ScanTo(s, k + 1).Ok? ==> ScanTo(s, k + 1).value.numStrands == k - j
    ensures Forget(ScanTo(s, k + 1)) == ScanTo(StripMarkers(s), j + 1)
  {
    var prev := ScanTo(s, k);
    var t := StripMarkers(s);
    var tprev := ScanTo(t, j);
    if prev.Ok? {
      assert ScanTo(s, k + 1) == Step(prev.value, k, s[k]);
      assert tprev == Ok(prev.value.(numStrands := 0));
      assert ScanTo(t, j + 1) == Step(prev.value.(numStrands := 0), j, s[k]);
      StepForget(prev.value, k, s[k]);
    } else {
      assert ScanTo(s, k + 1) == prev;
      assert ScanTo(t, j + 1) == tprev;
    }
  }

  /** What `eval_structure` hands to the library, the string without its
      markers, decodes exactly like the string itself. */
  lemma DecodeIgnoresMarkers(s: string)
    ensures Decode(StripMarkers(s)) == Decode(s)
  {
    ScanStrip(s, |s|);
    assert s[..|s|] == s;
  }

  // ----------------------------------------------------------------------
  // What the encoder writes

  lemma SegmentConcat(offset: nat, a: nat, b: nat, openings: seq<nat>, closings: seq<nat>)
    ensures Segment(offset, a, openings, closings) + Segment(offset + a, b, openings, closings)
         == Segment(offset, a + b, openings, closings)
  {
  }

  lemma {:induction false} EncodeStrandsStripped(strands: seq<string>, k: nat, openings: seq<nat>, closings: seq<nat>)
    requires k <= |strands|
    ensures StripMarkers(EncodeStrands(strands, k, openings, closings)) == Segment(0, Offset(strands, k), openings, closings)
  {
    if k == 0 {
      assert Segment(0, 0, openings, closings) == [];
    } else {
      EncodeStrandsStripped(strands, k - 1, openings, closings);
      var prev := EncodeStrands(strands, k - 1, openings, closings);
      var sep: string := if k > 1 then "&" else "";
      var offset := Offset(strands, k - 1);
      var seg := Segment(offset, |strands[k - 1]|, openings, closings);
      assert EncodeStrands(strands, k, openings, closings) == prev + sep + seg;
      StrippedStep(prev, sep, offset, |strands[k - 1]|, openings, closings);
      assert Offset(strands, k) == offset + |strands[k - 1]|;
    }
  }

  /** One more strand adds its segment to what the markers leave. */
  lemma StrippedStep(prev: string, sep: string, offset: nat, len: nat, openings: seq<nat>, closings: seq<nat>)
    requires sep == "&" || sep == ""
    requires StripMarkers(prev) == Segment(0, offset, openings, closings)
    ensures StripMarkers(prev + sep + Segment(offset, len, openings, closings))
         == Segment(0, offset + len, openings, closings)
  {
    var seg := Segment(offset, len, openings, closings);
    var whole := Segment(0, offset + len, openings, closings);
    assert StripMarkers(prev + sep + seg) == StripMarkers(prev) + seg by {
      SegmentNoMarker(offset, len, openings, closings);
      StripAppend(prev, sep, seg);
    }
    assert Segment(0, offset, openings, closings) + seg == whole by {
      SegmentConcat(0, offset, len, openings, closings);
    }
  }

  /** A separator and a strand without markers add just the strand. */
  lemma StripAppend(prev: string, sep: string, seg: string)
    requires sep == "&" || sep == ""
    requires '&' !in seg
    ensures StripMarkers(prev + sep + seg) == StripMarkers(prev) + seg
  {
    StripConcat(prev + sep, seg);
    StripConcat(prev, sep);
    StripSeparator(sep);
    StripNoMarker(seg);
    var a := StripMarkers(prev);
    assert StripMarkers(prev + sep) == a + [];
    assert a + [] == a;
  }

  lemma SegmentNoMarker(offset: nat, len: nat, openings: seq<nat>, closings: seq<nat>)
    ensures '&' !in Segment(offset, len, openings, closings)
  {
    var seg := Segment(offset, len, openings, closings);
    forall i | 0 <= i < len ensures seg[i] != '&' {
      assert seg[i] == Mark(offset + i, openings, closings);
    }
  }

  lemma StripSeparator(sep: string)
    requires sep == "&" || sep == ""
    ensures StripMarkers(sep) == []
  {
    if sep == "&" {
      assert sep[..0] == [];
    }
  }

  lemma {:induction false} EncodeStrandsLength(strands: seq<string>, k: nat, openings: seq<nat>, closings: seq<nat>)
    requires k <= |strands|
    ensures |EncodeStrands(strands, k, openings, closings)| == Offset(strands, k) + (if k > 0 then k - 1 else 0)
  {
    if k > 0 {
      EncodeStrandsLength(strands, k - 1, openings, closings);
    }
  }

  /** `coordinates_to_dots` writes one `&` between neighbouring strands and
      nothing else besides: without its markers, its output is one
      character per nucleotide, an opening where a 0-based opening
      coordinate lies, a closing where only a closing coordinate lies. */
  lemma EncodeLayout(strands: seq<string>, bpX: seq<nat>, bpY: seq<nat>)
    requires 0 !in bpX && 0 !in bpY
    ensures Encode(strands, bpX, bpY).Ok?
    ensures StripMarkers(Encode(strands, bpX, bpY).value)
         == Segment(0, Offset(strands, |strands|), Decrement(bpX), Decrement(bpY))
    ensures |strands| > 0 ==> CountChar(Encode(strands, bpX, bpY).value, '&') == |strands| - 1
  {
    EncodeStrandsStripped(strands, |strands|, Decrement(bpX), Decrement(bpY));
    EncodeStrandsLength(strands, |strands|, Decrement(bpX), Decrement(bpY));
  }

  // ----------------------------------------------------------------------
  // Decoding well-formed pairs

  /** Pair lists with coordinates in `[lo, hi)`: as many openings as
      closings, every closing after its opening, openings ascending, no
      coordinate used twice, and no two pairs crossing. */
  predicate PairList(xs: seq<nat>, ys: seq<nat>, lo: nat, hi: nat)
  {
    && |xs| == |ys|
    && (forall i | 0 <= i < |xs| :: lo <= xs[i] < ys[i] < hi)
    && StrictlyIncreasing(xs)
    && (forall i, j | 0 <= i < |xs| && 0 <= j < |ys| :: xs[i] != ys[j])
    && (forall i, j | 0 <= i < j < |ys| :: ys[i] != ys[j])
    && (forall i, j | 0 <= i < |xs| && 0 <= j < |xs| && xs[i] < xs[j] < ys[i] :: ys[j] < ys[i])
  }

  /** 1-based pairs within `len` positions are 0-based pairs once shifted. */
  lemma ShiftPairs(xs: seq<nat>, ys: seq<nat>, len: nat)
    requires PairList(xs, ys, 1, len + 1)
    ensures 0 !in xs && 0 !in ys
    ensures PairList(Decrement(xs), Decrement(ys), 0, len)
  {
    assert 0 !in xs && 0 !in ys;
    var dx, dy := Decrement(xs), Decrement(ys);
    assert forall i, j | 0 <= i < |dx| && 0 <= j < |dy| :: dx[i] != dy[j] by {
      forall i, j | 0 <= i < |dx| && 0 <= j < |dy| ensures dx[i] != dy[j] {
        assert xs[i] != ys[j];
      }
    }
  }

  /** Number of entries below `k`. */
  function Below(xs: seq<nat>, k: nat): (n: nat)
    ensures n <= |xs|
  {
    if |xs| == 0 then 0
    else Below(xs[..|xs| - 1], k) + (if xs[|xs| - 1] < k then 1 else 0)
  }

  predicate Distinct(xs: seq<nat>)
  {
    forall i, j | 0 <= i < j < |xs| :: xs[i] != xs[j]
  }

  lemma {:induction false} BelowStep(xs: seq<nat>, k: nat)
    requires Distinct(xs)
    ensures Below(xs, k + 1) == Below(xs, k) + (if k in xs then 1 else 0)
  {
    if |xs| > 0 {
      var init := xs[..|xs| - 1];
      BelowStep(init, k);
      assert xs == init + [xs[|xs| - 1]];
      assert xs[|xs| - 1] == k ==> k !in init;
    }
  }

  lemma {:induction false} BelowAll(xs: seq<nat>, k: nat)
    requires forall i | 0 <= i < |xs| :: xs[i] < k
    ensures Below(xs, k) == |xs|
  {
    if |xs| > 0 {
      BelowAll(xs[..|xs| - 1], k);
    }
  }

  /** In the encoding of 0-based pairs each position holds the character
      its coordinates call for. */
  lemma MarkOf(xs: seq<nat>, ys: seq<nat>, len: nat, p: nat)
    requires PairList(xs, ys, 0, len) && p < len
    ensures Segment(0, len, xs, ys)[p] == '(' <==> p in xs
    ensures Segment(0, len, xs, ys)[p] == ')' <==> p in ys
    ensures Segment(0, len, xs, ys)[p] != '&'
  {
    assert Segment(0, len, xs, ys)[p] == Mark(p, xs, ys);
    if p in ys {
      var j :| 0 <= j < |ys| && ys[j] == p;
      assert forall i | 0 <= i < |xs| :: xs[i] != ys[j];
    }
  }

  lemma {:induction false} BelowNone(xs: seq<nat>)
    ensures Below(xs, 0) == 0
  {
    if |xs| > 0 {
      BelowNone(xs[..|xs| - 1]);
    }
  }

  lemma {:induction false} ClosingsCounted(xs: seq<nat>, ys: seq<nat>, len: nat, k: nat)
    requires PairList(xs, ys, 0, len) && k <= len
    ensures CountChar(Segment(0, len, xs, ys)[..k], ')') == Below(ys, k)
  {
    var m := Segment(0, len, xs, ys);
    if k == 0 {
      assert m[..0] == [];
      BelowNone(ys);
    } else {
      ClosingsCounted(xs, ys, len, k - 1);
      CountStep(m, k - 1, ')');
      BelowStep(ys, k - 1);
      MarkOf(xs, ys, len, k - 1);
    }
  }

  /** The encoding has one closing character per pair. */
  lemma ClosingsTotal(xs: seq<nat>, ys: seq<nat>, len: nat)
    requires PairList(xs, ys, 0, len)
    ensures CountChar(Segment(0, len, xs, ys), ')') == |ys|
  {
    ClosingsCounted(xs, ys, len, len);
    assert Segment(0, len, xs, ys)[..len] == Segment(0, len, xs, ys);
    BelowAll(ys, len);
  }

  /** The encoding carries no markers, so stripped positions are indices. */
  lemma NoMarkers(xs: seq<nat>, ys: seq<nat>, len: nat, k: nat)
    requires PairList(xs, ys, 0, len) && k <= len
    ensures CountChar(Segment(0, len, xs, ys)[..k], '&') == 0
  {
    var m := Segment(0, len, xs, ys);
    forall p | 0 <= p < k ensures m[..k][p] != '&' {
      MarkOf(xs, ys, len, p);
    }
    StripNoMarker(m[..k]);
  }

  /** `op` is the part of the increasing list `xs` below `k`. */
  predicate SplitAt(xs: seq<nat>, op: seq<nat>, k: nat)
  {
    && |op| <= |xs| && op == xs[..|op|]
    && (forall i | 0 <= i < |op| :: xs[i] < k)
    && (forall i | |op| <= i < |xs| :: xs[i] >= k)
  }

  /** After `k` characters the openings seen are the first ones of `xs`,
      exactly those below `k`. */
  lemma {:induction false} OpenersSeen(xs: seq<nat>, ys: seq<nat>, len: nat, k: nat)
    requires PairList(xs, ys, 0, len) && k <= len
    ensures SplitAt(xs, OpenerPositions(Segment(0, len, xs, ys), k), k)
  {
    if k > 0 {
      OpenersSeen(xs, ys, len, k - 1);
      var m := Segment(0, len, xs, ys);
      var op := OpenerPositions(m, k - 1);
      var grows := m[k - 1] == '(';
      assert grows <==> k - 1 in xs by {
        MarkOf(xs, ys, len, k - 1);
      }
      assert OpenerPositions(m, k) == op + (if grows then [k - 1] else []) by {
        NoMarkers(xs, ys, len, k - 1);
        assert StrippedPos(m, k - 1) == k - 1;
      }
      SeenStep(xs, op, k - 1, grows);
    }
  }

  /** The first element past the split is at least `k`. */
  lemma SplitNext(xs: seq<nat>, op: seq<nat>, k: nat)
    requires SplitAt(xs, op, k)
    ensures |op| < |xs| ==> xs[|op|] >= k
  {
  }

  /** Passing position `k` of an increasing list split below `k`: the split
      takes `k` in exactly when `k` is in the list. */
  lemma SeenStep(xs: seq<nat>, op: seq<nat>, k: nat, grows: bool)
    requires StrictlyIncreasing(xs) && SplitAt(xs, op, k)
    requires grows <==> k in xs
    ensures SplitAt(xs, op + (if grows then [k] else []), k + 1)
  {
    var n := |op|;
    if grows {
      var a :| 0 <= a < |xs| && xs[a] == k;
      assert n <= a < |xs|;
      var first := xs[n];
      assert a == n || first < k;
      assert a == n;
      assert xs[..n + 1] == xs[..n] + [k];
    } else {
      forall i | n <= i < |xs|
        ensures xs[i] != k
      {
        assert xs[i] in xs;
      }
    }
  }

  /** A slot still empty among the first `n` leaves something on the stack. */
  lemma {:induction false} UnwrittenNonEmpty(bpX: seq<nat>, bpY: seq<nat>, n: nat, j: nat)
    requires j < n <= |bpX| && !Written(bpY, j)
    ensures Unwritten(bpX, bpY, n) != []
  {
    if j < n - 1 {
      UnwrittenNonEmpty(bpX, bpY, n - 1, j);
    }
  }

  /** The closing slots hold the closing position plus 2 of every pair
      closed before `k` and 0 for the others, and nothing was printed. */
  predicate ClosedBefore(st: ScanState, ys: seq<nat>, k: nat)
  {
    && |st.bpY| == |ys|
    && (forall i | 0 <= i < |ys| :: st.bpY[i] == if ys[i] < k then ys[i] + 2 else 0)
    && st.diagnostics == []
  }

  /** After `k` characters of the encoding of well-formed 0-based pairs the
      scan has not panicked and each pair closed so far has its slot. */
  lemma {:induction false} MarksScan(xs: seq<nat>, ys: seq<nat>, len: nat, k: nat)
    requires PairList(xs, ys, 0, len) && k <= len
    ensures ScanTo(Segment(0, len, xs, ys), k).Ok?
    ensures ClosedBefore(ScanTo(Segment(0, len, xs, ys), k).value, ys, k)
  {
    if k == 0 {
      ClosingsTotal(xs, ys, len);
    } else {
      MarksScan(xs, ys, len, k - 1);
      MarksStep(xs, ys, len, k - 1);
    }
  }

  lemma MarksStep(xs: seq<nat>, ys: seq<nat>, len: nat, p: nat)
    requires PairList(xs, ys, 0, len) && p < len
    requires ScanTo(Segment(0, len, xs, ys), p).Ok?
    requires ClosedBefore(ScanTo(Segment(0, len, xs, ys), p).value, ys, p)
    ensures ScanTo(Segment(0, len, xs, ys), p + 1).Ok?
    ensures ClosedBefore(ScanTo(Segment(0, len, xs, ys), p + 1).value, ys, p + 1)
  {
    var m := Segment(0, len, xs, ys);
    var st := ScanTo(m, p).value;
    assert ScanTo(m, p + 1) == Step(st, p, m[p]);
    MarkOf(xs, ys, len, p);
    if m[p] == ')' {
      MarksClose(xs, ys, len, p);
    } else {
      assert forall i | 0 <= i < |ys| :: ys[i] != p;
    }
  }

  /** A closing character closes the pair it belongs to: by non-crossing,
      every pair opened after it is already closed. */
  lemma MarksClose(xs: seq<nat>, ys: seq<nat>, len: nat, p: nat)
    requires PairList(xs, ys, 0, len) && p < len
    requires ScanTo(Segment(0, len, xs, ys), p).Ok?
    requires ClosedBefore(ScanTo(Segment(0, len, xs, ys), p).value, ys, p)
    requires p in ys
    ensures var st := ScanTo(Segment(0, len, xs, ys), p).value;
      Step(st, p, ')').Ok? && ClosedBefore(Step(st, p, ')').value, ys, p + 1)
  {
    var m := Segment(0, len, xs, ys);
    var st := ScanTo(m, p).value;
    ScanInvariant(m, p);
    OpenersSeen(xs, ys, len, p);
    NoMarkers(xs, ys, len, p);
    var j :| 0 <= j < |ys| && ys[j] == p;
    CloseMatches(st, xs, ys, len, p, j);
    assert forall l | 0 <= l < |ys| && l != j :: ys[l] != p;
  }

  /** The scan-state part of `MarksClose`. */
  lemma CloseMatches(st: ScanState, xs: seq<nat>, ys: seq<nat>, len: nat, p: nat, j: nat)
    requires PairList(xs, ys, 0, len) && j < |ys| && ys[j] == p
    requires st.numStrands == 0 && ClosedBefore(st, ys, p)
    requires StrictlyIncreasing(st.bpX) && st.stack == Unwritten(st.bpX, st.bpY, |st.bpX|)
    requires |st.bpX| <= |xs| && st.bpX == xs[..|st.bpX|]
    requires forall i | 0 <= i < |st.bpX| :: xs[i] < p
    requires |st.bpX| < |xs| ==> xs[|st.bpX|] >= p
    ensures |st.stack| > 0
    ensures Step(st, p, ')') == Ok(st.(stack := st.stack[..|st.stack| - 1], bpY := st.bpY[j := p + 2]))
  {
    assert j < |st.bpX| && st.bpX[j] == xs[j];
    assert !Written(st.bpY, j);
    UnwrittenNonEmpty(st.bpX, st.bpY, |st.bpX|, j);
    forall l | j < l < |st.bpX| ensures Written(st.bpY, l) {
      assert st.bpX[l] == xs[l];
      assert xs[j] < xs[l] < ys[j];
    }
    var i := CloseStep(st, p);
    assert i == j;
  }

  /** Decoding the encoding of well-formed 0-based pairs: the openings come
      back, every closing comes back as its position plus 2, nothing is
      printed, and with two pairs or more everything is one higher. */
  lemma DecodeMarks(xs: seq<nat>, ys: seq<nat>, len: nat)
    requires PairList(xs, ys, 0, len)
    ensures Decode(Segment(0, len, xs, ys)) == Ok(Coordinates(
      if |ys| > 1 then Increment(xs) else xs,
      seq(|ys|, i requires 0 <= i < |ys| => ys[i] + (if |ys| > 1 then 3 else 2)),
      []))
  {
    var st := FinalScan(xs, ys, len);
    DecodeFinal(Segment(0, len, xs, ys), st, xs, ys, len);
  }

  /** The scan of the encoding ends with the openings in order, an empty
      stack, and every slot written. */
  lemma FinalScan(xs: seq<nat>, ys: seq<nat>, len: nat) returns (st: ScanState)
    requires PairList(xs, ys, 0, len)
    ensures ScanTo(Segment(0, len, xs, ys), len) == Ok(st)
    ensures st.bpX == xs && st.stack == [] && ClosedBefore(st, ys, len)
  {
    var m := Segment(0, len, xs, ys);
    MarksScan(xs, ys, len, len);
    ScanInvariant(m, len);
    OpenersSeen(xs, ys, len, len);
    st := ScanTo(m, len).value;
    SplitNext(xs, st.bpX, len);
    assert |st.bpX| == |xs|;
    assert st.bpX == xs;
    UnwrittenSkip(st.bpX, st.bpY, 0, |st.bpX|);
  }

  /** The decoder's result from the final state of the scan. */
  lemma DecodeFinal(m: string, st: ScanState, xs: seq<nat>, ys: seq<nat>, len: nat)
    requires |m| == len && ScanTo(m, len) == Ok(st)
    requires st.bpX == xs && st.stack == [] && ClosedBefore(st, ys, len)
    requires forall i | 0 <= i < |ys| :: ys[i] < len
    ensures Decode(m) == Ok(Coordinates(
      if |ys| > 1 then Increment(xs) else xs,
      seq(|ys|, i requires 0 <= i < |ys| => ys[i] + (if |ys| > 1 then 3 else 2)),
      []))
  {
    FinalSlots(st.bpY, ys, len);
    assert st.diagnostics + [] == [];
  }

  /** Once every pair is closed, the slots are the closings plus 2. */
  lemma FinalSlots(bpY: seq<nat>, ys: seq<nat>, len: nat)
    requires |bpY| == |ys|
    requires forall i | 0 <= i < |ys| :: ys[i] < len
    requires forall i | 0 <= i < |ys| :: bpY[i] == if ys[i] < len then ys[i] + 2 else 0
    ensures (if |bpY| > 1 then Increment(bpY) else bpY)
         == seq(|ys|, i requires 0 <= i < |ys| => ys[i] + (if |ys| > 1 then 3 else 2))
  {
  }

  /** The round trip of `coordinates_to_dots` and `dots_to_coordinates` on
      well-formed 1-based pairs within the strands: with two pairs or more
      the openings come back unchanged and every closing two higher; a
      single pair comes back with its opening one lower and its closing one
      higher, because the decoder's shift is skipped. */
  lemma RoundTrip(strands: seq<string>, bpX: seq<nat>, bpY: seq<nat>)
    requires PairList(bpX, bpY, 1, Offset(strands, |strands|) + 1)
    ensures Encode(strands, bpX, bpY).Ok?
    ensures 0 !in bpX
    ensures Decode(Encode(strands, bpX, bpY).value) == Ok(Coordinates(
      if |bpX| > 1 then bpX else Decrement(bpX),
      seq(|bpY|, i requires 0 <= i < |bpY| => bpY[i] + (if |bpY| > 1 then 2 else 1)),
      []))
  {
    var len := Offset(strands, |strands|);
    ShiftPairs(bpX, bpY, len);
    var xs, ys := Decrement(bpX), Decrement(bpY);
    EncodeLayout(strands, bpX, bpY);
    var e := Encode(strands, bpX, bpY).value;
    DecodeIgnoresMarkers(e);
    DecodeMarks(xs, ys, len);
    ShiftBack(bpX, bpY);
  }

  /** Shifting down and then up gives the coordinates back. */
  lemma ShiftBack(bpX: seq<nat>, bpY: seq<nat>)
    requires 0 !in bpX && 0 !in bpY
    ensures Increment(Decrement(bpX)) == bpX
    ensures var ys := Decrement(bpY);
      seq(|ys|, i requires 0 <= i < |ys| => ys[i] + (if |ys| > 1 then 3 else 2))
        == seq(|bpY|, i requires 0 <= i < |bpY| => bpY[i] + (if |bpY| > 1 then 2 else 1))
  {
  }
}
