/** What the bracket-notation decoder computes, for every input string:
    the opening list is the list of stripped positions of the `(`, in order;
    there is one closing slot per `)`; a `)` closes the most recent opening
    whose slot is still empty; a closing value always lies past its opening;
    and the decoder neither panics nor reports a leftover exactly when the
    string is balanced. */
module CodecProofs {
  import opened Wrappers
  import opened ViennaWrapper

  // ----------------------------------------------------------------------
  // Declarative view of the scan

  /** The stripped position of character `k`: its index once the markers
      before it are removed. */
  function StrippedPos(s: string, k: nat): nat
    requires k < |s|
  {
    k - CountChar(s[..k], '&')
  }

  /** The stripped positions of the `(` among the first `k` characters,
      left to right. */
  function OpenerPositions(s: string, k: nat): (r: seq<nat>)
    requires k <= |s|
    ensures |r| == CountChar(s[..k], '(')
  {
    if k == 0 then []
    else
      assert s[..k][..k - 1] == s[..k - 1];
      OpenerPositions(s, k - 1) + (if s[k - 1] == '(' then [StrippedPos(s, k - 1)] else [])
  }

  /** Slot `i` has been written by a `)`. Written values are at least 2. */
  predicate Written(bpY: seq<nat>, i: nat)
  {
    i < |bpY| && bpY[i] != 0
  }

  /** The openings among the first `n` whose slot is still empty, in order. */
  function Unwritten(bpX: seq<nat>, bpY: seq<nat>, n: nat): seq<nat>
    requires n <= |bpX|
  {
    if n == 0 then []
    else Unwritten(bpX, bpY, n - 1) + (if Written(bpY, n - 1) then [] else [bpX[n - 1]])
  }

  predicate StrictlyIncreasing(xs: seq<nat>)
  {
    forall i, j | 0 <= i < j < |xs| :: xs[i] < xs[j]
  }

  /** Every `)` is preceded by more `(` than `)`, and the totals agree. */
  predicate Balanced(s: string)
  {
    && (forall k | 0 <= k <= |s| :: CountChar(s[..k], ')') <= CountChar(s[..k], '('))
    && CountChar(s, '(') == CountChar(s, ')')
  }

  /** What holds of the scan state after `k` characters whatever they
      were: the openings increase and lie before `k` once the markers are
      counted, a written slot lies at least 3 past its opening, the stack is
      exactly the list of openings whose slot is still empty, and the only
      messages are about invalid characters. */
  ghost predicate Shape(k: nat, st: ScanState)
  {
    && StrictlyIncreasing(st.bpX)
    && (forall i | 0 <= i < |st.bpX| :: st.bpX[i] + st.numStrands < k)
    && (forall i | 0 <= i < |st.bpY| :: st.bpY[i] != 0 ==> i < |st.bpX| && st.bpY[i] >= st.bpX[i] + 3)
    && st.stack == Unwritten(st.bpX, st.bpY, |st.bpX|)
    && (forall d | d in st.diagnostics :: d == InvalidCharacter)
  }

  /** What holds of the scan state after the first `k` characters of `s`:
      the counts agree with the characters read, and `Shape`. */
  ghost predicate Inv(s: string, k: nat, st: ScanState)
    requires k <= |s|
  {
    && st.numStrands == CountChar(s[..k], '&')
    && st.bpX == OpenerPositions(s, k)
    && |st.bpY| == CountChar(s, ')')
    && |st.stack| + CountChar(s[..k], ')') == CountChar(s[..k], '(')
    && Shape(k, st)
  }

  // ----------------------------------------------------------------------
  // Small facts

  lemma CountStep(s: string, k: nat, c: char)
    requires k < |s|
    ensures CountChar(s[..k + 1], c) == CountChar(s[..k], c) + (if s[k] == c then 1 else 0)
  {
    assert s[..k + 1][..k] == s[..k];
  }

  lemma {:induction false} CountPrefixBound(s: string, k: nat, c: char)
    requires k <= |s|
    ensures CountChar(s[..k], c) <= CountChar(s, c)
    decreases |s| - k
  {
    if k == |s| {
      assert s[..k] == s;
    } else {
      CountStep(s, k, c);
      CountPrefixBound(s, k + 1, c);
    }
  }

  lemma {:induction false} UnwrittenFrame(bpX: seq<nat>, bpY: seq<nat>, bpX': seq<nat>, bpY': seq<nat>, n: nat)
    requires n <= |bpX| && n <= |bpX'|
    requires forall j | 0 <= j < n :: bpX[j] == bpX'[j] && (Written(bpY, j) <==> Written(bpY', j))
    ensures Unwritten(bpX, bpY, n) == Unwritten(bpX', bpY', n)
  {
    if n > 0 {
      UnwrittenFrame(bpX, bpY, bpX', bpY', n - 1);
    }
  }

  lemma {:induction false} UnwrittenSkip(bpX: seq<nat>, bpY: seq<nat>, lo: nat, n: nat)
    requires lo <= n <= |bpX|
    requires forall j | lo <= j < n :: Written(bpY, j)
    ensures Unwritten(bpX, bpY, n) == Unwritten(bpX, bpY, lo)
    decreases n
  {
    if n > lo {
      UnwrittenSkip(bpX, bpY, lo, n - 1);
    }
  }

  lemma {:induction false} UnwrittenEmpty(bpX: seq<nat>, bpY: seq<nat>, n: nat)
    requires n <= |bpX| && Unwritten(bpX, bpY, n) == []
    ensures forall j | 0 <= j < n :: Written(bpY, j)
  {
    if n > 0 {
      UnwrittenEmpty(bpX, bpY, n - 1);
    }
  }

  /** The top of the stack is the last opening whose slot is empty. */
  lemma {:induction false} LastUnwritten(bpX: seq<nat>, bpY: seq<nat>, n: nat) returns (i: nat)
    requires n <= |bpX| && Unwritten(bpX, bpY, n) != []
    ensures i < n && !Written(bpY, i)
    ensures forall j | i < j < n :: Written(bpY, j)
    ensures Unwritten(bpX, bpY, n) == Unwritten(bpX, bpY, i) + [bpX[i]]
  {
    if Written(bpY, n - 1) {
      i := LastUnwritten(bpX, bpY, n - 1);
    } else {
      i := n - 1;
    }
  }

  // ----------------------------------------------------------------------
  // The scan keeps its invariant

  lemma InitialInv(s: string)
    ensures Inv(s, 0, Initial(s))
  {
    assert s[..0] == [];
  }

  lemma IndexOfIncreasing(xs: seq<nat>, i: nat)
    requires StrictlyIncreasing(xs) && i < |xs|
    ensures IndexOf(xs, xs[i]) == Some(i)
  {
    assert xs[i] in xs;
    var r := IndexOf(xs, xs[i]);
    var m := r.value;
    assert xs[m] == xs[i];
    assert forall j | 0 <= j < |xs| && j != i :: xs[j] != xs[i];
  }

  /** A `)` on a non-empty stack: the slot it finds is the last empty one,
      the lookup never fails, and the step either writes that slot or
      panics because the slot does not exist. */
  lemma CloseStep(st: ScanState, k: nat) returns (i: nat)
    requires st.numStrands <= k && |st.stack| > 0
    requires StrictlyIncreasing(st.bpX) && st.stack == Unwritten(st.bpX, st.bpY, |st.bpX|)
    ensures i < |st.bpX| && !Written(st.bpY, i)
    ensures forall j | i < j < |st.bpX| :: Written(st.bpY, j)
    ensures st.stack[|st.stack| - 1] == st.bpX[i]
    ensures st.stack[..|st.stack| - 1] == Unwritten(st.bpX, st.bpY, i)
    ensures i < |st.bpY| ==> Step(st, k, ')') == Ok(st.(stack := st.stack[..|st.stack| - 1],
                                                         bpY := st.bpY[i := k - st.numStrands + 2]))
    ensures i >= |st.bpY| ==> Step(st, k, ')') == Err(SlotOutOfRange)
  {
    i := LastUnwritten(st.bpX, st.bpY, |st.bpX|);
    var top := st.stack[|st.stack| - 1];
    assert top == st.bpX[i];
    assert st.stack[..|st.stack| - 1] == Unwritten(st.bpX, st.bpY, i);
    IndexOfIncreasing(st.bpX, i);
  }

  lemma StepCommon(s: string, k: nat, st: ScanState)
    requires k < |s|
    ensures s[..k + 1][..k] == s[..k]
    ensures CountChar(s[..k + 1], '&') == CountChar(s[..k], '&') + (if s[k] == '&' then 1 else 0)
    ensures CountChar(s[..k + 1], '(') == CountChar(s[..k], '(') + (if s[k] == '(' then 1 else 0)
    ensures CountChar(s[..k + 1], ')') == CountChar(s[..k], ')') + (if s[k] == ')' then 1 else 0)
  {
    CountStep(s, k, '&');
    CountStep(s, k, '(');
    CountStep(s, k, ')');
  }

  /** A `(` keeps `Shape`: the new opening is the largest so far and its
      slot is empty. */
  lemma OpenShape(k: nat, st: ScanState)
    requires st.numStrands <= k && Shape(k, st)
    ensures Step(st, k, '(').Ok? && Shape(k + 1, Step(st, k, '(').value)
  {
    var sp := k - st.numStrands;
    var st' := st.(bpX := st.bpX + [sp], stack := st.stack + [sp]);
    assert Step(st, k, '(') == Ok(st');
    assert !Written(st.bpY, |st.bpX|);
    UnwrittenFrame(st.bpX, st.bpY, st'.bpX, st'.bpY, |st.bpX|);
    assert st'.stack == Unwritten(st'.bpX, st'.bpY, |st'.bpX|);
  }

  /** A `)` that does not panic keeps `Shape`: it writes the last empty
      slot, past its opening. */
  lemma CloseShape(k: nat, st: ScanState)
    requires st.numStrands <= k && Shape(k, st) && Step(st, k, ')').Ok?
    ensures Shape(k + 1, Step(st, k, ')').value)
  {
    assert |st.stack| > 0;
    var i := CloseStep(st, k);
    assert i < |st.bpY|;
    WriteSlotShape(k, st, i);
  }

  /** Popping the stack and writing the last empty slot `i` keeps `Shape`. */
  lemma WriteSlotShape(k: nat, st: ScanState, i: nat)
    requires st.numStrands <= k && Shape(k, st) && |st.stack| > 0
    requires i < |st.bpX| && i < |st.bpY| && !Written(st.bpY, i)
    requires forall j | i < j < |st.bpX| :: Written(st.bpY, j)
    requires st.stack[..|st.stack| - 1] == Unwritten(st.bpX, st.bpY, i)
    ensures Shape(k + 1, st.(stack := st.stack[..|st.stack| - 1], bpY := st.bpY[i := k - st.numStrands + 2]))
  {
    var bpY' := st.bpY[i := k - st.numStrands + 2];
    WrittenSlots(st.bpX, st.bpY, bpY', i, k - st.numStrands + 2);
    UnwrittenFrame(st.bpX, st.bpY, st.bpX, bpY', i);
    UnwrittenSkip(st.bpX, bpY', i, |st.bpX|);
  }

  /** Writing slot `i` with `v > 0` keeps every later slot written and
      makes slot `i` written. */
  lemma WrittenSlots(bpX: seq<nat>, bpY: seq<nat>, bpY': seq<nat>, i: nat, v: nat)
    requires i < |bpY| && v > 0 && bpY' == bpY[i := v]
    requires forall j | i < j < |bpX| :: Written(bpY, j)
    ensures forall j | i <= j < |bpX| :: Written(bpY', j)
    ensures forall j | 0 <= j < i :: Written(bpY, j) <==> Written(bpY', j)
  {
    forall j | i <= j < |bpX|
      ensures Written(bpY', j)
    {
      if j > i {
        assert Written(bpY, j);
      }
    }
  }

  /** Any other character keeps `Shape`. */
  lemma OtherShape(k: nat, st: ScanState, c: char)
    requires st.numStrands <= k && Shape(k, st) && c != '(' && c != ')'
    ensures Step(st, k, c).Ok? && Shape(k + 1, Step(st, k, c).value)
  {
  }

  lemma OpenPreserves(s: string, k: nat, st: ScanState)
    requires k < |s| && Inv(s, k, st) && s[k] == '('
    ensures Step(st, k, s[k]).Ok? && Inv(s, k + 1, Step(st, k, s[k]).value)
  {
    StepCommon(s, k, st);
    OpenShape(k, st);
    assert OpenerPositions(s, k + 1) == st.bpX + [StrippedPos(s, k)];
  }

  lemma ClosePreserves(s: string, k: nat, st: ScanState)
    requires k < |s| && Inv(s, k, st) && s[k] == ')' && Step(st, k, s[k]).Ok?
    ensures Inv(s, k + 1, Step(st, k, s[k]).value)
  {
    StepCommon(s, k, st);
    CloseShape(k, st);
    assert OpenerPositions(s, k + 1) == st.bpX;
  }

  lemma OtherPreserves(s: string, k: nat, st: ScanState)
    requires k < |s| && Inv(s, k, st) && s[k] != '(' && s[k] != ')'
    ensures Step(st, k, s[k]).Ok? && Inv(s, k + 1, Step(st, k, s[k]).value)
  {
    StepCommon(s, k, st);
    OtherShape(k, st, s[k]);
    assert OpenerPositions(s, k + 1) == st.bpX;
  }

  lemma StepPreserves(s: string, k: nat, st: ScanState)
    requires k < |s| && Inv(s, k, st) && Step(st, k, s[k]).Ok?
    ensures Inv(s, k + 1, Step(st, k, s[k]).value)
  {
    if s[k] == '(' {
      OpenPreserves(s, k, st);
    } else if s[k] == ')' {
      ClosePreserves(s, k, st);
    } else {
      OtherPreserves(s, k, st);
    }
  }

  /** Every state the scan reaches satisfies `Inv`. */
  lemma {:induction false} ScanInvariant(s: string, k: nat)
    requires k <= |s| && ScanTo(s, k).Ok?
    ensures Inv(s, k, ScanTo(s, k).value)
  {
    if k == 0 {
      InitialInv(s);
    } else {
      ScanInvariant(s, k - 1);
      StepPreserves(s, k - 1, ScanTo(s, k - 1).value);
    }
  }

  lemma {:induction false} ScanOkBefore(s: string, j: nat, k: nat)
    requires j <= k <= |s| && ScanTo(s, k).Ok?
    ensures ScanTo(s, j).Ok?
    decreases k - j
  {
    if j < k {
      ScanOkBefore(s, j, k - 1);
    }
  }

  // ----------------------------------------------------------------------
  // Properties of the decoder

  /** The `position(..).unwrap()` of the decoder never panics: what is on
      the stack is always in the opening list. */
  lemma {:induction false} OpenerAlwaysFound(s: string)
    ensures Decode(s) != Err(OpenerNotFound)
  {
    NoOpenerNotFoundUpTo(s, |s|);
  }

  lemma {:induction false} NoOpenerNotFoundUpTo(s: string, k: nat)
    requires k <= |s|
    ensures ScanTo(s, k) != Err(OpenerNotFound)
  {
    if k > 0 {
      NoOpenerNotFoundUpTo(s, k - 1);
      if ScanTo(s, k - 1).Ok? {
        var st := ScanTo(s, k - 1).value;
        ScanInvariant(s, k - 1);
        if s[k - 1] == ')' && |st.stack| > 0 {
          var i := CloseStep(st, k - 1);
        }
      }
    }
  }

  /** The decoded lists: the openings are the stripped positions of the
      `(` in order, there is one closing slot per `)`, both are shifted by
      1 exactly when there is more than one slot, every written closing
      (one that is not the placeholder 0, or 1 once shifted) lies at least
      3 past its opening (the closing's stripped position plus 2), and a
      leftover is reported exactly when `(` outnumber `)`. */
  lemma DecodeShape(s: string)
    requires Decode(s).Ok?
    ensures var d := Decode(s).value;
      && |d.bpY| == CountChar(s, ')')
      && d.bpX == (if |d.bpY| > 1 then Increment(OpenerPositions(s, |s|)) else OpenerPositions(s, |s|))
      && (forall i | 0 <= i < |d.bpY| ::
            d.bpY[i] != (if |d.bpY| > 1 then 1 else 0) ==> i < |d.bpX| && d.bpY[i] >= d.bpX[i] + 3)
      && (LeftoverUnpaired in d.diagnostics <==> CountChar(s, '(') > CountChar(s, ')'))
  {
    ScanInvariant(s, |s|);
    var st := ScanTo(s, |s|).value;
    assert s[..|s|] == s;
    var diagnostics := st.diagnostics + (if |st.stack| > 0 then [LeftoverUnpaired] else []);
    assert Decode(s).value.diagnostics == diagnostics;
    if |st.bpY| > 1 {
      assert Decode(s).value == Coordinates(Increment(st.bpX), Increment(st.bpY), diagnostics);
    } else {
      assert Decode(s).value == Coordinates(st.bpX, st.bpY, diagnostics);
    }
  }

  /** A balanced string decodes without panic and without a leftover, and
      only a balanced string does. */
  lemma BalancedIffClean(s: string)
    ensures Balanced(s) <==> Decode(s).Ok? && LeftoverUnpaired !in Decode(s).value.diagnostics
  {
    assert s[..|s|] == s;
    if Balanced(s) {
      BalancedScanOk(s, |s|);
      ScanInvariant(s, |s|);
    }
    if Decode(s).Ok? && LeftoverUnpaired !in Decode(s).value.diagnostics {
      forall k | 0 <= k <= |s| ensures CountChar(s[..k], ')') <= CountChar(s[..k], '(') {
        ScanOkBefore(s, k, |s|);
        ScanInvariant(s, k);
      }
      ScanInvariant(s, |s|);
    }
  }

  lemma {:induction false} BalancedScanOk(s: string, k: nat)
    requires Balanced(s) && k <= |s|
    ensures ScanTo(s, k).Ok?
  {
    if k > 0 {
      BalancedScanOk(s, k - 1);
      var st := ScanTo(s, k - 1).value;
      ScanInvariant(s, k - 1);
      if s[k - 1] == ')' {
        CountStep(s, k - 1, ')');
        CountStep(s, k - 1, '(');
        assert CountChar(s[..k], ')') <= CountChar(s[..k], '(');
        var i := CloseStep(st, k - 1);
        CountPrefixBound(s, k - 1, '(');
      }
    }
  }

  /** In a balanced string every opening gets its closing: the two lists
      have the same length and every slot holds a closing past its
      opening. */
  lemma BalancedPairsComplete(s: string)
    requires Balanced(s)
    ensures Decode(s).Ok?
    ensures var d := Decode(s).value;
      && |d.bpX| == |d.bpY|
      && forall i | 0 <= i < |d.bpY| :: d.bpY[i] >= d.bpX[i] + 3
  {
    BalancedScanOk(s, |s|);
    var st := ScanTo(s, |s|).value;
    ScanInvariant(s, |s|);
    assert s[..|s|] == s;
    UnwrittenEmpty(st.bpX, st.bpY, |st.bpX|);
    assert |st.bpX| == |st.bpY|;
    assert forall i | 0 <= i < |st.bpY| :: st.bpY[i] >= st.bpX[i] + 3 by {
      forall i | 0 <= i < |st.bpY| ensures st.bpY[i] >= st.bpX[i] + 3 {
        assert Written(st.bpY, i);
      }
    }
    var d := Decode(s).value;
    if |st.bpY| > 1 {
      assert d.bpX == Increment(st.bpX) && d.bpY == Increment(st.bpY);
    } else {
      assert d.bpX == st.bpX && d.bpY == st.bpY;
    }
  }
}
