/** Worked examples of the bracket-notation decoder, each traced one
    character at a time: nested pairs, a pair across a strand marker, and
    the three ways the decoder departs from a clean result. Each `)` step of
    a trace is a lemma of its own, which checks the new state field by
    field. */
module CodecExamples {
  import opened Wrappers
  import opened ViennaWrapper

  /** One more character of the scan, from a known state to a known state.
      A proof step of the worked examples below; it models nothing itself. */
  lemma ScanNext(s: string, k: nat, st: ScanState, st': ScanState)
    requires k < |s| && ScanTo(s, k) == Ok(st) && Step(st, k, s[k]) == Ok(st')
    ensures ScanTo(s, k + 1) == Ok(st')
  {
  }

  /** The count of `c` grows by one exactly at a `c`. A proof step of the
      worked examples below, used to count their closing brackets. */
  lemma CountLast(s: string, c: char)
    requires |s| > 0
    ensures CountChar(s, c) == CountChar(s[..|s| - 1], c) + (if s[|s| - 1] == c then 1 else 0)
  {
  }

  // ----------------------------------------------------------------------
  // Two nested pairs: "(())"

  lemma NestedClosings(s: string)
    requires |s| == 4 && s[0] == '(' && s[1] == '(' && s[2] == ')' && s[3] == ')'
    ensures CountChar(s, ')') == 2
  {
    CountLast(s, ')');
    CountLast(s[..3], ')');
    CountLast(s[..2], ')');
    CountLast(s[..1], ')');
    assert s[..3][..2] == s[..2] && s[..2][..1] == s[..1] && s[..1][..0] == [];
  }

  lemma NestedOpens(s: string)
    requires |s| == 4 && s[0] == '(' && s[1] == '(' && s[2] == ')' && s[3] == ')'
    ensures ScanTo(s, 2) == Ok(ScanState(0, [0, 1], [0, 0], [0, 1], []))
  {
    NestedClosings(s);
    var r0 := ScanState(0, [], [0, 0], [], []);
    var r1 := ScanState(0, [0], [0, 0], [0], []);
    var r2 := ScanState(0, [0, 1], [0, 0], [0, 1], []);
    assert ScanTo(s, 0) == Ok(r0) by { assert Zeros(2) == [0, 0]; }
    assert Step(r0, 0, s[0]) == Ok(r1) by { assert [] + [0] == [0]; }
    ScanNext(s, 0, r0, r1);
    assert Step(r1, 1, s[1]) == Ok(r2) by { assert [0] + [1] == [0, 1]; }
    ScanNext(s, 1, r1, r2);
  }

  /** The inner `)` closes the opening at 1, in slot 1. */
  lemma NestedInnerClose(s: string)
    requires |s| == 4 && s[2] == ')'
    requires ScanTo(s, 2) == Ok(ScanState(0, [0, 1], [0, 0], [0, 1], []))
    ensures ScanTo(s, 3) == Ok(ScanState(0, [0, 1], [0, 4], [0], []))
  {
    var q := ScanTo(s, 3);
    assert q.Ok? && q.value.stack == [0] && q.value.bpY == [0, 4];
    assert q.value.bpX == [0, 1] && q.value.numStrands == 0 && q.value.diagnostics == [];
  }

  /** The outer `)` closes the opening at 0, in slot 0. */
  lemma NestedOuterClose(s: string)
    requires |s| == 4 && s[3] == ')'
    requires ScanTo(s, 3) == Ok(ScanState(0, [0, 1], [0, 4], [0], []))
    ensures ScanTo(s, 4) == Ok(ScanState(0, [0, 1], [5, 4], [], []))
  {
    var q := ScanTo(s, 4);
    assert q.Ok? && q.value.stack == [] && q.value.bpY == [5, 4];
    assert q.value.bpX == [0, 1] && q.value.numStrands == 0 && q.value.diagnostics == [];
  }

  /** The final shift by one on a two-element list; a proof step of
      `NestedDecoded`. */
  lemma IncrementPair(a: nat, b: nat)
    ensures Increment([a, b]) == [a + 1, b + 1]
  {
    var r := Increment([a, b]);
    assert |r| == 2 && r[0] == a + 1 && r[1] == b + 1;
  }

  /** After "(())" the two lists address slots 0 and 1, both written. */
  lemma NestedDecoded(s: string)
    requires |s| == 4 && ScanTo(s, 4) == Ok(ScanState(0, [0, 1], [5, 4], [], []))
    ensures Decode(s) == Ok(Coordinates([1, 2], [6, 5], []))
  {
    var d := Decode(s);
    assert d.Ok? && d.value.bpX == Increment([0, 1]) && d.value.bpY == Increment([5, 4]);
    IncrementPair(0, 1);
    IncrementPair(5, 4);
    assert d.value.diagnostics == [];
  }

  /** Two nested pairs: openings shifted to 1 and 2, closings stored as
      stripped position + 2 and shifted, so 6 and 5. */
  lemma ExampleNested(s: string)
    requires |s| == 4 && s[0] == '(' && s[1] == '(' && s[2] == ')' && s[3] == ')'
    ensures Decode(s) == Ok(Coordinates([1, 2], [6, 5], []))
  {
    NestedOpens(s);
    NestedInnerClose(s);
    NestedOuterClose(s);
    NestedDecoded(s);
  }

  // ----------------------------------------------------------------------
  // One pair across a strand marker: "(.&.)"

  lemma AcrossOpen(s: string)
    requires |s| == 5 && s[0] == '(' && s[1] == '.' && s[2] == '&' && s[3] == '.' && s[4] == ')'
    ensures ScanTo(s, 4) == Ok(ScanState(1, [0], [0], [0], []))
  {
    assert CountChar(s, ')') == 1 by {
      CountLast(s, ')');
      CountLast(s[..4], ')');
      CountLast(s[..3], ')');
      CountLast(s[..2], ')');
      CountLast(s[..1], ')');
      assert s[..4][..3] == s[..3] && s[..3][..2] == s[..2];
      assert s[..2][..1] == s[..1] && s[..1][..0] == [];
    }
    var r0 := ScanState(0, [], [0], [], []);
    assert ScanTo(s, 0) == Ok(r0) by {
      assert Zeros(1) == [0];
    }
    var r1 := ScanState(0, [0], [0], [0], []);
    assert ScanTo(s, 1) == Ok(r1) by {
      assert [] + [0] == [0];
      ScanNext(s, 0, r0, r1);
    }
    assert ScanTo(s, 2) == Ok(r1) by {
      ScanNext(s, 1, r1, r1);
    }
    var r3 := ScanState(1, [0], [0], [0], []);
    assert ScanTo(s, 3) == Ok(r3) by {
      ScanNext(s, 2, r1, r3);
    }
    ScanNext(s, 3, r3, r3);
  }

  /** The `)` at string position 4 is stripped position 3, stored as 5. */
  lemma AcrossClose(s: string)
    requires |s| == 5 && s[4] == ')'
    requires ScanTo(s, 4) == Ok(ScanState(1, [0], [0], [0], []))
    ensures ScanTo(s, 5) == Ok(ScanState(1, [0], [5], [], []))
  {
    var q := ScanTo(s, 5);
    assert q.Ok? && q.value.stack == [] && q.value.bpY == [5];
    assert q.value.bpX == [0] && q.value.numStrands == 1 && q.value.diagnostics == [];
  }

  lemma AcrossDecoded(s: string)
    requires |s| == 5 && ScanTo(s, 5) == Ok(ScanState(1, [0], [5], [], []))
    ensures Decode(s) == Ok(Coordinates([0], [5], []))
  {
    var d := Decode(s);
    assert d.Ok? && d.value.bpX == [0] && d.value.bpY == [5] && d.value.diagnostics == [];
  }

  /** One pair across a strand marker: the closing position is counted
      without the marker, and with one pair nothing is shifted. */
  lemma ExampleAcrossStrands(s: string)
    requires |s| == 5 && s[0] == '(' && s[1] == '.' && s[2] == '&' && s[3] == '.' && s[4] == ')'
    ensures Decode(s) == Ok(Coordinates([0], [5], []))
  {
    AcrossOpen(s);
    AcrossClose(s);
    AcrossDecoded(s);
  }

  // ----------------------------------------------------------------------
  // The three departures from a clean result

  /** A three-character string opening with `(` and holding one `)`. */
  lemma OneClosing(s: string)
    requires |s| == 3 && s[0] == '(' && (s[1] == ')') != (s[2] == ')')
    ensures CountChar(s, ')') == 1
  {
    CountLast(s, ')');
    CountLast(s[..2], ')');
    CountLast(s[..1], ')');
    assert s[..2][..1] == s[..1] && s[..1][..0] == [];
  }

  lemma TwoOpens(s: string)
    requires |s| == 3 && s[0] == '(' && s[1] == '(' && s[2] == ')'
    ensures ScanTo(s, 2) == Ok(ScanState(0, [0, 1], [0], [0, 1], []))
  {
    OneClosing(s);
    var r0 := ScanState(0, [], [0], [], []);
    var r1 := ScanState(0, [0], [0], [0], []);
    var r2 := ScanState(0, [0, 1], [0], [0, 1], []);
    assert ScanTo(s, 0) == Ok(r0) by { assert Zeros(1) == [0]; }
    assert Step(r0, 0, s[0]) == Ok(r1) by { assert [] + [0] == [0]; }
    ScanNext(s, 0, r0, r1);
    assert Step(r1, 1, s[1]) == Ok(r2) by { assert [0] + [1] == [0, 1]; }
    ScanNext(s, 1, r1, r2);
  }

  /** The `)` finds its opening in slot 1, but there is only slot 0. */
  lemma SlotMissing(st: ScanState)
    requires st.numStrands == 0 && st.bpX == [0, 1] && st.bpY == [0] && st.stack == [0, 1]
    ensures Step(st, 2, ')') == Err(SlotOutOfRange)
  {
    assert st.stack[|st.stack| - 1] == 1;
    assert IndexOf(st.bpX, 1) == Some(1);
    assert |st.bpY| == 1;
  }

  /** An opening whose slot index reaches the number of `)` panics. */
  lemma ExampleSlotOutOfRange(s: string)
    requires |s| == 3 && s[0] == '(' && s[1] == '(' && s[2] == ')'
    ensures Decode(s) == Err(SlotOutOfRange)
  {
    TwoOpens(s);
    SlotMissing(ScanTo(s, 2).value);
    assert ScanTo(s, 3) == Err(SlotOutOfRange);
  }

  /** A `)` with nothing open panics. */
  lemma ExampleUnmatchedClose(s: string)
    requires |s| == 2 && s[0] == ')' && s[1] == '('
    ensures Decode(s) == Err(UnmatchedClose)
  {
    var r0 := ScanTo(s, 0).value;
    assert r0.stack == [];
    assert ScanTo(s, 1) == Err(UnmatchedClose);
    ScanErrorPersists(s, 1);
  }

  lemma LeftoverFirst(s: string)
    requires |s| == 3 && s[0] == '(' && s[1] == ')' && s[2] == '('
    ensures ScanTo(s, 1) == Ok(ScanState(0, [0], [0], [0], []))
  {
    OneClosing(s);
    var r0 := ScanState(0, [], [0], [], []);
    var r1 := ScanState(0, [0], [0], [0], []);
    assert ScanTo(s, 0) == Ok(r0) by { assert Zeros(1) == [0]; }
    assert Step(r0, 0, s[0]) == Ok(r1) by { assert [] + [0] == [0]; }
    ScanNext(s, 0, r0, r1);
  }

  /** The `)` closes the opening at 0 in the only slot. */
  lemma LeftoverClose(s: string)
    requires |s| == 3 && s[1] == ')'
    requires ScanTo(s, 1) == Ok(ScanState(0, [0], [0], [0], []))
    ensures ScanTo(s, 2) == Ok(ScanState(0, [0], [3], [], []))
  {
    var q := ScanTo(s, 2);
    assert q.Ok? && q.value.stack == [] && q.value.bpY == [3];
    assert q.value.bpX == [0] && q.value.numStrands == 0 && q.value.diagnostics == [];
  }

  /** The last `(` is pushed and never popped. */
  lemma LeftoverOpen(s: string)
    requires |s| == 3 && s[2] == '('
    requires ScanTo(s, 2) == Ok(ScanState(0, [0], [3], [], []))
    ensures ScanTo(s, 3) == Ok(ScanState(0, [0, 2], [3], [2], []))
  {
    var q := ScanTo(s, 3);
    assert q.Ok? && q.value.stack == [2] && q.value.bpX == [0, 2];
    assert q.value.bpY == [3] && q.value.numStrands == 0 && q.value.diagnostics == [];
  }

  lemma LeftoverDecoded(s: string)
    requires |s| == 3 && ScanTo(s, 3) == Ok(ScanState(0, [0, 2], [3], [2], []))
    ensures Decode(s) == Ok(Coordinates([0, 2], [3], [LeftoverUnpaired]))
  {
    var d := Decode(s);
    assert d.Ok? && d.value.bpX == [0, 2] && d.value.bpY == [3];
    assert d.value.diagnostics == [LeftoverUnpaired];
  }

  /** A leftover `(` is only reported; the lists are still returned, and
      they even have different lengths. */
  lemma ExampleLeftover(s: string)
    requires |s| == 3 && s[0] == '(' && s[1] == ')' && s[2] == '('
    ensures Decode(s) == Ok(Coordinates([0, 2], [3], [LeftoverUnpaired]))
  {
    LeftoverFirst(s);
    LeftoverClose(s);
    LeftoverOpen(s);
    LeftoverDecoded(s);
  }
}
