/** The parts of the folding-library wrapper that do not call the library:
    the sequence normalisation done before a fold, the removal of strand
    markers before an evaluation, the ordering of suboptimal results, and
    the codec between bracket notation and base-pair coordinate lists.

    Bracket notation is a string over `(`, `)`, `.` and `&`; `&` separates
    strands and takes no position. A "stripped position" is the index of a
    character once every `&` before it is removed. */
module ViennaWrapper {
  import opened Wrappers
  import opened Types

  // ----------------------------------------------------------------------
  // Strings

  /** Number of occurrences of `c` in `s` (`str::matches(c).count()`). */
  function CountChar(s: string, c: char): (n: nat)
    ensures n <= |s|
  {
    if |s| == 0 then 0
    else CountChar(s[..|s| - 1], c) + (if s[|s| - 1] == c then 1 else 0)
  }

  /** `strands.join(sep)`: the strands with one `sep` between neighbours. */
  function Join(strands: seq<string>, sep: char): string
  {
    if |strands| == 0 then []
    else if |strands| == 1 then strands[0]
    else Join(strands[..|strands| - 1], sep) + [sep] + strands[|strands| - 1]
  }

  /** `replace("T", "U")` for a one-character pattern. */
  function ReplaceChar(s: string, from: char, to: char): string
  {
    seq(|s|, i requires 0 <= i < |s| => if s[i] == from then to else s[i])
  }

  function AsciiUpper(c: char): char
  {
    if 'a' <= c <= 'z' then (c as int - 'a' as int + 'A' as int) as char else c
  }

  /** `to_uppercase()` on the ASCII letters. */
  function ToUpper(s: string): string
  {
    seq(|s|, i requires 0 <= i < |s| => AsciiUpper(s[i]))
  }

  /** `sequences[0]` on an empty list is out of bounds and panics. */
  datatype FoldInputError = NoSequences

  /** The sequence string handed to the folding library by
      `FoldCompound::new`: several strands are joined with `&`; then `T`
      becomes `U`, and only then is the string upper-cased, so a lower-case
      `t` ends up as `T`, not `U`. The two branches of the program agree:
      a single strand is its own join. An empty list reaches
      `sequences[0]`, which panics. */
  function NormaliseSequence(sequences: seq<string>): (r: Result<string, FoldInputError>)
    ensures r.Err? <==> |sequences| == 0
    ensures r.Ok? ==> |r.value| == |Join(sequences, '&')|
    ensures r.Ok? ==> forall i | 0 <= i < |r.value| ::
      r.value[i] == 'T' <==> Join(sequences, '&')[i] == 't'
    ensures r.Ok? ==> forall i | 0 <= i < |r.value| ::
      r.value[i] == 'U' <==> Join(sequences, '&')[i] in {'T', 'U', 'u'}
    ensures r.Ok? ==> forall i | 0 <= i < |r.value| ::
      r.value[i] == '&' <==> Join(sequences, '&')[i] == '&'
    ensures r.Ok? ==> forall i | 0 <= i < |r.value| :: !('a' <= r.value[i] <= 'z')
    ensures r.Ok? ==> forall i | 0 <= i < |r.value| ::
      Join(sequences, '&')[i] !in {'T', 't'} ==> r.value[i] == AsciiUpper(Join(sequences, '&')[i])
  {
    if |sequences| > 1 then
      Ok(ToUpper(ReplaceChar(Join(sequences, '&'), 'T', 'U')))
    else if |sequences| == 1 then
      Ok(ToUpper(ReplaceChar(sequences[0], 'T', 'U')))
    else
      Err(NoSequences)
  }

  /** `dots.replace("&", "")`, done by `eval_structure` before the library
      evaluates a structure. */
  function StripMarkers(s: string): (r: string)
    ensures '&' !in r
    ensures |r| == |s| - CountChar(s, '&')
  {
    if |s| == 0 then []
    else StripMarkers(s[..|s| - 1]) + (if s[|s| - 1] == '&' then [] else [s[|s| - 1]])
  }

  // ----------------------------------------------------------------------
  // Suboptimal results

  predicate SortedByEnergy(results: seq<FoldResult>)
  {
    forall i, j | 0 <= i < j < |results| :: results[i].GetDG() <= results[j].GetDG()
  }

  function InsertByEnergy(r: FoldResult, sorted: seq<FoldResult>): (s: seq<FoldResult>)
    requires SortedByEnergy(sorted)
    ensures SortedByEnergy(s)
    ensures multiset(s) == multiset(sorted) + multiset{r}
  {
    if |sorted| == 0 then [r]
    else if r.GetDG() < sorted[0].GetDG() then [r] + sorted
    else
      var rest := InsertByEnergy(r, sorted[1..]);
      assert multiset([sorted[0]] + rest) == multiset(sorted) + multiset{r} by {
        assert sorted == [sorted[0]] + sorted[1..];
      }
      assert SortedByEnergy([sorted[0]] + rest) by {
        LowerBoundKept(sorted[0], r, sorted[1..], rest);
        SortedCons(sorted[0], rest);
      }
      [sorted[0]] + rest
  }

  /** A lower bound of a sorted list may go in front of it. */
  lemma SortedCons(head: FoldResult, rest: seq<FoldResult>)
    requires SortedByEnergy(rest)
    requires forall k | 0 <= k < |rest| :: head.GetDG() <= rest[k].GetDG()
    ensures SortedByEnergy([head] + rest)
  {
    var s := [head] + rest;
    forall i, j | 0 <= i < j < |s| ensures s[i].GetDG() <= s[j].GetDG() {
      assert s[j] == rest[j - 1];
      if i > 0 {
        assert s[i] == rest[i - 1];
      }
    }
  }

  /** A lower bound of `tail` and of `r` bounds every arrangement of both. */
  lemma LowerBoundKept(head: FoldResult, r: FoldResult, tail: seq<FoldResult>, rest: seq<FoldResult>)
    requires head.GetDG() <= r.GetDG()
    requires forall k | 0 <= k < |tail| :: head.GetDG() <= tail[k].GetDG()
    requires multiset(rest) == multiset(tail) + multiset{r}
    ensures forall k | 0 <= k < |rest| :: head.GetDG() <= rest[k].GetDG()
  {
    forall k | 0 <= k < |rest| ensures head.GetDG() <= rest[k].GetDG() {
      assert rest[k] in multiset(rest);
      if rest[k] != r {
        assert rest[k] in multiset(tail);
        var m :| 0 <= m < |tail| && tail[m] == rest[k];
      }
    }
  }

  /** The ordering `subopt` applies to the structures the library reports:
      ascending free energy, and the same structures. */
  function SortByEnergy(results: seq<FoldResult>): (s: seq<FoldResult>)
    ensures SortedByEnergy(s)
    ensures multiset(s) == multiset(results)
  {
    if |results| == 0 then []
    else
      assert results == results[..|results| - 1] + [results[|results| - 1]];
      InsertByEnergy(results[|results| - 1], SortByEnergy(results[..|results| - 1]))
  }

  /** The results of `results` whose free energy is `e`, in their order. */
  function EnergyClass(results: seq<FoldResult>, e: real): seq<FoldResult>
  {
    if |results| == 0 then []
    else (if results[0].GetDG() == e then [results[0]] else []) + EnergyClass(results[1..], e)
  }

  lemma {:induction false} EnergyClassAppend(a: seq<FoldResult>, b: seq<FoldResult>, e: real)
    ensures EnergyClass(a + b, e) == EnergyClass(a, e) + EnergyClass(b, e)
  {
    if |a| == 0 {
      assert a + b == b;
    } else {
      var own := if a[0].GetDG() == e then [a[0]] else [];
      assert (a + b)[0] == a[0];
      assert (a + b)[1..] == a[1..] + b;
      assert EnergyClass(a + b, e) == own + EnergyClass(a[1..] + b, e);
      EnergyClassAppend(a[1..], b, e);
      assert own + (EnergyClass(a[1..], e) + EnergyClass(b, e)) ==
        (own + EnergyClass(a[1..], e)) + EnergyClass(b, e);
    }
  }

  /** No result below every energy of the list shares its class. */
  lemma {:induction false} EnergyClassAbove(results: seq<FoldResult>, e: real)
    requires forall k | 0 <= k < |results| :: e < results[k].GetDG()
    ensures EnergyClass(results, e) == []
  {
    if |results| > 0 {
      EnergyClassAbove(results[1..], e);
    }
  }

  /** Insertion puts the new result after every result of equal energy. */
  lemma {:induction false} InsertKeepsClasses(r: FoldResult, sorted: seq<FoldResult>, e: real)
    requires SortedByEnergy(sorted)
    ensures EnergyClass(InsertByEnergy(r, sorted), e) ==
      EnergyClass(sorted, e) + (if r.GetDG() == e then [r] else [])
  {
    if |sorted| == 0 {
      assert InsertByEnergy(r, sorted) == [r];
      EnergyClassSingle(r, e);
    } else if r.GetDG() < sorted[0].GetDG() {
      assert InsertByEnergy(r, sorted) == [r] + sorted;
      InsertInFront(r, sorted, e);
    } else {
      var rest := InsertByEnergy(r, sorted[1..]);
      assert InsertByEnergy(r, sorted) == [sorted[0]] + rest;
      InsertKeepsClasses(r, sorted[1..], e);
      InsertBehind(r, sorted, rest, e);
    }
  }

  /** A result below the whole sorted list opens its class. */
  lemma InsertInFront(r: FoldResult, sorted: seq<FoldResult>, e: real)
    requires SortedByEnergy(sorted) && |sorted| > 0 && r.GetDG() < sorted[0].GetDG()
    ensures EnergyClass([r] + sorted, e) == EnergyClass(sorted, e) + (if r.GetDG() == e then [r] else [])
  {
    assert ([r] + sorted)[1..] == sorted;
    if r.GetDG() == e {
      forall k | 0 <= k < |sorted| ensures e < sorted[k].GetDG() {
        if k > 0 {
          assert sorted[0].GetDG() <= sorted[k].GetDG();
        }
      }
      EnergyClassAbove(sorted, e);
    }
  }

  /** Keeping the head in front keeps its place in its class. */
  lemma InsertBehind(r: FoldResult, sorted: seq<FoldResult>, rest: seq<FoldResult>, e: real)
    requires |sorted| > 0
    requires EnergyClass(rest, e) == EnergyClass(sorted[1..], e) + (if r.GetDG() == e then [r] else [])
    ensures EnergyClass([sorted[0]] + rest, e) == EnergyClass(sorted, e) + (if r.GetDG() == e then [r] else [])
  {
    var own := if sorted[0].GetDG() == e then [sorted[0]] else [];
    var added := if r.GetDG() == e then [r] else [];
    assert ([sorted[0]] + rest)[1..] == rest;
    assert EnergyClass([sorted[0]] + rest, e) == own + EnergyClass(rest, e);
    assert own + (EnergyClass(sorted[1..], e) + added) == (own + EnergyClass(sorted[1..], e)) + added;
  }

  /** One result alone is its own class or none. */
  lemma EnergyClassSingle(r: FoldResult, e: real)
    ensures EnergyClass([r], e) == if r.GetDG() == e then [r] else []
  {
    assert [r][1..] == [];
  }

  /** `sort_by` is stable: results of equal free energy come out in the
      order they went in. */
  lemma {:induction false} SortIsStable(results: seq<FoldResult>, e: real)
    ensures EnergyClass(SortByEnergy(results), e) == EnergyClass(results, e)
  {
    if |results| > 0 {
      var init, last := results[..|results| - 1], results[|results| - 1];
      var sortedInit := SortByEnergy(init);
      assert SortByEnergy(results) == InsertByEnergy(last, sortedInit);
      SortIsStable(init, e);
      InsertKeepsClasses(last, sortedInit, e);
      assert results == init + [last];
      EnergyClassAppend(init, [last], e);
      EnergyClassSingle(last, e);
    }
  }

  // ----------------------------------------------------------------------
  // Coordinates to bracket notation

  /** The ways the codec panics in the program. `OpenerNotFound` is the
      `position(..).unwrap()` in the decoder; it never happens (see
      `CodecProofs.OpenerAlwaysFound`). */
  datatype CodecError = UnmatchedClose | OpenerNotFound | SlotOutOfRange | CoordinateUnderflow

  /** `pos - 1` on every coordinate; the caller makes sure none is 0. */
  function Decrement(xs: seq<nat>): (r: seq<nat>)
    requires 0 !in xs
    ensures |r| == |xs| && forall i | 0 <= i < |xs| :: r[i] + 1 == xs[i]
    ensures forall p: nat :: p in r <==> p + 1 in xs
  {
    var r := seq(|xs|, i requires 0 <= i < |xs| => xs[i] - 1);
    assert forall p: nat :: p + 1 in xs ==> p in r by {
      forall p: nat | p + 1 in xs ensures p in r {
        var i :| 0 <= i < |xs| && xs[i] == p + 1;
        assert r[i] == p;
      }
    }
    r
  }

  /** The character emitted at 0-based, marker-free position `p`, given the
      decremented coordinate lists; an opening takes precedence. */
  function Mark(p: nat, openings: seq<nat>, closings: seq<nat>): char
  {
    if p in openings then '(' else if p in closings then ')' else '.'
  }

  /** The characters of one strand that starts at marker-free `offset`. */
  function Segment(offset: nat, len: nat, openings: seq<nat>, closings: seq<nat>): (r: string)
    ensures |r| == len
  {
    seq(len, i requires 0 <= i < len => Mark(offset + i, openings, closings))
  }

  /** Total length of the first `k` strands. */
  function Offset(strands: seq<string>, k: nat): nat
    requires k <= |strands|
  {
    if k == 0 then 0 else Offset(strands, k - 1) + |strands[k - 1]|
  }

  /** The bracket notation of the first `k` strands: one segment per strand,
      a `&` before every strand but the first. */
  function EncodeStrands(strands: seq<string>, k: nat, openings: seq<nat>, closings: seq<nat>): string
    requires k <= |strands|
  {
    if k == 0 then []
    else
      EncodeStrands(strands, k - 1, openings, closings)
      + (if k > 1 then "&" else "")
      + Segment(Offset(strands, k - 1), |strands[k - 1]|, openings, closings)
  }

  /** Reference for `coordinates_to_dots`: a coordinate 0 makes the `pos - 1`
      underflow; otherwise the strands are encoded with 0-based
      coordinates. */
  function Encode(strands: seq<string>, bpX: seq<nat>, bpY: seq<nat>): Result<string, CodecError>
  {
    if 0 in bpX || 0 in bpY then Err(CoordinateUnderflow)
    else Ok(EncodeStrands(strands, |strands|, Decrement(bpX), Decrement(bpY)))
  }

  /** `coordinates_to_dots`: shift the 1-based coordinates to 0-based, then
      walk the strands, writing `&` between consecutive strands and one
      character per nucleotide. */
  method CoordinatesToDots(strands: seq<string>, bpX: seq<nat>, bpY: seq<nat>)
    returns (r: Result<string, CodecError>)
    ensures r == Encode(strands, bpX, bpY)
  {
    if 0 in bpX || 0 in bpY {
      return Err(CoordinateUnderflow);
    }
    var openings := Decrement(bpX);
    var closings := Decrement(bpY);
    var notation: string := [];
    var counter := 0;
    for strandNumber := 0 to |strands|
      invariant counter == Offset(strands, strandNumber)
      invariant notation == EncodeStrands(strands, strandNumber, openings, closings)
    {
      var seqLen := |strands[strandNumber]|;
      if strandNumber > 0 {
        notation := notation + ['&'];
      }
      ghost var before := notation;
      for pos := counter to seqLen + counter
        invariant notation == before + Segment(counter, pos - counter, openings, closings)
      {
        if pos in openings {
          notation := notation + ['('];
        } else if pos in closings {
          notation := notation + [')'];
        } else {
          notation := notation + ['.'];
        }
        assert Segment(counter, pos + 1 - counter, openings, closings)
            == Segment(counter, pos - counter, openings, closings) + [Mark(pos, openings, closings)];
      }
      counter := counter + seqLen;
    }
    return Ok(notation);
  }

  // ----------------------------------------------------------------------
  // Bracket notation to coordinates

  /** What the decoder prints without stopping. */
  datatype Diagnostic = InvalidCharacter | LeftoverUnpaired

  /** The decoder's variables after a prefix of the string: the strand
      markers seen, the opening list, the closing slots, the stack of open
      positions and the messages printed so far. */
  datatype ScanState = ScanState(
    numStrands: nat, bpX: seq<nat>, bpY: seq<nat>, stack: seq<nat>, diagnostics: seq<Diagnostic>)

  /** The decoder's result: both lists and the messages it printed. */
  datatype Coordinates = Coordinates(bpX: seq<nat>, bpY: seq<nat>, diagnostics: seq<Diagnostic>)

  function Zeros(n: nat): (r: seq<nat>)
    ensures |r| == n && forall i | 0 <= i < n :: r[i] == 0
  {
    seq(n, _ => 0)
  }

  /** `Iterator::position`: the first index holding `v`. */
  function IndexOf(xs: seq<nat>, v: nat): (r: Option<nat>)
    ensures r.Some? ==> r.value < |xs| && xs[r.value] == v
    ensures r.Some? ==> forall j | 0 <= j < r.value :: xs[j] != v
    ensures r.None? <==> v !in xs
  {
    if |xs| == 0 then None
    else if xs[0] == v then Some(0)
    else
      match IndexOf(xs[1..], v)
      case None => None
      case Some(i) => Some(i + 1)
  }

  /** One character of the scan, at string index `pos`. A `)` pops the most
      recent open position, finds that opening in `bpX` and writes the
      stripped position plus 2 into the matching closing slot. */
  function Step(st: ScanState, pos: nat, c: char): Result<ScanState, CodecError>
    requires st.numStrands <= pos
  {
    var sp := pos - st.numStrands;
    if c == '.' then Ok(st)
    else if c == '(' then Ok(st.(bpX := st.bpX + [sp], stack := st.stack + [sp]))
    else if c == ')' then
      if |st.stack| == 0 then Err(UnmatchedClose)
      else
        var ntX := st.stack[|st.stack| - 1];
        match IndexOf(st.bpX, ntX)
        case None => Err(OpenerNotFound)
        case Some(slot) =>
          if slot < |st.bpY| then
            Ok(st.(stack := st.stack[..|st.stack| - 1], bpY := st.bpY[slot := sp + 2]))
          else Err(SlotOutOfRange)
    else if c == '&' then Ok(st.(numStrands := st.numStrands + 1))
    else Ok(st.(diagnostics := st.diagnostics + [InvalidCharacter]))
  }

  /** The state before the scan: one zero slot per `)` in the whole string. */
  function Initial(s: string): ScanState
  {
    ScanState(0, [], Zeros(CountChar(s, ')')), [], [])
  }

  /** The state after the first `k` characters of `s`, or the panic met on
      the way. Markers never outnumber the characters read. */
  function ScanTo(s: string, k: nat): (r: Result<ScanState, CodecError>)
    requires k <= |s|
    ensures r.Ok? ==> r.value.numStrands <= k
  {
    if k == 0 then Ok(Initial(s))
    else
      match ScanTo(s, k - 1)
      case Err(e) => Err(e)
      case Ok(st) => Step(st, k - 1, s[k - 1])
  }

  function Increment(xs: seq<nat>): (r: seq<nat>)
    ensures |r| == |xs| && forall i | 0 <= i < |xs| :: r[i] == xs[i] + 1
  {
    seq(|xs|, i requires 0 <= i < |xs| => xs[i] + 1)
  }

  /** Reference for `dots_to_coordinates`: scan the whole string; a
      leftover open position is only reported; both lists are shifted by 1
      exactly when there is more than one closing slot. */
  function Decode(s: string): Result<Coordinates, CodecError>
  {
    match ScanTo(s, |s|)
    case Err(e) => Err(e)
    case Ok(st) =>
      var diagnostics := st.diagnostics + (if |st.stack| > 0 then [LeftoverUnpaired] else []);
      if |st.bpY| > 1 then Ok(Coordinates(Increment(st.bpX), Increment(st.bpY), diagnostics))
      else Ok(Coordinates(st.bpX, st.bpY, diagnostics))
  }

  /** A panic part-way through is the panic of the whole scan. */
  lemma {:induction false} ScanErrorPersists(s: string, k: nat)
    requires k <= |s| && ScanTo(s, k).Err?
    ensures ScanTo(s, |s|) == ScanTo(s, k)
    decreases |s| - k
  {
    if k < |s| {
      ScanErrorPersists(s, k + 1);
    }
  }

  /** `dots_to_coordinates`. */
  method DotsToCoordinates(dots: string) returns (r: Result<Coordinates, CodecError>)
    ensures r == Decode(dots)
  {
    var bpX: seq<nat> := [];
    var bpY: seq<nat> := [];
    var closeCount := CountChar(dots, ')');
    for i := 0 to closeCount
      invariant bpY == Zeros(i)
    {
      bpY := bpY + [0];
    }
    var stack: seq<nat> := [];
    var numStrands: nat := 0;
    var diagnostics: seq<Diagnostic> := [];
    for pos := 0 to |dots|
      invariant ScanTo(dots, pos) == Ok(ScanState(numStrands, bpX, bpY, stack, diagnostics))
    {
      var letter := dots[pos];
      assert ScanTo(dots, pos + 1) == Step(ScanState(numStrands, bpX, bpY, stack, diagnostics), pos, letter);
      if letter == '.' {
      } else if letter == '(' {
        bpX := bpX + [pos - numStrands];
        stack := stack + [pos - numStrands];
      } else if letter == ')' {
        if |stack| == 0 {
          ScanErrorPersists(dots, pos + 1);
          return Err(UnmatchedClose);
        }
        var ntX := stack[|stack| - 1];
        stack := stack[..|stack| - 1];
        var slot := IndexOf(bpX, ntX);
        if slot.None? {
          ScanErrorPersists(dots, pos + 1);
          return Err(OpenerNotFound);
        }
        if slot.value >= |bpY| {
          ScanErrorPersists(dots, pos + 1);
          return Err(SlotOutOfRange);
        }
        bpY := bpY[slot.value := pos - numStrands + 2];
      } else if letter == '&' {
        numStrands := numStrands + 1;
      } else {
        diagnostics := diagnostics + [InvalidCharacter];
      }
    }
    ghost var final := ScanState(numStrands, bpX, bpY, stack, diagnostics);
    assert ScanTo(dots, |dots|) == Ok(final);
    if |stack| > 0 {
      diagnostics := diagnostics + [LeftoverUnpaired];
    }
    if |bpY| > 1 {
      ghost var x0, y0 := bpX, bpY;
      for i := 0 to |bpX|
        invariant |bpX| == |x0|
        invariant forall j | 0 <= j < |x0| :: bpX[j] == if j < i then x0[j] + 1 else x0[j]
      {
        bpX := bpX[i := bpX[i] + 1];
      }
      for i := 0 to |bpY|
        invariant |bpY| == |y0|
        invariant forall j | 0 <= j < |y0| :: bpY[j] == if j < i then y0[j] + 1 else y0[j]
      {
        bpY := bpY[i := bpY[i] + 1];
      }
      assert bpX == Increment(final.bpX) && bpY == Increment(final.bpY);
    }
    assert diagnostics == final.diagnostics + (if |final.stack| > 0 then [LeftoverUnpaired] else []);
    return Ok(Coordinates(bpX, bpY, diagnostics));
  }
}
