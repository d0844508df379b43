/** Sequence records read from FASTA text: the checked constructor, the
    iterator that hands out windows of the record, and the character state
    machine that splits FASTA text into records. Reading the file is not
    part of the model; the parser works on the text the file holds. */
module FileParser {
  import opened Wrappers

  /** The characters a record may hold (IUPAC nucleotide codes, both cases). */
  const VALID_BASES: string := "ACGTURYSWKMBDHVNacgturyswkmbdhvn"

  predicate IsValidBase(c: char)
  {
    c in VALID_BASES
  }

  /** The three reasons `DNASequence::new` refuses its input. */
  datatype SeqError = ZeroWindow | WindowTooLarge | InvalidBase

  /** An annotation of a stretch of the record (never filled in). */
  datatype Feature = Feature(description: string, start: nat, end: nat)

  /** One iterator item: the window's text and its half-open range. */
  datatype SeqSegment = SeqSegment(sequence: string, start: nat, end: nat)

  /** The checks of `DNASequence::new`, in the order it makes them: the
      window width first, then its size against the record, then every
      character against the alphabet. */
  function Validate(record: string, maxIterSize: nat): (r: Result<(), SeqError>)
    ensures r == Err(ZeroWindow) <==> maxIterSize == 0
    ensures r == Err(WindowTooLarge) <==> 0 < maxIterSize && |record| < maxIterSize
    ensures r == Err(InvalidBase) <==>
      0 < maxIterSize <= |record| && exists i | 0 <= i < |record| :: !IsValidBase(record[i])
    ensures r.Ok? <==>
      0 < maxIterSize <= |record| && forall i | 0 <= i < |record| :: IsValidBase(record[i])
  {
    if maxIterSize == 0 then Err(ZeroWindow)
    else if |record| < maxIterSize then Err(WindowTooLarge)
    else if exists i | 0 <= i < |record| :: !IsValidBase(record[i]) then Err(InvalidBase)
    else Ok(())
  }

  /** The window that ends at `end`: the last `min(end, maxIterSize)`
      characters of the record read so far. */
  function Window(record: string, maxIterSize: nat, end: nat): (w: SeqSegment)
    requires end <= |record|
    ensures w.end == end && w.start <= w.end
    ensures w.end - w.start <= maxIterSize
    ensures end <= maxIterSize ==> w.start == 0
    ensures maxIterSize <= end ==> w.end - w.start == maxIterSize
    ensures w.sequence == record[w.start..w.end]
  {
    var width := if end <= maxIterSize then end else maxIterSize;
    SeqSegment(record[end - width..end], end - width, end)
  }

  /** While the buffer is filling, the next window is the previous one
      with one more character. */
  lemma WindowGrows(record: string, maxIterSize: nat, end: nat)
    requires end < |record| && end < maxIterSize
    ensures Window(record, maxIterSize, end + 1).sequence ==
            Window(record, maxIterSize, end).sequence + [record[end]]
  {
    assert record[0..end + 1] == record[0..end] + [record[end]];
  }

  /** Once the buffer is full, the next window drops the first character
      and takes one more. */
  lemma WindowSlides(record: string, maxIterSize: nat, end: nat)
    requires end < |record| && 0 < maxIterSize <= end
    ensures Window(record, maxIterSize, end + 1).sequence ==
            Window(record, maxIterSize, end).sequence[1..] + [record[end]]
  {
    var w := Window(record, maxIterSize, end);
    assert w.sequence[1..] == record[end - maxIterSize + 1..end];
    assert record[end + 1 - maxIterSize..end + 1] == record[end - maxIterSize + 1..end] + [record[end]];
  }

  /** The iterator invariant over plain values: the buffer holds the
      window ending at `iterPos`, and it is full exactly when more
      characters were read than fit in it. */
  predicate WindowInvariant(record: string, maxIterSize: nat, sequenceLength: nat,
                            iterPos: nat, buffer: string, bufferIsFull: bool)
  {
    sequenceLength == |record| &&
    iterPos <= sequenceLength &&
    buffer == Window(record, maxIterSize, iterPos).sequence &&
    (bufferIsFull <==> iterPos > maxIterSize)
  }

  /** Each of the three branches of `next` keeps the invariant, and the
      middle one is taken exactly while the buffer is filling. */
  lemma AdvanceWindow(record: string, maxIterSize: nat, iterPos: nat, buffer: string, bufferIsFull: bool)
    requires WindowInvariant(record, maxIterSize, |record|, iterPos, buffer, bufferIsFull)
    requires iterPos < |record| && maxIterSize > 0
    ensures bufferIsFull ==>
      (|buffer| == maxIterSize &&
       WindowInvariant(record, maxIterSize, |record|, iterPos + 1, buffer[1..] + [record[iterPos]], true))
    ensures !bufferIsFull && |buffer| < maxIterSize ==>
      (|buffer| == iterPos &&
       WindowInvariant(record, maxIterSize, |record|, iterPos + 1, buffer + [record[iterPos]], false))
    ensures !bufferIsFull && |buffer| >= maxIterSize ==>
      (iterPos == maxIterSize &&
       WindowInvariant(record, maxIterSize, |record|, iterPos + 1, buffer[1..] + [record[iterPos]], true))
  {
    if iterPos < maxIterSize {
      WindowGrows(record, maxIterSize, iterPos);
    } else {
      WindowSlides(record, maxIterSize, iterPos);
    }
  }

  class DnaSequence {
    var description: string
    var record: string
    var isCircular: bool
    var features: seq<Feature>
    var iterPos: nat
    var maxIterSize: nat
    var bufferedSequence: string
    var sequenceLength: nat
    var bufferIsFull: bool

    predicate Valid()
      reads this
    {
      WindowInvariant(record, maxIterSize, sequenceLength, iterPos, bufferedSequence, bufferIsFull)
    }

    /** The state of a record that has just been built and never iterated. */
    predicate IsNew(text: string, window: nat, circular: bool)
      reads this
    {
      Valid() &&
      description == "" && record == text && isCircular == circular && features == [] &&
      iterPos == 0 && maxIterSize == window && bufferedSequence == "" &&
      sequenceLength == |text| && !bufferIsFull
    }

    /** `new_unchecked`: builds the record without looking at it. */
    constructor NewUnchecked(text: string, window: nat, circular: bool)
      ensures IsNew(text, window, circular)
    {
      description := "";
      record := text;
      isCircular := circular;
      features := [];
      iterPos := 0;
      maxIterSize := window;
      bufferedSequence := "";
      sequenceLength := |text|;
      bufferIsFull := false;
    }

    /** `DNASequence::new`: the sanity checks, then `new_unchecked`. */
    static method New(text: string, window: nat, circular: bool) returns (r: Result<DnaSequence, SeqError>)
      ensures r.Err? ==> Validate(text, window) == Err(r.error)
      ensures r.Ok? ==> Validate(text, window).Ok? && fresh(r.value) && r.value.IsNew(text, window, circular)
    {
      if window == 0 {
        return Err(ZeroWindow);
      }
      if window > |text| {
        return Err(WindowTooLarge);
      }
      for i := 0 to |text|
        invariant forall j | 0 <= j < i :: IsValidBase(text[j])
      {
        if !IsValidBase(text[i]) {
          return Err(InvalidBase);
        }
      }
      var result := new DnaSequence.NewUnchecked(text, window, circular);
      return Ok(result);
    }

    /** `Iterator::next`: `None` at the end of the record; otherwise one
        more character is read and the window ending there is returned.
        A zero-width window that still has characters to read would remove
        from an empty buffer, which panics; callers never reach that. */
    method Next() returns (r: Option<SeqSegment>)
      requires Valid()
      requires maxIterSize > 0 || iterPos >= sequenceLength
      modifies this
      ensures Valid()
      ensures record == old(record) && maxIterSize == old(maxIterSize)
      ensures description == old(description) && features == old(features)
      ensures isCircular == old(isCircular) && sequenceLength == old(sequenceLength)
      ensures r.None? <==> old(iterPos) >= sequenceLength
      ensures r.None? ==> iterPos == old(iterPos)
      ensures r.Some? ==> iterPos == old(iterPos) + 1 && r.value == Window(record, maxIterSize, iterPos)
    {
      if iterPos >= sequenceLength {
        return None;
      }
      var pos := iterPos;
      var next := record[pos];
      var window := maxIterSize;
      AdvanceWindow(record, window, pos, bufferedSequence, bufferIsFull);
      if bufferIsFull {
        // remove(0), then push
        var buffer := bufferedSequence[1..] + [next];
        bufferedSequence, iterPos := buffer, pos + 1;
        return Some(SeqSegment(buffer, pos + 1 - window, pos + 1));
      } else if |bufferedSequence| < window {
        // push only
        var buffer := bufferedSequence + [next];
        bufferedSequence, iterPos := buffer, pos + 1;
        return Some(SeqSegment(buffer, pos + 1 - |buffer|, pos + 1));
      } else {
        // remove(0), push, and the buffer is full from now on
        var buffer := bufferedSequence[1..] + [next];
        bufferedSequence, iterPos, bufferIsFull := buffer, pos + 1, true;
        return Some(SeqSegment(buffer, pos + 1 - window, pos + 1));
      }
    }

    /** Drives the iterator to its end, as `for _next in sequence` does:
        one window per character not yet read, in order. */
    method Drain() returns (segments: seq<SeqSegment>)
      requires Valid()
      requires maxIterSize > 0 || iterPos >= sequenceLength
      modifies this
      ensures Valid() && iterPos == sequenceLength
      ensures record == old(record) && maxIterSize == old(maxIterSize)
      ensures description == old(description) && features == old(features)
      ensures isCircular == old(isCircular)
      ensures segments == Windows(record, maxIterSize, old(iterPos), sequenceLength - old(iterPos))
    {
      ghost var from, text, width := iterPos, record, maxIterSize;
      segments := [];
      while true
        invariant Valid() && record == text && maxIterSize == width
        invariant description == old(description) && features == old(features)
        invariant isCircular == old(isCircular)
        invariant width > 0 || iterPos >= sequenceLength
        invariant iterPos == from + |segments|
        invariant segments == Windows(text, width, from, |segments|)
        decreases |text| - iterPos
      {
        var next := Next();
        if next.None? {
          break;
        }
        WindowsSnoc(text, width, from, segments, next.value);
        segments := segments + [next.value];
      }
    }
  }

  /** The `count` windows that follow position `from`, in order. */
  function Windows(record: string, maxIterSize: nat, from: nat, count: nat): seq<SeqSegment>
    requires from + count <= |record|
  {
    if count == 0 then []
    else Windows(record, maxIterSize, from, count - 1) + [Window(record, maxIterSize, from + count)]
  }

  /** Appending the next window extends the list by one. */
  lemma WindowsSnoc(record: string, maxIterSize: nat, from: nat, segments: seq<SeqSegment>, w: SeqSegment)
    requires from + |segments| + 1 <= |record|
    requires segments == Windows(record, maxIterSize, from, |segments|)
    requires w == Window(record, maxIterSize, from + |segments| + 1)
    ensures segments + [w] == Windows(record, maxIterSize, from, |segments| + 1)
  {
  }

  /** Window `i` of the list ends at the `i + 1`-th character after `from`,
      so the ends are consecutive and each window is the record's slice. */
  lemma {:induction false} WindowsAt(record: string, maxIterSize: nat, from: nat, count: nat)
    requires from + count <= |record|
    ensures |Windows(record, maxIterSize, from, count)| == count
    ensures forall i | 0 <= i < count ::
      Windows(record, maxIterSize, from, count)[i] == Window(record, maxIterSize, from + i + 1)
  {
    if count > 0 {
      WindowsAt(record, maxIterSize, from, count - 1);
    }
  }

  // ----------------------------------------------------------------------
  // parse_fasta

  /** The parser's variables between two characters: the two flags, the
      record and description being collected, and the records closed so far
      (the program validates each one as it closes it). */
  datatype FastaState = FastaState(
    inSeq: bool, addToDescription: bool, description: string, sequence: string,
    closed: seq<string>)

  const FASTA_START := FastaState(false, false, "", "", [])

  /** One character of the state machine. `isAlphabetic` is the program's
      classification of letters. */
  function FastaStep(st: FastaState, c: char, isAlphabetic: char -> bool): FastaState
  {
    if c == '>' then
      if st.inSeq then
        FastaState(false, true, "", "", st.closed + [st.sequence])
      else
        st.(addToDescription := true)
    else if c == '\n' && !st.inSeq then
      st.(addToDescription := false, inSeq := true)
    else if st.addToDescription then
      st.(description := st.description + [c])
    else if isAlphabetic(c) && st.inSeq then
      st.(sequence := st.sequence + [c])
    else st
  }

  /** The state machine run over `text` from `st`. */
  function FastaRun(st: FastaState, text: string, isAlphabetic: char -> bool): FastaState
    decreases |text|
  {
    if |text| == 0 then st
    else FastaRun(FastaStep(st, text[0], isAlphabetic), text[1..], isAlphabetic)
  }

  /** Running over two pieces is running over their concatenation. */
  lemma {:induction false} FastaRunAppend(st: FastaState, a: string, b: string, isAlphabetic: char -> bool)
    ensures FastaRun(st, a + b, isAlphabetic) == FastaRun(FastaRun(st, a, isAlphabetic), b, isAlphabetic)
    decreases |a|
  {
    if |a| == 0 {
      assert a + b == b;
    } else {
      assert (a + b)[0] == a[0] && (a + b)[1..] == a[1..] + b;
      FastaRunAppend(FastaStep(st, a[0], isAlphabetic), a[1..], b, isAlphabetic);
    }
  }

  /** The records of `text` in order: those closed by a `>`, then the one
      still open at the end. */
  function FastaRecords(text: string, isAlphabetic: char -> bool): seq<string>
  {
    var st := FastaRun(FASTA_START, text, isAlphabetic);
    st.closed + (if st.inSeq then [st.sequence] else [])
  }

  /** The first record, in order, that `DNASequence::new` refuses. */
  function FirstRefusal(records: seq<string>, maxIterSize: nat): (r: Option<SeqError>)
    ensures r.None? <==> forall i | 0 <= i < |records| :: Validate(records[i], maxIterSize).Ok?
    ensures r.Some? ==> exists i | 0 <= i < |records| ::
      Validate(records[i], maxIterSize) == Err(r.value) &&
      forall j | 0 <= j < i :: Validate(records[j], maxIterSize).Ok?
  {
    if |records| == 0 then None
    else match Validate(records[0], maxIterSize)
      case Err(e) => Some(e)
      case Ok(_) =>
        var rest := FirstRefusal(records[1..], maxIterSize);
        if rest.Some? then
          assert forall i | 1 <= i < |records| :: records[i] == records[1..][i - 1];
          rest
        else
          assert forall i | 1 <= i < |records| :: records[i] == records[1..][i - 1];
          None
  }

  /** Refusals seen while records are closed one by one are the first
      refusal of the whole list. */
  lemma FirstRefusalAppend(records: seq<string>, next: string, maxIterSize: nat)
    requires FirstRefusal(records, maxIterSize).None?
    ensures FirstRefusal(records + [next], maxIterSize) ==
      (match Validate(next, maxIterSize) case Ok(_) => None case Err(e) => Some(e))
    decreases |records|
  {
    if |records| > 0 {
      assert (records + [next])[1..] == records[1..] + [next];
      assert Validate(records[0], maxIterSize).Ok?;
      FirstRefusalAppend(records[1..], next, maxIterSize);
    } else {
      assert (records + [next])[1..] == [];
    }
  }

  /** `parse_fasta` over the text of the file: every record the state
      machine closes is built with `DNASequence::new`, and the first refusal
      aborts the whole parse. */
  method ParseFasta(text: string, maxIterSize: nat, isCircular: bool, isAlphabetic: char -> bool)
    returns (r: Result<seq<DnaSequence>, SeqError>)
    ensures var records := FastaRecords(text, isAlphabetic);
      r.Err? <==> FirstRefusal(records, maxIterSize).Some?
    ensures var records := FastaRecords(text, isAlphabetic);
      r.Err? ==> FirstRefusal(records, maxIterSize) == Some(r.error)
    ensures var records := FastaRecords(text, isAlphabetic);
      r.Ok? ==>
        |r.value| == |records| &&
        forall i | 0 <= i < |records| ::
          fresh(r.value[i]) && r.value[i].IsNew(records[i], maxIterSize, isCircular)
  {
    var description := "";
    var sequence := "";
    var sequences: seq<DnaSequence> := [];
    var addToDescription := false;
    var inSeq := false;
    ghost var closed: seq<string> := [];
    for i := 0 to |text|
      invariant FastaRun(FASTA_START, text, isAlphabetic) ==
        FastaRun(FastaState(inSeq, addToDescription, description, sequence, closed), text[i..], isAlphabetic)
      invariant FirstRefusal(closed, maxIterSize).None?
      invariant |sequences| == |closed|
      invariant forall j | 0 <= j < |closed| ::
        fresh(sequences[j]) && sequences[j].IsNew(closed[j], maxIterSize, isCircular)
    {
      var c := text[i];
      ghost var before := FastaState(inSeq, addToDescription, description, sequence, closed);
      RunStep(text, i, before, isAlphabetic);
      ghost var after := FastaStep(before, c, isAlphabetic);
      if c == '>' {
        if inSeq {
          inSeq := false;
          var pushed := PushRecord(sequences, closed, sequence, maxIterSize, isCircular);
          if pushed.Err? {
            RefusedRecordEnds(text, after, text[i + 1..], isAlphabetic, maxIterSize);
            return Err(pushed.error);
          }
          ghost var prevSequences, prevClosed := sequences, closed;
          sequences := pushed.value;
          closed := closed + [sequence];
          forall j | 0 <= j < |closed|
            ensures fresh(sequences[j]) && sequences[j].IsNew(closed[j], maxIterSize, isCircular)
          {
            if j < |prevClosed| {
              assert sequences[j] == prevSequences[j] && closed[j] == prevClosed[j];
            }
          }
          description := "";
          sequence := "";
          addToDescription := true;
        } else {
          addToDescription := true;
        }
      } else if c == '\n' && !inSeq {
        addToDescription := false;
        inSeq := true;
      } else if addToDescription {
        description := description + [c];
      } else if isAlphabetic(c) && inSeq {
        sequence := sequence + [c];
      }
      assert FastaState(inSeq, addToDescription, description, sequence, closed) == after;
    }
    ghost var records := FastaRecords(text, isAlphabetic);
    assert text[|text|..] == [];
    assert records == closed + (if inSeq then [sequence] else []);
    if inSeq {
      var pushed := PushRecord(sequences, closed, sequence, maxIterSize, isCircular);
      if pushed.Err? {
        return Err(pushed.error);
      }
      ghost var prevSequences := sequences;
      sequences := pushed.value;
      forall j | 0 <= j < |records|
        ensures fresh(sequences[j]) && sequences[j].IsNew(records[j], maxIterSize, isCircular)
      {
        if j < |closed| {
          assert sequences[j] == prevSequences[j] && records[j] == closed[j];
        }
      }
    }
    return Ok(sequences);
  }

  /** The state machine's run over `text`, seen after `i` characters, is
      its run after one more. */
  lemma RunStep(text: string, i: nat, st: FastaState, isAlphabetic: char -> bool)
    requires i < |text|
    requires FastaRun(FASTA_START, text, isAlphabetic) == FastaRun(st, text[i..], isAlphabetic)
    ensures FastaRun(FASTA_START, text, isAlphabetic) ==
      FastaRun(FastaStep(st, text[i], isAlphabetic), text[i + 1..], isAlphabetic)
  {
    assert text[i..][0] == text[i] && text[i..][1..] == text[i + 1..];
  }

  /** A refusal among the records closed so far is the outcome of the
      whole text. */
  lemma RefusedRecordEnds(text: string, st: FastaState, rest: string, isAlphabetic: char -> bool, maxIterSize: nat)
    requires FastaRun(FASTA_START, text, isAlphabetic) == FastaRun(st, rest, isAlphabetic)
    requires FirstRefusal(st.closed, maxIterSize).Some?
    ensures FirstRefusal(FastaRecords(text, isAlphabetic), maxIterSize) == FirstRefusal(st.closed, maxIterSize)
  {
    ClosedOnlyGrows(st, rest, isAlphabetic);
    RefusalPersists(st.closed, FastaRecords(text, isAlphabetic), maxIterSize);
  }

  /** The block `parse_fasta` runs wherever a record ends: build it with
      `DNASequence::new` and push it, or return the refusal. */
  method PushRecord(sequences: seq<DnaSequence>, ghost closed: seq<string>, sequence: string,
                    maxIterSize: nat, isCircular: bool)
    returns (r: Result<seq<DnaSequence>, SeqError>)
    requires FirstRefusal(closed, maxIterSize).None?
    ensures r.Err? <==> FirstRefusal(closed + [sequence], maxIterSize).Some?
    ensures r.Err? ==> FirstRefusal(closed + [sequence], maxIterSize) == Some(r.error)
    ensures r.Ok? ==>
      |r.value| == |sequences| + 1 && r.value[..|sequences|] == sequences &&
      fresh(r.value[|sequences|]) && r.value[|sequences|].IsNew(sequence, maxIterSize, isCircular)
  {
    var newSeq := DnaSequence.New(sequence, maxIterSize, isCircular);
    FirstRefusalAppend(closed, sequence, maxIterSize);
    match newSeq {
      case Ok(record) => r := Ok(sequences + [record]);
      case Err(e) => r := Err(e);
    }
  }

  /** The state machine never takes back a closed record. */
  lemma {:induction false} ClosedOnlyGrows(st: FastaState, text: string, isAlphabetic: char -> bool)
    ensures st.closed <= FastaRun(st, text, isAlphabetic).closed
    decreases |text|
  {
    if |text| > 0 {
      ClosedOnlyGrows(FastaStep(st, text[0], isAlphabetic), text[1..], isAlphabetic);
    }
  }

  /** A refusal among the first records is the first refusal of any longer
      list. */
  lemma {:induction false} RefusalPersists(prefix: seq<string>, records: seq<string>, maxIterSize: nat)
    requires prefix <= records
    requires FirstRefusal(prefix, maxIterSize).Some?
    ensures FirstRefusal(records, maxIterSize) == FirstRefusal(prefix, maxIterSize)
    decreases |prefix|
  {
    assert records[0] == prefix[0];
    if Validate(prefix[0], maxIterSize).Ok? {
      assert prefix[1..] <= records[1..];
      RefusalPersists(prefix[1..], records[1..], maxIterSize);
    }
  }

  /** Every character the state machine keeps in a record, open or closed,
      is one the program classifies as a letter. */
  predicate LettersOnly(st: FastaState, isAlphabetic: char -> bool)
  {
    (forall k | 0 <= k < |st.sequence| :: isAlphabetic(st.sequence[k])) &&
    forall j, k | 0 <= j < |st.closed| && 0 <= k < |st.closed[j]| :: isAlphabetic(st.closed[j][k])
  }

  lemma {:induction false} FastaRunLettersOnly(st: FastaState, text: string, isAlphabetic: char -> bool)
    requires LettersOnly(st, isAlphabetic)
    ensures LettersOnly(FastaRun(st, text, isAlphabetic), isAlphabetic)
    decreases |text|
  {
    if |text| > 0 {
      var next := FastaStep(st, text[0], isAlphabetic);
      assert LettersOnly(next, isAlphabetic) by {
        if text[0] == '>' && st.inSeq {
          assert next.closed == st.closed + [st.sequence];
          forall j, k | 0 <= j < |next.closed| && 0 <= k < |next.closed[j]|
            ensures isAlphabetic(next.closed[j][k])
          {
            if j < |st.closed| {
              assert next.closed[j] == st.closed[j];
            } else {
              assert next.closed[j] == st.sequence;
            }
          }
        }
      }
      FastaRunLettersOnly(next, text[1..], isAlphabetic);
    }
  }

  /** Only letters reach the records of a FASTA text. */
  lemma RecordsAreLetters(text: string, isAlphabetic: char -> bool)
    ensures forall j, k | 0 <= j < |FastaRecords(text, isAlphabetic)| && 0 <= k < |FastaRecords(text, isAlphabetic)[j]| ::
      isAlphabetic(FastaRecords(text, isAlphabetic)[j][k])
  {
    FastaRunLettersOnly(FASTA_START, text, isAlphabetic);
    var st := FastaRun(FASTA_START, text, isAlphabetic);
    var records := FastaRecords(text, isAlphabetic);
    forall j, k | 0 <= j < |records| && 0 <= k < |records[j]|
      ensures isAlphabetic(records[j][k])
    {
      if j < |st.closed| {
        assert records[j] == st.closed[j];
      } else {
        assert records[j] == st.sequence;
      }
    }
  }

  /** The letters of `s`, in order. */
  function Letters(s: string, isAlphabetic: char -> bool): (r: string)
    ensures |r| <= |s|
    ensures forall k | 0 <= k < |r| :: isAlphabetic(r[k])
  {
    if |s| == 0 then []
    else (if isAlphabetic(s[0]) then [s[0]] else []) + Letters(s[1..], isAlphabetic)
  }

  /** Inside a header line every character but a newline goes to the
      description. */
  lemma {:induction false} HeaderRun(st: FastaState, header: string, isAlphabetic: char -> bool)
    requires st.addToDescription && !st.inSeq
    requires '>' !in header && '\n' !in header
    ensures FastaRun(st, header, isAlphabetic) == st.(description := st.description + header)
    decreases |header|
  {
    if |header| == 0 {
      assert st.description + header == st.description;
    } else {
      assert header[0] in header;
      var next := st.(description := st.description + [header[0]]);
      assert FastaStep(st, header[0], isAlphabetic) == next;
      assert forall c | c in header[1..] :: c in header;
      HeaderRun(next, header[1..], isAlphabetic);
      assert next.description + header[1..] == st.description + header;
    }
  }

  /** Inside a record every letter goes to the record, whatever the line
      breaks. */
  lemma {:induction false} BodyRun(st: FastaState, body: string, isAlphabetic: char -> bool)
    requires !st.addToDescription && st.inSeq
    requires '>' !in body
    ensures FastaRun(st, body, isAlphabetic) == st.(sequence := st.sequence + Letters(body, isAlphabetic))
    decreases |body|
  {
    if |body| == 0 {
      assert st.sequence + Letters(body, isAlphabetic) == st.sequence;
    } else {
      assert body[0] in body;
      var kept := if isAlphabetic(body[0]) then [body[0]] else [];
      var next := st.(sequence := st.sequence + kept);
      assert FastaStep(st, body[0], isAlphabetic) == next;
      assert forall c | c in body[1..] :: c in body;
      BodyRun(next, body[1..], isAlphabetic);
      assert next.sequence + Letters(body[1..], isAlphabetic) == st.sequence + Letters(body, isAlphabetic);
    }
  }

  /** Running over `a` then over `b`, through a known middle state. */
  lemma RunThen(st: FastaState, a: string, b: string, mid: FastaState, last: FastaState, isAlphabetic: char -> bool)
    requires FastaRun(st, a, isAlphabetic) == mid && FastaRun(mid, b, isAlphabetic) == last
    ensures FastaRun(st, a + b, isAlphabetic) == last
  {
    FastaRunAppend(st, a, b, isAlphabetic);
  }

  /** A `>` inside a record closes it; outside one it starts a header. */
  lemma RunMarker(st: FastaState, isAlphabetic: char -> bool)
    ensures FastaRun(st, ">", isAlphabetic) ==
      if st.inSeq then FastaState(false, true, "", "", st.closed + [st.sequence])
      else st.(addToDescription := true)
  {
    assert ">"[0] == '>' && ">"[1..] == [];
  }

  /** A newline outside a record ends the header and opens the record. */
  lemma RunNewline(st: FastaState, isAlphabetic: char -> bool)
    requires !st.inSeq
    ensures FastaRun(st, "\n", isAlphabetic) == st.(addToDescription := false, inSeq := true)
  {
    assert "\n"[0] == '\n' && "\n"[1..] == [];
  }

  /** After any line that ends in a newline the parser is inside a record,
      so the check that ends the read loop when it is neither in a record
      nor in a header only matters after the last, unterminated line. */
  lemma LineEndsInRecord(st: FastaState, line: string, isAlphabetic: char -> bool)
    requires |line| > 0 && line[|line| - 1] == '\n'
    ensures FastaRun(st, line, isAlphabetic).inSeq
  {
    var head := line[..|line| - 1];
    assert line == head + "\n";
    FastaRunAppend(st, head, "\n", isAlphabetic);
    var mid := FastaRun(st, head, isAlphabetic);
    assert "\n"[0] == '\n' && "\n"[1..] == [];
    assert FastaRun(mid, "\n", isAlphabetic) == FastaStep(mid, '\n', isAlphabetic);
  }

  /** A header line read outside a record: the description is the header,
      and the record is open and empty. */
  lemma HeaderLine(st: FastaState, header: string, isAlphabetic: char -> bool)
    requires st.addToDescription && !st.inSeq && st.description == "" && st.sequence == ""
    requires '>' !in header && '\n' !in header
    ensures FastaRun(st, header + "\n", isAlphabetic) == FastaState(true, false, header, "", st.closed)
  {
    HeaderRun(st, header, isAlphabetic);
    var mid := st.(description := st.description + header);
    assert st.description + header == header;
    RunNewline(mid, isAlphabetic);
    RunThen(st, header, "\n", mid, FastaState(true, false, header, "", st.closed), isAlphabetic);
  }

  /** The header line of the first record. */
  lemma SingleRecordHeader(header: string, isAlphabetic: char -> bool)
    requires '>' !in header && '\n' !in header
    ensures FastaRun(FASTA_START, ">" + header + "\n", isAlphabetic) == FastaState(true, false, header, "", [])
  {
    var st1 := FastaState(false, true, "", "", []);
    RunMarker(FASTA_START, isAlphabetic);
    HeaderLine(st1, header, isAlphabetic);
    RunThen(FASTA_START, ">", header + "\n", st1, FastaState(true, false, header, "", []), isAlphabetic);
    assert ">" + header + "\n" == ">" + (header + "\n");
  }

  /** A text with one header and one record yields that record's letters,
      and nothing of the header. */
  lemma SingleRecord(header: string, body: string, isAlphabetic: char -> bool)
    requires '>' !in header && '\n' !in header && '>' !in body
    ensures FastaRecords(">" + header + "\n" + body, isAlphabetic) == [Letters(body, isAlphabetic)]
  {
    SingleRecordHeader(header, isAlphabetic);
    var st := FastaState(true, false, header, "", []);
    BodyRun(st, body, isAlphabetic);
    assert "" + Letters(body, isAlphabetic) == Letters(body, isAlphabetic);
    RunThen(FASTA_START, ">" + header + "\n", body, st, st.(sequence := Letters(body, isAlphabetic)), isAlphabetic);
  }

  /** A `>` inside a record closes it, and the next header starts. */
  lemma NextHeader(st: FastaState, body: string, header: string, isAlphabetic: char -> bool)
    requires !st.addToDescription && st.inSeq
    requires '>' !in body && '>' !in header && '\n' !in header
    ensures FastaRun(st, body + ">" + header + "\n", isAlphabetic) ==
      FastaState(true, false, header, "", st.closed + [st.sequence + Letters(body, isAlphabetic)])
  {
    BodyRun(st, body, isAlphabetic);
    var st1 := st.(sequence := st.sequence + Letters(body, isAlphabetic));
    var st2 := FastaState(false, true, "", "", st.closed + [st1.sequence]);
    RunMarker(st1, isAlphabetic);
    RunThen(st, body, ">", st1, st2, isAlphabetic);
    var st3 := FastaState(true, false, header, "", st2.closed);
    HeaderLine(st2, header, isAlphabetic);
    RunThen(st, body + ">", header + "\n", st2, st3, isAlphabetic);
    assert body + ">" + header + "\n" == (body + ">") + (header + "\n");
  }

  /** Two records: each is closed with its own letters, in file order. */
  lemma TwoRecords(header1: string, body1: string, header2: string, body2: string, isAlphabetic: char -> bool)
    requires '>' !in header1 && '\n' !in header1 && '>' !in body1
    requires '>' !in header2 && '\n' !in header2 && '>' !in body2
    ensures FastaRecords(">" + header1 + "\n" + body1 + ">" + header2 + "\n" + body2, isAlphabetic) ==
      [Letters(body1, isAlphabetic), Letters(body2, isAlphabetic)]
  {
    var first := ">" + header1 + "\n";
    var middle := body1 + ">" + header2 + "\n";
    var st1 := FastaState(true, false, header1, "", []);
    SingleRecordHeader(header1, isAlphabetic);
    var st2 := FastaState(true, false, header2, "", [Letters(body1, isAlphabetic)]);
    NextHeader(st1, body1, header2, isAlphabetic);
    assert "" + Letters(body1, isAlphabetic) == Letters(body1, isAlphabetic);
    RunThen(FASTA_START, first, middle, st1, st2, isAlphabetic);
    var st3 := st2.(sequence := Letters(body2, isAlphabetic));
    BodyRun(st2, body2, isAlphabetic);
    assert "" + Letters(body2, isAlphabetic) == Letters(body2, isAlphabetic);
    RunThen(FASTA_START, first + middle, body2, st2, st3, isAlphabetic);
    TwoRecordsText(header1, body1, header2, body2);
  }

  /** The text of two records, split after the first header line and
      after the second; a proof step of `TwoRecords`. */
  lemma TwoRecordsText(header1: string, body1: string, header2: string, body2: string)
    ensures ">" + header1 + "\n" + body1 + ">" + header2 + "\n" + body2 ==
      (">" + header1 + "\n") + (body1 + ">" + header2 + "\n") + body2
  {
  }
}
