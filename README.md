# ostir core in Dafny

ostir predicts how strongly a ribosome starts translation at each start
codon of an mRNA, from the free energies of folded RNA. This project models
the parts of it that compute without floating point or the folding library,
and proves what they do:

- **Dangle settings and fold results** (`types.dfy`). The dangling-end
  token used by the folding library and its integer code. The fold result,
  a sum over the number of folded strands: unknown, one strand or two.
- **The folding wrapper's own logic** (`vienna_wrapper.dfy`):
  - the sequence normalisation done before a fold: strands joined with
    `&`, `T` turned into `U`, upper case;
  - the removal of strand markers before an energy evaluation;
  - the ordering of suboptimal results by free energy;
  - the codec between bracket notation and 1-based base-pair coordinate
    lists. `coordinates_to_dots` is a loop method proved against the
    reference function `Encode`. `dots_to_coordinates` is a loop method
    proved against `Decode`, a character-by-character scan.
  - Each `unwrap()` or out-of-bounds index that panics in the program is a
    `CodecError`. Each line it prints is a `Diagnostic` in the result.
- **Properties of the decoder** (`codec_proofs.dfy`). These hold for every
  input string:
  - the position lookup never fails;
  - the result has a fixed layout;
  - the decoder neither panics nor reports leftover openings exactly when
    the string is balanced.
- **Both directions of the codec** (`codec_round_trip.dfy`):
  - decoding ignores strand markers;
  - the encoder writes one character per nucleotide;
  - decoding what the encoder wrote for well-formed, non-crossing pairs
    gives the pairs back, up to the decoder's fixed offsets.
- **Worked decoder examples** (`codec_examples.dfy`): a nested pair, a
  pair across strands, and each of the decoder's failure modes.
- **Energetics with integers** (`calculations.dfy`):
  - the largest helix span behind the kinetic score;
  - the backward scan that finds where the ribosome binds;
  - the mRNA window cut out around a start codon.
- **Sequence records** (`file_parser.dfy`):
  - the checked constructor of `DNASequence`;
  - its iterator, a class whose fields `next` updates in place, handing
    out sliding windows;
  - the FASTA parser, written as a character state machine. The records it
    yields are proved for any text and computed out for one and two records.
- **The start-codon scan** (`start_codons.dfy`). This is the loop at the
  start of `ostir`: eight codons in a fixed order, each giving its
  non-overlapping occurrences left to right.
  - Two of the codons overlap themselves: `GTG` and `GUG`. The scan misses
    some of their occurrences (`GtgOverlapExample`).
  - For the other six codons every occurrence is reported.

`wrappers.dfy` holds the `Option` and `Result` types.

## Model

| member | source | states |
|---|---|---|
| Types.NewDangles | src/types.rs:6-18 | accepts exactly `all`, `none`, `some` and `default`, keeping the token; anything else is the error "Invalid dangle setting" |
| Types.AsInt | src/types.rs:20-27 | `all` gives 2, `some` 1 and `none` 0, and these are the only tokens with a code; otherwise the error "Must pull default dangle setting" |
| Types.CodeOfEveryToken | src/types.rs:6-27 | for an accepted token, `all`→2, `some`→1, `none`→0, and only `default` has no code |
| Types.CodeIsInjective | src/types.rs:20-27 | two accepted tokens with the same code are the same token |
| Types.Create | src/types.rs:96-141 | one strand gives a single-strand result, two strands a two-strand result, no list or any other count an unknown result carrying the list; each getter returns the value passed in |
| ViennaWrapper.NormaliseSequence | src/vienna_wrapper.rs:16-22 | an empty list is the `sequences[0]` panic, returned as `NoSequences`; otherwise the result has the same length as the `&`-joined strands; a `U` exactly where the input had `T`, `U` or `u`; a `T` exactly where it had `t`; the markers stay in place; every other character is its own upper case at the same place; no lower-case letter is left |
| ViennaWrapper.StripMarkers | src/vienna_wrapper.rs:169 | the result has no `&` and is shorter by exactly the number of markers |
| ViennaWrapper.InsertByEnergy | src/vienna_wrapper.rs:157 | inserting into a list sorted by free energy keeps it sorted and adds exactly that one result |
| ViennaWrapper.SortByEnergy | src/vienna_wrapper.rs:157 | the suboptimal results come out in ascending free energy and are a permutation of the input |
| ViennaWrapper.SortIsStable | src/vienna_wrapper.rs:157 | `sort_by` is stable: the results of any one free energy come out in the order they went in |
| ViennaWrapper.Decrement | src/vienna_wrapper.rs:183-184 | each coordinate is one less, in the same order; `p` is in the result exactly when `p + 1` was in the input |
| ViennaWrapper.CoordinatesToDots | src/vienna_wrapper.rs:182-207 | the loop computes `Encode`: a coordinate 0 underflows; otherwise one `(`, `)` or `.` per nucleotide, with an opening taking precedence, and `&` between strands |
| ViennaWrapper.IndexOf | src/vienna_wrapper.rs:238-241 | the first index holding the value, and none exactly when the value is absent |
| ViennaWrapper.ScanErrorPersists | src/vienna_wrapper.rs:229-251 | a panic part-way through the scan is the outcome of the whole scan |
| ViennaWrapper.DotsToCoordinates | src/vienna_wrapper.rs:209-263 | the loops compute `Decode`: slot allocation, the scan, the leftover report and the shift by one |
| CodecProofs.OpenerPositions | src/vienna_wrapper.rs:232-235 | the openings recorded after a prefix number exactly the `(` in that prefix |
| CodecProofs.IndexOfIncreasing | src/vienna_wrapper.rs:238-241 | in a strictly increasing list, the position lookup of an element finds that element's own index |
| CodecProofs.CloseStep | src/vienna_wrapper.rs:236-243 | a `)` pops the last opening whose slot is still empty, writes its stripped position plus 2 into that slot, and panics exactly when that slot does not exist |
| CodecProofs.StepPreserves | src/vienna_wrapper.rs:230-250 | every character that does not panic keeps the scan invariant: increasing openings, the stack equal to the openings with empty slots, written slots at least 3 past their opening |
| CodecProofs.ScanInvariant | src/vienna_wrapper.rs:229-251 | the scan invariant holds after every prefix that does not panic |
| CodecProofs.OpenerAlwaysFound | src/vienna_wrapper.rs:238-241 | the `position(..).unwrap()` never panics, whatever the input |
| CodecProofs.NoOpenerNotFoundUpTo | src/vienna_wrapper.rs:229-251 | no prefix of the scan ends in a failed position lookup |
| CodecProofs.DecodeShape | src/vienna_wrapper.rs:209-263 | one closing per `)`; the openings are the stripped positions of the `(` (shifted by one when there is more than one closing); every written closing lies at least 3 past its opening; a leftover is reported exactly when there are more `(` than `)` |
| CodecProofs.BalancedIffClean | src/vienna_wrapper.rs:253-255 | a string is balanced exactly when decoding neither panics nor reports leftover openings |
| CodecProofs.BalancedScanOk | src/vienna_wrapper.rs:236-243 | no prefix of a balanced string panics |
| CodecProofs.BalancedPairsComplete | src/vienna_wrapper.rs:222-260 | a balanced string decodes into as many closings as openings, each closing at least 3 past its opening |
| CodecRoundTrip.StripConcat | src/vienna_wrapper.rs:169 | removing markers distributes over concatenation |
| CodecRoundTrip.StripCount | src/vienna_wrapper.rs:169 | removing markers keeps the number of every other character |
| CodecRoundTrip.ScanStrip | src/vienna_wrapper.rs:229-251 | after every prefix, the scan equals the scan of the marker-free string at the stripped position, apart from the strand count, which equals the markers read |
| CodecRoundTrip.DecodeIgnoresMarkers | src/vienna_wrapper.rs:169 | the marker-free string handed to the energy evaluation decodes exactly like the string itself |
| CodecRoundTrip.MarkOf | src/vienna_wrapper.rs:195-201 | for valid pairs, the encoder writes `(` exactly at an opening and `)` exactly at a closing, and never a marker |
| CodecRoundTrip.EncodeStrandsStripped | src/vienna_wrapper.rs:189-204 | without its markers, the encoding is one character per nucleotide across all strands |
| CodecRoundTrip.EncodeStrandsLength | src/vienna_wrapper.rs:189-204 | the encoding is the total strand length plus one marker between each two strands |
| CodecRoundTrip.EncodeLayout | src/vienna_wrapper.rs:182-207 | with no zero coordinate the encoder succeeds; without markers the result is the per-nucleotide marks, and it holds one marker fewer than there are strands |
| CodecRoundTrip.ShiftPairs | src/vienna_wrapper.rs:183-184 | valid 1-based pairs shift to valid 0-based pairs with no underflow |
| CodecRoundTrip.ClosingsTotal | src/vienna_wrapper.rs:222-224 | the encoding of valid pairs has exactly one `)` per pair, so the decoder allocates one slot per pair |
| CodecRoundTrip.OpenersSeen | src/vienna_wrapper.rs:232-235 | after a prefix of the encoding, the openings recorded are exactly the pairs opened in that prefix |
| CodecRoundTrip.CloseMatches | src/vienna_wrapper.rs:236-243 | at the closing of a non-crossing pair, the `)` pops that pair's own opening and writes the pair's own slot |
| CodecRoundTrip.DecodeMarks | src/vienna_wrapper.rs:209-263 | decoding the marks of valid 0-based pairs gives the openings back (each plus 1 once shifted), each closing plus 2 (plus 3 once shifted), and no message; the shift happens exactly when there are two pairs or more |
| CodecRoundTrip.RoundTrip | src/vienna_wrapper.rs:182-263 | for valid non-crossing 1-based pairs within the strands, decoding the encoding succeeds silently and returns the same openings when there are several pairs, otherwise the 0-based ones, and each closing plus 2 (plus 1 for a single pair) |
| CodecRoundTrip.ShiftBack | src/vienna_wrapper.rs:257-260 | the decoder's final shift by one undoes the encoder's shift on the openings |
| CodecExamples.ExampleNested | src/vienna_wrapper.rs:209-263 | `(())` decodes to openings 1, 2 and closings 6, 5 |
| CodecExamples.ExampleAcrossStrands | src/vienna_wrapper.rs:244-246 | `(.&.)` decodes to opening 0 and closing 5: the marker takes no position, and a single pair is not shifted |
| CodecExamples.ExampleSlotOutOfRange | src/vienna_wrapper.rs:242 | `(()` panics writing a closing slot that was never allocated |
| CodecExamples.ExampleUnmatchedClose | src/vienna_wrapper.rs:237 | `)(` panics popping an empty stack |
| CodecExamples.ExampleLeftover | src/vienna_wrapper.rs:253-255 | `()(` decodes to openings 0, 2 and closing 3, and reports the leftover opening |
| Calculations.CalcKineticScore | src/calculations.rs:12-31 | the underflow happens exactly when a pair within the sequence closes before it opens; otherwise the span is the largest over those pairs, is attained, is at most the sequence length; the probability is exactly 1 when the span is 0, and the span's power otherwise |
| Calculations.LastBound | src/calculations.rs:87-101 | the backward search finds the last pair reaching into the rRNA, and none exactly when every pair folds back onto the mRNA |
| Calculations.BindingOutcomes | src/calculations.rs:77-107 | the result is an indexing panic exactly when there are fewer closing than opening ends; exhaustion exactly when no pair reaches the rRNA; occlusion exactly when the last such pair opens at or after the start codon; an underflow exactly when the calibration goes below zero; otherwise the position plus the rRNA overshoot is the distance to the start codon; no other error occurs |
| Calculations.FindBindingPosition | src/calculations.rs:77-107 | the while loop computes `BindingPosition` |
| Calculations.CutoffMrna | src/calculations.rs:109-112 | the slice exists exactly when the start lies at most CUTOFF past the end; it begins at `max(0, start - CUTOFF)` and ends at `min(len, start + CUTOFF)`, so it is at most 2·CUTOFF long, and it holds every base within CUTOFF of the start, in place |
| Calculations.CutoffCentresStart | src/calculations.rs:109-112 | away from both ends the window is exactly 2·CUTOFF long, and its second half is the CUTOFF bases from the start codon on |
| FileParser.Validate | src/file_parser.rs:19-50 | a zero window, a window longer than the record, and an invalid base are refused in that order, each exactly under its condition; otherwise the record is accepted |
| FileParser.Window | src/file_parser.rs:84-119 | the window ending at a position is the slice of the record up to there, at most the window size wide, starting at 0 while filling and full-width afterwards |
| FileParser.WindowGrows | src/file_parser.rs:95-106 | while the buffer fills, the next window is the last one plus the next character |
| FileParser.WindowSlides | src/file_parser.rs:84-94 | once the buffer is full, the next window drops its first character and appends the next |
| FileParser.AdvanceWindow | src/file_parser.rs:84-119 | each of the three branches of `next` keeps the buffer equal to the window and the full flag set exactly past the window size |
| FileParser.DnaSequence.NewUnchecked | src/file_parser.rs:53-70 | a fresh record at position 0 with an empty buffer, its length the character count |
| FileParser.DnaSequence.New | src/file_parser.rs:19-50 | refuses with the first failing check; otherwise a fresh unread record |
| FileParser.DnaSequence.Next | src/file_parser.rs:76-120 | `None` exactly at the end, with nothing changed; otherwise the position moves by one and the segment is the window ending there; record and settings never change |
| FileParser.WindowsAt | src/file_parser.rs:76-120 | the segments of successive calls are, in order, the windows ending at each following position |
| FileParser.DnaSequence.Drain | src/main.rs:17-21 | iterating a record to the end yields every window from the current position on and leaves it at the end; the record, its description, its features, its window width and its circular flag are unchanged |
| FileParser.FastaRunAppend | src/file_parser.rs:149-183 | reading the text line by line is the same as running the state machine over the whole text |
| FileParser.FirstRefusal | src/file_parser.rs:155-159 | nothing is refused exactly when every record is accepted; otherwise the refusal is that of the first refused record |
| FileParser.RefusalPersists | src/file_parser.rs:155-159 | once a record is refused, later records do not change the outcome |
| FileParser.PushRecord | src/file_parser.rs:155-159 | a record that `DNASequence::new` refuses is refused exactly when it becomes the first refusal of the records so far; otherwise exactly one fresh, unread record is appended |
| FileParser.ParseFasta | src/file_parser.rs:129-194 | fails exactly when some record is refused, with the first refusal; otherwise one fresh unread record per record of the text, in order |
| FileParser.RecordsAreLetters | src/file_parser.rs:171-173 | every character kept in a record is alphabetic |
| FileParser.LineEndsInRecord | src/file_parser.rs:180-182 | after any newline-terminated line the parser is inside a record, so the early exit never fires |
| FileParser.HeaderRun | src/file_parser.rs:169-170 | a header line goes into the description and nowhere else |
| FileParser.BodyRun | src/file_parser.rs:171-173 | inside a record, text without `>` adds exactly its letters to the record |
| FileParser.SingleRecord | src/file_parser.rs:145-193 | `>header\nbody` yields the one record of the body's letters |
| FileParser.TwoRecords | src/file_parser.rs:152-165 | a second `>` closes the first record and opens the next: two headers yield the two bodies' letters in order |
| StartCodons.MatchIndices | src/main.rs:56 | every index reported is an occurrence, and each starts at least a pattern length after the previous one |
| StartCodons.MatchIndicesComplete | src/main.rs:56 | every occurrence is either reported or overlaps a reported one |
| StartCodons.AllOccurrencesFound | src/main.rs:56 | for a pattern that cannot overlap itself, every occurrence is reported |
| StartCodons.OverlapIsBorder | src/main.rs:56 | two overlapping occurrences force the pattern to have a border of the overlap's length |
| StartCodons.CodonOverlaps | src/main.rs:44-53 | of the eight start codons, exactly `GTG` and `GUG` can overlap themselves |
| StartCodons.GtgOverlapExample | src/main.rs:56 | in `GTGTG` the occurrence at 2 is missed: only 0 is reported |
| StartCodons.StartCodonsWellFormed | src/main.rs:44-53 | eight distinct non-empty codons |
| StartCodons.StartCodonPositions | src/main.rs:54-58 | the loop appends, codon by codon in the fixed order, each codon's matches tagged with the codon |
| StartCodons.CollectedOccur | src/main.rs:55-57 | every reported position is an occurrence of the codon it is tagged with |
| StartCodons.CollectedOrder | src/main.rs:55-57 | results are grouped by codon in the fixed codon order; within a group the positions ascend at least a codon length apart |
| StartCodons.EveryOccurrenceReported | src/main.rs:55-57 | every occurrence of a codon that cannot overlap itself is reported with that codon |
| StartCodons.EveryNonOverlappingCodonReported | src/main.rs:43-58 | every occurrence of the six start codons other than `GTG` and `GUG` is reported |

## Left out

- Calls into the folding library (`mfe`, `subopt`, the energy evaluation, the fold-compound setup and teardown) and the unsafe raw-memory code around them are foreign code. Only the string work done before and after those calls is modelled.
- The callback of the suboptimal search and the test module that embeds a Python interpreter are foreign code.
- Floating point is not modelled. This covers free energies (they are `real` values, only compared, when sorting), the `powf(-1.44)` and the division in the kinetic score (the model returns the integer span, the length and the formula's case), `calc_spacing_penalty`, and the constants `BETA`, `rt_eff`, `k` and the spacing coefficients.
- `calc_dg_standby_site` is an unimplemented `todo!()`.
- `calc_dg_mrna` is a slice of the constraint string followed by a library fold. The slice bounds use the number of strands, not the sequence length.
- File and console I/O are not modelled: `parse_file`, the byte-buffer line reading and UTF-8 decoding in `parse_fasta`, and the stubbed GenBank parser. `ParseFasta` works on the text the file holds.
- The data frame, the progress bar, thread settings and the printing in `main` and `ostir` are output and scheduling, not computation.
- FileParser.ParseFasta: `char::is_alphabetic` is a parameter `isAlphabetic`, since Unicode letter classes are not available. The description collected from headers is kept in the state but discarded, as in the program.
- All strings are assumed to be ASCII, so byte lengths and byte offsets equal character counts. The program measures bytes in `coordinates_to_dots` (`seq.len()`), in `calc_kinetic_score` (`fold.seqs.len()`), in `find_binding_position` (`as_bytes().len()`), in the offsets `match_indices` returns in the start-codon scan, and in the byte indexing of `DNASequence::next`. The members that model these (ViennaWrapper.CoordinatesToDots, Calculations.CalcKineticScore, Calculations.FindBindingPosition, StartCodons.MatchIndices, StartCodons.StartCodonPositions, FileParser.DnaSequence.Next) count characters.
- ViennaWrapper.NormaliseSequence: `to_uppercase` upper-cases only the ASCII letters here. Rust applies the full Unicode case mapping, which can change the length of non-ASCII text (`ß` becomes `SS`). The length clause holds only for ASCII input.
- FileParser.DnaSequence.Next: its precondition excludes a zero-width window with characters still to read. There the program removes from an empty buffer and panics; `New` refuses such a window.
- FileParser.DnaSequence.Next: circular records are not wrapped around (the program has a TODO for it).
- Integer width: `usize` is unbounded here. Every subtraction that can go below zero becomes an explicit error (`Underflow`, `Exhausted`, `CoordinateUnderflow`). No overflow near 2^64 is modelled.
- Calculations.FindBindingPosition: the "Ran out of bases" arm is unreachable in the program, because the earlier arms cover every pair. Running out of pairs underflows `num_folded_bases - counter` instead, which the model returns as `Exhausted`.
- ViennaWrapper.DotsToCoordinates: the messages the decoder prints are returned as a list of `Diagnostic` values rather than written.
- ViennaWrapper.SortByEnergy: the comparison's `unwrap()` can only fail on a NaN energy, which real numbers do not have.
- Types.FoldResult getters (`GetDG`, `GetDots`, `GetBpX`, `GetBpY`) carry no contract of their own; `Types.Create` states what they return.
- CodecRoundTrip.RoundTrip: decoding does not return the encoded coordinates unchanged. The lemma states exactly what comes back. With several pairs, the openings are unchanged and each closing is 2 more. With a single pair, the opening comes back 0-based and the closing is 1 more.
- StartCodons.MatchIndices requires a non-empty pattern. Every start codon is non-empty, and Rust's empty-pattern behaviour is never used.
- The start-codon scan's lemmas are stated for any list of distinct non-empty codons and then applied to the eight codons.
