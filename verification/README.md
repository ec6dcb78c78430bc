# Verified arithmetic and decoding engines

A Dafny model of three engines of the code base, with proofs of what they compute.

- **Multi-precision naturals** (`num/src/bng.c`, `num/src/bng_digit.c`): little-endian
  digit arrays updated in place. Modules `BngDigit`, `Bng`, `BngMul`, `BngDiv`.
- **Zstandard decoding** (`js_of_ocaml/runtime/zstd.js`, RFC 8878): finite state entropy
  tables (`ZstdDistribution`, `ZstdHeader`, `ZstdWalk`, `ZstdSpread`, `ZstdFse`), Huffman
  tables (`ZstdKraft`, `ZstdHuffman`), sequence execution (`ZstdSequences`).
- **Zarith integers** (`Zarith/caml_z.c`): sign, magnitude and canonical form (`ZRepr`),
  rounding division (`ZDiv`), right shift and bit fields (`ZShift`), logical operations
  (`ZBits`), on schoolbook stand-ins for the GMP routines they call (`Mpn`).

`Arith`, `Bits`, `Words` and `Counting` hold what these share. The word width is an
arbitrary constant of 2 * 2^k bits, k at least 1, so nothing rests on 64 bits; machine
arithmetic wraps modulo `BASE`, and every wrap that matters is written out.

Three notions carry the contracts. `Val(s)` is the natural that a digit string denotes.
`Grew(s, t, o, n, c, x)` says that the n digits of s at offset o, followed by a carry c,
denote x more than those of t there; a routine that adds states it of (new, old), one
that subtracts of (old, new). `OnlyChanged(a, lo, hi)` frames an update.

Two facts about the code that its documentation does not say:

- The correction loops of both divisions make at most two turns on a normalised divisor
  (`EstimateMissesByTwo`, `QuotientDigit`).
- `rhu` counts code lengths in bytes. Weights that give 256 symbols the same length form a
  complete code (`UniformIsComplete`) but make a counter wrap, and the table is refused.
  `WrapIffUniform` and `BuildTable` state the exact condition.

`dafny verify dfyconfig.toml` checks everything.

## Model

| member | source | states |
|---|---|---|
| `BngDigit.Add2` | test-code-base/irmin/duniverse/num/src/bng_digit.c:25-31 | Two digits: sum and carry are exact although the machine addition wraps. |
| `BngDigit.Add2Carry` | test-code-base/irmin/duniverse/num/src/bng_digit.c:36-43 | Two digits and a carry: exact, and the carry out is at most one although two comparisons are added. |
| `BngDigit.Add3` | test-code-base/irmin/duniverse/num/src/bng_digit.c:48-56 | Three digits: the result is their sum modulo BASE, and the accumulator grows by just the number of overflows. |
| `BngDigit.Sub2` | test-code-base/irmin/duniverse/num/src/bng_digit.c:61-67 | Difference and borrow of two digits are exact. |
| `BngDigit.Sub2Carry` | test-code-base/irmin/duniverse/num/src/bng_digit.c:72-79 | Difference with a borrow coming in: exact, with a borrow out of at most one. |
| `BngDigit.Sub3` | test-code-base/irmin/duniverse/num/src/bng_digit.c:84-92 | Three-operand difference modulo BASE; the accumulator grows by just the borrows taken. |
| `BngDigit.Mult` | test-code-base/irmin/duniverse/num/src/bng_digit.c:108-117 | The two result digits denote the product of any two digits; the high one never overflows (it is at most BASE - 2). |
| `BngDigit.MultSplit` | test-code-base/irmin/duniverse/num/src/bng_digit.c:109-116 | The four half products, each shifted as the code shifts it, add up to the product. |
| `BngDigit.MultCarry` | test-code-base/irmin/duniverse/num/src/bng_digit.c:113-116 | The high digit has room for the carries out of the low one. |
| `BngDigit.UnderEstimate` | test-code-base/irmin/duniverse/num/src/bng_digit.c:136-148 | Dividing by one more than the upper half of the divisor never exceeds the true quotient, so no subtraction goes below zero. |
| `BngDigit.EstimateMissesByTwo` | test-code-base/irmin/duniverse/num/src/bng_digit.c:149-172 | For a normalised divisor the estimate is at most two short of the quotient, for any radix. |
| `BngDigit.HalfEstimate` | test-code-base/irmin/duniverse/num/src/bng_digit.c:137-148 | Estimate and subtraction around the shift by half a digit keep quotient times divisor plus rest equal to the numerator, with no bit lost and no borrow out of two digits. |
| `BngDigit.CorrectTurn` | test-code-base/irmin/duniverse/num/src/bng_digit.c:150-154 | A correction moves one divisor from the rest to the quotient digit; neither the borrow nor the increment wraps. |
| `BngDigit.HalfDiv` | test-code-base/irmin/duniverse/num/src/bng_digit.c:136-154 | The corrected half-digit quotient and rest are those of division; the correction loop ends for every divisor and makes at most two turns for a normalised one. |
| `BngDigit.Div` | test-code-base/irmin/duniverse/num/src/bng_digit.c:129-176 | Quotient and remainder of two digits by one are exact for every divisor above the high digit, using half-digit products only. |
| `Bng.LeadingZeroBits` | test-code-base/irmin/duniverse/num/src/bng.c:36-48 | The number of zero bits above the top set bit, at every word width; all of them for zero. |
| `Bng.Compare` | test-code-base/irmin/duniverse/num/src/bng.c:69-86 | The result is the sign of the difference of the two numbers, leading zeros or not. |
| `Bng.AddCarry` | test-code-base/irmin/duniverse/num/src/bng.c:91-100 | The array grows by the carry, overflow counted in the carry out; the early exit loses nothing. |
| `Bng.Add` | test-code-base/irmin/duniverse/num/src/bng.c:104-119 | Digits and carry out denote the sum of both numbers and the carry in, for operands of different lengths. |
| `Bng.SubCarry` | test-code-base/irmin/duniverse/num/src/bng.c:122-131 | The array shrinks by the borrow, underflow counted in the borrow out. |
| `Bng.Sub` | test-code-base/irmin/duniverse/num/src/bng.c:135-150 | Digits and borrow out denote the difference. |
| `Bng.ShiftLeft` | test-code-base/irmin/duniverse/num/src/bng.c:155-169 | Digits and bits shifted out denote the number times the power of two. |
| `Bng.ShiftRight` | test-code-base/irmin/duniverse/num/src/bng.c:174-188 | The digits denote the floor quotient by the power of two; the result holds the remainder at the top of a digit. |
| `BngMul.Accumulate` | test-code-base/irmin/duniverse/num/src/bng.c:202-208 | One digit of multiply-add is exact: the high digit takes both carries without overflowing. |
| `BngMul.MultAddDigit` | test-code-base/irmin/duniverse/num/src/bng.c:192-222 | The array grows by d times b; the carry out is at most one when a is longer than b. |
| `BngMul.Deduct` | test-code-base/irmin/duniverse/num/src/bng.c:236-242 | One digit of multiply-subtract is exact: the high digit takes both borrows without overflowing. |
| `BngMul.MultSubDigit` | test-code-base/irmin/duniverse/num/src/bng.c:226-256 | The array shrinks by d times b; the borrow out is at most one when a is longer than b. |
| `BngMul.MultAdd` | test-code-base/irmin/duniverse/num/src/bng.c:260-269 | The array grows by b times c, and the carries of all rounds together are at most one. |
| `BngMul.SquareSplit` | test-code-base/irmin/duniverse/num/src/bng.c:281-298 | A square is the digit squares plus twice the products of different digits. |
| `BngMul.CrossProducts` | test-code-base/irmin/duniverse/num/src/bng.c:281-286 | The shared products are added once each, with carries of at most one in all. |
| `BngMul.AddSquares` | test-code-base/irmin/duniverse/num/src/bng.c:289-305 | The digit squares are added in place, with a carry of at most one. |
| `BngMul.SquareAdd` | test-code-base/irmin/duniverse/num/src/bng.c:273-307 | New a plus its carry is twice old a plus the square of b; the carry is at most two. |
| `BngDiv.DivRemNormDigit` | test-code-base/irmin/duniverse/num/src/bng.c:312-328 | Quotient digits and remainder are exact, also when the quotient overwrites the numerator one digit up, as the one-digit case of long division does. |
| `BngDiv.DivRemDigit` | test-code-base/irmin/duniverse/num/src/bng.c:333-348 | Normalising, dividing and shifting back gives the exact quotient and remainder and restores every digit of b. |
| `BngDiv.Restored` | test-code-base/irmin/duniverse/num/src/bng.c:340-346 | Shifting a block up without loss and down again restores it digit for digit. |
| `BngDiv.Unscale` | test-code-base/irmin/duniverse/num/src/bng.c:399-401 | The remainder of scaled operands is divisible by the scale, and undoing it leaves quotient and remainder of the originals. |
| `BngDiv.NoBitsLost` | test-code-base/irmin/duniverse/num/src/bng.c:364-368 | A number whose top digit is at most the divisor's loses no bits when it is shifted to normalise the divisor. |
| `BngDiv.EstimateDigit` | test-code-base/irmin/duniverse/num/src/bng.c:381-385 | The digit estimate, where topden + 1 wrapping to zero stands for dividing by BASE. |
| `BngDiv.EstimateOk` | test-code-base/irmin/duniverse/num/src/bng.c:381-394 | The estimate times the divisor never exceeds the window, and the true digit is at most two more. |
| `BngDiv.Correct` | test-code-base/irmin/duniverse/num/src/bng.c:388-394 | The correction loop ends with the window below the divisor; the digit never reaches BASE and no borrow is left over. |
| `BngDiv.QuotientDigit` | test-code-base/irmin/duniverse/num/src/bng.c:376-396 | One turn of long division: the stored digit and the rest are quotient and remainder of the window, and at most two corrections were made. |
| `BngDiv.MidwayStep` | test-code-base/irmin/duniverse/num/src/bng.c:375-397 | What one turn keeps: quotient digits so far times the divisor plus what is left is the numerator, and what is left is below the shifted divisor. |
| `BngDiv.LongDivision` | test-code-base/irmin/duniverse/num/src/bng.c:369-398 | On normalised operands the high digits become the quotient and the low ones the remainder. |
| `BngDiv.DivRem` | test-code-base/irmin/duniverse/num/src/bng.c:355-402 | Long division is exact: old n is quotient times d plus remainder, the remainder is below d, and d is as before. |
| `ZstdCommon.Msb` | test-code-base/irmin/duniverse/js_of_ocaml/runtime/zstd.js:119-124 | The position of the top set bit, -1 for zero. |
| `ZstdDistribution.ValueRoundTrip` | test-code-base/irmin/duniverse/js_of_ocaml/runtime/zstd.js:147-164 | The variable-length code of every value that can occur is read back from any stream that starts with it, consuming just its bits. |
| `ZstdDistribution.ValueFormat` | test-code-base/irmin/duniverse/js_of_ocaml/runtime/zstd.js:147-164 | The code itself: as many of the smallest values as there are windows to spare take one bit less, a window without its top bit is its own value, and the other long ones count up to the number of slots left and one, which is all ones. |
| `ZstdDistribution.BookedNext` | test-code-base/irmin/duniverse/js_of_ocaml/runtime/zstd.js:165-171 | Recording a frequency keeps the books: the slots given out and those left make up the table, none is given out twice, and symbols of frequency -1 sit on top, last first. |
| `ZstdDistribution.ReadFrequency` | test-code-base/irmin/duniverse/js_of_ocaml/runtime/zstd.js:146-181 | One turn of the reading loop keeps the books and the remaining total non-negative; zero runs are skipped in two-bit steps. |
| `ZstdDistribution.ReadDistribution` | test-code-base/irmin/duniverse/js_of_ocaml/runtime/zstd.js:146-181 | At the end the frequencies read, a -1 counting one, account for all slots not left over. |
| `ZstdHeader.FieldIsTail` | test-code-base/irmin/duniverse/js_of_ocaml/runtime/zstd.js:151-151 | Bytes joined by shifts and masks yield the bits of the stream read as one number, at every bit position. |
| `ZstdHeader.SkipsZeros` | test-code-base/irmin/duniverse/js_of_ocaml/runtime/zstd.js:172-180 | A run of zero frequencies of any length is read back from its two-bit digits. |
| `ZstdHeader.FreqsRoundTrip` | test-code-base/irmin/duniverse/js_of_ocaml/runtime/zstd.js:146-181 | From any point of a distribution on, reading what was written gives the same frequencies. |
| `ZstdHeader.HeaderRoundTrip` | test-code-base/irmin/duniverse/js_of_ocaml/runtime/zstd.js:126-183 | Whatever follows it in the stream, a written header gives back its accuracy log and frequencies, and no bit after it is consumed. |
| `ZstdHeader.WriteThenRead` | test-code-base/irmin/duniverse/js_of_ocaml/runtime/zstd.js:126-183 | Every distribution that fills its table has bytes from which it is read back, and the reader stops after the last of them (section 4.1.1 of RFC 8878). |
| `ZstdWalk.StepIsOdd` | test-code-base/irmin/duniverse/js_of_ocaml/runtime/zstd.js:185-186 | The step is odd for every table of 32 slots or more. |
| `ZstdWalk.OddInverse` | test-code-base/irmin/duniverse/js_of_ocaml/runtime/zstd.js:185-188 | An odd step has an inverse modulo every power of two. |
| `ZstdWalk.WalkCovers` | test-code-base/irmin/duniverse/js_of_ocaml/runtime/zstd.js:197-200 | Every slot is on the walk. |
| `ZstdWalk.WalkInjective` | test-code-base/irmin/duniverse/js_of_ocaml/runtime/zstd.js:197-200 | No slot is on it twice. |
| `ZstdWalk.WalkReturns` | test-code-base/irmin/duniverse/js_of_ocaml/runtime/zstd.js:203-205 | After as many steps as slots the walk is back at slot zero. |
| `ZstdSpread.PlaceAndMove` | test-code-base/irmin/duniverse/js_of_ocaml/runtime/zstd.js:197-200 | One symbol goes to a free slot; the loop that steps over the top slots ends while symbols remain. |
| `ZstdSpread.WalkEnds` | test-code-base/irmin/duniverse/js_of_ocaml/runtime/zstd.js:196-205 | The walk is complete exactly when every symbol has been placed. |
| `ZstdSpread.SpreadingEnd` | test-code-base/irmin/duniverse/js_of_ocaml/runtime/zstd.js:203-205 | At the end the position is zero and every slot was filled once. |
| `ZstdSpread.Spread` | test-code-base/irmin/duniverse/js_of_ocaml/runtime/zstd.js:184-205 | Each symbol gets exactly its count of slots, in the order of the walk; the top slots stay; the position returns to zero, so the error check after it never fires. |
| `ZstdFse.SpreadAscends` | test-code-base/irmin/duniverse/js_of_ocaml/runtime/zstd.js:186-202 | Along the walk from slot zero the symbols below the top slots come in ascending order. |
| `ZstdFse.TopDescends` | test-code-base/irmin/duniverse/js_of_ocaml/runtime/zstd.js:166-169 | In the top slots the symbols of frequency -1 descend, each there once. |
| `ZstdFse.BuildStates` | test-code-base/irmin/duniverse/js_of_ocaml/runtime/zstd.js:206-212 | The slots of a symbol with c slots are numbered c, c + 1 and on in table order: slot number c + r has r earlier slots of the symbol, counted as sets, and baseline plus table size is that number times two to its bits. |
| `ZstdFse.SlotNumbers` | test-code-base/irmin/duniverse/js_of_ocaml/runtime/zstd.js:206-212 | That numbering on every finished table; with the bound on the baseline it determines bits and baselines. |
| `ZstdFse.SlotsAscend` | test-code-base/irmin/duniverse/js_of_ocaml/runtime/zstd.js:206-212 | From one slot of a symbol to its next the number goes up by one, and the bits never go up. |
| `ZstdFse.EntryRange` | test-code-base/irmin/duniverse/js_of_ocaml/runtime/zstd.js:210-211 | Baseline and bits lead to states inside the table only. |
| `ZstdFse.PrecedingSlot` | test-code-base/irmin/duniverse/js_of_ocaml/runtime/zstd.js:206-212 | Every symbol of the table and every next state have a slot that leads from the one to the other ... |
| `ZstdFse.PrecedingSlotUnique` | test-code-base/irmin/duniverse/js_of_ocaml/runtime/zstd.js:206-212 | ... and only one: the ranges of a symbol's slots partition the states (section 4.1.1 of RFC 8878). |
| `ZstdFse.Rfse` | test-code-base/irmin/duniverse/js_of_ocaml/runtime/zstd.js:126-219 | The table is built unless the accuracy is too high (error 3), or the frequencies name more than 256 symbols or leave slots over (error 0); there is no other failure. Each symbol has its exact count of slots in walk order, and every slot the bits and baseline of its number among them. |
| `ZstdFse.Encode` | test-code-base/irmin/duniverse/js_of_ocaml/runtime/zstd.js:517-521 | Every message over the table's symbols has a bit string that the state machine decodes to it, from any final slot. |
| `ZstdFse.EncodingUnique` | test-code-base/irmin/duniverse/js_of_ocaml/runtime/zstd.js:517-521 | That bit string and start state are the only ones. |
| `ZstdKraft.RunsDisjoint` | test-code-base/irmin/duniverse/js_of_ocaml/runtime/zstd.js:304-317 | The runs of different symbols share no table entry. |
| `ZstdKraft.RunsCover` | test-code-base/irmin/duniverse/js_of_ocaml/runtime/zstd.js:304-317 | Complete lengths leave no entry without a symbol. |
| `ZstdKraft.RunAligned` | test-code-base/irmin/duniverse/js_of_ocaml/runtime/zstd.js:304-317 | Each run starts at a multiple of its own length; this needs completeness. |
| `ZstdKraft.RunIsPrefix` | test-code-base/irmin/duniverse/js_of_ocaml/runtime/zstd.js:304-317 | An entry is a symbol's just when it begins with that symbol's code word. |
| `ZstdKraft.PrefixFree` | test-code-base/irmin/duniverse/js_of_ocaml/runtime/zstd.js:304-317 | No code word begins another (section 4.2.1 of RFC 8878). |
| `ZstdHuffman.SumWeights` | test-code-base/irmin/duniverse/js_of_ocaml/runtime/zstd.js:278-285 | The sum of the weights as powers of two, unless a weight is above 11. |
| `ZstdHuffman.Pow2Test` | test-code-base/irmin/duniverse/js_of_ocaml/runtime/zstd.js:291-294 | x & (x - 1) vanishes for the powers of two and for no other number. |
| `ZstdHuffman.CompletedFills` | test-code-base/irmin/duniverse/js_of_ocaml/runtime/zstd.js:286-298 | With the derived last weight, the lengths exactly fill the table. |
| `ZstdHuffman.KraftIsWeightSum` | test-code-base/irmin/duniverse/js_of_ocaml/runtime/zstd.js:296-308 | The entries laid out for the lengths are as many as the weights' sum. |
| `ZstdHuffman.CountLengths` | test-code-base/irmin/duniverse/js_of_ocaml/runtime/zstd.js:296-299 | Weights become code lengths, and each byte counter holds the count modulo 256. |
| `ZstdHuffman.RankStarts` | test-code-base/irmin/duniverse/js_of_ocaml/runtime/zstd.js:304-308 | The lengths are laid out longest first, and nb records each entry's length. |
| `ZstdHuffman.FillSymbols` | test-code-base/irmin/duniverse/js_of_ocaml/runtime/zstd.js:311-317 | Every entry of every symbol's run names that symbol. |
| `ZstdHuffman.WrapIffUniform` | test-code-base/irmin/duniverse/js_of_ocaml/runtime/zstd.js:299-299 | A counter wraps exactly when 256 symbols have one weight. |
| `ZstdHuffman.UniformIsComplete` | test-code-base/irmin/duniverse/js_of_ocaml/runtime/zstd.js:299-310 | Those weights do form a complete code: that they are refused comes from the byte counter, not from the format. |
| `ZstdHuffman.BuildTable` | test-code-base/irmin/duniverse/js_of_ocaml/runtime/zstd.js:277-322 | The table is tiled exactly by the symbols' runs, each entry naming symbol and length. It is built if and only if no weight is above 11 and some last weight makes the code complete, other than 256 lengths that are all the same; equivalently unless a weight is above 11, there is none, the missing part is no power of two, or 256 symbols share one weight. |
| `ZstdHuffman.AcceptedIff` | test-code-base/irmin/duniverse/js_of_ocaml/runtime/zstd.js:277-310 | The list of refusals is just the complement of completable codes whose lengths are not 256 copies of one. |
| `ZstdHuffman.EntryNames` | test-code-base/irmin/duniverse/js_of_ocaml/runtime/zstd.js:304-317 | Every entry names a symbol that occurs, and that symbol's length. |
| `ZstdHuffman.TableOrder` | test-code-base/irmin/duniverse/js_of_ocaml/runtime/zstd.js:304-317 | Entries of longer codes come first, and those of one length in the order of their symbols. |
| `ZstdHuffman.SymbolEntries` | test-code-base/irmin/duniverse/js_of_ocaml/runtime/zstd.js:304-317 | A symbol of length b names two to the table width less b entries, one that does not occur none; with the order this determines the table. |
| `ZstdHuffman.DecodeEncode` | test-code-base/irmin/duniverse/js_of_ocaml/runtime/zstd.js:364-373 | Looking up and skipping as many bits as the table says recovers every encoded message and consumes all its bits. |
| `ZstdSequences.ResolveInPlace` | test-code-base/irmin/duniverse/js_of_ocaml/runtime/zstd.js:522-538 | The distance meant and the distances remembered are those of the abstract rule, updated in place. |
| `ZstdSequences.ResolveIsMostRecent` | test-code-base/irmin/duniverse/js_of_ocaml/runtime/zstd.js:522-538 | That rule keeps the three most recent distances in order, with the shift by one for empty literals and the special case of one less than the latest (section 3.1.1.5 of RFC 8878). |
| `ZstdSequences.CopyLiterals` | test-code-base/irmin/duniverse/js_of_ocaml/runtime/zstd.js:539-542 | Literals are moved forward within the buffer without one being overwritten before it is read. |
| `ZstdSequences.CopyFromWindow` | test-code-base/irmin/duniverse/js_of_ocaml/runtime/zstd.js:543-553 | The part of a match before the block is read from the window, byte for byte at its distance from the end. |
| `ZstdSequences.CopyFromOutput` | test-code-base/irmin/duniverse/js_of_ocaml/runtime/zstd.js:554-557 | The rest comes from the block's own output, overlapping or not. |
| `ZstdSequences.CopyMatchInPlace` | test-code-base/irmin/duniverse/js_of_ocaml/runtime/zstd.js:543-557 | A match that spans both is the byte-by-byte copy of the abstract decoder, and window and output together are that copy made in one stream. |
| `ZstdSequences.MatchIsPeriodic` | test-code-base/irmin/duniverse/js_of_ocaml/runtime/zstd.js:554-557 | A match longer than its distance repeats with that period. |
| `ZstdSequences.MatchInStream` | test-code-base/irmin/duniverse/js_of_ocaml/runtime/zstd.js:543-557 | The window is the past of the output: a match copied after a window is the match copied in the joined stream. |
| `ZstdSequences.MatchLooksBack` | test-code-base/irmin/duniverse/js_of_ocaml/runtime/zstd.js:543-557 | Every byte of a match is the one its distance earlier in the joined stream, in the window, the output or the match itself. |
| `ZstdSequences.MatchStart` | test-code-base/irmin/duniverse/js_of_ocaml/runtime/zstd.js:546-551 | The first bytes of a match, up to its distance, are those from that distance before the end of window and output on. |
| `ZstdSequences.ExecuteInStream` | test-code-base/irmin/duniverse/js_of_ocaml/runtime/zstd.js:502-565 | Executing all sequences after a window is executing them on the joined stream. |
| `ZstdSequences.ExecuteOne` | test-code-base/irmin/duniverse/js_of_ocaml/runtime/zstd.js:522-558 | One sequence in the buffer is one sequence of the abstract decoder, also on the stream that the window starts, and the unread literals stay. |
| `ZstdSequences.ExecuteLength` | test-code-base/irmin/duniverse/js_of_ocaml/runtime/zstd.js:502-565 | The output is as long as all literals and matches together and continues what was there. |
| `ZstdSequences.CopyRest` | test-code-base/irmin/duniverse/js_of_ocaml/runtime/zstd.js:559-565 | The literals left over end up behind the output, moved or already in place. |
| `ZstdSequences.ExecuteInPlace` | test-code-base/irmin/duniverse/js_of_ocaml/runtime/zstd.js:502-565 | If the whole output fits, execution in the buffer that also holds the literals gives the bytes and distances of execution with a separate literal array (section 3.1.1.4 of RFC 8878); the window followed by the output is the execution on one stream. |
| `ZstdSequences.LiteralsOnly` | test-code-base/irmin/duniverse/js_of_ocaml/runtime/zstd.js:571-582 | A block without sequences is its literals. |
| `ZRepr.ArgValue` | test-code-base/irmin/duniverse/Zarith/caml_z.c:382-394 | An argument as sign and limbs, small or boxed, has the same value and no leading zero limb. |
| `ZRepr.FitsOneLimb` | test-code-base/irmin/duniverse/Zarith/caml_z.c:409-419 | Without leading zeros a number fits an OCaml int just when the test on its one limb says so. |
| `ZRepr.Reduce` | test-code-base/irmin/duniverse/Zarith/caml_z.c:406-425 | The canonical integer with the block's sign and limbs. |
| `ZRepr.CanonicalUnique` | test-code-base/irmin/duniverse/Zarith/caml_z.c:121-131 | Canonical integers of one value are the same. |
| `ZRepr.SmallIsRange` | test-code-base/irmin/duniverse/Zarith/caml_z.c:153-161 | A canonical integer is unboxed just when it has two bits less than a limb, sign included. |
| `ZRepr.BigBeyondSmall` | test-code-base/irmin/duniverse/Zarith/caml_z.c:1078-1088 | A boxed integer is above or below all unboxed ones, as its sign says. |
| `ZRepr.Compare` | test-code-base/irmin/duniverse/Zarith/caml_z.c:1065-1107 | 1, -1 or 0, just when the first value is above, below or equal to the second, for all canonical arguments. |
| `ZRepr.Equal` | test-code-base/irmin/duniverse/Zarith/caml_z.c:1109-1134 | True just when the values are equal. |
| `ZRepr.AddSub` | test-code-base/irmin/duniverse/Zarith/caml_z.c:1326-1402 | The canonical sum or difference, over all signs and sizes. |
| `ZDiv.RoundedQuotients` | test-code-base/irmin/duniverse/Zarith/caml_z.c:1644-1680 | The specification: floor and ceiling are the neighbouring integers of the quotient, equal just when it is exact. |
| `ZDiv.RoundedIs` | test-code-base/irmin/duniverse/Zarith/caml_z.c:1644-1726 | The quotient rounded down, or up, is bracketed by its products with the divisor, for either sign of it. |
| `ZDiv.RDiv` | test-code-base/irmin/duniverse/Zarith/caml_z.c:1645-1680 | The canonical quotient rounded down or up, bracketed by inequalities for either sign of the divisor; an error for zero. |
| `ZDiv.RoundMagnitudes` | test-code-base/irmin/duniverse/Zarith/caml_z.c:1659-1667 | Rounding outward is adding one to the quotient of the magnitudes, and due just when the remainder is not zero and the signs say so. |
| `ZDiv.AdjustThenTruncate` | test-code-base/irmin/duniverse/Zarith/caml_z.c:1694-1719 | Adjusting the dividend first makes C's truncating division give the quotient rounded as wanted, with the inequalities that bracket it. |
| `ZDiv.AdjustFitsWord` | test-code-base/irmin/duniverse/Zarith/caml_z.c:1694-1719 | The adjustment does not overflow a word. |
| `ZDiv.RoundedDiv` | test-code-base/irmin/duniverse/Zarith/caml_z.c:1682-1726 | Floor and ceiling division as called from OCaml, bracketed by inequalities, fast path and overflow of the smallest int included. |
| `ZShift.ShiftRight` | test-code-base/irmin/duniverse/Zarith/caml_z.c:2322-2381 | Floor division by two to the count, canonical, for every integer; an error for a negative count. |
| `ZShift.NegativeFloor` | test-code-base/irmin/duniverse/Zarith/caml_z.c:2365-2374 | The magnitude of a negative number is rounded up just when a shifted-out bit is set. |
| `ZShift.SplitShift` | test-code-base/irmin/duniverse/Zarith/caml_z.c:2333-2371 | Bits are lost just when the partial limb or a limb below it has one. |
| `ZShift.ShiftAndFdiv` | test-code-base/irmin/duniverse/Zarith/caml_z.c:2322-2381 | Shifting right and floor division by the power of two give the same integer. |
| `ZShift.ClampedShift` | test-code-base/irmin/duniverse/Zarith/caml_z.c:922-926 | Shifting a small int by more than a word's width is shifting by one less than the width. |
| `ZShift.ComplementOfQuotient` | test-code-base/irmin/duniverse/Zarith/caml_z.c:961-969 | The complement of the shifted magnitude, plus one when nothing was shifted out, is the quotient in two's complement. |
| `ZShift.FieldLimbs` | test-code-base/irmin/duniverse/Zarith/caml_z.c:944-959 | The limbs above the offset, padded or cut, hold the shifted magnitude modulo their size, wherever the offset lies. |
| `ZShift.Extract` | test-code-base/irmin/duniverse/Zarith/caml_z.c:911-978 | The quotient by two to the offset modulo two to the length, canonical, for every integer, offset and positive length; an error otherwise. |
| `ZBits.TestBit` | test-code-base/irmin/duniverse/Zarith/caml_z.c:2633-2669 | Bit number index of the two's-complement string of every integer, as the parity of its floor quotient by two to the index. |
| `ZBits.NegativeLimb` | test-code-base/irmin/duniverse/Zarith/caml_z.c:2653-2666 | In a negative number the limb's bit is that of its complement, or of its negation when all lower limbs are zero. |
| `ZBits.SignedBit` | test-code-base/irmin/duniverse/Zarith/caml_z.c:2000-2055 | The bits of a negative number are the complement of those of its magnitude less one. |
| `ZBits.SignsAgree` | test-code-base/irmin/duniverse/Zarith/caml_z.c:1979-2231 | Once the limb operation agrees with the logical one on single bits, signs included, the whole integers do, beyond the shorter operand too. |
| `ZBits.CombineDecremented` | test-code-base/irmin/duniverse/Zarith/caml_z.c:2012-2017 | Decrementing the second operand limb by limb with a carry combines with all bits of that operand less one. |
| `ZBits.BothNegative` | test-code-base/irmin/duniverse/Zarith/caml_z.c:2007-2021 | Two negative operands, including the forms that decrement only the low limbs of the longer one. |
| `ZBits.FirstNegative` | test-code-base/irmin/duniverse/Zarith/caml_z.c:2022-2031 | Only the longer operand negative, decremented in all limbs or in the low ones. |
| `ZBits.SecondNegative` | test-code-base/irmin/duniverse/Zarith/caml_z.c:2032-2043 | Only the shorter operand negative. |
| `ZBits.NoneNegative` | test-code-base/irmin/duniverse/Zarith/caml_z.c:2044-2053 | No operand negative. |
| `ZBits.LogAnd` | test-code-base/irmin/duniverse/Zarith/caml_z.c:1979-2059 | Every bit of the canonical result is the conjunction of the operands' bits, for all integers. |
| `ZBits.LogOr` | test-code-base/irmin/duniverse/Zarith/caml_z.c:2061-2145 | Every bit is the disjunction. |
| `ZBits.LogXor` | test-code-base/irmin/duniverse/Zarith/caml_z.c:2147-2231 | Every bit is the exclusive disjunction. |
| `ZBits.BitsOfUnique` | test-code-base/irmin/duniverse/Zarith/caml_z.c:1979-2231 | There is only one integer with those bits. |
| `ZBits.ReadBack` | test-code-base/irmin/duniverse/Zarith/caml_z.c:2633-2669 | The bit test reads just those bits back from the three operations' results. |

## Left out

- Msb: values of 2^30 and more, where the source's 32-bit shifts would keep its loop from ending.
- Rfse: maximum accuracies above 14, beyond the source's 16-bit frequencies and all its calls; input that ends early reads as zeros, as it does in the source.
- BuildTable: weights whose sum needs more than 11 bits, for which the source's counters have no room; reading the weights from the stream is left out, they come in an array.
- DecodeEncode: the decoder is given the bits that are left; the byte-wise loading of the bit window and the end-of-stream checks are left out.
- Encode: likewise the state machine is given the bits of each step, not the stream that interleaves three tables.
- ExecuteInPlace: the distance a sequence asks for is positive and the literals suffice, neither of which the source checks; reading before the start of the window gives zero.
- Operands of the digit routines that share memory with the result, except the overlap that long division uses (`DivRemNormDigit`).
- Zarith blocks as mutable objects: they are values, limb strings with a sign, and only the work blocks are arrays; the header that `ml_z_reduce` rewrites is part of the value returned. Allocation, the refreshing of pointers and the spare limbs of a block are left out.
- Physical identity: whether the arguments of a comparison are one word is a flag that the caller sets.
- Negative bit indices, which the OCaml caller of `ml_z_testbit` excludes.
- A bound on the corrections for divisors that are not normalised; there only termination and exactness are proved.
- Assembly and CPU-specific digit routines and the dispatch table; `bng_complement` and `bng_num_digits`.
- `nat_stubs.c` and the JavaScript `nat.js`, which unwrap values and repeat the same algorithms.
- Zstandard frame and block headers, dictionaries, checksums, raw and run-length blocks, the four-stream Huffman layout.
- Zarith operations built on `mpz_t`, conversions, hashing, marshalling, truncating division, multiplication, left shift; GMP's own code.
