# SAMdisk: a verified model of its bit-level core

SAMdisk reads, converts and repairs disk images, down to the flux reversals on the
medium. This project models the parts of it that are algorithms rather than device
access, and proves what they are for. Methods keep the loops and the state of the
source; each is proved against a specification, and what the source promises is then
proved about that specification for all inputs.

| files | subject |
|---|---|
| `PermuteArgs.dfy`, `GetoptSpec.dfy`, `Getopt.dfy`, `Reparse.dfy`, `LongNames.dfy`, `Arguments.dfy` | the command line scanner: block exchange by cycles, a whole parse as a stable partition, also for a caller that takes words itself, parsing what a parse has left, which long option a name picks, and what argument each option gets |
| `Crc16.dfy`, `CrcPeriod.dfy` | CRC-16-CCITT (generator x^16+x^12+x^5+1, section 2 of ITU-T V.41): the table-driven loop is division of polynomials over GF(2), and what that detects |
| `FluxDecoder.dfy`, `FluxClock.dfy` | the phase-locked loop that turns flux intervals into bits, how much jitter it tolerates, how its clock follows a drive, and when it reports a loss of sync |
| `FluxEncoder.dfy`, `FluxRoundTrip.dfy`, `FluxIndexes.dfy` | flux generation with write precompensation, division into revolutions, decoding what was generated, and the index positions that come back |
| `BitBuffer.dfy`, `TrackBuilder.dfy`, `SyncMarks.dfy` | the packed bit buffer with its wrap-around cursor, realignment to sync marks, encoding of bytes and of the closing CRC, and what the sync marks are |
| `ThreadPool.dfy` | the worker pool's mutex, condition variable and stop flag, as interleaved steps |
| `Unzip.dfy` | the chunked backward search of section 4.3.16 of PKWARE APPNOTE.TXT (and of the locator of section 4.3.15), and the buffered reader of stored entries |
| `BitVector.dfy` | bit writes and copies at any bit offset |
| `Retry.dfy`, `DemandDisk.dfy` | retry policies, the rounds of a track transfer, the rescan loop that keeps the best load |
| `AppleGcr.dfy` | 6-and-2 decoding of Apple data fields |
| `Words.dfy`, `Arithmetic.dfy` | machine words, the bits of bytes, quotients and remainders |

Functions and lemmas named in the table below are about the specification; methods are
the operations themselves. Where a promise fails for some inputs the code is kept as it
is, and the exact condition under which it holds is the theorem.

## What the proofs show about the code

- The flux round trip on the outer cylinders holds if and only if no gap between
  transitions reaches 2^31 ns (the interval is stored unsigned and read back signed) and
  no interval lies behind an empty revolution other than the first, where the decoder
  stops for good.
- An index position survives that round trip in place only where a transition was due two
  cells before it; elsewhere it moves back to right behind the bit after the last
  transition, and from the first revolution without a transition on, positions are lost.
- Write precompensation never accumulates: running sums are the precompensated times
  exactly as long as every distance fits 32 bits. 2147484 empty cells at 2000 ns do not.
- The backward search for the end of the central directory uses 0 for "not found", so it
  loses a record at the very start of a file. It looks at the last 65535 bytes only, and
  the record itself takes 22 of them, so it also loses every archive whose comment is
  longer than 65513 bytes, though one of 65535 is allowed.
- The register misses two flipped bits exactly when they are a multiple of 32767 bits
  apart, so no pair in a field of up to 4095 bytes.
- A long option's exact name is found only if fewer than two longer names that begin with
  it are listed before it; otherwise it is reported as ambiguous.
- `ReadBits` shifts a field that straddles a byte too far, so it is right exactly when the
  field does not straddle or is zero; `CopyBitsFrom` and `CopyBitsDoubledFrom` are exact
  under the conditions that follow from this.
- The 6-and-2 table takes 0xaa, which is not among the 64 listed codes, for 0xa7. The
  count of invalid codes is a byte: 256 invalid codes in one field are reported as none,
  and a field of 256 bytes of 0x80 and 87 bytes of 0x96, all of which can be read from
  the medium, passes for a good one.
- In the rescan loop only the rescans are ever told of a change, so a negative number of
  retries counts in all there, one fewer than its magnitude. Every load counts the
  revolutions of the best track, which are five for flux.
- Where the option letters let `-W` introduce a long option, its empty argument ends a
  parse like `--`. This program's letters do not.
- Parsing a vector that a parse has partitioned repeats it without moving a word, unless
  the last option was missing its argument: then it takes the first non-option.
- A mark complete inside the first unit can occur in MFM only, after 15 reads. `align`
  then puts a zero ahead of the data; in a build with assertions it stops in `remove`.
- `align` corrects index positions in the buffer that the final exchange discards.

## Model

| member | source | states |
|---|---|---|
| ArgumentPermutation.Gcd | getopt/getopt.c:114-127 | the remainder loop yields the greatest common divisor, an integer combination of both lengths |
| ArgumentPermutation.NumberSlots | getopt/getopt.c:143-165 | the slots of the two blocks are numbered without repetition by (cycle, turn): gcd-many disjoint cycles of equal length cover the range, and each step of the inner loop is one turn |
| ArgumentPermutation.SwapAdvances | getopt/getopt.c:154-164 | one swap moves exactly the next element of the current cycle to its destination |
| ArgumentPermutation.CyclesExchange | getopt/getopt.c:129-133 | when all cycles are done the range is the two blocks exchanged, each in its order, and the rest untouched |
| ArgumentPermutation.PermuteArgs | getopt/getopt.c:134-166 | the in-place juggling exchanges two adjacent non-empty blocks of any lengths |
| GetoptScanner.PartitionedIsPermutation | getopt/getopt.c:192-249 | the partitioned vector is a permutation of the words passed |
| GetoptScanner.ScanMovesOnlyNonOptions | getopt/getopt.c:212-243 | only words that look like non-options are moved, and only in PERMUTE mode |
| GetoptScanner.ScanStopsAtDelimiter | getopt/getopt.c:334-346 | in PERMUTE mode a parse ends before the last word only behind "--" (Guideline 10, section 12.2 of POSIX.1-2017 XBD), or behind an empty word that is the argument of a -W, the option letters having W followed by a semicolon |
| GetoptScanner.OnlyDashesStop | getopt/getopt.c:275-280 | so for option letters without that only "--" stops a parse early |
| GetoptScanner.NoLongByW | src/SAMdisk.cpp:617 | this program's option letters are such |
| GetoptScanner.EmptyArgumentStops | getopt/getopt.c:334-346 | with the letters "W;" the words "-W", "" and "x" end the parse before "x" |
| GetoptScanner.OnlyEndIsMinusOne | getopt/getopt.c:184-306 | -1 is returned at the end of a parse and nowhere else |
| GetoptScanner.Getopt.Finish | getopt/getopt.c:194-211 | at the end of the words the vector is partitioned and optind is at the first non-option |
| GetoptScanner.Getopt.SkipNonOption | getopt/getopt.c:230-240 | a skipped word joins the block of non-options, which is first brought up to it; no empty block is ever exchanged |
| GetoptScanner.Getopt.FindOption | getopt/getopt.c:192-243 | the loop to the next option in all three modes, in step with a straight scan of the original words |
| GetoptScanner.Getopt.EnterWord | getopt/getopt.c:244-249 | an option word closes the block of non-options ahead of it |
| GetoptScanner.Getopt.ScanLetter | getopt/getopt.c:251-306 | one option letter: its argument, the next word, the error returns |
| GetoptScanner.Getopt.GetoptInternal | getopt/getopt.c:173-306 | a call returns the next result of the straight scan and keeps the vector arranged |
| GetoptScanner.Getopt.FindLong | getopt/getopt.c:355-377 | the table search as one loop: it ends at an exact match, or in an error at the second longer name, whichever comes first |
| LongNames.ExactMatchWins | getopt/getopt.c:355-377 | an exact match is found exactly when no two names ahead of it are longer ones that it abbreviates, and is an error otherwise |
| LongNames.AbbreviationMatches | getopt/getopt.c:355-377 | where no name is exact: an abbreviation of one name finds it, of two is ambiguous, of none is unknown |
| LongNames.ExactMatchLost | getopt/getopt.c:367-376 | with the names "foobar", "foobaz" and "foo" in this order, "foo" is ambiguous |
| GetoptScanner.Getopt.ScanLong | getopt/getopt.c:323-440 | one long option: name, value, error returns, next word |
| GetoptScanner.Getopt.CompleteDelimiter | getopt/getopt.c:334-346 | at a delimiter the skipped non-options end up right behind it, before the words not scanned |
| GetoptScanner.Getopt.GetoptLong | getopt/getopt.c:312-443 | every call takes the next step of a straight scan of the original words: its result, the words it consumes, and the vector at the end |
| GetoptScanner.Getopt.TakeWord | src/SAMdisk.cpp:620-623 | the caller advances optind past a word, which then counts as an option's, and the vector stays arranged |
| GetoptScanner.NextOption | src/SAMdisk.cpp:636-845 | one turn of the program's loop: a call, and the word taken for an optional argument |
| GetoptScanner.ParseCommandLine | src/SAMdisk.cpp:631-894 | the whole loop: the results as the program sees them, the vector stably partitioned with the words taken among the options, and optind at the boundary |
| GetoptScanner.TakingMovesOnlyNonOptions | src/SAMdisk.cpp:620-623 | with such a caller, too, only words that look like non-options are moved |
| GetoptScanner.CodesBeyondLetters | src/SAMdisk.cpp:414-425 | the program's two codes that take words cannot be mistaken for letters |
| GetoptScanner.DebugLevelTaken | src/SAMdisk.cpp:815-822 | in "x --debug 3 y" the 3 goes with the option, and stays behind for a caller that takes nothing |
| GetoptScanner.TakingNothing | getopt/getopt.c:173-443 | a parse by a caller that takes nothing is the straight scan |
| GetoptScanner.ParseAll | getopt/getopt.c:173-443 | calling until -1 yields the results of the straight scan, the stably partitioned vector, and optind at the boundary |
| GetoptArguments.LetterArgument | getopt/getopt.c:281-302 | an option letter, read off the words: no argument without a colon, the rest of its word or the next word with one, the rest of its word or none with two, and the code for a missing argument |
| GetoptArguments.UnknownLetter | getopt/getopt.c:251-260 | a letter that is not listed, and the colon, return '?', and the rest of the word is scanned on |
| GetoptArguments.MissingIsBadArg | getopt/getopt.c:83-85 | a missing argument returns ':' if the option string begins with one, behind a leading '-' or '+' too, and else '?' |
| GetoptArguments.AttachedArgument | getopt/getopt.c:287-288 | an argument attached to its letter is the word from its third character on |
| GetoptArguments.CylinderArgument | src/SAMdisk.cpp:617-640 | "-c80" gives 'c' the argument "80" |
| GetoptArguments.WIsTwoDashes | getopt/getopt.c:262-280 | a -W that introduces long options stands for two dashes before the rest of its word, or before the next word |
| GetoptArguments.LongArgument | getopt/getopt.c:378-436 | a long option without '=': its code, the index of its entry, and the next word if it needs an argument |
| GetoptArguments.LongValue | getopt/getopt.c:378-436 | a long option with '=': the text behind it is the argument, an error for one that takes none, and an empty text counts as none |
| GetoptArguments.NonOptionWord | getopt/getopt.c:212-243 | a word without a dash, or only a dash, is passed over, returned with code 1 behind a leading '-', or ends the parse behind a leading '+' or when POSIXLY_CORRECT is set |
| GetoptArguments.OptionWord | getopt/getopt.c:212-249 | any other word is an option, and "--" the delimiter |
| GetoptArguments.WordTaken | src/SAMdisk.cpp:620-623 | the caller takes the next word exactly for an option with one of its codes, without an argument, and before a word without a dash |
| GetoptArguments.ArgumentsFromWords | getopt/getopt.c:251-440 | every argument that a call reports is the whole last word of its step or what follows the letter or an '=' there |
| GetoptArguments.ParseFromWords | src/SAMdisk.cpp:631-894 | so is every argument in a whole parse, those taken by the caller included |
| GetoptReparse.StepMoves | getopt/getopt.c:251-306 | an option found among the same words elsewhere in a vector gives the same step, unless its argument is missing; then it takes a further word if there is one |
| GetoptReparse.ScansAlike | getopt/getopt.c:192-306 | from any point of a parse on, the parse of the options moved ahead of the non-options gives the same calls and takes the same words, or one more for the missing argument |
| GetoptReparse.ParsedAgain | getopt/getopt.c:173-443 | parsing the partitioned vector again repeats the calls, moves no word and leaves the same optind exactly unless the last option lacked its argument and there is a non-option; then optind moves on |
| GetoptReparse.ArgumentTaken | getopt/getopt.c:292-300 | with the letters "a:" the words "x" and "-a" are an error at first, and "x" is the argument of -a afterwards |
| Crc16.AddByteIsDivide | src/CRC16.cpp:48-52 | a table step is eight steps of polynomial division |
| Crc16.CrcIsDivision | include/CRC16.h:39-47 | the byte loop equals the bit-serial division for every data and every initial value |
| Crc16.DivideLinear | src/CRC16.cpp:30-31 | division is linear: the difference of two messages alone decides the difference of their remainders |
| Crc16.DivideAhead | src/CRC16.cpp:30-31 | reading bits in at the top of the register is dividing the message followed by 16 zeros |
| Crc16.BurstIsNotMultiple | src/CRC16.cpp:22-36 | no non-zero pattern confined to 16 bits, at any offset in any length, is a multiple of the generator |
| Crc16.BurstDetected | src/BitstreamDecoder.cpp:1214-1215 | fields that differ in at most 16 consecutive bits never both pass |
| Crc16.OddErrorDetected | src/BitstreamDecoder.cpp:1365-1368 | nor do fields that differ in an odd number of bits |
| CrcPeriod.PowerDoubles | src/CRC16.cpp:30-31 | in the register x^2n is the square of x^n, squares being taken coefficient by coefficient |
| CrcPeriod.PeriodIs32767 | src/CRC16.cpp:30-31 | shifting a one comes back to it exactly after multiples of 32767 steps |
| CrcPeriod.TwoBitErrors | src/BitstreamDecoder.cpp:1365-1368 | fields that differ in two bits both pass exactly when these are a multiple of 32767 apart |
| CrcPeriod.PairsInFields | src/BitstreamDecoder.cpp:1365-1368 | so never in fields of up to 4095 bytes |
| Crc16.ZeroResidue | src/BitstreamTrackBuilder.cpp:101-108 | data followed by two bytes gives 0 exactly when they are the CRC's high and low byte |
| Crc16.SyncConstant | include/CRC16.h:11-13 | the constant for three sync bytes |
| Crc16.CRC16.Add | src/CRC16.cpp:48-52 | one byte by table lookup |
| Crc16.CRC16.AddRepeated | include/CRC16.h:30-37 | a repeated byte, any count |
| Crc16.CRC16.AddBlock | include/CRC16.h:39-47 | a buffer |
| Crc16.InitCrcTable | src/CRC16.cpp:22-36 | the nested loops fill the table with the remainders |
| FluxDecoding.EmitKeepsRange | src/FluxDecoder.cpp:71-106 | the clock stays within its limits, and every bit consumes flux |
| FluxDecoding.OneInterval | src/FluxDecoder.cpp:55-107 | an interval whose phase error is below half the clock is k-1 zeros and a one, whatever the loop's state |
| FluxDecoding.ExactIntervals | src/FluxDecoder.cpp:80-106 | exact intervals decode to their cells at every adjustment and phase setting |
| FluxDecoding.ErrorIsBelowHalf | src/FluxDecoder.cpp:80-99 | the phase error before correction stays below half of every clock in range |
| FluxDecoding.CorrectionSettles | src/FluxDecoder.cpp:101-103 | correcting at least 60 percent keeps the residue within 19 percent of a cell |
| FluxDecoding.ToleratesJitter | src/FluxDecoder.cpp:55-107 | any number of intervals of up to kmax cells, each within jitter percent of a cell, kmax times the adjustment plus jitter being at most 26, decode to their cells; up to four cells without a loss of sync |
| FluxDecoding.ToleratesTenth | src/FluxDecoder.cpp:55-107 | in particular intervals within a tenth of one to four cells of 500 ns or more, at adjustments up to 4 and phase settings of 60 to 100, decode to their cells without a loss of sync |
| FluxDecoding.WobbleInvariant | src/BitstreamDecoder.cpp:1460-1481 | exact intervals of one to four cells decode alike at every scale from 98 to 102 and every adjustment up to 4 |
| FluxClock.LimitsAndScale | src/FluxDecoder.cpp:13-24 | the clock's limits and a scaled interval are the stated percentages, truncated towards zero |
| FluxClock.OneMovesClock | src/FluxDecoder.cpp:80-103 | at a one the clock moves, within its limits, by adjust percent of the phase error, or, behind more than three zeros, of its distance from the centre, and the phase correction leaves its share of the error |
| FluxClock.ClockFollows | src/FluxDecoder.cpp:80-85 | so it goes up at a late one and down at an early one, unless at its limit or too small a move |
| FluxClock.SlowDrive | src/FluxDecoder.cpp:55-107 | any number of four-cell intervals 9 percent too long are read as four cells each at the default settings |
| FluxClock.FixedClockMisreads | src/FluxDecoder.cpp:80-85 | without the adjustment the second of them is read as five |
| FluxClock.ExactEvents | src/FluxDecoder.cpp:86-106 | among exact intervals a loss of sync is reported at the end of one of more than four cells, if at least 256 bits were read since the last such end |
| FluxDecoding.FluxDecoder.constructor | src/FluxDecoder.cpp:13-24 | a new decoder is at the centre of its clock with all intervals ahead |
| FluxDecoding.FluxDecoder.Index | src/FluxDecoder.cpp:41-46 | reports a new revolution once |
| FluxDecoding.FluxDecoder.SyncLost | src/FluxDecoder.cpp:48-53 | reports a loss of sync once |
| FluxDecoding.FluxDecoder.NextFlux | src/FluxDecoder.cpp:109-124 | delivers the intervals in order over revolutions, up to the first empty one that has to be entered |
| FluxDecoding.FluxDecoder.ClockBit | src/FluxDecoder.cpp:71-106 | one bit: zero, or one with the frequency and phase corrections |
| FluxDecoding.FluxDecoder.NextBit | src/FluxDecoder.cpp:55-107 | refines the loop's function, and terminates |
| BitBuffers.FirstUnitCleanFM | src/BitBuffer.cpp:341-355 | in FM no mark can be complete inside the first unit |
| BitBuffers.FirstUnitMFM | src/BitBuffer.cpp:337-340 | in MFM only after exactly 15 reads |
| SyncMarks.EncodedClock | src/TrackBuilder.cpp:35-51 | the clock bits of encoded data: in MFM between two zeros only, in FM before every bit |
| SyncMarks.MFMRuns | src/TrackBuilder.cpp:35-51 | encoded MFM has no two ones and no four zeros in a row |
| SyncMarks.MFMMark | src/BitBuffer.cpp:322-340 | an MFM mark is 0xa1 without the clock bit behind its fifth bit, or by option also with it |
| SyncMarks.NoByteIsMark | src/BitBuffer.cpp:337-340 | which no encoded byte is |
| SyncMarks.FMMark | src/BitBuffer.cpp:341-355 | an FM mark is one of the bytes 0xf8 to 0xfe with the clock bits 0xc7, 0xfc having 0xd7 |
| SyncMarks.NoByteIsAddressMark | src/BitBuffer.cpp:341-355 | which no encoded byte is, having all its clock bits |
| SyncMarks.MarkIsWindow | src/BitBuffer.cpp:333-356 | a mark is seen when the last unit read is one |
| SyncMarks.MarkAligned | src/BitBuffer.cpp:358-373 | every mark that stands alone is a unit of the realigned data |
| SyncMarks.UnmodifiedIsAligned | src/BitBuffer.cpp:375-378 | data left as it is has such marks at whole units already |
| SyncMarks.MarkBehind17 | src/BitBuffer.cpp:332-373 | a mark behind 17 zeros is seen after 33 reads and stands alone, so that data is realigned |
| BitBuffers.PackedByte | src/BitBuffer.cpp:169-172 | bits are held least significant first |
| BitBuffers.NextIndexIsFirst | src/BitBuffer.cpp:117-129 | the next index is the first listed that lies beyond the cursor, or the end |
| BitBuffers.AlignFull | src/BitBuffer.cpp:332-372 | a unit without a mark is the next window of the source |
| BitBuffers.AlignCut | src/BitBuffer.cpp:358-372 | a unit cut short by a mark replaces the window before it, if there is one, and loses no mark that stands alone |
| BitBuffers.AlignStep | src/BitBuffer.cpp:330-373 | one iteration adds or replaces the window that ends where reading has come to |
| BitBuffers.BitBuffer.Add | src/BitBuffer.cpp:141-160 | writes or appends one bit at the cursor, whatever the storage |
| BitBuffers.BitBuffer.Remove | src/BitBuffer.cpp:162-167 | drops bits before the cursor and all behind it |
| BitBuffers.BitBuffer.SetNextIndex | src/BitBuffer.cpp:117-129 | finds the first listed index beyond the cursor |
| BitBuffers.BitBuffer.Seek | src/BitBuffer.cpp:85-91 | moves the cursor within the data and looks for the next index |
| BitBuffers.BitBuffer.Index | src/BitBuffer.cpp:103-110 | reports an index when the cursor has come to it |
| BitBuffers.BitBuffer.Read1 | src/BitBuffer.cpp:169-180 | reads a bit and wraps round at the end |
| BitBuffers.BitBuffer.ReadByte | src/BitBuffer.cpp:234-289 | reads the data bits of an FM, MFM or plain byte, also across the end of the data |
| BitBuffers.BitBuffer.ReadUnit | src/BitBuffer.cpp:332-356 | reads up to a unit, stopping behind the first mark |
| BitBuffers.BitBuffer.AlignInto | src/BitBuffer.cpp:330-373 | the realigned data is a sequence of windows of the source, with a zero ahead of it only for a mark in the first unit |
| BitBuffers.BitBuffer.Align | src/BitBuffer.cpp:318-379 | for every buffer, realigned data consists of disjoint unit-sized windows of the cyclically read source in order, and every mark not followed by another within a unit is one of them |
| TrackBuilding.ReadsBack | src/TrackBuilder.cpp:35-60 | read_byte finds an encoded byte where it was written |
| TrackBuilding.FieldUnaffected | src/BitstreamTrackBuilder.cpp:105-108 | writing behind a field leaves it as it was |
| TrackBuilding.CrcClosesField | src/BitstreamTrackBuilder.cpp:94-109 | a field with its encoded CRC, read back, leaves the register zero |
| TrackBuilding.BitstreamTrackBuilder.AddBit | src/TrackBuilder.cpp:27-33 | one bit, with FM's filler |
| TrackBuilding.BitstreamTrackBuilder.AddDataBit | src/TrackBuilder.cpp:35-51 | a data bit with its clock bit |
| TrackBuilding.BitstreamTrackBuilder.AddByte | src/TrackBuilder.cpp:53-60 | a byte, most significant bit first |
| TrackBuilding.BitstreamTrackBuilder.FieldCrc | src/BitstreamTrackBuilder.cpp:99-103 | the CRC of size bytes from the cursor on |
| TrackBuilding.BitstreamTrackBuilder.AddCrc | src/BitstreamTrackBuilder.cpp:94-109 | the two bytes of the CRC of the last size bytes, and nothing else, are written at the cursor; the field is unchanged and its CRC becomes zero |
| FluxEncoding.BitcellNs | include/Header.h:31-42 | supported bitcells are 500 to 2000 ns |
| FluxEncoding.BitcellIsHalfBit | include/Header.h:31-47 | a bitcell is half a bit at the rate, to the nearest nanosecond, and only the unknown rate has none |
| FluxEncoding.IntervalsAreDistances | src/BitstreamEncoder.cpp:149-170 | every interval is the distance between neighbouring transitions' precompensated times, modulo 2^32 |
| FluxEncoding.OnesComplete | src/BitstreamEncoder.cpp:154-167 | every one that has a successor is a transition |
| FluxEncoding.IntervalExact | src/BitstreamEncoder.cpp:153-165 | an interval is the true distance exactly when that fits 32 bits |
| FluxEncoding.RunningSum | src/BitstreamEncoder.cpp:153-165 | running sums are the precompensated times exactly when all distances so far fit |
| FluxEncoding.RunningSumNearIdeal | src/BitstreamEncoder.cpp:161-166 | and then within 240 ns of the ideal times, every interval being positive |
| FluxEncoding.CompensatedSum | src/BitstreamEncoder.cpp:156-166 | from cylinder 40 on a transition comes 240 ns late between a one and a zero, 240 ns early between a zero and a one, and on time between equal neighbours |
| FluxEncoding.OnesMovedApart | src/BitstreamEncoder.cpp:163-165 | the bits 1, 1 and 0 at 2000 ns give 3760 and 2480 there, and 4000 and 2000 on cylinder 39 |
| FluxEncoding.ThresholdImmaterial | src/BitstreamEncoder.cpp:156-166 | the cylinder threshold makes no difference exactly when every transition has equal neighbours |
| FluxEncoding.SparseStreamsUncompensated | src/BitstreamEncoder.cpp:156-166 | as in every stream without two ones in a row |
| FluxEncoding.LongGapWraps | src/BitstreamEncoder.cpp:153-158 | a gap beyond 32 bits, and the interval written for it |
| FluxRoundTrip.CellsOfBits | src/BitstreamEncoder.cpp:149-177 | the cells between transitions stand for a zero and the bits up to the last one that has a successor |
| FluxRoundTrip.OnesAtMostIntervals | src/FluxDecoder.cpp:55-107 | with at least 60 percent phase correction the decoder yields at most a one per interval |
| FluxRoundTrip.MisreadSpoils | src/FluxDecoder.cpp:122-123 | an interval of 2^31 ns or more, read as signed, always spoils the result |
| FluxRoundTrip.DecodesIffFit | src/FluxDecoder.cpp:55-124 | cells are decoded as encoded exactly when every interval is below 2^31 ns |
| FluxRoundTrip.CutsAreIndexes | src/BitstreamEncoder.cpp:172-176 | for ascending index positions the revolutions are cut at exactly those inside the data |
| FluxRoundTrip.RevolutionsTogether | src/BitstreamEncoder.cpp:172-180 | division into revolutions loses and moves no interval |
| FluxRoundTrip.DeliveredAll | src/FluxDecoder.cpp:109-120 | the decoder is given all intervals exactly when none lies behind an empty later revolution |
| FluxRoundTrip.RoundTrip | src/BitstreamEncoder.cpp:137-183 | decoding generated flux yields a zero and the bits up to the last one that has a successor, exactly when gaps fit and no interval is cut off |
| FluxRoundTrip.EmptyRevolutionCutsOff | src/FluxDecoder.cpp:109-120 | five bits with indexes at 2 and 3, of whose two transitions one is read back |
| FluxRoundTrip.LongGapNotRead | src/FluxDecoder.cpp:122-123 | two transitions 1073742 cells of 2000 ns apart are not read back, and those one cell closer are |
| FluxRoundTrip.RoundTripAnyPhase | src/FluxDecoder.cpp:80-106 | and then at every phase setting and adjustment |
| FluxRoundTrip.TracksFit | include/Header.h:31-42 | tracks of up to a million bits fit at every supported rate |
| FluxRoundTrip.WriteTransition | src/BitstreamEncoder.cpp:153-167 | one bit's share of the loop |
| FluxRoundTrip.GenerateFlux | src/BitstreamEncoder.cpp:137-183 | the flux of a buffer, revolution by revolution; an unsupported rate is refused |
| FluxRoundTrip.FromDecoder | src/BitBuffer.cpp:35-58 | the buffer built from a decoder holds exactly the decoded bits, and an index position behind each bit that the first interval of a later revolution was read for |
| FluxRoundTrip.TakeBit | src/BitBuffer.cpp:41-57 | one iteration of that loop |
| FluxIndexing.RevolutionsCounted | src/BitstreamEncoder.cpp:172-182 | there is a revolution to each cut and one for what is written behind the last, but at least one; up to the last cut each is empty exactly where no transition is written |
| FluxIndexing.IntervalRecords | src/BitBuffer.cpp:53-54 | an exact interval records one index position, behind its first bit, exactly when it is the first of another revolution |
| FluxIndexing.LockedRecords | src/FluxDecoder.cpp:109-120 | so revolutions of exact intervals record where each delivered one after the first begins |
| FluxIndexing.IndexesRebuilt | src/BitBuffer.cpp:35-58 | the buffer built from generated flux has an index position for each cut, up to the first without a transition before the next, right behind the bit that follows the last transition before it |
| FluxIndexing.BehindLastOne | src/BitstreamEncoder.cpp:156-167 | which is never further on than the cut moved by one bit, and is there exactly when a one stands two bits before the cut |
| FluxIndexing.IndexesKept | src/BitstreamEncoder.cpp:172-176 | all index positions come back, moved by one bit like the data, exactly when every cut is so marked and has a transition before the next |
| ThreadPools.ExclusiveStep | include/ThreadPool.h:45-53 | every step keeps mutual exclusion |
| ThreadPools.StoppingStep | include/ThreadPool.h:46-49 | every step keeps: a worker leaves only after the stop and with the queue drained, nobody sleeps after the broadcast |
| ThreadPools.WakeupStep | include/ThreadPool.h:85-89 | every step keeps: while a worker sleeps, there are no more tasks waiting than notifications to come and workers about to look at the queue |
| ThreadPools.NoneLost | include/ThreadPool.h:46-49 | so while a task waits, a notification is pending or a worker is awake |
| ThreadPools.TasksStep | include/ThreadPool.h:51-55 | every step keeps: accepted tasks are those started, in order, and those queued; every start is in hand or finished |
| ThreadPools.PushAccepts | include/ThreadPool.h:77-88 | a call is accepted at the end of the queue before the stop, and turned away after it |
| ThreadPools.NothingAfterStop | include/ThreadPool.h:77-88 | so after the stop nothing is accepted in any run |
| ThreadPools.InvAlways | include/ThreadPool.h:40-71 | the invariants hold throughout every run |
| ThreadPools.PoolIsSafe | include/ThreadPool.h:40-92 | in every run of any number of workers and clients: no lost wakeup, no sleeper without enough others on their way for the tasks that wait, first-in first-out starts, nobody turned away before the stop, and every accepted task run exactly once when all workers have left |
| ThreadPools.RestMeansDone | include/ThreadPool.h:61-71 | the pool comes to rest only with everything accepted finished, and a begun destruction complete |
| ThreadPools.RankStep | include/ThreadPool.h:40-92 | every step of the pool's own lowers a rank; calls and spurious wakeups raise it by at most 13 |
| ThreadPools.RunsAreBounded | include/ThreadPool.h:40-92 | the length of a run is bounded by the number of calls and spurious wakeups in it |
| ThreadPools.PoolDrains | src/Disk.cpp:55-68 | a run that cannot go on by itself has finished all accepted tasks, so a client that waits for its results and then destroys the pool is not left waiting |
| Unzip.LastHitIsLast | minizip/unzip.c:408-418 | the simple search finds the last occurrence in the last 65535 bytes, but for the start of the file |
| Unzip.FoundOrNot | minizip/unzip.c:462-466 | the answer tells whether there is one in the last 65535 bytes exactly when the only one is not at offset 0 |
| Unzip.LongCommentsLost | minizip/unzip.c:418-437 | an archive whose record is its last hit is found exactly when the record is not at offset 0 and its comment has at most 65513 of the 65535 bytes allowed |
| Unzip.CommentOf65514 | minizip/unzip.c:418-437 | a record at offset 1 is found with a comment of 65513 bytes and lost with one of 65514 |
| Unzip.ScanBuffer | minizip/unzip.c:454-460 | the inner loop finds the last occurrence in the window |
| Unzip.EmptyArchiveNotFound | minizip/unzip.c:462-466 | so a file that is only the record of an empty archive is not recognised |
| Unzip.SearchBackwards | minizip/unzip.c:425-466 | the overlapping windows find what the simple search finds, in every file, for every signature |
| Unzip.SearchCentralDir | minizip/unzip.c:413-469 | the search for the end of central directory record |
| Unzip.SearchCentralDir64 | minizip/unzip.c:480-532 | the search for the Zip64 locator |
| Unzip.TwoCalls | minizip/unzip.c:1682-1792 | two calls are one call for the sum of the lengths |
| Unzip.CallsAreOneCall | minizip/unzip.c:1682-1792 | any calls deliver consecutive slices; data, rest and checksum depend only on the total asked for |
| Unzip.WholeEntry | minizip/unzip.c:1702-1714 | reading to the end delivers the whole entry and its checksum |
| Unzip.RawOrNot | minizip/unzip.c:1702-1714 | a raw reader delivers all that is stored, any other no more than the uncompressed size |
| Unzip.StoredReader.Fill | minizip/unzip.c:1720-1759 | refills the buffer without losing a byte; fails only when the file is too short |
| Unzip.StoredReader.Copy | minizip/unzip.c:1776-1790 | copies and accounts for the bytes, and touches no others |
| Unzip.StoredReader.Read | minizip/unzip.c:1682-1792 | a call delivers the next bytes, as many as asked for or left; an error return means a truncated file |
| BitVectors.PeekIsField | include/BitPositionableByteVector.h:53-60 | the byte at any bit position |
| BitVectors.GotIsField | include/BitPositionableByteVector.h:162-166 | ReadBits yields the field exactly when it does not straddle a byte or is zero |
| BitVectors.GotIsShifted | include/BitPositionableByteVector.h:162-166 | otherwise it yields the field without as many of its last bits as lie in the second byte |
| BitVectors.LowBitsValue | include/BitPositionableByteVector.h:171-201 | the bits that WriteBits writes are the low ones of its argument |
| BitVectors.StraddlingMisread | include/BitPositionableByteVector.h:162-166 | the two bits 10 across a byte boundary are read as 01 |
| BitVectors.WriteIsLocal | include/BitPositionableByteVector.h:91-107 | a write changes the addressed bits only and grows the vector by no more than needed |
| BitVectors.HeadReachesBoundary | include/BitPositionableByteVector.h:212-220 | the head of a copy ends at a byte boundary of the target, or with the copy, and is empty at a boundary |
| BitVectors.CopyExactIff | include/BitPositionableByteVector.h:203-236 | CopyBitsFrom is exact exactly when head and tail do not straddle a source byte or are zero |
| BitVectors.EqualPhaseCopies | include/BitPositionableByteVector.h:213-235 | and so always when the cursors have equal phase |
| BitVectors.DoublesLowBits | include/BitPositionableByteVector.h:13-16 | Double4Bits doubles the low bits |
| BitVectors.DoublingExactIff | include/BitPositionableByteVector.h:238-268 | every bit is written twice in order exactly when the tail does not straddle a source byte or is zero |
| BitVectors.BitPositionableByteVector.ReadByte | include/BitPositionableByteVector.h:68-74 | a byte at any bit offset |
| BitVectors.BitPositionableByteVector.StoreByteAtPosition | include/BitPositionableByteVector.h:91-107 | replaces eight bits at any offset, extending by as little as holds them |
| BitVectors.BitPositionableByteVector.WriteByte | include/BitPositionableByteVector.h:115-120 | and moves on |
| BitVectors.BitPositionableByteVector.ReadBits | include/BitPositionableByteVector.h:154-169 | what a short read yields |
| BitVectors.BitPositionableByteVector.WriteBits | include/BitPositionableByteVector.h:171-201 | replaces the addressed bits, also across a byte boundary |
| BitVectors.BitPositionableByteVector.CopyBitsFrom | include/BitPositionableByteVector.h:203-236 | head, whole bytes and tail of the source replace as many bits here |
| BitVectors.BitPositionableByteVector.CopyBitsDoubledFrom | include/BitPositionableByteVector.h:238-268 | twice as many bits are replaced |
| Retries.RetryPolicy.constructor | include/RetryPolicy.h:10-20 | what an option value sets up |
| Retries.RetryPolicy.InvertSinceLastChange | include/RetryPolicy.h:27-39 | exchanges the policies for n and -n-1 |
| Retries.RetryPolicy.HasMoreRetry | include/RetryPolicy.h:121-129 | a change refills the retries of a policy that counts since the last one |
| Retries.RetryPolicy.HasMoreRetryMinusMinus | include/RetryPolicy.h:131-136 | and one retry is used |
| Retries.QuietAfterLastChange | src/Disk.cpp:442-463 | with option -n the loop ends exactly n rounds after the last that changed anything, the start counting as a change |
| Retries.TransferRounds | src/Disk.cpp:375-463 | option n gives n+1 rounds, option -n the first n quiet rounds in a row, and the fixes of all rounds are counted |
| DemandDisks.BetterIsAbove | src/DemandDisk.cpp:65-68 | a load replaces the one held exactly when its counts of sectors, good sectors and stable sectors are greater in lexicographic order |
| DemandDisks.BestIsFirstBest | src/DemandDisk.cpp:63-71 | the track held is the first of all loads whose three counts are greatest in that order |
| DemandDisks.AnotherLoad | src/DemandDisk.cpp:59-76 | what a load does to the best track and to both counts |
| DemandDisks.SpentSinceBest | src/DemandDisk.cpp:72-76 | after the best load every load uses up as much as the best one's revolutions, five of them for flux |
| DemandDisks.RescansInAll | src/DemandDisk.cpp:54-77 | with rescans not negative, any retries and any mix of flux: the loads use up all rescans, and the retries too unless the best track is stable throughout; the last load was still called for by one of them |
| DemandDisks.RescansSinceBest | src/DemandDisk.cpp:52-77 | with rescans negative and any retries: the loads after the best one use up the rescans, one fewer if no load had a sector, and the last of them was called for either by the rescans or by retries on a track not stable throughout |
| DemandDisks.RescansAlone | src/DemandDisk.cpp:52-77 | without retries, -n rescans end the loop as soon as the revolutions counted after the best load reach n, or n-1 if no load had a sector |
| DemandDisks.DemandDisk.LoadAgain | src/DemandDisk.cpp:59-76 | one rescan keeps the better track |
| DemandDisks.DemandDisk.LoadMore | src/DemandDisk.cpp:54-77 | the loop ends, under a lexicographic measure of room for improvement and retries left |
| DemandDisks.DemandDisk.ReadNC | src/DemandDisk.cpp:39-86 | stores and marks the first of the loads called for whose counts are the greatest, or answers from the cache |
| AppleGcr.CodeDecodes | src/BitstreamDecoder.cpp:231-239 | every listed code decodes to its place in the list |
| AppleGcr.AcceptedCodes | src/BitstreamDecoder.cpp:250-269 | the table accepts the listed codes and 0xaa |
| AppleGcr.CodeRule | src/BitstreamDecoder.cpp:231-239 | the listed codes are the bytes with the top bit set, two ones in a row behind it, and at most one pair of zeros in a row |
| AppleGcr.CodesAscend | src/BitstreamDecoder.cpp:231-239 | and the list is in ascending order |
| AppleGcr.BitsOfOut | src/BitstreamDecoder.cpp:462-475 | where each bit of a decoded byte comes from: six from its own value, two in reverse from the shared one |
| AppleGcr.DecodeInvertsNibblizing | src/BitstreamDecoder.cpp:448-475 | every sector nibblized decodes to itself, with checksum 0 and no invalid code |
| AppleGcr.NibblizingInvertsDecoding | src/BitstreamDecoder.cpp:448-475 | a field is what nibblizing its decoded sector gives exactly when its codes are listed, its checksum holds and its spare bits are zero |
| AppleGcr.InvalidReported | src/BitstreamDecoder.cpp:446-454 | the invalid count tells whether a code was invalid, unless 256 of them were |
| AppleGcr.GarbageAccepted | src/BitstreamDecoder.cpp:485-487 | a field of bytes that can all be read, 256 of them invalid codes, that passes for a good one |
| AppleGcr.Unchain | src/BitstreamDecoder.cpp:448-460 | the loop over code bytes |
| AppleGcr.Recombine | src/BitstreamDecoder.cpp:462-475 | the loop over data bytes |
| AppleGcr.Decode | src/BitstreamDecoder.cpp:439-475 | sector, checksum and count of a field |

## Left out

- Device drivers (floppy controllers, SuperCard Pro, KryoFlux, FTDI, USB), image formats, file systems, messages and option tables: input, output and plumbing.
- GetoptScanner.Getopt.GetoptLong: does not model messages, optopt, the store through a long option's flag or the idx parameter's aliasing; a long option whose val is -1 is excluded from the statements about whole parses, because its result cannot be told from the end.
- GetoptScanner.Getopt.GetoptInternal: does not model a second parse with the scanner's static state; the class is one parse, from an argument vector that has at least the program's name.
- GetoptScanner.ParseCommandLine: does not model what the program does with an option's argument, nor that some options end its loop early; the codes that take words are a parameter.
- FluxDecoding.FluxDecoder.NextBit: does not model overflow of the 32-bit sums, products and counters; intervals are read as signed 32-bit values as in the source. An adjustment is 0 to 50 and a phase setting 0 to 100 percent, a bitcell at least 4 ns.
- FluxDecoding.ToleratesJitter: the condition on jitter, cells and adjustment is sufficient, not necessary.
- FluxRoundTrip.RoundTrip: is about the cylinders below 40, where nothing is precompensated, and a flux scale of 100; its necessity half needs a phase setting of at least 60.
- FluxIndexing.IndexesRebuilt: is about the cylinders below 40 and a flux scale of 100, for gaps below 2^31 ns.
- FluxRoundTrip.FromDecoder: does not model the list of sync losses, and takes the initial capacity as a parameter.
- BitBuffers.BitBuffer.ReadByte: does not model the Apple, GCR and Victor encodings, nor a cursor at the end of the data, which the source does not allow either.
- BitBuffers.BitBuffer.Align: says nothing of index positions afterwards but that the list is the old one; `remove` is modelled without its assertion.
- TrackBuilding.BitstreamTrackBuilder.AddCrc: is about FM and MFM; adjusting and cutting bits before an offset are left out.
- ThreadPools.PoolDrains: assumes nothing about scheduling; tasks are taken to end, and what `hardware_concurrency` answers becomes the number of workers. Futures, exceptions inside tasks and memory are left out.
- Unzip.SearchBackwards: does not model failing seeks, reads and allocation, nor what the locator's fields say.
- Unzip.StoredReader.Read: does not model encryption, deflate and bzip2, or null parameters; CRC-32 is a fold of an unspecified step.
- BitVectors.BitPositionableByteVector.CopyBitsFrom: models the overloads that use the vectors' own cursors, and two different vectors; `CopyBytesFrom`, which reads from the vector it writes to, is left out.
- Retries.TransferRounds: does not model reading, normalising, repairing and writing the tracks, the early break when no more sectors are wanted, or head movements; how much each round changed is a parameter.
- DemandDisks.DemandDisk.ReadNC: a track is its three counts, whether all of it is stable, and whether it has flux; loads are a parameter, bounded so that negative counts end. Read statistics and the lock around the track map are left out.
- AppleGcr.Decode: does not model locating the fields or short ones; the encoder is the inverse that the decoder implies, since the repository has none.
- Normalisation of tracks, copy-protection special cases, gap removal and the scanners of other encodings: heuristics without a clean specification.
