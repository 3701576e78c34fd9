# Verified model of the channel coding and the streaming receivers

This Dafny project models the receivers of two Japanese municipal radio systems,
ARIB STD-T86 (16QAM TDMA) and ARIB STD-T115 in its QPSK narrow-band form: the
codes that protect speech and control messages, the blind search for scrambling
values, and the state machines that turn a stream of samples into bursts, voice
events and broadcast windows. Every property is a statement about all inputs, all
chunkings of a stream or all runs.

`dafny verify dfyconfig.toml` checks the whole project.

## Main results

- **Viterbi decoding is maximum likelihood** for every constraint length from 2,
  up to sixteen polynomials and any erasures, and fully determined, also between
  messages that tie (`Conv`). It recovers the message whenever one stream whose
  polynomial taps the newest bit arrives complete (`ConvAlgebra`), and on the control
  channel from `e` wrong and `f` erased symbols if `2e + f < 8`, because code words of
  different messages differ in at least eight places (`ControlDistance`). On this rest
  the round trips of both speech formats (`Transmission`) and of the control channel
  (`Cac`).
- **What is sent** is also stated without the program's tables and registers: the
  place of every frame, checksum and coded bit of a speech frame (`TransmissionForm`),
  and the checksums as polynomial division (`CrcDivision`).
- **Turbo decoding recovers the message** from soft values that nowhere contradict
  its code word, for any number of iterations (`Turbo`), because the constituent
  decoder is exact max-log MAP (`Bcjr`) over the correlations of the code words of
  (1+D+D^3)/(1+D^2+D^3). The interleaver is, for every block length, the permutation of
  the standard, described by properties alone: least prime, least primitive root, the
  primes coprime to p-1 in order (`NumberTheory`, `Residues`, `RootTable`, `LeastRoots`,
  `Interleaver`). Its search for multipliers ends because there are infinitely many
  primes. Together with rate matching (`RateMatch`, `Tch`) this gives both STD-T115
  receive chains end to end (`Channels`).
- **Blind identification**: syndromes cancel the code, so the right STD-T86 seed
  weighs at most five for each channel error (`SeedSearch`); the in-place
  Walsh-Hadamard transform equals the naive sums (`Walsh`), so the right STD-T115
  initial value scores the whole weight (`ScrambleSearch`), and it is the only one,
  because the first seventeen equations determine the register (`InitUnique`).
- **The STD-T86 seed is not unique**: the syndromes of `s` and of the exclusive or of
  `s` with 231, 379 and 412 are equal, because inside a block every scrambling sequence
  looks like a code word. The search returns the smallest of these four, so it returns
  the seed in use if and only if none of the other three is smaller; for 231 it returns
  0 (`SeedClasses.SeedFound`, `SeedMissed`). Four candidates always include the seed in
  use, and the program scores a list of candidates.
- **Streaming equals offline**: burst detection (`Slots`), voice smoothing (`Voice`)
  and the filters (`Filters`) give the same output for every chunking. The bursts are
  exactly the peaks above the threshold that keep their distance and pass the squelch;
  a voice decision is exactly the majority of a burst's voters.
- **Broadcast windows** have increasing IDs, at most one is open, and all are ordered
  and disjoint, also those opened retroactively (`Broadcast`). Over any series of
  messages an idle window closes after exactly the close delay and a broadcast joined
  late opens after exactly the join delay (`BroadcastRuns`).
- **The whole streaming decoder** (`Decoder.Run`), over any run and any chunking: the
  reported end of a window is final, no later voice event carries its ID, and it comes
  in time, at the latest 16800 samples after the window ended; control
  messages and traffic bursts are those of the stream; each traffic burst gets exactly
  one voice event, in order, with its offline vote; the books on windows balance, so that
  no announcement and no end is lost or repeated; every verified start lies in a window;
  and voice is credited to the window it lies in.
- **A second promise fails**: a window is not always announced before it ends. A release whose
  own header makes a late join due opens a window and ends it at once; the program then
  reports the end twice and the start never (`Broadcast.JoinedByItsRelease`). This is the
  only such case: the list of changed windows is free of duplicates if and only if the
  message is not of that kind (`Broadcast.BroadcastTracker.OnControl`), and over a whole run
  a window is reported twice exactly if it was never announced (`Decoder.Run`).
- CRC-16 and the two CRC-7 algorithms (`Crc`, `Crc7`), two-ended placement
  (`Multiplex`) and gap filling (`Conceal`).

## Layout

`Words` holds machine words as natural numbers, bit vectors as sequences of 0 and 1;
`Samples` complex samples over the reals; `Rounding` the rounding rule of burst
timing. The other modules follow the program's files; `ConvAlgebra`, `ControlDistance`,
`CrcDivision`, `TransmissionForm`, `SeedClasses`, `InitUnique`, `LeastRoots` and
`BroadcastRuns` say what their results mean. Code that works step by step
is a method with loop invariants, proved against a specification function; objects
that are updated in place are classes (`SeedSearcher`, `ScrambleFinder`,
`SlotTracker`, `VoiceSmoother`, `BroadcastTracker`, `BroadcastWindow`,
`StreamingDecoder`, `SlotGapTracker`, `FIRState`, both decimators), whose ghost
fields record the history that their fields summarize.

Soft values, samples and levels are reals; minus infinity is a value of its own.
Correlation with a sync word, slot extraction and the decay of the squelch reference
are parameters: the results hold for every choice of them, except that completeness
under the squelch is stated for a decay that adds up over time and keeps the order of
levels, as exponential decay does (`Slots.Decays`). The bit-level readers of the
streaming decoder are parameters too.

## Model

| member | source | states |
|---|---|---|
| `Conv.ConvEncode` | internal/std-t86/fec/conv.go:15-31 | The shift-register encoder, with its K-1 flushing zeros, produces the code word of the trellis: for every step the parity of each polynomial with the register |
| `Conv.NewViterbiTable` | internal/std-t86/fec/conv.go:43-61 | Every table entry packs the output bits that the encoder sends from that state with that input |
| `Conv.BranchMetric` | internal/std-t86/fec/conv.go:79-95 | XOR, mask and population count of the packed words is the number of differing positions that are not erased |
| `Conv.CompareSelect` | internal/std-t86/fec/conv.go:90-105 | For one state, the cheaper of its two predecessors survives; on a tie the even one, never the odd one |
| `Conv.AddCompareSelect` | internal/std-t86/fec/conv.go:90-106 | One forward step takes the minimum over both predecessors of every state and records which one; 32-bit metrics never overflow |
| `Conv.NoneCheaperStep` | internal/std-t86/fec/conv.go:90-106 | After the step no path into a state is cheaper than its metric |
| `Conv.AttainedStep` | internal/std-t86/fec/conv.go:90-106 | After the step every metric below the sentinel is the distance of the recorded survivor path |
| `Conv.EarliestStep` | internal/std-t86/fec/conv.go:90-106 | After the step the recorded survivor of a state is, among all cheapest paths into it, the one with the 0 at the last place where it differs from any other |
| `Conv.PredPrior` | internal/std-t86/fec/conv.go:90-103 | Of two paths into the two predecessors of a state, the one into the even predecessor has the 0 at the last difference |
| `Conv.PriorUnique` | internal/std-t86/fec/conv.go:63-132 | Only one of several inputs can have the 0 at its last difference from all others, so the decision is fully determined |
| `Conv.ForwardDecides` | internal/std-t86/fec/conv.go:69-107 | After all steps the metrics are exact minima and state 0 lies below the sentinel `1<<30` |
| `Conv.TraceBack` | internal/std-t86/fec/conv.go:118-127 | Following the recorded predecessors backward yields the survivor of the final state |
| `Conv.EndsFlushed` | internal/std-t86/fec/conv.go:15-31 | A path ends in state 0 only if its last K-1 inputs are zero |
| `Conv.FlushedEnds` | internal/std-t86/fec/conv.go:15-31 | A message followed by K-1 zeros ends in state 0 |
| `Conv.TerminatedBest` | internal/std-t86/fec/conv.go:109-131 | The survivor of state 0, its zero tail dropped, beats every message of its length |
| `Conv.ViterbiDecode` | internal/std-t86/fec/conv.go:63-132 | Maximum likelihood under erasures: among all messages (or all paths, if unterminated) of the decoded length none has a code word with fewer mismatches on the positions not erased; among several that tie, the one with the 0 where it last differs from the others (unterminated: of those that end in the lowest state) |
| `Conv.OneStateFails` | internal/std-t86/fec/conv.go:43-48 | Constraint length 1, the failing input: the one state only has input 0, so the bit sent for message 1 is one mismatch away from what the decoder can choose |
| `Conv.WordTooShort` | internal/std-t86/fec/conv.go:49-58 | Seventeen polynomials, the failing input: two register contents send different symbols but share their 16-bit table word |
| `ConvAlgebra.StateIsHistory` | internal/std-t86/fec/conv.go:15-31 | A parity of the encoder state is a convolution of the last inputs |
| `ConvAlgebra.EncoderConvolves` | internal/std-t86/fec/conv.go:15-31 | Each output stream is the convolution of the input with its polynomial over GF(2) |
| `ConvAlgebra.MismatchesCount` | internal/std-t86/fec/conv.go:74-95 | The metric is the number of places where a received symbol is not erased and differs in its low bit |
| `ConvAlgebra.ZeroDistanceUnique` | internal/std-t86/fec/conv.go:63-132 | If one output stream, whose polynomial taps the newest bit, is never erased, only one path has distance zero |
| `ConvAlgebra.RecoversFromErasures` | internal/std-t86/fec/conv.go:63-132 | A most likely message of an error-free code word equals the message sent, whatever the other streams lost to erasures |
| `ControlDistance.FreeDistance` | internal/std-t86/fec/conv.go:15-35 | A flushed nonzero input of the control code is sent with at least eight ones |
| `ControlDistance.CodewordsFarApart` | internal/std-t86/fec/conv.go:15-35 | Code words of different messages differ in at least eight symbols |
| `ControlDistance.EightApart` | internal/std-t86/fec/conv.go:15-35 | Eight is exact: the messages 101 and 000 are sent that close together |
| `ControlDistance.Corrects` | internal/std-t86/fec/conv.go:63-136 | From e wrong and f erased symbols with 2e + f < 8 every most likely message of the control code is the one sent |
| `ControlDistance.BlockCorrects` | internal/std-t86/control/cac.go:29-37 | A scrambled control block of any length with at most three wrong bits decodes to its payload, checksum good |
| `ControlDistance.CacCorrects` | internal/std-t86/control/cac.go:29-37 | The control channel survives any three wrong bits of a slot |
| `Bcjr.TailTerminates` | internal/std-t115/qpsknarrow/fec/turbo.go:15-20 | Three tail steps lead every state to state 0 |
| `Bcjr.PathSplits` | internal/std-t115/qpsknarrow/fec/turbo.go:69-202 | The metric of a path is the metric up to a step plus the metric from it |
| `Bcjr.ForwardRow` | internal/std-t115/qpsknarrow/fec/turbo.go:110-123 | One forward row of the trellis: every state holds the best metric of all inputs reaching it |
| `Bcjr.BackwardRow` | internal/std-t115/qpsknarrow/fec/turbo.go:158-170 | One backward row: every state holds the best metric to the end through the tail |
| `Bcjr.ForwardPass` | internal/std-t115/qpsknarrow/fec/turbo.go:74-136 | All forward rows, then three tail steps: the last row holds the best whole path at state 0 |
| `Bcjr.BackwardPass` | internal/std-t115/qpsknarrow/fec/turbo.go:138-170 | All backward rows from state 0 after the tail |
| `Bcjr.Combine` | internal/std-t115/qpsknarrow/fec/turbo.go:173-191 | The best sum of forward metric, branch and backward metric for either value of one input |
| `Bcjr.CombineIsBest` | internal/std-t115/qpsknarrow/fec/turbo.go:173-191 | That sum is the maximum over all whole terminated paths with this input bit |
| `Turbo.CodeIsPolynomial` | internal/std-t115/qpsknarrow/fec/turbo.go:22-58 | Input and parity of a constituent encoder, tails included, are the products of one polynomial with 1+D^2+D^3 and 1+D+D^3 |
| `Turbo.PathIsCorrelation` | internal/std-t115/qpsknarrow/fec/turbo.go:82-136 | Twice the metric of a path is the signed sum of all values by the bits of its constituent code word: systematic, parity and all six tail values |
| `Turbo.ExtrinsicIsMaxLog` | internal/std-t115/qpsknarrow/fec/turbo.go:69-202 | An extrinsic value is half the difference of the best correlations over all code words with either value of the bit, less the channel and a priori value of that bit |
| `Turbo.BestDecides` | internal/std-t115/qpsknarrow/fec/turbo.go:69-202 | If one code word correlates strictly best, even against wrong single values, every total ratio has the sign of its message |
| `Bcjr.EndsAgree` | internal/std-t115/qpsknarrow/fec/turbo.go:74-170 | Both passes agree on the metric of the best path |
| `Bcjr.Bcjr` | internal/std-t115/qpsknarrow/fec/turbo.go:69-202 | Exact max-log MAP: each output is the best path with bit 0 minus the best with bit 1, minus the channel and a priori values; what the metric of a path is in terms of the code word is stated by Turbo.PathIsCorrelation and Turbo.ExtrinsicIsMaxLog |
| `Turbo.EncodeTail` | internal/std-t115/qpsknarrow/fec/turbo.go:43-56 | Six tail values from the state reached: inputs that drive the register to zero, and their parities |
| `Turbo.TurboEncode` | internal/std-t115/qpsknarrow/fec/turbo.go:22-58 | Systematic bits, the parities of both constituent encoders (the second on interleaved input) and both tails, each at its place |
| `Turbo.BackwardBound` | internal/std-t115/qpsknarrow/fec/turbo.go:69-202 | No path beats the ideal metric, and a path with the wrong bit misses it by the weight of that bit |
| `Turbo.BackwardIdeal` | internal/std-t115/qpsknarrow/fec/turbo.go:69-202 | If no value speaks against it, the transmitted path attains the ideal metric |
| `Turbo.ExtrinsicAgrees` | internal/std-t115/qpsknarrow/fec/turbo.go:172-200 | Extrinsic values keep the right sign |
| `Turbo.ExtrinsicUnique` | internal/std-t115/qpsknarrow/fec/turbo.go:172-200 | The specification of an extrinsic value admits one value only |
| `Turbo.Iterate` | internal/std-t115/qpsknarrow/fec/turbo.go:227-237 | One iteration: exact extrinsic values of the first decoder, of the second on interleaved values, put back in natural order |
| `Turbo.TraceAgrees` | internal/std-t115/qpsknarrow/fec/turbo.go:227-237 | Through all iterations every extrinsic and a priori value keeps the sign of every message nothing speaks against |
| `Turbo.DecodingRecovers` | internal/std-t115/qpsknarrow/fec/turbo.go:204-245 | A decoding of soft values that nowhere contradict a code word is its message, for any number of iterations from 1 up |
| `Turbo.TurboDecode` | internal/std-t115/qpsknarrow/fec/turbo.go:204-245 | The result is the hard decision after exactly `iters` iterations of exact max-log MAP, where every extrinsic value is fixed by the correlations of all constituent code words (Turbo.ExtrinsicIsMaxLog); it recovers every message that no value speaks against |
| `NumberTheory.ComputeGcd` | internal/std-t115/qpsknarrow/fec/interleaver.go:21-26 | The loop computes the greatest common divisor |
| `NumberTheory.GcdIsGreatest` | internal/std-t115/qpsknarrow/fec/interleaver.go:21-26 | It divides both numbers and every common divisor divides it |
| `NumberTheory.TestPrime` | internal/std-t115/qpsknarrow/fec/interleaver.go:28-38 | Trial division up to the square root decides primality |
| `NumberTheory.CoprimeInjective` | internal/std-t115/qpsknarrow/fec/interleaver.go:102-125 | Multiplication by a number coprime to m permutes the residues mod m |
| `NumberTheory.PrimeAbove` | internal/std-t115/qpsknarrow/fec/interleaver.go:76-86 | There is a prime above every bound |
| `Residues.LeastExponent` | internal/std-t115/qpsknarrow/fec/interleaver.go:4-12 | Powers repeat with a least period |
| `Residues.RootByFactors` | internal/std-t115/qpsknarrow/fec/interleaver.go:4-12 | Lucas' test: if no power with an exponent (p-1)/f, f a prime factor of p-1, is 1, then p-1 is the least exponent whose power is 1 |
| `Residues.RootReaches` | internal/std-t115/qpsknarrow/fec/interleaver.go:69-73 | The powers of a primitive root run through all residues but 0 |
| `Residues.RootIsPrime` | internal/std-t115/qpsknarrow/fec/interleaver.go:4-12 | Only a prime has a primitive root |
| `Residues.Fermat` | internal/std-t115/qpsknarrow/fec/interleaver.go:4-12 | Fermat's little theorem for moduli with a primitive root |
| `Residues.PowerIsNoRoot` | internal/std-t115/qpsknarrow/fec/interleaver.go:4-12 | A proper power of another residue is no primitive root |
| `LeastRoots.LeastRoot` | internal/std-t115/qpsknarrow/fec/interleaver.go:4-12 | Every generator in the table is the least primitive root of its prime |
| `LeastRoots.AllPrimes` | internal/std-t115/qpsknarrow/fec/interleaver.go:4-12 | The table has every prime from 7 to 257 |
| `RootTable.TableRoots` | internal/std-t115/qpsknarrow/fec/interleaver.go:4-12 | Every table row holds a primitive root |
| `RootTable.TableEntries` | internal/std-t115/qpsknarrow/fec/interleaver.go:4-12 | Every table row is a prime and one of its primitive roots |
| `Interleaver.SelectShape` | internal/std-t115/qpsknarrow/fec/interleaver.go:41-68 | Rows, prime, root and columns for a block length: the first table prime that fits, the special range 481-530 apart |
| `Interleaver.RowSourceInjective` | internal/std-t115/qpsknarrow/fec/interleaver.go:14-19 | The inter-row patterns are permutations |
| `Interleaver.FindNext` | internal/std-t115/qpsknarrow/fec/interleaver.go:76-86 | The unbounded search finds the next prime coprime to p-1, and terminates |
| `Interleaver.NextFactorUnique` | internal/std-t115/qpsknarrow/fec/interleaver.go:76-86 | The next multiplier is determined by the previous one |
| `Interleaver.BaseInjective` | internal/std-t115/qpsknarrow/fec/interleaver.go:69-73 | Powers of the root enumerate 1..p-1 without repetition |
| `Interleaver.ColumnInjective` | internal/std-t115/qpsknarrow/fec/interleaver.go:102-125 | Each row permutes its columns, in all three cases and with the final exchange |
| `Interleaver.CellInjective` | internal/std-t115/qpsknarrow/fec/interleaver.go:102-135 | Different cells hold different indices |
| `Interleaver.CellsCovered` | internal/std-t115/qpsknarrow/fec/interleaver.go:102-135 | Every index has a cell |
| `Interleaver.PatternPermutes` | internal/std-t115/qpsknarrow/fec/interleaver.go:40-137 | Reading by columns and dropping indices from k on leaves each of 0..k-1 exactly once |
| `Interleaver.ShapeIsRectangle` | internal/std-t115/qpsknarrow/fec/interleaver.go:41-68 | The rectangle without the table: the least prime from 7 on and the least width p-1, p or p+1 that hold the block, 53 by 53 for 481 to 530, with the least primitive root |
| `Interleaver.FactorsAre` | internal/std-t115/qpsknarrow/fec/interleaver.go:74-86 | The multipliers are 1 and then, in order and with none skipped, the primes above 6 coprime to p-1 |
| `Interleaver.CellIsStored` | internal/std-t115/qpsknarrow/fec/interleaver.go:102-125 | The cell of row place i and column j holds v to the power (j*q) mod (p-1), with the end columns and the exchange written out |
| `Interleaver.PatternInterleaves` | internal/std-t115/qpsknarrow/fec/interleaver.go:40-137 | The pattern reads these cells column by column, cut at k: the permutation of the standard with all numbers written out |
| `Interleaver.BuildRow` | internal/std-t115/qpsknarrow/fec/interleaver.go:102-125 | One row of the matrix, filled in place |
| `Interleaver.TurboInterleaver` | internal/std-t115/qpsknarrow/fec/interleaver.go:40-137 | For every block length up to 5160 the program returns a permutation of 0..k-1, and it is the one described without its tables and loops: rectangle, root, multipliers, rows and reading order are given by their properties |
| `Crc7.Divide` | internal/std-t86/scodec/transmission.go:54-72 | Long division in place leaves the remainder in the low seven places |
| `Crc7.Crc7` | internal/std-t86/scodec/transmission.go:54-72 | The checksum is the remainder of the shifted payload |
| `Crc7.Crc7Ota` | internal/std-t86/scodec/transmission.go:188-206 | The shift register computes the remainder of the region followed by seven zeros |
| `Crc7.SerialIsRemainder` | internal/std-t86/scodec/transmission.go:188-206 | Feeding bits serially is division of the reversed polynomial |
| `Crc7.ArrayIsOta` | internal/std-t86/scodec/transmission.go:54-72 | Array division with shift 7 on the reversed region equals the shift register, for every region |
| `CrcDivision.RemainderDivides` | internal/std-t86/scodec/transmission.go:54-72 | Both seven-bit checksums are the remainder of the division by x^7+x^5+x^3+1, coefficient by coefficient |
| `Transmission.CvinFromPayload` | internal/std-t86/scodec/transmission.go:74-85 | Checksum and payload bits in their order before coding |
| `Transmission.CvinToPayload` | internal/std-t86/scodec/transmission.go:87-99 | The inverse order |
| `Transmission.CvinInjective` | internal/std-t86/scodec/transmission.go:74-99 | The order loses nothing |
| `Transmission.PunctureOrder` | internal/std-t86/scodec/transmission.go:27-33 | The i-th kept position of the coded bits |
| `Transmission.Puncture` | internal/std-t86/scodec/transmission.go:101-107 | Every position congruent 5 mod 16 is dropped, the rest kept in order |
| `Transmission.Depuncture` | internal/std-t86/scodec/transmission.go:109-121 | Kept bits return to their positions, dropped ones become erasures |
| `Transmission.IlSrcInverse` | internal/std-t86/scodec/transmission.go:35-42 | The interleaver is a permutation with the stated inverse |
| `Transmission.IlDestInverse` | internal/std-t86/scodec/transmission.go:35-42 | The inverse direction |
| `Transmission.BuildDeinterleave` | internal/std-t86/scodec/transmission.go:169-184 | The over-the-air permutation table |
| `Transmission.DeintInjective` | internal/std-t86/scodec/transmission.go:169-184 | It is injective |
| `Transmission.RotFlip` | internal/std-t86/scodec/transmission.go:169-184 | Rotation by two and flipping of two bits as the table computes them |
| `Transmission.FlipIsXor` | internal/std-t86/scodec/transmission.go:169-184 | Flipping the low two bits is exclusive or with 3 |
| `Transmission.TransmissionEncode` | internal/std-t86/scodec/transmission.go:123-136 | A 320-bit frame becomes 512 bits: checksum, order, code, puncturing, interleaving; other lengths are refused |
| `Transmission.TransmissionDecode` | internal/std-t86/scodec/transmission.go:138-154 | The way back, with a frame error flag |
| `Transmission.ProtectedRoundTrip` | internal/std-t86/scodec/transmission.go:101-154 | Coding, puncturing, depuncturing and decoding give the protected bits back |
| `Transmission.StdRoundTrip` | internal/std-t86/scodec/transmission.go:123-154 | Every frame survives encoding and decoding, with frame error 0 |
| `Transmission.TransmissionEncodeOta` | internal/std-t86/scodec/transmission.go:235-260 | The encoder in over-the-air order |
| `Transmission.TransmissionDecodeOta` | internal/std-t86/scodec/transmission.go:208-233 | The decoder in over-the-air order |
| `Transmission.OtaRoundTrip` | internal/std-t86/scodec/transmission.go:208-260 | Every frame survives the over-the-air pair, with frame error 0 |
| `Transmission.DecodeTchFrames` | internal/std-t86/scodec/transmission.go:262-290 | Every slot is descrambled and decoded; one wrong length refuses all |
| `Transmission.SlotRoundTrip` | internal/std-t86/scodec/transmission.go:262-290 | A scrambled encoded slot decodes to its frame with the right seed, in either order |
| `TransmissionForm.KeptAre` | internal/std-t86/scodec/transmission.go:27-33 | The kept positions are, in order, exactly those of 0..407 that are not 5 mod 16 |
| `TransmissionForm.CodedIs` | internal/std-t86/scodec/transmission.go:123-136 | Coded bit 2t or 2t+1 is the convolution with octal 247 or 371 at t |
| `TransmissionForm.InterleavesColumns` | internal/std-t86/scodec/transmission.go:35-42 | The interleaver writes 64 rows of eight and reads the columns 0, 2, 4, 6, 1, 3, 5, 7 |
| `TransmissionForm.Spread` | internal/std-t86/scodec/transmission.go:35-42 | Bits less than eight places apart are sent at least 63 places apart |
| `TransmissionForm.StdSends` | internal/std-t86/scodec/transmission.go:123-136 | Every transmitted bit in terms of the frame alone: which frame, checksum or coded bit stands at each of the 512 places |
| `TransmissionForm.PlacesGroups` | internal/std-t86/scodec/transmission.go:169-184 | Over the air, column a of row b stands at 256*(a mod 2) + 4b + 3 - a/2 |
| `TransmissionForm.OtaSends` | internal/std-t86/scodec/transmission.go:235-260 | The same for the over-the-air form |
| `Cac.ExtractCac` | internal/std-t86/control/cac.go:22-27 | The 256 coded bits around the pilot |
| `Cac.DecodeCac` | internal/std-t86/control/cac.go:29-37 | The payload is the head of a most likely message of the descrambled block, the flag compares checksums; other lengths are refused |
| `Cac.DecodeFacch` | internal/std-t86/control/cac.go:99-109 | The same for a signalling slot |
| `Cac.CleanDecode` | internal/std-t86/control/cac.go:29-37 | A most likely message of an error-free code word is the one sent |
| `Cac.BlockRoundTrip` | internal/std-t86/control/cac.go:29-37 | A coded, scrambled message with its checksum decodes to its payload, checksum good |
| `Cac.CacRoundTrip` | internal/std-t86/control/cac.go:29-37 | The same for the control channel |
| `Crc.Crc16` | internal/std-t86/fec/crc.go:8-19 | The register run |
| `Crc.Crc16Bits` | internal/std-t115/qpsknarrow/fec/crc.go:21-44 | The checksum as sixteen bits, top bit first |
| `Crc.StepLinear` | internal/std-t115/qpsknarrow/fec/crc.go:8-19 | A register step is linear over GF(2) |
| `Crc.RunLinear` | internal/std-t115/qpsknarrow/fec/crc.go:8-36 | The checksum of a sum is the sum of checksums; the start value only shifts it |
| `Crc.SelfCheck` | internal/std-t115/qpsknarrow/fec/crc.go:8-23 | A message followed by its checksum has checksum 0 |
| `Crc.DetectsBursts` | internal/std-t115/qpsknarrow/fec/crc.go:8-19 | Differences confined to 16 places change the checksum |
| `Crc.DetectsWindow` | internal/std-t86/fec/crc.go:8-19 | Different messages of equal length that agree outside some window of at most 16 bits have different checksums |
| `CrcDivision.RegisterBits` | internal/std-t86/fec/crc.go:8-19 | Every register bit in terms of the quotient digits of the long division by x^16+x^12+x^5+1 |
| `CrcDivision.EmptyAfterMultiples` | internal/std-t86/fec/crc.go:8-19 | The register is empty exactly after the multiples of that polynomial |
| `CrcDivision.StartInverts` | internal/std-t115/qpsknarrow/fec/crc.go:8-19 | The start value inverts the first sixteen bits |
| `CrcDivision.ChecksumDivides` | internal/std-t115/qpsknarrow/fec/crc.go:8-44 | Sixteen bits are the checksum of a message exactly if message and bits, the first sixteen inverted, are a multiple of that polynomial |
| `Lfsr9.LfsrPn` | internal/std-t86/fec/scrambler.go:14-23 | The pseudo-noise sequence of a seed |
| `Lfsr9.PnIs` | internal/std-t86/fec/scrambler.go:14-23 | The sequence starts with the seed, low bit first; each later bit is the sum of the ones nine and five before |
| `Lfsr9.Descramble` | internal/std-t86/fec/scrambler.go:25-34 | XOR with that sequence |
| `Lfsr9.Involution` | internal/std-t86/fec/scrambler.go:25-34 | Descrambling undoes scrambling |
| `Lfsr16.Scramble` | internal/std-t115/qpsknarrow/fec/scrambler.go:8-18 | The sixteen-stage register sequence |
| `Lfsr16.OutIs` | internal/std-t115/qpsknarrow/fec/scrambler.go:8-18 | It starts with the initial value, top bit first; each later bit is the sum of those 16, 14, 13 and 11 before |
| `Lfsr16.OutLinear` | internal/std-t115/qpsknarrow/fec/scrambler.go:8-18 | It is linear in its initial value |
| `SeedSearch.ComputeSyndrome` | internal/std-t86/fec/seedsearch.go:33-53 | Three packed words hold the sum of both halves multiplied by the other generator |
| `SeedSearch.SynLinear` | internal/std-t86/fec/seedsearch.go:33-53 | The syndrome is linear |
| `SeedSearch.ProductsCancel` | internal/std-t86/fec/seedsearch.go:33-53 | g2(g1 u) and g1(g2 u) cancel coefficient by coefficient |
| `SeedSearch.EncodedIsCodeword` | internal/std-t86/fec/conv.go:33-35 | The control encoder sends the two products of the padded message |
| `SeedSearch.CodewordCancels` | internal/std-t86/fec/seedsearch.go:33-53 | Code words have syndrome zero |
| `SeedSearch.WordDistance` | internal/std-t86/fec/seedsearch.go:94-100 | Population counts of the three word differences add up to the distance of the syndromes |
| `SeedSearch.SyndromeWeight` | internal/std-t86/fec/seedsearch.go:33-53 | e wrong bits disturb at most 5e syndrome bits |
| `SeedSearch.MismatchBound` | internal/std-t86/fec/seedsearch.go:91-102 | One block with e channel errors adds at most 5e to the weight of its seed |
| `SeedSearch.WeightBound` | internal/std-t86/fec/seedsearch.go:91-102 | After any pushes with e errors in total the weight of the right seed is at most 5e |
| `SeedSearch.CleanWeight` | internal/std-t86/fec/seedsearch.go:91-102 | After any number of error-free pushes it is zero |
| `SeedSearch.PnSyndromes` | internal/std-t86/fec/seedsearch.go:64-76 | The table of the syndromes of all 512 scrambling sequences |
| `SeedSearch.SeedSearcher.Push` | internal/std-t86/fec/seedsearch.go:91-102 | Adds to every weight the distance of the block from that seed |
| `SeedSearch.SeedSearcher.Order` | internal/std-t86/fec/seedsearch.go:106-115 | All seeds by weight, ties in seed order |
| `SeedSearch.SeedSearcher.Candidates` | internal/std-t86/fec/seedsearch.go:117-123 | The first `Top` seeds; every seed left out ranks behind each of them |
| `SeedSearch.SearchSeed` | internal/std-t86/fec/seedsearch.go:148-161 | The smallest seed of least weight |
| `SeedSearch.CleanFirst` | internal/std-t86/fec/seedsearch.go:148-161 | Of error-free blocks the seed that ranks first weighs nothing and is not above the true seed |
| `SeedClasses.InsideCancels` | internal/std-t86/fec/seedsearch.go:33-53 | Between its ends the syndrome of every scrambling sequence vanishes, as if it were a code word |
| `SeedClasses.EndIs` | internal/std-t86/fec/scrambler.go:14-23 | The last ten bits of a block-long register sequence in terms of early ones |
| `SeedClasses.SeedDistance` | internal/std-t86/fec/seedsearch.go:64-76 | Two seeds have the same syndrome if their exclusive or is 0, 231, 379 or 412; otherwise the syndromes differ in at least two bits |
| `SeedClasses.AlikeWeights` | internal/std-t86/fec/seedsearch.go:91-102 | Whatever was received, those four seeds have equal weights |
| `SeedClasses.OthersWeigh` | internal/std-t86/fec/seedsearch.go:91-102 | Any other seed and the right one together weigh at least two for each block |
| `SeedClasses.SeedFound` | internal/std-t86/fec/seedsearch.go:148-161 | With fewer channel errors than a fifth of the blocks the search returns the smallest of the four seeds alike to the one in use: it is the one in use if and only if none of these is smaller |
| `SeedClasses.SeedMissed` | internal/std-t86/fec/seedsearch.go:148-161 | The failing input: any message, scrambled with seed 231 and received without an error, is answered with 0, which is outside the range of seeds |
| `SeedClasses.SeedAmongCandidates` | internal/std-t86/fec/seedsearch.go:117-123 | From four candidates on, the seed in use is among them |
| `RateMatch.DebtSign` | internal/std-t115/qpsknarrow/fec/ratematch.go:9-22 | The accumulator is not positive exactly while copies are owed |
| `RateMatch.RepetitionPattern` | internal/std-t115/qpsknarrow/fec/ratematch.go:4-23 | The accumulator loop lays out the closed-form multiplicities |
| `RateMatch.RepeatedCount` | internal/std-t115/qpsknarrow/fec/ratematch.go:4-23 | Every index occurs as often as the closed form says |
| `RateMatch.RepeatedIsEven` | internal/std-t115/qpsknarrow/fec/ratematch.go:4-23 | Exact length, nondecreasing, every index present, multiplicities differing by at most one |
| `RateMatch.PuncturePattern` | internal/std-t115/qpsknarrow/fec/ratematch.go:25-37 | The kept indices of the deletion accumulator |
| `RateMatch.AccumulatorInRange` | internal/std-t115/qpsknarrow/fec/ratematch.go:25-37 | For 0 < eMinus <= ePlus and 0 < eIni <= ePlus the accumulator stays in 1..ePlus and the number of deletions is the closed form |
| `RateMatch.KeptSorted` | internal/std-t115/qpsknarrow/fec/ratematch.go:25-37 | Kept indices increase strictly |
| `RateMatch.KeptMembers` | internal/std-t115/qpsknarrow/fec/ratematch.go:25-37 | They are exactly the indices not deleted |
| `RateMatch.KeptByCount` | internal/std-t115/qpsknarrow/fec/ratematch.go:25-37 | An index is kept exactly if the closed-form number of deletions does not grow there |
| `RateMatch.ApplyPattern` | internal/std-t115/qpsknarrow/fec/ratematch.go:39-45 | The bits of a pattern |
| `RateMatch.CollapseLLR` | internal/std-t115/qpsknarrow/fec/ratematch.go:47-53 | Every value is the sum over the positions of its index |
| `RateMatch.ExpandPuncturedLLR` | internal/std-t115/qpsknarrow/fec/ratematch.go:55-61 | Values at kept indices, zero elsewhere |
| `RateMatch.PlacedAt` | internal/std-t115/qpsknarrow/fec/ratematch.go:55-61 | For increasing indices each value stands where it belongs and the others are zero |
| `Tch.TxMap` | internal/std-t115/qpsknarrow/fec/tch.go:12-38 | Three streams merged: all systematic bits and the kept parities |
| `Tch.MapIsGood` | internal/std-t115/qpsknarrow/fec/tch.go:12-38 | The map is strictly increasing, 804 long, inside the code word and holds every index 3k |
| `Tch.TxMembers` | internal/std-t115/qpsknarrow/fec/tch.go:12-38 | Which turbo outputs are sent: all systematic bits, and of each parity stream those where the scaled count does not step |
| `Tch.ExpandLLR` | internal/std-t115/qpsknarrow/fec/tch.go:40-48 | Values at mapped indices, zero elsewhere |
| `Channels.Unscramble` | internal/std-t115/qpsknarrow/decoder/decoder.go:454-458 | Sign changes undo the scrambling on soft values, in place |
| `Channels.UnscrambleAgrees` | internal/std-t115/qpsknarrow/decoder/decoder.go:454-458 | What agreed with the scrambled bits then agrees with the bits |
| `Channels.CollapsedAgrees` | internal/std-t115/qpsknarrow/fec/ratematch.go:47-53 | Sums over repetitions keep the sign of the bit |
| `Channels.DecodeControl` | internal/std-t115/qpsknarrow/decoder/decoder.go:454-463 | The result is the turbo decoding of the unscrambled, collapsed soft values and the flag its checksum; values that nowhere contradict a repeated scrambled code word decode to its message |
| `Channels.DecodeTraffic` | internal/std-t115/qpsknarrow/decoder/decoder.go:532-550 | The same for the punctured, expanded traffic channel |
| `Channels.ControlRoundTrip` | internal/std-t115/qpsknarrow/decoder/decoder.go:454-463 | A payload with its checksum comes back and passes the check |
| `Walsh.DotTop` | internal/std-t115/qpsknarrow/fec/scramblesearch.go:122-131 | Common bits of two numbers split into top bit and rest |
| `Walsh.TransformIsSum` | internal/std-t115/qpsknarrow/fec/scramblesearch.go:122-131 | The halved recursion is the naive signed sum over all elements |
| `Walsh.ButterflyBlock` | internal/std-t115/qpsknarrow/fec/scramblesearch.go:124-129 | One block of butterflies in place |
| `Walsh.WalshHadamard` | internal/std-t115/qpsknarrow/fec/scramblesearch.go:122-131 | The in-place transform of any power-of-two array is the naive sum at every index |
| `ScrambleSearch.MaskParity` | internal/std-t115/qpsknarrow/fec/scramblesearch.go:14-29 | The parity of a mask with an initial value tells whether its two scrambling bits differ |
| `ScrambleSearch.ScrambleBasis` | internal/std-t115/qpsknarrow/fec/scramblesearch.go:48-54 | The sequences of the sixteen unit initial values |
| `ScrambleSearch.MaskOf` | internal/std-t115/qpsknarrow/fec/scramblesearch.go:19-28 | The mask of a pair of positions |
| `ScrambleSearch.CchRepetitionPairs` | internal/std-t115/qpsknarrow/fec/scramblesearch.go:31-46 | 264 pairs, each of two positions carrying the same coded bit |
| `ScrambleSearch.PairsCount` | internal/std-t115/qpsknarrow/fec/scramblesearch.go:31-46 | One pair for every position beyond the first of its bit |
| `ScrambleSearch.ScoreBound` | internal/std-t115/qpsknarrow/fec/scramblesearch.go:93-120 | No initial value scores more than the total weight |
| `ScrambleSearch.ScoreAttains` | internal/std-t115/qpsknarrow/fec/scramblesearch.go:68-83 | The initial value in use scores the total weight |
| `ScrambleSearch.ScrambleFinder.Add` | internal/std-t115/qpsknarrow/fec/scramblesearch.go:68-83 | The transform of the accumulator stays the score of all frames; wrong lengths change nothing |
| `ScrambleSearch.ScrambleFinder.Reset` | internal/std-t115/qpsknarrow/fec/scramblesearch.go:60-66 | All frames forgotten |
| `ScrambleSearch.FindTop` | internal/std-t115/qpsknarrow/fec/scramblesearch.go:98-107 | First maximum and runner-up |
| `ScrambleSearch.ScrambleFinder.Best` | internal/std-t115/qpsknarrow/fec/scramblesearch.go:93-120 | First nonzero initial value of greatest score, with confidence and prominence; for frames scrambled with one nonzero value the score is the total weight and the confidence 1 |
| `InitUnique.PlacesListed` | internal/std-t115/qpsknarrow/fec/scramblesearch.go:31-46 | The first seventeen repeated bits are sent at places 0, 2, 4, 6, 9 and so on, next to their copies |
| `InitUnique.WeightMeaning` | internal/std-t115/qpsknarrow/fec/scramblesearch.go:68-83 | An equation weighs as much as the fainter of its two values; for equal signs it is not negative, for different ones not positive |
| `InitUnique.EquationsDecide` | internal/std-t115/qpsknarrow/fec/scramblesearch.go:14-29 | Their seventeen equations leave no register content but zero |
| `InitUnique.InitFound` | internal/std-t115/qpsknarrow/fec/scramblesearch.go:93-120 | From frames without a sign error, one of them without a silent position, the search names the initial value in use and no other |
| `MaxFilter.MaximumFilter1D` | internal/std-t86/dsp/slots.go:289-308 | The monotone queue yields the maximum over i-r..i+r |
| `Slots.SlotTracker.SquelchOk` | internal/std-t86/dsp/slots.go:187-194 | Power gate with a decaying reference |
| `Slots.ScanPrefix` | internal/std-t86/dsp/slots.go:196-287 | Later samples never change a decision |
| `Slots.ScanSeparated` | internal/std-t86/dsp/slots.go:232-246 | Bursts come in order and more than the minimum distance apart over the whole stream |
| `Slots.ScanGenuine` | internal/std-t86/dsp/slots.go:232-275 | Every burst is a local maximum above the threshold, described by its own samples |
| `Slots.PeakIsMax` | internal/std-t86/dsp/slots.go:231-236 | The filtered maximum of a segment decides exactly the peaks of the stream |
| `Slots.ScanExact` | internal/std-t86/dsp/slots.go:232-275 | A position has a burst exactly if it is a peak above the threshold with no burst within the least distance before it and, with the squelch on, louder than what the decay leaves of every such peak before |
| `Slots.BurstsExact` | internal/std-t86/dsp/slots.go:232-275 | The same for the whole stream |
| `Slots.PeakHasBurst` | internal/std-t86/dsp/slots.go:232-246 | With the squelch off every peak above the threshold has a burst at it or within the least distance before it |
| `Slots.DecidedAsSoonAsPossible` | internal/std-t86/dsp/slots.go:185 | A position from 552 on is decided exactly when 1160 + 73 samples have come after it |
| `Slots.LevelIsHighest` | internal/std-t86/dsp/slots.go:210-229 | The level is the highest of four correlations and the template the first that reaches it |
| `Slots.SyncMetric` | internal/std-t86/dsp/slots.go:71-93 | One correlation for each full window |
| `Slots.Levels` | internal/std-t86/dsp/slots.go:210-229 | Best level and first best template at every position |
| `Slots.SlotTracker.FinalizedPos` | internal/std-t86/dsp/slots.go:185 | The position up to which everything is decided is a function of the stream length |
| `Slots.SlotTracker.ScanSegment` | internal/std-t86/dsp/slots.go:206-275 | One call scans exactly the new positions |
| `Slots.SlotTracker.Process` | internal/std-t86/dsp/slots.go:196-287 | After any chunks the bursts emitted are those of the stream so far, and they are complete: exactly the eligible peaks, with the squelch on the audible ones; the new ones lie between the old and the new finalized position |
| `Slots.Detect` | internal/std-t86/dsp/slots.go:196-287 | Chunk invariance: any cutting of a stream gives the same bursts, exactly the eligible (audible) peaks of the whole stream |
| `Rounding.RoundHalfEven` | internal/std-t86/decoder/voice.go:122-140 | A nearest integer, the even one of two |
| `Rounding.NearestUnique` | internal/std-t86/decoder/voice.go:122-140 | There is only one such integer |
| `Voice.SettledStays` | internal/std-t86/decoder/voice.go:72-84 | A settled vote is not changed by later bursts |
| `Voice.SameRingIs` | internal/std-t86/decoder/voice.go:45-53 | Two bursts are in the same ring exactly if the rounded slot distances between them add up to a multiple of six |
| `Voice.VoteIsMajority` | internal/std-t86/decoder/voice.go:96-120 | The decision on a burst is yes exactly if, of itself, the last earlier ones of its ring and the first near later ones, more say yes than no |
| `Voice.Unanimous` | internal/std-t86/decoder/voice.go:96-120 | A unanimous ring keeps its value |
| `Voice.NoTwoMajorities` | internal/std-t86/decoder/voice.go:96-120 | Negating every vote never leaves two yes decisions |
| `Voice.OfflineIsMajority` | internal/std-t86/decoder/voice.go:55-94 | Offline, every burst appears once with that decision |
| `Voice.VoiceSmoother.RingOf` | internal/std-t86/decoder/voice.go:45-53 | The ring follows the distance from the previous burst |
| `Voice.VoiceSmoother.Mates` | internal/std-t86/decoder/voice.go:61-70 | The first votes of the same ring within the horizon |
| `Voice.VoiceSmoother.CastVote` | internal/std-t86/decoder/voice.go:96-120 | The decision is yes exactly if the multiset of memory, own vote and mates holds yes more often than no; the memory keeps the last votes |
| `Voice.VoiceSmoother.Push` | internal/std-t86/decoder/voice.go:55-59 | A burst joins the queue, settled ones leave it decided as offline |
| `Voice.VoiceSmoother.Release` | internal/std-t86/decoder/voice.go:72-84 | Every burst that leaves the queue carries its offline vote |
| `Voice.VoiceSmoother.Flush` | internal/std-t86/decoder/voice.go:86-94 | In the end the decisions are the offline decisions on the whole sequence |
| `Voice.Smooth` | internal/std-t86/decoder/voice.go:55-94 | Any interleaving of bursts and releases followed by a flush emits every burst once, in order, with its offline vote, which is the majority of its voters |
| `Broadcast.SpansDisjoint` | internal/std-t86/decoder/broadcast.go:25-27 | Ordered windows share no position |
| `Broadcast.BroadcastTracker.Confirmed` | internal/std-t86/decoder/broadcast.go:68-81 | A good CRC, or enough recent sightings when not strict |
| `Broadcast.BroadcastTracker.CloseOpen` | internal/std-t86/decoder/broadcast.go:127-139 | The open window ends and is kept; order, disjointness and the sixteen kept windows are maintained |
| `Broadcast.BroadcastTracker.OpenWindow` | internal/std-t86/decoder/broadcast.go:111-120 | A new window with the next ID, also one that began earlier |
| `Broadcast.BroadcastTracker.ArmMidJoin` | internal/std-t86/decoder/broadcast.go:141-143 | Forget the headers seen |
| `Broadcast.BroadcastTracker.OnKH` | internal/std-t86/decoder/broadcast.go:145-187 | A window joined late opens at the first active header after the delay; an idle window closes after the close delay; nothing else changes |
| `Broadcast.BroadcastTracker.StartOrRelease` | internal/std-t86/decoder/broadcast.go:102-124 | Start opens, another call closes and reopens, release closes, each at the position of the message |
| `Broadcast.BroadcastTracker.OnControl` | internal/std-t86/decoder/broadcast.go:83-125 | What any message does, header first, in terms of the state before it: late join, idle close, start, other call and release, each with position, target and flags; IDs increase, at most one window is open, all are ordered and disjoint; after a verified start with a call the open window has its call number (or was opened by a verified start without one), after a verified release none is open; the result lists every opening and every end once, and it is free of duplicates if and only if the message does not release a broadcast that its own header joins late |
| `Broadcast.BroadcastTracker.OnHeader` | internal/std-t86/decoder/broadcast.go:88-90 | Headers count only with a good CRC: a late join, an idle close, or nothing |
| `Broadcast.BroadcastTracker.OnStartOrRelease` | internal/std-t86/decoder/broadcast.go:92-125 | A confirmed start opens a window unless one is open for the same call; a confirmed release ends it |
| `Broadcast.BroadcastTracker.HeaderAndAction` | internal/std-t86/decoder/broadcast.go:88-125 | Header and start or release, one after the other, in terms of the state before both |
| `Broadcast.JoinedByItsRelease` | internal/std-t86/decoder/broadcast.go:83-125 | The failing input: an active header at 0 and a release with an active header at 135000; the window is reported twice, both times ended, and never open |
| `BroadcastRuns.IdleRun` | internal/std-t86/decoder/broadcast.go:165-187 | Any series of headers that announce nothing closes the open window at the first one at least 270000 samples after the first of them, and leaves it open if there is none |
| `BroadcastRuns.LateRun` | internal/std-t86/decoder/broadcast.go:145-163 | Any series without a start opens a window exactly if a header comes at least 135000 samples after the first one and all of them announce a broadcast; the window starts at the first one |
| `BroadcastRuns.FreshIsRecent` | internal/std-t86/decoder/broadcast.go:75-79 | Of ascending sightings those within the window are kept |
| `BroadcastRuns.SecondSighting` | internal/std-t86/decoder/broadcast.go:68-81 | A message with a bad CRC counts exactly if the tracker is not strict and the previous one of its kind is at most 180000 samples old |
| `BroadcastRuns.TargetMeaning` | internal/std-t86/control/summary.go:28-75 | All stations are addressed by numbers whose valid bits are all zero, perhaps all by all ones; bits above do not matter |
| `Broadcast.BroadcastTarget` | internal/std-t86/control/summary.go:28-75 | Station numbers in use, reduced to their valid bits: none, all zero (all stations), or some, noting numbers of ones only |
| `Broadcast.ReportsBoth` | internal/std-t86/decoder/broadcast.go:83-125 | Reports of two steps, with multiplicities, add up |
| `Broadcast.BroadcastTracker.RefreshTarget` | internal/std-t86/decoder/broadcast.go:203-217 | A verified description replaces an unverified one once, and is noted when it differs |
| `Broadcast.BroadcastTracker.Abandon` | internal/std-t86/decoder/broadcast.go:189-201 | The open window ends, not before its own start |
| `Broadcast.BroadcastTracker.WindowsDisjoint` | internal/std-t86/decoder/broadcast.go:219-229 | No position lies in two windows |
| `Broadcast.BroadcastTracker.WindowFor` | internal/std-t86/decoder/broadcast.go:219-229 | The one retained window that contains the position |
| `Decoder.StreamingDecoder.AppendVoice` | internal/std-t86/decoder/decoder.go:206-214 | Every event names the kept window that covers its burst, or none if there is none, and never a reported one |
| `Decoder.StreamingDecoder.DecodeControl` | internal/std-t86/decoder/decoder.go:123-141 | The message is recorded; a window it leaves open is announced exactly once and a window it ends waits exactly once, unless the message releases a broadcast its own header joins late: then the window waits twice and is not announced; a changed target is passed on |
| `Decoder.StreamingDecoder.Track` | internal/std-t86/decoder/decoder.go:130-130 | The tracker sees the message; waiting windows, reported windows and credited voice stay in order |
| `Decoder.LedgerMessage` | internal/std-t86/decoder/decoder.go:130-136 | The books stay balanced when the windows of a message are handed out |
| `Decoder.CreditStays` | internal/std-t86/decoder/decoder.go:206-214 | Voice credited to a window stays inside it, whatever messages come later |
| `Decoder.StreamingDecoder.Distribute` | internal/std-t86/decoder/decoder.go:130-136 | Exactly the windows still open go to the result and exactly the others to the backlog, in order |
| `Decoder.StreamingDecoder.EmitVoice` | internal/std-t86/decoder/decoder.go:185-196 | The decisions are appended as voice events in order, each credited to the kept window that covers it |
| `Decoder.StreamingDecoder.PushVoice` | internal/std-t86/decoder/decoder.go:178-179 | A traffic burst is recorded and the votes it settles are emitted and credited |
| `Decoder.StreamingDecoder.HandleBurst` | internal/std-t86/decoder/decoder.go:143-181 | One burst adds exactly its control message or its traffic burst to the result, and every new voice event is credited to the kept window that covers it |
| `Decoder.StreamingDecoder.HandleBursts` | internal/std-t86/decoder/decoder.go:143-181 | All bursts of a call in order |
| `Decoder.StreamingDecoder.Watermark` | internal/std-t86/decoder/decoder.go:216-220 | The minimum of the finalized position and the positions of the waiting bursts; it never lags the finalized position by more than the voice horizon |
| `Decoder.StreamingDecoder.ReleaseEnded` | internal/std-t86/decoder/decoder.go:216-230 | A waiting window is reported exactly if the stream is finalized beyond its end and no waiting burst lies at or before it; none waits more than 16800 samples |
| `Decoder.StreamingDecoder.Feed` | internal/std-t86/decoder/decoder.go:232-248 | No voice event of a call belongs to a window reported before; control messages and traffic bursts are those of the bursts just decided; voice events, announcements and reported ends are exactly what is added to the books, which stay balanced, every event is credited to its window; an ended window is held back exactly if later samples or a waiting burst can still bring voice for it, and never longer than 16800 samples beyond the finalized position |
| `Decoder.StreamingDecoder.Flush` | internal/std-t86/decoder/decoder.go:250-258 | At the end everything left is decided as offline and credited, every waiting window is reported, and the books balance with nothing waiting |
| `Decoder.StreamingDecoder.ResetBroadcast` | internal/std-t86/decoder/decoder.go:91-93 | Giving up a broadcast closes the open window, returns it and books it as given up; everything else stays in order |
| `Decoder.Run` | internal/std-t86/decoder/decoder.go:143-258 | In any run, however the stream is cut: once a window is reported ended no later result carries a voice event with its ID; after every command each window that ended more than 16800 samples before the finalized position has been reported or given up; control messages and traffic bursts are those of the whole stream; every traffic burst gets one voice event, in order, with its offline vote; every window is announced once and then reported once, given up once by the operator, or still open, except that one never announced was joined late and is reported twice; every verified start in a control slot lies in a window that is announced or reported; and voice events name a window that covers them, and do name it if it was not joined late and at most fifteen windows came after it |
| `Decoder.NoEndIsLost` | internal/std-t86/decoder/decoder.go:123-258 | In balanced books every announced window is reported as ended, was given up, or is still open, and only one of these |
| `Decoder.LedgerConserves` | internal/std-t86/decoder/decoder.go:123-258 | The books of the decoder balance in terms of the windows in the results |
| `Decoder.AnswersShown` | internal/std-t86/decoder/decoder.go:123-258 | Every verified start lies in an announced or reported window |
| `Decoder.TimelyNow` | internal/std-t86/decoder/decoder.go:216-230 | With balanced books and no end waiting beyond the horizon, every window that ended more than 16800 samples before the finalized position is reported or given up |
| `Decoder.TimelyShown` | internal/std-t86/decoder/decoder.go:216-248 | After every single command of a run this holds for the windows in the results |
| `Decoder.CarriedMembers` | internal/std-t86/decoder/decoder.go:143-181 | Exactly the bursts with the traffic sync word that are not signalling are traffic; exactly the messages of the other bursts and of signalling slots are control |
| `Filters.ShiftIn` | internal/std-t86/dsp/filter.go:46-50 | The new sample meets one tap, the others see older samples |
| `Filters.FIRState.Step` | internal/std-t86/dsp/filter.go:44-52 | The delay line shifted in place holds the upper partial sums |
| `Filters.FIRState.Process` | internal/std-t86/dsp/filter.go:40-54 | The outputs are the direct convolution of the whole stream, for any chunks |
| `Filters.PositionsStep` | internal/std-t86/dsp/filter.go:114-114 | The next multiple of the factor |
| `Filters.PhaseAfter` | internal/std-t86/dsp/filter.go:125-126 | The phase kept for the next chunk points at the next multiple |
| `Filters.Decimator.Process` | internal/std-t86/dsp/filter.go:100-128 | The outputs so far are the filtered samples at the multiples of the factor, also for chunks shorter than phase or taps; factor 1 passes samples through |
| `Filters.SlidingDecimator.Process` | internal/std-t115/qpsknarrow/dsp/filter.go:72-98 | The outputs so far are the filtered samples at those multiples whose taps all lie in the stream |
| `Filters.DecimateChunks` | internal/std-t86/dsp/filter.go:100-128 | Both decimators depend on the stream only, not on its chunks |
| `Multiplex.AdaptivePlacement` | internal/std-t86/scodec/multiplex.go:19-40 | Fails exactly if some prefix of the codes is longer than the frame; otherwise places each code at its end |
| `Multiplex.OverflowIsSum` | internal/std-t86/scodec/multiplex.go:35-37 | For lengths that are not negative: exactly if their sum is |
| `Multiplex.PlacesAlternate` | internal/std-t86/scodec/multiplex.go:19-40 | Where the codes are: those that reach the protected length one after the other from the front, then in turns at the end and at the front, each next to the one before the last |
| `Multiplex.PlacementIsSound` | internal/std-t86/scodec/multiplex.go:19-40 | All placements lie in the frame and no two overlap |
| `Multiplex.AdaptiveMultiplex` | internal/std-t86/scodec/multiplex.go:42-56 | The frame carries every code at its place, zero elsewhere |
| `Multiplex.AdaptiveSeparate` | internal/std-t86/scodec/multiplex.go:58-68 | The pieces of a frame that carries codes are those codes |
| `Multiplex.ToStandardOrder` | internal/std-t86/scodec/multiplex.go:70-80 | They come out one after the other |
| `Multiplex.RoundTrip` | internal/std-t86/scodec/multiplex.go:42-80 | Separation undoes multiplexing whenever the codes fit |
| `Conceal.OneCycle` | internal/std-t86/scodec/conceal.go:145-153 | Six consecutive slots meet every ring once |
| `Conceal.Cycles` | internal/std-t86/scodec/conceal.go:179-185 | Whole cycles count as a product |
| `Conceal.CountIs` | internal/std-t86/scodec/conceal.go:155-166 | The count of a ring is the number of its sightings in the history |
| `Conceal.FirstIs` | internal/std-t86/scodec/conceal.go:155-166 | Its first position is that of the earliest of them |
| `Conceal.LastIs` | internal/std-t86/scodec/conceal.go:155-166 | Its last position is that of the latest of them |
| `Conceal.VoiceSlotsAre` | internal/std-t86/scodec/conceal.go:179-185 | The slots counted are exactly those after the last burst whose ring, six to a cycle, carries voice |
| `Conceal.SlotGapTracker.IsVoiceRing` | internal/std-t86/scodec/conceal.go:130-143 | The table entry of a ring says what the history of sightings says |
| `Conceal.SlotGapTracker.Observe` | internal/std-t86/scodec/conceal.go:155-166 | Counts, first and last position of a ring |
| `Conceal.SlotGapTracker.MissingBefore` | internal/std-t86/scodec/conceal.go:179-185 | Product and remainder loop give the number of voice slots strictly between two bursts |
| `Conceal.SlotGapTracker.Step` | internal/std-t86/scodec/conceal.go:168-190 | The capped number of missing voice slots; the ring stays in 0..5; bursts that do not advance change nothing |

## Left out

- Conv.ViterbiDecode: for constraint length 1 the program's trellis has one state and only the zero input, so the result does not hold there (`OneStateFails`); more than sixteen polynomials do not fit its 16-bit table words (`WordTooShort`). Both are excluded, as is a block of 2^30 coded bits or more, where the sentinel could be reached.
- Turbo.TurboDecode: block lengths above 5160 are excluded; the prime table ends there and the program stops. With zero iterations and a nonempty block the program has no extrinsic values to add and stops, so at least one is demanded.
- Interleaver.TurboInterleaver: block lengths above 5160, as above.
- Slots.SlotTracker.Process: the squelch switch and the threshold are fixed for a run; bursts carry power instead of its logarithm, and the error vector magnitude, a function of the slot, is not stored. The final sort by position is left out because the bursts are proved to be in order; the two tests for a burst at the very start of the buffer and for a slot that cannot be cut out are left out because they are proved never to apply.
- Decoder.Run: the seed is fixed and not zero. Automatic seed detection replays earlier control slots and holds voice back without regard to the watermark; that path is not part of this model. A run ends with its flush.
- Decoder.StreamingDecoder.Feed: takes baseband samples; frequency correction, resampling and the counters of the result (sync words, error vectors, slots) are not part of this model.
- Broadcast.BroadcastTracker.OnControl: positions do not decrease, as in a run with a fixed seed. Fields of messages that the tracker does not read are one opaque component; the label of a target, which repeats kind and numbers, is left out.
- SeedSearch.SeedSearcher.Push: weights are unbounded integers, so the overflow of 64-bit sums is not modelled; blocks longer than 375 bits, which overrun the program's three words, are excluded.
- SeedSearch.SeedSearcher.Order: the library's stable sort is modelled by insertion.
- Filters.FIRState.Process: at least two taps; with one the program's delay line is empty and it stops.
- Floating-point rounding, NaN and infinities from the radio; FFT, oscillators, timing recovery, resampling, filter design and symbol slicing.
- How many errors the punctured speech code corrects.
- The scoring of seed candidates by checksums and message types (internal/std-t86/control/seed.go).
- Message field tables and city codes: fixed lookups with one branch for each entry.
- The span estimator and the frame repeater of internal/std-t86/scodec/conceal.go and the gapped slot decoder: short loops that would add easy members.
- Servers, recorders, user interface, file and network sources, and the external speech decoders.
