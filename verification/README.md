# Jerasure and Mojette, verified

A Dafny model of the erasure-coding library Jerasure 1.2 (`jerasure/`), of its incremental variant, and of the
Mojette transform in `transform.c`, with proofs of what they are for: encoding, losing devices and decoding gives
back what was there, for every width, every number of devices and every data set the code supports.

`dafny verify dfyconfig.toml` verifies everything.

## How it is built

One small theory carries the rest. `Fields` is a record of field operations, with laws named one instance at a
time; `LinearAlgebra` has vectors and matrices over it; `RowReduction` is elimination on values. GF(2) is the
instance `F2`; GF(2^w) is the instance `GF(g)` of module `LogTables`, where a word is the sequence of its w bits,
lowest first, and g holds the low w bits of the primitive polynomial.

- XOR schedules: `Schedules` is a machine of packets and copy or xor operations; `SpanningPlans` the exchange
  argument for minimum cost plans; `Compilers` the dumb and the smart compiler; `Buffers` ties byte buffers, stripe
  by stripe, to the machine; `SourceDevices` and `Encoders` the three encoders.
- Inversion and scheduled decoding: `Elimination`, `Erasures`, `DecodingTheory`, `ScheduledDecoding`, `Codewords`,
  `Recovery`, `ScheduledRecovery`. When it cannot work: `DecodingLimits`, on packets, and `RecoveryLimits`, on buffers.
- Decoding with a bitmatrix and no schedule: `DotRecovery`, `BitmatrixRecovery`, `BitmatrixDecoding`.
- Encoding, losing devices and decoding in one run: `RoundTrips`.
- RAID-6 codes: `RaidSix`, `RaidSixLayout`, `RaidSixKernels`, `Residues`, `Liberation`, `LiberationCode`, `BlaumRoth`,
  `BlaumRothCode`.
- Field arithmetic: `Galois`, `LogTables`, `ShiftInverse`, `SplitTables`, `Expansion` and `ExpandedOnes` (the bitmatrix
  of a matrix).
- Matrix codes: `MatrixEncoding`, `MatrixDecoding`, `Polynomials`, `Independence`, `Vandermonde`,
  `Interpolation`, `Distribution`, `Cauchy`, `CauchyOnes`, `CauchyImprove`, `Incremental`, `PackedDoubling`, `RaidSixEncode`, `TwoParities`.
- Mojette: `Mojette`, `MojetteInverse`.

Code that works in place is modelled by methods over arrays, each proved against a function or a predicate on the
old and the new contents. A matrix that the library keeps in one `int` array, row after row, is an `array2`, except
in the RAID-6 constructions, whose point is the index that walks through the flat array.

The main results chain together: the Liberation, Blaum-Roth, Vandermonde and Cauchy results discharge the condition
under which scheduled decoding (`Decodable`), bitmatrix decoding (`BitmatrixDecodable`) and matrix decoding
(`MatrixDecodable`) restore every buffer, and `RoundTrips` runs construction, encoder, loss and decoder one after
the other.

## What the code relies on

- Erasure lists have no repeats in scheduled decoding, because the counts of lost devices count list entries.
- Smart scheduling needs at least one row, so smart decoding needs at least one loss.
- Buffer sizes are multiples of the word size and of w times the packet size, and buffers are distinct.
- A coding row without a nonzero entry leaves its device untouched in every encoder and every decoder, which still
  return 0. A lost device of that kind is restored if and only if its buffer held zeros (`ClearBuffers`, `StaleZero`).
  All constructions here have nonzero coding rows.
- The result of the inversion at `jerasure/jerasure.c:1015` is not looked at, so scheduled decoding also returns 0 when
  the survivor matrix is singular. It restores every codeword, whatever the lost buffers hold, if and only if that
  matrix is nonsingular and no lost coding row is zero (`RecoveryLimits.ScheduleExact`); for one run the condition is
  `RecoveryLimits.DecodedExactly`. `RecoveryLimits.SingularExample` is a code and a loss on which it fails.
- The Mojette inverse needs q = 1, distinct slopes, at least as many projections as rows, enough bins, and offsets of
  at most one row's length. The last one is shown to be exactly what keeps the first phase inside the image.
- `jerasure_matrix_decode` looks at the flag of the first coding device whenever the caller promises an all-ones row,
  so that promise includes m > 0.

Where code and comments differ the code is followed: `jerasure/jerasure.h` describes a schedule entry with another
layout than the one `jerasure/jerasure.c:1516-1521` writes (source device and packet, destination device and packet,
xor flag). In the incremental encoder a zero coefficient for the first disk leaves the coding buffer uninitialised;
`Incremental.IncrementalIsFull` says exactly when a full run agrees with one-shot encoding all the same, and
`Incremental.StaleExample` is an input on which it does not.

## Model

| member | source | states |
|---|---|---|
| Schedules.EmitRuns | jerasure/jerasure.c:1508-1570 | operations emitted for any order in which every from row comes earlier and no row repeats, run on any packets, leave exactly the listed coding packets equal to their rows times the data, and touch nothing else |
| Compilers.DumbBitmatrixToSchedule | jerasure/jerasure.c:1408-1441 | the emitted list computes the bitmatrix on every packet state, has one operation per one bit, and fits the k*m*w*w+1 slots with its end mark |
| Compilers.InitRows | jerasure/jerasure.c:1464-1487 | the first pass links all rows, records their popcounts and finds the least |
| Compilers.Unlink | jerasure/jerasure.c:1494-1506 | flink, blink and top hold the same rows in the same order, without the one taken out |
| Compilers.Relax | jerasure/jerasure.c:1571-1587 | after a row is done, diff and from describe the cheapest edge from the done rows, or from scratch, to every row still on the list, and bestrow is the least of them |
| Compilers.SmartStep | jerasure/jerasure.c:1489-1588 | one turn of the loop keeps: the list is exactly the unscheduled rows, every from row is done, the operations so far emit the rows done, and no plan beats the partial one |
| Compilers.SmartBitmatrixToSchedule | jerasure/jerasure.c:1443-1598 | the schedule computes the bitmatrix, fits its array, and no acyclic plan (each row from scratch for its popcount, or from one other row for 1 plus the Hamming distance) has fewer operations |
| SpanningPlans.Reroot | jerasure/jerasure.c:1571-1587 | exchange step: any plan for the open rows can be turned around to hang from the cheapest row, the edge it gives up paying for that row |
| SpanningPlans.SpentBound | jerasure/jerasure.c:1456 | while no plan beats what has been spent, that stays within the number of ones, so the operations fit their array |
| Encoders.DoScheduledOperations | jerasure/jerasure.c:1362-1389 | running the operations on the buffers is the run of the abstract packet machine on one stripe, and stops at the end mark |
| Buffers.PacketBit | jerasure/jerasure.c:1367-1386 | one operation copies every bit of the source packet, or xors it in when its flag says so |
| Encoders.ScheduleEncode | jerasure/jerasure.c:1391-1406 | a schedule that computes a bitmatrix leaves every stripe and bit of all buffers encoded with it |
| Encoders.BitmatrixDotprod | jerasure/jerasure.c:434-492 | for any destination, data or coding, and with or without source ids: every stripe runs, for each of the w packets of the device, a copy of the first packet with a one in its row and a xor of each later one; no other device is written |
| DotRecovery.DotDevice | jerasure/jerasure.c:434-492 | when the device is not among its own sources, that run leaves each of its packets equal to its row times the packets of the sources, or as it was when the row has no ones, and no other device changes |
| Encoders.BitmatrixEncode | jerasure/jerasure.c:1600-1622 | direct encoding leaves every stripe and bit encoded with the bitmatrix |
| Encoders.EncodersAgree | jerasure/jerasure.c:1391-1622 | the encoded buffers are determined by the buffers before, so smart, dumb and direct encoding leave identical ones |
| Codewords.EncodingGivesCodewords | jerasure/jerasure.c:1391-1622 | with a one in every row the encoded buffers are a codeword at every stripe and bit, which is where the decoders start |
| Codewords.EncodedBit | jerasure/jerasure.c:1362-1406 | bit x of coding device i of encoded buffers, by positions alone: with y = x / packetsize mod w, it is row i w + y of the bitmatrix times the bits equally far into the data packets, or what it was when that row is zero |
| Buffers.SameViews | jerasure/jerasure.c:1400-1404 | buffers that show the same packets at every stripe and bit are equal: packets cover the buffers |
| Elimination.InvertMatrix | jerasure/jerasure.c:508-611 | returns 0 exactly when the matrix is nonsingular, and then inv undoes it on either side |
| Elimination.InvertBitmatrix | jerasure/jerasure.c:1216-1287 | returns 0 exactly when the bitmatrix is nonsingular, and then inv undoes it on either side |
| Elimination.Invertible | jerasure/jerasure.c:613-680 | returns 1 exactly when the matrix is nonsingular; at GF(2) this is also the bitmatrix version at lines 1289-1329 |
| RowReduction.AddRowKeepsSystem | jerasure/jerasure.c:561-588 | adding a multiple of one row to another in both matrices keeps the solutions of the recorded system |
| RowReduction.NoPivotMeansSingular | jerasure/jerasure.c:535-536 | a column without a pivot gives a nonzero vector that the original matrix sends to zero |
| RowReduction.ClearedGivesInverse | jerasure/jerasure.c:591-610 | when all columns are cleared the record is a two-sided inverse |
| Erasures.ErasuresToErased | jerasure/jerasure.c:685-713 | null exactly when more than m different devices are listed; otherwise the flags are exactly the listed devices |
| Erasures.SetUpIds | jerasure/jerasure.c:902-953 | -1 and untouched arrays exactly when more than m different devices are listed; otherwise row_ids names the device behind every pointer and ind_to_row finds every lost device |
| Erasures.SetUpPtrs | jerasure/jerasure.c:839-900 | null exactly when more than m different devices are listed; otherwise the pointers are those of the named devices, in the same order as the ids |
| Erasures.RowIdsDistinct | jerasure/jerasure.c:857-869 | no device is behind two pointers, and every lost device is behind one of the later ones |
| Erasures.RowIdsInOrder | jerasure/jerasure.c:854-953 | surviving data devices stand in their own place, lost ones take the surviving coding devices in increasing order leaving none out, and the lost devices follow in increasing order |
| Erasures.CountsMatch | jerasure/jerasure.c:846-852 | counting the entries of a list without repeats counts the lost devices |
| DecodingTheory.DecodingIsEncoding | jerasure/jerasure.c:982-1105 | encoding what the survivors hold with a matrix whose rows each recover their packet gives every lost packet |
| DecodingTheory.MaskNext | jerasure/jerasure.c:1076-1081 | adding the decoding row of a lost column, where the coding row has a one, moves the recovered combination one column towards the coding row |
| DecodingLimits.RestoringNeeds | jerasure/jerasure.c:982-1105 | no matrix whatever restores every codeword unless the survivor matrix is nonsingular and no lost coding row is zero |
| DecodingLimits.DecodingMatrixExact | jerasure/jerasure.c:982-1105 | the matrix the library makes restores every codeword, whatever the lost packets held, if and only if the survivor matrix is nonsingular and no lost coding row is zero |
| ScheduledDecoding.BuildSurvivorMatrix | jerasure/jerasure.c:996-1013 | the matrix to invert has the generator row of every packet that is read |
| ScheduledDecoding.StartCodingBlock | jerasure/jerasure.c:1048-1061 | the rows of a lost coding device start as its coding rows with the columns of the lost data devices zeroed, and no other row changes |
| ScheduledDecoding.FixCodingBlock | jerasure/jerasure.c:1065-1086 | xoring in the decoding rows of the lost columns makes each row of a lost coding device recover its packet |
| ScheduledDecoding.BuildDecodingMatrix | jerasure/jerasure.c:987-1087 | every row of the combined matrix recovers the packet it is for when the survivor matrix is nonsingular |
| ScheduledDecoding.GenerateDecodingSchedule | jerasure/jerasure.c:955-1105 | the schedule, smart or dumb, computes the combined decoding matrix |
| Recovery.Recovered | jerasure/jerasure.c:1125-1129 | for a nonsingular survivor matrix: over all stripes and bits the schedule turns what the survivors hold into what the listed devices held, if and only if the packets it never writes are zero already |
| ScheduledRecovery.ScheduleDecodeLazy | jerasure/jerasure.c:1107-1135 | -1 and untouched buffers exactly for more than m losses; otherwise 0, and the buffers are those the schedule makes. They are the lost devices of every codeword that agrees with what was read if and only if the survivor matrix is nonsingular and the packets never written were zero; survivors keep their contents in any case |
| ScheduledRecovery.GenerateScheduleCache | jerasure/jerasure.c:1177-1214 | null unless m is 2; every pair of devices, in either order, and every single one has a schedule that decodes it |
| ScheduledRecovery.ScheduleDecodeCache | jerasure/jerasure.c:1137-1173 | one or two losses in either order are decoded from the cache with the same exact outcome; longer lists are refused untouched |
| RecoveryLimits.DecodedExactly | jerasure/jerasure.c:1015 | one run: the decoded buffers hold the lost devices of every codeword that agrees with the survivors if and only if the survivor matrix is nonsingular and the packets never written were zero |
| RecoveryLimits.ScheduleExact | jerasure/jerasure.c:1015 | all runs: a decoding schedule gives back every codeword from all buffers that agree with it on the survivors if and only if the survivor matrix is nonsingular and no lost coding row is zero |
| RecoveryLimits.SingularExample | jerasure/jerasure.c:1107-1135 | the input: bitmatrix [1 0], data device 1 lost; two codewords that differ there leave the same buffers, so 0 is returned with a wrong device for one of them |
| RoundTrips.EncodeLoseDecode | jerasure/jerasure.c:1107-1622 | encode, overwrite up to m devices with anything, decode: 0, the data devices as before and the coding devices as encoded, for every bitmatrix with a one in each row and a nonsingular survivor matrix |
| RoundTrips.LiberationRoundTrip | jerasure/liberation.c:43-76 | which the Liberation code does for every odd prime w, k up to w and any one or two losses |
| RoundTrips.BlaumRothRoundTrip | jerasure/liberation.c:194-248 | and the Blaum-Roth code for every w > 1 with w + 1 prime, k up to w and any one or two losses |
| RoundTrips.CauchyRoundTrip | jerasure/cauchy.c:117-133 | and the bitmatrix of the Cauchy code for any up to m losses |
| BitmatrixDecoding.MakeDecodingBitmatrix | jerasure/jerasure.c:131-180 | the generator rows of the first k survivors are inverted, or found singular |
| BitmatrixRecovery.ParityDevice | jerasure/jerasure.c:806-818 | the identity rows over the other data devices and the parity device give every packet of the device left out |
| BitmatrixDecoding.BitmatrixDecode | jerasure/jerasure.c:745-836 | -1 with no buffer changed exactly for more than m losses or, where an inverse is needed, a singular survivor matrix; a device not listed is never changed; otherwise 0, and from a codeword all buffers hold it again if and only if the packets never written were zero |
| BitmatrixDecoding.SameDecodable | jerasure/jerasure.c:131-1015 | it works for the same losses as scheduled decoding, which reads other rows in another order |
| Mojette.KOffsetConvex | transform.c:105-112 | the largest offset is at one of the two ends |
| Mojette.KOffsetNonnegative | transform.c:106 | no offset is negative, by the choice made for the last row |
| Mojette.OneUnknown | transform.c:121-122 | when a row takes its next pixel, every other row crosses the line of that bin outside the unknown part of the image |
| Mojette.FirstPhaseInside | transform.c:116-145 | the first phase, which does not look at the right edge, stays inside the image if and only if the largest offset is at most cols |
| Mojette.BinIsSum | transform.c:36-57 | pixel (l, c) is on the line of bin c + l p, counted from the least such sum of column 0 |
| Mojette.TransformForward | transform.c:29-64 | every bin is the xor of the pixels on its line |
| MojetteInverse.SortBySlope | transform.c:86 | the projections in decreasing order of slope, none lost or added |
| MojetteInverse.RebuildPixel | transform.c:118-129 | one step writes the right pixel at the front and removes it from every projection |
| MojetteInverse.TransformInverse | transform.c:78-211 | from bins that hold the transform of an image, the image is rebuilt, all indices stay in range, and every bin of the projections used ends at zero |
| MojetteInverse.RoundTrip | transform.c:29-211 | the inverse of the forward transform is the identity on every image |
| RaidSix.RaidSixDecodable | jerasure/liberation.c:43-76 | a row of identities above blocks that are nonsingular, singly and in sums of two, gives a nonsingular survivor matrix for every loss the coding devices can replace |
| RaidSix.RaidSixNonzero | jerasure/liberation.c:43-76 | with block 0 the identity no coding packet is always zero |
| RaidSixLayout.SetUpIdentities | jerasure/liberation.c:54-60 | the walking index sets exactly the diagonals of the identity blocks |
| Liberation.LiberationCodingBitmatrix | jerasure/liberation.c:43-76 | null exactly when k > w; otherwise every bit of the stored array by its index: identities for the first coding device; for the second, in row y of block j, bit (j + y) mod w, and for odd w and j > 0 bit (y + j - 1) mod w exactly when w divides 2y + j |
| Liberation.ExtraRowMeans | jerasure/liberation.c:70-71 | for odd w, row y is j(w-1)/2 mod w exactly when w divides 2y + j |
| LiberationCode.PairArcs | jerasure/liberation.c:64-74 | walking in steps of j - i, a kernel vector of the sum of two blocks is constant on two arcs that differ by the extra bit |
| LiberationCode.LiberationTwoErasures | jerasure/liberation.c:43-76 | for every odd prime w and k up to w, every block and every sum of two blocks is nonsingular |
| LiberationCode.LiberationDecodable | jerasure/liberation.c:43-76 | so scheduled decoding restores every loss of at most two devices |
| BlaumRoth.BlaumRothCodingBitmatrix | jerasure/liberation.c:194-248 | null exactly when k > w; otherwise every bit of the stored array by its index: identities for the first coding device; for the second, row y of block j has bit (y + 1 + j) mod (w + 1) - 1, or, where that remainder is 0, bit j - 1 and bit h - 1 with h half of j modulo w + 1 |
| BlaumRothCode.ArcsAreZero | jerasure/liberation.c:223-243 | two constant arcs with a zero on each, at the halves of i and j, leave nothing |
| BlaumRothCode.BlaumRothTwoErasures | jerasure/liberation.c:194-248 | for every w > 1 with w + 1 prime and k up to w, every block and every sum of two blocks is nonsingular |
| BlaumRothCode.BlaumRothDecodable | jerasure/liberation.c:194-248 | so scheduled decoding restores every loss of at most two devices |
| Galois.MulLaws | jerasure/galois.c:291-319 | shift multiplication is commutative, associative, distributive and has unit 1, for every width and polynomial |
| Galois.ShiftMultiply | jerasure/galois.c:291-319 | the loops compute the sum of the doublings of y picked by the bits of x |
| LogTables.CreateLogTables | jerasure/galois.c:152-191 | completes exactly when w is at most 30 and no two of the first 2^w - 1 powers of 2 agree; then log and the triplicated ilog are inverse to each other, log[1] is 0 and log[2^i] is i for every i below w |
| LogTables.NumHalf | jerasure/galois.c:173-182 | the integer a word stands for has its bit 0 as remainder by 2 and the word of the other bits as half |
| LogTables.NumDouble | jerasure/galois.c:181-182 | times 2 in the field is the shift of that integer and, when the top bit falls out, the xor with the polynomial |
| LogTables.EveryPower | jerasure/galois.c:173-184 | distinct powers of 2 are all nonzero words |
| LogTables.PowersReturn | jerasure/galois.c:173-184 | and the next power is 1 again |
| LogTables.LogtableMultiply | jerasure/galois.c:193-203 | adding logarithms stays inside the table and is shift multiplication |
| LogTables.LogtableDivide | jerasure/galois.c:205-216 | no value exactly for divisor 0; otherwise the quotient times the divisor is the dividend |
| LogTables.GFValid | jerasure/galois.c:152-319 | whenever the tables can be built the words form a field |
| ShiftInverse.InvertBinaryMatrix | jerasure/galois.c:551-596 | gives up exactly on singular matrices, else inv is a two-sided inverse, although the second stage never updates mat |
| ShiftInverse.ShiftInverse | jerasure/galois.c:606-626 | gives up exactly on words without an inverse, else the result times y is 1 |
| ShiftInverse.NonzeroHasInverse | jerasure/galois.c:606-626 | in the field those are all words but zero |
| SplitTables.PlaceProduct | jerasure/galois.c:773-788 | a product of placed bytes depends only on the sum of their places |
| SplitTables.CreateSplitTables | jerasure/galois.c:757-790 | seven tables hold the byte products of every place from 0 to 6 |
| SplitTables.SplitMultiply | jerasure/galois.c:792-810 | sixteen table entries add up to the shift product of the two words |
| Expansion.MatrixToBitmatrix | jerasure/jerasure.c:294-327 | bit (i w + l, j w + x) is bit l of element (i, j) doubled x times |
| Expansion.ExpandedProduct | jerasure/jerasure.c:294-327 | a bitmatrix row times the bits of the data is that bit of the matrix row times the data |
| Expansion.BlockOfProduct | jerasure/jerasure.c:313-321 | the block of a product is the product of the blocks |
| Expansion.ExpandedDecodable | jerasure/jerasure.c:294-327 | if any k devices of a matrix code determine the data, the survivor matrix of its bitmatrix is nonsingular for every recoverable loss |
| Expansion.ExpandedNonzero | jerasure/jerasure.c:294-327 | and no coding packet is always zero |
| ExpandedOnes.RowOnesExpanded | jerasure/cauchy.c:75-115 | what cauchy_n_ones counts for the elements of a matrix row is the number of ones in its w bitmatrix rows |
| MatrixEncoding.MatrixDotprod | jerasure/jerasure.c:347-431 | copying or xoring the ones first and multiplying the rest after them gives the product of the row with the sources; a zero row leaves the target as it was |
| MatrixEncoding.MatrixEncode | jerasure/jerasure.c:329-345 | every coding device with a nonzero row holds its product with the data, and nothing else changes |
| MatrixDecoding.EncodingGivesCodeword | jerasure/jerasure.c:329-345 | encoding with nonzero rows gives a codeword |
| MatrixDecoding.MakeDecodingMatrix | jerasure/jerasure.c:91-129 | the rows of the first k survivors are inverted, or found singular |
| MatrixDecoding.FirstSurvivorsExact | jerasure/jerasure.c:96-104 | those are listed in increasing order and no survivor before the last of them is left out |
| MatrixDecoding.ParityRecovers | jerasure/jerasure.c:264-275 | the all-ones row over the other data devices and the parity device gives the one left out |
| MatrixDecoding.MatrixDecode | jerasure/jerasure.c:181-291 | returns 0 exactly when w is 8, 16 or 32, at most m devices are lost and the decoding matrix, if one is needed, exists; on -1 no buffer has changed; a device not listed is never changed; on 0, from a codeword, every device holds it again but for a lost device with a zero row, which keeps what it held, and so all hold it if and only if those held zeros |
| MatrixDecoding.ExpectedIsRight | jerasure/jerasure.c:255-284 | what decoding leaves is the codeword if and only if the lost devices with zero rows held zeros |
| MatrixDecoding.StaleExample | jerasure/jerasure.c:279-284 | the input: a zero coding row whose device is lost and holds something; 0 is returned and it still does |
| RoundTrips.MatrixRoundTrip | jerasure/jerasure.c:181-345 | encode, overwrite up to m devices with anything, decode: 0 and all devices as encoded, for every matrix any k of whose devices determine the data |
| Independence.AnyRowsAlwaysDecode | jerasure/jerasure.c:181-247 | when any k rows are independent, decoding never fails for want of an inverse and every lost coding device is written |
| Independence.AddColumnKeepsAnyRows | jerasure/reed_sol.c:308-319 | adding a multiple of one column to another keeps any cols rows independent |
| Independence.ScaleColumnKeepsAnyRows | jerasure/reed_sol.c:293-300 | so does scaling a column by a nonzero element |
| Independence.SwapKeepsAnyRows | jerasure/reed_sol.c:281-289 | so does swapping two rows |
| Independence.ScaleRowKeepsAnyRows | jerasure/reed_sol.c:338-349 | so does scaling a row by a nonzero element |
| Independence.CodingNonzero | jerasure/reed_sol.c:324-349 | no entry below the identity is zero, so no division by zero occurs |
| Vandermonde.ExtendedVandermonde | jerasure/reed_sol.c:227-255 | null exactly when there are more rows or columns than field elements; otherwise row 0 is 1, 0, ..., 0, the last row 0, ..., 0, 1, and a row between starts with 1 and each entry is the one before times the row number |
| Vandermonde.VandermondeAnyRows | jerasure/reed_sol.c:227-255 | any cols rows of the extended matrix are independent |
| Vandermonde.IntegersArePoints | jerasure/reed_sol.c:247-253 | the row numbers are distinct field elements, 0 being zero |
| Distribution.PivotExists | jerasure/reed_sol.c:272-279 | a row with a nonzero entry in column i is always found |
| Interpolation.PivotHere | jerasure/reed_sol.c:272-289 | the entry on the diagonal is never zero when its turn comes, so the first pivot found is always row i and no rows are swapped |
| Interpolation.EntryInterpolates | jerasure/reed_sol.c:291-320 | once the top is the identity, entry (r, j) is the ratio of two values of the polynomial whose roots are the row numbers below cols other than j: at row number r (for the last row its leading coefficient) and at row number j |
| Distribution.EntriesFixed | jerasure/reed_sol.c:322-349 | dividing the columns by row cols and the rows by column 0 leaves the entries of the closed form |
| Distribution.LowEntriesUnique | jerasure/reed_sol.c:257-352 | which only one matrix has |
| Distribution.BigVandermonde | jerasure/reed_sol.c:257-352 | null exactly for too few or too many rows; otherwise identity on top, row cols all ones, column 0 of all coding rows ones, and every entry below the identity is fixed by the row numbers: times (r + j) c it is (c + j) r, for c = cols in the field, and in the last row times c it is c + j |
| Distribution.VandermondeCodingMatrix | jerasure/reed_sol.c:63-84 | null exactly for m = 0 or too many devices; otherwise any k devices are independent, row 0 and column 0 are ones, and entry (i, j) times (k + i + j) k is (k + j) (k + i) in the field, in the last row times k it is k + j |
| Cauchy.CauchyAnyRows | jerasure/cauchy.c:117-150 | any k devices of the code with entries 1 / (X[i] + Y[j]) determine the data |
| Cauchy.AtCoding | jerasure/cauchy.c:117-133 | at X[i] the polynomial of a vector x is a product times the coding row i times x |
| Cauchy.CauchyOriginal | jerasure/cauchy.c:117-133 | null exactly when there are more devices than words; otherwise entry (i, j) times the xor of the integers i and m + j is 1, and any k devices determine the data |
| Cauchy.CauchyXyMatrix | jerasure/cauchy.c:135-150 | an entry has no quotient exactly when X[i] equals Y[j], and else times their sum is 1; for distinct points it is the Cauchy matrix |
| CauchyOnes.XorOnes | jerasure/cauchy.c:106-108 | adding the reduction word changes the popcount by the balance of its bits in the sum |
| CauchyOnes.CauchyNOnes | jerasure/cauchy.c:75-115 | the running count is the number of ones in the w by w block of the element |
| CauchyImprove.BestDivisor | jerasure/cauchy.c:169-185 | the first position whose entry as divisor leaves the fewest ones, every earlier one leaving strictly more, and none exactly when no division leaves fewer than the row itself |
| CauchyImprove.DividedTimes | jerasure/cauchy.c:157-166 | after the column phase every entry times the old entry of row 0 is the old entry |
| CauchyImprove.BestRowUnique | jerasure/cauchy.c:169-191 | what the row phase makes of a row is determined by the row |
| CauchyImprove.ImproveCodingMatrix | jerasure/cauchy.c:152-193 | any k devices still determine the data, row 0 is all ones, and every other row is what the column phase left, unless some division has strictly fewer ones, and then its division by the first of the best divisors |
| ExpandedOnes.ImprovedSchedule | jerasure/cauchy.c:152-193 | so the row phase never lengthens the dumb schedule of the bitmatrix |
| Incremental.IncrementalDotprod | jerasure/jerasure_incr.c:658-804 | without source ids one disk is folded in; with them it is the product of the full library |
| Incremental.IncrementalEncode | jerasure/jerasure_incr.c:641-656 | folds one disk into every coding buffer |
| Incremental.FoldRunAt | jerasure/jerasure_incr.c:641-804 | after every step of a run over disks in any order, a coding buffer is its row times the folded disks with zeros elsewhere, plus its old contents when the first coefficient is zero |
| Incremental.IncrementalIsFull | jerasure/jerasure_incr.c:641-804 | after a full run in any order a coding buffer is what the one-shot encoder leaves if and only if the first coefficient folded is nonzero, the buffer held zeros, or the whole row is zero |
| Incremental.StaleExample | jerasure/jerasure_incr.c:658-804 | the input: a row 0 c with c nonzero and a buffer that holds something; the run and the one-shot encoder disagree |
| PackedDoubling.SpreadBit | jerasure/reed_sol.c:146-149 | the subtraction spreads the top bit of each lane over that lane and lets no borrow into the next |
| PackedDoubling.LaneDoubled | jerasure/reed_sol.c:90-198 | one packed step doubles every lane by itself, for lanes of 8, 16 and 32 bits |
| PackedDoubling.CopyToLanes | jerasure/reed_sol.c:120-126 | the loop copies the reduction word into every lane and ends |
| RaidSixEncode.HornerIsDot | jerasure/reed_sol.c:210-223 | Horner's rule is the product with the row of powers of 2 |
| RaidSixEncode.RaidSixCodingMatrix | jerasure/reed_sol.c:43-61 | null unless w is 8, 16 or 32; otherwise a row of ones and a row that starts with 1 and goes on with the entry before times 2 |
| TwoParities.RaidSixExact | jerasure/reed_sol.c:43-61 | any k of the k + 2 devices of that matrix determine the data if and only if k is at most 2^w - 1; beyond that two powers of 2 agree |
| TwoParities.TwoParitiesExact | jerasure/reed_sol.c:43-61 | a row of ones and any second row do so if and only if the second row has distinct nonzero entries |
| RaidSixEncode.RaidSixEncode | jerasure/reed_sol.c:200-225 | 1 for w 8, 16 and 32 and for a single data device, else 0; the first coding device is the sum of the data; for those w, lane by lane both coding devices are the products of that matrix with the data; for any other w the second is a copy of the last data device |

## Left out

- Command-line programs, file formats, timing, signals, logging, statistics counters and the parameter sanity messages that end the process.
- malloc and free, failed allocation, word alignment, and signed overflow of C integers: sizes and indices are unbounded naturals.
- Buffers in bitmatrix coding hold bits instead of bytes, since every operation there is a bytewise copy or xor; in matrix coding they hold field elements instead of bytes.
- The library's flat matrices are two-dimensional arrays outside the RAID-6 constructions.
- qsort in the Mojette inverse is an insertion sort with the same result for distinct slopes.
- MatrixEncoding.RegionMultiply: uses the field product and does not model the table look-ups inside the region routines of jerasure/galois.c:414-547 and 668-730; the look-ups themselves are LogtableMultiply and SplitMultiply.
- The multiplication and division tables of jerasure/galois.c:218-267, which list log-table products, and the choice between implementations by width in galois_single_multiply and galois_single_divide.
- The memoised statics (tables built once, PPs and ONEs in cauchy_n_ones): each call builds what it needs.
- LogTables.FindInverse: the inverse in the field record is found by trying powers; LogtableDivide and ShiftInverse give the library's two ways, and inverses are unique.
- PackedDoubling.InnerMask: the masks mask08_1, mask08_2, mask16_1 and mask16_2 are constants instead of the results of their loops.
- jerasure_matrix_multiply, jerasure_do_parity, the print routines and the free routines.
- liber8tion_coding_bitmatrix and the cbest tables: fixed finite data.
- The schedule version of the incremental encoder and incremental decoding of coding devices, which use only one disk (jerasure/jerasure_incr.c:284 and 672-674).
- cauchy_good_general_coding_matrix, and the placement table, dictionary, ini file and buffer pool helpers.
