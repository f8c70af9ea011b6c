# LSDT wireless sensor network core, modelled in Dafny

This project models the core of a Python prototype of LSDT. LSDT is a secure-transmission scheme for wireless sensor networks (WSN). The prototype has four parts:

- **Secret sharing over GF(2).** A message, as bits or as an integer, is cut into t blocks. A circulant t x t generator B is extended with the XOR of its rows, which gives t+1 shares. Any t distinct shares give the blocks back by Gauss-Jordan inversion over GF(2). The reconstruction functions take the index lists as the user types them and do not count them: the model states what each one does with any number of indices and shares. The model covers `Essentials/Shares_Gen.py`, `Essentials/Enc_and_Dec.py` and `Message_encryption/share_generation.py`. It also covers `Message_encryption/invertible_matrix.py` (the generator guard) and `Original_data_recovery/original_data.py` (the sink's share handling).
- **Routing-table construction.** Each sensor collects routes of bounded hop count towards the sink. This is done twice in the source:
  - a three-step version over a sensor network (`Essentials/Routing_path.py`);
  - a broadcast version over a graph (`Initialization/routing_path.py`).
- **Message transmission.** A first-order radio energy model. Each hop scores the eligible neighbours by the interest function IF and hands the message to the first highest one (`Message_Transmission/msgtrans.py`). The sensor-node class it runs on comes from `Message_Transmission/simulate.py`.
- **Malicious-node management.** Anomaly reports; the sink's reputation counters gamma and k, with reputation gamma^(-k); and the broadcast of the new values to neighbours (`Message_Transmission/malicious_node_management.py`).

## Structure

Shared foundations:

- `results.dfy`: `Option` and a `Result` whose error kinds name the Python exceptions that the code can raise: ZeroDivision, NotFound, IndexOutOfRange, ShapeMismatch, SingularMatrix, InvalidDimension, EmptySequence, WrongShareCount, and InvalidLiteral (a ValueError from `int` of an empty string).
- `arith.dfy`: powers of two and small facts about multiplication and Euclidean division.
- `bitstrings.dfy`: big-endian bit strings and their values.
- `gf2.dfy`: GF(2) vectors and matrices, products, and `Nonsingular`, defined as a trivial kernel. It also proves that a left inverse recovers the solution.
- `gauss_jordan.dfy`: the two in-place Gauss-Jordan inversions, proved against `Nonsingular`.
  - Rows live in an `array`.
  - A ghost log of row operations gives the kernel witness when a pivot is missing.
- `cyclic.dfy`: the generator row 1 + x^2 + x^(t-1), its circulant, and row-by-row rolling. It proves the matrices for t = 2..5 nonsingular and the one for t = 7 singular.
- `threshold.dfy`: the extended generator. Any t distinct rows of the (t+1)-row extension are nonsingular exactly when B is.
- `slices.dfy`: Python slicing, Python list indices (negative ones count from the end) and row concatenation.

One module per core source file:

- Secret sharing: `shares_gen.dfy`, `enc_and_dec.dfy`, `share_generation.dfy`, `invertible_matrix.dfy`, `original_data.dfy`.
- Routing: `routing_essentials.dfy` and `routing_init.dfy`.
- Transmission and reputation: `sensor_node.dfy`, `messages.dfy`, `msgtrans.dfy`, `malicious_nodes.dfy`.

Where the source changes objects in place, the model does too:

- `SensorNetwork`, `RoutedNode`, `SensorNode`, `Message` and `ShareList` are classes. Their methods carry `modifies` clauses; some are field-level, such as a neighbour's `reputation` field.
- Each loop is a method with invariants.
- Pure computations are functions, with lemmas about them.

Long-running state changes are specified against ghost value snapshots:

- `RoutesAdded` and `Propagation` over the sequence of node records.
- `TableOK` over the routing-table map.
- `Applied` and `CountsAfter` over the reputation counters.

## Where the LSDT scheme description and the code differ (the model follows the code)

The scheme description is the LSDT paper, which `Message_Transmission/malicious_node_management.py:1` cites by its Sections IV-C and V-C.2.

- **Energy.** The paper says a node's residual energy does not drop below zero. `msgtrans.py:63` subtracts the full transmission energy, and `MsgTrans.ForwardHop` does the same.
- **Interest function.** The paper adds a small epsilon to the IF divisor. `msgtrans.py:54` divides by `ET * dvjs**2` with nothing added.
  - The sink is at distance 0 from itself, so scoring it raises ZeroDivisionError.
  - The delivery branch at `msgtrans.py:69-70` therefore cannot be reached.
  - `MsgTrans.SinkDivisorZero` states the zero divisor. `MsgTrans.ForwardHop` proves the relay is never the sink.
- **Average distance.** The paper averages the sink distance over the nodes within D0.
  - `Essentials/Routing_path.py:109-110` does that. With no such node it falls back to 1.
  - `Initialization/routing_path.py:32-35` averages over all sensors.
  - Both are modelled as written.
- **Reputation broadcast.** The paper has the sink broadcast updated reputations so that neighbours update their view. `malicious_node_management.py:57-60` overwrites the neighbour object's own `reputation` field.
- **Retries.** The paper mentions retries or timeouts and hop limits during transmission. The code has none. Recursion stops when no neighbour is left as a candidate, when no score is above -1, or when scoring the sink divides by zero (the delivery branch is unreachable, as above).

## Model

| member | source | states |
|---|---|---|
| Cyclic.Generator | Essentials/Shares_Gen.py:11 | the generator row of length t has ones exactly at positions 0, 2 and t-1 |
| Cyclic.RollRightAt | Essentials/Enc_and_Dec.py:32 | np.roll by one moves entry j-1 (mod t) to position j |
| Cyclic.RollAt | Essentials/Shares_Gen.py:13-15 | np.roll by i moves entry j-i (mod t) to position j |
| Cyclic.Circulant | Essentials/Shares_Gen.py:12-15 | the circulant built from a generator row is a t x t matrix |
| Cyclic.CirculantRow | Essentials/Shares_Gen.py:13-15 | row i of the circulant is the generator rolled by i |
| Cyclic.CirculantRowStep | Essentials/Enc_and_Dec.py:31-32 | each row of the circulant is the previous row rolled by one |
| Cyclic.RollStep | Essentials/Enc_and_Dec.py:31-32 | rolling by i is rolling by i-1 and then by one more |
| Cyclic.FillByRolling | Essentials/Enc_and_Dec.py:29-32 | filling the rows by rolling the previous row yields exactly the circulant |
| Cyclic.GeneratorRowsHaveThreeOnes | Essentials/Shares_Gen.py:10-15 | every row of the t >= 4 generator matrix has exactly three ones |
| Cyclic.Fixed3Nonsingular | Essentials/Shares_Gen.py:8 | the fixed 3 x 3 generator is nonsingular over GF(2) |
| Cyclic.Generator4Nonsingular | Essentials/Shares_Gen.py:10-15 | the 4 x 4 circulant generator is nonsingular over GF(2) |
| Cyclic.Generator5Nonsingular | Essentials/Shares_Gen.py:10-15 | the 5 x 5 circulant generator is nonsingular over GF(2) |
| Cyclic.Generator7Singular | Essentials/Shares_Gen.py:10-15 | the 7 x 7 circulant generator is singular over GF(2) (the kernel holds 0010111) |
| Cyclic.TwoByTwoTriangularNonsingular | Essentials/Shares_Gen.py:7 | the 2 x 2 generator [[0,1],[1,1]] is nonsingular |
| Cyclic.TwoByTwoSwapNonsingular | Essentials/Enc_and_Dec.py:19-21 | the 2 x 2 generator [[0,1],[1,0]] is nonsingular |
| Gf2.LeftInverseNonsingular | Essentials/Shares_Gen.py:50-73 | a matrix with a left inverse over GF(2) has a trivial kernel |
| Gf2.LeftInverseRecovers | Essentials/Shares_Gen.py:91-99 | multiplying the shares B X by a left inverse of B gives X back |
| Threshold.Extend | Essentials/Shares_Gen.py:36 | the extended generator has t+1 rows whose first t are B |
| Threshold.ExtendMatMul | Essentials/Shares_Gen.py:36-46 | sharing with the extended generator = sharing with B, plus the XOR of those shares |
| Threshold.SubsetNonsingularIff | Essentials/Shares_Gen.py:76-101 | any t distinct rows of the (t+1)-row extension are nonsingular exactly when B is |
| GaussJordan.FindPivot | Essentials/Shares_Gen.py:57-63 | the pivot is None exactly when column col is zero from col down; otherwise the first row at or below col with a one |
| GaussJordan.Invert | Essentials/Shares_Gen.py:50-73 | succeeds exactly when A is nonsingular; the result is a left inverse; otherwise SingularMatrix (the same algorithm appears at Essentials/Enc_and_Dec.py:77-100 and Message_encryption/share_generation.py:353-368) |
| GaussJordan.ClearRow | Essentials/Shares_Gen.py:69-72 | adding the pivot row into one more row (when its column entry is 1) zeroes that entry and keeps inv A = a, the undo log back to A, and the columns already cleared |
| GaussJordan.SwapFromBelow | Original_data_recovery/original_data.py:17-24 | with a zero diagonal entry, swaps in the first row below with a one there, or reports that none exists and leaves both matrices unchanged |
| GaussJordan.InvertKeepingDiagonal | Original_data_recovery/original_data.py:11-31 | succeeds exactly when A is nonsingular; the result is a left inverse; otherwise SingularMatrix |
| Slices.PySlice | Essentials/Shares_Gen.py:26 | s[i:j] has length clamp(j) - i (or 0) and entry k is s[i+k] |
| Slices.PyIndices | Essentials/Shares_Gen.py:126 | a Python index i of a list of length n (-n <= i < n) names position i, or i + n when negative |
| Gf2.Leading | Essentials/Shares_Gen.py:78 | A[:, :k] keeps every row and its first k entries |
| Gf2.LeadingAll | Essentials/Shares_Gen.py:78 | cutting a t-column matrix to its first t columns changes nothing |
| Gf2.NoColumns | Essentials/Shares_Gen.py:98-99 | every matrix with n rows of no entries is the n x 0 zero matrix |
| GaussJordan.InvertLeading | Essentials/Shares_Gen.py:50-73 | on k rows of width w, succeeds exactly when k <= w and the leading k x k block is nonsingular, then returns a left inverse of that block; k > w reports an index error, a singular block SingularMatrix |
| SharesGen.GeneratorMatrix | Essentials/Shares_Gen.py:5-16 | the generator for t >= 2 is a t x t matrix |
| SharesGen.BlockLen | Essentials/Shares_Gen.py:21 | ceil(L / t): the least bl with bl * t >= L |
| SharesGen.PaddedBlock | Essentials/Shares_Gen.py:24-28 | block bit k is message bit start+k when it exists, else 0 |
| SharesGen.GenerateCyclicMatrix | Essentials/Shares_Gen.py:5-16 | t >= 2 gives the generator; t = 0 an index error; t = 1 and negative t a shape error |
| SharesGen.GeneratorMatrixSmallCases | Essentials/Shares_Gen.py:5-16 | the generator is nonsingular for t = 2..5 and singular for t = 7 |
| SharesGen.SplitMessage | Essentials/Shares_Gen.py:19-30 | t = 0 divides by zero; negative t gives no blocks; otherwise t zero-padded blocks of BlockLen bits cut from the message |
| SharesGen.CutBlock | Essentials/Shares_Gen.py:24-28 | one block is the slice msg[start:start+bl], zero-filled to bl bits where the message runs out |
| SharesGen.SplitJoin | Essentials/Shares_Gen.py:130 | the joined blocks cut to the message length are the message; all further bits are 0 |
| SharesGen.GenerateShares | Essentials/Shares_Gen.py:33-47 | the extension is B plus the XOR of its rows, and share r is row r of that extension times the blocks |
| SharesGen.LastShareIsXorOfShares | Essentials/Shares_Gen.py:36 | the first t shares are B times the blocks and share t is their XOR |
| SharesGen.ReconstructBlocks | Essentials/Shares_Gen.py:76-101 | indices outside Python's range fail with an index error; with k indices it succeeds exactly when k <= t, the leading k x k block of the chosen rows is nonsingular, there is at least one share, and either the shares have no bits or there are exactly t indices and t shares; a result has t rows of the share width, and with t indices it is the unique X with B_sub X = the chosen shares |
| SharesGen.ShareAndRecover | Essentials/Shares_Gen.py:104-133 | a result is always the message; t < 2 fails, with ZeroDivision for t = 0 and a shape error otherwise; a number of indices other than t fails for a nonempty message; t indices in Python's range naming distinct shares (negative ones from the end) succeed exactly when B is nonsingular |
| SharesGen.RecoverFromShares | Essentials/Shares_Gen.py:125-130 | from the shares of a split message, a result is the message; t indices naming distinct shares succeed exactly when B is nonsingular; another count fails unless the message is empty |
| SharesGen.ChosenRowsIff | Essentials/Shares_Gen.py:78-83 | the leading t x t block of t distinct rows of the extension is nonsingular exactly when B is |
| SharesGen.RecoveredJoin | Essentials/Shares_Gen.py:130 | the sent blocks, or t empty blocks of an empty message, joined and cut to the message length give the message |
| EncAndDec.GeneratorMatrix | Essentials/Enc_and_Dec.py:18-33 | the generator of this file (t = 2 is the swap matrix) is t x t |
| EncAndDec.GenerateCyclicMatrix | Essentials/Enc_and_Dec.py:18-33 | t >= 2 gives the generator; t = 0 an index error; t = 1 and negative t a shape error |
| EncAndDec.GeneratorMatrixSmallCases | Essentials/Enc_and_Dec.py:18-33 | nonsingular for t = 2..5, singular for t = 7 |
| EncAndDec.SplitMessage | Essentials/Enc_and_Dec.py:38-51 | as Shares_Gen's split, and also returns block_len, which is ceil(L / t) for a negative t too |
| EncAndDec.GenerateShares | Essentials/Enc_and_Dec.py:56-72 | the extension is B plus its XOR row, and the shares are that extension times the blocks |
| EncAndDec.ReconstructBlocks | Essentials/Enc_and_Dec.py:105-123 | no shares or indices outside Python's range fail with an index error; it succeeds exactly when there are t indices and t shares and the chosen rows are nonsingular, and then returns the unique X with B_sub X = the shares |
| EncAndDec.PackBits | Essentials/Enc_and_Dec.py:128-137 | bits_to_bytes yields ceil(n / 8) bytes |
| EncAndDec.ByteBits | Essentials/Enc_and_Dec.py:141-143 | each byte gives eight bits, most significant first |
| EncAndDec.ByteRoundTrip | Essentials/Enc_and_Dec.py:128-144 | packing the eight bits of a byte gives the byte back |
| EncAndDec.BitsRoundTrip | Essentials/Enc_and_Dec.py:128-144 | unpacking the byte of eight bits gives the bits back |
| EncAndDec.PackUnpack | Essentials/Enc_and_Dec.py:128-144 | bits_to_bytes(bytes_to_bits(b)) == b |
| EncAndDec.PackUnpackAt | Essentials/Enc_and_Dec.py:128-144 | byte k of bits_to_bytes(bytes_to_bits(b)) is byte k of b |
| EncAndDec.UnpackLength | Essentials/Enc_and_Dec.py:140-144 | bytes_to_bits gives eight bits per byte, which pack back into as many bytes |
| EncAndDec.PackedBit | Essentials/Enc_and_Dec.py:128-137 | bit j of packed byte k is bit 8k + j of the input, or 0 past its end |
| EncAndDec.UnpackPack | Essentials/Enc_and_Dec.py:128-144 | bytes_to_bits(bits_to_bytes(x)) is x followed by zero padding to a whole byte |
| EncAndDec.BitsToBytes | Essentials/Enc_and_Dec.py:128-137 | the loop computes PackBits |
| EncAndDec.BytesToBits | Essentials/Enc_and_Dec.py:139-144 | the loop computes the big-endian unpacking |
| EncAndDec.Lengths | Essentials/Enc_and_Dec.py:260-265 | field i's recorded length is its length |
| EncAndDec.SplitFields | Essentials/Enc_and_Dec.py:259-272 | field i is the slice starting at the sum of the earlier lengths |
| EncAndDec.CombineAt | Essentials/Enc_and_Dec.py:213 | byte k of field i sits at its offset plus k in the combined payload |
| EncAndDec.FramingRoundTrip | Essentials/Enc_and_Dec.py:259-272 | cutting the combined payload at the recorded lengths gives every field back |
| EncAndDec.ShareCombinedPayload | Essentials/Enc_and_Dec.py:213-272 | a result is always the original fields; t < 2 fails; a number of indices other than t fails with WrongShareCount; t indices in Python's range naming distinct shares succeed exactly when B is nonsingular |
| EncAndDec.RecoverBits | Essentials/Enc_and_Dec.py:248-251 | from the shares of the payload bits, a result is those bits; t indices naming distinct shares succeed exactly when B is nonsingular |
| BitStrings.BitValue | Message_encryption/share_generation.py:387 | int(s, 2) of n bits is below 2^n |
| BitStrings.BitsOf | Message_encryption/share_generation.py:349 | bin(c) zero-filled to m digits has m digits |
| BitStrings.BitsOfValue | Message_encryption/share_generation.py:349 | the value of the m-bit string of c < 2^m is c |
| BitStrings.ValueBitsOf | Message_encryption/share_generation.py:349 | the m-bit string of a value of m bits is those bits |
| ShareGeneration.GenerateBMatrix | Message_encryption/share_generation.py:332-343 | t >= 2 gives the Shares_Gen generator; t = 0, 1 an index error; negative t a shape error |
| ShareGeneration.BitLength | Message_encryption/share_generation.py:346 | c.bit_length(): the least n with c < 2^n |
| ShareGeneration.MaxBits | Message_encryption/share_generation.py:346 | the maximum bit length, attained by some entry |
| ShareGeneration.BitMatrix | Message_encryption/share_generation.py:345-351 | the bit matrix has one row per integer of C and max_bits columns |
| ShareGeneration.BitMatrixRows | Message_encryption/share_generation.py:348-350 | each row reads back as its integer |
| ShareGeneration.IntListToBitMatrix | Message_encryption/share_generation.py:345-351 | an empty list fails (max of nothing); otherwise the bit matrix |
| ShareGeneration.ReconstructCBitwise | Message_encryption/share_generation.py:370-380 | with k rows in T, succeeds exactly when k is at most the width of T, the leading k x k block of T is nonsingular, there is at least one share, and either the shares have no bits or there are k of them; a result is the unique k-row C with that block times C = the shares, written column by column into a 2-d array |
| ShareGeneration.DigitCount | Message_encryption/share_generation.py:383-384 | len(bin(m)[2:]) is at least 1 and m < 2^n |
| ShareGeneration.PartLen | Message_encryption/share_generation.py:385 | part_len * t covers all digits |
| ShareGeneration.SplitMessageToParts | Message_encryption/share_generation.py:382-387 | t = 0 divides by zero; negative t gives no parts; otherwise t parts of part_len digits |
| ShareGeneration.JoinRows | Message_encryption/share_generation.py:447 | the join fails with ValueError exactly when there are no bits at all, and otherwise reads a number below 2^(number of bits) |
| ShareGeneration.PartsRoundTrip | Message_encryption/share_generation.py:382-387 | joining the parts at part_len digits each gives m back |
| ShareGeneration.JoinBitMatrix | Message_encryption/share_generation.py:447 | joining the rows of the bit matrix reads the parts at max_bits digits each |
| ShareGeneration.ReassemblyWhenWidthsAgree | Message_encryption/share_generation.py:455 | when max_bits equals part_len, the reassembly gives m back |
| ShareGeneration.ReassemblyAsWrittenLosesBits | Message_encryption/share_generation.py:455 | m = 5, t = 2: the parts are [1, 1] (part_len 2), max_bits is 1, and the reassembly gives 3 |
| ShareGeneration.ZeroMessageAsWrittenRaises | Message_encryption/share_generation.py:455 | m = 0, t = 2: the parts are [0, 0] and max_bits is 0, so the join at line 455 raises ValueError, while the reading at part_len = 1 gives 0 |
| ShareGeneration.ReassemblePartsOfBitMatrix | Message_encryption/share_generation.py:455 | reading each recovered row as an integer and joining at part_len gives m back for every m and t |
| ShareGeneration.GenerateSharesBitwise | Message_encryption/share_generation.py:389-405 | fewer than two parts fail; otherwise the extension and the shares over the bit matrix |
| ShareGeneration.ShareAndRecoverInt | Message_encryption/share_generation.py:407-458 | with the corrected share count check and the corrected reassembly: a result is always m; t < 2 fails; a number of indices other than t fails with WrongShareCount; t indices in Python's range naming distinct shares succeed exactly when B is nonsingular |
| ShareGeneration.RecoverInt | Message_encryption/share_generation.py:445-455 | the corrected receiver's recovery step, after its count check and reading the parts at part_len: t indices in range give m whenever they succeed, and they succeed exactly when B is nonsingular if they name distinct shares |
| ShareGeneration.OneShareRecoversWrongValue | Message_encryption/share_generation.py:445-455 | for m = 5, t = 2 and the single index 1, T = [[1, 1]] has an invertible leading block and the share is [0], so reconstruct_C_bitwise succeeds with [[0]], which reads 0, not 5 |
| InvertibleMatrix.PyRotation | Message_encryption/invertible_matrix.py:28 | gen[-i:] + gen[:-i] (with gen[-0:] the whole row) is the roll by i |
| InvertibleMatrix.GenerateCyclicMatrix | Message_encryption/invertible_matrix.py:11-34 | t < 2 raises; otherwise the Enc_and_Dec generator |
| InvertibleMatrix.GenerateInvertibleAsWritten | Message_encryption/invertible_matrix.py:36-40 | the guard over the reals accepts only the generator for t >= 2 |
| InvertibleMatrix.Generator7RealNonsingular | Message_encryption/invertible_matrix.py:4-9 | the t = 7 generator has a real inverse (6 B^-1 is an integer matrix) |
| InvertibleMatrix.AsWrittenAcceptsSingularGenerator | Message_encryption/invertible_matrix.py:36-40 | the real-valued guard returns the t = 7 generator although it is singular over GF(2) |
| InvertibleMatrix.GenerateInvertibleCyclicMatrix | Message_encryption/invertible_matrix.py:36-40 | with a GF(2) guard it succeeds exactly when the generator is nonsingular over GF(2) |
| OriginalData.Insert | Original_data_recovery/original_data.py:43 | inserting keeps the multiset plus the new item |
| OriginalData.InsertSorted | Original_data_recovery/original_data.py:43 | insertion keeps the list sorted by index |
| OriginalData.SortByIndex | Original_data_recovery/original_data.py:43 | sorting is a permutation |
| OriginalData.SortByIndexSorted | Original_data_recovery/original_data.py:43 | the sorted list is ordered by index |
| OriginalData.ShareList.constructor | Original_data_recovery/original_data.py:33 | the share list holds the given items |
| OriginalData.PopExtra | Original_data_recovery/original_data.py:39-42 | a list longer than t+1 loses its last packet, which is returned as the extra; any other list is left as it was and there is no extra |
| OriginalData.SolveFirstShares | Original_data_recovery/original_data.py:43-48 | succeeds exactly when the first t shares have one width, B^T is nonsingular and there are at least t packets; rows of different widths fail first with a shape error, then a singular B^T with SingularMatrix; a success is the one C with B^T C = S |
| OriginalData.RecoverOriginalData | Original_data_recovery/original_data.py:33-50 | a missing source fails without change; a generator rejected by the GF(2) check fails without change; otherwise a list longer than t+1 loses its last item, which is the result (none for a shorter list), and the call succeeds exactly when the first t remaining shares have one width, B^T is nonsingular and there were at least t packets |
| OriginalData.RecoverForThreshold | Original_data_recovery/original_data.py:35-48 | the same for a given t: a rejected generator fails without change; an accepted one pops the extra item and then succeeds exactly when the first t shares have one width, B^T is nonsingular and there were at least t packets; shares of different widths give a shape error |
| RoutingEssentials.Ceil | Essentials/Routing_path.py:118 | math.ceil: x <= c < x + 1 |
| RoutingEssentials.MaxLen | Essentials/Routing_path.py:115 | the longest route length, attained by some route |
| RoutingEssentials.SensorNetwork.LinkedIds | Essentials/Routing_path.py:65-72 | the ids linked to node k are exactly those closer than both radii, in increasing order |
| RoutingEssentials.SensorNetwork.constructor | Essentials/Routing_path.py:56-63 | ids 1..n, each neighbour list the linked ids, no routes, no averds |
| RoutingEssentials.SensorNetwork.CalculateNeighbors | Essentials/Routing_path.py:65-72 | every neighbour list gets exactly its linked ids appended |
| RoutingEssentials.SensorNetwork.NeighborsSymmetric | Essentials/Routing_path.py:65-72 | after linking, b is a neighbour of a exactly when a is one of b; no node is its own neighbour |
| RoutingEssentials.SensorNetwork.GetNodeById | Essentials/Routing_path.py:77-78 | succeeds exactly for ids 1..n, with the node of that id; otherwise StopIteration (NotFound) |
| RoutingEssentials.SensorNetwork.Step1MaxPRoutes | Essentials/Routing_path.py:83-103 | each node within D0 gets the PPK and the route [id, s]; every route added runs away from the sink, ends at its node, is new and has at most P+1 entries |
| RoutingEssentials.SensorNetwork.ExtendRoutes | Essentials/Routing_path.py:97-103 | offering the route to every neighbour keeps ids, neighbours and averds, only grows the Tu tables, keeps every added route valid and queues only valid entries |
| RoutingEssentials.SensorNetwork.OfferRoute | Essentials/Routing_path.py:97-103 | a route is added exactly when the neighbour is farther from the sink and the route is new; only that table changes |
| RoutingEssentials.SensorNetwork.AverageDistanceBounds | Essentials/Routing_path.py:109-110 | averds lies between 0 and D0 and is 1 with no node within D0 |
| RoutingEssentials.SensorNetwork.HopBoundCoversRoutes | Essentials/Routing_path.py:113-120 | a node gets P exactly when it has routes, and P covers every route length |
| RoutingEssentials.SensorNetwork.Step2CalculateP | Essentials/Routing_path.py:108-120 | averds is stored first; a zero averds with some routes divides by zero; otherwise each node gets its hop bound |
| RoutingEssentials.SensorNetwork.SeedTables | Essentials/Routing_path.py:126-130 | nodes with P within D0 copy Tu into Tv and are queued exactly once (the queue has no duplicates) with no sender |
| RoutingEssentials.SensorNetwork.Offer | Essentials/Routing_path.py:137-154 | neighbours closer to the sink are untouched; a first receipt sets P and extends all sender paths; failure exactly when P must be computed without a usable averds |
| RoutingEssentials.SensorNetwork.FirstTable | Essentials/Routing_path.py:142-148 | a missing averds fails with NotFound (KeyError) and a zero one with ZeroDivision; otherwise only the neighbour changes, taking the PPK, dus, P = n + ceil(dus / averds) and the sender's paths extended by its id, and the propagation invariant is kept |
| RoutingEssentials.SensorNetwork.AppendPaths | Essentials/Routing_path.py:149-154 | appends new extended paths within P, reporting a change exactly when the table changed |
| RoutingEssentials.SensorNetwork.PropagateFrom | Essentials/Routing_path.py:133-157 | every neighbour except the sender is offered the paths; those that changed are returned to be queued |
| RoutingEssentials.SensorNetwork.Step3RoutingPropagation | Essentials/Routing_path.py:125-157 | from the seeding, every Tv entry added ends at its node and is new; nodes that already had P keep it |
| RoutingInit.RoutedNode.constructor | Initialization/nodeStructure.py:4-9 | a node starts with no routing paths and no P |
| RoutingInit.MaxHops | Initialization/routing_path.py:86-91 | the maximum hop count (len - 1) over the paths, 0 for none |
| RoutingInit.HopBound | Initialization/routing_path.py:37-39 | f(n, d) = n + ceil(d / avg), dividing by 1 when avg <= 0 |
| RoutingInit.PrependAll | Initialization/routing_path.py:98-106 | the new table holds exactly [v] + each sender path, with no duplicates |
| RoutingInit.Candidates | Initialization/routing_path.py:114-124 | the candidates are exactly [v] + p for the sender paths within P-1 hops not yet stored |
| RoutingInit.FirstReceipt | Initialization/routing_path.py:82-108 | sets P = f(n, d_vs) and the prepended paths, in the table and on the node object; other entries are unchanged |
| RoutingInit.AddNewPaths | Initialization/routing_path.py:110-128 | keeps P, extends the paths by the candidates, and reports a change exactly when the entry changed |
| RoutingInit.UpdateEntry | Initialization/routing_path.py:79-128 | first receipt or candidate addition, by whether P is set |
| RoutingInit.Forward | Initialization/routing_path.py:130-142 | every sensor neighbour except the sender is queued and gets an empty entry if it had none; a receiver missing from the graph fails |
| RoutingInit.Receive | Initialization/routing_path.py:68-142 | non-sensor receivers are skipped; messages are sent only after a change; an already set P is kept |
| RoutingInit.Propagate | Initialization/routing_path.py:68-142 | the table invariant (paths run from their node to the sink, no path list repeats a path, and the paths added after a node's P was fixed have at most P hops) is kept; with enough fuel every seeded neighbour ends with P = f(0, d) and [x, sink] |
| RoutingInit.SeedQueue | Initialization/routing_path.py:51-65 | exactly the sensor neighbours of the sink are seeded with [x, sink] and queued from the sink |
| RoutingInit.AssignNodes | Initialization/routing_path.py:144-152 | each sensor takes its table entry's paths and P, or none |
| RoutingInit.InitializeRouting | Initialization/routing_path.py:5-152 | the sink gets P = 0; a sink missing from the graph fails; otherwise the table invariant of `Propagate` holds, the nodes take their entries' paths and P, and the sink's sensor neighbours have entries; when `fuel` is at least the number of the sink's neighbours, each of them has P = f(0, d) and the path [x, sink] |
| Messages.Message.constructor | Message_Transmission/msgtrans.py:22-29 | a message holds id, share, digest, path, path_star and timestamp |
| SensorNodes.SqDist | Message_Transmission/simulate.py:20-23 | the squared distance is non-negative |
| SensorNodes.SqDistSymmetric | Message_Transmission/simulate.py:20-23 | distance is symmetric and zero to oneself |
| SensorNodes.ReachesIffWithin | Message_Transmission/simulate.py:25-26 | comparing squares is the same as comparing the distance with the radius |
| SensorNodes.OneSidedLink | Message_Transmission/simulate.py:25-30 | with different radii, one node can reach another that cannot reach it back |
| SensorNodes.SensorNode.constructor | Message_Transmission/simulate.py:6-18 | a node starts with reputation 1, suspicion score 1, no neighbours, no messages, not flagged, and no gamma or k |
| SensorNodes.SensorNode.SqDistanceTo | Message_Transmission/simulate.py:20-23 | the squared distance between the two locations |
| SensorNodes.SensorNode.AddNeighbor | Message_Transmission/simulate.py:28-30 | appends the other node exactly when it is within this node's radius |
| SensorNodes.SensorNode.UpdateReputation | Message_Transmission/simulate.py:32-34 | adds delta to the score; a zero score divides by zero, otherwise reputation * score = 1 |
| SensorNodes.SensorNode.MarkAsMalicious | Message_Transmission/simulate.py:36-38 | flagged, with reputation 0 |
| SensorNodes.SensorNode.ReceiveMessage | Message_Transmission/simulate.py:40-42 | the message is stored under its id and every other entry is kept |
| MsgTrans.EnergyFromSquare | Message_Transmission/msgtrans.py:15-19 | the energy written on squared distances equals energy_transmit |
| MsgTrans.EnergyPositive | Message_Transmission/msgtrans.py:15-19 | transmitting a positive number of bits costs positive energy |
| MsgTrans.EnergyMonotone | Message_Transmission/msgtrans.py:15-19 | energy grows with distance, across the D0 switch too |
| MsgTrans.Candidates | Message_Transmission/msgtrans.py:33-37 | the candidates are exactly the unvisited, unflagged neighbours |
| MsgTrans.SinkDivisorZero | Message_Transmission/msgtrans.py:48-54 | the IF divisor of the sink is 0 |
| MsgTrans.Score | Message_Transmission/msgtrans.py:47-54 | IF of one neighbour, failing exactly on a zero divisor |
| MsgTrans.SelectRelay | Message_Transmission/msgtrans.py:43-57 | fails exactly when some candidate has a zero divisor; otherwise the first maximum above -1, or none when no score exceeds -1 |
| MsgTrans.ForwardHop | Message_Transmission/msgtrans.py:33-66 | with a relay: never the sink, the first best candidate, energy reduced by ET, id appended to path_star, message stored at the relay; otherwise nothing changes |
| MsgTrans.TransmitMessage | Message_Transmission/msgtrans.py:32-74 | path_star only grows, each new id is a network node not visited before, and the walk is at most as long as the unvisited count; the appended ids belong to a chain of relays, none the sink, each a neighbour of the one before and the first a neighbour of the source; a failure is a division by zero |
| MsgTrans.ChainCons | Message_Transmission/msgtrans.py:71-72 | a relay chain from a neighbour of the source, with that neighbour in front, is a chain from the source |
| MaliciousNodes.SuspicionReason | Message_Transmission/malicious_node_management.py:7-15 | no reason exactly when neither flag is set; timeout takes precedence over tampering |
| MaliciousNodes.DetectMaliciousNode | Message_Transmission/malicious_node_management.py:3-27 | a report exactly when a flag is set, of type Anomaly with both ids, the suspect's location and the timestamp |
| MaliciousNodes.ReputationSteps | Message_Transmission/malicious_node_management.py:49-50 | the first report gives 0.5; gamma = k + 1 keeps reputation in (0, 0.5] and each further report lowers it |
| MaliciousNodes.FirstWithId | Message_Transmission/malicious_node_management.py:39 | the first node with the id, or none when no node has it |
| MaliciousNodes.Processed | Message_Transmission/malicious_node_management.py:37-39 | the reports before the first unknown suspect |
| MaliciousNodes.After | Message_Transmission/malicious_node_management.py:42-50 | h reports start gamma at 1 and k at 0 when absent and add h to both |
| MaliciousNodes.Bump | Message_Transmission/malicious_node_management.py:42-50 | one report moves the node's counters to After(old, 1) |
| MaliciousNodes.ApplyReports | Message_Transmission/malicious_node_management.py:35-53 | an unknown suspect stops the loop (StopIteration) after the earlier reports are applied; each node's counters are After(old, number of reports on it); the update map holds exactly the reported ids with their current reputation |
| MaliciousNodes.ReportsLowerReputation | Message_Transmission/malicious_node_management.py:42-50 | the counters keep gamma = k + 1; reputation = (k+1)^(-k), 0.5 after the first report, in (0, 0.5] and strictly decreasing per report |
| MaliciousNodes.BroadcastFrom | Message_Transmission/malicious_node_management.py:58-60 | each neighbour whose id is in the map takes its value; the others keep theirs |
| MaliciousNodes.Broadcast | Message_Transmission/malicious_node_management.py:57-60 | every neighbour of any node takes the broadcast value of its id or keeps its own; gamma and k are untouched |
| MaliciousNodes.UpdateReputation | Message_Transmission/malicious_node_management.py:30-61 | counters follow After for the processed reports; neighbours take the broadcast reputation of their id; an unknown suspect fails before the broadcast, and neighbours outside the node list keep their reputation |
| MaliciousNodes.BroadcastUpdates | Message_Transmission/malicious_node_management.py:57-60 | once every report is counted, each neighbour of a reported node takes its broadcast value, the others keep theirs, and the counters are unchanged |

## Left out

- Cryptography (AES, ECC/ECIES, key wrap, `encryption.py`'s `decrypt_data`) is not modelled. The ciphertext and key fields are opaque byte strings, and `RecoverOriginalData` returns the share it would hand to decryption.
- The SHA-256 digest of a message is a constructor parameter of `Message`.
- The encrypt/decrypt string stubs of `msgtrans.py:6-12` are left out: no core operation calls them.
- Printing, `input()`, plotting and the `__main__` demonstrations are left out. The demonstrations are modelled as the round-trip methods `ShareAndRecover`, `ShareCombinedPayload` and `ShareAndRecoverInt`, with the user's inputs as parameters.
- Randomness of the topology is replaced by inputs: positions, radii, energies and the `SinkNode` keys (`Essentials/Routing_path.py:9-47`).
  - `SensorNetwork` takes each node's sink distance, the pairwise distances and the radii; so does `SensorNetwork.constructor`.
  - `Initialization/routing_path.py` takes the precomputed distance map and an adjacency map in place of the networkx graph.
- Square roots are avoided. `math.dist` and `distance_to` become squared distances where only comparisons and even powers are used (`msgtrans.py`, `simulate.py`). The routing distances are given as real inputs.
- Floating point is modelled as exact real arithmetic. The rounding of `gamma ** (-k)`, of IF and of the energy model is not captured.
- `RoutingEssentials.SensorNetwork.Step1MaxPRoutes`, `RoutingEssentials.SensorNetwork.Step3RoutingPropagation`, `RoutingInit.Propagate` and `RoutingInit.InitializeRouting` run their queues for at most `fuel` iterations, where the source loops until the queue is empty; `RoutingInit.InitializeRouting` therefore returns the table after at most `fuel` queue entries.
  - Their contracts hold for whatever prefix of the queue was processed.
  - Termination of the unbounded queue is not proved.
- The Essentials `SensorNode` objects are modelled as value records inside `SensorNetwork.nodes`. Aliasing between the node objects and the lists that hold them is not captured.
- `RoutingEssentials.SensorNetwork.Step3RoutingPropagation` does not state that P of a newly reached node equals the hop bound. That is stated per receipt by `Offer`.
- `RoutingInit.PrependAll` and `RoutingInit.Candidates` state membership and absence of duplicates, not the order of the resulting list.
- The mutable default arguments `path=[]` and `path_star=[]` of `Message` (msgtrans.py:23) are not modelled. In Python, messages built without a path share one list object.
- `SensorNode.routing_table` (simulate.py:14) is left out: nothing in the core reads it.
- `detect_malicious_node`'s `message` parameter is unused by the source and is omitted.
- `update_reputation`'s `sink_node` parameter is unused by the source and is omitted.
- `MsgTrans.TransmitMessage` does not state the delivery branch at msgtrans.py:69-70, which cannot be reached: the sink's IF divisor is 0.
- `MsgTrans.TransmitMessage` states the relay chain hop by hop only through `MsgTrans.ForwardHop`: it does not restate that each relay is the first best-scoring candidate of the one before it, nor which score divided by zero on failure.
- `transmit_message`'s defaults (lambda 2, 512 bits) are not fixed; they are parameters.
- `OriginalData.RecoverOriginalData` does not return `C_matrix`: the source computes it and never uses it. `OriginalData.SolveFirstShares` states its value and when computing it fails.
- `Message_Transmission/simulate.py:44-125` is left out: `__repr__` and the random simulation script.
- `OriginalData.RecoverOriginalData` uses the GF(2) generator check of `InvertibleMatrix.GenerateInvertibleCyclicMatrix` (see Findings), not the real-valued check of `invertible_matrix.py:4-9`. Where the two differ, as for t = 7, the source accepts the generator, removes the last share at `original_data.py:40-42`, and only then raises in `gf2_matrix_inverse` at line 46. The model fails before removing anything.
- `ShareGeneration.ShareAndRecoverInt` is the corrected receiver. It checks the number of indices, which `reconstruct_and_decrypt` does not, and it reads the parts back at part_len bits rather than at max_bits. Both corrections are listed under Findings. The code as written is `ShareGeneration.ReconstructCBitwise` together with the lemmas `ShareGeneration.OneShareRecoversWrongValue`, `ShareGeneration.ReassemblyAsWrittenLosesBits` and `ShareGeneration.ZeroMessageAsWrittenRaises`. Reading at part_len also gives 0 for m = 0, where line 455 as written raises ValueError.
- `ShareGeneration.RecoverInt` is the step of that corrected receiver after its count check: it requires exactly t indices in Python's range, which `ShareAndRecoverInt` checks first and `reconstruct_and_decrypt` does not, and it joins the parts at part_len digits where line 455 joins them at max_bits.
- `GaussJordan.InvertLeading`, `SharesGen.ReconstructBlocks`, `EncAndDec.ReconstructBlocks` and `ShareGeneration.ReconstructCBitwise` report an index error for more indices than t. The source then fails inside the inversion: with IndexError once the elimination reaches column t, or with ValueError for a singular column before that. The model does not tell these two apart.

## Findings

| source | as written | input that shows it | evidently intended | confidence | as-written member | corrected member |
|---|---|---|---|---|---|---|
| Message_encryption/invertible_matrix.py:4-9 | `is_invertible_f2` inverts `matrix % 2` over the reals (`np.linalg.inv`), so a matrix singular over GF(2) is accepted whenever its real determinant is nonzero | t = 7: the generator 1 + x^2 + x^6 has a real inverse (6 times it is an integer matrix) but the GF(2) kernel vector 0010111, so `generate_invertible_cyclic_matrix(7)` returns a matrix the GF(2) inversion then rejects | accept the generator only when it is invertible over GF(2) | not executed | InvertibleMatrix.AsWrittenAcceptsSingularGenerator | InvertibleMatrix.GenerateInvertibleCyclicMatrix |
| Message_encryption/share_generation.py:445-455 | `reconstruct_and_decrypt` never checks that it received t indices; `reconstruct_C_bitwise` inverts the leading k x k block of the k received generator rows, so fewer than t shares can give a wrong message without any error | m = 5, t = 2, received index [1]: T = [[1, 1]], whose leading block [1] is invertible, and the share is [0], so the recovered bit rows are [[0]] and the receiver reads 0 instead of 5 | refuse any number of shares other than t, as `Essentials/Enc_and_Dec.py:245-246` does | not executed | ShareGeneration.OneShareRecoversWrongValue | ShareGeneration.ShareAndRecoverInt |
| Message_encryption/share_generation.py:447 | the recovered rows are joined as bit strings of width max_bits, but `split_message_to_parts` cut the message into parts of part_len digits; when no part needs all part_len digits the join drops the leading zeros of every part | m = 5, t = 2: `bin(5)` = 101 is zero-filled to 0101 and split to parts [1, 1] (part_len 2); max_bits is 1, so the join reads 11 = 3 instead of 5 | read each recovered row as an integer and join the parts at part_len digits each, which gives m back for every m and t | not executed | ShareGeneration.ReassemblyAsWrittenLosesBits | ShareGeneration.ReassemblePartsOfBitMatrix |
