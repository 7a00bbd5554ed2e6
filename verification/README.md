# Verified model of the volePSI solver and protocols

This project models, in Dafny, the logic of a private set intersection code base and proves what its code and comments
promise. Every statement below is proved for all inputs of the stated kind.

- **The Paxos key-value store.** `WeightData.dfy` is the bucketed, intrusively linked structure of column weights;
  `SparseMatrix.dfy` the rows and their transpose; `Peeling.dfy`, `LeastWeight.dfy` and `Paxos.dfy` the peeling to
  triangular form and when it leaves no gap row;
  `FCInverse.dfy` the clearing of the gap rows; `Gf128.dfy`, `Elimination.dfy` and `MatrixInverse.dfy` inversion of
  an element and of a matrix; `Okvs.dfy`, `Backfill.dfy`, `Encode.dfy` and `Decode.dfy` solving and decoding with
  powers of the dense hash; `Binary.dfy` and `BinaryDecode.dfy` the same with its bits; `FreeDraws.dfy` what random
  values in the free columns do. Values and coefficients are
  abstract (`Algebra.dfy`): values with an xor, coefficients in a commutative ring of characteristic two that acts on
  them. `BlockField.dfy` proves those laws of the 128-bit block multiplication and `BlockProduct.dfy` that it is the
  reduced product of polynomials. `BlockOrder.dfy` proves that the blocks are a field, so that the inversion inverts
  every non-zero block; it rests on a certificate computed by squaring 128-bit words (`WordBits.dfy`,
  `BlockSquares.dfy`). `TinyField.dfy` is a field of four elements, small enough for a concrete missed pivot. `Twins.dfy`
  is about two items with the same row and the same hash, which are never encoded.
- **Rows from hashes.** `PaxosHash.dfy` turns a hash into distinct columns, one at a time and in branch-free lanes;
  `HashBits.dfy` says which bits of the hash the columns and the bin come from.
- **Invariant division.** `Words.dfy`, `WideDivision.dfy` and `Libdivide.dfy` are the division by precomputed magic
  numbers, with the portable 128 by 64 and 128 by 128 bit divisions it rests on. Word arithmetic is written out with
  its wrap-around; the arithmetic lemmas hold for every word size and the dividers are instantiated at 16, 32 and 64
  bits.
- **Bins and threads.** `Baxos.dfy` is a step system: threads hash items into their own segments, meet at a barrier,
  then merge and solve bins; a schedule is any sequence of thread numbers. `BaxosBins.dfy` has the in-place merge and
  the batched decoder, `BaxosBacking.dfy` what the steps do to the shared arrays in every run, `BaxosRoundTrip.dfy`
  encodes a bin and relates the parts of the output to the keys, and `BaxosRun.dfy` executes a schedule on the shared
  arrays, step by step, encodes the bins with the solver and decodes, for both dense modes.
- **Protocols.** `Mpsi.dfy` is the multi-party intersection as steps of its parties over message links, in any order;
  `RsOprf.dfy` the oblivious pseudo-random function with its chunked transfer; `LinearDecoding.dfy` shows that the
  store has the linearity which both ask for.
- **Basis conversion.** `BasisConversion.dfy` is the in-place conversion between polynomial bases and its inverse,
  `VariableSubstitution.dfy` the substitution that precedes it and the two drivers. `PolynomialValues.dfy`,
  `NovelBasis.dfy` and `WholeConversion.dfy` prove what it means: both sides are the same polynomial.

Where the code and its comments disagree the model follows the code. Three such places are results here: the pivot search
of the matrix inversion accepts only an entry equal to one although its comment says non-zero (`InverseFails` gives the
exact condition), the chunked transfer of the pseudo-random function is faithful exactly below two chunks
(`ChunkedExactly`), and the randomised encoding, which assumes that gap rows only repeat main rows, decodes for every
draw exactly if each gap row is a sum of main rows (`EveryDrawCancels`; `ThreeRowsCancel` has rows on which it fails).

Preconditions that the code needs but does not check are stated as such: weight at least three or two spare columns, so
that popping a column never empties the structure (volePSI/PxUtil.h:284); column weights below 200 at initialisation
(volePSI/PxUtil.h:352); at least one dense column with powers (volePSI/PaxosImpl.h:2208).

## Model

| member | source | states |
|---|---|---|
| WeightSets.WeightData.PushNode | volePSI/PxUtil.h:252-273 | pushing a column that is in no list puts it at the head of the list of its weight, growing the heads if needed; every other column and list is as before, and the last bucket stays non-empty |
| WeightSets.WeightData.PopNode | volePSI/PxUtil.h:276-313 | popping a column takes exactly it out of its list, mends both neighbours and drops trailing empty buckets; needs another column in the structure, as the unguarded loop of the source does |
| WeightSets.WeightData.DecrementWeight | volePSI/PxUtil.h:316-322 | a column moves to the list of the weight below; the abstract map from columns to weights changes at that column alone |
| WeightSets.WeightData.ClearWeight | volePSI/PaxosImpl.h:1110-1111 | a popped column gets weight zero without touching the lists |
| WeightSets.WeightData.GetMinWeightNode | volePSI/PxUtil.h:325-337 | returns a column of least non-zero weight; the throw is reached only if no column has a non-zero weight |
| WeightSets.WeightData.Init | volePSI/PxUtil.h:341-395 | after initialisation each column is in exactly the list of its weight, the lists are linked both ways and the last bucket is non-empty, provided all weights are below 200 |
| WeightSets.WeightData.DropEmptySets | volePSI/PxUtil.h:283-285 | dropping trailing null heads ends at a non-empty bucket and never passes one |
| WeightSets.LinkStructure | volePSI/PxUtil.h:252-273 | the linked bucket structure after a push, as lists of columns |
| WeightSets.UnlinkStructure | volePSI/PxUtil.h:276-313 | the linked bucket structure after a pop, as lists of columns |
| WeightSets.LinkBucket | volePSI/PxUtil.h:262-272 | prev and next mirror each other in the bucket a column was pushed to |
| WeightSets.UnlinkBucket | volePSI/PxUtil.h:278-312 | prev and next mirror each other in the bucket a column was popped from, whether it was first, last or in between |
| WeightSets.SizeTellsWeight | volePSI/PaxosImpl.h:1106 | more than one bucket is left exactly when some column still has a non-zero weight: the loop guard of the peeling |
| PaxosCore.Paxos.CountWeights | volePSI/PaxosImpl.h:855-867 | the counted weights are the numbers of rows that use each column, and sum to all entries |
| PaxosCore.Paxos.RebuildColumns | volePSI/PaxosImpl.h:2233-2290 | the rebuilt columns are the exact transpose of the rows and their spans tile the backing array; the throws happen exactly when the total does not match |
| PaxosCore.Paxos.FillRows | volePSI/PaxosImpl.h:2249-2289 | every row number is written once to each of its columns |
| SparseMatrix.ColumnMembers | volePSI/PaxosImpl.h:2249-2289 | row r is in column c once exactly when c is in row r, rows in increasing order |
| SparseMatrix.FillStep | volePSI/PaxosImpl.h:2276-2289 | one write at the end of a span extends that column and disturbs no other span |
| SparseMatrix.FillAll | volePSI/PaxosImpl.h:2249-2289 | after the last write each span holds its whole column |
| PaxosCore.Paxos.SetInput | volePSI/PaxosImpl.h:846-871 | taking over rows and hashes leaves the matrix, its transpose and the weight structure consistent; false exactly on a wrong shape |
| PaxosCore.Paxos.Triangulate | volePSI/PaxosImpl.h:1087-1180 | the peeling always ends, never reaches its no-row throw, and throws for lack of a column only if there is none; every main column was of least non-zero weight among the rows left, the main columns determine the rest, and there is no gap row if and only if every set of rows has a column that one row alone uses; it throws for duplicate hashes only if there are some and there is no such column for some set; otherwise the rows split into main and gap rows and the main block is unit triangular |
| PaxosCore.Paxos.PeelNext | volePSI/PaxosImpl.h:1106-1176 | one round of the peeling: takes a column that of all columns is used by the fewest rows left, makes the first of these rows its main row and the others its gap rows, in their order, and keeps the invariant |
| PaxosCore.Paxos.PeelColumn | volePSI/PaxosImpl.h:1116-1172 | setting the rows of the popped column makes its first unset row the main row and the others gap rows of it, in their order, lowering exactly the weights of their live columns; it throws for duplicates only if two unset rows use the column |
| PaxosCore.Paxos.DecrementRow | volePSI/PaxosImpl.h:1125-1147 | the live columns of a newly set row lose one weight each, all others none |
| PaxosCore.StartPeeling | volePSI/PaxosImpl.h:1105-1106 | the invariant holds before the first round |
| Peeling.CountRow | volePSI/PaxosImpl.h:1122-1147 | each weight keeps equal to the number of unset rows in its column when a row is set |
| Peeling.AddMain | volePSI/PaxosImpl.h:1152-1157 | the main row contains its main column and none chosen earlier: triangularity is kept |
| Peeling.AddGap | volePSI/PaxosImpl.h:1158-1170 | a further row of the column is recorded as a gap row with its main row |
| Peeling.ChooseColumn | volePSI/PaxosImpl.h:1108-1112 | a column of least weight has an unset row, so a main row is always found |
| Peeling.EnoughLive | volePSI/PxUtil.h:284-285 | with weight three, or two spare columns, a pop during the peeling never empties the structure |
| Peeling.PeelingDone | volePSI/PaxosImpl.h:1106-1176 | when no weight is left every row is set, and the rows split exactly into main and gap rows |
| LeastWeight.UnsetAreAvoiding | volePSI/PaxosImpl.h:1106-1147 | between two rounds the unset rows are those that use no main column |
| LeastWeight.LeastChosen | volePSI/PaxosImpl.h:1108 | a live column of least weight is used by the fewest unset rows among all columns: the weights mean what the matrix says |
| LeastWeight.LeastOfTwo | volePSI/PaxosImpl.h:1108-1172 | if a column of least weight is used by two rows left, some set of rows has no column that one row alone uses |
| LeastWeight.PeelableExactly | volePSI/PaxosImpl.h:1087-1180 | taking columns of least weight first, no gap row is left if and only if every non-empty set of rows has a column that exactly one of them uses |
| FCInverse.GetFCInv | volePSI/PaxosImpl.h:2293-2383 | for every gap row, adding the returned main rows clears it on all main columns; a gap row equal to its main row gets that row alone |
| FCInverse.ReduceRow | volePSI/PaxosImpl.h:2336-2378 | the elimination of one gap row ends, the largest remaining index of C decreasing, with nothing left on the main columns |
| FCInverse.BuildMapping | volePSI/PaxosImpl.h:2329-2334 | the mapping sends each main column to its index in C and every other column to -1 |
| FCInverse.Toggle | volePSI/PaxosImpl.h:2360-2375 | xoring a column into the tracked row adds or removes its index of C |
| FCInverse.LaterColumns | volePSI/PaxosImpl.h:2346-2378 | adding the row of the largest index leaves only smaller ones: why the elimination ends |
| FCInverse.SameRow | volePSI/PaxosImpl.h:2310-2319 | a duplicate row cancels on every column, main or not |
| Gf128.Inverse | volePSI/PaxosImpl.h:30-61 | the addition chain computes x to the power 2^128 - 2, for every x |
| Gf128.Round | volePSI/PaxosImpl.h:38-54 | one round squares the subfield size: a is x^(2^(2^i) - 1) on entry and the same for i + 1 on exit |
| Gf128.TowerSeven | volePSI/PaxosImpl.h:58 | seven rounds reach the exponent 2^128 |
| Gf128.InverseLaw | volePSI/PaxosImpl.h:56 | the result is the inverse of every non-zero element |
| BlockField.GfMul | out/libOTe/cryptoTools/cryptoTools/Common/block.h:641-673 | the shift-and-add loop computes Times, the product that TimesIsProduct explains |
| BlockProduct.TimesIsProduct | out/libOTe/cryptoTools/cryptoTools/Common/block.h:641-673 | Times is the product of the two blocks as polynomials over GF(2), reduced modulo x^128 + x^7 + x^2 + x + 1 |
| BlockProduct.ReduceModulus | out/libOTe/cryptoTools/cryptoTools/Common/block.h:643-668 | reduction sends every multiple of the modulus to zero |
| BlockProduct.ReduceAdds | out/libOTe/cryptoTools/cryptoTools/Common/block.h:653-668 | reduction is linear |
| BlockProduct.ReduceBlock | out/libOTe/cryptoTools/cryptoTools/Common/block.h:646-668 | reduction leaves a polynomial of less than 128 terms as it is |
| BlockField.BlockLaws | out/libOTe/cryptoTools/cryptoTools/Common/block.h:641-673 | block multiplication is commutative, associative, distributes over xor and has a one: the laws that the solver assumes |
| BlockField.TimesCommutes | out/libOTe/cryptoTools/cryptoTools/Common/block.h:641-673 | multiplication of blocks commutes, though the code treats its operands differently |
| BlockField.TimesAssociates | out/libOTe/cryptoTools/cryptoTools/Common/block.h:641-673 | multiplication of blocks is associative |
| BlockSquares.EvalSquare | out/libOTe/cryptoTools/cryptoTools/Common/block.h:641-673 | spreading the bits of a word and reducing squares its block |
| BlockSquares.ClimbsToOne | out/libOTe/cryptoTools/cryptoTools/Common/block.h:641-673 | adding a block to its square 127 times takes x^127 to one: the certificate |
| BlockOrder.EveryBlockCombines | out/libOTe/cryptoTools/cryptoTools/Common/block.h:641-673 | every block is a sum of the certificate and its climbs, by counting |
| BlockOrder.SquaredBack | out/libOTe/cryptoTools/cryptoTools/Common/block.h:641-673 | squaring 128 times gives every block back |
| BlockOrder.FixedBySquaring | out/libOTe/cryptoTools/cryptoTools/Common/block.h:641-673 | only zero and one are their own squares |
| BlockOrder.BlockOrderIsOne | volePSI/PaxosImpl.h:33-58 | every non-zero block to the power 2^128 - 1 is one |
| BlockOrder.BlocksAreAField | volePSI/PaxosImpl.h:30-61 | the 128-bit blocks satisfy every law that the solver assumes, that of the inversion included |
| BlockOrder.BlocksActAsAField | volePSI/PaxosImpl.h:30-61 | so they do when they act on any values |
| TinyField.QuadField | volePSI/PaxosImpl.h:30-61 | a field of four elements satisfies those laws too: it is the field of the missed pivot below |
| MatrixInverse.Invert | volePSI/PaxosImpl.h:63-133 | the in-place elimination returns exactly what the row-operation model of it returns, the empty result included |
| Elimination.InverseSound | volePSI/PaxosImpl.h:63-133 | whenever a matrix is returned, p is its product with x if and only if p solves m p = x |
| Elimination.StageSolves | volePSI/PaxosImpl.h:105-130 | scaling the pivot row and clearing its column keep the solution set |
| Elimination.PivotSolves | volePSI/PaxosImpl.h:80-103 | swapping in a pivot row keeps the solution set |
| Elimination.InverseFails | volePSI/PaxosImpl.h:81-103 | the empty matrix is returned exactly for singular matrices and for those on which the search, which accepts only an entry equal to one, misses a non-zero pivot |
| Elimination.MissedPivotExample | volePSI/PaxosImpl.h:89 | an invertible matrix that the search for a one misses: the comment says non-zero, the code compares with one |
| TinyField.QuadMissesPivot | volePSI/PaxosImpl.h:89 | the missed pivot occurs in a concrete field |
| Okvs.GatheredRows | volePSI/PaxosImpl.h:1352-1362 | adding rows up adds their sparse parts by symmetric difference, their dense parts coefficient by coefficient, and their values |
| Okvs.GapValue | volePSI/PaxosImpl.h:1349-1390 | a gap row whose combined dense part gives the gathered value decodes to its value up to what its sparse part leaves uncancelled |
| Okvs.SolveRow | volePSI/PaxosImpl.h:1718-1733 | writing the missing amount to the zero main column of a row makes the row decode to its value |
| Okvs.KeepRow | volePSI/PaxosImpl.h:1710-1735 | rows that do not use that column are not disturbed |
| Backfill.BuildGapSystem | volePSI/PaxosImpl.h:1591-1625 | the gap system holds the combined powers of the hashes and the gathered values, completed by random rows when randomising |
| Backfill.SolveDense | volePSI/PaxosImpl.h:1571-1648 | the dense part solves every gap row and gives every drawn row its drawn value, or is zero beyond the gaps without a draw; the throw happens exactly when the elimination finds no inverse |
| Backfill.ProductMeetsDraws | volePSI/PaxosImpl.h:1611-1642 | the product of the inverse and the right-hand side gives every drawn row its drawn value |
| Backfill.ProductSolvesGaps | volePSI/PaxosImpl.h:1627-1642 | the product of the inverse and the right-hand side solves the gap system |
| Backfill.Missing | volePSI/PaxosImpl.h:1679-1730 | the amount computed for a main row is its value xored with what it decodes to so far, on the weight-three and the general path, with and without dense part |
| Backfill.SubstituteStep | volePSI/PaxosImpl.h:1670-1735 | each step of the back substitution makes one more main row decode and keeps the earlier ones |
| PaxosGf128.BackSubstitute | volePSI/PaxosImpl.h:1650-1735 | after the back substitution all main rows decode to their values and the other columns are untouched |
| PaxosGf128.BackfillGf128 | volePSI/PaxosImpl.h:1558-1737 | main rows decode, gap rows decode up to their uncancelled sparse part; it throws exactly if there are more gap rows than dense columns, or there are gap rows and the elimination finds no inverse |
| PaxosGf128.RandomizeFree | volePSI/PaxosImpl.h:1197-1211 | following the list of the remaining bucket writes every free column and no other |
| PaxosGf128.Encode | volePSI/PaxosImpl.h:1184-1214 | the rows are triangulated, by columns of least weight, and the gap rows cleared; main rows decode, and without randomness, or if every gap row repeats its main row, every row does; with randomness every row decodes if and only if the drawn values sum to zero on what remains of each gap row; every free column holds what was drawn for it, or zero, and the dense part too as far as the gaps leave it; if every set of rows has a column that one row alone uses, none of the throws for gaps or duplicates happens; otherwise no free column, too many gap rows and no inverse are thrown exactly then, duplicates only if two hashes are equal; two items equal in row and hash are never encoded, unless zero is the only value |
| PaxosGf128.OneGapExactly | volePSI/PaxosImpl.h:1627-1629 | a single gap row is solved if and only if the hashes of the rows added up do not sum to zero |
| PaxosGf128.OneRepeatSolved | volePSI/PaxosImpl.h:1247-1249 | a single gap row that repeats its main row is always solved |
| PaxosGf128.TwinsHaveNoInverse | volePSI/PaxosImpl.h:1627-1629 | if two items equal in row and hash come through the peeling, the gap system has no inverse, drawn rows or not |
| Twins.NotMain | volePSI/PaxosImpl.h:1158-1170 | of two items equal in row and hash neither is a main row after the peeling |
| Twins.TwinsCombine | volePSI/PaxosImpl.h:1349-1390 | the gap rows of such a pair have the same combined coefficients, however each is cleared |
| PaxosGf128.DecodesIffCancels | volePSI/PaxosImpl.h:1241-1267 | all rows decode if and only if the sparse remainders of the gap rows sum to zero |
| PaxosGf128.DecodesIffDrawCancels | volePSI/PaxosImpl.h:1241-1267 | whether the remainders sum to zero depends on the values drawn for the free columns alone |
| FreeDraws.RemainderUnique | volePSI/PaxosImpl.h:1352-1369 | what remains of a gap row does not depend on which main rows clear it: the matrix and the main rows determine it |
| FreeDraws.MainRowsIndependent | volePSI/PaxosImpl.h:1342-1347 | no sum of main rows vanishes on the main columns except the empty one |
| FreeDraws.VanishesIffSpanned | volePSI/PaxosImpl.h:1247-1249 | nothing remains of a gap row if and only if it is a sum of main rows |
| FreeDraws.EveryDrawCancels | volePSI/PaxosImpl.h:1247-1249 | every draw decodes all rows if and only if every gap row is a sum of main rows: the exact form of the assumption stated in the code |
| FreeDraws.DrawnSum | volePSI/PaxosImpl.h:1197-1211 | the main columns do not enter the remainders |
| FreeDraws.ThreeRowsPeeled | volePSI/PaxosImpl.h:1247-1249 | three rows, no two equal, whose peeling leaves a gap row that is no sum of main rows |
| FreeDraws.ThreeRowsCancel | volePSI/PaxosImpl.h:1247-1249 | a draw decodes these rows only if it is zero in column 0, so the randomised encoding fails on them |
| FreeDraws.ThreeRowsFail | volePSI/PaxosImpl.h:1247-1249 | however these rows are triangulated, a gap row is no sum of main rows, so some draw does not decode |
| PaxosGf128.ThreeRowsInvertible | volePSI/PaxosImpl.h:1627-1629 | the gap of these rows is inverted whenever their hashes do not sum to zero, so that the encoding returns |
| PaxosGf128.ZeroesCancel | volePSI/PaxosImpl.h:1195-1213 | with zeroes in the free columns every gap row cancels |
| PaxosGf128.ShortcutsCancel | volePSI/PaxosImpl.h:1247-1249 | a gap row that repeats its main row cancels whatever the free columns hold: the assumption of the code |
| PaxosDecode.Decode1 | volePSI/PaxosImpl.h:2189-2230 | decoding one key gives the row value: sparse entries and powers of the hash times the dense columns |
| PaxosDecode.Decode32 | volePSI/PaxosImpl.h:1742-1951 | decoding thirty-two keys column by column gives each of them the value of a single decode |
| PaxosDecode.DenseLanes | volePSI/PaxosImpl.h:1898-1951 | each lane keeps its own power of its own hash |
| PaxosDecode.Decode | volePSI/PaxosImpl.h:921-980 | decoding in batches of thirty-two and one by one gives every key its row value, xored into what was there or written |
| PaxosDecode.DecodedIsHorner | volePSI/PaxosImpl.h:2189-2230 | that value is the sum of the columns of the row and of e (p[0] + e (p[1] + ...)) over the dense columns |
| PaxosDecode.SolveThenDecode | volePSI/PaxosImpl.h:758-980 | round trip: take over the parameters and the input, encode without randomness, decode; it throws for too few columns exactly when there are more items than columns, if encoding returns the decoded values are the given ones, and it does return if every set of rows has a column that one row alone uses |
| PaxosBinary.CombineHashes | volePSI/PaxosImpl.h:1285-1288 | the xored hashes of a gap row and its main rows hold the combined bits |
| PaxosBinary.BuildGapBits | volePSI/PaxosImpl.h:1278-1298 | the bit matrix of the gap rows on the chosen dense columns |
| PaxosBinary.GetGapCols | volePSI/PaxosImpl.h:2385-2432 | the search returns the first listed choice of dense columns on which the gap rows are invertible, and fails only if no listed choice is |
| PaxosBinary.GetX2Prime | volePSI/PaxosImpl.h:1216-1270 | the right-hand sides: gathered values less what the drawn dense columns contribute |
| PaxosBinary.PlaceGapColumns | volePSI/PaxosImpl.h:1469-1483 | the gap columns receive the product of the inverse and the right-hand sides, all other columns stay |
| PaxosBinary.PlacedSolvesGaps | volePSI/PaxosImpl.h:1466-1483 | the columns so placed solve every gap row, with the drawn columns accounted for |
| PaxosBinary.DotPlaced | volePSI/PaxosImpl.h:1469-1483 | values placed at distinct zero columns contribute exactly the selected coefficients times the values |
| PaxosBinary.MissingBits | volePSI/PaxosImpl.h:1514-1549 | the amount for a main row, from all bits when randomising and from the gap columns alone otherwise |
| PaxosBinary.SelectedDot | volePSI/PaxosImpl.h:1540-1549 | when the other dense columns are zero the gap columns give the whole dense part |
| PaxosBinary.RandomizeDenseCols | volePSI/PaxosImpl.h:1303-1316 | all dense columns but the gap columns are drawn |
| PaxosBinary.BackfillBinary | volePSI/PaxosImpl.h:1422-1553 | main rows decode, gap rows decode up to their uncancelled sparse part; it throws exactly if there are more gaps than allowed or the search for gap columns fails |
| PaxosBinary.EncodeBinary | volePSI/PaxosImpl.h:1184-1214 | the same statement for bits; every dense column outside the first choice of gap columns that can be inverted holds what was drawn for it, or zero; a failed search takes the place of a missing inverse |
| PaxosBinary.TwinsHaveNoSelection | volePSI/PaxosImpl.h:2385-2432 | if two items equal in row and hash come through the peeling, no choice of dense columns is invertible |
| PaxosBinary.BitSpaceLaws | volePSI/PaxosImpl.h:1422-1553 | bits acting on any values with an xor satisfy all assumed laws |
| PaxosBinary.EliminationInverts | volePSI/PaxosImpl.h:1464 | the contract asked of the bit inversion is met by Gauss-Jordan elimination: over bits no pivot is missed |
| PaxosBinaryDecode.Decode1Bits | volePSI/PaxosImpl.h:2218-2229 | decoding one key adds the dense columns whose bit is set |
| PaxosBinaryDecode.Decode32Bits | volePSI/PaxosImpl.h:1742-2024 | decoding thirty-two keys bit by bit gives each the value of a single decode |
| PaxosBinaryDecode.DecodeBits | volePSI/PaxosImpl.h:921-980 | batched decoding with bits gives every key its row value, xored into what was there or written |
| PaxosBinaryDecode.DecodedIsSelection | volePSI/PaxosImpl.h:2218-2229 | that value is the sum of the columns of the row and of the dense columns whose bit of the hash is set |
| PaxosBinaryDecode.SolveThenDecodeBits | volePSI/PaxosImpl.h:758-980 | the same round trip with bits, given the inversion contract |
| PaxosHash.Mod32 | volePSI/PaxosImpl.h:237-304 | thirty-two quotients by a precomputed divider give the thirty-two remainders |
| PaxosHash.RemainderByDivider | volePSI/PaxosImpl.h:272-303 | the value less the wrapped product of quotient and modulus is the remainder |
| PaxosHash.MissingRank | volePSI/PaxosImpl.h:665-676 | the column found by raising past smaller entries is the missing number of that rank: exactly rank numbers below it are missing too |
| PaxosHash.MissingIsNew | volePSI/PaxosImpl.h:665-676 | it is not in the row and at most the row length above the rank |
| PaxosHash.InsertColumn | volePSI/PaxosImpl.h:665-685 | the loop inserts that number into the row, in place and in order |
| PaxosHash.ChosenInRange | volePSI/PaxosImpl.h:627-685 | for every hash and weight the columns are distinct, increasing and in range |
| PaxosHash.BuildRow | volePSI/PaxosImpl.h:613-688 | writes the columns of a hash, for weight three and for the other weights; ThreeOfBits and NextColumn say which bits of the hash they come from |
| PaxosHash.RaisedThree | volePSI/PaxosImpl.h:633-654 | the minimum and maximum comparisons raise each column past the earlier ones |
| PaxosHash.RowOfGood | volePSI/PaxosImpl.h:613-688 | the columns of every hash are distinct and in range |
| PaxosHash.RaiseLane | volePSI/PaxosImpl.h:416-545 | the masked, branch-free lane computes the same three columns |
| PaxosHash.MaskedExtremes | volePSI/PaxosImpl.h:416-463 | masked exclusive ors select the larger and the smaller word |
| PaxosHash.BuildRow32 | volePSI/PaxosImpl.h:380-609 | thirty-two hashes at a time give exactly the rows of thirty-two single calls |
| HashBits.NumberBits | volePSI/PaxosImpl.h:629-635 | a word of the hash has exactly the bits of the hash from its place on |
| HashBits.ThreeOfBits | volePSI/PaxosImpl.h:629-654 | weight three: for the words whose bits are those from bits 0, 32 and 64 of the hash on, the row is their remainders by n, n - 1 and n - 2, raised past each other |
| HashBits.NextColumn | volePSI/PaxosImpl.h:657-685 | other weights: column j + 1 is the one below which as many columns are unused as the first word of the hash to the power 2^(j + 1), reduced by n - j, says |
| HashBits.SquaredIsPower | volePSI/PaxosImpl.h:660-663 | the hash that is squared once for each column is a power of the hash |
| HashBits.FoldedBits | volePSI/Paxos.h:571-574 | each bit of the folded hash is the sum of bits k and 64 + k of the hash, and of bit 96 + k for k below 32 |
| HashBits.BinOfBits | volePSI/Paxos.h:576-579 | the bin is the word of these bits reduced by the number of bins |
| WideDivision.MulHiExact | out/libdivide/libdivide.h:324-338 | the portable high word of a product is exact: no partial sum wraps around |
| WideDivision.DigitExact | out/libdivide/libdivide.h:541-546 | an estimated digit is at most two too large, the one correction makes it exact, and its products fit in a word |
| WideDivision.DigitDivides | out/libdivide/libdivide.h:541-549 | the truncated digit and the wrapped remainder are the exact ones |
| WideDivision.NormalizedParts | out/libdivide/libdivide.h:526-530 | shifting by the leading zeros keeps the quotient and loses no bit of the numerator |
| WideDivision.Divide128By64 | out/libdivide/libdivide.h:471-562 | quotient and remainder are exact whenever the high word is below the divisor, and all ones otherwise |
| WideDivision.ShiftDouble | out/libdivide/libdivide.h:567-579 | the two-word shift is a multiplication or a division by the power of two |
| WideDivision.EstimateWithinOne | out/libdivide/libdivide.h:616-634 | dividing by the leading word, scaled back, overshoots by at most one |
| WideDivision.EstimateQuotient | out/libdivide/libdivide.h:613-641 | the lowered estimate is exact or one too small and fits in a word |
| WideDivision.TimesExact | out/libdivide/libdivide.h:643-652 | the double-word product of estimate and divisor is exact |
| WideDivision.SubExact | out/libdivide/libdivide.h:654-658 | subtraction by words with a borrow is exact |
| WideDivision.Divide128By128 | out/libdivide/libdivide.h:583-676 | quotient and remainder are exact for every divisor of more than a word, and for a one-word divisor when the quotient fits |
| WideDivision.NoWordQuotient | out/libdivide/libdivide.h:605-612 | in the remaining case no word is the quotient, so the condition is exact |
| Libdivide.Gen | out/libdivide/libdivide.h:1008-1059 | generating gives the divider with the smaller power when precise enough and the wrapped larger one otherwise, by wrapping doubling; zero is refused; in the 16, 32 and 64 bit forms |
| Libdivide.BranchfreeGen | out/libdivide/libdivide.h:1065-1073 | the branch-free divider keeps the shift alone; zero and one are refused |
| Libdivide.DoDivides | out/libdivide/libdivide.h:1075-1090 | dividing with the generated divider is floor division, for every divisor, numerator and width, on the shift, multiply and add paths |
| Libdivide.BranchfreeDivides | out/libdivide/libdivide.h:1092-1097 | the branch-free form is floor division for every divisor but one |
| Libdivide.EveryWidthDivides | out/libdivide/libdivide.h:1008-1090 | the same division for words of any size |
| Libdivide.EveryWidthBranchfree | out/libdivide/libdivide.h:1065-1097 | the same branch-free division for words of any size |
| Libdivide.MagicDivides | out/libdivide/libdivide.h:1028-1049 | a magic number whose product with d exceeds the power by little enough divides every word exactly |
| Libdivide.AddPath | out/libdivide/libdivide.h:1081-1083 | halving the difference, adding and shifting computes with the bit that the magic number lost |
| Libdivide.MagicZero | out/libdivide/libdivide.h:1018-1049 | the stored magic number is zero exactly for powers of two |
| Libdivide.AddMagic | out/libdivide/libdivide.h:1038-1049 | the larger magic number has exactly one bit more than a word |
| Libdivide.PlainMagic | out/libdivide/libdivide.h:1028-1037 | the smaller magic number fits in a word |
| Libdivide.DoubledRemainder | out/libdivide/libdivide.h:1045-1046 | the wrapped test tells whether the doubled remainder reaches the divisor |
| Libdivide.Recover | out/libdivide/libdivide.h:1099-1141 | the recovered divisor is the one that the divider was generated for, in all widths |
| Libdivide.BranchfreeRecover | out/libdivide/libdivide.h:1143-1176 | the same for branch-free dividers |
| Libdivide.RecoverWide | out/libdivide/libdivide.h:1114-1139 | halving the power and doubling quotient and remainder divides by the wide magic number |
| Libdivide.GeneratedFits | out/libdivide/libdivide.h:1008-1073 | every generated divider can be recovered from |
| Words.PowerOfTwo | out/libdivide/libdivide.h:1017-1018 | clearing the lowest set bit leaves zero exactly for a power of two |
| BaxosSolve.RunKeeps | volePSI/PaxosImpl.h:2731-2941 | every step of every thread keeps: bin sizes, segments, the merged prefix, the barrier count, and which bins are solved |
| BaxosSolve.RunSolvesBins | volePSI/PaxosImpl.h:2731-2941 | under every schedule and thread count a run that ends has solved each bin with exactly its items, in input order; it fails only if a bin is too full |
| BaxosSolve.NoEarlyRead | volePSI/PaxosImpl.h:2807-2824 | no thread takes up a bin before all threads have hashed all their items |
| BaxosSolve.NoDeadlock | volePSI/PaxosImpl.h:2807-2819 | while a run has not ended or failed some thread can step |
| BaxosSolve.RunsEnd | volePSI/PaxosImpl.h:2731-2941 | no run takes more steps than a bound on its work |
| BaxosSolve.RunContinues | volePSI/PaxosImpl.h:2731-2941 | every run, whatever its schedule so far, can be continued until it has ended or failed |
| BaxosSolve.Tiles | volePSI/PaxosImpl.h:2733-2735 | the ranges of the threads tile the input |
| BaxosSolve.Balanced | volePSI/PaxosImpl.h:2733-2735 | every thread gets the number of items divided by that of threads, rounded down or up |
| BaxosSolve.ItemsExact | volePSI/PaxosImpl.h:2750-2792 | the items of a bin are those inputs whose bin it is, each once |
| BaxosSolve.MovedSegments | volePSI/PaxosImpl.h:2848-2875 | moving a segment down extends the merged prefix and leaves later segments alone |
| BaxosSolve.PrefixRoom | volePSI/PaxosImpl.h:2848-2875 | merged items always end before the segment to be moved next |
| BaxosBins.MoveDown | volePSI/PaxosImpl.h:2870-2873 | moving a segment down over itself keeps its entries |
| BaxosBins.MergeBin | volePSI/PaxosImpl.h:2841-2884 | the in-place merge makes hashes and values the concatenation of the segments and touches no other bin |
| BaxosBins.BinsOf32 | volePSI/PaxosImpl.h:2764-2767 | the bins of thirty-two hashes by the precomputed divider are the remainders of the folded hashes |
| BaxosBins.DecodeBin | volePSI/PaxosImpl.h:3010-3067 | in either dense mode the hashes of a bin are decoded to their listed places, thirty-two at a time and one by one; other places stay |
| BaxosBins.Enqueue | volePSI/PaxosImpl.h:3116-3132 | a key waits in the batch of its bin; a full batch is decoded |
| BaxosBins.DecodeBatch | volePSI/PaxosImpl.h:3071-3170 | in either dense mode every key is decoded exactly once, through the part of its bin |
| BaxosBacking.RunMirrors | volePSI/PaxosImpl.h:2750-2884 | in every reachable state, under every schedule, the shared array mirrors the slots of every bin |
| BaxosBacking.RunSizes | volePSI/PaxosImpl.h:2743-2811 | once the barrier is open the sizes count the items of every thread and bin |
| BaxosBacking.TakenUp | volePSI/PaxosImpl.h:2807-2824 | under every schedule: when a thread takes up a bin, the array that the steps wrote holds the segments of all threads for it |
| BaxosBacking.MergedUp | volePSI/PaxosImpl.h:2846-2884 | when all segments of a bin are moved, whatever the other threads do, its entries stand together in input order |
| BaxosBacking.MergedItems | volePSI/PaxosImpl.h:2852-2884 | the merged segments are the items of the bin, in input order |
| BaxosBacking.MergeBacked | volePSI/PaxosImpl.h:2841-2884 | after the in-place merge of a bin its keys and values stand together in input order, and every other bin holds what it held |
| BaxosRoundTrip.BuildRows | volePSI/PaxosImpl.h:2886-2924 | the rows of a bin, in batches or one by one |
| BaxosRoundTrip.EncodeBin | volePSI/PaxosImpl.h:2886-2927 | in either dense mode, with or without random values: if the encoding of a bin returns, main rows decode, all its items do exactly when the draw cancels on what remains of the gap rows, without a draw always, and what the rows do not determine is drawn or zero; it returns if the rows can be peeled |
| BaxosRoundTrip.EveryKeyDecodes | volePSI/PaxosImpl.h:2945-3170 | in either dense mode: all keys decode to their values if and only if the part of every bin encodes its items |
| BaxosRoundTrip.WritePart | volePSI/PaxosImpl.h:2844 | a bin writes its own part of the output; the parts of the other bins stay |
| BaxosRoundTrip.AllBinsDone | volePSI/PaxosImpl.h:2945-3170 | bin by bin: the keys of a bin get their values exactly when its own draw cancels, and those of main rows always do |
| BaxosRoundTrip.AllBinsDrawn | volePSI/PaxosImpl.h:2844-2927 | free column q of bin b, at b times the size of a part plus q, holds entry q of what was drawn for bin b, or zero |
| BaxosRun.ParSolve.HashItem | volePSI/PaxosImpl.h:2769-2792 | the key and value of the next item go to the place of its bin and thread in the shared arrays: the step of the run |
| BaxosRun.ParSolve.ReportDone | volePSI/PaxosImpl.h:2807-2811 | the last thread to report opens the barrier |
| BaxosRun.ParSolve.ChooseBin | volePSI/PaxosImpl.h:2819-2827 | the next bin of the thread is taken up; a bin that is too full ends the run |
| BaxosRun.ParSolve.MoveSegment | volePSI/PaxosImpl.h:2852-2875 | one thread's segment moves down, in the hashes and in the values, while other threads work on other bins |
| BaxosRun.ParSolve.SolveBin | volePSI/PaxosImpl.h:2841-2929 | the merged bin is encoded into its part; the parts of the bins solved before stay done |
| BaxosRun.ParSolve.EncodePart | volePSI/PaxosImpl.h:2886-2927 | the keys and values that stand merged in the arrays are encoded into the part of the bin |
| BaxosRun.ParSolve.TakeStep | volePSI/PaxosImpl.h:2731-2941 | every enabled step of any thread does to the arrays what the step system says, and keeps the invariant of the whole run |
| BaxosRun.ParSolve.Run | volePSI/PaxosImpl.h:2731-2941 | under every schedule: unless an encoding throws, the threads, the shared arrays and the solved parts are those of the run |
| BaxosRun.SolveThenDecodeBins | volePSI/PaxosImpl.h:2633-3170 | the whole way, executed on the shared arrays under any schedule: sorting, barrier, merging and encoding of every bin, batched decoding, in either dense mode; the keys of a bin get their values, with random values exactly when the draw of that bin cancels; the draws are in the output; no encoding throws if the rows of every bin can be peeled |
| Mpsi.XorAllInto | volePSI/Mpsi.cpp:58-65 | masking by all shares, and the same loops at the last sender, in place |
| Mpsi.SharesCancel | volePSI/Mpsi.cpp:153-160 | for a key that every client holds the shares cancel at the last sender |
| Mpsi.CommonIsFound | volePSI/Mpsi.cpp:34-101 | completeness for any number of parties: an element of all sets is in the output |
| Mpsi.OutputExact | volePSI/Mpsi.cpp:96-101 | an element is output if and only if its random value occurs among the decoded results |
| Mpsi.RunKeeps | volePSI/Mpsi.cpp:67-220 | in every order of sends and receives each message is what the protocol says |
| Mpsi.MessagesAre | volePSI/Mpsi.cpp:53-65 | in every order: client i is sent share i, the last sender the table with the entries of all shares xored in at every position, and client i replies with its share decoded at its keys and encoded again |
| Mpsi.OneClientLacks | volePSI/Mpsi.cpp:153-160 | for an element that client i alone lacks the last sender decodes the random value of the receiver, xored with what share i and reply i decode to |
| Mpsi.LackingIsExcluded | volePSI/Mpsi.cpp:96-160 | exclusion: barring a chance match, such an element is output if and only if share i and reply i agree on it |
| Mpsi.EveryOrderExcludes | volePSI/Mpsi.cpp:34-220 | the same in every order of sends and receives |
| Mpsi.EveryOrderFindsCommon | volePSI/Mpsi.cpp:34-220 | in every order of sends and receives the output has every common element |
| Mpsi.NoDeadlock | volePSI/Mpsi.cpp:67-220 | until there is an output some send, receive or computation is possible |
| Mpsi.RunsEnd | volePSI/Mpsi.cpp:27-220 | no run takes more than four actions for each client and four more, and one that took them all has an output |
| Mpsi.DecodeXorAll | volePSI/Mpsi.cpp:153-160 | decoding a sum of tables sums the decodings |
| Mpsi.ContractIsMet | volePSI/Mpsi.cpp:43-50 | the contract asked of the store and of the two-party intersection can be met for all inputs |
| RsOprf.SendMasked | volePSI/RsOprf.cpp:496-541 | the chunked sending loop, its advancing views and its tail loop included |
| RsOprf.ShortVectors | volePSI/RsOprf.cpp:496-541 | under two chunks the messages are the masked vector |
| RsOprf.LongVectors | volePSI/RsOprf.cpp:496-541 | from two chunks on they are not, unless the mask is zero at the first entry of the second chunk: that entry goes out unmasked or the vector is given away |
| RsOprf.ChunkedExactly | volePSI/RsOprf.cpp:496-541 | chunked transfer equals whole-vector transfer exactly for lengths under two chunks |
| RsOprf.RsOprfSender.Send | volePSI/RsOprf.cpp:75-190 | the sender joins the half masks and adds d times each received chunk to its vector in place |
| RsOprf.RsOprfSender.Eval | volePSI/RsOprf.cpp:204-302 | evaluation in both modes |
| RsOprf.UpdateGives | volePSI/RsOprf.cpp:146-190 | the update turns b into a xor d p |
| RsOprf.EvalOfAny | volePSI/RsOprf.cpp:204-302 | for any value the sender gets what the receiver decodes, plus d times what p decodes amiss |
| RsOprf.OprfAgrees | volePSI/RsOprf.cpp:204-302 | for every encoded value the sender evaluates to the receiver output, in semi-honest and malicious mode |
| RsOprf.Finish | volePSI/RsOprf.cpp:545-620 | the receiver throws exactly if the half mask that arrives is not the committed one, and otherwise decodes, masks and hashes |
| RsOprf.Exchange | volePSI/RsOprf.cpp:450-620 | the whole exchange: masked transfer, update, check of the commitment; for every encoded value both sides output the decoding of a, hashed with the value and with both half masks xored in for a malicious sender, hashed alone otherwise; the vector of the sender ends as a xor d p |
| LinearDecoding.DecodedLinear | volePSI/PaxosImpl.h:2189-2230 | decoding with powers is linear in the output vector |
| LinearDecoding.BitsLinear | volePSI/PaxosImpl.h:2218-2229 | so is decoding with bits |
| LinearDecoding.KeyDecoderLinear | volePSI/PaxosImpl.h:3010-3170 | decoding through the bins is linear in either dense mode, which the two protocols require |
| BasisConversion.ExpandedIsProduct | out/bitpolymul/bitpolymul/bc_to_lch_gen_code.cpp:461-479 | one level is a division with remainder by a sparse monic polynomial: old = low + divisor times high, coefficient by coefficient |
| BasisConversion.ExpandedInjective | out/bitpolymul/bitpolymul/bc_to_lch_gen_code.cpp:461-479 | quotient and remainder are unique |
| BasisConversion.ReduceBlock | out/bitpolymul/bitpolymul/bc_to_lch_gen_code.cpp:461-479 | the descending loop leaves the block that multiplies out to the old one |
| BasisConversion.ExpandBlock | out/bitpolymul/bitpolymul/bc_to_mono_gen_code.cpp:25-43 | the ascending loop multiplies out |
| BasisConversion.Level | out/bitpolymul/bitpolymul/bc_to_mono_gen_code.cpp:25-48 | one level on every block of a part, in either direction |
| BasisConversion.Levels | out/bitpolymul/bitpolymul/bc_to_mono_gen_code.cpp:24-199 | runs of levels, ascending or descending |
| BasisConversion.AllLevels | out/bitpolymul/bitpolymul/bc_to_lch_gen_code.cpp:24-480 | the rule for the offsets gives exactly those that the generated code spells out, for all thirty levels |
| BasisConversion.ToLch | out/bitpolymul/bitpolymul/bc.cpp:266-274 | the levels of the driver: dividing by all of them, the highest first, on the whole, on chunks of 2^19 and of 2^16 |
| BasisConversion.ToMono | out/bitpolymul/bitpolymul/bc.cpp:290-298 | the levels of the driver: multiplying all of them out, the lowest first, on the same chunks |
| BasisConversion.ConversionDetermines | out/bitpolymul/bitpolymul/bc.cpp:266-298 | the conversion by levels is a bijection |
| BasisConversion.ThereAndBack | out/bitpolymul/bitpolymul/bc.cpp:266-298 | the levels there and back give the vector back, in both orders and for every length up to 2^30 |
| PolynomialValues.BlockValue | out/bitpolymul/bitpolymul/bc_to_lch_gen_code.cpp:461-479 | multiplying out a block gives the polynomial with the value of the lower half plus the divisor times the upper half |
| PolynomialValues.LevelValue | out/bitpolymul/bitpolymul/bc_to_lch_gen_code.cpp:461-479 | a level on all blocks keeps the value of the vector, read as polynomials below the level and as quotients and remainders above |
| NovelBasis.Pascal | out/bitpolymul/bitpolymul/bc_to_lch_gen_code.cpp:24-480 | the offset rule is that of the odd binomial coefficients |
| NovelBasis.DivisorIsSubspace | out/bitpolymul/bitpolymul/bc_to_lch_gen_code.cpp:24-480 | the divisor of level j is the j-th of the polynomials x, s^2 + s, and so on |
| NovelBasis.SameValue | out/bitpolymul/bitpolymul/bc.cpp:266-298 | the meaning: the powers of x with the coefficients of one side and the products of these polynomials with those of the other have the same value, at every point of every commutative ring of characteristic two |
| VariableSubstitution.UpBlockExpands | out/bitpolymul/bitpolymul/bc.cpp:222-229 | adding the moved words, within words or by whole words, multiplies the upper half of a block by x^(256 m) + x^m, bit by bit |
| VariableSubstitution.NarrowUp | out/bitpolymul/bitpolymul/bc.cpp:221-229 | the loop within words, from the first word up |
| VariableSubstitution.NarrowDown | out/bitpolymul/bitpolymul/bc.cpp:183-191 | the loop within words, from the last word down, undoes it |
| VariableSubstitution.WideUp | out/bitpolymul/bitpolymul/bc.cpp:43-48 | the loop by whole words, from the first word up |
| VariableSubstitution.WideDown | out/bitpolymul/bitpolymul/bc.cpp:33-39 | the loop by whole words, from the last word down, undoes it |
| VariableSubstitution.Substitution | out/bitpolymul/bitpolymul/bc.cpp:195-216 | the substitution divides by x^(256 m) + x^m at every level, the highest first |
| VariableSubstitution.InverseSubstitution | out/bitpolymul/bitpolymul/bc.cpp:235-254 | the inverse substitution multiplies the levels out, the lowest first |
| VariableSubstitution.SubstitutionInjective | out/bitpolymul/bitpolymul/bc.cpp:195-254 | the substitution is a bijection |
| VariableSubstitution.BcToMono | out/bitpolymul/bitpolymul/bc.cpp:282-303 | the driver: the levels on the words, then the substitution undone on their bits |
| VariableSubstitution.BcToLch | out/bitpolymul/bitpolymul/bc.cpp:257-279 | the driver the other way |
| VariableSubstitution.WholeDetermines | out/bitpolymul/bitpolymul/bc.cpp:256-303 | each side of the whole conversion determines the other |
| VariableSubstitution.DriversThereAndBack | out/bitpolymul/bitpolymul/bc.cpp:256-303 | the two whole drivers, substitution included, undo each other in both orders |
| WholeConversion.SubstitutedValue | out/bitpolymul/bitpolymul/bc.cpp:195-254 | the levels of the substitution keep the value |
| WholeConversion.WordsValue | out/bitpolymul/bitpolymul/bc.cpp:195-254 | after them the words are the coefficients of a polynomial in x^256 + x |
| WholeConversion.DriversKeepValue | out/bitpolymul/bitpolymul/bc.cpp:256-303 | the meaning of the two drivers: the bits of one side as a polynomial at x have the value of the words of the other as coefficients in the basis at x^256 + x |

## Left out

- Probabilities: the failure bounds, the floating-point formulas of PaxosParam::init (volePSI/PaxosImpl.h:157-210) and the bin-size tables; sizes are parameters and "no thread's bin overflows" is a precondition.
- AES, hashing and the generator of random values: hashes and drawn values are arbitrary; the round keys play no part.
- Bit matrix inversion and the enumeration of column choices (DenseMtx::invert, ithCombination) are not part of this model; they are functions with a contract, which the elimination of this model is shown to meet.
- RBOKVS, silent VOLE and the two-party intersection are contracts: an encoding that succeeds and decodes linearly, correlated vectors, and the places of the common values. The multi-party code ignores the status of its encodings; the model takes them to succeed.
- False positives of the multi-party intersection: a value decoded by chance is a probabilistic matter; OutputExact says what is output regardless.
- Index types: columns and rows are unbounded naturals, so the truncation to 8, 16 or 32 bits and the check that the size fits it (volePSI/PaxosImpl.h:761-767) are not modelled.
- PaxosCore.Paxos.SetInput: rows are given as a matrix; the hashing variant differs only in where the rows come from, and BuildRow states what they are.
- PaxosDecode.Decode: without adding, batches of thirty-two go through a buffer that is then copied, where the code writes them to the output directly.
- BaxosSolve.RunSolvesBins: hashing one item, moving one thread's segment and solving one bin are one step each; what happens inside a step is not interleaved with other threads, whose places in the arrays are other ones.
- BaxosRun.ParSolve.EncodePart: a bin is encoded into an array that is then written to its part of the output, where the code hands the encoder a view of that part.
- PaxosCore.Paxos.Triangulate: among columns of the same least weight the code takes the head of their list; which one that is depends on the history of the lists and is left open.
- PaxosGf128.Encode: that the duplicate-hash throw happens has necessary conditions only (two hashes are equal, and the rows cannot be peeled without gap rows); which rows meet in a column, and so whether the code notices, depends on the order of the peeling.
- PaxosBinary.EncodeBinary: the same holds of the duplicate-hash throw with bits.
- One bin: with a single bin the code passes everything straight to one store (volePSI/PaxosImpl.h:2653-2667, 3181-3188); that case is SolveThenDecode and has no bins of its own.
- BaxosBins.DecodeBatch: the split of decoding over threads is not modelled; the threads write disjoint ranges, which Tiles shows to tile the input.
- BasisConversion.Level: the generated loops, one per set of applicable offsets, are modelled by the rule that generates them.
- RsOprf.SendMasked: the view of a vector whose buffer was moved into a message is not followed further; the transfer counts as incomplete from there.
- RsOprf.RsOprfSender.Send: the commitment that the sender sends at the start is a parameter of Exchange, and the receiver checks it there.
- Permutation, the triangulation report and the consistency checks (volePSI/PxUtil.h:25-190, volePSI/PaxosImpl.h:1015-1083) would only add easy members.
- RsPsi, RsOpprf, sockets, coroutines, timers, command line and files: plumbing around the modelled parts.
- The vector and signed variants of the invariant division, butterflies and transform tables: repetition of the modelled scheme or data.
- WeightSets.WeightData.PushNode: a structure without columns that still has list heads is left out; it exists only before the first column is placed.
- Words of 256 bits: the vector instructions of the variable substitution are modelled by what they compute, a shift across two words.
