# Verified models of algorithmic kernels

Dafny models of self-contained kernels of an OCaml and C library suite (Core, bin_prot, pa_compare), and proofs about
them. `dafny verify dfyconfig.toml` checks everything.

| kernel | files |
|---|---|
| (shared) | `Options`, `Sequences`, `Octets` (bytes and little-endian integers), `Bits` (bitwise operations on natural numbers), `BitStrings`, `Words` (machine words as numbers, to compute with), `Divisors` |
| Mutable AVL tree (`avltree.ml`) | `Orders`, `SortedEntries` (sorted association sequences as finite maps), `AvlModel` (the operations on trees as values), `AvlCorrect` (their results as sorted sequences and maps), `AvlHeap` (the operations on nodes changed in place, proved equal to the former), `AvlTheorems` (runs, height, traversal) |
| CRC-32 (`misc.c`) | `Crc32` (table, loop and the serial register they refine), `CrcBursts` (the burst errors detected), `CrcPowers` and `CrcWords` (products of registers, and how to compute them), `CrcOrder` (the period of the register, runs of zero bytes, errors of two bits), `CrcCheck` (residue and check value), `CrcShared` (threads that use and build the table at the same time) |
| CRC-24 (`misc.c`) | `Crc24`, `Crc24Bursts` (the errors detected), `Crc24Check` (check value) |
| Emulated 64-bit arithmetic (`int64_emul.h`) | `Int64Emul`, `Int64Division` |
| Binary protocol (bin_prot) | `BinCodec` (the wire format), `BinMl` and `BinC` (the two sets of codecs, byte by byte), `BinAgree` (the two sets against each other), `BinLists` (loops around element codecs), `BinTypes`, `BinWrite`, `BinRead` (types, values and what the generated sizers, writers and readers do, including the code built for variants), `BinTheorems`, `BinAccepts` (what the readers accept), `BinBytes` (the documented format and the byte strings of the tests) |
| Boolean language (`blang.ml`) | `Blang`, `BlangSexp` |
| Agnostic mutex (`agnostic_mutex.ml`) | `AgnosticMutex` |
| Channel input and output (`bigstring_stubs.c`) | `ChannelPlan` (what the kernel's answers determine), `ChannelIO` (the loops on buffers) |
| Bounded int table (`bounded_int_table.ml`) | `TableRows` (rows and the finite map behind them), `BoundedIntTable` (the arrays and entries) |
| Derived comparison (`pa_compare.ml`) | `Compare`, `CompareDocumented` (against the order the documentation promises) |

How the source's terms are modelled:

- Code that changes objects or arrays in place is modelled by classes, arrays and loops, and each such method is proved
  against a function of the old state; what the source promises is then proved about that function.
- Exceptions and error returns are values. `assert false` branches are never reached: the functions that would reach them
  have preconditions that exclude it, and their callers meet them.
- Machine integers are mathematical integers with the wrapping of the width written out: 63-bit OCaml integers and 64-bit
  longs in the codecs, 32-bit halves in the emulation. The codecs are those of 64-bit platforms.
- Comparison functions given by callers are arbitrary total preorders; keys may be equivalent without being equal.
- Kernel answers, physical equality, base s-expressions and base comparisons are parameters, constrained only as stated.
- Threads are states of a transition system. Every access to shared state is a step of its own, and wake-ups may also be
  spurious.

Where code and documentation differ the model follows the code:

- `avltree.ml` says in a comment that "balanced" means that `invariant` does not raise. `invariant` compares keys of
  neighbouring nodes only, and accepts trees that are not search trees (`AvlTheorems.InvariantIsNotOrdering`). It suffices
  exactly up to height 2 (`AvlTheorems.InvariantSufficesIffLow`); a tree of any height is a search tree exactly when every
  key lies between the last key of its left and the first key of its right subtree
  (`AvlTheorems.SearchTreeIffNeighboursOrdered`). Validity here means ordering over whole subtrees, exact heights and
  sibling heights within 2.
- `blang.mli` gives `gather_conjuncts (and_ ts) = ts` and its dual as equations. They hold only under the exact conditions of
  `Blang.GatherOfAnd` and `Blang.GatherOfOr`.
- The README of pa_compare (`base/compare/README`, line 24) says that options compare as in the standard library; the
  generated code puts `None` above `Some`, and so does the model. The two orders agree exactly on the values whose leftmost
  difference is not between `None` and `Some`, and are opposite there (`CompareDocumented.DocumentedIff`).
- `misc.c` calls its CRC-32 "the standard preset and inverted CRC". The preset is there so that runs of zero bytes do not
  get the CRC of nothing. The register has the longest period there is, 2^32 - 1, so that this succeeds exactly for the runs
  whose length is not a multiple of it (`CrcOrder.CrcOfZeros`); for the others it fails (`CrcOrder.LongRunOfZeros`).
- The division loop of `int64_emul.h` does not guard against a zero divisor. It ends for one exactly when the dividend is
  zero too (`Int64Division.AlignEndsIff`).

## Model

| member | source | states |
|---|---|---|
| `AvlModel.BalanceRestores` | `base/core/lib/avltree.ml:129-214` | A tree whose subtree heights differ by at most 3 (one more than the invariant allows) comes out of `balance` balanced, at the same height or one less |
| `AvlModel.BalanceIdle` | `base/core/lib/avltree.ml:137-214` | `balance` leaves a balanced tree alone |
| `AvlModel.BalanceKeepsContents` | `base/core/lib/avltree.ml:137-214` | Every single and double rotation keeps the in-order sequence of bindings |
| `AvlModel.StepLeft` | `base/core/lib/avltree.ml:216-227` | Rebalancing after a left subtree whose height changed by at most one changes the height of the whole by at most one, in the same direction |
| `AvlModel.StepRight` | `base/core/lib/avltree.ml:229-240` | The mirror image for the right subtree |
| `AvlModel.AddRec` | `base/core/lib/avltree.ml:243-274` | Insertion into a balanced tree gives a balanced tree, never lower and at most one higher, so that every `assert false` of the rotations is out of reach |
| `AvlCorrect.AddRecContents` | `base/core/lib/avltree.ml:243-274` | Insertion into a search tree inserts into its sorted sequence; `added` exactly when no equal key was there |
| `AvlCorrect.AddCorrect` | `base/core/lib/avltree.ml:243-279` | From a valid tree `add` gives a valid tree; every lookup afterwards is that of the updated map, and with `replace` false an existing binding stays; `added` exactly when the key was absent |
| `AvlCorrect.FindCorrect` | `base/core/lib/avltree.ml:283-315` | The search with two levels unrolled is plain lookup in the sorted sequence |
| `AvlModel.RemoveMinElt` | `base/core/lib/avltree.ml:327-335` | Removing the least element of a balanced tree gives a balanced tree at most one lower |
| `AvlCorrect.RemoveMinContents` | `base/core/lib/avltree.ml:320-335` | `min_elt` is the first binding, and `remove_min_elt` removes exactly it |
| `AvlModel.Merge` | `base/core/lib/avltree.ml:337-351` | Two balanced trees of neighbouring heights merge into a balanced tree of bounded height |
| `AvlCorrect.MergeContents` | `base/core/lib/avltree.ml:337-351` | Merging appends the sequences of bindings |
| `AvlModel.RemoveRec` | `base/core/lib/avltree.ml:353-375` | Removal from a balanced tree gives a balanced tree at most one lower, so that no `assert false` is reached |
| `AvlCorrect.RemoveCorrect` | `base/core/lib/avltree.ml:319-380` | From a valid tree `remove` gives a valid tree that maps as before except at the key; `removed` exactly when the key was there |
| `SortedEntries.InsertIsMapUpdate` | `base/core/lib/avltree.ml:243-279` | Inserting into a sorted sequence is updating the map it stands for, for keys up to the comparison |
| `SortedEntries.InsertSorted` | `base/core/lib/avltree.ml:243-279` | Insertion keeps the sequence strictly sorted |
| `SortedEntries.DeleteIsMapRemove` | `base/core/lib/avltree.ml:319-380` | Deleting from a sorted sequence removes the key from the map and nothing else |
| `SortedEntries.DeleteSorted` | `base/core/lib/avltree.ml:319-380` | Deletion keeps the sequence strictly sorted |
| `AvlTheorems.RunRefinesMap` | `base/core/lib/avltree.ml:243-380` | After any run of additions and removals from the empty tree, the tree is valid and `find` answers like a finite map run through the same operations |
| `AvlTheorems.HeightIsLogarithmic` | `base/core/lib/avltree.ml:77-102` | A balanced tree of height h holds at least 2^(h/2) bindings |
| `AvlTheorems.HeightIsDepth` | `base/core/lib/avltree.ml:72-75` | The stored height of a balanced tree is the length of its longest path |
| `AvlTheorems.FoldIsInOrder` | `base/core/lib/avltree.ml:382-397` | `fold` with its special cases for small trees visits the bindings in order |
| `AvlTheorems.FoldCollects` | `base/core/lib/avltree.ml:382-397` | Folding with a function that collects gives the bindings in the order of their keys |
| `AvlTheorems.ValidPassesInvariant` | `base/core/lib/avltree.ml:77-102` | A valid tree passes the check that `invariant` performs |
| `AvlTheorems.InvariantIsNotOrdering` | `base/core/lib/avltree.ml:77-102` | A balanced tree that passes `invariant`, which compares keys of neighbouring nodes only, binds a key, and is searched for it in vain |
| `AvlTheorems.SearchTreeIffNeighboursOrdered` | `base/core/lib/avltree.ml:77-102` | A tree is a search tree exactly when at every node the last key on the left is below and the first key on the right above the node's key |
| `AvlTheorems.InvariantSufficesUpToTwo` | `base/core/lib/avltree.ml:77-102` | Up to height 2 every tree that passes `invariant` is a search tree |
| `AvlTheorems.InvariantSufficesIffLow` | `base/core/lib/avltree.ml:77-102` | The heights at which passing `invariant` implies being a search tree are exactly 0, 1 and 2 |
| `AvlHeap.RotateRight` | `base/core/lib/avltree.ml:137-174` | The assignments of a single right rotation in place leave exactly the nodes of the rotated tree, in their new positions |
| `AvlHeap.RotateLeft` | `base/core/lib/avltree.ml:175-210` | The mirror image |
| `AvlHeap.RotateLeftRight` | `base/core/lib/avltree.ml:137-174` | The assignments of the double rotation in place build the doubly rotated tree from the same nodes |
| `AvlHeap.RotateRightLeft` | `base/core/lib/avltree.ml:175-210` | The mirror image |
| `AvlHeap.FinishDouble` | `base/core/lib/avltree.ml:137-210` | The height assignments that end a double rotation, in the order of either side, make both lower heights exact before the upper one |
| `AvlHeap.Balance` | `base/core/lib/avltree.ml:137-214` | In-place rebalancing computes the pure `Balance`, reusing the nodes it was given |
| `AvlHeap.SetLeft` | `base/core/lib/avltree.ml:216-227` | Rebalancing a subtree, linking it and updating the height in place computes the pure step |
| `AvlHeap.SetRight` | `base/core/lib/avltree.ml:229-240` | The mirror image |
| `AvlHeap.Add` | `base/core/lib/avltree.ml:243-279` | The heap version of `add` leaves a tree holding the pure result, sets `added`, and touches no node outside the given tree |
| `AvlHeap.Find` | `base/core/lib/avltree.ml:283-315` | `find` on the heap is lookup, and changes nothing |
| `AvlHeap.RemoveMinElt` | `base/core/lib/avltree.ml:327-335` | In-place removal of the least node holds the pure result |
| `AvlHeap.Merge` | `base/core/lib/avltree.ml:337-351` | In-place merging holds the pure result on the union of both sets of nodes |
| `AvlHeap.Remove` | `base/core/lib/avltree.ml:319-380` | The heap version of `remove` holds the pure result, sets `removed`, and keeps to the nodes of the given tree |
| `Crc32.StepsLinear` | `base/core/lib/misc.c:62-91` | The register steps are linear over GF(2), for registers of any width |
| `Crc32.StepsNonzero` | `base/core/lib/misc.c:84-91` | No number of steps sends a nonzero 32-bit register to zero |
| `Crc32.RegisterIsSerial` | `base/core/lib/misc.c:73-91` | The bytewise register equals the bit-at-a-time CRC of the bits in transmission order, on every string |
| `Crc32.CrcChains` | `base/core/lib/misc.c:73-91` | Passing the CRC of a first part as chaining value gives the CRC of the concatenation |
| `Crc32.TableStep` | `base/core/lib/misc.c:88-89` | One table lookup replaces eight bit steps |
| `Crc32.CrcTable.MakeCrcTable` | `base/core/lib/misc.c:57-71` | Every entry is stored exactly once with its final value, the eight-step reduction of its index, and the entry that `crc32` tests is stored last |
| `Crc32.CrcTable.FillStride` | `base/core/lib/misc.c:69-70` | One pass of the inner loop stores the odd multiples of its stride, each once, from the even ones |
| `Crc32.CrcTable.Crc32` | `base/core/lib/misc.c:84-91` | The table-driven loop, with the table built on first use, computes the preset and inverted CRC of every string |
| `CrcBursts.BurstsAreDetected` | `base/core/lib/misc.c:73-83` | Strings of one length that differ only within 32 consecutive transmitted bits never share their CRC, for any chaining value |
| `CrcBursts.SharedCrcIff` | `base/core/lib/misc.c:84-91` | Whether strings of one length share their CRC depends on their difference alone: exactly when it leaves an empty register empty |
| `CrcBursts.BurstsAcrossAppendedCrcAreDetected` | `base/core/lib/misc.c:79-82` | The same for data followed by its CRC in little-endian order: no such burst leads to another correct codeword |
| `CrcBursts.ThirtyThreeBitWindows` | `base/core/lib/misc.c:81-82` | Different strings that differ within 33 transmitted bits share their CRC exactly when they differ there by the 33 bits of the polynomial |
| `CrcBursts.ThirtyThreeBitsEscape` | `base/core/lib/misc.c:81-82` | Two concrete strings of that kind: 32 is exact |
| `CrcCheck.Residue` | `base/core/lib/misc.c:75-82` | Data followed by its own CRC in little-endian order always has the CRC 0x2144df1c, the residue of the standard preset and inversion |
| `CrcCheck.CheckValue` | `base/core/lib/misc.c:84-91` | The CRC of "123456789" is 0xcbf43926 |
| `CrcPowers.StepsMultiply` | `base/core/lib/misc.c:67-67` | m steps of a register multiply it, as a polynomial modulo the generator, by x to the m-th |
| `CrcOrder.ReturnsIff` | `base/core/lib/misc.c:53-67` | The powers of x return to 1 after the multiples of 2^32 - 1 steps and at no other time: the polynomial is primitive |
| `CrcOrder.CrcOfZeros` | `base/core/lib/misc.c:75-90` | The CRC of a string of n zero bytes is 0, that of the empty string, exactly if n is a multiple of 2^32 - 1 |
| `CrcOrder.LongRunOfZeros` | `base/core/lib/misc.c:75-90` | 2^32 - 1 zero bytes, the shortest run that the preset does not protect |
| `CrcOrder.TwoBitErrors` | `base/core/lib/misc.c:78-82` | Strings of one length that differ in exactly two transmitted bits share their CRC exactly if the distance of the bits is a multiple of 2^32 - 1, for any chaining value |
| `CrcShared.SharedTableIsSafe` | `base/core/lib/misc.c:52-91` | In every interleaving of any number of threads that call `crc32` on a table that starts empty, and build it at the same time as others use or build it, every call that has ended has the right result |
| `CrcShared.RunKeeps` | `base/core/lib/misc.c:52-91` | In every interleaving entries are unbuilt or final, the last one is there only when all are, and every builder has its entries behind it |
| `CrcShared.PutIsFinal` | `base/core/lib/misc.c:69-70` | Every store of a builder is in bounds and of the final value, and the one that announces the table comes when nothing else is missing |
| `CrcShared.CallFinishes` | `base/core/lib/misc.c:57-91` | No thread waits for another: a call ends, with the right result, within a bounded number of its own steps |
| `Crc24.RemainderUnique` | `base/core/lib/misc.c:16-33` | The polynomial remainder by the CRC-24 generator is unique |
| `Crc24.ShiftMultiplies` | `base/core/lib/misc.c:26-30` | A bit step multiplies by x modulo the generator and keeps the register below 2^24 |
| `Crc24.CrcOctets` | `base/core/lib/misc.c:20-33` | `crc_octets` is the polynomial remainder of the initialised message, for any length; the register stays below 2^24, so that the final mask changes nothing |
| `Crc24.AppendedCrcDivides` | `base/core/lib/misc.c:20-33` | A message with its remainder added is divisible by the generator |
| `Crc24Bursts.BurstsAreDetected` | `base/core/lib/misc.c:13-33` | Different octet strings of one length that differ only within 24 consecutive bits never have the same CRC-24 |
| `Crc24Bursts.OddErrorsAreDetected` | `base/core/lib/misc.c:13-33` | Nor do octet strings of one length that differ in an odd number of bits |
| `Crc24Check.CheckValue` | `base/core/lib/misc.c:16-33` | The CRC-24 of "123456789", the only remainder, is 0x21cf02 |
| `Int64Emul.UCompare` | `base/bin_prot/lib/int64_emul.h:18-25` | Unsigned comparison of the halves is comparison of the 64-bit values |
| `Int64Emul.Compare` | `base/bin_prot/lib/int64_emul.h:30-37` | Signed comparison of the halves is comparison of the signed values |
| `Int64Emul.Neg` | `base/bin_prot/lib/int64_emul.h:40-47` | Negation modulo 2^64 |
| `Int64Emul.Add` | `base/bin_prot/lib/int64_emul.h:50-57` | Addition modulo 2^64 |
| `Int64Emul.Sub` | `base/bin_prot/lib/int64_emul.h:60-67` | Subtraction modulo 2^64 |
| `Int64Emul.Mul` | `base/bin_prot/lib/int64_emul.h:70-83` | The four partial products with their carries make the product modulo 2^64 |
| `Int64Emul.BitOr` | `base/bin_prot/lib/int64_emul.h:99-105` | Bitwise or of the 64-bit values |
| `Int64Emul.Lsl` | `base/bin_prot/lib/int64_emul.h:116-129` | Left shift by 0 to 63 is multiplication by the power of two modulo 2^64 |
| `Int64Emul.Lsr` | `base/bin_prot/lib/int64_emul.h:131-144` | Logical right shift is division by the power of two |
| `Int64Emul.Asr` | `base/bin_prot/lib/int64_emul.h:146-161` | Arithmetic right shift is flooring division of the signed value |
| `Int64Division.Shl1` | `base/bin_prot/lib/int64_emul.h:163-163` | The one-bit left shift doubles modulo 2^64 |
| `Int64Division.Shr1` | `base/bin_prot/lib/int64_emul.h:164-164` | The one-bit right shift halves |
| `Int64Division.AlignDivisor` | `base/bin_prot/lib/int64_emul.h:174-179` | For all inputs for which it ends, the loop leaves what its turns compute; for a nonzero divisor that is the divisor scaled by the bit in the mask, and above half the dividend or at the top bit |
| `Int64Division.AlignEndsIff` | `base/bin_prot/lib/int64_emul.h:174-179` | For all inputs, some number of turns of the first loop ends it exactly when the divisor is not zero or the dividend is zero; 63 turns then suffice |
| `Int64Division.AlignByZero` | `base/bin_prot/lib/int64_emul.h:174-179` | By a zero divisor the loop never ends for the dividend 1, and ends after one turn for the dividend 0 |
| `Int64Division.UDivMod` | `base/bin_prot/lib/int64_emul.h:166-190` | For every nonzero divisor the division loops end with dividend = quotient * divisor + remainder and remainder < divisor |
| `Int64Division.Div` | `base/bin_prot/lib/int64_emul.h:192-203` | Signed division truncates, and the least integer by -1 wraps |
| `Int64Division.Mod` | `base/bin_prot/lib/int64_emul.h:205-216` | The signed remainder of truncating division |
| `Int64Division.TruncModSign` | `base/bin_prot/lib/int64_emul.h:205-216` | That remainder is zero or has the sign of the dividend, and is smaller than the divisor |
| `BinCodec.IntRoundTrip` | `base/bin_prot/lib/read_ml.ml:213-226` | Every int, int32 and int64 is read back from its encoding anywhere in a buffer, by each reader whose range holds it |
| `BinCodec.Nat0RoundTrip` | `base/bin_prot/lib/read_ml.ml:181-193` | The same for natural numbers |
| `BinCodec.StringRoundTrip` | `base/bin_prot/lib/read_ml.ml:195-206` | The same for strings |
| `BinCodec.IntShortest` | `base/bin_prot/lib/read_ml.ml:213-308` | Whatever an integer reader accepts is in range and took at least as many bytes as the writers would use |
| `BinCodec.Nat0Shortest` | `base/bin_prot/lib/read_ml.ml:181-193` | The same for natural numbers |
| `BinCodec.SizeInt` | `base/bin_prot/lib/size.ml:16-36` | The size of an integer is the length of its encoding |
| `BinCodec.SizeNat0` | `base/bin_prot/lib/size.ml:38-45` | The size of a natural number is the length of its encoding |
| `BinMl.BinWriteInt` | `base/bin_prot/lib/write_ml.ml:24-93` | The ML writer of int and int32 stores the encoding byte by byte, or nothing when it does not fit |
| `BinMl.BinWriteNat0` | `base/bin_prot/lib/write_ml.ml:95-102` | The ML writer of natural numbers stores the encoding, or nothing |
| `BinMl.BinWriteInt64` | `base/bin_prot/lib/write_ml.ml:135-150` | The ML writer of int64 stores the encoding although it goes through 63-bit integers, which lose the top bit |
| `BinMl.BinWriteString` | `base/bin_prot/lib/write_ml.ml:104-112` | The ML writer of strings stores length and characters; when only the length fits, the length is left behind |
| `BinMl.ToIntKeepsLowBytes` | `base/bin_prot/lib/write_ml.ml:139-146` | The low seven bytes survive `Int64.to_int` |
| `BinMl.DoBinReadInt64` | `base/bin_prot/lib/read_ml.ml:103-113` | The 63-bit sum with its wrapping top shift is the signed value of the eight bytes, whenever the top byte passes the overflow check |
| `BinMl.JoinInt64` | `base/bin_prot/lib/read_ml.ml:265-276` | Seven bytes in a 63-bit integer and one in an int64 make the signed value of the eight bytes |
| `BinMl.SafeBinReadInt64` | `base/bin_prot/lib/read_ml.ml:65-122` | The check of the last byte rejects exactly the values outside 63 bits, at the position of the code |
| `BinMl.SafeBinReadNat064` | `base/bin_prot/lib/read_ml.ml:137-179` | The check of the last byte rejects exactly the values outside the non-negative range, at the position of the code |
| `BinMl.BinReadInt` | `base/bin_prot/lib/read_ml.ml:213-226` | On every buffer and position the ML reader of int does what the wire format says: value and next position, `Buffer_short`, or the error and its position |
| `BinMl.BinReadInt32` | `base/bin_prot/lib/read_ml.ml:249-263` | The same for int32 |
| `BinMl.BinReadInt64` | `base/bin_prot/lib/read_ml.ml:291-308` | The same for int64 |
| `BinMl.BinReadNat0` | `base/bin_prot/lib/read_ml.ml:181-193` | The same for natural numbers |
| `BinMl.BinReadString` | `base/bin_prot/lib/read_ml.ml:195-206` | The same for strings |
| `BinC.CastKeepsBytes` | `base/bin_prot/lib/write_stubs.c:93-118` | C's truncating casts keep the bytes that are stored |
| `BinC.CWriteInt` | `base/bin_prot/lib/write_stubs.c:93-118` | The C writer of int, int32 and int64 stores the encoding, or nothing |
| `BinC.CWriteNat0` | `base/bin_prot/lib/write_stubs.c:129-137` | The C writer of natural numbers stores the encoding, or nothing |
| `BinC.CopyBackward` | `base/bin_prot/lib/write_stubs.c:228-238` | The copy loop for short strings, from the last character to the first with a wrapping counter, copies the string |
| `BinC.CWriteString` | `base/bin_prot/lib/write_stubs.c:222-276` | The C writer of strings stores length and characters, or nothing at all |
| `BinC.SafeRead` | `base/bin_prot/lib/read_stubs.c:61-76` | The reading macro for signed fields: the value, `Buffer_short`, or the error with the cursor back at the code |
| `BinC.SafeReadNat0` | `base/bin_prot/lib/read_stubs.c:78-82` | The reading macro for unsigned fields |
| `BinC.CReadInt` | `base/bin_prot/lib/read_stubs.c:104-148` | The C reader of int, on every buffer and position, does what the wire format says |
| `BinC.CReadInt32` | `base/bin_prot/lib/read_stubs.c:204-222` | The same for int32 |
| `BinC.CReadInt64` | `base/bin_prot/lib/read_stubs.c:232-262` | The same for int64 |
| `BinC.CReadNat0` | `base/bin_prot/lib/read_stubs.c:158-194` | The same for natural numbers |
| `BinC.CReadString` | `base/bin_prot/lib/read_stubs.c:346-362` | The same for strings |
| `BinAgree.ReadersAgree` | `base/bin_prot/lib/read_stubs.c:104-262` | On every buffer and position the ML and the C reader of an integer type both report what the wire format says: value and next position, a short buffer, or the same error at the same position |
| `BinAgree.Nat0ReadersAgree` | `base/bin_prot/lib/read_stubs.c:158-194` | The same for natural numbers |
| `BinAgree.StringReadersAgree` | `base/bin_prot/lib/read_stubs.c:346-362` | The same for strings |
| `BinAgree.IntWritersAgree` | `base/bin_prot/lib/write_stubs.c:93-203` | On equal buffers the two writers of an integer type both store its encoding, or both report a short buffer and store nothing |
| `BinAgree.Nat0WritersAgree` | `base/bin_prot/lib/write_stubs.c:129-145` | The same for natural numbers |
| `BinAgree.StringWritersAgree` | `base/bin_prot/lib/write_stubs.c:222-276` | On equal buffers the two string writers store the encoding together, or report a short buffer together; then the C writer has stored nothing and the ML writer the length if that fits |
| `BinAgree.IntThroughBuffer` | `base/bin_prot/lib/read_stubs.c:104-262` | An integer written by either implementation into a buffer is read back by both, which stop where the writer did; the rest of the buffer is untouched |
| `BinAgree.Nat0ThroughBuffer` | `base/bin_prot/lib/read_stubs.c:158-194` | The same for natural numbers |
| `BinAgree.StringThroughBuffer` | `base/bin_prot/lib/read_stubs.c:346-362` | The same for strings |
| `BinLists.ReadNRevList` | `base/bin_prot/lib/read_ml.ml:364-369` | The accumulating loop reads the elements in order, last one first in its result |
| `BinLists.BinReadList` | `base/bin_prot/lib/read_ml.ml:371-374` | The list reader is the generated reader of the list type, on every buffer, errors included |
| `BinLists.BinReadArray` | `base/bin_prot/lib/read_ml.ml:382-415` | The array reader, which fills the array with its first element and overwrites the rest, is the generated reader of the array type |
| `BinLists.WriteElements` | `base/bin_prot/lib/write_ml.ml:211-216` | The element loop stores the elements one behind the other, or reports `Buffer_short` with nothing before its start touched |
| `BinLists.BinWriteSequence` | `base/bin_prot/lib/write_ml.ml:200-222` | The list and array writers store length and elements |
| `BinLists.BinSizeArray` | `base/bin_prot/lib/size.ml:105-116` | The accumulating size loop gives the number of bytes written |
| `BinTypes.FlattenAppend` | `base/bin_prot/syntax/pa_bin_prot.ml:879-943` | The leaf rows of concatenated rows, inherited ones included, are the concatenated leaf rows |
| `BinWrite.FirstRowAccepts` | `base/bin_prot/syntax/pa_bin_prot.ml:486-523` | The first row pattern that accepts a value belongs to the first leaf row, depth first, with the value's tag |
| `BinTheorems.SizeIsLength` | `base/bin_prot/syntax/pa_bin_prot.ml:137-387` | The generated size of every value of every type is the number of bytes its generated writer stores |
| `BinTheorems.SizeOfRows` | `base/bin_prot/syntax/pa_bin_prot.ml:232-269` | The same for polymorphic variants, whose sizer tries non-atomic rows first and takes everything else for an atom |
| `BinRead.GenerateWf` | `base/bin_prot/syntax/pa_bin_prot.ml:897-943` | The code built from the last row to the first is well formed and calls only the types the rows inherit from |
| `BinRead.Read` | `base/bin_prot/syntax/pa_bin_prot.ml:777-1042` | The generated reader of every type ends on every buffer and never passes its end |
| `BinRead.Eval` | `base/bin_prot/syntax/pa_bin_prot.ml:886-943` | `No_variant_match` escapes from the code of a variant only at the position where it started: no byte of an argument has been consumed |
| `BinTheorems.GenerateTriesInOrder` | `base/bin_prot/syntax/pa_bin_prot.ml:897-943` | The nested matches and handlers built right to left try the rows left to right and inherited rows depth first, then whatever followed them |
| `BinTheorems.VariantCodeSelectsFirst` | `base/bin_prot/README:339-346` | The generated reader of a polymorphic variant uses the first row with the tag, left to right and depth first, and fails to match exactly when there is none |
| `BinTheorems.RowsWriteTagged` | `base/bin_prot/syntax/pa_bin_prot.ml:486-523` | A variant value is written as its tag followed by the argument of the row the reader will select |
| `BinTheorems.RoundTrip` | `base/bin_prot/syntax/pa_bin_prot.ml:391-592` | For every type of recursive sums, records, tuples, variants with inheritance, lists, options and arrays, the generated reader gives back what the generated writer wrote, wherever it stands, and stops where the writer stopped |
| `BinTheorems.RoundTripVariant` | `base/bin_prot/syntax/pa_bin_prot.ml:486-523` | The same for the rows of a polymorphic variant, its tag and the reader's nested code |
| `BinTheorems.GeneratedCodeIsCorrect` | `base/bin_prot/syntax/pa_bin_prot.ml:137-1042` | Sizer, writer and reader of every type agree: the reader returns the value and stops exactly at the generated size |
| `BinAccepts.ReadTyped` | `base/bin_prot/syntax/pa_bin_prot.ml:777-1042` | On every buffer, whatever the generated reader of a type accepts is a value of the type, read from at least as many bytes as the writer would use |
| `BinAccepts.AcceptedIsWritable` | `base/bin_prot/syntax/pa_bin_prot.ml:137-1042` | So any accepted bytes can be written again: the writer's bytes are no longer, and are read back as the same value |
| `BinTheorems.FloatArrayWritesGenerically` | `base/bin_prot/syntax/pa_bin_prot.ml:404-421` | The special case for float arrays writes the bytes of the generic array of floats |
| `BinTheorems.FloatArrayReadsGenerically` | `base/bin_prot/syntax/pa_bin_prot.ml:808-835` | The block reader for float arrays agrees with the generic array reader on every buffer, errors included |
| `BinBytes.Integers` | `base/bin_prot/README:252-277` | Every integer is written as documented: one byte, or the code 0xff, 0xfe, 0xfd or 0xfc and its lowest 1, 2, 4 or 8 bytes, lowest first, by the documented ranges |
| `BinBytes.Naturals` | `base/bin_prot/README:203-217` | The same for natural numbers, with the unsigned ranges |
| `BinBytes.SumBytes` | `base/bin_prot/README:314-329` | A constructor is its number in one byte if the type has at most 256 constructors and else in two, lower first; the arguments follow; the size is that of all this, 1 or 2 without arguments |
| `BinBytes.SumReads` | `base/bin_prot/syntax/pa_bin_prot.ml:984-1018` | The generated reader of a sum takes the number from one or two bytes on every buffer; a number that no constructor has is an error at the byte behind it |
| `BinBytes.TwoConstructors` | `base/bin_prot/syntax/pa_bin_prot.ml:547-567` | The bytes and sizes of the two constructors of the type with the constructors A and B, and what its reader makes of other bytes |
| `BinBytes.VariantReads` | `base/bin_prot/syntax/pa_bin_prot.ml:945-962` | The generated reader of a variant takes a little-endian 32-bit tag and uses the first row with it; an even number and a tag without a row are different errors, both at the tag |
| `BinBytes.InheritedTag` | `base/bin_prot/README:339-346` | An instance with an inherited row: both tags are read, an unknown tag and an even number are refused |
| `BinBytes.SmallValues` | `base/bin_prot/README:220-302` | Unit is 0, booleans are 0 and 1, None is 0 and Some is 1 followed by its contents, strings follow their length, and tags take four bytes |
| `BinBytes.SmallReaders` | `base/bin_prot/lib/read_ml.ml:25-39` | Every other byte is refused where a unit, a boolean or an option is expected, each with its own error at that byte |
| `BinBytes.RefusedCodes` | `base/bin_prot/lib_test/bin_prot_test.ml:368-371` | The bytes the tests expect to be no code, for each type of integer |
| `BinBytes.RefusedIntegers` | `base/bin_prot/lib_test/bin_prot_test.ml:380-385` | The largest 63-bit integer is read, and the test's neighbours outside overflow, with the error at the code |
| `BinBytes.LengthLimits` | `base/bin_prot/lib_test/bin_prot_test.ml:296-301` | The byte strings of the tests for the longest string and the longest arrays: one more is too long, these run into the end of the buffer |
| `BinBytes.ListOfTests` | `base/bin_prot/lib_test/bin_prot_test.ml:661-681` | The 12 bytes of the list, and of the array, of 42, -1, 200 and 33000 |
| `BinBytes.TripleOfTests` | `base/bin_prot/lib_test/bin_prot_test.ml:651-659` | The 14 bytes of a triple of a float, 42 and "test" |
| `Blang.ConstructorsKeepInvariant` | `base/core/lib/blang.ml:46-109` | Smart constructors keep constants at the top |
| `Blang.ConstructorsEval` | `base/core/lib/blang.ml:71-109` | Smart constructors mean what their names say |
| `Blang.ListsEval` | `base/core/lib/blang.ml:125-142` | `and_` and `or_`, which stop early, are conjunction and disjunction of the whole list |
| `Blang.ValuesAreLeaves` | `base/core/lib/blang.ml:171-182` | The worklist of `values` ends and lists the base values from left to right |
| `Blang.FoldIsFoldOfValues` | `base/core/lib/blang.ml:242-257` | The two mutually recursive loops of `fold` visit the base values in the order of `values` |
| `Blang.FoldCollects` | `base/core/lib/blang.ml:242-257` | Folding with a function that collects gives the base values from left to right |
| `Blang.GatherConjunctsFlattens` | `base/core/lib/blang.ml:195-202` | The worklist of `gather_conjuncts` ends and is the recursive flattening |
| `Blang.GatherDisjunctsFlattens` | `base/core/lib/blang.ml:219-226` | The same for `gather_disjuncts` |
| `Blang.GatherOfAnd` | `base/core/lib/blang.mli:75-75` | The documented `gather_conjuncts (and_ ts) = ts` holds exactly for lists of terms that are neither constants nor conjunctions, and for the list of False alone |
| `Blang.GatherOfAndCounterexample` | `base/core/lib/blang.mli:75-75` | A list with a conjunction in it for which the documented equation fails |
| `Blang.GatherOfOr` | `base/core/lib/blang.mli:83-83` | The same condition, exact again, for `gather_disjuncts (or_ ts) = ts` |
| `Blang.GatherOfOrCounterexample` | `base/core/lib/blang.mli:83-83` | A list with a disjunction in it for which the dual equation fails |
| `Blang.BindKeepsInvariant` | `base/core/lib/blang.ml:259-271` | Substitution keeps the invariant, whatever term it starts from |
| `Blang.LeftIdentity` | `base/core/lib/blang.ml:259-271` | The left identity law |
| `Blang.RightIdentity` | `base/core/lib/blang.ml:259-271` | The right identity law holds for exactly the terms that meet the invariant |
| `Blang.Associativity` | `base/core/lib/blang.ml:259-271` | The associativity law of substitution, as a syntactic equality, for all terms |
| `Blang.BindOfConstructors` | `base/core/lib/blang.ml:259-271` | Substitution commutes with every smart constructor |
| `Blang.EvalBind` | `base/core/lib/blang.ml:259-285` | Evaluating after substitution is evaluating with the meanings of the substituted terms |
| `Blang.SpecializeNothing` | `base/core/lib/blang.mli:117-117` | Specialising with no knowledge is the identity on exactly the terms that meet the invariant |
| `Blang.SpecializeEverything` | `base/core/lib/blang.mli:119-119` | Specialising with full knowledge gives the constant of the evaluation |
| `Blang.SpecializeLeavesUnknown` | `base/core/lib/blang.mli:121-121` | Only unknown values are left in a specialised term |
| `Blang.SpecializePreservesEval` | `base/core/lib/blang.mli:123-129` | Specialising keeps the value under every assignment that agrees with the knowledge on the term's values |
| `BlangSexp.ParseKeepsInvariant` | `base/core/lib/blang.ml:326-350` | Whatever is parsed meets the invariant |
| `BlangSexp.PrintedForms` | `base/core/lib/blang.ml:311-324` | What is printed: keywords in lower case, and all conjuncts or disjuncts of a nest in one list |
| `BlangSexp.KeywordsInAnyCase` | `base/core/lib/blang.ml:326-350` | The parser takes keywords in any mixture of upper and lower case |
| `BlangSexp.ParseOfPrint` | `base/core/lib/blang.ml:311-350` | Parsing the print of a term yields its left-nested normal form, for base s-expressions that invert and do not look like keywords |
| `BlangSexp.PrintParsePrint` | `base/core/lib/blang.ml:311-350` | That normal form evaluates alike, has the same values in the same order and prints alike, and is the term itself exactly when the term is nested to the left |
| `BlangSexp.NormPreserves` | `base/core/lib/blang.ml:311-324` | Nesting conjunctions and disjunctions to the left changes neither value nor order of base values |
| `BlangSexp.AndOfConjuncts` | `base/core/lib/blang.ml:125-202` | Conjoining gathered conjuncts one by one rebuilds the conjunction, nested to the left |
| `AgnosticMutex.RunKeepsInvariant` | `base/core/lib/agnostic_mutex.ml:34-55` | The invariant of ownership, accounting and wake-ups holds after every interleaving |
| `AgnosticMutex.AcquisitionsMinusReleases` | `base/core/lib/agnostic_mutex.ml:38-55` | Whenever the inner mutex is free, successful acquisitions minus successful unlocks is 1 if `locked` and 0 otherwise |
| `AgnosticMutex.NoLostWakeup` | `base/core/lib/agnostic_mutex.ml:44-55` | Whenever the lock and the inner mutex are free while a thread sleeps, some woken thread has yet to look at the lock |
| `AgnosticMutex.UnlockReleases` | `base/core/lib/agnostic_mutex.ml:49-54` | From every reachable state with the inner mutex free, `unlock` of a taken lock returns by the thread's own steps; then the lock is free, one release is counted, and one sleeper is woken, whichever the kernel chooses, if any slept |
| `AgnosticMutex.UnlockFails` | `base/core/lib/agnostic_mutex.ml:55-55` | `unlock` of a free lock fails by the thread's own steps and changes nothing else |
| `AgnosticMutex.TryLockTries` | `base/core/lib/agnostic_mutex.ml:38-42` | `try_lock` returns by the thread's own steps; it acquires the lock exactly if it was free |
| `AgnosticMutex.LockTakes` | `base/core/lib/agnostic_mutex.ml:44-47` | `lock` of a free lock acquires it by the thread's own steps |
| `AgnosticMutex.LockSleeps` | `base/core/lib/agnostic_mutex.ml:46-46` | `lock` of a taken lock, and a thread woken while it is taken, sleeps with the inner mutex free |
| `AgnosticMutex.WokenAcquires` | `base/core/lib/agnostic_mutex.ml:44-47` | Such a thread acquires the lock by its own steps alone |
| `AgnosticMutex.HolderFinishes` | `base/core/lib/agnostic_mutex.ml:34-36` | The holder of the inner mutex can always go on, is not disturbed, and gives it back within four steps |
| `AgnosticMutex.MutualExclusion` | `base/core/lib/agnostic_mutex.ml:57-59` | If all threads only use `critical_section`, at most one is inside, and no unlock fails |
| `AgnosticMutex.OwnersStep` | `base/core/lib/agnostic_mutex.ml:44-55` | Only the assignment in `lock` makes a new owner, and it finds the lock free |
| `ChannelIO.Output` | `base/core/lib/bigstring_stubs.c:388-468` | For every sequence of kernel answers, what was sent and what is still buffered are the old buffer and exactly the counted part of the data; data that fits is buffered without a call; else outcome and number of bytes sent are those of the plan; a call still waiting has met no failure, has sent at least a byte for every answer that took something, and less than the buffer and the minimum if there was any; EAGAIN fails only after a single byte was tried |
| `ChannelPlan.OutputSteady` | `base/core/lib/bigstring_stubs.c:402-466` | If the kernel neither fails nor would block, a call has succeeded exactly when something was taken and the buffer and the minimum have been, and else has sent the sum of all counts |
| `ChannelPlan.OutputWaits` | `base/core/lib/bigstring_stubs.c:402-466` | A call still waiting has met no failure, moved a byte for every positive count, and sent too little if there was a count |
| `ChannelPlan.OneEagain` | `base/core/lib/bigstring_stubs.c:415-428` | After one EAGAIN the next byte goes alone and the call goes on; a second EAGAIN in a row fails with what was sent before |
| `ChannelIO.OutputLoop` | `base/core/lib/bigstring_stubs.c:402-466` | The loop around `writev` keeps this through partial writes, interrupts and the one-byte retry |
| `ChannelIO.SentStep` | `base/core/lib/bigstring_stubs.c:412-464` | One partial `writev` of the two pieces, whole or cut down to one byte, sends the next bytes in order |
| `ChannelIO.WritevOnce` | `base/core/lib/bigstring_stubs.c:413-443` | The same for the call itself: whichever piece the written bytes come from, the loop's account of what was sent stays exact |
| `ChannelIO.Input` | `base/core/lib/bigstring_stubs.c:284-386` | For every sequence of kernel answers, what was ahead in the buffer and what was read are exactly the counted part of the bigstring and what is ahead now; enough ahead needs no call; else outcome and bytes read are those of the plan; a call still waiting has read everything that came; failures and the end of file are the kernel's |
| `ChannelPlan.InputSteady` | `base/core/lib/bigstring_stubs.c:314-385` | If the kernel neither fails nor ends the file, a call has succeeded exactly when something came and the minimum is there, and else has read everything that came |
| `ChannelPlan.InputReadsPrefix` | `base/core/lib/bigstring_stubs.c:328-383` | Whatever the answers, what was read is a prefix of all that came |
| `ChannelIO.InputLoop` | `base/core/lib/bigstring_stubs.c:314-385` | The loop around `readv` keeps this through partial reads and interrupts, also when the minimum is already exceeded |
| `ChannelIO.ReadvOnce` | `base/core/lib/bigstring_stubs.c:328-383` | One `readv`: what does not fit the bigstring is in the buffer, in order |
| `ChannelIO.LeaveOutput` | `base/core/lib/bigstring_stubs.c:430-456` | Leaving the loop moves what is left of the buffer to its front and accounts for every byte |
| `TableRows.RunRefinesMap` | `base/core/lib/bounded_int_table.ml:141-191` | Over every run of set, add and remove the table has distinct indices in bounds and is the finite map from index to the latest key and data |
| `TableRows.Pigeonhole` | `base/core/lib/bounded_int_table.ml:141-146` | While an index is absent the dense array has a free slot |
| `TableRows.LookupAfterSet` | `base/core/lib/bounded_int_table.ml:150-156` | Setting changes the lookup of its index only |
| `TableRows.LookupAfterRemove` | `base/core/lib/bounded_int_table.ml:173-191` | Moving the last row into the hole changes the lookup of the removed index only |
| `TableRows.FoldCollects` | `base/core/lib/bounded_int_table.ml:96-107` | Folding with a function that collects gives all rows in order |
| `BoundedIntTable.Table.RowsUnique` | `base/core/lib/bounded_int_table.ml:44-74` | The invariant implies that indices are in bounds and different |
| `BoundedIntTable.Table.SameEntries` | `base/core/lib/bounded_int_table.ml:67-72` | The invariant implies that both arrays hold the same entries |
| `BoundedIntTable.Table.SparseFinds` | `base/core/lib/bounded_int_table.ml:127-135` | The sparse array finds an index exactly when there is a row for it, with its place in the dense array |
| `BoundedIntTable.Create` | `base/core/lib/bounded_int_table.ml:80-94` | Creation fails for negative sizes and else gives an empty valid table |
| `BoundedIntTable.Table.Fold` | `base/core/lib/bounded_int_table.ml:96-107` | `fold` visits the rows of the dense array in order |
| `BoundedIntTable.Table.Find` | `base/core/lib/bounded_int_table.ml:127-137` | `find` fails exactly for indices out of range, and else answers the lookup |
| `BoundedIntTable.Table.AddAssumingNotThere` | `base/core/lib/bounded_int_table.ml:141-148` | Adding an absent index finds its slot in bounds and appends a row |
| `BoundedIntTable.Table.Set` | `base/core/lib/bounded_int_table.ml:150-156` | `set` replaces key and data of an existing row in place, or appends one |
| `BoundedIntTable.Table.Add` | `base/core/lib/bounded_int_table.ml:158-162` | `add` refuses exactly the indices that are there |
| `BoundedIntTable.Table.Remove` | `base/core/lib/bounded_int_table.ml:173-191` | `remove` deletes the row by moving the last one into the hole, and keeps both arrays in step |
| `BoundedIntTable.Table.FillHole` | `base/core/lib/bounded_int_table.ml:180-189` | Moving the last entry into the hole makes the dense array dense again, with exact back-indices |
| `Compare.BranchesDecide` | `base/compare/syntax/pa_compare.ml:233-277` | The cases of alternatives that are not rightmost decide every pair with one of their constructors on either side, by the order of declaration |
| `Compare.SumIsOrdered` | `base/compare/syntax/pa_compare.ml:233-283` | The generated match of a sum is exhaustive and orders constructors by declaration, for every nesting of the alternatives |
| `Compare.Reflexive` | `base/compare/syntax/pa_compare.ml:285-311` | The generated comparison of every type is reflexive |
| `Compare.Antisymmetric` | `base/compare/syntax/pa_compare.ml:109-182` | Swapping the arguments of a generated comparison flips its sign |
| `Compare.Transitive` | `base/compare/syntax/pa_compare.ml:109-182` | Generated comparisons are transitive, strictly when one step is strict |
| `Compare.TotalPreorder` | `base/compare/syntax/pa_compare.ml:109-311` | The generated comparison of every recursive sum, record, tuple, list, array, option and reference type is a total preorder, if those of the base types are |
| `Compare.ShortcutsInvisible` | `base/compare/syntax/pa_compare.ml:81-83` | The shortcuts for physically equal values never change a result |
| `CompareDocumented.DocumentedIff` | `base/compare/README:24-26` | The generated result is the documented one exactly for values whose leftmost components that are not equal are not None and Some; there it is its negation |
| `CompareDocumented.OptionsAgreeIff` | `base/compare/syntax/pa_compare.ml:121-123` | At an option type, if the orders agree on the contents, they agree exactly on two Nones and on two Somes |
| `CompareDocumented.NoneAndSome` | `base/compare/syntax/pa_compare.ml:121-123` | The generated code puts None above every Some, the documented order below |
| `CompareDocumented.DocumentedWithoutOptions` | `base/compare/README:24-26` | For every type in which, and in the definitions it names, no option occurs the generated result is the documented one |
| `CompareDocumented.Instance` | `base/compare/syntax/pa_compare.ml:233-283` | An instance: the results for the constructors of a sum with and without arguments, and for lists of them |

## Left out

- The OCaml runtime: object representation, garbage collection roots, blocking sections and exception allocation. Node fields
  of the AVL tree are ordinary mutable fields.
- The branches for 32-bit platforms in the codecs, and the readers and writers of nativeint, bigstrings, vectors, matrices,
  hash tables and network byte order.
- Negative buffer positions, which the codecs reject with an out-of-bounds exception before anything else.
- Floats, except as opaque 8-byte values; the conversions between floats and emulated integers.
- The generated writers' `Buffer_short`: a generated writer is the bytes it stores. Bounds are checked in the codecs
  (`BinMl`, `BinC`) and the loops over elements (`BinLists`).
- BinRead.Read: works on positions of one buffer instead of updating a cursor; evaluates the bindings of `let ... and ...` in
  order; does not model record types that contain themselves without a sum, list, array or option in between, which have no
  finite values, nor alias types that run in circles.
- BinTheorems.RoundTrip: does not cover types with parameters, polymorphic record fields, function types and empty types.
- The nesting of the alternatives of a sum in pa_bin_prot, which only serves to number them, is flattened. The shortcut for
  variants that consist of atoms only reads what the general code reads and is not modelled separately.
- BinLists.WriteEl: an element writer that fails is modelled as storing nothing; the loops around it promise only that nothing
  before their start changes.
- `crc_octets` and `crc32` take bytes as numbers below 256. A signed `char` gives the same table index, because the code masks
  it.
- Int64Emul.Asr: takes the right shift of a negative half to be arithmetic, which C leaves to the implementation.
- Channels with several users, `caml_flush`, and the other wrappers of system calls in `bigstring_stubs.c`.
- ChannelIO.Output: whether a loop ends depends on the kernel; a call whose script of answers is used up is still waiting, and
  only what it has sent so far is described.
- CrcShared.SharedTableIsSafe: accesses to one entry of the table are atomic and seen by all threads in one order; what a C
  compiler or a weaker memory may make of unsynchronised accesses is not modelled.
- AgnosticMutex.NoLostWakeup: fairness of the scheduler is not modelled; that a waiting thread eventually gets the lock is
  therefore stated as "some woken thread has yet to look" and "it can take the lock by its own steps".
- Names, s-expressions and error texts of the bounded int table, and its derived operations (`iter`, `keys`, `to_alist`).
- Polymorphic variants, type parameters and application of named types in pa_compare; type variables are covered as base
  types.
- Operations that only wrap the modelled ones: `mem` and `iter` of the tree, `add_exn`, containers derived from `fold`.
