# Aztec protocol verification

A Dafny model of four parts of the Aztec monorepo, with proofs about them. `dafny verify dfyconfig.toml` checks all of it.

**Merkle trees** (`MerkleSpec`, `TreeState`, `TreeMeta`, `HashCount`, `TreeBase`, `TreeRuns`, `SparseTree`, `CalldataRoot`).
A tree of depth d is a sparse map of nodes under string keys, a table of zero hashes for absent nodes, and a cache of
uncommitted nodes on top. The objects are classes with those fields; the hash is an arbitrary function of two buffers.
Everything is proved against the recursive Merkle root: both update algorithms, sibling paths, commit, rollback,
metadata and reload, over single calls and over every sequence of calls.

**Brillig to AVM transpiler** (`Brillig`, `Transpiler`, `TranspilerCodec`, `AvmCodec`, `AvmMachine`, `Simulation`,
`SimulationResidues`, `SimulationValues`, `SimulationRelation`, `SimulationSteps`, `SimulationMoves`, `Lockstep`, `SimulationRuns`,
`SimulationClasses`, `SourceClasses`, `SimulationTypes`, `SimulationExamples`).
The two passes, the byte encoding, the simulator's decoder and the simulator's step function, each after its own source.
The emitted bytecode decodes to the emitted instructions, and each opcode is compared with the instructions emitted for it.
The two machines differ on operands of unexpected classes, and on 254-bit and 1-bit integers of the expected ones, so the
comparison is stated as exact conditions on the operands. It covers every accepted program without foreign calls and black
boxes, at every bit size:

- `SimulationSteps.Compatible` is met if and only if the opcode has the same effect on both machines with memory compared
  as numbers, tags erased. It is lifted to runs of any length.
- `SimulationClasses.ClassCompatible` is met if and only if, besides, the written word has the class the opcode declares,
  which is what later opcodes rely on.
- As long as the machines agree, the classes of AVM memory are a function of the Brillig run. Along it both conditions are
  restated without the AVM, again exactly: `SourceClasses.FittingRun` and `SourceClasses.SafeRun`.
- `SimulationTypes.WellTyped` is a static check that gives the latter up to divisors, pointers, the classes of loaded
  words, and the operands of 254-bit and 1-bit integer operations. `SimulationTypes.CountdownChecks` and
  `SimulationExamples.HeapRuns` show programs that pass it, the second one computing on a word it has loaded.

**Fixed-width and field arithmetic** (`Numbers`, `Bits`, `BrilligArithmetic`, `FieldElement`).
Integer operations at every width, two's complement, bit masks over byte arrays, bit length, conversions, hexadecimal.

**Codecs and layout** (`Buffers`, `Bufferable`, `BlockLogs`, `BlockBody`, `Signatures`, `StorageSlots`).
Length-prefixed readers and writers, the column-wise block body with its nested logs, type signatures, storage slots.

## Reading the contracts

- Exceptions, panics and error returns are the `Err` case of `Result`, or their own outcome of a machine.
- `TreeBase.Valid` says that in both views every in-range node is the Merkle node over that view's leaves.
- `SimulationRelation.Related` says: the same number at every address with undefined read as zero, the AVM program counter
  at pc_map of the Brillig one, and return addresses related by the map. `Agrees` says that a step ends in related states,
  with the same return data, or in failure of both.
- `Compatible` is checkable before the step, from the numbers and classes of the operands. In one case it has to compare the
  quotients themselves: an unsigned division at n bits of two words that both have at least 2^n
  (`SimulationResidues.SameQuotient`), and of two field elements at less than 254 bits, where it multiplies back.
- `Brillig.Invertible` occurs in the conditions on quotients of field elements. The modulus is prime, so
  every number but zero is invertible; its primality is not proved here and no statement depends on it.
- Where the code and a comment disagree the code is modelled: the append is not optimal in hashes
  (`yarn-project/merkle-tree/src/tree_base.ts:290`), and `Stop` and foreign calls emit one instruction each
  (`avm-transpiler/src/transpile.rs:539`).

## What turned out not to hold

- The batch append is not optimal in hashes. Its inclusive bound visits one node too many on each level whose block size
  divides the new leaf count, and an empty batch still visits one node on every level; the visited nodes keep their values,
  so only the hash count is affected. It is optimal if and only if the batch is not empty and the new leaf count is odd
  (`HashCount.OptimalIffOdd`); the second leaf of a tree already wastes a hash (`TreeRuns.SecondAppendWastesOne`).
- A new tree under a used name keeps the nodes stored before. It is the empty tree if and only if those are all zero hashes
  (`TreeRuns.NewTree`, with a tree for which they are not in `TreeRuns.RecreatedIsNotEmpty`).
- ADD, SUB, MUL and DIV of the simulator ignore the tag of the instruction: a program that returns 256 has bytecode that
  returns 0 (`SimulationExamples.MixedWidthsReturn`). Field division by zero throws where Brillig gives zero
  (`SimulationRuns.FieldDivisionByZeroStep`), and running past the last opcode is an error in the AVM only
  (`SimulationRuns.RunningOffTheEndDiffers`). `SimulationMoves.StepExact` gives the exact condition for every opcode of a
  plain program. Operands of another class than declared do not always show: `SimulationExamples.NarrowSumAgrees`.
- Integer operations of 254 bits get the tag of field elements. Unsigned division becomes the same instruction as field
  division (`SimulationExamples.DivisionsConflated`): a program that returns 3 has bytecode that returns the field quotient
  7 / 2 (`WideDivisionReturns`), and two programs with different results have the same bytecode (`SameBytecode`). Comparing
  such integers halts the simulator on all operands (`SimulationRuns.WideComparisonStep`). With field elements as operands
  the machines agree exactly on sums and products below 2^254, differences that are not negative, quotients without
  remainder, and equality; never on bitwise operations and shifts (`SimulationClasses.ElementsCompatible`).
- 1-bit integers are kept in 8 bits: a program that adds 1 and 1 and returns 0 has bytecode that returns 2
  (`SimulationExamples.BitSumReturns`). The machines agree exactly when the upper bits do not show
  (`SimulationValues.BitOperation`, and `SimulationMoves.CastValueExact` for casts).
- Bytecode that is the single byte of INTERNALRETURN does not decode (`AvmCodec.BytecodeDecodes`).
- A block body is rejected by its own decoder if and only if a transaction past the number of non-empty ones has logs
  (`BlockBody.BodyRoundTrip`); `BlockBody.EmptyFirstIsRejected` is such a body.
- An explicit storage slot other than 0 is kept if and only if its low 128 bits are not all zero
  (`StorageSlots.ExplicitIsKept`); slot 2^128 becomes slot 1 (`StorageSlots.SlotOverwritten`).
- In a build without overflow checks the slot counter wraps and a field can get slot 0 (`StorageSlots.WrapsToUnassigned`).
- Initializers written out of struct order get the lengths of other fields. The ranges stay in order without overlap if and
  only if no automatic initializer but the last is for a longer field than the struct has at its position
  (`StorageSlots.SeparateIffOrdered`); `StorageSlots.SwappedFieldsOverlap` is a storage in which two fields overlap.

## Model

| member | source | states |
|---|---|---|
| `TreeState.KeyInjective` | yarn-project/merkle-tree/src/tree_base.ts:12 | node keys of different levels or indices are different strings, for every tree name |
| `TreeBaseModule.TreeBase.constructor` | yarn-project/merkle-tree/src/tree_base.ts:59-86 | the zero hash of each level is the root of the all-zero subtree below it; without a given root the tree starts at the root of the all-zero tree |
| `TreeBaseModule.TreeBase.GetRoot` | yarn-project/merkle-tree/src/tree_base.ts:93-95 | in either view the returned value is the recursive Merkle root of that view's leaves |
| `TreeBaseModule.TreeBase.GetLatestValueAtIndex` | yarn-project/merkle-tree/src/tree_base.ts:239-249 | cache over store over zero hash: the value of the node in the chosen view |
| `TreeBaseModule.TreeBase.GetSiblingPath` | yarn-project/merkle-tree/src/tree_base.ts:129-140 | in either view, and for every in-range index, folding the leaf with the returned path gives that view's Merkle root |
| `TreeBaseModule.TreeBase.AddLeafToCacheAndHashToRoot` | yarn-project/merkle-tree/src/tree_base.ts:213-229 | afterwards every in-range node of both views is right again, the uncommitted leaves differ in exactly the given index, nothing else of the state changed, and exactly depth hashes were computed |
| `TreeBaseModule.TreeBase.InsertLeaves` | yarn-project/merkle-tree/src/tree_base.ts:301-307 | exactly the leaf positions of the batch change, each to its leaf |
| `TreeBaseModule.TreeBase.RehashLevel` | yarn-project/merkle-tree/src/tree_base.ts:314-320 | rehashing the inclusive index range makes the next level right for the new leaves, the extra node at its end included, with last - first + 1 hashes |
| `TreeBaseModule.TreeBase.RehashLevels` | yarn-project/merkle-tree/src/tree_base.ts:309-323 | from leaves in place, all levels become right for the new leaves, and the hash count is the number of visited nodes |
| `TreeBaseModule.TreeBase.AppendLeaves` | yarn-project/merkle-tree/src/tree_base.ts:295-325 | throws exactly when the leaves do not fit; otherwise every in-range node of the uncommitted view is the Merkle node over old leaves, then new leaves, then zero leaves, the committed view is untouched, and the hash count is the number of visited nodes |
| `TreeBaseModule.TreeBase.Commit` | yarn-project/merkle-tree/src/tree_base.ts:146-159 | the committed view becomes the prior uncommitted view in every node, leaf, root and size, and the stored metadata describes it |
| `TreeBaseModule.TreeBase.Rollback` | yarn-project/merkle-tree/src/tree_base.ts:165-168 | both views are the last committed view |
| `TreeBaseModule.TreeBase.WriteMeta` | yarn-project/merkle-tree/src/tree_base.ts:275-278 | the metadata of the uncommitted view is stored and nothing else changes |
| `TreeState.CommitKeepsView` | yarn-project/merkle-tree/src/tree_base.ts:146-159 | node by node, reading after a commit gives what the uncommitted view gave before, in both modes |
| `TreeState.RollbackRestores` | yarn-project/merkle-tree/src/tree_base.ts:165-168 | node by node, dropping the cache gives the committed view in both modes |
| `TreeState.EmptyIffNoNodes` | yarn-project/merkle-tree/src/tree_base.ts:59-86 | a tree object without given root or size is the empty tree, consistent at every node, if and only if the store holds no other nodes than zero hashes under its name |
| `MerkleSpec.NodeIsBlockRoot` | yarn-project/merkle-tree/src/tree_base.ts:213-229 | a node of the level-by-level specification is the recursive Merkle root of the block of leaves below it |
| `MerkleSpec.EndNodeUnaffected` | yarn-project/merkle-tree/src/tree_base.ts:309-320 | the extra node that the inclusive bound visits on a level keeps its value: none of its leaves changed |
| `MerkleSpec.PathSound` | yarn-project/merkle-tree/src/tree_base.ts:129-140 | folding a node with its siblings gives the root, from every level |
| `MerkleSpec.PathSurvivesUpdate` | yarn-project/merkle-tree/src/tree_base.ts:213-229 | a path read before a leaf update, folded with the new leaf, gives the new root |
| `MerkleSpec.PathBinding` | yarn-project/merkle-tree/src/tree_base.ts:129-140 | with a collision-free hash, only the true node with its true siblings folds to the root |
| `MerkleSpec.ZeroNode` | yarn-project/merkle-tree/src/tree_base.ts:75-83 | every node of the all-zero tree is the zero hash of its level |
| `HashCount.VisitsBound` | yarn-project/merkle-tree/src/tree_base.ts:309-323 | appending k leaves at any size of a tree of depth d visits at most k + 2d nodes |
| `HashCount.AffectedNodes` | yarn-project/merkle-tree/src/tree_base.ts:288-289 | on each level the nodes with a changed leaf below them are exactly those between the ancestors of the first and the last new leaf |
| `HashCount.AffectedVisits` | yarn-project/merkle-tree/src/tree_base.ts:288-289 | the affected nodes, counted level by level as sets, are exactly those visited when the last new leaf is the inclusive end |
| `HashCount.WastedHashes` | yarn-project/merkle-tree/src/tree_base.ts:290-320 | the number of hashes beyond the affected nodes, exactly: one on every level for an empty batch, otherwise one for each level whose block size divides the new leaf count |
| `HashCount.OptimalIffOdd` | yarn-project/merkle-tree/src/tree_base.ts:290-293 | the hash count is the number of affected nodes if and only if the batch is not empty and the new leaf count is odd, so the remark that it is always optimal is false |
| `TreeRuns.SecondAppendWastesOne` | yarn-project/merkle-tree/src/tree_base.ts:295-325 | two single appends to a new tree of any depth: the first spends as many hashes as there are affected nodes, the second one more |
| `TreeMeta.MetaRoundTrip` | yarn-project/merkle-tree/src/tree_base.ts:13-28 | decoding the encoded record gives back root, depth and size if and only if the root has 32 bytes, for every depth below 2^32 and size below 2^256 |
| `TreeMeta.SettledMeta` | yarn-project/merkle-tree/src/load_tree.ts:20-21 | with nothing uncommitted the stored record is exactly the tree's root, depth and size |
| `TreeRuns.RunTree` | yarn-project/merkle-tree/src/tree_base.ts:146-325 | over every sequence of appends, single-leaf updates, commits and rollbacks the object stays valid (in both views every in-range node is the hash of its children over that view's leaves) and both views equal those of the abstract run |
| `TreeRuns.BatchMatchesPerLeaf` | yarn-project/merkle-tree/src/tree_base.ts:213-325 | from equal states, appending a batch and inserting the same leaves one by one give the same uncommitted value at every in-range node, with at most k + 2d hashes against exactly k * d |
| `TreeRuns.PerLeafIsSplice` | yarn-project/merkle-tree/src/tree_base.ts:213-229 | setting leaves one after the other writes the batch as a contiguous block |
| `TreeRuns.RollbackDiscards` | yarn-project/merkle-tree/src/tree_base.ts:165-168 | whatever ran since the last commit, a rollback gives the state right after that commit |
| `TreeRuns.AppendOnlyRun` | yarn-project/merkle-tree/src/tree_base.ts:295-325 | from the empty tree, after any sequence of appends, commits and rollbacks each view is the list of leaves appended so far padded with zero leaves |
| `TreeRuns.NewTree` | yarn-project/merkle-tree/src/new_tree.ts:16-27 | succeeds exactly for depths 1 to 254 and stores its metadata; over whatever the store holds under the name, it is the valid empty tree if and only if every stored node is the zero hash of its level |
| `TreeRuns.RecreatedIsNotEmpty` | yarn-project/merkle-tree/src/new_tree.ts:16-27 | a tree created again under a name whose old tree committed a non-zero leaf is not the empty tree |
| `TreeRuns.LoadTree` | yarn-project/merkle-tree/src/load_tree.ts:14-23 | rebuilds root, depth and size from the stored record, failing exactly when there is none or its depth is out of range |
| `TreeRuns.CommitAndReload` | yarn-project/merkle-tree/src/load_tree.ts:14-23 | with 32-byte hashes, committing and loading gives a valid tree in exactly the committed state, so equal in every node, path, root and size |
| `TreeRuns.Reload` | yarn-project/merkle-tree/src/load_tree.ts:14-23 | loading what a settled tree has stored gives a valid tree in the same state |
| `SparseTreeModule.NonZeroUpdate` | yarn-project/merkle-tree/src/sparse_tree/sparse_tree.ts:21-33 | changing one leaf changes the number of non-zero leaves by the difference of being non-zero |
| `SparseTreeModule.EmptyIsSparse` | yarn-project/merkle-tree/src/sparse_tree/sparse_tree.ts:9-36 | the empty tree meets what the sparse tree asks of its base: its size is the number of non-zero leaves in both views |
| `SparseTreeModule.SparseTree.UpdateLeaf` | yarn-project/merkle-tree/src/sparse_tree/sparse_tree.ts:16-36 | throws exactly out of range; otherwise one leaf changes and the uncommitted size stays the number of non-zero leaves |
| `SparseTreeModule.SparseTree.Commit` | yarn-project/merkle-tree/src/sparse_tree/sparse_tree.ts:9-36 | in both views the size is still the number of non-zero leaves |
| `CalldataRoot.PairsKeepRoot` | yarn-project/circuit-types/src/body.ts:131-144 | hashing a layer of a power-of-two tree pairwise keeps its balanced-tree root |
| `CalldataRoot.ComputeRoot` | yarn-project/circuit-types/src/body.ts:127-147 | terminates on every list; a value exactly for no leaves or a power of two of them, and then it is the recursive balanced-tree root of the leaves in order |
| `Transpiler.MapPcs` | avm-transpiler/src/transpile.rs:545-559 | the map holds, for every Brillig instruction, the initial offset plus the instructions counted before it; indexing the empty map panics |
| `Transpiler.BrilligToAvm` | avm-transpiler/src/transpile.rs:16-226 | returns bytecode exactly for accepted programs, and then the encoding of the instructions of every opcode in order with jump targets taken from pass one |
| `Transpiler.PassesAgree` | avm-transpiler/src/transpile.rs:115-143 | pass one counts exactly the instructions pass two emits before each Brillig instruction |
| `Transpiler.PcIncreasing` | avm-transpiler/src/transpile.rs:545-559 | the pc map is strictly increasing |
| `Transpiler.EmittedAt` | avm-transpiler/src/transpile.rs:415-441 | the instructions of Brillig instruction i stand at pc_map[i] in the output |
| `Transpiler.JumpTargets` | avm-transpiler/src/transpile.rs:115-143 | every JUMP, JUMPI and INTERNALCALL goes to the first instruction of its Brillig target, never to the CAST of a SET and CAST pair |
| `AvmCodec.ToBytes` | avm-transpiler/src/instructions.rs:55-69 | opcode, indirect flag, tag and operands in big-endian form, in that order |
| `AvmCodec.DecodeFromBytecode` | yarn-project/simulator/src/avm/serialization/bytecode_serialization.ts:156-176 | for every byte string and every instruction the simulator implements, emitted by the transpiler or not, the cursor loop computes the recursive decoder, errors included |
| `AvmCodec.BytecodeDecodes` | yarn-project/simulator/src/avm/serialization/buffer_cursor.ts:21-24 | well-shaped instruction lists decode to exactly themselves, except that a lone INTERNALRETURN byte is rejected by the cursor's assertion |
| `AvmCodec.DenoteInjective` | avm-transpiler/src/instructions.rs:127-135 | well-shaped instructions that decode alike are equal, the signed reading of 64-bit operands included |
| `AvmCodec.UniquelyDecodable` | avm-transpiler/src/instructions.rs:55-69 | equal bytecode means equal instruction lists |
| `TranspilerCodec.EmitWellShaped` | avm-transpiler/src/transpile.rs:27-225 | the shape of every emitted instruction is fixed by its opcode and, for SET, its tag |
| `TranspilerCodec.TranspiledDecodes` | avm-transpiler/src/transpile.rs:27-225 | the simulator decodes the bytecode of an accepted program to exactly the emitted instructions if and only if the program is not a single Return |
| `TranspilerCodec.TranspiledUnique` | avm-transpiler/src/transpile.rs:444-495 | two accepted programs with the same bytecode have the same emitted instructions |
| `Brillig.Memory.WriteAt` | noir/acvm-repo/brillig_vm/src/memory.rs:27-30 | exactly one address changes, however far past the end it lies; the gap reads as zero |
| `Brillig.Memory.WriteSliceAt` | noir/acvm-repo/brillig_vm/src/memory.rs:40-44 | exactly the addresses of the slice change |
| `Brillig.Memory.ResizeToFit` | noir/acvm-repo/brillig_vm/src/memory.rs:32-37 | no address reads differently |
| `Brillig.Memory.ReadAt` | noir/acvm-repo/brillig_vm/src/memory.rs:14-16 | an address past the end reads as zero |
| `SimulationClasses.IntOpExact` | yarn-project/simulator/src/avm/opcodes/arithmetic.ts:13-76 | at every bit size: the ALU gives the Brillig value at the declared class if and only if the operands are compatible, since every result has the class of the left operand |
| `SimulationClasses.WordsCompatible` | yarn-project/simulator/src/avm/avm_memory_types.ts:64-79 | at 8 to 128 bits compatibility is about classes: the unchecked operations ask it of the left operand only, up to the size of a subtrahend or divisor of another width |
| `SimulationClasses.ElementsCompatible` | avm-transpiler/src/transpile.rs:561-572 | at 254 bits both operands are field elements with a sum or product below 2^254, a difference that is not negative, a quotient without remainder, or an equality; divisors of zero fail on both machines, and no other operation matches |
| `SimulationValues.DivExact` | yarn-project/simulator/src/avm/avm_memory_types.ts:77-79 | unsigned division at every bit size, 254 included: both machines give the same quotient, or fail together, exactly for the stated operands |
| `SimulationValues.CheckedExact` | yarn-project/simulator/src/avm/opcodes/bitwise.ts:14-126 | comparisons, bitwise operations and shifts match exactly when both operands carry the declared tag and, at 254 bits, the operation is equality or, at one bit, the upper bits do not show |
| `SimulationValues.BitOperation` | avm-transpiler/src/transpile.rs:561-572 | 1-bit comparisons, bitwise operations and shifts, which the ALU computes on eight bits, give the same number if and only if: equal words or unequal low bits, orders that are those of the low bits, no common upper bit (and), no upper bit (or), the same upper bits (xor), a shifted word with nothing above the low bit |
| `Simulation.FieldOpExact` | yarn-project/simulator/src/avm/avm_memory_types.ts:147-165 | field operations match exactly on two field elements with a non-zero divisor |
| `SimulationValues.IntValueExact` | yarn-project/simulator/src/avm/avm_memory_types.ts:64-79 | at every bit size, whatever class the simulator files the result under: the ALU gives the number Brillig writes, or fails with it, if and only if the operands are of one kind and wrapping does not show (sums and products: the bits between the two widths are zero; differences and quotients by comparison), or carry the declared tag where the operation checks it and the operation matches on their numbers |
| `SimulationValues.FieldValueExact` | yarn-project/simulator/src/avm/avm_memory_types.ts:147-165 | the same for field operations: two field elements with a non-zero divisor, or two words whose sum or product does not wrap, whose difference is not negative, or whose quotient has no remainder |
| `SimulationResidues.FieldWrapExact` | yarn-project/simulator/src/avm/avm_memory_types.ts:68-70 | a number has the same residue modulo p and modulo 2^n if and only if the first has n bits and the quotient by p is a multiple of 2^n |
| `SimulationResidues.WideFieldWrapExact` | noir/acvm-repo/brillig_vm/src/lib.rs:500-519 | for a sum or product of field elements, wrapping at 254 bits before reducing modulo p gives the residue modulo p if and only if there is nothing to wrap |
| `SimulationResidues.WideWrapExact` | noir/acvm-repo/brillig_vm/src/lib.rs:500-519 | a number wrapped at 254 bits and reduced modulo p equals its residue modulo 2^w, w up to 128, if and only if its bits from w to 253 are zero |
| `SimulationResidues.QuotientExact` | yarn-project/simulator/src/avm/avm_memory_types.ts:77-79 | when reducing dividend and divisor modulo 2^n keeps the quotient, by cases on their sizes |
| `SimulationSteps.FieldStep` | avm-transpiler/src/transpile.rs:28-57 | a field opcode and its instruction take related states to related states, memory compared as numbers, if and only if the opcode is compatible |
| `SimulationSteps.IntStep` | avm-transpiler/src/transpile.rs:58-99 | an integer opcode and its instruction do the same to related states, memory compared as numbers, failures included, if and only if the opcode is compatible |
| `SimulationMoves.CastStep` | avm-transpiler/src/transpile.rs:204-206 | a cast to any size and its instruction agree exactly when the source word is defined, a next opcode exists and, for one bit, the upper seven of the low eight bits are zero |
| `SimulationMoves.SmallConstStep` | avm-transpiler/src/transpile.rs:415-441 | a constant and its SET agree exactly when the constant fits its type, in spite of the signed reading of 64-bit operands |
| `SimulationMoves.FieldConstStep` | avm-transpiler/src/transpile.rs:415-441 | a 254-bit constant and its SET and CAST pair agree whenever a next opcode exists |
| `SimulationMoves.MovStep` | avm-transpiler/src/transpile.rs:147-152 | a move agrees exactly when a next opcode exists, undefined words included |
| `SimulationMoves.LoadStep` | avm-transpiler/src/transpile.rs:153-158 | a load and the MOV with an indirect zeroth operand agree exactly when the pointer is a UINT32 inside AVM memory |
| `SimulationMoves.StoreStep` | avm-transpiler/src/transpile.rs:159-164 | a store and the MOV with an indirect first operand agree exactly when the pointer is a UINT32 inside AVM memory |
| `SimulationMoves.CalldataCopyStep` | avm-transpiler/src/transpile.rs:100-114 | copying calldata agrees exactly when the range is inside the calldata and the destination inside AVM memory |
| `SimulationMoves.JumpIfStep` | avm-transpiler/src/transpile.rs:125-143 | a conditional jump agrees exactly when its condition is defined and the branch taken stays inside the program |
| `SimulationMoves.JumpStep` | avm-transpiler/src/transpile.rs:115-124 | a jump always agrees |
| `SimulationMoves.CallStep` | avm-transpiler/src/transpile.rs:165-174 | a call pushes related return addresses and always agrees |
| `SimulationMoves.ReturnStep` | avm-transpiler/src/transpile.rs:175-178 | a return agrees exactly when it lands inside the program or both call stacks are empty |
| `SimulationMoves.StopStep` | avm-transpiler/src/transpile.rs:179-189 | the same return data exactly when the whole range is defined in AVM memory |
| `SimulationMoves.TrapStep` | avm-transpiler/src/transpile.rs:190-203 | both machines fail |
| `SimulationMoves.StepExact` | noir/acvm-repo/brillig_vm/src/lib.rs:181-377 | for every accepted program without foreign calls, black boxes and addresses outside AVM memory, every bit size included, every pair of related states and calldata: the instructions emitted for the current opcode lead to related states, the same return data or failure of both if and only if the opcode is compatible; tags play no part in the left side |
| `SimulationRuns.LockstepExact` | noir/acvm-repo/brillig_vm/src/lib.rs:154-160 | the machines go through related states for n opcodes if and only if each of the n opcodes they meet is compatible |
| `SimulationRuns.ForwardSimulation` | avm-transpiler/src/transpile.rs:16-226 | n Brillig steps are answered by n to 2n AVM steps, ending in equal memory after tag erasure and call stacks related by the pc map, in the same return data, or in failure of both |
| `SimulationRuns.TranspiledProgramRuns` | yarn-project/simulator/src/avm/avm_simulator.ts:19-67 | the same for the decoded bytecode run by the simulator from the initial state |
| `SimulationRuns.MixedWidthsDiffer` | yarn-project/simulator/src/avm/avm_memory_types.ts:64-66 | 8-bit 255 plus 32-bit 1 is 256 in Brillig and 0 in the AVM, with no error |
| `SimulationRuns.FieldDivisionByZeroDiffers` | yarn-project/simulator/src/avm/avm_memory_types.ts:159-161 | field division by zero is zero in Brillig and throws in the AVM |
| `SimulationRuns.FieldDivisionByZeroStep` | avm-transpiler/src/transpile.rs:28-57 | at a field division by zero of any plain program, in any related states, the Brillig VM goes on with zero and the simulator throws, whatever the operand classes |
| `SimulationRuns.WideComparisonStep` | yarn-project/simulator/src/avm/opcodes/comparators.ts:37-38 | at an order comparison of 254-bit integers of any plain program, in any related states, the Brillig VM goes on with the result and the simulator halts, whatever the operands |
| `SimulationRuns.RunningOffTheEndDiffers` | yarn-project/simulator/src/avm/avm_simulator.ts:44-47 | running past the last opcode finishes the Brillig VM and halts the AVM with an error |
| `SimulationExamples.OperationOnBoth` | avm-transpiler/src/transpile.rs:28-99 | from transpiler output to return data, for every pair of constants that can be loaded and every operation on them: the program returns the number Brillig computes and its bytecode the word the ALU files |
| `SimulationExamples.SumReturns` | avm-transpiler/src/transpile.rs:58-99 | for all constants and widths below 254: a w-bit sum of two constants wraps at w bits in the Brillig VM and at the width of the left constant in the simulator |
| `SimulationExamples.MixedWidthsReturn` | yarn-project/simulator/src/avm/avm_memory_types.ts:64-66 | a program that returns 256 and whose bytecode returns 0 |
| `SimulationExamples.BitSumReturns` | avm-transpiler/src/transpile.rs:563 | a 1-bit sum that returns 0 and whose bytecode returns 2 |
| `SimulationExamples.WideDivisionReturns` | avm-transpiler/src/transpile.rs:58-99 | a 254-bit division that returns 3 and whose bytecode returns the field quotient of 7 and 2 |
| `SimulationExamples.DivisionsConflated` | avm-transpiler/src/transpile.rs:28-99 | for all operands, 254-bit unsigned division and field division are both accepted and become the same instruction |
| `SimulationExamples.SameBytecode` | avm-transpiler/src/transpile.rs:28-99 | two accepted programs with the same bytecode and different results, so no simulator can be right about both |
| `SimulationExamples.NarrowSumAgrees` | yarn-project/simulator/src/avm/avm_memory_types.ts:64-66 | a program whose operands have another class than declared and which returns 3 on both machines |
| `SimulationExamples.NarrowSumIsCompatible` | yarn-project/simulator/src/avm/avm_memory_types.ts:64-66 | at its addition the machines agree without agreeing on the class |
| `SimulationClasses.FieldClassStep` | avm-transpiler/src/transpile.rs:28-57 | a field opcode and its instruction agree and leave a field element if and only if both operands are field elements and a divisor is not zero |
| `SimulationClasses.IntClassStep` | avm-transpiler/src/transpile.rs:58-99 | an integer opcode and its instruction agree and leave the declared class if and only if the operand classes are compatible |
| `SimulationClasses.ClassExact` | noir/acvm-repo/brillig_vm/src/lib.rs:181-377 | the same for every opcode of a plain program: agreement with the declared class if and only if the opcode is class compatible |
| `SourceClasses.ClassesFollow` | yarn-project/simulator/src/avm/avm_memory_types.ts:186-240 | after a step that agrees, the classes of AVM memory are those computed from the opcode, the Brillig state and the classes before; arithmetic leaves the class of its left operand |
| `SourceClasses.FittingRunExact` | noir/acvm-repo/brillig_vm/src/lib.rs:154-160 | the machines stay in lockstep for n opcodes, memory compared as numbers, if and only if the Brillig run fits the classes computed along it: a condition that mentions no AVM |
| `SourceClasses.FittingProgramRuns` | yarn-project/simulator/src/avm/avm_simulator.ts:19-67 | a program whose Brillig run from the initial state fits is simulated by its decoded bytecode, for any number of steps |
| `SourceClasses.SafeRunExact` | noir/acvm-repo/brillig_vm/src/lib.rs:154-160 | the machines stay in lockstep with the declared classes for n opcodes if and only if the Brillig run is safe for the classes computed along it: a condition that mentions no AVM |
| `SourceClasses.SafeRunFits` | noir/acvm-repo/brillig_vm/src/lib.rs:154-160 | a run that is safe for its classes fits them |
| `SourceClasses.SafeProgramRuns` | yarn-project/simulator/src/avm/avm_simulator.ts:19-67 | a program whose Brillig run from the initial state is safe is simulated by its decoded bytecode, for any number of steps |
| `SimulationTypes.CheckedIsCompatible` | avm-transpiler/src/transpile.rs:561-572 | an opcode that passes the static check of operand classes is class compatible in every state that has the typing, apart from zero field divisors, pointers out of range, loads of another class than claimed, and operands on which 254-bit or 1-bit operations differ |
| `SimulationTypes.TypingKept` | yarn-project/simulator/src/avm/avm_memory_types.ts:186-240 | the typing the check computes holds of the classes after the opcode, loads and stores through pointers included |
| `SimulationTypes.TypedProgramRuns` | avm-transpiler/src/transpile.rs:16-226 | every program that type checks is simulated, from bytecode and initial state, for as long as its Brillig run divides by no zero field element, follows no pointer outside AVM memory, loads words of the claimed classes, and operates at 254 bits or one bit on compatible operands only |
| `SimulationExamples.HeapRuns` | avm-transpiler/src/transpile.rs:153-164 | a program that stores a word through a pointer, loads it and computes on it type checks, meets the guards and is simulated for any number of steps |
| `Lockstep.RunsCorrespond` | noir/acvm-repo/brillig_vm/src/lib.rs:154-160 | a step-by-step simulation between two machines lifts to runs of any length |
| `BrilligArithmetic.SignedReadingBijective` | noir/acvm-repo/brillig_vm/src/arithmetic.rs:95-110 | the signed and the unsigned reading of an n-bit word are mutual inverses and stay in range, one direction |
| `BrilligArithmetic.UnsignedReadingBijective` | noir/acvm-repo/brillig_vm/src/arithmetic.rs:95-110 | the other direction |
| `BrilligArithmetic.ResultsInRange` | noir/acvm-repo/brillig_vm/src/arithmetic.rs:23-91 | for in-range operands every operation gives a value below 2^n, or reports division by zero exactly for a zero divisor; shifts for n up to 128 |
| `BrilligArithmetic.WrappingOps` | noir/acvm-repo/brillig_vm/src/arithmetic.rs:32-34 | addition, subtraction and multiplication are exact modulo 2^n under the unsigned and the signed reading, and exact outright when the signed result fits |
| `BrilligArithmetic.TruncDivSpec` | noir/acvm-repo/brillig_vm/src/arithmetic.rs:44-52 | the signed quotient leaves a remainder smaller than the divisor with the sign of the dividend |
| `BrilligArithmetic.SignedDivision` | noir/acvm-repo/brillig_vm/src/arithmetic.rs:44-52 | signed division is truncated division wrapped to n bits; the one quotient that does not fit is minimum / -1, which gives the minimum |
| `Bits.BitwiseBit` | noir/acvm-repo/brillig_vm/src/arithmetic.rs:77-79 | bit k of the bitwise result is the operation on bits k of the operands |
| `Bits.AndMask` | noir/acvm-repo/acir_field/src/generic_ark.rs:489-516 | masking with 2^k - 1 is the remainder modulo 2^k |
| `FieldElement.NumBits` | noir/acvm-repo/acir_field/src/generic_ark.rs:225-232 | the result is the unique k with 2^(k-1) <= x < 2^k, and 0 for 0 |
| `FieldElement.BitsOf` | noir/acvm-repo/acir_field/src/generic_ark.rs:309-316 | the bits read back as the element |
| `FieldElement.ByteToBit` | noir/acvm-repo/acir_field/src/generic_ark.rs:319-326 | the eight bits of a byte, most significant first |
| `FieldElement.TryIntoU128Exact` | noir/acvm-repo/acir_field/src/generic_ark.rs:234-245 | the conversion succeeds exactly below 2^128 and then is exact |
| `FieldElement.I128RoundTrip` | noir/acvm-repo/acir_field/src/generic_ark.rs:95-113 | to_i128 inverts From<i128> for every i128 but the minimum, over BN254 |
| `FieldElement.MaskValue` | noir/acvm-repo/acir_field/src/generic_ark.rs:489-516 | the masked byte string denotes the big-endian value modulo 2^n, for every length and bit count |
| `FieldElement.MaskVectorLe` | noir/acvm-repo/acir_field/src/generic_ark.rs:489-516 | the in-place loop leaves exactly the masked byte string |
| `FieldElement.AndXorExact` | noir/acvm-repo/acir_field/src/generic_ark.rs:352-379 | and is the bitwise AND of the operands modulo 2^n, xor their bitwise XOR reduced modulo p |
| `FieldElement.HexInverse` | noir/acvm-repo/acir_field/src/generic_ark.rs:278-291 | from_hex inverts to_hex on every field element |
| `Buffers.ToBufferBE` | barretenberg/ts/src/bigint-array/index.ts:13-21 | the low bytes of the value in two's complement, so reading them gives the value modulo 256^width |
| `Buffers.ToBigIntBE` | barretenberg/ts/src/bigint-array/index.ts:1-11 | the number whose encoding of that width is the buffer |
| `Buffers.SerializeBigInt` | barretenberg/ts/src/serialize/serialize.ts:58-64 | the same bytes as toBufferBE, computed by independent shifts |
| `Buffers.DeserializeBigInt` | barretenberg/ts/src/serialize/serialize.ts:66-72 | the number at the offset, or an exception when a byte is missing |
| `Buffers.ConcatenateUint8Arrays` | barretenberg/ts/src/serialize/serialize.ts:38-47 | the buffer is filled with all parts in order |
| `Buffers.DeserializeArrayFromVector` | barretenberg/ts/src/serialize/serialize.ts:114-129 | the loop reads the count and then the elements one after the other, with the total advance |
| `Buffers.BufferReader.ReadVector` | barretenberg/ts/src/serialize/buffer_reader.ts:33-40 | the elements at the cursor, and the cursor moved past them |
| `Buffers.BufferReader.ReadArray` | barretenberg/ts/src/serialize/buffer_reader.ts:42-53 | the same for a given number of elements |
| `Buffers.BufferReader.ReadBuffer` | barretenberg/ts/src/serialize/buffer_reader.ts:67-70 | the length-prefixed bytes at the cursor |
| `Buffers.BufferReader.ReadBoolean` | barretenberg/ts/src/serialize/buffer_reader.ts:17-20 | the byte at the cursor as a boolean; a missing byte reads as false, where `deserializeBool` gives true |
| `Buffers.BufferReader.ReadNumber` | barretenberg/ts/src/serialize/buffer_reader.ts:11-15 | four big-endian bytes, or an exception past the end |
| `Buffers.VectorReads` | barretenberg/ts/src/serialize/serialize.ts:110-129 | if every element encoding reads back wherever it stands, so does the length-prefixed vector, with the advance equal to the bytes written |
| `Bufferable.RoundTrip` | barretenberg/ts/src/serialize/serialize.ts:139-157 | a value of any nesting, at any offset of any buffer, reads back if and only if all its numbers and lengths are in range, and then the advance is exactly the bytes written |
| `BlockLogs.LogsRoundTrip` | yarn-project/circuit-types/src/logs/l2_block_l2_logs.ts:23-57 | the logs of a block read back at any offset through all three levels of length prefixes |
| `BlockLogs.TxLogsRoundTrip` | yarn-project/circuit-types/src/logs/tx_l2_logs.ts:24-67 | the logs of a transaction read back from their unprefixed buffer |
| `BlockLogs.WholeBufferReads` | yarn-project/circuit-types/src/logs/function_l2_logs.ts:27-66 | length-prefixed buffers read back until the end of the buffer |
| `BlockLogs.NoLogs` | yarn-project/circuit-types/src/logs/l2_block_l2_logs.ts:40-42 | the total log count is zero exactly when every transaction has none |
| `BlockBody.CalculateNumTxsFromNullifiers` | yarn-project/circuit-types/src/body.ts:172-181 | the number of non-zero elements at the multiples of the tuple size |
| `BlockBody.StridedCountsTxs` | yarn-project/circuit-types/src/body.ts:166-181 | over the flattened nullifiers that number is numberOfTxs |
| `BlockBody.ChunkAt` | yarn-project/circuit-types/src/body.ts:85-114 | cutting a flattened column at the multiples of the tuple size gives back the tuples |
| `BlockBody.Transpose` | yarn-project/circuit-types/src/body.ts:66-117 | logs in the padded area are rejected, and otherwise row i is made of the i-th tuple of every column, with undefined logs where there is no i-th entry |
| `BlockBody.DefinedIffEnoughLogs` | yarn-project/circuit-types/src/body.ts:83-115 | a decoded body has undefined logs exactly when there are fewer log entries than transactions |
| `BlockBody.FromBuffer` | yarn-project/circuit-types/src/body.ts:54-118 | the cursor-driven decoder gives, on every buffer, the sections read one after the other and transposed, or the first exception |
| `BlockBody.BodyRoundTrip` | yarn-project/circuit-types/src/body.ts:20-118 | every body with the prescribed tuple sizes that can be written decodes to itself, whatever follows it, if and only if no transaction past numberOfTxs has logs; otherwise the decoder rejects it |
| `BlockBody.EmptyFirstIsRejected` | yarn-project/circuit-types/src/body.ts:72-83 | a body with the prescribed tuple sizes that can be written, an empty transaction before one with a log, and that its own decoder rejects |
| `Signatures.SignaturePrints` | noir/aztec_macros/src/lib.rs:1578-1602 | the signature is the printed layout, in which structs are tuples of their fields |
| `Signatures.ReadsUniquely` | noir/aztec_macros/src/lib.rs:1578-1602 | a printed layout followed by any text that does not start with a digit reads in only one way |
| `Signatures.SignatureInjective` | noir/aztec_macros/src/lib.rs:1578-1602 | two supported types have the same signature if and only if they are equal up to reading structs as tuples |
| `Signatures.EventSignatureInjective` | noir/aztec_macros/src/lib.rs:1606-1609 | two events have the same signature if and only if they have the same name and field layouts |
| `StorageSlots.AssignStorageSlots` | noir/aztec_macros/src/lib.rs:935-983 | in a build with overflow checks it succeeds exactly when every initializer has a literal slot, lengths exist where needed and the counter fits a u64, without them when the first two hold; then automatic slots hold the running counter, wrapped at 64 bits without checks, and all others are untouched |
| `StorageSlots.ChecksMakeNoDifference` | noir/aztec_macros/src/lib.rs:969-982 | where the pass succeeds with overflow checks, it leaves the same slots without them |
| `StorageSlots.WrapsToUnassigned` | noir/aztec_macros/src/lib.rs:969-982 | without overflow checks two fields of lengths 2^64 - 1 and 1 give the second one slot 0, which the next pass takes for unassigned |
| `StorageSlots.AssignedSlot` | noir/aztec_macros/src/lib.rs:969-982 | an assigned slot is the exact counter value and is not taken for unassigned again |
| `StorageSlots.SecondPassIsIdle` | noir/aztec_macros/src/lib.rs:969-971 | a second pass succeeds and changes nothing |
| `StorageSlots.InFieldOrder` | noir/aztec_macros/src/lib.rs:973-982 | automatic ranges follow each other in field order and are disjoint |
| `StorageSlots.ExactCover` | noir/aztec_macros/src/lib.rs:935-982 | together they cover exactly the slots from 1 to their total length |
| `StorageSlots.ExplicitIsClear` | noir/aztec_macros/src/lib.rs:969-971 | an explicit range meets no automatic one if and only if it misses that block |
| `StorageSlots.ExplicitIsKept` | noir/aztec_macros/src/lib.rs:954-971 | an explicit slot other than 0 survives the pass if and only if its low 128 bits are not all zero |
| `StorageSlots.SlotOverwritten` | noir/aztec_macros/src/lib.rs:954-971 | the explicit slot 2^128 is overwritten with 1 |
| `StorageSlots.SeparateIffOrdered` | noir/aztec_macros/src/lib.rs:936-982 | lengths are looked up by position in the struct: for every storage the pass accepts, explicit slots mixed in or not, the ranges that start at the assigned slots and have the true lengths are in order without overlap if and only if each automatic initializer but the last is for a field no longer than the struct field at its position |
| `StorageSlots.DisjointIffOrdered` | noir/aztec_macros/src/lib.rs:936-982 | for fields that are not empty that is also exactly when no two of them share a slot |
| `StorageSlots.AllAutomatic` | noir/aztec_macros/src/lib.rs:936-982 | with automatic slots only the condition is on every initializer but the last, and initializers in struct order always meet it |
| `StorageSlots.SwappedFieldsOverlap` | noir/aztec_macros/src/lib.rs:936-982 | two fields of lengths 1 and 2 with swapped initializers get slots 1 and 2 in the wrong order and overlap |

## Left out

- Concrete hashes and curves: hashes are arbitrary functions; `HasherWithStats` keeps only its count.
- The key-value store is one map and one metadata cell per tree; transactions are atomic, and promises are not modelled.
- Negative leaf indices, `findLeafIndex`, snapshots and the indexed tree.
- Arkworks: a field element is an integer below the BN254 modulus with its 32-byte big-endian encoding; the inverse is the inverse modulo p where there is one and zero otherwise, the same function on both machines.
- Foreign calls and black boxes are modelled up to the shape of their one instruction; programs that use them are outside the simulation theorems.
- Gas, nested calls and world state of the simulator.
- RETURN over undefined words: the output has a hole there; whether the host then throws is not modelled.
- Host limits on the size of big integers, which very large shift amounts would hit.
- `i128::MIN` panics in the conversion to a field element; the round trip is stated for all other values.
- Field elements inside a block body are their 32-byte buffers; the range check on conversion to a big integer is not part of the codec.
- Strings in `serializeBufferable` are byte buffers; text encoding is not modelled, and a buffer is taken to be its whole underlying memory.
- `readMap`, `readString` and the date helpers of the serializers.
- How `get_serialized_length` finds a length: lengths are inputs, with their errors.
- `TxEffect.hash` and the other getters of a block body.
- The rest of `aztec_macros`, the CLIs, bindings, circuits and services of the repository.
