# Asterisc, verified: fast VM, slow VM, and why they agree

Asterisc executes one RISC-V instruction in two ways. The fast VM works on a paged memory with
cached hashes: a radix trie of six levels over pages of 4 KiB that each cache the hashes of their own
subtree. The slow VM knows memory only by its root; it works on 362 bytes of state and on Merkle
branches in its calldata, and mirrors an EVM contract. A dispute over an execution comes down to one
step, which the fast VM proves and the slow VM repeats. This project models both VMs in Dafny and
proves that they agree.

Everything is measured against two definitions:

* `FlatMemory`: 2^64 bytes and the binary hash tree over their 2^59 leaves, defined by recursion.
* `Reference`: one VM step over that memory, with the branches it needs, in order.

On top of them, from the bottom up:

* `Words`, `Bytes`, `TreeIndex`: machine words, bit operations, byte orders, generalized indices.
* `Page`, `RadixTrie`, `PageTree`, `CachedMemory`, `MemoryRange`, `History`: the cached memory as
  classes that are updated in place. `Shape` is the invariant that every operation keeps; `Coherent` says that
  every hash marked valid is right, and is kept by writes under a guard.
* `Evm`, `FastYul64`, `SlowYul64`, `Yul64`: 64-bit arithmetic, native and through 256-bit words.
* `Cpu`, `DecodeAgrees`, `BaseIsa`, `MExtension`: registers, the instruction switch and what it computes. The
  switch is the same text in both packages, so it is written once, over either arithmetic; what it
  wants from memory or from the oracle is returned as an action.
* `Fields`, `Isa`, `Instructions`, `SystemCalls`, `Execution`, `Outputs`: what each instruction and each system call
  does, stated on the bits of the word, the registers and the bytes of memory, for every word; what a program puts
  out, and its outcome.
* `SlowStep`, `Simulation`, `Binding`, `SlowVm`: the slow step as a function and as the imperative
  code over its state buffer, its completeness and its soundness.
* `Witness`: the layout of the state bytes, their hash, and the masked word access in Solidity.
* `Hints`, `FastVm`: the fast VM as classes, with its record of branches.
* `OneStep`, `FastRuns`, `SlowRuns`: the two VMs side by side, step by step and along runs, and what the slow VM
  accepts from any prover.
* `Accounts`, `ProofRuns`: runs in which some steps are proved and others are not, and when the hash caches stay
  right along them.
* `Runs`: what every run keeps.

The hash is a parameter. Nothing is assumed of it, except where a theorem says so: then it must not collide
on the finite set of strings that the theorem names. (No hash is injective on all strings.)

Places where code and comments or intentions part, as the theorems state them:

* `Memory.Invalidate` leaves a page alone when its root hash is not valid, so two writes to different chunks of a
  hashed page leave a wrong hash behind (`History.TwoChunksGoStale`), and the next root is wrong (`History.StaleRoot`).
  One store without proof is enough, when it goes over the end of a chunk (`Accounts.StoreOnHashed`).
  `Memory.SetUnaligned` says exactly when a write does that. Taking a branch before each write avoids it, which is
  what proof mode does (`Accounts.ProvedStepKeeps`); so does a memory that was never hashed (`FastRuns.RunThenProve`).
  `ProofRuns.Run` gives a condition for runs with proofs at any steps, `History.Replay` one for histories in general.
* `InvalidateFull` does not reach the trie (`MemoryRange.InvalidateAll`).
* Reading a range panics when offset in page plus count reaches 2^64 (`MemoryRange.SliceBounds`).
* At the end of a preimage the fast VM panics and the slow VM reports the end; nowhere else do they differ
  (`OneStep.PartsAgree`, `OneStep.StepsDiffer`, `FastRuns.FailsExactly`).
* An SC to address 0 needs no reservation, since the empty reservation is 0 (`Runs.StoreConditionalMeets`, `Runs.ZeroNeedsNoReservation`).
* Some encodings that the standard reserves are executed: branch codes 2 and 3 never jump (`Instructions.Branches`), and
  among register operations only sums and right shifts look at all of funct7 (`Isa.RegisterTable`, `Isa.RegisterWordTable`).
* A hint buffer of 2^32 bytes or more can stall (`Hints.LargeBufferStalls`); `Hints.ProcessesMessages` says exactly when the loop works.
* The fast state hash takes only 1 for exited, the slow one every nonzero byte (`Witness.StateHashesAgree`).

## Model

| member | source | states |
|---|---|---|
| `FlatMemory.ProofFolds` | rvgo/slow/vm.go:302-322 | Completeness of the reference tree: the leaf and the 59 siblings of any of the 2^59 leaves fold, by the address bits, to the root. |
| `FlatMemory.UpdateFolds` | rvgo/slow/vm.go:332-353 | Folding a new leaf through the old siblings gives the root of the memory with that one leaf changed. |
| `FlatMemory.FoldInjective` | rvgo/slow/vm.go:302-328 | Two branches along one path that fold to one root are equal, leaf and siblings, if the hash does not collide on the strings the two folds hash. |
| `FlatMemory.SubFrame` | rvgo/fast/radix.go:289-303 | A subtree hash depends on the leaves below it and on nothing else. |
| `FlatMemory.SubZero` | rvgo/fast/memory.go:31-38 | The hash of an all-zero subtree is the precomputed zero hash of its level. |
| `FlatMemory.WriteTwice` | rvgo/fast/memory.go:98-132 | A write in two pieces, also around the end of the address space, is one write. |
| `FlatMemory.ReadWrite` | rvgo/fast/memory.go:98-172 | What was written last is what is read, for every address modulo 2^64. |
| `Page.CachedPage.Invalidate` | rvgo/fast/page.go:34-45 | Exactly the flags on the path from the byte's 64-byte chunk to the top of the page are cleared. |
| `Page.CachedPage.InvalidateFull` | rvgo/fast/page.go:47-49 | All flags of the page are cleared. |
| `Page.CachedPage.MerkleRoot` | rvgo/fast/page.go:51-74 | Returns the recursive hash of the bytes that the cache shows, that is of the 4 KiB if the cache is sound, and of other bytes where a flag still set hides a change; leaves every flag set and the cache sound for the bytes shown. |
| `Page.CachedPage.MerkleizeSubtree` | rvgo/fast/page.go:76-87 | Returns the recursive node at any generalized index 1..255. |
| `Page.CachedPage.GenerateProof` | rvgo/fast/page.go:103-119 | Returns the leaf and the seven siblings above it, lowest first. |
| `Page.BottomNode` | rvgo/fast/page.go:51-61 | Hashing 64 bytes at once is hashing a pair of leaves. |
| `Page.PageNodeFrame` | rvgo/fast/page.go:34-74 | A cached node notices only changes to bytes whose path it is on. |
| `Page.WriteSoundIff` | rvgo/fast/page.go:34-74 | After a write the cache is sound if and only if no flag still set stands above a byte that changed (the hash must not collide on what the two contents hash). |
| `Page.RootTellsBytes` | rvgo/fast/page.go:51-74 | Two pages have one root if and only if they hold the same bytes (the hash must not collide on what the two hash). |
| `RadixTrie.RadixNode.InvalidateNode` | rvgo/fast/radix.go:56-86 | On the path from the bottom index to 1 every index is marked existing and not valid; all others are untouched. One member for the three node sizes. |
| `RadixTrie.PathOfAddress` | rvgo/fast/radix.go:332-356 | The radix path of an address, level by level, is its page index cut at the branch factors. |
| `PageTree.PageIsSub` | rvgo/fast/page.go:51-74 | A node inside a page is the corresponding node of the tree over the whole memory. |
| `CachedMemory.ZeroHashes` | rvgo/fast/memory.go:31-38 | Entry i is the root of an all-zero tree with 2^i leaves. |
| `CachedMemory.Memory.constructor` | rvgo/fast/memory.go:54-62 | A new memory is all zero, structurally sound and coherent. |
| `CachedMemory.Memory.MerkleizeNode` | rvgo/fast/radix.go:159-286 | From coherent caches, the hash of any index of any trie node is the recursive hash of the reference tree; missing hashes are computed and remembered, coherence is kept, and every page below gets a valid root hash. |
| `CachedMemory.Memory.MerkleizePage` | rvgo/fast/radix.go:289-298 | The trie leads to a page only if the page exists, so the zero-hash branch is never taken; the result is the reference node at depth 52. |
| `CachedMemory.Memory.MerkleRoot` | rvgo/fast/radix.go:301-303 | From coherent caches, the root of the reference tree over the 2^64 bytes. |
| `CachedMemory.Memory.MerkleProof` | rvgo/fast/radix.go:306-330 | For every address, mapped or not, at whatever level its path leaves the trie: entry 0 is the leaf, entries 1..59 the siblings from the bottom up; afterwards every page of the memory has a valid root hash, since the siblings cover the rest of the tree. |
| `CachedMemory.Memory.GenerateProof` | rvgo/fast/radix.go:90-140 | A trie node fills in exactly the words from its child's down to its own depth. |
| `CachedMemory.Memory.FillZeroHashes` | rvgo/fast/radix.go:313-321 | Where the path ends at a nil child, the zero hashes filled in are the words of the branch. |
| `CachedMemory.Memory.GeneratePageProof` | rvgo/fast/radix.go:143-154 | The eight words that a page contributes to a branch. |
| `CachedMemory.Memory.PageLookup` | rvgo/fast/memory.go:77-96 | The two-entry lookup cache always answers as the page table does. |
| `CachedMemory.Memory.Invalidate` | rvgo/fast/radix.go:418-465 | Keeps coherence, clears the flags of one chunk's path, but only if the page's root hash was valid, exactly as the early return has it. |
| `CachedMemory.Memory.AllocPage` | rvgo/fast/radix.go:359-414 | A blank page with a complete trie path above it and nothing valid above it; coherence is kept; a page that was there is replaced by zeros, and the lookup cache stays right if and only if it did not hold that page. |
| `CachedMemory.Memory.SetUnaligned` | rvgo/fast/memory.go:98-132 | Exactly the given bytes change, modulo 2^64 and across pages, and the flags of every page afterwards are those of before with the chunk's path forgotten, none for a new page. From coherent caches, the caches are coherent afterwards if and only if the guard CanWrite holds of flags, bytes and data before the call (only if: when the hash does not collide inside the pages written). |
| `CachedMemory.HarmlessIff` | rvgo/fast/radix.go:418-429 | The guard for one page is exact: a sound cache is sound after the write if and only if no flag that the write leaves set stands above a byte that changes. |
| `CachedMemory.Memory.UnhashedGuard` | rvgo/fast/memory.go:98-132 | A memory none of whose pages carries a flag takes every write, also across chunks. |
| `CachedMemory.Memory.GetUnaligned` | rvgo/fast/memory.go:134-172 | Returns the bytes of the reference memory, zeros where no page is; changes no hash cache. |
| `CachedMemory.FreshPageGuard` | rvgo/fast/radix.go:418-429 | The guard holds for a page with a valid root hash and a write inside one chunk. |
| `CachedMemory.TwoWritesGoStale` | rvgo/fast/radix.go:418-429 | A concrete case, on the flags and the cache of one page: a page of zeros is hashed, then one byte is written in each of its first two chunks; the first write is harmless, after the second the cache is wrong. |
| `CachedMemory.Memory.CleanWrite` | rvgo/fast/memory.go:98-132 | The guard holds whenever no page the write reaches has lost its root hash, including pages that do not exist, and the write stays in one chunk or goes on in the next page. |
| `History.Replay` | rvgo/fast/radix.go:301-311 | Along every history of writes, roots and proofs that meets a condition on the history alone, each root and each branch is that of the bytes written so far. The condition, page by page: never hashed, every write; hashed, a write within one chunk; written since, any number of writes to that same chunk. What is known of the pages to begin with is a parameter. |
| `History.UnhashedIsGuarded` | rvgo/fast/radix.go:418-429 | On a memory that was never hashed the condition holds of every history whose writes come before its first root or proof. |
| `History.TwoChunksGoStale` | rvgo/fast/radix.go:418-429 | Unconditional coherence fails, in every memory and at all addresses: a byte and then a byte of another chunk of the same hashed page are written; the memory is not coherent afterwards, and the cache of the page goes on showing the bytes without the second write. One store of two bytes to an address that is 63 modulo 64 is such a pair. |
| `History.StaleRoot` | rvgo/fast/radix.go:289-298 | What follows from it: the next root taken of that page is the root without the second write, and differs from that of the bytes the page holds (unless the hash collides). |
| `MemoryRange.SliceBounds` | rvgo/fast/memory.go:286-297 | The slice bounds computed for one read are in order if and only if offset in page plus count stays below 2^64. |
| `MemoryRange.MemReader.Read` | rvgo/fast/memory.go:281-306 | One read delivers the next bytes up to the end of the page and the room given; it panics in exactly the case above. |
| `MemoryRange.ReadAll` | rvgo/fast/memory.go:308-310 | Draining the reader with any buffer size gives the bytes of the range if offset in page plus count is below 2^64, and panics otherwise. |
| `MemoryRange.InvalidateAll` | rvgo/fast/memory.go:221-221 | Clearing all flags of a page keeps coherent caches coherent if and only if the trie has no valid hash above that page. |
| `MemoryRange.SetMemoryRange` | rvgo/fast/memory.go:213-231 | All bytes of the reader end up at the range, whatever the sizes of the pieces it delivers, empty ones included. The caches stay coherent if no page of the range, nor the one behind it that the last lookup reaches, has a valid root hash; where all these pages exist, they stay coherent if and only if no hash that the trie marks as valid stands above any of them. |
| `MemoryRange.Serialize` | rvgo/fast/memory.go:242-255 | The output lists every page once with index and bytes, in an arbitrary order, behind the page count; reading it back gives the memory and leaves nothing over. |
| `MemoryRange.Deserialize` | rvgo/fast/memory.go:257-273 | Succeeds exactly on streams that parse, loads the pages in their order over what was there, leaves the rest of the stream, and keeps coherence; the lookup cache is right afterwards if and only if neither of its two pages was loaded. |
| `MemoryRange.SerializeRoundTrip` | rvgo/fast/memory.go:242-273 | For every order of pages and whatever follows them: the stream parses back, and loading it into an empty memory gives the same 2^64 bytes. |
| `FastYul64.SignExtendMeans` | rvgo/fast/yul64.go:48-57 | For bit below 64 the result is the 64-bit form of the signed number in the low bit+1 bits. |
| `FastYul64.WideMeans` | rvgo/fast/yul64.go:59-66 | The 256-bit word read as a signed number is the 64-bit word read as a signed number. |
| `Evm.WordRoundTrip` | rvgo/slow/yul256.go:10-18 | Words and their 32 big-endian bytes convert into each other without loss. |
| `SlowYul64.SignExtend64To256` | rvgo/slow/yul64.go:74-81 | Over 256-bit words, stays below 2^64 and equals the native operation on all inputs. |
| `SlowYul64.Add64` | rvgo/slow/yul64.go:83-86 | Over 256-bit words, stays below 2^64 and equals the native operation on all inputs. |
| `SlowYul64.Sub64` | rvgo/slow/yul64.go:88-91 | Over 256-bit words, stays below 2^64 and equals the native operation on all inputs, including wrap-around below zero. |
| `SlowYul64.Mul64` | rvgo/slow/yul64.go:93-96 | Over 256-bit words, stays below 2^64 and equals the native operation on all inputs. |
| `SlowYul64.Div64` | rvgo/slow/yul64.go:98-101 | Over 256-bit words, stays below 2^64 and equals the native operation on all inputs. |
| `SlowYul64.SDiv64` | rvgo/slow/yul64.go:103-106 | Over 256-bit words, stays below 2^64 and equals the native operation on all inputs, including zero divisors and -2^63 / -1. |
| `SlowYul64.Mod64` | rvgo/slow/yul64.go:108-111 | Over 256-bit words, stays below 2^64 and equals the native operation on all inputs. |
| `SlowYul64.SMod64` | rvgo/slow/yul64.go:113-116 | Over 256-bit words, stays below 2^64 and equals the native operation on all inputs, including zero divisors and the sign of the remainder. |
| `SlowYul64.Not64` | rvgo/slow/yul64.go:118-121 | Over 256-bit words, stays below 2^64 and equals the native operation on all inputs. |
| `SlowYul64.Slt64` | rvgo/slow/yul64.go:133-136 | Over 256-bit words, stays below 2^64 and equals the native operation on all inputs. |
| `SlowYul64.Sgt64` | rvgo/slow/yul64.go:138-141 | Over 256-bit words, stays below 2^64 and equals the native operation on all inputs. |
| `SlowYul64.Shl64` | rvgo/slow/yul64.go:167-171 | Over 256-bit words, stays below 2^64 and equals the native operation on all inputs, including shifts of 64 and more. |
| `SlowYul64.Shr64` | rvgo/slow/yul64.go:173-177 | Over 256-bit words, stays below 2^64 and equals the native operation on all inputs, including shifts of 64 and more. |
| `SlowYul64.Sar64` | rvgo/slow/yul64.go:179-183 | Over 256-bit words, stays below 2^64 and equals the native operation on all inputs, including shifts of 64 and more. |
| `SlowYul64.SignExtend64` | rvgo/slow/yul64.go:63-72 | Over 256-bit words, stays below 2^64 and equals the native operation on all inputs, for every bit number, also from 64 on where the 256-bit shifts behave differently on the way. |
| `SlowYul64.Mask32Signed64` | rvgo/slow/yul64.go:51-53 | Over 256-bit words, stays below 2^64 and equals the native operation on all inputs. |
| `SlowYul64.U256ToU64` | rvgo/slow/yul64.go:35-37 | Over 256-bit words, stays below 2^64 and equals the native operation on all inputs. |
| `Yul64.OperationsAgree` | rvgo/slow/yul64.go:35-183 | All 64-bit operations of the two packages are the same functions. |
| `BaseIsa.RegisterOperations` | rvgo/fast/vm.go:758-793 | ADD, SUB, SLL, SLT, SLTU, SRL and SRA as operations on exact integers. |
| `BaseIsa.ImmediateOperations` | rvgo/fast/vm.go:648-680 | ADDI, SLLI, SLTI, SLTIU, SRLI and SRAI; a right shift reverts unless the upper immediate bits select one of the two kinds. |
| `BaseIsa.WordOperations` | rvgo/fast/vm.go:838-849 | ADDW and SUBW are the signed low word of sum and difference. |
| `BaseIsa.WordShifts` | rvgo/fast/vm.go:850-862 | SLLW, SRLW and SRAW; sign extension from bit 31-shamt is the signed word divided by 2^shamt, rounded down. |
| `BaseIsa.WordImmediates` | rvgo/fast/vm.go:681-712 | ADDIW, SLLIW, SRLIW and SRAIW on signed low words; exactly which immediates revert. |
| `BaseIsa.BitwiseOperations` | rvgo/fast/vm.go:648-793 | XOR, OR, AND, their immediate forms and AMOXOR, AMOOR, AMOAND, bit by bit. |
| `BaseIsa.BranchConditions` | rvgo/fast/vm.go:613-632 | Each branch code is taken exactly under its signed, unsigned or equality condition. |
| `BaseIsa.AtomicResults` | rvgo/fast/vm.go:947-984 | AMOADD, AMOSWAP, and the minima and maxima, signed and unsigned. |
| `MExtension.Products` | rvgo/fast/vm.go:720-727 | MUL, MULH, MULHSU and MULHU are the low and the high half of the exact signed, mixed or unsigned product (floor division by 2^64). |
| `MExtension.SignedDivision` | rvgo/fast/vm.go:728-755 | DIV and REM: dividend = quotient * divisor + remainder with truncation, -1 and the dividend for divisor zero, the dividend and 0 for the overflow. |
| `MExtension.UnsignedDivision` | rvgo/fast/vm.go:735-755 | DIVU and REMU, with all ones and the dividend for divisor zero. |
| `MExtension.MulWord` | rvgo/fast/vm.go:804-805 | MULW is the sign-extended product of the low words modulo 2^32. |
| `MExtension.SignedWordDivision` | rvgo/fast/vm.go:806-826 | DIVW and REMW satisfy the division equation on the signed low words, with both special cases. |
| `MExtension.UnsignedWordDivision` | rvgo/fast/vm.go:812-833 | DIVUW and REMUW satisfy the division equation on the low words, results sign-extended. |
| `Fields.RegistersParsed` | rvgo/fast/parse.go:55-77 | Opcode, rd, funct3, rs1, rs2 and funct7 are the bits of the word where the instruction formats place them. |
| `Fields.ImmIParsed` | rvgo/fast/parse.go:6-8 | The I-immediate is bits 31 to 20 as a signed number, and extending it once more changes nothing. |
| `Fields.ImmSParsed` | rvgo/fast/parse.go:10-17 | The S-immediate is bits 31 to 25 above bits 11 to 7 as a signed number. |
| `Fields.ImmBParsed` | rvgo/fast/parse.go:19-33 | The branch offset is, bit by bit, the signed number of bit 31, bit 7, bits 30 to 25 and bits 11 to 8, in units of two bytes. |
| `Fields.ImmUParsed` | rvgo/fast/parse.go:35-37 | The upper immediate, shifted, is bits 31 to 12 as a signed number in units of 4096. |
| `Fields.ImmJParsed` | rvgo/fast/parse.go:39-53 | The jump offset, shifted and extended, is the signed number of bit 31, bits 19 to 12, bit 20 and bits 30 to 21, in units of two bytes. |
| `Isa.ImmediateTable` | rvgo/fast/vm.go:648-680 | For every code and every 12-bit immediate opcode 0x13 gives the exact result of the table, or none. |
| `Isa.ImmediateWordTable` | rvgo/fast/vm.go:681-712 | The same for the words of opcode 0x1B. |
| `Isa.RegisterTable` | rvgo/fast/vm.go:713-796 | For every pair of codes opcode 0x33, with the M extension, gives the exact result of the table, or none. |
| `Isa.RegisterWordTable` | rvgo/fast/vm.go:797-865 | The same for the words of opcode 0x3B. |
| `Instructions.Loads` | rvgo/fast/vm.go:588-603 | For every word of opcode 0x03: code 7 fails; otherwise rd gets the 1, 2, 4 or 8 bytes at rs1 plus the immediate, as a signed number for the codes below 4 and as an unsigned one for 4 to 6; nothing else changes but pc and step. |
| `Instructions.Stores` | rvgo/fast/vm.go:604-612 | For every word of opcode 0x23: the low 1, 2, 4 or 8 bytes of rs2 go to rs1 plus the immediate, every other byte and register stays; codes above 3 fail. |
| `Instructions.Branches` | rvgo/fast/vm.go:613-647 | For every word of opcode 0x63: the pc goes on by the offset if the condition of the code holds between rs1 and rs2, signed or unsigned as the code says, and by 4 otherwise; the step fails exactly if that is no multiple of 4. |
| `Instructions.JumpAndLink` | rvgo/fast/vm.go:876-885 | JAL: the pc goes on by the offset, rd gets the address behind the instruction; a failure exactly if the target is not aligned. |
| `Instructions.JumpAndLinkRegister` | rvgo/fast/vm.go:886-896 | JALR: the target is the old rs1 plus the immediate without its lowest bit, also if rd is rs1. |
| `Instructions.Computes` | rvgo/fast/vm.go:648-865 | Arithmetic and logic as steps: rd gets the result of the table for the opcode and codes of the word, from the registers and the immediate that the word names; no result is a failure. |
| `Instructions.LoadsUpper` | rvgo/fast/vm.go:866-875 | LUI puts the upper immediate into rd, AUIPC its sum with the pc. |
| `Instructions.AtomicRefused` | rvgo/fast/vm.go:911-931 | Atomic operations on other than 4 or 8 bytes, or at a misaligned address, fail. |
| `Instructions.LoadsReserved` | rvgo/fast/vm.go:934-937 | LR: rd gets the signed number at rs1, and the reservation is for that address. |
| `Instructions.StoresConditionally` | rvgo/fast/vm.go:938-946 | SC: with the reservation for its address the low bytes of rs2 are stored and rd gets 0; otherwise rd gets 1 and memory stays; the reservation is gone in either case. |
| `Instructions.ReadsModifiesWrites` | rvgo/fast/vm.go:947-988 | AMO: rd gets the number that was there, memory the sum, the operand, the bits or the extremum; the operand is a word if four bytes are accessed; an unknown operation fails. |
| `Instructions.OtherOpcodes` | rvgo/fast/vm.go:989-1002 | Fences and floating-point opcodes do nothing; every opcode not named in these lemmas fails. |
| `SystemCalls.NoCalls` | rvgo/fast/vm.go:897-909 | CSR instructions put 0 into rd, EBREAK does nothing. |
| `SystemCalls.Exits` | rvgo/fast/vm.go:344-352 | exit and exit_group: the state is exited with the low byte of A0 as exit code; registers and memory stay. |
| `SystemCalls.AnswersBreak` | rvgo/fast/vm.go:353-359 | brk answers 1 GiB. |
| `SystemCalls.MapsMemory` | rvgo/fast/vm.go:360-398 | mmap: refused unless anonymous with descriptor -1; a hint is granted; otherwise the old heap end is the answer, and the heap grows by the length rounded up to whole pages. |
| `SystemCalls.ReadsInput` | rvgo/fast/vm.go:399-421 | read: 0 from stdin, the whole count from the hint descriptor, EBADF from any other but the preimage oracle. |
| `SystemCalls.ReadsPreimage` | rvgo/fast/vm.go:413-421 | read from the preimage oracle: the least of the count, the rest of the leaf and what the oracle gives is stored, returned and added to the offset. |
| `SystemCalls.WritesOut` | rvgo/fast/vm.go:422-466 | write: the whole count to stdout, stderr and the hint descriptor, EBADF to any other but the preimage key; registers and memory are otherwise as before. |
| `SystemCalls.WritesKey` | rvgo/fast/vm.go:458-460 | write to the preimage key: the least of the count and the rest of the leaf moves into the key from behind, and the offset restarts. |
| `SystemCalls.DescribesFile` | rvgo/fast/vm.go:467-518 | fcntl: the flags of the seven descriptors, EBADF for others, EINVAL for other commands. |
| `SystemCalls.Tells` | rvgo/fast/vm.go:522-544 | clock_gettime stores 1337 and 42, getrlimit of open files 1024 and 1024, as two 64-bit numbers; other resources fail. |
| `SystemCalls.OtherCalls` | rvgo/fast/vm.go:519-563 | openat answers EACCES, clone 1; prlimit64, futex and nanosleep fail; every other call answers 0 and does nothing. |
| `Outputs.WritesPutOut` | rvgo/fast/vm.go:428-457 | A write call to stdout or stderr puts out exactly the A2 bytes at A1 under its descriptor, one to the hint descriptor appends them to the hint buffer and delivers its complete hints; it fails exactly if the range runs around the address space or the hint loop panics. |
| `Outputs.OnlyWritesPutOut` | rvgo/fast/vm.go:422-466 | No other step changes output, delivered hints or the hint buffer. |
| `Execution.GoesOn` | rvgo/fast/vm.go:588-1000 | After every successful instruction that is no branch and no jump, whatever else it does, the pc is the one before plus 4, modulo 2^64. |
| `Execution.OnlyExitEnds` | rvgo/fast/vm.go:344-352 | A step ends the program if and only if it is a call of exit, and every other step keeps the exit code. |
| `Execution.RunOutcome` | rvgo/fast/vm.go:344-352 | A run of any length has ended if and only if one of its steps was a call of exit; it ends in the state after that call, with the low byte that A0 had then. |
| `Execution.HashTellsOutcome` | rvgo/fast/state.go:114-139 | The first byte of the state hash at the end of a run is 3 if no step was a call of exit, and otherwise 0, 1 or 2 as the exit code at that call was 0, 1 or greater. |
| `DecodeAgrees.DecodeAgrees` | rvgo/slow/vm.go:778-1197 | For every register state and instruction word the instruction switch, with parsing and system calls, asks for the same action over native and over 256-bit arithmetic. |
| `DecodeAgrees.ImmediatesAgree` | rvgo/slow/parse.go:6-53 | The immediate parsers agree for every instruction word. |
| `DecodeAgrees.SysCallAgrees` | rvgo/slow/vm.go:564-763 | The system call switch agrees for every register state. |
| `Reference.DecodeWellFormed` | rvgo/fast/vm.go:588-611 | The switch only ever asks for loads of 1, 2, 4 or 8 bytes, stores of at most 16, and atomic accesses inside one leaf, so that the size checks and the second branch of an atomic store are never needed. |
| `WordBytes.PatchBytes` | rvgo/slow/vm.go:552-555 | or(and(x, not(mask)), and(p, mask)) replaces exactly the masked bytes of a word. |
| `WordBytes.AppendToKeyShifts` | rvgo/slow/vm.go:483-511 | The shifts and the or append the chosen bytes of the leaf to the key and drop as many at its front, in both packages. |
| `WordBytes.MergePreimagePatches` | rvgo/slow/vm.go:542-555 | The two shifted masks put exactly count preimage bytes at the alignment into the leaf, in both packages. |
| `WordBytes.LimbsAreBytes` | rvgo/fast/vm.go:211-215 | The four limbs of a 256-bit value, put one after the other, are its little-endian bytes; their first bytes are those of a shorter store. |
| `WordBytes.ClampToLeaf` | rvgo/slow/vm.go:485-489 | The count is cut to what is left of the 32-byte leaf. |
| `Simulation.FlattenCarries` | rvgo/slow/vm.go:291-296 | Branches written one after the other into the calldata are found under their proof indices, whatever follows them. |
| `Simulation.GetsLeaf` | rvgo/slow/vm.go:302-328 | The true branch is accepted and gives the leaf of the memory. |
| `Simulation.LoadFollows` | rvgo/slow/vm.go:356-409 | Load refinement: for every address modulo 2^64, size and signedness the slow load gives the extended little-endian value of the memory. |
| `Simulation.StoreFollows` | rvgo/slow/vm.go:441-471 | Store refinement: with the branch of the memory and, across a leaf boundary, that of the half-written memory, two root updates give the root of the memory with exactly those bytes changed. |
| `Simulation.StepFollows` | rvgo/slow/vm.go:765-1197 | Simulation of one step on values: whenever the reference step succeeds, the slow step accepts its branches and ends in the same registers and the root of the same memory. |
| `Simulation.ProofsAreBranches` | rvgo/fast/vm.go:571-577 | A step needs at most three branches, and at least one unless the VM has exited. |
| `SlowVm.FoldBranch` | rvgo/slow/vm.go:306-321 | The loop over 59 siblings in calldata computes the fold, and fails exactly if a word lies beyond the end. |
| `SlowVm.TakeBytes` | rvgo/slow/vm.go:385-402 | The byte loop of loadMem collects the little-endian value from the two right-aligned words. |
| `SlowVm.LeftAndRight` | rvgo/slow/vm.go:412-439 | The 64-round loop yields mask and patch of the left and of the right leaf. |
| `SlowVm.Vm.GetMemoryB32` | rvgo/slow/vm.go:302-328 | Gives the leaf if and only if the branch folds to the root in the buffer. |
| `SlowVm.Vm.SetMemoryB32` | rvgo/slow/vm.go:332-353 | Stores the root folded from the new leaf; no other field of the buffer changes. |
| `SlowVm.Vm.LoadMem` | rvgo/slow/vm.go:356-409 | Equals the specified load on the buffer's root, failure included. |
| `SlowVm.Vm.StoreMemUnaligned` | rvgo/slow/vm.go:441-478 | Equals the specified store, failure included; only the root field changes. |
| `SlowVm.Vm.WritePreimageKey` | rvgo/slow/vm.go:483-511 | Key and offset field change as specified, and nothing else. |
| `SlowVm.Vm.ReadPreimageValue` | rvgo/slow/vm.go:524-559 | Offset and root change as specified; an empty part is the end of the preimage. |
| `SlowVm.Vm.SetField` | rvgo/slow/vm.go:168-256 | Writing a field's bytes turns the encoding of one state into the encoding of the state with that field. |
| `SlowVm.Vm.Step` | rvgo/slow/vm.go:765-1197 | The imperative step over the 362-byte buffer ends in the encoding of what the step function gives, and fails exactly where it fails. |
| `SlowVm.Step` | rvgo/slow/vm.go:84-282 | From any 362 state bytes and any proof bytes to the hash of the state afterwards; a nonzero exited byte leaves the bytes alone. |
| `Binding.BranchesAgree` | rvgo/slow/vm.go:302-353 | Two proofs accepted for one leaf under one root agree on the leaf and on every update. |
| `Binding.StepsAgree` | rvgo/slow/vm.go:302-353 | Binding: for any state, root and oracle, two proofs that both make the slow step succeed give the same registers and root, provided the hash does not collide on what was hashed. |
| `Binding.Sound` | rvgo/slow/vm.go:765-1197 | Soundness: on the root of a memory, whatever proof the slow step accepts, it ends where the reference step on that memory ends; in particular the reference step succeeds. |
| `Witness.WitnessLength` | rvgo/fast/state.go:74-104 | A witness has 362 bytes. |
| `Witness.ReadsField` | rvgo/slow/vm.go:28-54 | The slow VM's offset table recovers every one of the 41 fields of a witness. |
| `Witness.WritesField` | rvgo/slow/vm.go:165-256 | Putting a field at its offset gives the witness of the changed state; no other field moves. |
| `Witness.DecodeEncode` | rvgo/slow/vm.go:174-244 | Decoding a witness gives root and registers back. |
| `Witness.EncodeDecode` | rvgo/slow/vm.go:165-256 | 362 bytes are a witness if and only if the exited byte is 0 or 1. |
| `Witness.StateHashesAgree` | rvgo/slow/vm.go:261-282 | The two VMs' state hashes agree if and only if the exited byte is 0 or 1, the values a VM encodes. |
| `Witness.EncodedHash` | rvgo/fast/state.go:114-139 | For a state that a VM encodes both hashes agree; the first byte is 3 exactly while it runs, 0 for exit code 0, 1 for exit code 1 and 2 for any other, and the other 31 bytes are those of the hash of the state. |
| `Witness.ReadStateIs` | rvsol/src/RISCV.sol:379-382 | The shifted word load reads exactly the bytes of the field. |
| `Witness.WriteStateIs` | rvsol/src/RISCV.sol:383-393 | The masked word store changes exactly the bytes of the field, for any data word. |
| `Witness.MaskedAccess` | rvsol/src/RISCV.sol:379-474 | For every field of a state in EVM memory: reading gives the field, writing gives the state with that field, and no byte behind the state changes although the word runs past its end. |
| `FastVm.VMState.EncodeWitness` | rvgo/fast/state.go:74-94 | Appending field after field gives the encoding of the memory's true root and the registers. |
| `FastVm.GoExtendIs` | rvgo/fast/vm.go:197-202 | Or-ing ones above the top bit is sign extension of the loaded value. |
| `FastVm.InstrumentedState.TrackMemAccess` | rvgo/fast/instrumented.go:97-107 | Fails exactly on a misaligned address or a wrong proof index; otherwise records the true branch, and the page can be written next. |
| `FastVm.InstrumentedState.VerifyLeaf` | rvgo/fast/vm.go:217-221 | Before a store writes to a leaf, neither trackMemAccess nor verifyMemChange panics, and the branch under the index is one of that leaf and of the present memory, new or reused. |
| `FastVm.InstrumentedState.LoadMem` | rvgo/fast/vm.go:185-205 | Load refinement: the extended little-endian value of the memory, with the branches of the reference; fails only if a second leaf is needed and not allowed. |
| `FastVm.InstrumentedState.StoreMem` | rvgo/fast/vm.go:207-267 | Store refinement: exactly the little-endian bytes of the value change, the branches are those of the reference, and in proof mode coherence is kept: the guard holds for both halves and for stores that reuse a branch. |
| `FastVm.InstrumentedState.GetMemoryB32` | rvgo/fast/vm.go:167-174 | The 32 bytes of the leaf, with its branch recorded. |
| `FastVm.InstrumentedState.SetMemoryB32` | rvgo/fast/vm.go:176-182 | Writes one leaf; verifyMemChange does not panic, and coherence is kept because the memory was refreshed under the same index. |
| `FastVm.InstrumentedState.ReadPreimage` | rvgo/fast/instrumented.go:74-91 | The cached preimage always gives what a fresh fetch gives; an offset at or behind the end fails. |
| `FastVm.InstrumentedState.WritePreimageKey` | rvgo/fast/vm.go:272-299 | The key takes up to the rest of a leaf; the offset becomes 0. |
| `FastVm.InstrumentedState.ReadPreimageValue` | rvgo/fast/vm.go:301-336 | Stores the next bytes of the prefixed preimage, at most to the end of leaf and data, and advances the offset by as much. |
| `FastVm.InstrumentedState.WriteOut` | rvgo/fast/vm.go:428-457 | Output and hints get the bytes of the range; fails exactly if the range is not readable or hint processing panics. |
| `FastVm.InstrumentedState.RiscvStep` | rvgo/fast/vm.go:571-1003 | One instruction equals the reference step in registers, memory and, in proof mode, recorded branches. It fails exactly where the reference fails or output does not fit: every call of trackMemAccess and verifyMemChange on the way is proved to succeed. |
| `FastVm.InstrumentedState.Step` | rvgo/fast/instrumented.go:45-72 | In proof mode, from coherent caches: the witness holds the encoding of the state before the step, the branches of the reference in order, and the preimage read; the caches stay coherent. With or without proofs, what the step writes and hashes goes on the account of the caches as `Accounts.StepNote` says: they stay coherent as long as all writes were allowed. |
| `FastVm.PrefixedIs` | rvgo/fast/instrumented.go:74-84 | A preimage is kept with its length as eight big-endian bytes in front. |
| `OneStep.PartsAgree` | rvgo/test/vm_go_test.go:36-58 | The repository's slow-side oracle and the fast VM's readPreimage answer differently at exactly one offset, the end of the preimage: there one gives an empty part and the other panics. |
| `OneStep.PartsExtend` | rvgo/test/vm_go_test.go:36-58 | That oracle answers every read that the fast VM can make as the fast VM does, which is what the simulation asks of an oracle. |
| `OneStep.StepsDiffer` | rvgo/fast/instrumented.go:85-89 | The two oracles make a difference to a step if and only if its instruction reads at exactly the end of a preimage; then the fast side fails, and the slow side returns 0 in A0 and changes no memory. |
| `OneStep.BranchesAccepted` | rvgo/slow/vm.go:84-282 | Simulation: whenever the reference step succeeds, the slow VM accepts its branches, whatever follows them in the calldata, and turns the witness of the state before into that of the state after. |
| `OneStep.WitnessAccepted` | rvgo/slow/vm.go:84-282 | The same for what the fast VM's oracle can answer: the witness of a step that the fast VM makes is accepted. |
| `OneStep.RunAccepted` | rvgo/fast/instrumented.go:45-72 | Simulation of reference runs of any length, by induction: the slow VM follows from state bytes to state bytes and ends in the witness of the last state. |
| `FastRuns.SteppedIsNext` | rvgo/fast/instrumented.go:45-72 | A step of the fast VM, proved or not, computes one function of registers, memory, hint buffer and output; it fails exactly where the function is undefined. |
| `FastRuns.FailsExactly` | rvgo/fast/instrumented.go:85-89 | Where the slow VM accepts the reference branches, the fast VM fails if and only if the instruction reads at exactly the end of a preimage, or its output does not fit. |
| `FastRuns.VmRunIsRun` | rvgo/fast/instrumented.go:45-72 | In registers and memory, every run of the fast VM is a run of the reference. |
| `FastRuns.HintsAlongRun` | rvgo/fast/vm.go:443-457 | Along every run, the hints delivered are the complete messages of the stream of all hint writes, in order, and LastHint is the incomplete rest, however the program cuts the stream. |
| `FastRuns.CompareStep` | rvgo/test/vm_go_test.go:102-117 | One recorded step over the two imperative VMs: it succeeds exactly where the step function is defined, and then the slow VM takes the recorded proof from the state bytes before to those after, with the same hash. |
| `FastRuns.CompareRun` | rvgo/test/vm_go_test.go:78-133 | The repository's comparison loop: it returns the proofs of as many steps as it made; over these the fast VM has run as the step function says, and the slow VM has followed on the proofs, from the first state bytes to the last. It stops early only where the program has exited or where the next step fails. |
| `FastRuns.RunThenProve` | rvgo/cmd/run.go:168-231 | A run without proofs up to a step that is proved, from a memory that was never hashed: no condition on the run is needed; the witness exists if and only if the run gets there and has not exited, starts from the right state bytes, and is accepted if the step can be made. |
| `ProofRuns.Run` | rvgo/cmd/run.go:168-257 | The loop of the run command, with proofs at any steps: if all steps are allowed by the account, there is one proof for each step asked for, in order; each carries the hashes of the true states before and after its step, and the slow VM accepts it; the loop stops only at its limit, at the exit of the program or at a step that cannot be made; the state hash at the end is right. |
| `ProofRuns.RunGuardedIff` | rvgo/cmd/run.go:186-231 | The account of a run stands if and only if every step without proof is allowed after the steps before it: proofs do no harm. |
| `ProofRuns.UnprovedRunIsGuarded` | rvgo/cmd/run.go:227-231 | Up to the first proof, from a memory that was never hashed, every step is allowed. |
| `Accounts.ProvedStepKeeps` | rvgo/fast/instrumented.go:97-107 | In a step with proofs every write is allowed, whatever is known of the pages before it. |
| `Accounts.StoreOnHashed` | rvgo/fast/vm.go:207-267 | To a page that was hashed and not written since, a store of up to 32 bytes without proof is allowed if and only if it stays within one chunk of 64 bytes, or runs into a next page that takes the rest. |
| `SlowRuns.StatesAgree` | rvgo/slow/vm.go:302-353 | Binding on bytes: two proofs that the slow VM accepts for the same 362 bytes give the same bytes, and so the same hash. |
| `SlowRuns.RunsAgree` | rvgo/slow/vm.go:84-282 | Binding of runs: any two lists of proofs that are accepted step after step from one state end in one state. |
| `SlowRuns.StateIsTrue` | rvgo/slow/vm.go:765-1197 | Soundness on bytes: whatever proof is accepted for the witness of a memory, the reference step succeeds and the bytes afterwards are its witness. |
| `SlowRuns.RunIsTrue` | rvgo/slow/vm.go:84-282 | Soundness of runs: from the witness of a memory, whatever proofs are accepted, the reference run of that length succeeds, and the slow VM ends in the witness of its end. |
| `Runs.DecodeKeeps` | rvgo/fast/vm.go:588-1003 | Every instruction keeps 4-byte alignment and register 0, and leaves reservation, preimage key and offset to the instructions named for them. |
| `Runs.StepKeeps` | rvgo/fast/vm.go:571-577 | An exited state is a fixpoint without branches; otherwise the step is counted; an aligned fetch never needs a second leaf. |
| `Runs.RunKeeps` | rvgo/fast/vm.go:571-577 | In every run: aligned pc, register 0 zero, and a step counter that has counted exactly the instructions executed, modulo 2^64. |
| `Runs.RunExited` | rvgo/fast/vm.go:571-573 | An exited VM stays the same for any number of steps. |
| `Runs.StoreConditionalMeets` | rvgo/fast/vm.go:932-946 | In every run starting with reservation 0: that an SC stores if and only if the latest LR or SC was an LR to its address is true of it if and only if its address is not 0 or the latest LR or SC was an LR, to whatever address. |
| `Runs.StoresIfReserved` | rvgo/fast/vm.go:932-946 | In every run starting with reservation 0, an SC to a nonzero address stores if and only if the latest LR or SC was an LR to that address. |
| `Runs.ZeroNeedsNoReservation` | rvgo/fast/vm.go:938-946 | In every such run an SC to address 0 stores when no reservation is held: before the first LR and after every SC. |
| `Runs.KeyShifts` | rvgo/fast/vm.go:272-299 | After any run the key is the last 32 bytes of the first key followed by all bytes accepted by key writes of any alignment and count. |
| `Runs.StreamStep` | rvgo/fast/vm.go:301-336 | One preimage read changes no byte outside its buffer, returns the count stored in A0, and advances the offset by it. |
| `Runs.StreamIsConsecutive` | rvgo/fast/vm.go:301-336 | In every run without key writes, whatever else it executes, the bytes its preimage reads deliver are one consecutive piece of the length-prefixed preimage, from first to last offset. |
| `Hints.RunHints` | rvgo/fast/vm.go:446-456 | The loop computes the hints delivered and the buffer left, or panics, as specified. |
| `Hints.TakesMessage` | rvgo/fast/vm.go:447-455 | One pass takes the message at the front exactly if the buffer is incomplete, or the length passes the comparison with the truncated buffer length and is below 2^32-4. |
| `Hints.ProcessesMessages` | rvgo/fast/vm.go:446-456 | The whole loop delivers the complete messages of the buffer and leaves the rest if and only if every message it comes to meets that condition. |
| `Hints.LargeBufferStalls` | rvgo/fast/vm.go:448-448 | A buffer of 2^32+4 bytes hides a complete message: its truncated length is 0. |
| `Hints.ChunkingIsInvisible` | rvgo/fast/vm.go:443-457 | However the stream is cut into hint writes, as long as no buffer holds a message that the loop gets wrong: the hints delivered are the complete messages of the whole stream in order, and LastHint is the incomplete tail. |
| `Hints.SmallBuffersFit` | rvgo/fast/vm.go:443-457 | That is so for every stream whose buffers stay below 2^32 bytes. |

## Left out

- MemoryRange.Deserialize: page indices of 2^52 or more, which no address reaches, are an error here; the source stores such a page.
- MemoryRange.SetMemoryRange: where the range reaches hashed pages and pages that do not exist, only a sufficient condition is given; allocating a page clears trie hashes above its neighbours, and so can repair what clearing a neighbour's flags has spoiled. A reader that fails is not modelled.
- ProofRuns.Run: that a step is not allowed by the account does not mean that it spoils the caches, since a write may change nothing; `CachedMemory.Memory.SetUnaligned` is exact for one write. Snapshots and log output are left out, and what else ends the loop is its limit.
- SlowVm.Vm.Step: the registers written by the switch are stored into the buffer when the switch is through, where the source stores each at once; the buffer afterwards is the same.
- SlowVm.Step: selector, pointers and declared sizes in the calldata header are not parsed, and the calldata starts at the proofs; a state of another size is refused.
- Keccak-256 itself; the hash is an arbitrary function from byte strings to 32 bytes.
- Error codes and messages: a revert or a panic is one failure result, and nothing is said about the state after it.
- The bounds checks of getRegister and setRegister, which parsed register numbers cannot fail.
- ELF loading and patching, symbols, JSON, gzip, command line, deployment and dispute games.
- VMState.Serialize and Deserialize beyond the memory part: the binary writer library is not part of this model.
- The step function of RISCV.sol: only its state access is modelled; its free-memory pointer and its log are not.
- Process I/O of the oracle and of stdout and stderr: preimages are a function, output is a ghost sequence.
- Fixed-size Go arrays inside structs (trie children and hashes, registers) are sequences reassigned as fields, and the two trie bitmaps are sets of indices.
- The three generic trie node types are one class with its number of bits as a field; the six levels of AllocPage and Invalidate are a loop over levels.
