# A verified model of wasm-posix-kernel's runtime cores

The project models five parts of the system and proves what they promise, or exactly when they
keep the promise. `dafny verify dfyconfig.toml` checks all of it.

**Quad-precision arithmetic** (`glue/compiler_rt.c`). `Bits` and `Wide` hold 64-, 128- and 256-bit
words and their shifts, sums and products; `Rounding` defines round-to-nearest-even on exact
fractions and relates it to a sticky bit; `QuadFormat` is the binary128 format (section 3.4 of
IEEE 754-2008) with exact magnitudes as whole multiples of 2^-16494. `QuadAdd`, `QuadMul` (with
`QuadMulSmall`), `QuadDiv`, `QuadConvert`, `QuadInt` and `QuadCompare` follow the C functions step
by step. Addition, multiplication and division are not correctly rounded on every input; each
method states exactly on which inputs it is, as an if-and-only-if over all non-zero finite operands,
what it returns elsewhere, and `QuadWitness` names inputs that fail.

**The shared pipe** (`host/src/shared-pipe-buffer.ts`). `SharedPipe` is the ring as an object, one
call at a time; `PipeProtocol` interleaves one writer and one reader at every load, store and byte
copy, over any number of calls.

**The advisory lock table** (`host/src/shared-lock-table.ts`). `Locks` is what the entries mean,
`LockTable` the class over its `Int32Array`, `LockProtocol` any number of threads on the spinlock,
the critical section, the wake counter and the sleep of a blocked `setLockWait`.

**The syscall channel** (`glue/channel_syscall.c`). `Channel` is a stack of client frames
(`__do_syscall`, `__deliver_pending_signal`, signal handlers that make syscalls themselves) against
a kernel that reads a request, writes an answer and perhaps a signal record, and stores the status.

**Module readers and the dynamic linker** (`host/src/constants.ts`, `host/src/dylink.ts`). `Leb128`
holds the number readers with JavaScript's 32-bit and BigInt arithmetic; `WasmModule` and
`DylinkSection` are module and section values with their byte encodings (sections 5.2.2 and 5.5 of
the WebAssembly Core Specification, and the "dylink.0" section of the tool-conventions
DynamicLinking document), every number in any admissible number of bytes; `HeapBase` and
`DylinkSection` hold the walks over the bytes. `Linking` is what a load does to function table,
GOT, symbols and libraries, `LoadResult` what one load leaves behind, `GotHistory` the requests and
definitions a run of calls makes, `Linker` the object with its loops, `ForkReplay` the fork replay.

Results that differ from what a reader might expect of the code:

- A sum in the subnormal range gets exponent field 1 instead of 0 (`QuadAdd.AddTf3`).
- Products and quotients below the normal range are rounded first and truncated after; products of
  tiny significands lose their leading bit (`QuadMul.MulTf3`).
- A quotient whose last partial remainder is exactly 2^127 loses its sticky bit, so 5/3 comes out
  one unit too small (`QuadDiv.DivTf3`, `QuadWitness.FiveThirdsWrong`).
- F_UNLCK removes whole overlapping entries, so bytes outside the requested range can be unlocked
  too (`Locks.UnlockKeepsOutside`).
- A lock that is replaced or downgraded frees bytes without bumping the wake counter, so a waiter
  can sleep on unblocked (`LockProtocol.SleepsUnblocked`, `LockProtocol.ReplacementUnblocks`).
- `setLockWait` with F_UNLCK can wait (`LockProtocol.UnlockMayWait`).
- After a handler on an alternate stack, a stack pointer of zero is not put back; any other always
  is (`Channel.SyscallRestores`, `Channel.DeliveryRestores`).
- An initialiser holding the byte 0x0B, such as `i32.const 11`, misleads `skipGlobalEntry`, so a
  module's heap base can come out null (`HeapBase.SkipExact`, `HeapBase.ElevenMisleads`).
- A GOT entry first asked for as data while its symbol is a function, or as a function while it is
  data, stays 0 (`GotHistory.GotCoherence`, `Linking.DataEntryOfFunction`, `Linking.FunctionEntryOfData`).
- `dlsym` of a function that only the global symbol table knows returns the function object, not a
  table index (`Linker.DynamicLinker.Dlsym`).

## Model

| member | source | states |
|---|---|---|
| Wide.Or128 | glue/compiler_rt.c:210-213 | the word-wise OR is the OR of the 128-bit numbers, bit by bit |
| Wide.And128 | glue/compiler_rt.c:215-218 | the word-wise AND is the AND of the 128-bit numbers |
| Wide.Not128 | glue/compiler_rt.c:220-223 | complement as 2^128 - 1 - x |
| Wide.Gt | glue/compiler_rt.c:229-231 | compares the 128-bit numbers |
| Wide.Ge | glue/compiler_rt.c:233-235 | compares the 128-bit numbers |
| Wide.Add128 | glue/compiler_rt.c:237-242 | the sum modulo 2^128, through the carry between the words |
| Wide.Sub128 | glue/compiler_rt.c:244-249 | the difference modulo 2^128, through the borrow |
| Wide.Shl128 | glue/compiler_rt.c:251-263 | multiplication by 2^n modulo 2^128 for every count, 128 and more included |
| Wide.Shr128 | glue/compiler_rt.c:265-278 | division by 2^n for every count |
| Wide.Clz64 | glue/compiler_rt.c:280-310 | the shift cascade on one word brings its leading bit exactly to the top |
| Wide.Clz128 | glue/compiler_rt.c:280-310 | 128 for zero, otherwise the shift that brings the leading bit to position 127 |
| Wide.Mul64 | glue/compiler_rt.c:524-541 | the four half products give the exact 128-bit product of any two words |
| Wide.MulFull | glue/compiler_rt.c:543-575 | the exact 256-bit product for every input, carries included |
| Rounding.RoundNearest | glue/compiler_rt.c:474-486 | the rounding the code is held to: no representable magnitude is nearer to n/d, and on a tie the result is even |
| Rounding.JamRound | glue/compiler_rt.c:403-422 | folding the lost bits into the last one and then rounding is rounding the exact value |
| QuadFormat.Fields | glue/compiler_rt.c:347-354 | the shifts and masks recover sign, exponent and fraction |
| QuadFormat.QuadIsMake | glue/compiler_rt.c:314-329 | a pattern is its sign, exponent and fraction, and packing inverts unpacking |
| QuadFormat.Pack | glue/compiler_rt.c:314-329 | the packed words have the given sign and exponent and the low 112 bits of the significand |
| QuadFormat.NearestExact | glue/compiler_rt.c:314-329 | rounding the exact value of a finite number gives the number back |
| QuadFormat.NearestMeans | glue/compiler_rt.c:474-506 | what "correctly rounded" means for a quad: the given sign, no finite quad nearer to n/d, the even one on a tie, infinity exactly at and beyond the overflow threshold |
| QuadFormat.OneIs | glue/compiler_rt.c:941-992 | the number with the magnitude of 1 is the pattern 0x3FFF_0000_0000_0000, 0 |
| QuadFormat.Unpack | glue/compiler_rt.c:371-381 | significand and exponent with the implicit bit, subnormals at exponent 1 |
| QuadFormat.RoundGuardBits | glue/compiler_rt.c:474-486 | three guard bits are rounded to nearest even, with the carry to the next binade reported |
| QuadFormat.PackSig | glue/compiler_rt.c:488-506 | overflow to infinity, shift to subnormal, implicit bit removed |
| QuadFormat.RoundPack | glue/compiler_rt.c:711-743 | rounding and packing together, for every exponent; the sign is kept and no NaN arises |
| QuadFormat.TruncatedIsNearest | glue/compiler_rt.c:729-735 | rounding to 113 bits and truncating after is correct exactly when the truncation is harmless |
| QuadAdd.ShiftRightJam | glue/compiler_rt.c:405-410 | shift right keeping everything lost in the last bit |
| QuadAdd.AlignBoth | glue/compiler_rt.c:394-426 | both significands at the larger exponent, exact but for the jammed last bit |
| QuadAdd.Combine | glue/compiler_rt.c:428-448 | signed sum of magnitudes, with exact cancellation |
| QuadAdd.AlignedCombine | glue/compiler_rt.c:399-446 | the aligned and combined significand stands for the exact sum |
| QuadAdd.Normalise | glue/compiler_rt.c:450-472 | through carry and cancellation the significand still stands for the exact magnitude |
| QuadAdd.AddTf3 | glue/compiler_rt.c:342-507 | correctly rounded exactly when the exact sum is not a non-zero subnormal, the wrong result otherwise, infinities and NaNs |
| QuadAdd.SubTf3 | glue/compiler_rt.c:511-519 | the same for the difference: the exact condition, the wrong subnormal value, zeros, infinities and NaNs |
| QuadMul.ExtractWindow | glue/compiler_rt.c:651-678 | the words of the product shifted right, for every bottom bit |
| QuadMul.StickyBelow | glue/compiler_rt.c:680-704 | set exactly when the product has a bit below the window |
| QuadMul.ProductWindow | glue/compiler_rt.c:634-705 | the top 116 bits of the product with the rest jammed into the last |
| QuadMul.NormalOperands | glue/compiler_rt.c:634-638 | normal operands always have their leading bit where the code looks for it |
| QuadMul.MulTf3 | glue/compiler_rt.c:577-744 | correctly rounded exactly on a stated condition over all non-zero finite operands, the truncated result below the normal range, zeros, infinities and NaNs; negative exactly when one operand is, and the sign bit is the sum of theirs modulo 2 |
| QuadDiv.LongDivision | glue/compiler_rt.c:810-824 | N * 2^116 = 2 * Q * D + (carry:R) with (carry:R) < 2D after the 116 steps |
| QuadDiv.QuotientAndRemainder | glue/compiler_rt.c:810-824 | the quotient is the floor of N * 2^115 / D |
| QuadDiv.DivTf3 | glue/compiler_rt.c:748-865 | correctly rounded exactly on a stated condition over all non-zero finite operands; one unit below on a lost tie; truncated below the normal range; zeros, infinities and NaNs; negative exactly when one operand is, and the sign bit is the sum of theirs modulo 2 |
| QuadWitness.SumBelowNormal | glue/compiler_rt.c:464-472 | two normal numbers whose sum is in the failing range |
| QuadWitness.ProductTruncatedWrong | glue/compiler_rt.c:729-735 | a product that rounds to 2 units and is truncated to 1 |
| QuadWitness.SubnormalProductWrong | glue/compiler_rt.c:634-638 | a product whose leading bit is in the low half |
| QuadWitness.FiveThirdsWrong | glue/compiler_rt.c:826-827 | 5/3 loses its sticky bit |
| QuadConvert.NarrowBounds | glue/compiler_rt.c:53-123 | a finite quad below 2^1024 lies in the step of doubles that starts at its conversion |
| QuadConvert.NarrowIsLargest | glue/compiler_rt.c:53-123 | the conversion is the largest-magnitude double not exceeding the quad |
| QuadConvert.NarrowSpecial | glue/compiler_rt.c:53-123 | infinity beyond the range, NaN for NaN |
| QuadConvert.NormaliseFraction | glue/compiler_rt.c:158-170 | the loop ends with the leading bit at position 52 and the value unchanged |
| QuadConvert.Widen | glue/compiler_rt.c:127-186 | exact for every finite double, subnormals included, and undone by the narrowing; 1.0 becomes 1.0 |
| QuadInt.FixU64Truncates | glue/compiler_rt.c:1027-1058 | the integer part of every finite value, saturating at 2^64 - 1, 0 for negative values |
| QuadInt.FixI64Truncates | glue/compiler_rt.c:886-917 | truncation toward zero of every finite value, saturating at the ends of int64 |
| QuadInt.FloatU64 | glue/compiler_rt.c:941-992 | exact for every uint64 and undone by the unsigned conversion; 1 becomes the pattern of 1.0 |
| QuadInt.FloatI64 | glue/compiler_rt.c:995-1024 | exact for every int64, the minimum included, and undone by the signed conversion |
| QuadCompare.CompareIsOrder | glue/compiler_rt.c:1064-1105 | the sign of the difference of the extended-real values |
| QuadCompare.CompareEqual | glue/compiler_rt.c:1064-1105 | 0 exactly for equal patterns and zeros of either sign |
| QuadCompare.CompareTotalPreorder | glue/compiler_rt.c:1064-1105 | antisymmetric and transitive |
| SharedPipe.SharedPipeBuffer.constructor | host/src/shared-pipe-buffer.ts:22-30 | a new pipe is empty, for every capacity |
| SharedPipe.SharedPipeBuffer.Write | host/src/shared-pipe-buffer.ts:57-71 | appends the first n bytes, where n is at most the length and the free room and equals one of them |
| SharedPipe.SharedPipeBuffer.Read | host/src/shared-pipe-buffer.ts:73-86 | takes the oldest n bytes, in order, where n is at most the room and the length held and equals one of them; leaves the rest of the destination alone |
| SharedPipe.StoredAppends | host/src/shared-pipe-buffer.ts:64-67 | storing round the ring after the last byte appends, wrap included |
| PipeProtocol.RunInv | host/src/shared-pipe-buffer.ts:57-86 | an invariant of every interleaving of single loads, stores and byte copies |
| PipeProtocol.PrefixAlways | host/src/shared-pipe-buffer.ts:57-86 | bytes read are a prefix of bytes written, LEN stays within the capacity, indices inside the ring |
| PipeProtocol.UnreadKept | host/src/shared-pipe-buffer.ts:64-67 | no step overwrites a byte that is written and not yet read |
| PipeProtocol.RefinesQueue | host/src/shared-pipe-buffer.ts:57-86 | every call takes effect at one step on a bounded first-in first-out queue |
| PipeProtocol.ReturnsZero | host/src/shared-pipe-buffer.ts:58-61 | an early 0 means nothing to move, a full pipe or an empty pipe, exactly |
| PipeProtocol.WriteSettles | host/src/shared-pipe-buffer.ts:57-71 | a write moves all it was given or what fills the queue of the moment it looks, and keeps to that number to its end |
| PipeProtocol.ReadSettles | host/src/shared-pipe-buffer.ts:73-86 | a read moves all it has room for or what empties the queue of the moment it looks, and keeps to that number to its end |
| PipeProtocol.QuietRing | host/src/shared-pipe-buffer.ts:57-86 | between calls the ring holds exactly the unread bytes from head on |
| Locks.OverlapSharesByte | host/src/shared-lock-table.ts:163-172 | ranges that share a byte overlap, and non-empty ranges overlap exactly then |
| Locks.CoversExactly | host/src/shared-lock-table.ts:163-172 | a lock covers its bytes; with length zero, every offset from its start below 2^63 - 1 |
| Locks.FirstBlocker | host/src/shared-lock-table.ts:214-230 | none exactly when no entry of another process on the same hash meets the range without both being read locks; otherwise an entry that does |
| Locks.ReportsFirst | host/src/shared-lock-table.ts:214-230 | no entry before the reported one stands in the way |
| Locks.BlockedExactly | host/src/shared-lock-table.ts:176-230 | for read and write locks on at least one byte: a blocker is found exactly when another process has a lock on a byte of the request and one of the two is a write lock |
| Locks.SweepIsFilter | host/src/shared-lock-table.ts:136-147 | swap-removal in a scan leaves exactly the entries the filter keeps |
| Locks.SweepMeans | host/src/shared-lock-table.ts:260-273 | an entry is left exactly when it was there and is not hit |
| Locks.RefusedUnchanged | host/src/shared-lock-table.ts:280-305 | a refused request leaves the table as it was, a full table included |
| Locks.GetlkAgrees | host/src/shared-lock-table.ts:199-309 | F_SETLK succeeds exactly when F_GETLK finds no blocker and a slot is free or freed |
| Locks.RequestExactly | host/src/shared-lock-table.ts:251-309 | for every request: granted exactly when it unlocks, or nothing stands in the way and a slot is free or freed by an own lock; what the table holds afterwards, entry by entry; unchanged when refused |
| Locks.GrantedExactly | host/src/shared-lock-table.ts:251-309 | the same for read and write locks, by the bytes they share |
| Locks.ExitExactly | host/src/shared-lock-table.ts:345-363 | process exit removes the locks of that process and no others |
| Locks.SetLockKeepsGood | host/src/shared-lock-table.ts:251-309 | every request keeps the entries compatible and within the capacity |
| Locks.ReachableGood | host/src/shared-lock-table.ts:251-363 | so does every run of requests and process exits |
| Locks.NoConflictEver | host/src/shared-lock-table.ts:176-191 | two entries of one path hash that share a byte are read locks of two processes, in every reachable table |
| Locks.Granted | host/src/shared-lock-table.ts:300-308 | a granted lock covers every byte of its range |
| Locks.UnlockReleases | host/src/shared-lock-table.ts:259-277 | F_UNLCK frees the whole range and touches no other lock |
| Locks.UnlockKeepsOutside | host/src/shared-lock-table.ts:259-273 | bytes outside the range stay locked exactly when no overlapping entry reaches beyond it |
| Locks.UnlockLosesByte50 | host/src/shared-lock-table.ts:259-273 | unlocking 0..9 of a lock on 0..99 drops all of it |
| LockTable.PartsRoundTrip | host/src/shared-lock-table.ts:151-159 | splitting, storing in 32-bit words and joining gives every 64-bit offset back |
| LockTable.SharedLockTable.constructor | host/src/shared-lock-table.ts:67-76 | an empty table of the capacity |
| LockTable.SharedLockTable.ReadEntry | host/src/shared-lock-table.ts:105-120 | the entry the words stand for |
| LockTable.SharedLockTable.WriteEntry | host/src/shared-lock-table.ts:122-134 | the words stand for the entry, and no other word changes |
| LockTable.SharedLockTable.CopyEntry | host/src/shared-lock-table.ts:140-144 | the eight words of one entry over another, and no other word changes |
| LockTable.SharedLockTable.RemoveEntry | host/src/shared-lock-table.ts:136-147 | the copy and the count are the swap-removal of the entry |
| LockTable.SharedLockTable.GetBlockingLock | host/src/shared-lock-table.ts:214-230 | the first blocking entry; one is found exactly when some entry stands in the way |
| LockTable.SharedLockTable.RemoveHits | host/src/shared-lock-table.ts:260-273 | the scan with swap-removal, as used three times |
| LockTable.SharedLockTable.SetLockUnsafe | host/src/shared-lock-table.ts:251-309 | refines the request on entries; granted exactly when it unlocks, or nothing stands in the way and a slot is free or freed; the entries afterwards, one by one; only F_UNLCK bumps the wake counter; false leaves the contents unchanged |
| LockTable.SharedLockTable.RemoveLocksByPid | host/src/shared-lock-table.ts:345-363 | refines the process exit: the locks of that process go, no others; bumps the wake counter |
| LockProtocol.RunInv | host/src/shared-lock-table.ts:88-97 | an invariant of every interleaving of any number of threads |
| LockProtocol.MutualExclusion | host/src/shared-lock-table.ts:88-97 | at most one thread is between acquire and release |
| LockProtocol.TableAlwaysGood | host/src/shared-lock-table.ts:236-363 | no reachable state holds conflicting locks or overlapping locks of one process |
| LockProtocol.NoMissedUnlock | host/src/shared-lock-table.ts:315-340 | any sleeper, in any state: on the current counter value no F_UNLCK and no exit has removed locks since its blocked check, but for one about to bump the counter; on an older value the one removal since is about to notify |
| LockProtocol.QuietSleeper | host/src/shared-lock-table.ts:315-340 | with no removal under way nothing was removed since the check, and the sleeper is still blocked unless a lock was replaced |
| LockProtocol.HeldOnReturn | host/src/shared-lock-table.ts:331-335 | setLock and setLockWait return with their read or write lock held, or the table is full, or setLock found another lock in the way |
| LockProtocol.StaysInCall | host/src/shared-lock-table.ts:315-340 | a thread leaves its call only by releasing the spinlock with an answer; a wait is never given up |
| LockProtocol.TableChanges | host/src/shared-lock-table.ts:236-363 | each step leaves the table alone but for the critical section of a granted request or an exit; what those leave, entry by entry |
| LockProtocol.OthersLeaveAlone | host/src/shared-lock-table.ts:285-298 | a lock stays until its own process acts |
| LockProtocol.ReplacementUnblocks | host/src/shared-lock-table.ts:285-308 | exactly when a granted request unblocks a waiting one: it does not stand in the way itself, and everything that did is replaced by it |
| LockProtocol.SleepsUnblocked | host/src/shared-lock-table.ts:285-308 | a run in which a downgrade leaves a reader asleep though nothing blocks it |
| LockProtocol.UnlockMayWait | host/src/shared-lock-table.ts:322-339 | setLockWait with F_UNLCK waits exactly when another process overlaps, setLock never |
| Channel.RunInv | glue/channel_syscall.c:192-372 | an invariant of every interleaving, for any nesting of handlers and syscalls |
| Channel.OwnAnswers | glue/channel_syscall.c:283-372 | every returned value is the result of the kernel's answer to its own request, or the negative errno when that has one, and -38 for a call that was never published; requests are served in order, each once |
| Channel.OwnRequest | glue/channel_syscall.c:307-313 | the served request has the arguments of the returning frame and its number modulo 2^32 |
| Channel.ForkRefused | glue/channel_syscall.c:283-289 | exactly calls 212 and 213 are refused without being published |
| Channel.NeverReadPending | glue/channel_syscall.c:331-353 | results are read only after the kernel has finished, spurious wake-ups included |
| Channel.SignalsHandledOnce | glue/channel_syscall.c:192-256 | the record is empty whenever a request is published; signals are handled once each, in order, by the handler and with the number of their record, and with its siginfo exactly under SA_SIGINFO |
| Channel.HandlerStarts | glue/channel_syscall.c:218-228 | a handler starts at the end of the alternate stack of its record, modulo 2^32, or where the delivery stood when there is none |
| Channel.SyscallRestores | glue/channel_syscall.c:355-372 | a syscall returns with the mask its request left, whatever was handled inside it; with its stack pointer exactly unless a delivery of its own, outside handlers, switched stacks from zero, so always when it was called with another |
| Channel.DeliveryRestores | glue/channel_syscall.c:258-272 | a finished delivery has made request 208 and then request 37 with SIG_SETMASK and the saved mask, both served; it has restored the saved mask, and the stack pointer under the same exact condition; one that itself switched from zero has lost it |
| Channel.LostMeans | glue/channel_syscall.c:218-228 | at any moment and depth, a frame has lost its stack pointer exactly when such a switch was made while it was active |
| Channel.RestoreExact | glue/channel_syscall.c:258-261 | one delivery restores the stack pointer exactly under that condition, before it makes its own requests |
| Channel.StackPointerLost | glue/channel_syscall.c:222-261 | a run in which it is lost |
| Leb128.ReadULEB128 | host/src/constants.ts:26-35 | the loop computes the gathered word, as a signed 32-bit number, and the bytes consumed |
| Leb128.ReadVarUint | host/src/dylink.ts:37-47 | the same as an unsigned number |
| Leb128.ReadSLEB128I32 | host/src/constants.ts:42-56 | the loop and the sign extension on 32-bit words |
| Leb128.ReadSLEB128I64 | host/src/constants.ts:62-75 | the loop and the sign extension on BigInts |
| Leb128.ReadsUnsigned | host/src/dylink.ts:37-47 | readVarUint inverts every encoding of every u32; readULEB128 up to its sign |
| Leb128.FoldConsumes | host/src/constants.ts:26-35 | encodings of any length are consumed whole |
| Leb128.ReadsI32 | host/src/constants.ts:42-56 | inverts every encoding of every i32 |
| Leb128.ReadsI64 | host/src/constants.ts:62-75 | inverts every encoding of every i64 modulo 2^64 |
| HeapBase.SkipImportEntry | host/src/constants.ts:82-113 | skips exactly an encoded import of kinds 0 to 3 and counts it |
| WasmModule.HeapBaseName | host/src/constants.ts:194-198 | an export counts as the heap base exactly when it is a global of that name, with or without one leading byte order mark |
| HeapBase.SkipGlobalEntry | host/src/constants.ts:143-147 | the position after the first 0x0B, or none |
| HeapBase.SkipExact | host/src/constants.ts:143-147 | the global is skipped exactly when its initialiser has no 0x0B byte |
| HeapBase.ElevenMisleads | host/src/constants.ts:143-147 | a well-formed module whose heap base is 1024 and for which the walk returns null |
| HeapBase.ReadGlobalInitAddr | host/src/constants.ts:120-137 | the constant as unsigned, or null for other initialisers |
| HeapBase.CountImports | host/src/constants.ts:175-185 | counts the imported globals of an encoded section |
| HeapBase.ReadExport | host/src/constants.ts:194-198 | one encoded export: its end, its index, and whether it is `__heap_base` |
| HeapBase.FindExport | host/src/constants.ts:189-203 | the index of the first export of that name |
| HeapBase.SkipGlobals | host/src/constants.ts:227-229 | any number of skips; without 0x0B inside the initialisers they land on the next global |
| HeapBase.ReadDefined | host/src/constants.ts:223-230 | what is read for a defined global on any bytes, and its initial value when the earlier initialisers hold no 0x0B |
| HeapBase.ExtractHeapBase | host/src/constants.ts:160-231 | for every encoding of every module value, what the walk returns; it is what the module says its heap base is, null cases included, when the earlier initialisers hold no 0x0B |
| DylinkSection.ReadString | host/src/dylink.ts:50-55 | a length-prefixed string, without one leading byte order mark |
| DylinkSection.ReadMemInfo | host/src/dylink.ts:101-106 | the four sizes |
| DylinkSection.ReadNeeded | host/src/dylink.ts:108-114 | the needed libraries, in order |
| DylinkSection.ReadExportInfo | host/src/dylink.ts:119-120 | one export's name and flags |
| DylinkSection.ReadExportInfos | host/src/dylink.ts:116-126 | exactly the exports flagged as TLS |
| DylinkSection.ReadImportInfo | host/src/dylink.ts:131-133 | one import's field name and flags |
| DylinkSection.ReadImportInfos | host/src/dylink.ts:128-139 | exactly the imports flagged as weak |
| DylinkSection.ReadSub | host/src/dylink.ts:95-147 | one sub-section, unknown ones skipped |
| DylinkSection.ParseDylinkSection | host/src/dylink.ts:61-150 | for every encoding, what all sub-sections say together |
| DylinkSection.UnknownIgnored | host/src/dylink.ts:141-146 | unknown sub-sections change nothing, wherever they stand |
| DylinkSection.PrintedMeans | host/src/dylink.ts:94-149 | known sub-sections say what was printed, with unknown ones anywhere between |
| DylinkSection.ParsePrint | host/src/dylink.ts:61-150 | parsing the bytes of any library that prints a metadata value returns that value |
| DylinkSection.PrintableLibrary | host/src/dylink.ts:61-150 | every metadata value that fits a section has such a library |
| Linking.SlotOf | host/src/dylink.ts:308-312 | the first slot of a function, none exactly when it has none |
| Linking.GotEntryKeeps | host/src/dylink.ts:319-336 | creating a GOT entry keeps the GOT coherent and every slot |
| Linking.PublishKeeps | host/src/dylink.ts:404-426 | so does publishing exports |
| Linking.InstantiateKeeps | host/src/dylink.ts:229-455 | so does instantiating a library, when it fails too |
| Linking.LoadKeeps | host/src/dylink.ts:498-538 | so does a load with all its dependencies |
| GotHistory.RunView | host/src/dylink.ts:319-426 | which entries exist, what symbols stand for and which entries are misbound follow from the requests and definitions made, in order |
| GotHistory.ActsMean | host/src/dylink.ts:323-334 | an entry is misbound exactly when its first request asked for data while the symbol was a function, or for a function while it was data, and the symbol was not defined since |
| GotHistory.GotCoherence | host/src/dylink.ts:276-426 | over every run of loads and lookups: old slots never change; a function's GOT entry names its slot and a data symbol's is its address, exactly unless the entry is so misbound and 0 is not right by chance |
| GotHistory.StaysBound | host/src/dylink.ts:319-426 | where no module imports a function as data its GOT entry always names its slot; where none imports data as a function its entry is always its address |
| Linking.DataEntryOfFunction | host/src/dylink.ts:323-334 | a load that makes such an entry |
| Linking.FunctionEntryOfData | host/src/dylink.ts:323-334 | a load that makes an entry of the other wrong kind |
| LoadResult.ImportsResolved | host/src/dylink.ts:349-384 | imports resolve exactly when every plain one is built in or a known symbol; GOT entries that exist are not touched, and those asked for exist afterwards |
| LoadResult.ExportPublished | host/src/dylink.ts:404-426 | the last export of a name decides its symbol, and its GOT entry if there is one: a new slot with the function, or the address |
| LoadResult.OthersStay | host/src/dylink.ts:404-426 | names that are not exported, or start with two underscores, keep symbol and GOT entry |
| LoadResult.InstantiateLeaves | host/src/dylink.ts:229-455 | after a successful load: memory base, table base, the elements in the table slots, immutable globals moved by the memory base modulo 2^32 and mutable ones kept, every defined name published to symbols and GOT, all else unchanged |
| LoadResult.FailsExactly | host/src/dylink.ts:229-455 | exactly when a load fails, over all modules and states |
| LoadResult.LoadLeaves | host/src/dylink.ts:498-538 | a library already loaded comes back as it is; otherwise all it needs is loaded first and the library is installed on top; no loaded library changes |
| Linker.DynamicLinker.constructor | host/src/dylink.ts:544-552 | an empty linker is coherent |
| Linker.DynamicLinker.TableIndexFor | host/src/dylink.ts:308-317 | an index that holds the function, appended only if absent |
| Linker.DynamicLinker.GetOrCreateGotEntry | host/src/dylink.ts:319-336 | refines the GOT step |
| Linker.DynamicLinker.ResolveImports | host/src/dylink.ts:349-384 | imports in order, stopping at the first missing one |
| Linker.DynamicLinker.PublishExports | host/src/dylink.ts:404-426 | refines the export step |
| Linker.DynamicLinker.LinkModule | host/src/dylink.ts:319-455 | refines imports, instantiation, exports and startup, once memory and table slots are reserved |
| Linker.DynamicLinker.InstantiateSharedLibrary | host/src/dylink.ts:229-455 | refines the instantiation, failures with what they leave behind; on success where the library lies, its elements in the table, its exports moved and published |
| Linker.DynamicLinker.LoadSharedLibrarySync | host/src/dylink.ts:498-538 | refines the load with its dependencies; loaded libraries stay, and everything needed is loaded |
| Linker.DynamicLinker.HandleFor | host/src/dylink.ts:561-568 | a library has one handle, its old one or a new one |
| Linker.DynamicLinker.DlopenSync | host/src/dylink.ts:558-573 | 0 exactly on failure, a handle of the loaded library otherwise, coherent and append-only either way |
| Linker.DynamicLinker.Dlsym | host/src/dylink.ts:576-625 | an index whose slot holds the function, appending at most one slot; error exactly when nothing is found |
| ForkReplay.InstantiateRenamed | host/src/dylink.ts:235-281 | instantiation at the saved base commutes with renaming the functions |
| ForkReplay.ReplayFaithful | host/src/dylink.ts:176-196 | replaying successful dependency-free dlopens gives the child the parent's state over its own functions |
| ForkReplay.ReplayLayout | host/src/dylink.ts:176-196 | the same table and memory bases, GOT values and slot-by-slot layout |
| ForkReplay.LookupShifts | host/src/dylink.ts:179-184 | a dlsym in between shifts a later table base exactly when it had to append |
| ForkReplay.FailureGrows | host/src/dylink.ts:276-281 | a failed dlopen leaves at least its table slots behind, unless it failed before they were made |
| ForkReplay.FailureShifts | host/src/dylink.ts:179-184 | replaying only the successes gives a later library its base exactly when the failure left the table as long as it was |

## Left out

- `fp128_to_f32`, `f32_to_fp128`: they go through hardware float casts.
- NaN payloads and the unordered return value of comparisons; the thin 32-bit and comparison wrappers over the modelled functions; `__ashlti3`, `__lshrti3`, `__ashrti3`, `__multi3`: they would only add easy members.
- QuadMul.ExtractWindow: the two stores that are overwritten at once are not modelled, and a negative bottom bit, which `u128_clz` rules out, is not a value of its parameter.
- QuadWitness.SumBelowNormal: names one failing sum; the wrong result itself is stated for all of them by `QuadAdd.AddTf3`.
- Pipe flags (`isReadOpen`, `closeWrite` and the like), and a source or destination array that is the ring's own storage.
- Weak-memory effects: atomic operations are sequentially consistent and plain accesses are ordered by them.
- LockTable.SharedLockTable.constructor: takes capacities that an i32 holds; larger ones cannot be allocated. Process ids, hashes and lock types are 32-bit and offsets 64-bit, as the layout comment says.
- `hashPath`: the results hold for any hash, collisions included.
- LockProtocol.NoMissedUnlock: takes the wake counter as unbounded; the critical section changes the table in one step, which mutual exclusion justifies, while the counter bump, the notify and both stores of the spinlock are steps of their own. The sleep limits of 1 ms and 5 s are wake-ups that may come at any time.
- The kernel's side of the channel is an environment: it answers a published request, may raise one signal with it, and obeys SIG_SETMASK. A pointer argument stands for what it points to. Handlers return with the stack pointer they were called with. The direct `fork` and `vfork` entry points, thread cancellation and the `__syscallN` wrappers are not modelled.
- HeapBase.ExtractHeapBase: section sizes, counts, name lengths and export indices are below 2^31, above which `readULEB128` comes out negative; a walk that this sends backwards is reported as `Backwards` instead of being followed. Imports of kind 4 (tags) are not skipped by the code and are not part of a module value.
- HeapBase.ExtractHeapBase: names are compared as UTF-8 bytes after one leading byte order mark is dropped; malformed UTF-8 is not modelled. The same holds for `DylinkSection`.
- HeapBase.ExtractHeapBase: when an earlier initialiser holds 0x0B the result is stated as what is read from where the skips land, not as a condition on the initialisers; skips can fall out of step and back into it.
- `extractAbiVersion`, `detectPtrWidth`: they reuse the same readers and would only add easy members.
- Linker: WebAssembly compilation and instantiation are a function of memory base and table base that yields exports and fills only the module's own table slots; data relocations and constructors only succeed or throw. The memory allocator is a sequence of answers. Zero-filling, memory growth, `alignUp`, the async loader, `dlclose`, `dlerror` and error texts are left out.
- Linking.LoadKeeps: call-stack room is a parameter; a cyclic dependency ends in the error that a stack overflow raises.
- host/src/kernel.ts, host/src/channel.ts, host/src/wasi-shim.ts, host/src/thread-allocator.ts, glue/syscall_glue.c, programs/sh.c and the worker entry files.
