# Verified models of the emulator's low-level utilities

A Dafny 4.11 project that models the parts of the emulator where a mistake is hardest to see, and proves what
those parts promise. `dafny verify dfyconfig.toml` checks everything.

* **Locks on one packed word.** The reader/writer lock (`SharedMutex`, with the head counts in `Census`), the
  condition variable (`CondVar`) and the semaphore (`Semaphore`) are transition systems: any number of threads,
  each with a program counter, and one atomic access per step. A thread may fall asleep only while the word
  equals the value it waits on, and may wake for no reason. `MutexCalls`, `CondCalls` and `Semaphore` follow the
  calls from beginning to return and say what a caller gets.
* **Lock-free structures.** The ring buffer (`RingBuf`), the multi-producer queue (`LfQueue`), the append-only
  list (`LfBunch`) and the allocator for generated code (`JitMemory`) are transition systems at the same grain:
  loads, single byte copies, compare-and-exchange, link writes, and a heap that hands freed addresses out again.
  `QueueCalls` follows the calls of the queue.
* **Modular arithmetic and curves.** `BigNum`, `InverseTable`, `Montgomery`, `MonExp` and `EllipticCurve` are the
  byte-array routines of `rpcs3/Crypto/ec.cpp` with their loops, in-place updates and permitted aliasing.
  `Arith`, `Fermat` and `CurveLaw` hold the mathematics they are measured against; the group law follows section
  2.2.1 of SEC 1.
* **Fast forms against simple ones.** The table-driven CRC against the bit-by-bit one, and both against polynomial
  long division (`BitWords`, `Crc`, `CrcDivision`); the vector of address ranges against a set of addresses
  (`AddressRange`); the base-57 printer against its parser (`Base57`); the gathered stream against the
  concatenation of its files (`GatherStream`).

Where the code does not keep a property everywhere, the exact condition is proved:

* the reader/writer lock is mutually exclusive for n threads exactly when n is below 65536
  (`SharedMutex.CapacityExact`);
* the semaphore's ensure() calls hold through a run exactly while the outstanding tokens fit the value field
  (`Semaphore.FailsExactly`);
* beside fitting requests, the allocator keeps blocks apart and failures final for exactly those further requests
  whose rounded size leaves room below 2^64 (`JitMemory.RequestsExact`, and `JitMemory.DecisionExact` for one
  decision at every position);
* merging a range denotes set union unless one range starts at address 0 and its wrap-around neighbour ends at
  the highest address (`AddressRange.UnionExactly`), and excluding keeps ranges apart unless it cuts the range of
  all addresses in two (`AddressRange.RangeVector.Exclude`); both are carried over to whole vectors
  (`AddressRange.RangeVector.MergeAll`, `AddressRange.RangeVector.ExcludeAll`);
* the comment in `Utilities/CRC.h` that undoing the final step always restores the remainder holds exactly for
  remainders whose bits above the width are those of the final XOR, or clear if the final step reflects; with a
  final XOR inside the width these are the remainders that fit it (`Crc.UndoInvertsFinalize`);
* computing a checksum in parts works for a split exactly when what undoing the final step gets wrong above the
  width does not reach it (`Crc.PartsExactly`), and for widths of eight or more it works for every split exactly
  when input is not reflected, or the initial value, and with reflected output the final XOR, lie inside the width
  (`Crc.MultiPartExactly`);
* adding the opposite point takes a point addition back exactly where the curve has a tangent
  (`CurveLaw.SumCancels`), which a nonzero discriminant guarantees (`CurveLaw.DiscriminantSmooth`);
* base-57 text returns the bytes it was printed from exactly for whole blocks of eight (`Base57.RoundTripExactly`),
  although no two byte strings are printed alike (`Base57.PrintingInjective`);
* every byte of the gathered stream can be read exactly when no empty file, the first excepted, precedes a
  non-empty one (`GatherStream.ReadsExactly`).

## Model

| member | source | states |
|---|---|---|
| MutexCalls.CallersExcluded | Utilities/mutex.cpp:5-193 | In every interleaving of lock, shared lock, upgrade, downgrade, signal stealing and unlock by fewer than 65536 threads, while one caller holds the lock exclusively by calls returned and not undone, no other caller holds it in any way |
| MutexCalls.CallsKeepPromise | Utilities/mutex.h:31-161 | lock_shared and lock_downgrade return only with the shared lock, lock and lock_upgrade only with the exclusive one, unlocks and lock_unlock with none, and a try form with the lock exactly if it reports success |
| MutexCalls.HoldsAreReal | Utilities/mutex.h:31-161 | A thread between calls stands as a reader, a writer or neither exactly as the calls that returned to it say |
| MutexCalls.TryLockExactly | Utilities/mutex.h:86-89 | try_lock takes the lock exactly if the word is zero |
| MutexCalls.TrySharedExactly | Utilities/mutex.h:31-37 | try_lock_shared succeeds exactly if readers had room and the word did not change from its load to its exchange |
| MutexCalls.TryUpgradeExactly | Utilities/mutex.h:132-138 | try_lock_upgrade succeeds exactly if the caller was the only reader from its load to its exchange |
| MutexCalls.LockUnlockPasses | Utilities/mutex.cpp:162-193 | lock_unlock returns only after a moment without readers in which the lock was free, on its way, or had been passed on since the call, or after holding it exclusively itself |
| MutexCalls.CallGetsThrough | Utilities/mutex.cpp:5-193 | With the lock free, or handed to the caller, every step of a call returns with what it promises or comes closer to that |
| MutexCalls.RunIsTrace | Utilities/mutex.cpp:5-193 | Every run is a sequence of steps of such calls |
| SharedMutex.MutualExclusion | Utilities/mutex.cpp:5-193 | In every reachable state of fewer than 65536 threads a writer, inside a call or out, never coexists with a reader or another writer |
| SharedMutex.WordIsCounts | Utilities/mutex.h:10-15 | The word always equals readers + c_one * (holder + queued) + c_sig * signal, with the signal at most one and the readers in their own field |
| SharedMutex.OneToken | Utilities/mutex.cpp:46-160 | While a thread is queued exactly one of these holds: a writer, some readers, the signal bit, one thread about to signal; with nobody queued there is neither signal nor signaler |
| SharedMutex.NobodyStranded | Utilities/mutex.cpp:57-85 | Whenever a thread is queued, some thread that is not asleep holds the lock or works on handing it over |
| SharedMutex.NoOverflow | Utilities/mutex.h:10-15 | The word stays below c_err and no ensure() ever fails |
| SharedMutex.CapacityExact | Utilities/mutex.cpp:91-112 | In runs of n threads a writer never coexists with a reader or another writer if and only if n is below 65536 |
| SharedMutex.ReachTwoHolders | Utilities/mutex.cpp:57-112 | With 65536 threads or more a run reaches a state with two writers: stealing the signal beside 65535 queued threads carries into the signal bit, and a queued thread follows |
| SharedMutex.AccessKeepsInv | Utilities/mutex.h:31-161 | Every single atomic access of every call keeps the invariant |
| SharedMutex.NotifyKeepsInv | Utilities/mutex.cpp:81-85 | Delivering a notification keeps the invariant whether or not a thread sleeps |
| SharedMutex.Enqueue | Utilities/mutex.cpp:33-42 | Queueing by fetch_add(c_one) adds one queued thread to the word without disturbing the hand-over |
| SharedMutex.StealExclusive | Utilities/mutex.cpp:87-112 | Stealing the signal bit turns a pending hand-over into a holder |
| SharedMutex.UpgradeEnqueue | Utilities/mutex.cpp:137-160 | A reader that queues for the upgrade stops counting as a reader and starts counting as queued, also beside another upgrader |
| SharedMutex.ReleaseShared | Utilities/mutex.cpp:46-55 | The last reader to leave before queued threads becomes the signaler |
| CondVar.NoLostNotification | Utilities/cond.cpp:27-55 | After any wake, the word differs from what a registered thread expects, and its signal field is larger, until that thread deregisters, even when the field is full |
| CondVar.WaiterFieldExact | Utilities/cond.h:20-34 | The waiter field is the number of registered threads, fits 13 bits, and signals are dropped when it is zero |
| CondVar.NoSleepAfterWake | Utilities/cond.cpp:5-25 | A thread registered before a wake cannot fall asleep after it |
| CondVar.FullFieldWakesAll | Utilities/cond.cpp:46-54 | While the signal field is full, every sleeping thread has a notify_all on its way |
| CondCalls.NotifyAllWakes | Utilities/cond.h:86-92 | Once a call of notify_all has returned, a thread registered since before the call is awake until it deregisters, in every run; only if the call found the signal field full can it be asleep, and then another notify_all is on its way |
| CondCalls.NotifyOneWakes | Utilities/cond.h:77-83 | From its call to its return notify_one wakes one sleeper if there is one when it delivers, and no more than one unless its signal fills the field; without a signal of its own it wakes nobody, because nobody is registered or the field is full |
| CondCalls.NotifyReturns | Utilities/cond.cpp:27-55 | Either call returns having added a signal and woken all sleepers or one, or with nothing to do |
| CondCalls.WaitRegisters | Utilities/cond.h:20-34 | wait registers its caller, expecting the word it leaves, exactly if neither field is full, and otherwise returns with nothing changed |
| CondCalls.WaiterRegistered | Utilities/cond.cpp:5-25 | A caller inside wait is registered with that expectation throughout |
| CondCalls.WaitGetsThrough | Utilities/cond.cpp:5-25 | An awake caller of wait returns in at most two steps of its own |
| CondCalls.RunIsTrace | Utilities/cond.h:77-92 | Every run is a sequence of steps of such calls |
| CondVar.RegisteredSeen | Utilities/cond.h:77-92 | A notifier always sees a registered thread, and the value waited on is never zero |
| CondVar.SignalsGrow | Utilities/cond.cpp:14-24 | The signal field never falls while some thread stays registered |
| Semaphore.TokensConserved | Utilities/sema.h:30-65 | Available plus acquired tokens equal initial plus posted ones, and the high half counts the registered waiters, until an ensure() fails |
| Semaphore.TokensCovered | Utilities/sema.cpp:5-69 | Awake waiters plus undelivered notifications are never fewer than the smaller of available tokens and registered waiters |
| Semaphore.NobodySleepsThrough | Utilities/sema.cpp:15-58 | While a token is available and a thread waits, some waiter is awake or about to be notified |
| Semaphore.FailsExactly | Utilities/sema.cpp:24-63 | With fewer than 65535 threads, no ensure() has failed if and only if in every state so far the initial and posted tokens exceed the acquired ones by at most 65535 |
| Semaphore.CallsFulfilled | Utilities/sema.h:30-65 | wait takes a token in the step in which it returns and in no other; try_wait reports whether there was a token and takes it then; post gives one token; try_post gives one and reports it exactly if the value was not above the maximum |
| Semaphore.WaitTakesOne | Utilities/sema.cpp:5-60 | From the call of wait to its return the thread takes exactly one token |
| Semaphore.TokensAreCalls | Utilities/sema.h:30-65 | The tokens acquired are as many as the returned waits and successful try_waits, the tokens posted as many as the posts and successful try_posts |
| Semaphore.WaitCompletes | Utilities/sema.cpp:5-60 | While a token is there, each step of an awake wait returns with it or comes closer to that, in at most three steps |
| Semaphore.RunIsTrace | Utilities/sema.h:30-65 | Every run is a sequence of steps of such calls |
| Semaphore.PostKept | Utilities/sema.h:56-65 | A post adds one token without a carry into the waiters or ends in a failed ensure(), and notifies when waiters outnumber tokens |
| Semaphore.TryPostKept | Utilities/sema.cpp:71-97 | The same for a conditional post |
| Semaphore.RetryKept | Utilities/sema.cpp:22-49 | A registered waiter takes a token and its own registration together, or stays registered |
| RingBuf.RefinesFifo | Utilities/simple_ringbuf.cpp:91-202 | Every step of one writer and one reader, interleaved load by load, byte by byte and exchange by exchange, is a step of a bounded byte queue with the same results |
| RingBuf.FifoOrder | Utilities/simple_ringbuf.cpp:136-202 | Without flushes, all bytes pushed are all bytes popped followed by the bytes inside, in order |
| RingBuf.PointersGrow | Utilities/simple_ringbuf.cpp:117-134 | Pointers never fall, and any change of the contents strictly increases one of them |
| RingBuf.UnpushedContents | Utilities/simple_ringbuf.cpp:117-126 | Adding the buffer size less n to the write pointer drops exactly the n newest bytes |
| RingBuf.CopyInGood | Utilities/simple_ringbuf.cpp:153-162 | A byte copied before the exchange never touches the contents |
| RingBuf.PopGood | Utilities/simple_ringbuf.cpp:170-202 | A committed pop returns the front of the queue at commit time and removes it |
| RingBuf.UsedIsDistance | Utilities/simple_ringbuf.cpp:91-107 | Used size leads from the read to the write position, and free size plus one back |
| RingBuf.CallsAnswered | Utilities/simple_ringbuf.cpp:136-202 | An operation that completes reports on the data, size and force it was called with, and nothing completes that was not called |
| RingBuf.PushCompletes | Utilities/simple_ringbuf.cpp:136-168 | Wherever a push is, the writer alone can complete it, moving all bytes if there is room and otherwise as many as fit with force and none without |
| RingBuf.PopCompletes | Utilities/simple_ringbuf.cpp:170-202 | The same for a pop and the reader |
| JitMemory.BlocksDisjoint | Utilities/JITASM.cpp:163-187 | In every interleaving of fitting positive requests, granted blocks are pairwise disjoint |
| JitMemory.BlocksInPlace | Utilities/JITASM.cpp:163-187 | In every such interleaving each granted block is aligned and ends within 1 GiB |
| JitMemory.ReturnedIsCommitted | Utilities/JITASM.cpp:195-214 | A returned block was granted, starts inside the subrange and is committed throughout |
| JitMemory.FailureIsFinal | Utilities/JITASM.cpp:168-173 | After one failure no request is granted any more |
| JitMemory.GrantedExactly | Utilities/JITASM.cpp:160-187 | In every reachable state a fitting request is granted exactly if none has failed and the first aligned place behind the last block ends within 1 GiB, and gets that place |
| JitMemory.GrantReturned | Utilities/JITASM.cpp:189-214 | A call that commits memory goes on with its block and returns it |
| JitMemory.AcknowledgedIsMax | Utilities/JITASM.cpp:201-208 | Acknowledging raises the committed size to the maximum of both and leaves the position alone |
| JitMemory.DecisionExact | Utilities/JITASM.cpp:165-168 | Requests are granted exactly when the block really ends within the limit, at every position, if and only if the rounded size fits |
| JitMemory.MisfitWraps | Utilities/JITASM.cpp:165-166 | For every other request some position makes the new position wrap around to zero |
| JitMemory.RequestsExact | Utilities/JITASM.cpp:163-187 | Callers may make further requests beside fitting ones, in any run, without overlapping blocks and without a grant after a failure if and only if those requests fit too |
| JitMemory.MisfitBreaks | Utilities/JITASM.cpp:163-187 | For every request that does not fit, a run from the start ends in overlapping blocks or in a grant after a failure |
| JitMemory.HugeRequestOverlaps | Utilities/JITASM.cpp:163-187 | The run of one byte, 2^64 - 1 bytes and one byte again grants overlapping blocks |
| JitMemory.PowersAlign | rpcs3/util/asm.hpp:416-422 | Every power of two below 2^64 is such an alignment |
| JitMemory.Align64IsCeil | rpcs3/util/asm.hpp:416-422 | Rounding up on 64-bit words is rounding up modulo 2^64 for alignments that divide 2^64 |
| LfQueue.ExactlyOnce | Utilities/lockless.h:403-424 | Every drained item stands at its own place in what exactly one call returned, or in the lists of exactly one thread, and nowhere else; an item not drained is in none |
| LfQueue.DeliveredInOrder | Utilities/lockless.h:403-424 | With no part in hand, what the calls returned, put right where reversed and joined in drain order, is what was pushed and drained, in the order of the successful exchanges |
| LfQueue.Delivered | Utilities/lockless.h:501-515 | pop_all hands out what it drained oldest first, pop_all_reversed newest first |
| LfQueue.DrainsServedOnce | Utilities/lockless.h:403-424 | The drains of a part are balanced by its returns and the threads that have it in hand, and a part that is not empty is drained at most once |
| LfQueue.PushResult | Utilities/lockless.h:473-491 | push returns true exactly when every item pushed before it had been drained |
| QueueCalls.CallsAnswered | Utilities/lockless.h:403-515 | push returns when its item has become the last one pushed; pop_all returns what it drained oldest first, or nothing without draining only if nothing was queued; pop_all_reversed always returns what it drained, newest first |
| QueueCalls.PushGetsThrough | Utilities/lockless.h:473-482 | A push can always step and returns in at most four steps if no other thread steps in |
| QueueCalls.DrainGetsThrough | Utilities/lockless.h:403-424 | A drainer can always step, and each of its steps brings it closer to its return |
| QueueCalls.RunIsTrace | Utilities/lockless.h:403-515 | Every run is a sequence of steps of such calls |
| LfQueue.PushGood | Utilities/lockless.h:476-482 | A successful exchange puts the item in front of the current list even if the head's address was freed and reused in between |
| LfQueue.ReverseGood | Utilities/lockless.h:407-418 | One round of the reversal moves a node and keeps the drained items and their order |
| LfQueue.AccessesLive | Utilities/lockless.h:403-491 | No thread follows a null or freed pointer |
| LfBunch.StoredCompatible | Utilities/lockless.h:561-592 | With push_if as the only insertion, each stored item satisfies the predicate against every item below it |
| LfBunch.PushIfOutcome | Utilities/lockless.h:571-591 | push_if adds its item on top, or refuses it because of a stored item that conflicts with it |
| LfBunch.CallAnswered | Utilities/lockless.h:563-592 | A call goes on with its item until it is answered for that item |
| LfBunch.PushIfGetsThrough | Utilities/lockless.h:563-592 | A call can always step, and each of its steps brings it closer to its answer |
| LfBunch.ListExists | Utilities/lockless.h:562-592 | The list under the head is well formed in every reachable state |
| LfBunch.AcceptGood | Utilities/lockless.h:586-589 | An exchange succeeds only if every item below has been checked, although each retry checks only new ones |
| LfBunch.AccessesLive | Utilities/lockless.h:576-584 | The checking loop never follows a null or freed pointer |
| BigNum.Compare | rpcs3/Crypto/ec.cpp:8-19 | The sign of the difference of two big-endian numbers |
| BigNum.AddCarry | rpcs3/Crypto/ec.cpp:21-32 | Sum and carry, with output allowed to be an input |
| BigNum.SubBorrow | rpcs3/Crypto/ec.cpp:34-45 | Difference and borrow, with output allowed to be an input |
| BigNum.Reduce | rpcs3/Crypto/ec.cpp:47-51 | Subtracts the modulus once when the number is not below it |
| BigNum.Add | rpcs3/Crypto/ec.cpp:53-59 | Sum modulo N of two residues |
| BigNum.Sub | rpcs3/Crypto/ec.cpp:61-65 | Difference modulo N of two residues |
| InverseTable.Inverse256 | rpcs3/Crypto/ec.cpp:67-84 | Each of the 128 table entries is the inverse modulo 256 of its odd byte |
| Montgomery.QuotientDigit | rpcs3/Crypto/ec.cpp:88-88 | The digit that makes the accumulator divisible by 256 |
| Montgomery.Accumulate | rpcs3/Crypto/ec.cpp:88-101 | The carry loop divides the accumulator by 256 exactly |
| Montgomery.DigitBound | rpcs3/Crypto/ec.cpp:103-106 | The accumulator stays below twice the modulus, so one subtraction is enough |
| Montgomery.MulAddDigit | rpcs3/Crypto/ec.cpp:86-107 | One digit step keeps the accumulator below N and multiplies by the inverse of 256 |
| Montgomery.MonMul | rpcs3/Crypto/ec.cpp:109-118 | For odd N and a < N the result is below N and times 256^n is congruent to a * b, also when it overwrites an input |
| Montgomery.MonProductUnique | rpcs3/Crypto/ec.cpp:109-118 | Only one number below N has that property |
| Montgomery.MonMulPlain | rpcs3/Crypto/ec.cpp:201-204 | On the residues behind the Montgomery forms it is multiplication |
| Montgomery.ToMon | rpcs3/Crypto/ec.cpp:120-124 | x becomes x * 256^n modulo N |
| Montgomery.FromMon | rpcs3/Crypto/ec.cpp:126-133 | A Montgomery form becomes the residue it stands for |
| Montgomery.ConversionRoundTrip | rpcs3/Crypto/ec.cpp:120-133 | The two conversions are inverse to each other on all residues |
| MonExp.MonPow | rpcs3/Crypto/ec.cpp:135-154 | The Montgomery form of a^e modulo N for every exponent byte string and every base, reduced or not |
| MonExp.MonInv | rpcs3/Crypto/ec.cpp:156-164 | The Montgomery form of a^(N-2) modulo N, for every base |
| MonExp.FermatInverse | rpcs3/Crypto/ec.cpp:156-164 | That power is an inverse whenever a^(N-1) is congruent to one |
| Fermat.LittleTheorem | rpcs3/Crypto/ec.cpp:211-216 | It is congruent to one for prime N and every a that N does not divide |
| CurveLaw.SumClosed | rpcs3/Crypto/ec.cpp:241-327 | The chord-and-tangent sum of two points of the curve is on the curve or infinity |
| CurveLaw.SumUnique | rpcs3/Crypto/ec.cpp:241-327 | The rule determines the sum |
| CurveLaw.SumCommutes | rpcs3/Crypto/ec.cpp:275-327 | The sum does not depend on the order of the points |
| CurveLaw.SumCancels | rpcs3/Crypto/ec.cpp:275-327 | Adding the opposite point takes an addition back if and only if the curve has a tangent at the point added, or the other point is infinity or the same |
| CurveLaw.DiscriminantSmooth | rpcs3/Crypto/ec.cpp:241-273 | A nonzero discriminant gives every point a tangent |
| CurveLaw.CodeUnambiguous | rpcs3/Crypto/ec.cpp:230-239 | For nonzero b the pair (0, 0) that encodes infinity is not a point of the curve |
| EllipticCurve.Curve.constructor | rpcs3/Crypto/ec.cpp:385-402 | Installing a curve stores the Montgomery forms of its coefficients and base point, and the group order as given |
| EllipticCurve.Curve.PointToMon | rpcs3/Crypto/ec.cpp:218-222 | The stored point stands for the coordinates given |
| EllipticCurve.Curve.PointFromMon | rpcs3/Crypto/ec.cpp:224-228 | The coordinates the stored point stood for |
| EllipticCurve.Curve.EltIsZero | rpcs3/Crypto/ec.cpp:182-189 | Whether the element is the zero residue |
| EllipticCurve.Curve.EltAdd | rpcs3/Crypto/ec.cpp:191-194 | Field addition, with any aliasing of result and operands |
| EllipticCurve.Curve.EltSub | rpcs3/Crypto/ec.cpp:196-199 | Field subtraction |
| EllipticCurve.Curve.EltMul | rpcs3/Crypto/ec.cpp:201-209 | Field multiplication |
| EllipticCurve.Curve.EltInv | rpcs3/Crypto/ec.cpp:211-216 | Field inversion of nonzero elements, also in place |
| EllipticCurve.Curve.PointIsZero | rpcs3/Crypto/ec.cpp:236-239 | Whether the point is infinity |
| EllipticCurve.Curve.PointDouble | rpcs3/Crypto/ec.cpp:241-273 | The result is the sum of the point with itself, on the curve or infinity, also in place |
| EllipticCurve.Curve.PointAdd | rpcs3/Crypto/ec.cpp:275-327 | The result is the sum of the two points in every branch, also when it overwrites an operand |
| EllipticCurve.Curve.PointMul | rpcs3/Crypto/ec.cpp:329-342 | The point reached from infinity by doubling and adding along the bits of the multiplier |
| EllipticCurve.Curve.TimesUnique | rpcs3/Crypto/ec.cpp:329-342 | That point is determined by the multiplier and the base |
| AddressRange.TouchesMeaning | Utilities/address_range.h:106-143 | Touching means leaving no address between, or being neighbours across the top; it is symmetric |
| AddressRange.RangeVector.Merge | Utilities/address_range.h:305-363 | The set becomes the union with the range, or everything when a wrap-around neighbour is there; ranges apart stay apart, or then exactly if the range touches all of them; touching ranges go into one, the others are kept |
| AddressRange.UnionExactly | Utilities/address_range.h:305-363 | Merging denotes set union if and only if there is no wrap-around neighbour or the union is everything |
| AddressRange.WrapFillsGap | Utilities/address_range.h:305-363 | With three addresses, merging the lowest into the highest takes in the middle one |
| AddressRange.RangeVector.MergeAll | Utilities/address_range.h:365-371 | The result is the union of two vectors if and only if no end of the address space in the second meets the other end in either, or the union is everything; ranges apart stay apart if and only if no run of addresses is left behind at such a meeting |
| AddressRange.RangeVector.Exclude | Utilities/address_range.h:373-454 | The set becomes the difference always; ranges apart stay apart exactly unless the range of all addresses is cut in two |
| AddressRange.RangeVector.ExcludeAll | Utilities/address_range.h:456-462 | The result is the difference of two vectors always; ranges apart stay apart if and only if the exclusions do not cut the range of all addresses somewhere between its ends |
| AddressRange.RangeVector.CheckConsistency | Utilities/address_range.h:464-493 | True exactly when no two valid ranges touch |
| AddressRange.RangeVector.Overlaps | Utilities/address_range.h:495-502 | True exactly when some address is in both |
| AddressRange.RangeVector.OverlapsAny | Utilities/address_range.h:504-528 | True exactly when the two sets of addresses meet |
| AddressRange.FullIsOne | Utilities/address_range.h:464-493 | Ranges that are apart cover every address only as one range |
| Crc.RemaindersAgree | Utilities/CRC.h:605-766 | For every width, storage size, polynomial, reflection, starting value and message, table-driven and bit-by-bit remainders agree within the width |
| Crc.TableCrcAgrees | Utilities/CRC.h:438-513 | Hence the finished checksums are equal |
| Crc.TableByteReflected | Utilities/CRC.h:724-740 | One lookup is eight bit steps, reflected |
| Crc.ByteLSplits | Utilities/CRC.h:741-749 | Eight bit steps shift the register by a byte and add what the high byte gives |
| Crc.EntrySmall | Utilities/CRC.h:396-426 | For widths below eight the shifted, masked entry is what the eight steps leave in the byte |
| Crc.MultiPart | Utilities/CRC.h:446-467 | With unreflected input, or with the initial value, and for reflected output the final XOR, inside the width, feeding the checksum of a prefix into the appending form gives the checksum of the whole, for every split |
| Crc.PartsExactly | Utilities/CRC.h:446-467 | For all parameters and every split, that holds if and only if the bits undoing the final step gets wrong above the width do not reach it while the second part is read |
| Crc.MultiPartExactly | Utilities/CRC.h:446-467 | For widths of eight or more it holds for every split if and only if the parameters meet the condition of MultiPart |
| Crc.RemainderAppend | Utilities/CRC.h:605-707 | The remainder of a message continues from that of its first part |
| Crc.UndoInvertsFinalize | Utilities/CRC.h:560-592 | Undoing the final step restores the remainder if and only if its bits above the width are those of the final XOR, or clear if the step reflects; for a final XOR inside the width, if and only if it fits the width |
| Crc.FinalizeInvertsUndo | Utilities/CRC.h:546-592 | The other order restores exactly the values that fit the width, whatever the final XOR |
| Crc.UndoRestoresLow | Utilities/CRC.h:546-592 | Within the width the remainder is always restored |
| BitWords.ReversedTwice | Utilities/CRC.h:523-534 | Reflecting twice keeps exactly the reflected bits |
| Crc.Reflect | Utilities/CRC.h:523-534 | The lowest bits in reverse order |
| Crc.Finalize | Utilities/CRC.h:546-558 | Each bit within the width is the remainder's bit, or the one opposite if the reflections differ, with the final XOR's bit added; the others are clear; and undoing the step gives the remainder back within the width |
| Crc.FinalXorAdded | Utilities/CRC.h:546-558 | The result is the one without a final XOR, with the final XOR added within the width |
| Crc.UndoFinalize | Utilities/CRC.h:578-592 | A remainder whose final step gives the checksum back, without bits above the width |
| Crc.RemainderByBits | Utilities/CRC.h:605-707 | The loops compute the bit-by-bit remainder in all three cases |
| Crc.Table.constructor | Utilities/CRC.h:396-426 | Every table entry is the finished step of its byte |
| Crc.Table.RemainderByTable | Utilities/CRC.h:720-766 | The lookup loop agrees with the bit-by-bit remainder within the width |
| Crc.Table.Calculate | Utilities/CRC.h:479-488 | The table-driven checksum is the bit-by-bit checksum, and what the appending form makes of any split of the message |
| Crc.Table.Continue | Utilities/CRC.h:502-513 | The appending table-driven form is the appending bit-by-bit form, and gives the checksum of the joined message after any prefix with the given checksum |
| Crc.Calculate | Utilities/CRC.h:438-445 | The checksum is what the appending form makes of any split of the message |
| Crc.Continue | Utilities/CRC.h:458-467 | Given the checksum of any prefix, the checksum of the prefix followed by the data |
| CrcDivision.RemainderIsDivision | Utilities/CRC.h:605-707 | The remainder is that of dividing the message, with zeros appended and the starting value added in front, by the generator polynomial |
| CrcDivision.CrcIsDivision | Utilities/CRC.h:438-445 | For every message and all parameters the checksum is that remainder, its highest power first or last as the output is reflected or not, with the final XOR added |
| CrcDivision.DivideByte | Utilities/CRC.h:652-670 | A byte may be added to the leading bits before the eight steps that divide it out |
| Base57.PrintedIsRead | Utilities/StrFmt.cpp:165-251 | Each printed character is read as the digit it was printed for |
| Base57.AlphabetExactly | Utilities/StrFmt.cpp:165 | The alphabet is the digits and letters without B, D, I, O and l in ascending order |
| Base57.PrintedExample | Utilities/StrFmt.cpp:127-172 | The text of the bytes 1 to 8 |
| Base57.TailIsLeast | Utilities/StrFmt.cpp:135-136 | An incomplete block gets as few characters as can tell its values apart |
| Base57.ReadIsPrinted | Utilities/StrFmt.cpp:199-251 | No other character is accepted |
| Base57.RoundTrip | Utilities/StrFmt.cpp:127-298 | Printing whole blocks and parsing gives the bytes back |
| Base57.RoundTripExactly | Utilities/StrFmt.cpp:127-298 | The bytes come back if and only if their number is a multiple of eight |
| Base57.Reprint | Utilities/StrFmt.cpp:174-298 | A text of whole groups that parses is printed again as it was |
| Base57.RejectedExactly | Utilities/StrFmt.cpp:253-276 | A text is rejected if and only if some group has a bad character or a number of 2^64 or more |
| Base57.PrintingInjective | Utilities/StrFmt.cpp:133-170 | Different byte strings are printed differently, tails included |
| Base57.Format | Utilities/StrFmt.cpp:127-172 | The printer's loops append the digits of every block |
| Base57.ReadGroup | Utilities/StrFmt.cpp:182-280 | The overflow tests accept a group exactly when its number fits in 64 bits |
| Base57.FromString | Utilities/StrFmt.cpp:174-298 | The parser's loops return the bytes of the text, or nothing |
| GatherStream.Stream.constructor | Utilities/File.cpp:2510-2519 | The end is the total size and the index is the one built by emplacing |
| GatherStream.Stream.ReadAt | Utilities/File.cpp:2583-2615 | With a right index, exactly the stretch of the concatenation asked for; for one byte, that byte exactly when it can be read |
| GatherStream.Stream.Read | Utilities/File.cpp:2545-2581 | The same from the position, which moves by the bytes delivered |
| GatherStream.Stream.Seek | Utilities/File.cpp:2622-2637 | The new position, or failure without a change, in signed 64-bit arithmetic |
| GatherStream.ReadsExactly | Utilities/File.cpp:2510-2615 | Every byte of the concatenation can be read at its position if and only if no empty file, the first excepted, precedes a non-empty one |
| GatherStream.IndexExact | Utilities/File.cpp:2514-2518 | The same condition is the one for the index to name the right files |
| GatherStream.EmptyFileHidesNext | Utilities/File.cpp:2514-2518 | A concrete list of files whose last byte cannot be read |
| GatherStream.GatherAt | Utilities/File.cpp:2587-2610 | The fragments read one after another stand where they were asked for |

## Left out

- Memory orders weaker than sequential consistency, the hardware lock elision variants, the platform's futex code and liveness under a fair scheduler: atomic accesses are interleaved one at a time.
- Atomic objects, rings, lists and counters are modelled as values of a transition system, not as classes with methods, because an interleaving has no call structure.
- SharedMutex: for 65536 threads or more only the failure of mutual exclusion is shown, because stealing and passing through have no overflow check.
- Semaphore: the maximum value is not enforced by the code in the same way in both posts, so only token conservation and wake-ups are stated; after a failed ensure() nothing is claimed.
- RingBuf: the two pointers are unbounded, so their wrap-around after 2^64 bytes is not modelled; copying, moving and resizing the buffer are left out.
- JitMemory: overcommitted memory, where nothing is committed step by step, and requests of size zero; clearing low bits is modelled as taking the remainder off.
- LfQueue: a slice is modelled as consumed to its end; dropping it early, the waiting functions and moving a queue are left out.
- LfBunch: the unconditional push, which gives up the predicate, and iteration.
- Montgomery: temporaries of 512 bytes are arrays of the needed length, so numbers longer than 512 bytes, which the code does not admit, are not excluded.
- EllipticCurve: element size is a parameter instead of 20 bytes; signature checking and the associativity of the group law are left out.
- EllipticCurve.Curve.PointMul: stated along the bits of the multiplier, doubling and adding, and not as the k-fold sum, which is the same point only by the associativity of the group law.
- Crc: words are bit sequences, so the integer types of the language appear only through their size.
- AddressRange: page helpers, distances, intersections, and containment tests whose direction the comment and the code describe differently.
- Base57: text is a sequence of characters and the error path returns no bytes, as in the code.
- GatherStream: files have fixed contents and deliver every byte they hold; statistics, writing and truncation are left out.
- Everything else in the emulator: processors, graphics, audio, file formats, configuration and the user interface.
