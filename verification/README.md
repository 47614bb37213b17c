# Verified models of the native helpers of mika-audio

This project models, in Dafny 4.11, the algorithms of the server's native code that have loops,
in-place updates or concurrency, and proves properties of them.

| files | what they model |
|---|---|
| `Words.dfy` | 32-bit words: bits, or, and, complement, wrapping addition |
| `Atomics.dfy`, `AtomicRefinement.dfy`, `AtomicProgress.dfy`, `AtomicConservation.dfy` | any number of threads running the load and compare-and-swap loops of `atomic-arm64.h`, as a step machine |
| `AtomicLoop.dfy` | the retry loop as code, run in the middle of arbitrary interference |
| `Aref.dfy`, `ArefCode.dfy` | the reference count of `aref.h` on top of that machine, as a protocol and as code |
| `ListRing.dfy` | the intrusive circular list of `list.h`, on heap nodes |
| `Bitops.dfy` | the bitmask allocator of `bitops.h`, on an array of words |
| `Screen.dfy` | the RGBA8888 to RGB565 conversion of `Screen.cpp` |

Conventions.

- Integers are unbounded in Dafny, so widths are explicit. An `int32_t` cell is its 32-bit pattern
  and additions wrap modulo 2^32; `uint32_t` arithmetic in the frame conversion wraps the same way.
- Memory is sequentially consistent: a load and a `__sync_val_compare_and_swap` are one step each,
  and barriers are not steps. `since`, `seen`, `at`, `fails`, `mark` and the log are history
  variables; no step of a thread depends on them.
- In `AtomicLoop.dfy` and `ArefCode.dfy` the other threads are an input: bursts of their steps, one
  before each access to the cell and one before the call returns. A burst that can be carried out is
  carried out in full; a step that its thread cannot take is skipped. In `ArefCode.dfy` the release
  callback is the field `released`, which counts its runs.
- A reference of `aref.h` is held by one thread and may be handed to another; `aref_get` and a look at
  the count need one, `aref_put` gives one up when it is called.
- List methods take the sequence of ring nodes as a ghost argument; `RingUnique` shows that the heap
  determines it. The loop bodies of the traversal macros are parameters: collect, remove, or move.
- The screenshot client is an input of `UpdateFrame`: its status, its stride and its bytes.

Two results go beyond confirming the code. The reference count is safe exactly up to 2^32 references
at a time under wrap-around (`LimitIsExact`), and the frame cursor agrees with the two-dimensional
layout exactly when the frame size and the last source address are below 2^32
(`CursorFollowsLayoutIffFits`); no condition on the stride is needed.

## Model

| member | source | states |
|---|---|---|
| Atomics.StepKeepsInv | server/app/src/main/jni/include/cutils/atomic-arm64.h:108-154 | every step of every thread keeps: the cell is the replay of the linearised calls, every logged result is that of an indivisible operation, every loaded value was the contents at its load, failures are covered by others' entries |
| Atomics.RunKeepsInv | server/app/src/main/jni/include/cutils/atomic-arm64.h:108-154 | the same over whole runs, any number of threads and calls |
| Atomics.FailedCasHasWriter | server/app/src/main/jni/include/cutils/atomic-arm64.h:113-116 | a compare-and-swap fails only if, since this thread's load, another thread's call has changed the cell |
| AtomicRefinement.LoopsRefineAtomicOps | server/app/src/main/jni/include/cutils/atomic-arm64.h:108-154 | every interleaving of the loops has the calls and results of a run in which each call is one indivisible step, including when the cell changed and changed back |
| AtomicRefinement.AtomicOpsRealisedByLoops | server/app/src/main/jni/include/cutils/atomic-arm64.h:108-154 | conversely every run of indivisible operations is observable of the loops |
| AtomicRefinement.SameBehaviours | server/app/src/main/jni/include/cutils/atomic-arm64.h:108-154 | the two machines have exactly the same call and return sequences |
| AtomicRefinement.ResultIsFromItsOwnPoint | server/app/src/main/jni/include/cutils/atomic-arm64.h:108-118 | in every reachable state a call about to return has one point of effect, after its invocation, and returns what the indivisible operation returns on the contents there |
| AtomicRefinement.EachCallDoesItsJob | server/app/src/main/jni/include/cutils/atomic-arm64.h:55-154 | in every reachable state a call about to return has, at its own point: for add, and, or returned the contents found and left their sum modulo 2^32, conjunction or disjunction; for a conditional write returned 0 exactly when it found `expected`, and only then left `replacement`; for a write left its value; for a read returned the contents and left them |
| AtomicRefinement.TraceOneMore | server/app/src/main/jni/include/cutils/atomic-arm64.h:108-154 | what callers observe is every invocation and every return with its result, in the order in which they happen |
| AtomicProgress.FailsPaidByOthers | server/app/src/main/jni/include/cutils/atomic-arm64.h:113-116 | a thread's failures never exceed the other threads' writes, that is, their linearised calls that changed the cell; looks at the cell, failed conditional writes and writes of the same value do not count |
| AtomicProgress.TotalFailsBound | server/app/src/main/jni/include/cutils/atomic-arm64.h:113-116 | all failures together are at most n - 1 per write |
| AtomicProgress.StepsBounded | server/app/src/main/jni/include/cutils/atomic-arm64.h:108-154 | under every schedule a run of n threads takes at most 2n + 2 steps per invocation |
| AtomicProgress.StuckOnlyWhenDone | server/app/src/main/jni/include/cutils/atomic-arm64.h:108-154 | some unfinished call can always take a step, so a run that cannot be continued has returned all calls |
| AtomicConservation.EveryCallTakesEffectOnce | server/app/src/main/jni/include/cutils/atomic-arm64.h:108-154 | when all calls have returned, each operation is in the log as often as it was invoked |
| AtomicConservation.AdditionsConserved | server/app/src/main/jni/include/cutils/atomic-arm64.h:108-130 | at every reachable state the cell is the initial value plus the increments linearised so far, modulo 2^32 |
| AtomicConservation.AdditionsIndependentOfSchedule | server/app/src/main/jni/include/cutils/atomic-arm64.h:108-130 | two completed runs with the same additions end with the same contents, whatever the threads and schedules |
| AtomicConservation.OrsIndependentOfSchedule | server/app/src/main/jni/include/cutils/atomic-arm64.h:144-154 | the final bits are the initial ones and those of all masks, in any schedule |
| AtomicConservation.AndsIndependentOfSchedule | server/app/src/main/jni/include/cutils/atomic-arm64.h:132-142 | the final bits are the initial ones kept by every mask, in any schedule |
| AtomicConservation.OrsGiveSameContents | server/app/src/main/jni/include/cutils/atomic-arm64.h:144-154 | two completed runs with the same or-s end with the same contents |
| AtomicConservation.AndsGiveSameContents | server/app/src/main/jni/include/cutils/atomic-arm64.h:132-142 | two completed runs with the same and-s end with the same contents |
| AtomicConservation.SetBitsNeverRevert | server/app/src/main/jni/include/cutils/atomic-arm64.h:144-154 | a bit set in a reachable state of a run of or-s is set in every later one |
| AtomicConservation.ExactlyOneFirstSetter | server/app/src/main/jni/include/cutils/atomic-arm64.h:144-154 | of the calls setting an initially clear bit exactly one gets a previous value with it clear |
| AtomicLoop.SharedCell.FetchAndOp | server/app/src/main/jni/include/cutils/atomic-arm64.h:108-154 | the loop as code: a run of the machine, terminating for every finite interference, with one entry of its own whose contents before it are the result; it loads at most once more than others changed the cell meanwhile. Of every schedule of bursts and passes that can be carried out it takes exactly those steps and passes, and the result is the contents at the load of its last pass |
| AtomicLoop.SharedCell.AtomicInc | server/app/src/main/jni/include/cutils/atomic-arm64.h:120-124 | the increment is the addition of one: all that is stated of the loop, for that operation |
| AtomicLoop.SharedCell.AtomicDec | server/app/src/main/jni/include/cutils/atomic-arm64.h:126-130 | the decrement is the addition of minus one: all that is stated of the loop, for that operation |
| AtomicLoop.DisturbedBeforeLoad | server/app/src/main/jni/include/cutils/atomic-arm64.h:113-116 | whatever the others do before the load, one pass is enough, and it works on the contents they leave |
| AtomicLoop.DisturbedAfterLoad | server/app/src/main/jni/include/cutils/atomic-arm64.h:113-116 | whatever the others do between load and compare-and-swap, a second pass is made if and only if they leave other contents, and the call works on those |
| AtomicLoop.AdditionForcesRetry | server/app/src/main/jni/include/cutils/atomic-arm64.h:108-118 | another thread's addition of an amount other than 0 modulo 2^32 at that place is such a case: two passes |
| Aref.CountIsOutstanding | server/app/src/main/jni/include/cutils/aref.h:39-58 | in every run the cell holds the number of outstanding references modulo 2^32; with fewer than 2^31 it is that number, and positive while one is held |
| Aref.CountReturnsOutstanding | server/app/src/main/jni/include/cutils/aref.h:44-47 | a look at the count changes nothing and returns the number of references outstanding at that moment modulo 2^32; with fewer than 2^31, that number, which is positive |
| Aref.ReleasedExactlyOnce | server/app/src/main/jni/include/cutils/aref.h:54-58 | for every interleaving within 2^32 references: the callback runs at most once, never while a reference is outstanding, and at rest it has run exactly when none is left |
| Aref.ReleaserDroppedTheLast | server/app/src/main/jni/include/cutils/aref.h:54-58 | the callback is run by the put whose decrement is the last effect on the count |
| Aref.NoAccessAfterRelease | server/app/src/main/jni/include/cutils/aref.h:54-58 | after the callback no thread can touch the count or begin a call, and no continuation releases again |
| Aref.LimitIsExact | server/app/src/main/jni/include/cutils/aref.h:34-58 | the protocol is safe for a limit on simultaneous references if and only if the limit is at most 2^32 |
| Aref.WrappedCountReleasesEarly | server/app/src/main/jni/include/cutils/aref.h:49-58 | the witness: with 2^32 + 1 references a put releases while 2^32 are held |
| Aref.CallsFinish | server/app/src/main/jni/include/cutils/aref.h:44-58 | gets, puts and counts take a bounded number of steps under every schedule |
| ArefCode.SharedAref.Init | server/app/src/main/jni/include/cutils/aref.h:39-42 | the count starts with the creator's one reference |
| ArefCode.SharedAref.ArefGet | server/app/src/main/jni/include/cutils/aref.h:49-52 | under arbitrary interference one increment takes effect, the run ends with the call's return, and that return gives the caller exactly one reference more and runs no callback; undisturbed, one reference more is outstanding; every schedule that can be carried out is carried out step by step |
| ArefCode.SharedAref.ArefPut | server/app/src/main/jni/include/cutils/aref.h:54-58 | under arbitrary interference, also between the decrement and the callback: one decrement takes effect; the callback runs exactly when it found one, exactly when it is the last effect on the count and no reference is left; the return adds one callback in that case and none otherwise; undisturbed, exactly when one reference was outstanding; every schedule that can be carried out is carried out step by step |
| ArefCode.SharedAref.ArefCount | server/app/src/main/jni/include/cutils/aref.h:44-47 | under arbitrary interference the result is the number of references outstanding, modulo 2^32, at one point during the call; undisturbed, at its beginning; the count and the references stay as they are |
| ArefCode.BelowLimitCanRun | server/app/src/main/jni/include/cutils/aref.h:49-58 | every allowed run with fewer than 2^32 references is a schedule that can be carried out around any thread's call |
| ArefCode.RacingPuts | server/app/src/main/jni/include/cutils/aref.h:54-58 | one put between the load and the compare-and-swap of another is such a schedule, and the other needs exactly two passes |
| ListRing.ListInit | server/app/src/main/jni/include/cutils/list.h:52-56 | a node becomes a ring of its own |
| ListRing.ListAddTail | server/app/src/main/jni/include/cutils/list.h:58-64 | the ring s becomes s + [x], writing only x, the head and the old last node |
| ListRing.ListAddHead | server/app/src/main/jni/include/cutils/list.h:66-72 | the contents s become [x] + s |
| ListRing.ListRemove | server/app/src/main/jni/include/cutils/list.h:74-78 | the ring loses exactly that node, writing only its neighbours |
| ListRing.RingUnique | server/app/src/main/jni/include/cutils/list.h:26-30 | the links determine the sequence of nodes |
| ListRing.WithIsRing | server/app/src/main/jni/include/cutils/list.h:58-72 | links led through a new node anywhere make a well-formed ring |
| ListRing.WithoutIsRing | server/app/src/main/jni/include/cutils/list.h:74-78 | links led past a node anywhere make a well-formed ring |
| ListRing.ListEmpty | server/app/src/main/jni/include/cutils/list.h:80-80 | true exactly for a ring of the head alone |
| ListRing.ForEach | server/app/src/main/jni/include/cutils/list.h:41-42 | terminates and visits the contents in order |
| ListRing.ForEachReverse | server/app/src/main/jni/include/cutils/list.h:44-45 | terminates and visits the exact reverse |
| ListRing.ForEachSafeRemove | server/app/src/main/jni/include/cutils/list.h:47-50 | with a body that may remove the current node: visits every original element once in order, and leaves a ring of the kept ones in order |
| ListRing.ForEachSafeMove | server/app/src/main/jni/include/cutils/list.h:47-78 | with a body that may move the current node to a disjoint ring: both rings well formed and in order, nothing lost or duplicated |
| ListRing.MoveToTail | server/app/src/main/jni/include/cutils/list.h:58-78 | removing from one ring and appending to a disjoint one conserves the combined multiset and leaves a third ring as it was |
| ListRing.SelectMembers | server/app/src/main/jni/include/cutils/list.h:47-50 | the kept, or moved, elements are exactly the original ones outside, or inside, the chosen set |
| ListRing.ReversedAt | server/app/src/main/jni/include/cutils/list.h:44-45 | position by position, the reverse traversal mirrors the forward one |
| ListRing.SelectPartitions | server/app/src/main/jni/include/cutils/list.h:47-50 | kept and moved elements together are the original ones |
| ListRing.RunScript | server/app/src/main/jni/include/cutils/list.h:41-82 | any valid run of additions and removals refines the run on sequences; as many elements are handed out, and left, as counting from the initial size says; the two traversals of the result are reverses; as a queue it is first-in first-out |
| ListRing.Fifo | server/app/src/main/jni/include/cutils/list.h:58-82 | with additions at the tail and removals at the head, what was taken followed by what is left is what was there followed by what was added |
| ListRing.SizesAddUp | server/app/src/main/jni/include/cutils/list.h:58-82 | what is handed out is one element for each removal at the head that meets a non-empty list, and what is left is the initial size plus additions minus removals |
| ListRing.Lifo | server/app/src/main/jni/include/cutils/list.h:66-82 | with additions and removals at the head: after adding an element and a run that takes back just what it added, the next removal hands out that element and leaves the list as it was |
| ListRing.RemoveTakesOut | server/app/src/main/jni/include/cutils/list.h:74-78 | a removed element is gone, and the others stay in their order |
| Bitops.BitmaskInit | server/app/src/main/jni/include/cutils/bitops.h:54-57 | exactly the words that begin below the bit count become zero, all others stay; no member is left and the padding is clear |
| Bitops.BitmaskFfz | server/app/src/main/jni/include/cutils/bitops.h:59-76 | the least clear bit below the count, or -1 exactly when there is none, whatever the padding bits hold |
| Bitops.BitmaskWeight | server/app/src/main/jni/include/cutils/bitops.h:78-86 | the number of set bits in the words that begin below the bit count; with clear padding the number of members |
| Bitops.BitmaskSet | server/app/src/main/jni/include/cutils/bitops.h:88-91 | adds exactly that bit, in any prefix of the mask |
| Bitops.BitmaskClear | server/app/src/main/jni/include/cutils/bitops.h:93-96 | removes exactly that bit |
| Bitops.BitmaskTest | server/app/src/main/jni/include/cutils/bitops.h:98-101 | is membership |
| Bitops.BitsToWords | server/app/src/main/jni/include/cutils/bitops.h:49-49 | the least number of words that holds the bits: their capacity is at least the bit count and less than 32 above it |
| Bitops.WithBitMembers | server/app/src/main/jni/include/cutils/bitops.h:88-91 | or-ing the mask into its word adds one member and changes no other, across words |
| Bitops.WithoutBitMembers | server/app/src/main/jni/include/cutils/bitops.h:93-96 | and-ing the complemented mask removes one member and changes no other |
| Bitops.CountIsCardinality | server/app/src/main/jni/include/cutils/bitops.h:78-86 | counting bits is the cardinality of the set |
| Bitops.PopcountCounts | server/app/src/main/jni/include/cutils/bitops.h:103-106 | the halving population count is the number of set bits of the word |
| Bitops.FfzExhaustedIffWeightFull | server/app/src/main/jni/include/cutils/bitops.h:59-86 | with clear padding, -1 from the first scan if and only if the weight is the bit count |
| Bitops.WeightFitsInt | server/app/src/main/jni/include/cutils/bitops.h:78-86 | the accumulator fits an `int` except when all 2^31 bits of the largest mask are set |
| Bitops.RunOps | server/app/src/main/jni/include/cutils/bitops.h:54-101 | any run of init, set and clear on valid bits refines a set: members, weight, first free bit, clear padding, other words |
| Bitops.ReplayMembers | server/app/src/main/jni/include/cutils/bitops.h:54-96 | a bit is in that set exactly when some operation sets it and no later one clears it or resets the mask |
| Bitops.Acquire | server/app/src/main/jni/include/cutils/bitops.h:33-46 | the header's protocol never hands out a resource in use and fails only when all are |
| ScreenFrame.Screen.InitDisplay | server/app/src/main/jni/frame/Screen.cpp:4-15 | sizes are stored, also when no display is found, and the frame size is twice their product modulo 2^32 |
| ScreenFrame.Screen.UpdateFrame | server/app/src/main/jni/frame/Screen.cpp:17-43 | on error nothing is changed; else each byte below the frame size is written once and no other, each pixel below the frame size is converted from its cursor, and when frame size and last address are below 2^32, the two bytes of every (column, row) are the green and blue bits, and the red and green bits, of the three source bytes at 4 * (row * stride + column) |
| ScreenFrame.Screen.ConvertPixels | server/app/src/main/jni/frame/Screen.cpp:26-40 | the loop ends with the index at the frame size, having made the two bytes of every pixel from the three source bytes at its incremental cursor |
| ScreenFrame.CursorFollowsLayoutIffFits | server/app/src/main/jni/frame/Screen.cpp:22-39 | for all widths, heights and strides the incremental cursor is the two-dimensional address throughout if and only if frame size and last address are below 2^32 |
| ScreenFrame.CursorInRange | server/app/src/main/jni/frame/Screen.cpp:27-39 | at each row and column the cursor is (row * stride + column) * 4 |
| ScreenFrame.CursorRecurrence | server/app/src/main/jni/frame/Screen.cpp:22-39 | whether or not the sizes fit, the cursor begins at zero, goes on by 4, and at each row start not reached as zero by the padding of 4 * (stride - width) more, all modulo 2^32 |
| ScreenFrame.PaddedStrideFits | server/app/src/main/jni/frame/Screen.cpp:22-22 | for a stride of at least the width the last address alone decides |
| ScreenFrame.NoDivisionByZero | server/app/src/main/jni/frame/Screen.cpp:7-28 | whenever the loop runs, the divisor of its modulo test is not zero, even after wrapping |
| ScreenFrame.ChannelsDoNotWrap | server/app/src/main/jni/frame/Screen.cpp:31-33 | the cursor is a multiple of four, so the channel reads are three neighbouring bytes |
| ScreenFrame.PackBytes | server/app/src/main/jni/frame/Screen.cpp:31-37 | the first byte is the lower green bits above the blue ones, the second the red bits above the upper green ones, as masks and shifts of the source bytes |
| ScreenFrame.PackThenUnpack | server/app/src/main/jni/frame/Screen.cpp:31-37 | the two little-endian bytes decode to the upper 5, 6 and 5 bits of the colours |
| ScreenFrame.ColourOfBytes | server/app/src/main/jni/frame/Screen.cpp:31-37 | the two bytes and the upper 5, 6 and 5 bits of the colours are functions of each other |
| ScreenFrame.FrameDependsOnVisibleColours | server/app/src/main/jni/frame/Screen.cpp:27-40 | two converted frames are equal if and only if the visible upper colour bits are: padding, alpha and low bits never matter |
| ScreenFrame.CursorDeterminesFrame | server/app/src/main/jni/frame/Screen.cpp:26-40 | whether or not the sizes fit, the converted bytes depend only on the current screenshot and the sizes, not on earlier frames |

## Left out

- The barriers and the assembly of the other architectures: the machine interleaves sequentially consistent steps.
- Signed overflow of `prev + increment`, undefined in C, is taken to wrap, as the compare-and-swap hardware does.
- ScreenFrame.Screen.UpdateFrame: requires that the screenshot holds every byte the loop reads and the frame every byte it writes, which the C++ code does not check (`BufferSuffices` gives the sufficient size); its loop, loop body and row test are methods of their own here.
- ArefCode.SharedAref.ArefPut: the callback's own effects are not modelled; a get begins below 2^32 references and a put at no more, and the interference in this file does not raise them to 2^32 (`Aref.dfy` has runs without that limit).
- `Screen`: the screenshot client, the display token and the crop rectangle are inputs or absent, and so are the JNI functions of `Frame.cpp`.
- `list_declare`, `node_to_item` and `AREF_TO_ITEM`: static initialisation and pointer arithmetic; a node stands for its item.
- `list_for_each` with a body that changes links: only the safe macro is stated for such bodies.
- `BIT_MASK` of bit 31: the signed shift is taken as the unsigned mask that is meant.
- `popcountl` and `popcountll`: the same function on wider words.
- Headers that only declare operations, and hardware, trace, socket and thread headers: no algorithm to model.
