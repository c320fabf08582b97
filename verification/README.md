# Models of the base library and the proxy's algorithms

The repository is a media-conference proxy on top of a copy of the Android base library.
This project models the algorithms under it whose correctness is not plain from the code
and proves what they are for. Sockets, threads and files appear only as the atomic steps,
flags, clock readings, random numbers and read sizes that the algorithms meet.

- **Reference counting** (`RefBase.dfy`): a transition system with one program counter per
  thread and one step per atomic operation. For every interleaving of any number of threads
  the object and its weakref_impl are destroyed at most once, in order, never used afterwards,
  and exactly once when the references are gone.
- **Looper** (`Looper.dfy`): senders, the poll thread, the lock, the wake pipe and the clock as
  a transition system. No wake-up is lost, including the sends that skip wake(); messages are
  conserved and delivered in order, never early, and each pass hands out all that is due.
- **Calendar** (`Gregorian.dfy`, `TimeSub.dfy`, `MkTime.dfy`, `TransTime.dfy`): timesub computes
  the one Gregorian date of an instant, time2sub inverts it for any fields in or out of range,
  and transtime finds the day a TZ rule (section 8.3 of POSIX.1) means.
- **BasicHashtable** (`Probing.dfy`, `BasicHashtable.dfy`): the probe sequence is a full cycle,
  find finds exactly what is there, repeated find enumerates the matches, and growing and
  removing keep it so.
- **Pool allocator** (`PoolAllocator.dfy`): live and free blocks tile the chunk after every call, and
  a block handed out is first fit and no larger than it must be.
- **cJSON** (`CJson.dfy`, `CJsonGrammar.dfy`, `CJsonEscapes.dfy`, `CJsonCursor.dfy`,
  `CJsonBuffers.dfy`): the parser and printers as functions on text, the source's cursor loops and
  buffer writers proved against them, the round trip for every tree, the meaning of every text of the
  grammar (sections 2 to 8 of RFC 8259) in any spelling, and what malformed escapes do.
- **LinearTransform** (`LinearTransform.dfy`): 96-bit multiply and divide, exact failure conditions,
  error of going there and back, reduction to lowest terms.
- **BlobCache** (`SortedVector.dfy`, `BlobCache.dfy`, `BlobFlatten.dfy`): a sorted map with a byte
  budget and random eviction, and its serialised form.
- **UTF conversion** (`Utf.dfy`), **record_stream** (`RecordStream.dfy`), **open_memstream**
  (`MemStream.dfy`), **VectorImpl over SharedBuffer** (`SharedVector.dfy`, `StableSort.dfy`,
  `VectorImpl.dfy`) and **TimedEventQ** (`Timers.dfy`), each against the simple thing it stands for.

Where a promise of the documentation or a natural reading of the code is false, there is a failing
case and the exact condition: messages further away than the longest timeout (Looper), weekdays
and mktime in the lowest years an int can hold (calendar), an add to a table that was emptied
(BasicHashtable), malformed escapes and a formatted empty object at depth 0 (cJSON), pairs above
half the budget and truncated files (BlobCache), boundary sums refused (LinearTransform), a
misaligned chunk (pool allocator), empty writes (open_memstream), an item of the vector's own
buffer (VectorImpl). For RefBase each client rule has lemmas that show what goes wrong from every
state in which it is broken; that the rules are the weakest possible ones is not claimed.

Some comments disagree with their code and the code is followed: record_stream's header comment
says 16-bit lengths (the code reads 32 bits), BlobCache.h says that every pair within the limits
is stored, and unflatten says that every error leaves an empty cache.

## Model

| member | source | states |
|---|---|---|
| RefBase.InitInv | system/libutils/RefBase.cpp:548-551 | the counting invariant holds after construction |
| RefBase.StepPreserves | system/libutils/RefBase.cpp:328-499 | every atomic step of every operation, by any thread, keeps the counting invariant |
| RefBase.RunKeepsInv | system/libutils/RefBase.cpp:328-499 | the invariant holds after every allowed run of any number of threads |
| RefBase.EveryRunIsSafe | system/libutils/RefBase.cpp:328-499 | in every state reachable under the client rules: at most one deletion of object and of weakref_impl, in that order, no step uses either afterwards, both counters inside 32 bits |
| RefBase.DeathIsFinal | system/libutils/RefBase.cpp:438-499 | once the last strong reference is gone no promotion succeeds in any continuation |
| RefBase.DeathHappensAtOneToZero | system/libutils/RefBase.cpp:347-363 | the object dies exactly in the step that takes mStrong from 1 to 0 |
| RefBase.PromotionFailsOnlyWhenDead | system/libutils/RefBase.cpp:438-499 | every step of a promotion: it gives up if and only if it reads the count after the last strong reference is gone; it ends if and only if the count is still the one it read, with one more reference for this thread and the count one larger; otherwise, a lost compare-and-exchange included, it goes on |
| RefBase.PromotionEndsWell | system/libutils/RefBase.cpp:438-499 | over every allowed run a promotion is still under way, or it ended in a step of its own: with a strong reference on a living object, or because the object was dead |
| RefBase.QuiescentMeansDestroyedOnce | system/libutils/RefBase.cpp:406-436 | when no thread holds or handles a reference, object and weakref_impl have each been destroyed exactly once, after strong references and also if there only ever were weak ones |
| RefBase.EarlyPromotionIsUnsafe | system/libutils/RefBase.cpp:438-499 | from every state of an allowed run in which the idle creator still has the bare pointer, a promotion begun by another thread has an unsafe continuation |
| RefBase.TwoPromotionsAreUnsafe | system/libutils/RefBase.cpp:438-499 | the same for two promotions at a time once only weak references are left |
| RefBase.DroppingTheLastWeakIsUnsafe | system/libutils/RefBase.cpp:406-436 | the same for dropping the last weak reference while the bare pointer is in use |
| RefBase.PromotionBeforeFirstStrongIsUnsafe | system/libutils/RefBase.cpp:438-499 | a concrete run from construction after which a thread owns a strong reference to a deleted object |
| Looper.FindPosition | system/libutils/Looper.cpp:499-509 | the search loop finds the place behind every message due no later |
| Looper.PositionSplits | system/libutils/Looper.cpp:499-509 | in a sorted queue that place separates the messages due no later from those due later |
| Looper.RemoveMessages | system/libutils/Looper.cpp:526-560 | the backwards loop keeps exactly the messages that do not match, in order |
| Looper.KeepAndDroppedSplit | system/libutils/Looper.cpp:526-560 | kept and removed messages together are the queue |
| Looper.KeepIsExact | system/libutils/Looper.cpp:526-560 | message by message: removed are exactly those of the handler, of the given kind if one is given |
| Looper.WaitEndsInTime | system/libutils/Timers.cpp:58-73 | a wait ends less than a millisecond after the next message is due if and only if the caller set an early limit or the message is at most the longest delay away |
| Looper.FarMessageGetsNoTimeout | system/libutils/Timers.cpp:58-73 | a message further away makes a poll without timeout wait without limit |
| Looper.StepPreserves | system/libutils/Looper.cpp:193-308 | every step of the poll thread or of a sender keeps the mutual exclusion, order, conservation, wake-up and pass invariants |
| Looper.RunKeepsInv | system/libutils/Looper.cpp:193-308 | they hold after every interleaving |
| Looper.NoLostWakeup | system/libutils/Looper.cpp:193-308 | whenever the poll thread is about to wait or waiting, the head is waited for in time, or the pipe is readable, or a wake() is still to come; includes sends that skip wake() because of mSendingMessage |
| Looper.SendAtHeadWakes | system/libutils/Looper.cpp:492-524 | a message sent at the head while the poll thread waits leaves a wake-up behind |
| Looper.DeliveryIsOrdered | system/libutils/Looper.cpp:271-308 | no early delivery, delivery by due time and then insertion, and every message is queued, delivered or removed exactly once |
| Looper.DueHeadIsHandedOut | system/libutils/Looper.cpp:271-308 | one round of the message loop hands out exactly the head, at the clock just read, if it is due; otherwise the loop ends and nothing queued is due |
| Looper.PassHandlesAllDue | system/libutils/Looper.cpp:271-308 | in every run, when a pass over the queue ends, each message ever sent that was due at its last clock reading, taken after the wait, has been delivered or removed |
| Looper.WakesAreConsumed | system/libutils/Looper.cpp:360-387 | in every run, polls ended by a wake-up and the byte still in the pipe never outnumber the calls of wake() |
| Looper.SendWakesExactly | system/libutils/Looper.cpp:492-524 | a sender calls wake() if and only if its message went to the head of the queue and no message is being handled |
| Gregorian.LeapsThruEndOf | system/libcutils/tztime.c:1391-1397 | the reflected, truncating C formula is the floored count of leap years for every year |
| Gregorian.DaysBeforeStep | system/libcutils/tztime.c:1462-1465 | the day formula adds up the lengths of the years |
| Gregorian.SecondsAreOrdered | system/libcutils/tztime.c:1643-1657 | dates in field order have increasing second counts |
| Gregorian.CivilIsUnique | system/libcutils/tztime.c:1400-1531 | a second count determines the in-range date |
| TimeSub.IncrementOverflow | system/libcutils/tztime.c:1579-1594 | the unsigned addition and comparison detect exactly the sums that are no int |
| TimeSub.JumpStep | system/libcutils/tztime.c:1453-1466 | one jump moves towards the year of the day, by at least one year and never past it |
| TimeSub.JumpToYear | system/libcutils/tztime.c:1444-1467 | the loop ends for every day in both directions and fails exactly if the year is INT_MIN, where a subtraction wraps, or no int |
| TimeSub.CarryDays | system/libcutils/tztime.c:1479-1487 | the two loops bring the seconds into one day and keep the instant |
| TimeSub.CarryYears | system/libcutils/tztime.c:1488-1500 | the two loops bring the day into one year, failing only if that year is no int |
| TimeSub.FindMonth | system/libcutils/tztime.c:1522-1525 | the month loop finds the month and day of the month of a day of the year |
| TimeSub.WdayOf | system/libcutils/tztime.c:1505-1513 | the formula with C remainders and an int difference that may wrap is the weekday of the day number, or four days off when it wraps |
| TimeSub.WeekdayIsRightExactly | system/libcutils/tztime.c:1505-1513 | the weekday is right if and only if the year is at least INT_MIN + 1970 |
| TimeSub.Convert | system/libcutils/tztime.c:1400-1531 | timesub succeeds exactly on the representable times and fills in the one in-range date with that second count and its day of the year; its weekday is right exactly from tm_year INT_MIN + 70 on |
| MkTime.NormalizeOverflow | system/libcutils/tztime.c:1613-1641 | units end in 0..base-1 with the sum kept; overflow is reported exactly when the tens are no int |
| MkTime.NormalizeDate | system/libcutils/tztime.c:1699-1721 | the three loops bring the day of the month into range and keep the day number |
| MkTime.NormalizeFields | system/libcutils/tztime.c:1680-1726 | succeeds exactly when no carry leaves int, and the fields denote the same second count |
| MkTime.TmCompSign | system/libcutils/tztime.c:1643-1657 | comparing fields is comparing second counts, as long as the difference of the years is an int |
| MkTime.TmCompWraps | system/libcutils/tztime.c:1648-1650 | otherwise the sign is the opposite one |
| MkTime.FailureIsExtreme | system/libcutils/tztime.c:1769-1775 | where timesub fails every representable time lies towards the Epoch, as the code assumes |
| MkTime.Probe | system/libcutils/tztime.c:1764-1776 | the direction computed at a probe is the side on which the sought time lies, if timesub fails there or the years can be compared, and the other side if they cannot |
| MkTime.Search | system/libcutils/tztime.c:1757-1795 | the search over all of time_t terminates and finds the time if and only if it exists and its tm_year is at least that of the first probe, t = -1, minus INT_MAX |
| MkTime.SaveSeconds | system/libcutils/tztime.c:1727-1745 | seconds out of range are set aside so that the sum is kept; fails exactly if what is set aside is no int |
| MkTime.FindTime | system/libcutils/tztime.c:1727-1837 | from normalised fields: the result is their second count minus the offset; exactly when the search finds the time without the seconds set aside and the sum is a time_t |
| MkTime.Time2Sub | system/libcutils/tztime.c:1659-1842 | a result with okay set is the time the fields denote, whatever is out of range, and shows the tm_isdst the caller asked for if that was 0 or more; success is characterised exactly, for seconds of any size; a failure leaves the fields but perhaps tm_year and tm_isdst alone |
| MkTime.MkTimeOfShown | system/libcutils/tztime.c:1659-1842 | mktime of the fields timesub made from t returns t with okay set if and only if the year shown is in reach of the search |
| MkTime.LowestYearIsOutOfReach | system/libcutils/tztime.c:1643-1657 | the first second of the lowest year shown in UTC is not: an input on which mktime does not invert localtime |
| TransTime.Zeller | system/libcutils/tztime.c:878-889 | the congruence gives the weekday of the first of the month that the calendar's own day count gives, for every year from 1 |
| TransTime.NthWeekdayIsUnique | system/libcutils/tztime.c:870-873 | at most one day is the nth (or last) such weekday of a month |
| TransTime.NthInMonth | system/libcutils/tztime.c:891-904 | the loop ends on the nth such weekday, or on the last one for week 5 |
| TransTime.JulianDate | system/libcutils/tztime.c:848-859 | Jn names the same month and day in leap and common years |
| TransTime.Transition | system/libcutils/tztime.c:832-920 | each of the three rule forms gives local time on the day it means |
| TransTime.ShowTransitionDay | system/libcutils/tztime.c:870-919 | timesub shows that day, for every int year from 1, with the rule's month and weekday |
| Probing.TrimHash | system/include/utils/BasicHashtable.h:119-121 | a 30-bit hash code |
| Probing.ProbeIsLinear | system/include/utils/BasicHashtable.h:126-141 | step k of the probe is start + k * increment modulo the count |
| Probing.NoSmallMultiple | system/libutils/BasicHashtable.cpp:285-318 | a prime divides no product of two smaller positive numbers |
| Probing.ProbeIsInjective | system/libutils/BasicHashtable.cpp:109-146 | no bucket is met twice within count steps |
| Probing.ProbeReachesAll | system/libutils/BasicHashtable.cpp:109-146 | every bucket is met within count steps |
| BasicHashtable.Find | system/libutils/BasicHashtable.cpp:109-146 | terminates and returns the first match after the step it resumes from, or -1 if and only if there is none; the index returned can be resumed from |
| BasicHashtable.FindAll | system/libutils/BasicHashtable.cpp:109-146 | the loop that calls find from the last index until -1 terminates and returns every matching bucket, each exactly once |
| BasicHashtable.EachMatchOnce | system/libutils/BasicHashtable.cpp:109-146 | a chain of first matches that ends with none lists each matching bucket exactly once |
| BasicHashtable.FindVacant | system/libutils/BasicHashtable.cpp:148-168 | the probing loop stops at a vacant bucket and marks exactly the occupied ones it passed |
| BasicHashtable.FillKeeps | system/libutils/BasicHashtable.cpp:168-181 | storing there keeps every entry reachable along collided buckets and the counts right |
| BasicHashtable.ReachableIsKept | system/libutils/BasicHashtable.cpp:184-196 | a change that keeps collision flags and adds no entry keeps all entries reachable |
| BasicHashtable.RemovedTableOk | system/libutils/BasicHashtable.cpp:184-196 | clearing PRESENT and leaving COLLISION keeps the table's invariant and removes one entry |
| BasicHashtable.Rebuild | system/libutils/BasicHashtable.cpp:198-239 | the copying loop moves every entry, as a multiset, into a reachable place |
| BasicHashtable.DetermineCapacity | system/libutils/BasicHashtable.cpp:320-336 | the smallest bucket count of the table that holds the capacity with a free bucket, and the number of buckets that may be filled; none exactly if the table has no such count, where the code reads past it |
| BasicHashtable.Hashtable.constructor | system/libutils/BasicHashtable.cpp:27-33 | an empty valid table |
| BasicHashtable.Hashtable.FindIndex | system/libutils/BasicHashtable.cpp:109-146 | succeeds if and only if an entry with the key is present |
| BasicHashtable.Hashtable.Add | system/libutils/BasicHashtable.cpp:148-182 | runs into a null mBuckets exactly when buckets are allocated, the table is empty, its filled count has reached the capacity and the first bucket of the hash code has no collision flag (while there is a larger count); finds no capacity exactly when it has to grow and cannot; otherwise the entries gain exactly the new one |
| BasicHashtable.RunIntoNull | system/libutils/BasicHashtable.cpp:148-236 | a run of add and removeAt from construction that ends in the null pointer |
| BasicHashtable.Hashtable.TryAdd | system/libutils/BasicHashtable.cpp:154-181 | one round of add: gives up exactly at the load limit with an unflagged bucket, and otherwise stores the entry where the probing loop ends |
| BasicHashtable.Hashtable.RemoveAt | system/libutils/BasicHashtable.cpp:184-196 | the entries lose exactly that one, the bucket keeps its collision flag, no other changes |
| BasicHashtable.Hashtable.Rehash | system/libutils/BasicHashtable.cpp:198-239 | the entries stay the same multiset; the new count is the smallest of the table that holds the capacity; valid afterwards |
| BasicHashtable.Hashtable.Next | system/libutils/BasicHashtable.cpp:97-107 | the next occupied bucket, or -1 if none follows |
| PoolAllocator.TilesAreDisjoint | libckits/myAlloc.c:84-287 | different blocks of the row share no byte |
| PoolAllocator.SpliceChain | libckits/myAlloc.c:169-188 | replacing blocks by others over the same bytes keeps the exact tiling |
| PoolAllocator.NothingLiveMeansInitial | libckits/myAlloc.c:219-287 | a chunk without live blocks is one free block: freeing all, in any order, restores the start |
| PoolAllocator.InitialBlockFits | libckits/myAlloc.c:96-108 | the initial block stays inside the chunk if and only if the chunk was aligned |
| PoolAllocator.Pool.constructor | libckits/myAlloc.c:84-115 | one free block over the chunk |
| PoolAllocator.Pool.FirstFit | libckits/myAlloc.c:165-169 | the first node that is large enough, or none is |
| PoolAllocator.Pool.Take | libckits/myAlloc.c:169-188 | the node becomes live with exactly the rounded size, or whole if the rest cannot be a block; the free bytes shrink by it and its header; tiling and list agree afterwards |
| PoolAllocator.Pool.Malloc | libckits/myAlloc.c:150-191 | fails only for size 0 or when no free block is large enough; otherwise takes the first node of the list that fits, adds one live block of exactly the rounded size (or the whole node if the rest cannot be a block), changes no other, and the free bytes shrink by the block and its header; the rest goes where pool_free puts a block |
| PoolAllocator.Pool.FindNeighbour | libckits/myAlloc.c:250-268 | finds a free block touching cur on either side if there is one |
| PoolAllocator.Pool.MergeOne | libckits/myAlloc.c:253-273 | one merge keeps the tiling and the other live blocks |
| PoolAllocator.Pool.Free | libckits/myAlloc.c:219-287 | the block stops being live, no other changes, and no two free blocks are neighbours; the free block that now holds its bytes is put right behind the first node at least as large, or at the front, and the nodes left keep their order and sizes |
| LinearTransform.LongDivision | system/libutils/LinearTransform.cpp:29-110 | two 64-bit steps divide a 96-bit number |
| LinearTransform.ScaleU64 | system/libutils/LinearTransform.cpp:29-110 | the rounded val * N / D; fails exactly when it exceeds 64 bits |
| LinearTransform.AddBasis | system/libutils/LinearTransform.cpp:150-184 | succeeds exactly if the sum is an int64_t outside the two refused boundary cases of line 157, and then is the sum |
| LinearTransform.Transform | system/libutils/LinearTransform.cpp:112-185 | when true, basis2 + floor((val - basis1) * N / D); the false returns are characterised exactly |
| LinearTransform.DoForward | system/libutils/LinearTransform.cpp:187-198 | the same for the forward ratio |
| LinearTransform.DoReverse | system/libutils/LinearTransform.cpp:200-211 | the same for the inverse ratio, failing for N = 0 |
| LinearTransform.ThereAndBack | system/libutils/LinearTransform.cpp:187-211 | there and back stays on one side of the start (at most a for N > 0, at least a for N < 0) and within ceil(D / abs N) |
| LinearTransform.RoundTrip | system/libutils/LinearTransform.cpp:187-211 | the same for the two calls when both succeed |
| LinearTransform.EuclidGcd | system/libutils/LinearTransform.cpp:213-248 | the loop finds a common divisor that every common divisor divides |
| LinearTransform.Reduce | system/libutils/LinearTransform.cpp:213-248 | keeps the ratio and leaves the pair coprime |
| LinearTransform.ReduceSigned | system/libutils/LinearTransform.cpp:253-263 | the same for a signed numerator, INT32_MIN included |
| CJson.StringRoundTrip | libckits/cJSON.c:143-236 | a printed string is read back whatever follows |
| CJson.NumberRoundTrip | libckits/cJSON.c:96-140 | a printed int is read back if what follows does not continue it |
| CJson.ValueRoundTrip | libckits/cJSON.c:275-306 | parsing what either printer wrote gives the tree and stops right after it, at every depth |
| CJson.ItemsRoundTrip | libckits/cJSON.c:308-392 | the same for the items of an array, formatted or not |
| CJson.MembersRoundTrip | libckits/cJSON.c:394-495 | the same for the members of an object |
| CJson.PrintThenParse | libckits/cJSON.c:252-272 | parse(print(v)) is v and uses all of the text, for both printers and every printable tree |
| CJsonGrammar.Utf8IsRight | libckits/cJSON.c:180-187 | for every code point the bytes written are its shortest UTF-8 form: lead byte, count and joined payload bits give the code point back |
| CJsonGrammar.CodePoint | libckits/cJSON.c:172-178 | a high and a low surrogate stand for the code point whose UTF-16 form is that pair |
| CJsonGrammar.HexIsRead | libckits/cJSON.c:168 | four hexadecimal digits in either case are read as their number |
| CJsonGrammar.Hex4IsRead | libckits/cJSON.c:226 | what the printer writes after \u is read back, for all four digits |
| CJsonGrammar.LetterIsRead | libckits/cJSON.c:153-195 | each way of writing a character of a string is read as the UTF-8 form of that character |
| CJsonGrammar.LostEscapes | libckits/cJSON.c:170-175 | an escaped zero, a low surrogate on its own and a high one that no further escape follows stand for nothing |
| CJsonGrammar.StringIsRead | libckits/cJSON.c:143-200 | every well-formed string in any spelling is read as the characters it means |
| CJsonGrammar.NumeralIsRead | libckits/cJSON.c:96-116 | every number of the grammar is read whole, with its sign, digits, scale and exponent |
| CJsonGrammar.ValueIsRead | libckits/cJSON.c:275-287 | every value of the grammar, in any spelling and spacing, is read as its meaning and the parser stops right behind it |
| CJsonGrammar.ItemsAreRead | libckits/cJSON.c:308-333 | the same for the items of an array |
| CJsonGrammar.MembersAreRead | libckits/cJSON.c:394-427 | the same for the members of an object |
| CJsonGrammar.TextIsRead | libckits/cJSON.c:252-272 | the parser accepts every JSON text and gives its meaning, with or without the check that nothing follows |
| CJsonCursor.SkipAt | libckits/cJSON.c:249 | the loop stops at the first byte above the space |
| CJsonEscapes.StaysInStringExactly | libckits/cJSON.c:148-194 | whatever sscanf makes of malformed escapes, the copying cursor only stands where the counting cursor stood if and only if every backslash is followed by a character and the four characters after a \u belong to the string and do not end in the backslash of an escape |
| CJsonEscapes.TrackingStops | libckits/cJSON.c:148-199 | then both loops stop at the same place |
| CJsonEscapes.WrittenFits | libckits/cJSON.c:148-195 | if the four characters after each \u are neither quotes nor backslashes nor the end, the bytes written fit the length counted first, whatever sscanf returns |
| CJsonEscapes.UnescapedIsWalked | libckits/cJSON.c:153-199 | a string the grammar reads is copied as it says |
| CJsonEscapes.BrokenEscapeOverruns | libckits/cJSON.c:167-170 | a text whose \u jumps over the closing quote: one unit is counted, four bytes and a terminator are written |
| CJsonCursor.ParseStringAt | libckits/cJSON.c:143-200 | reads the string the grammar defines; with plain escapes it stays inside text and buffer whatever sscanf returns |
| CJsonCursor.ParseNumberAt | libckits/cJSON.c:96-116 | reads the digits, scale and exponent the grammar defines |
| CJsonCursor.ParseValueAt | libckits/cJSON.c:275-287 | the cursor form agrees with the grammar, errors included, on every text up to the first malformed escape |
| CJsonCursor.ParseArrayAt | libckits/cJSON.c:308-333 | the loop over the items reads what the grammar defines |
| CJsonCursor.ParseObjectAt | libckits/cJSON.c:394-427 | the loop over the members reads what the grammar defines |
| CJsonCursor.ParseMemberAt | libckits/cJSON.c:403-412 | name, colon and value |
| CJsonBuffers.PrintStringPtr | libckits/cJSON.c:203-236 | fills its buffer exactly with the escaped string |
| CJsonBuffers.ArrayLength | libckits/cJSON.c:356-364 | the length computed while collecting the entries |
| CJsonBuffers.ComposeArray | libckits/cJSON.c:367-391 | the array's text and its terminator fit that length |
| CJsonBuffers.ArrayIsComposed | libckits/cJSON.c:336-392 | the composed text is the one the round trip is about |
| CJsonBuffers.ObjectLength | libckits/cJSON.c:456-464 | the length computed while collecting names and entries |
| CJsonBuffers.ComposeObject | libckits/cJSON.c:466-494 | the object's text and its terminator fit that length |
| CJsonBuffers.ObjectIsComposed | libckits/cJSON.c:430-495 | the composed text is the one the round trip is about |
| CJsonBuffers.EmptyObjectFits | libckits/cJSON.c:437-447 | the text of an empty object fits its allocation unless it is formatted at depth 0 |
| SortedVector.IndexOrderOf | system/libutils/VectorImpl.cpp:539-563 | binary search returns the one place with lower items before it and no lower ones after, and whether it is taken |
| SortedVector.FoundMeansPresent | system/libutils/VectorImpl.cpp:527-563 | found if and only if some item compares equal |
| SortedVector.Add | system/libutils/VectorImpl.cpp:565-575 | inserts at the order or replaces the equal item |
| SortedVector.AddedIsSorted | system/libutils/VectorImpl.cpp:565-575 | adding keeps the order strict |
| SortedVector.AddedItems | system/libutils/VectorImpl.cpp:565-575 | x is in, whatever equalled it is out, all else stays |
| SortedVector.Remove | system/libutils/VectorImpl.cpp:612-619 | drops the equal item, if any |
| SortedVector.AddThenRemove | system/libutils/VectorImpl.cpp:565-619 | removing a new item that was just added gives the vector back |
| BlobCache.EntriesAreOrdered | system/libutils/BlobCache.cpp:327-358 | size first, then memcmp, is a total order of keys |
| BlobCache.HasMeansStored | system/libutils/BlobCache.cpp:84-85 | a key is found if and only if some entry carries it |
| BlobCache.PutIsUpdate | system/libutils/BlobCache.cpp:103-125 | storing is map update |
| BlobCache.CleanedKeeps | system/libutils/BlobCache.cpp:297-306 | for every random choice clean ends at or below half the limit, only evicts, and keeps the accounting |
| BlobCache.CleanedStopsInTime | system/libutils/BlobCache.cpp:297-306 | clean evicts nothing from at most half the limit, and otherwise the bytes held before the last eviction were still above half |
| BlobCache.SetKeeps | system/libutils/BlobCache.cpp:54-131 | every set keeps mTotalSize exact and within the limit; without eviction it is exactly map update; a refused pair changes nothing |
| BlobCache.SmallPairIsStored | system/libutils/BlobCache.cpp:54-131 | a pair of at most half the limit (rounded up) is in the cache right after set |
| BlobCache.PairIsDropped | system/libutils/BlobCache.cpp:89-101 | with at most half the limit in use, a new pair is stored if and only if it fits beside the rest |
| BlobCache.LargePairCanBeDropped | system/include/utils/BlobCache.h:45-53 | for every pair above half the limit a one-call history after which set drops it |
| BlobCache.TinyCacheStores | system/libutils/BlobCache.cpp:54-131 | below a limit of 4 every acceptable pair is stored |
| BlobCache.PromiseHoldsExactlyUpToHalf | system/include/utils/BlobCache.h:45-53 | the documented promise holds in all states if and only if the pair is at most half the limit (rounded up) or the limit is below 4 |
| BlobCache.RunKeepsInv | system/libutils/BlobCache.cpp:54-131 | after every sequence of sets: exact accounting, limit kept, strict order, only pairs that were set |
| BlobFlatten.FlattenRoundTrip | system/libutils/BlobCache.cpp:183-287 | unflatten of a flattened cache into a fresh one with the same limits gives the same entries and total |
| BlobFlatten.UnflattenAccounts | system/libutils/BlobCache.cpp:231-287 | on any bytes: success leaves a consistent cache; failure leaves no entries, and the empty state the comment promises if and only if no whole entry before the short one is accepted by set |
| BlobFlatten.TruncatedFileBreaksAccounting | system/libutils/BlobCache.cpp:261-278 | a file cut after a whole first entry leaves mTotalSize counting what is gone |
| BlobFlatten.Store.constructor | system/libutils/BlobCache.cpp:38-52 | an empty cache |
| BlobFlatten.Store.Clean | system/libutils/BlobCache.cpp:297-306 | the loop does what the function says |
| BlobFlatten.Store.Set | system/libutils/BlobCache.cpp:54-131 | the loop runs at most twice and ends in the specified state |
| BlobFlatten.Store.Get | system/libutils/BlobCache.cpp:133-160 | the size of the stored value, copied out exactly if the buffer holds it; 0 if absent |
| BlobFlatten.Store.GetFlattenedSize | system/libutils/BlobCache.cpp:166-177 | the end of the last aligned entry |
| BlobFlatten.Store.Flatten | system/libutils/BlobCache.cpp:183-229 | succeeds if and only if the buffer has the flattened size, and then holds header and all entries |
| BlobFlatten.Store.Unflatten | system/libutils/BlobCache.cpp:231-287 | the loop reads what the function says, from a fresh cache |
| Utf.DecodeEncode | system/libcutils/strdup16to8.c:107-137 | every UTF-16 sequence, zeros and unpaired surrogates included, comes back from strcpy8to16 |
| Utf.EncodedIsText | system/libcutils/strdup16to8.c:95-137 | the encoding holds no zero byte |
| Utf.CountIsUnitsPlusOvercount | system/libcutils/strdup8to16.c:68-99 | on every byte string strlen8to16 is the units written plus the four-byte readings that gave one unit |
| Utf.EncodedIsCountedExactly | system/libcutils/strdup8to16.c:68-99 | on encoded text strlen8to16 is the original length |
| Utf.UnitsGiveCodeExactly | system/libcutils/strdup8to16.c:145-177 | the unit or surrogate pair written for a code point stands for it, if and only if it is not one of the last two, which are replaced |
| Utf.StandardIsRead | system/libcutils/strdup8to16.c:112-143 | standard UTF-8 of every code point, four bytes included, is read whole and gives the code point |
| Utf.DecodeStandard | system/libcutils/strdup8to16.c:145-177 | standard UTF-8 text is decoded to the units of its code points, one after the other |
| Utf.StrnLen16To8 | system/libcutils/strdup16to8.c:29-92 | both paths return the exact length, or SIZE_MAX - 1 when it does not fit |
| Utf.StrnCpy16To8 | system/libcutils/strdup16to8.c:107-137 | writes the encoding and a terminator, no more |
| Utf.StrnDup16To8 | system/libcutils/strdup16to8.c:143-168 | null exactly when the length reaches SIZE_MAX - 1, else the encoding |
| Utf.StrLen8To16 | system/libcutils/strdup8to16.c:68-99 | the counting loop, against what strcpy8to16 writes |
| Utf.GetUtf32 | system/libcutils/strdup8to16.c:112-143 | one reading, moving past exactly the bytes it took |
| Utf.StrDup8To16 | system/libcutils/strdup8to16.c:43-60 | never writes outside the buffer of strlen8to16 units, on any bytes; the units are the decoding |
| RecordStream.CallConserves | system/libcutils/record_stream.c:127-186 | no call loses, repeats or reorders a byte |
| RecordStream.FullMeansTooBig | system/libcutils/record_stream.c:142-151 | a full buffer lacks a record if and only if its header declares more than the maximum |
| RecordStream.CallProgresses | system/libcutils/record_stream.c:127-186 | with records within the maximum: the full branch is unreachable, each read has room, each call goes forward |
| RecordStream.ReadResultIsReported | system/libcutils/record_stream.c:166-172 | a failed read is reported as its error, and end of stream is reported if and only if the stream has ended |
| RecordStream.RecordsAreFrames | system/libcutils/record_stream.c:127-186 | however reads split the bytes, the records so far are the first frames of the stream |
| RecordStream.NeverTooBig | system/libcutils/record_stream.c:142-151 | no call of any such run reports EFBIG |
| RecordStream.EndOfStreamDeliversAll | system/libcutils/record_stream.c:168-172 | at end of stream all frames have been delivered, in order |
| RecordStream.FramesOfStream | system/libcutils/record_stream.c:72-93 | what a sender frames is what the stream holds |
| RecordStream.Reader.TakeRecord | system/libcutils/record_stream.c:72-112 | takes a whole record off the front, or none |
| RecordStream.Reader.Compact | system/libcutils/record_stream.c:153-164 | the move keeps the unread bytes |
| RecordStream.Reader.GetNextRecord | system/libcutils/record_stream.c:127-186 | the buffer follows the specified call |
| MemStream.WriteFileBytes | system/libcutils/open_memstream.c:116-122 | the simple file, byte by byte: data, old bytes, zeros in the gap |
| MemStream.WriteFileTwice | system/libcutils/open_memstream.c:116-157 | two writes in a row are one |
| MemStream.WrittenIsFileExactly | system/libcutils/open_memstream.c:130-153 | a write acts as on a file if and only if it is not empty, or stands at the end, or over a zero byte |
| MemStream.EmptyWritesShow | system/libcutils/open_memstream.c:130-153 | both failing inputs: an empty write over a byte loses it, one past the end adds zeros |
| MemStream.Stream.EnsureCapacity | system/libcutils/open_memstream.c:86-114 | room for data and terminator, the bytes stay |
| MemStream.Stream.Put | system/libcutils/open_memstream.c:123-157 | the buffer with the saved byte put back is the file written to; a zero at the published size |
| MemStream.Stream.SeekTo | system/libcutils/open_memstream.c:164-211 | the file is unchanged; the position becomes delta from the start, the old position or the end, or the call fails and it stays |
| MemStream.RunAll | system/libcutils/open_memstream.c:86-211 | after every run of non-empty writes and seeks the stream is the file, the size is min(offset, eof), and the byte there is zero |
| SharedVector.ReleaseKeeps | system/libutils/VectorImpl.cpp:346-355 | release keeps every count equal to the number of owners and every other vector |
| SharedVector.AttachKeeps | system/libutils/SharedBuffer.cpp:27-35 | the same for a new buffer of one owner |
| SharedVector.OverwriteKeeps | system/libutils/SharedBuffer.cpp:78-84 | the same for a change in an unshared buffer |
| SharedVector.ShareKeeps | system/libutils/SharedBuffer.cpp:96-98 | the same for acquiring another vector's buffer; the contents are equal |
| VectorImpl.LastOwnerDestroysAll | system/libutils/VectorImpl.cpp:346-355 | the owner that frees a buffer destroys every item in it |
| VectorImpl.Memory.ReleaseStorage | system/libutils/VectorImpl.cpp:346-355 | the specified release |
| VectorImpl.Memory.EditArray | system/libutils/VectorImpl.cpp:85-99 | afterwards the storage is the vector's alone and no vector has changed |
| VectorImpl.Memory.EditResize | system/libutils/SharedBuffer.cpp:58-76 | new capacity, sole owner, no vector changed |
| VectorImpl.Memory.CreateCopy | system/libutils/VectorImpl.cpp:49-56 | equal contents, no other vector changed |
| VectorImpl.Memory.Assign | system/libutils/VectorImpl.cpp:67-83 | equal contents, no other vector changed |
| VectorImpl.Memory.InsertArrayAt | system/libutils/VectorImpl.cpp:119-153 | sequence insertion on this vector only, or BAD_INDEX |
| VectorImpl.OwnItemIsReadExactly | system/libutils/VectorImpl.cpp:140-153 | when the item inserted lies in the vector's own buffer, the pointer still reads it after _grow if and only if the buffer is shared, or there is room and the item does not move (or moves onto an equal one) |
| VectorImpl.Memory.GrowByMoving | system/libutils/VectorImpl.cpp:366-393 | the same as insertion through a resized or new buffer |
| VectorImpl.Memory.GrowInPlace | system/libutils/VectorImpl.cpp:394-404 | the same inside the buffer |
| VectorImpl.Memory.RemoveItemsAt | system/libutils/VectorImpl.cpp:272-282 | sequence removal on this vector only, or BAD_VALUE |
| VectorImpl.Memory.ShrinkByMoving | system/libutils/VectorImpl.cpp:419-445 | the same through a smaller buffer |
| VectorImpl.Memory.ShrinkInPlace | system/libutils/VectorImpl.cpp:446-455 | the same inside the buffer |
| VectorImpl.Memory.ReplaceAt | system/libutils/VectorImpl.cpp:249-270 | one item replaced on this vector only, or BAD_INDEX |
| VectorImpl.Memory.SetCapacity | system/libutils/VectorImpl.cpp:326-344 | contents unchanged, capacity never below the size |
| VectorImpl.Memory.Sort | system/libutils/VectorImpl.cpp:165-216 | the insertion sort of this vector only; a vector in order keeps even its shared buffer |
| VectorImpl.Memory.Finish | system/libutils/VectorImpl.cpp:284-289 | the vector is gone, no other changed, counts right |
| StableSort.SortIsSorted | system/libutils/VectorImpl.cpp:165-216 | the result is a sorted permutation |
| StableSort.SortIsStable | system/libutils/VectorImpl.cpp:167-169 | items that compare equal keep their order |
| StableSort.InsertStep | system/libutils/VectorImpl.cpp:192-205 | the shifting loop puts the item behind everything not above it |
| Timers.NotBeforeIsInstants | libnet/absTimerList.cpp:139-144 | on normalised times the comparison is that of the instants |
| Timers.TimePlus | libnet/absTimerList.cpp:95-106 | normalised, exact for delays up to MAX_PERIOD_DELAY, the sum inside 31 bits |
| Timers.Interval | libnet/absTimerList.cpp:109-127 | the exact distance, or zero |
| Timers.InsertIsOrdered | libnet/absTimerList.cpp:286-301 | insertion keeps the order by due time and then by insertion |
| Timers.ApplyKeeps | libnet/absTimerList.cpp:156-283 | every call that adds or cancels keeps order, numbering, history and account, also when a handler makes it during an alarm |
| Timers.HandleKeeps | libnet/absTimerList.cpp:371-449 | so does an alarm with all the calls its handlers make |
| Timers.AlarmFiresExactlyTheDue | libnet/absTimerList.cpp:384-446 | an alarm fires all events due when it starts, none early, in list order, whatever its handlers add or cancel |
| Timers.AlarmConservesEvents | libnet/absTimerList.cpp:396-446 | of the events queued before, the due one-shot ones have left the list and each other one is in it exactly once unless a handler cancelled it |
| Timers.PeriodicComesBack | libnet/absTimerList.cpp:438-446 | a periodic event that fired and was not cancelled is in the list again, due its period after the clock reading, to the microsecond |
| Timers.RunKeepsInv | libnet/absTimerList.cpp:156-494 | in every run, handlers' calls included: sorted with ties in insertion order, no early firing, one-shot events fire at most once, and every event ever added is queued, cancelled or fired for good, and only one of these |
| Timers.NeverEarly | libnet/absTimerList.cpp:156-283 | in every run an event added by delay or period first fires no earlier than its call's time plus the delay asked for |
| Timers.RunKeepsTokens | libnet/absTimerList.cpp:179-182 | until the token counter wraps every queued event carries its own token |
| Timers.CancelTakesTheEvent | libnet/absTimerList.cpp:459-494 | cancelling a token takes off exactly the event added with it |
| Timers.EventQueue.AddEventInternal | libnet/absTimerList.cpp:286-301 | the loop inserts behind the events due no later |
| Timers.EventQueue.AddLater | libnet/absTimerList.cpp:156-191 | unless refused the list gains exactly one event: due ms milliseconds after now to the microsecond, of the given kind and handler, carrying the token returned |
| Timers.EventQueue.AddAbs | libnet/absTimerList.cpp:202-244 | unless refused the list gains exactly one event, due at the given time, of the given kind and handler, carrying the token returned |
| Timers.EventQueue.AddPeriod | libnet/absTimerList.cpp:247-283 | unless refused the list gains exactly one event: first due ms milliseconds after now to the microsecond, of period ms and the given kind and handler, carrying the token returned |
| Timers.EventQueue.Respond | libnet/absTimerList.cpp:405-410 | a handler that makes calls of its own |
| Timers.EventQueue.HandleAlarm | libnet/absTimerList.cpp:371-449 | splice and loop do what the specified alarm does, with handlers that call back |
| Timers.EventQueue.DelTimedEvent | libnet/absTimerList.cpp:459-494 | removes the first event with the token and returns its handler |
| Timers.EventQueue.AbsTimeToNext | libnet/absTimerList.cpp:340-362 | a queued due time such that nothing is due earlier, or infinity |

## Left out

- RefBase: objects with weak or forever lifetime and overridden callbacks, forceIncStrong, attemptIncWeak and moveReferences; memory orderings weaker than sequential consistency.
- RefBase.EveryRunIsSafe: clients use only references they own, promotions start after the first strong reference was counted, the last weak reference is not dropped while the bare pointer is in use, and fewer than 2^28 strong and 2^31 weak references are held. The second and third rule are shown to be needed; that one promotion at a time by the creator, or among weak references only, would be safe is not stated.
- Looper: file descriptor callbacks, requests and responses, and epoll itself beyond a readable flag for the wake pipe.
- TimeSub.Convert: leap-second tables are empty; the day counter is exact, so offsets of 2^31 days or more, which no zone has, are not modelled.
- MkTime.Time2Sub: fixed-offset zones only, so no hunt for another zone type and no time1 or time2; what tm_year holds after a failure of the last conversion is left open.
- Zone files, zone names and the parsing of TZ strings.
- BasicHashtable.Find: that every entry of the table of bucket counts is prime, as its comment says, is a hypothesis (TableIsPrime).
- BasicHashtable: copy-on-write between tables (it is that of SharedBuffer), and clear, which resets only the first mSize cookies; the load factor is a fraction instead of a float.
- PoolAllocator.Pool.constructor: aligned chunks of at least 12 bytes (below that the first node does not fit the chunk), and a list head whose reserved word is 0; the slot allocator and pool_strdup are not modelled.
- CJson.PrintThenParse: numbers that are not ints are parsed to digits and scale but neither rounded to a double nor printed; the helpers that build and edit trees are not modelled.
- CJsonGrammar.TextIsRead: which texts outside the grammar the parser accepts too is not characterised.
- CJsonCursor.ParseStringAt: sscanf's value is arbitrary where there are not four hexadecimal digits; what the code reads or writes once it has left the text or the buffer is not modelled.
- CJsonCursor.ParseValueAt: nothing is stated about the value of a text with a malformed escape.
- CJson: failing allocations.
- BlobCache.SetKeeps: sizes are natural numbers; sums of sizes that wrap around 32 bits are not modelled. blob_random is an arbitrary function of the number of draws.
- BlobFlatten.UnflattenAccounts: the sums of header sizes are natural numbers; on a 32-bit machine sizes near 2^32 wrap around.
- BlobFlatten.Store.Unflatten: into a cache that counts nothing yet; on a used one the source keeps the old total. The serialised words are least significant byte first.
- Utf: strcpylen8to16 and the four-byte-length variants; bit operations are written as arithmetic on disjoint bits.
- RecordStream.Reader.GetNextRecord: the record is returned as a value; that a pointer into the buffer is good only until the next call is not modelled.
- RecordStream.RecordsAreFrames: declared lengths are natural numbers; on a 32-bit machine lengths near 2^32, which exceed every maximum, wrap around.
- MemStream.Stream.Put: the buffer can always grow; sizes do not wrap around.
- VectorImpl.Memory.InsertArrayAt: items are values; an item in the vector's own buffer is treated by OwnItemIsReadExactly, with a reallocation taken to move the buffer. Failing allocations are not modelled.
- VectorImpl.Memory.Sort: the moves of one inner loop are made on a working row that is then stored.
- SortedVector: merge, whose fast paths accept equal items at the boundary.
- Timers.RunKeepsInv: sequential runs; under concurrency the token is assigned after the insertion and outside its lock. A handler may add and cancel, but not call handleAlarmEvent again. An event added by absolute time has an arbitrary period, as in the source.
- Timers.EventQueue.DelTimedEvent: the source reads the handler after deleting the event; the model reads it before.
- mq.c, selector, properties, the conference nodes, mixers, tone generation, Unicode.cpp, hashmap and str_parms.
