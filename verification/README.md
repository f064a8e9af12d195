# A verified model of the game-server framework's core

A Dafny model of the parts of the repository whose bodies are visible and whose
behaviour is hard to see from one function: the growing byte FIFO, the batched
SQL insert with its policies and transaction, the reference-counted handle, the
pseudo-random generator, the string hash, the day and calendar arithmetic, and the
MySQL connector's inline fast forms and codecs. `dafny verify dfyconfig.toml`
checks everything.

| file | models |
|---|---|
| Wrappers, Arithmetic, Bits | unsigned 32-bit arithmetic, exclusive or, powers of two, bit-by-bit meaning of the C operators, pigeonhole |
| FakeRandom, OutputPeriod | `CFakeRandom`: three congruential steps a draw, two range overloads; periods of seed and output |
| Calendar, GameTime, DiffDays | `localtime_r`/`mktime` under a fixed UTC offset, `CGameTime`, `GetDiffDays` |
| Hash | `GetHash` |
| Buffer | `CBuffer<uint8_t>`, with the specialised `ReallocBuffer` |
| InsertPolicy, BatchPlan, BatchSizes, Query | the three insert policies, the statements a run issues, `insertfrom`/`replacefrom` in a transaction |
| RefCounted | `RefCountedPointer` |
| TrailingSpace, Bitmap, KeyLength, RecBits, Serialize, ValueList | the fast forms, codecs and list printers |

## How the main results are stated

- The generator. `LowBitsPeriod`: for every k up to 32 the low k bits of the seed
  return exactly every 2^k calls, from every seed; `FullPeriod` adds that all 2^32
  seeds are visited and none twice. The proof is over the unbounded affine map
  (2^k steps move every number by an odd multiple of 2^k) and is carried to 32 bits.
  Callers see less: `OutputPeriodIff` shows that the numbers returned recur exactly
  every 2^27 calls.
- The buffer. `Reserved` is the cursor arithmetic of a capacity check with its 32-bit
  sums written out. `GrantSoundIff` says for every size when a grant has the room it
  promises: exactly when `SumsFit`, a guard on sizes and limits that a caller can compute;
  `ReadableSoundIff` does the same for reads. Checks, commits of a checked size and reads
  take every 32-bit size and follow the wrapped arithmetic; those that are refused or meet
  the guard (`Serviceable`) are proved against the abstract queue of unread bytes. `Run` carries replies, cursors, queue and capacity bound through any series of
  such operations, `SmallRunAllowed` names a simple class of series that qualify, and
  `Conservation` shows every series to be first-in first-out.
- The insert. `PlanFrom` is the list of statements a policy asks for. `RunRows` refines
  it: at every row, executed batches plus the pending statement are exactly the rows
  consumed; the log ends at the first failing statement; commit happens exactly when the
  plan is complete and every statement succeeded. The server's replies are an
  arbitrary function from statement number to success.
- The handles. Counting refines tracing: over every legal run the handles refer to
  what the same assignments on plain references give, each count is the number of
  handles that share it, and when no handle is left every object and count has been
  released exactly once.

## Where the code differs from its promises

- include/mysql++3.2.3/refcounted.h:138-139 promises that assigning the pointer already
  managed is a no-op. `SamePointerNoOpIff`: it is one exactly for a null handle.
  `SamePointerDangles` shows the object destroyed while the handle still refers to it, at
  once if the handle was the only one and otherwise when the others are gone;
  `AssignRawSoundIff` says that a raw pointer may be assigned exactly when it was never
  handed in before.
- include/buffer.hpp:99-203 adds unsigned 32-bit numbers unchecked. A granted reservation is
  sound exactly under `SumsFit` (`GrantSoundIff`; `WrapWitness` grants 2^32 - 1 bytes and
  shrinks the block), and the read test exactly when read cursor + size < 2^32
  (`ReadableSoundIff`; `ReadWitness` lets an empty buffer be read).
- include/buffer.hpp:165-172 takes the write pointer before a check that may slide or
  reallocate; it is right exactly when the check does neither (`PointerRightIff`).
  src/centersvr/center_endpoint.cpp:104-109 calls it right after a grant of the same size;
  the pointer is then stale exactly when the grant filled the block to within one byte and
  the cap allows that many more (`SecondCheckGrowsIff`, `CheckedWritePointer`). Inputs are
  5000 bytes on a fresh buffer (`StalePointerWitness`) and, with the endpoint's own limits
  and for every message length above 1, two messages with one byte read in between
  (`EndpointStalePointer`, `EndpointReaches`).
- include/buffer.hpp:38 returns the unread count as an `int`: it is the count exactly below
  2^31 (`ReadSize`).
- src/centersvr/center_buffer.cpp:13-36 specialises `ReallocBuffer` for `uint8_t` with `>`
  where the template has `>=`; `MissingExact` shows that both compute the same.
- include/serialize.hpp:54 adds a length read from the buffer to the offset in 64 bits:
  the call passes the parser a length that reaches past the buffer exactly when that sum
  wraps (`OverrunIff`, `OverrunWitness`). Converted to the parser's `int` it is then
  negative, and unchanged otherwise, in buffers below 2^31 bytes (`ParserLength`).
- include/mysql++3.2.3/insertpolicy.h:163-190 calls its size the maximum for an INSERT
  statement, but a statement's first row is measured without the header. For rows with
  equally long headers all rows are sent within the maximum exactly when each would fit in
  a statement of its own (`MaxPacketWithinIff`); `PacketWitness` sends 30 characters under
  a maximum of 4.
- include/mysql++3.2.3/vallist.h:218-221 promises the selected items joined by the
  delimiter. `SparseTextIsJoinIff` gives the exact condition; a suppressed first item
  before a selected one prints a leading delimiter (`LeadingDelimiterWitness`).
- include/time.hpp:12-24 subtracts days of the year. `DiffDaysCorrectIff`: the result is
  the calendar distance exactly when the final partial-day window stays in one local
  year; `NewYearWitness` is a failing pair for every year and offset.
- tmp/game_time.cpp:60 treats second 0 as "no time": a reading of 0 keeps the cached day
  start. After a series with a non-zero reading it is right exactly when the last such one
  fell on the local day of the last reading (`DayStartRightIff`); zeros alone keep the
  initial start (`OnlyZerosKeepStart`). `ZeroReadingWitness` reads 86400, then 0.
- include/mysql++3.2.3/insertpolicy.h:97 increments an unsigned counter: at the limit
  2^32 - 1 it wraps and the policy never refuses (`FullRangeNeverRefuses`); the
  row-count results are for smaller limits, and `FullRangeOneStatement` covers this one.

## Model

| member | source | states |
|---|---|---|
| FakeRandom.IteratePeriod | tmp/fake_random.cpp:12-34 | for a multiplier ≡ 1 mod 4 and an odd increment, n steps return the low k bits of every number exactly when 2^k divides n |
| FakeRandom.LowBitsPeriod | tmp/fake_random.cpp:12-34 | from every seed, n calls of `Random()` return the low k bits of the seed exactly when 2^k divides n, for every k up to 32 |
| FakeRandom.LowBitsAllVisited | tmp/fake_random.cpp:12-34 | every value of the low k bits occurs within 2^k calls |
| FakeRandom.FullPeriod | tmp/fake_random.cpp:12-34 | 2^32 calls visit all 2^32 seeds, none twice, and return to the first |
| OutputPeriod.OutputPeriodIff | tmp/fake_random.cpp:12-34 | from every seed, each number returned equals the one n calls later if and only if 2^27 divides n |
| OutputPeriod.HalfPeriodChanges | tmp/fake_random.cpp:12-34 | an odd multiple of 2^26 calls changes the output at every seed |
| FakeRandom.ShiftXorAppends | tmp/fake_random.cpp:23-29 | shifting by ten and exclusive-or with ten bits appends them; no bit is lost or mixed |
| FakeRandom.CFakeRandom.Random | tmp/fake_random.cpp:12-34 | the seed advances by three steps, given in closed form, and the result has exactly the bits of `OutputIsDrawn` |
| FakeRandom.OutputIsDrawn | tmp/fake_random.cpp:12-34 | the bits of the result from the top are bits 26 to 16 of the seed multiplied and incremented once, 25 to 16 after twice, and 25 to 16 after three times, with the constants written out |
| FakeRandom.DrawnUnique | tmp/fake_random.cpp:12-34 | no other number has these bits |
| FakeRandom.DrawIs | tmp/fake_random.cpp:37-45 | a range draw is that number reduced by the range |
| FakeRandom.CFakeRandom.SetSeed | tmp/fake_random.h:23 | replaces the seed |
| FakeRandom.CFakeRandom.RandomBelow | tmp/fake_random.cpp:37-45 | a draw in 0..range-1 that is the drawn number reduced by the range; an empty range draws nothing |
| FakeRandom.CFakeRandom.RandomBetween | tmp/fake_random.cpp:48-63 | a draw in the half-open interval between the bounds in either order, the smaller bound plus the drawn number reduced by the distance, without wrap-around; equal bounds draw nothing |
| Calendar.YearStartIsPosix | tmp/game_time.cpp:45-54 | counting leap years year by year gives the POSIX day count for every year |
| Calendar.DateOfUnique | tmp/game_time.cpp:77-82 | the date of a day is the only valid date with that day number |
| Calendar.ConsecutiveDaysDiffer | tmp/game_time.cpp:84 | adjacent days never have the same day of the month |
| Calendar.MakeTimeOfLocalTime | tmp/game_time.cpp:45-54 | `mktime` undoes `localtime_r` for every second and offset |
| Calendar.LocalTimeIff | tmp/game_time.cpp:45 | the fields are the local time of a second if and only if they match the month table, the leap rule, the POSIX day count and the clock, all written out |
| GameTime.DayAlternateIsDateChange | tmp/game_time.cpp:58-90 | for non-zero times the day-of-month test is true exactly when the local dates differ |
| GameTime.CGameTime.UpdateTime | tmp/game_time.cpp:40-56 | after any clock reading but 0, whichever way the clock moved, the cached day start is the local midnight of that second; a reading of 0 leaves it alone, so it is right exactly when the reading is not 0 or the old start was that of second 0; the stored fields are the local time by table, leap rule and POSIX day count |
| GameTime.CGameTime.GetSecToNextDayBreak | tmp/game_time.cpp:127-140 | the result lies in 1..86400 and equals day start + 86400 - now |
| GameTime.RunClock | tmp/game_time.cpp:40-56 | over any series of readings every wait is the time to the next local midnight, and every cached day start is that of the last non-zero reading, or the initial one |
| GameTime.DayStartRightIff | tmp/game_time.cpp:58-66 | after trailing zero readings the cached start is right if and only if the last non-zero reading lies on the same local day as second 0 |
| GameTime.OnlyZerosKeepStart | tmp/game_time.cpp:58-66 | readings of 0 alone leave the initial day start, however many there are |
| GameTime.ZeroReadingWitness | tmp/game_time.cpp:58-66 | readings 86400 and 0 in UTC leave the start of day 1 where that of day 0 belongs |
| DiffDays.DiffDaysExact | include/time.hpp:12-24 | for times less than 49711 days apart, in either order, the result is the local day distance, less the length of the ending year if the final window crosses a New Year, mod 2^32 |
| DiffDays.DiffDaysCorrectIff | include/time.hpp:12-24 | the result is the day distance if and only if the final window stays within one local year |
| DiffDays.WrapGapTight | include/time.hpp:17 | at 49711 days the 32-bit product wraps and the window starts 2^32 seconds too early |
| DiffDays.DiffDaysSymmetric | include/time.hpp:14 | the argument order does not matter |
| DiffDays.NewYearWitness | include/time.hpp:23 | across any New Year's midnight two hours apart gives 1 - year length, mod 2^32 |
| Hash.ChunksPartition | include/hash.hpp:5-24 | the word and tail-byte steps consume the string left to right, each byte in exactly one step |
| Hash.GetHash | include/hash.hpp:3-30 | the two loops compute the fold of the string's chunks |
| Hash.OneByte | include/hash.hpp:13-28 | the hash of a one-byte string, with the constants written out |
| Hash.ByteStep | include/hash.hpp:20-28 | undoing the last two exclusive ors, a byte that extends a tail is one more multiplication and exclusive or |
| Hash.WordStep | include/hash.hpp:14-28 | at length 4k + 1 the four bytes before the last enter as one little-endian word, from the accumulator that the string cut after the first of them had before its last step |
| Hash.StepSource | include/hash.hpp:16 | and that accumulator is the only one, so the three steps determine the hash of every string |
| Hash.FoldStateInjective | include/hash.hpp:16 | the multiplier is invertible, so equal chunks keep different accumulators apart |
| Hash.FirstStepSeparates | include/hash.hpp:13-16 | the first byte's two uses, in the start value and in the first chunk, never cancel |
| Hash.OneChunkSeparates | include/hash.hpp:3-30 | equal-length strings that differ in exactly one aligned word or tail byte hash differently, even if it holds the first byte, with signed or unsigned `char` |
| Buffer.GrantSoundIff | include/buffer.hpp:99-123 | a granted size has room in a block no smaller than before if and only if no sum wrapped, for every 32-bit state and size |
| Buffer.WrapWitness | include/buffer.hpp:114-118 | on 10000 bytes a request for 2^32 - 1 is granted and leaves 9999 |
| Buffer.MissingExact | src/centersvr/center_buffer.cpp:13-36 | sliding and the shortfall never underflow, and the `uint8_t` specialisation asks for the same as the template |
| Buffer.GrantedExactly | include/buffer.hpp:99-123 | what a sound grant leaves, in plain integers: nothing changed, or the bytes slid down and the block grown by the larger of the shortfall and the step |
| Buffer.ReservedFacts | include/buffer.hpp:99-123 | a capacity check that grants on unwrapped sums, or refuses, keeps read ≤ write ≤ capacity and the unread count, never grows past max + step, and a granted size fits |
| Buffer.RefusedIff | include/buffer.hpp:192-203 | the exact refusal condition for every size, wrapped sums included |
| Buffer.RefusedExactlyWhen | include/buffer.hpp:192-203 | the same in plain integers; with a non-zero read cursor it is unread + size ≥ max(capacity, max) |
| Buffer.SecondCheckNeverCompacts | include/buffer.hpp:174-190 | after a grant of n a check for m ≤ n moves neither cursor, though it may grow or refuse |
| Buffer.SecondCheckNeverCompactsIff | include/buffer.hpp:174-190 | no second check slides the bytes if and only if the first one slid, nothing had been read, or its sum did not wrap |
| Buffer.SecondCheckGrowsIff | src/centersvr/center_endpoint.cpp:104-109 | the second check for the same size moves the block exactly when the grant filled it to within one byte and the cap allows as much again |
| Buffer.StalePointerWitness | include/buffer.hpp:165-172 | on a fresh buffer a grant of 5000 fills the block and the second check for 5000 moves it |
| Buffer.EndpointStalePointer | src/centersvr/center_endpoint.cpp:104-109 | with the endpoint's limits, for every message length, a message that slides into an exact fit is granted and the second check moves the block |
| Buffer.EndpointReaches | src/centersvr/center_endpoint.cpp:19-26 | writing one message and reading one byte leads to that state |
| Buffer.PointerRightIff | include/buffer.hpp:165-172 | the position taken before a granted check is where the bytes go if and only if the check did not call `ReallocBuffer`, or had nothing to do there |
| Buffer.ReadableSoundIff | include/buffer.hpp:140-157 | the read test tells whether enough is unread if and only if read cursor + size stays below 2^32 |
| Buffer.ReadWitness | include/buffer.hpp:153-157 | with nothing unread a wrapping size passes the read test |
| Buffer.CByteBuffer.ReallocBuffer | include/buffer.hpp:99-123 | for every size sliding and resizing follow the 32-bit cursor arithmetic, with a new block exactly when the capacity changes; unless a granted growth wraps, the queue is unchanged |
| Buffer.CByteBuffer.CanWrite | include/buffer.hpp:192-203 | for every size the reply and cursors are those of the 32-bit arithmetic; unless it grants on a wrapped sum, the queue is unchanged and a granted size has room |
| Buffer.CByteBuffer.WriteSlip | include/buffer.hpp:182-190 | for every size the cursors are those of the 32-bit arithmetic; on unwrapped sums it commits exactly the bytes behind the write cursor when the check does not move them |
| Buffer.CByteBuffer.ReserveFillCommit | include/buffer.hpp:182-203 | reserve n, fill m ≤ n, commit m: the bytes are appended intact or not at all, with the exact reply and cursors |
| Buffer.CByteBuffer.WriteBuf | include/buffer.hpp:174-180 | the bytes are appended intact or the queue is unchanged, although the check runs again after the copy |
| Buffer.CByteBuffer.WritePointer | include/buffer.hpp:165-172 | block and position are those from before the check; on unwrapped sums they are where the committed bytes belong exactly under the condition of `PointerRightIff` |
| Buffer.CByteBuffer.CheckedWritePointer | src/centersvr/center_endpoint.cpp:104-109 | after a grant of the same size the returned position is stale exactly under the condition of `SecondCheckGrowsIff` |
| Buffer.CByteBuffer.ReadSlip | include/buffer.hpp:140-151 | for every size: succeeds exactly when enough is unread and then removes exactly the front, if and only if the sum does not wrap; otherwise it succeeds and bytes already read come back |
| Buffer.CByteBuffer.CanRead | include/buffer.hpp:153-157 | for every size: true exactly when that many bytes are unread, if and only if the sum does not wrap |
| Buffer.CByteBuffer.ReadSize | include/buffer.hpp:38 | the number of unread bytes as an `int`, exact if and only if it is below 2^31 |
| Buffer.CByteBuffer.SetMaxSize | include/buffer.hpp:25 | changes the soft cap only |
| Buffer.CByteBuffer.SetReallocSize | include/buffer.hpp:26 | changes the growth step only |
| Buffer.CByteBuffer.Reset | include/buffer.hpp:92-97 | empties the queue and keeps the block |
| Buffer.Run | include/buffer.hpp:92-203 | over any run every reply and the final cursors are those of the cursor arithmetic, a read is granted exactly when enough is unread, the unread bytes are the abstract queue, and the capacity stays within its bound |
| Buffer.RunBounded | include/buffer.hpp:99-123 | over any run the cursors stay in order and the capacity only grows, at most to the larger of its start and max + step |
| Buffer.SmallRunAllowed | include/buffer.hpp:99-203 | every run whose sizes stay below 2^32 less that bound qualifies, whatever is granted or refused on the way |
| Buffer.Conservation | include/buffer.hpp:92-203 | initial bytes and bytes put in equal bytes taken out and bytes remaining, in order |
| InsertPolicy.InsertPolicy.Ask | include/mysql++3.2.3/insertpolicy.h:94-215 | the three `can_add` bodies, the row counter updated in place |
| InsertPolicy.FullRangeNeverRefuses | include/mysql++3.2.3/insertpolicy.h:94-104 | a limit of 2^32 - 1 rows never refuses, because the counter wraps |
| BatchPlan.PlanConserves | include/mysql++3.2.3/query.h:1081-1131 | a complete plan carries every row exactly once, in order, in non-empty batches; a plan that gives up carries a proper prefix |
| BatchPlan.AcceptsAllOneBatch | include/mysql++3.2.3/query.h:1081-1094 | if the policy accepts every row, there is one batch with all rows |
| BatchPlan.StatementIsSql | include/mysql++3.2.3/query.h:1081-1114 | a statement built row by row names the first row's table and fields and joins the value lists in order |
| BatchPlan.TwoRowText | include/mysql++3.2.3/query.h:1038-1050 | the text for two rows, written out |
| BatchPlan.SingleStatement | include/mysql++3.2.3/query.h:1030-1053 | a complete plan of one statement has the text that `insert(first, last)` builds |
| BatchSizes.RowCountStatements | include/mysql++3.2.3/insertpolicy.h:94-104 | n rows under a fresh limit m become ceil(n/m) statements, all but the last with exactly m rows |
| BatchSizes.ReusedRowCount | include/mysql++3.2.3/insertpolicy.h:94-104 | with a policy object left over from another run no statement exceeds m rows |
| BatchSizes.FullRangeOneStatement | include/mysql++3.2.3/insertpolicy.h:94-104 | at the limit 2^32 - 1 all rows go into one statement, which keeps to the limit exactly when there are at most that many rows |
| BatchSizes.ZeroRowsTooStrict | include/mysql++3.2.3/query.h:1107-1124 | a limit of zero gives up at once |
| BatchSizes.MaxPacketFits | include/mysql++3.2.3/insertpolicy.h:201-215 | statements of two or more rows fit the limit, one-row statements pass it by at most the header less two, and the run gives up exactly when some row alone is too long |
| BatchSizes.MaxPacketWithinIff | include/mysql++3.2.3/insertpolicy.h:163-215 | for equally long headers, all rows are sent in statements within the documented maximum if and only if each row alone makes a statement within it |
| BatchSizes.CarriedWithinIff | include/mysql++3.2.3/insertpolicy.h:163-215 | also when the run gives up, the statements sent keep the maximum if and only if each row in them would alone |
| BatchSizes.PacketWitness | include/mysql++3.2.3/insertpolicy.h:201-215 | a maximum of 4 sends a statement of 30 characters |
| BatchSizes.ThresholdCloses | include/mysql++3.2.3/insertpolicy.h:142-147 | every statement but the last has reached the threshold |
| BatchSizes.PacketCloses | include/mysql++3.2.3/insertpolicy.h:201-215 | no statement but the last has room for the row that starts the next one |
| BatchSizes.ThresholdOvershoot | include/mysql++3.2.3/insertpolicy.h:142-147 | every statement was below the threshold before its last row; the run gives up only on a non-positive threshold |
| Query.QueryBuilder.InsertRange | include/mysql++3.2.3/query.h:1030-1053 | builds the SQL text that names the first row's table and fields and lists all the rows' values in order, or no text for no rows |
| Query.QueryBuilder.AddRow | include/mysql++3.2.3/query.h:1082-1125 | one round of the loop does what the plan says, or reports the failed statement |
| Query.RoundSucceeds | include/mysql++3.2.3/query.h:1081-1126 | across a round, executed batches plus pending statement remain exactly the rows consumed, in order |
| Query.QueryBuilder.RunRows | include/mysql++3.2.3/query.h:1081-1131 | the whole loop executes the plan's statements up to the first failure and reports success exactly when the plan is complete and none failed |
| Query.QueryBuilder.BatchFrom | include/mysql++3.2.3/query.h:1067-1141 | all batches or none under a transaction, those before the first failure without one; the exception for a strict policy also rolls back; an empty range does nothing |
| Query.QueryBuilder.InsertFrom | include/mysql++3.2.3/query.h:1067-1141 | commits exactly when every statement succeeded and every row found a batch; then each row is stored exactly once in order, in statements with the written-out SQL text of their batches, otherwise nothing is |
| Query.QueryBuilder.ReplaceFrom | include/mysql++3.2.3/query.h:1155-1229 | the same for REPLACE, with the same exact commit condition and the same text but for the verb |
| RefCounted.StepKeepsInv | include/mysql++3.2.3/refcounted.h:89-183 | every operation keeps: counts equal the handles that share them, objects are held or destroyed but never both, each destroyed and each count freed at most once |
| RefCounted.RunSound | include/mysql++3.2.3/refcounted.h:89-183 | over every legal run the invariant holds and the handles refer to what tracing gives |
| RefCounted.CompleteRunReleasesAll | include/mysql++3.2.3/refcounted.h:125-131 | a legal run that ends without handles has released every object and count exactly once |
| RefCounted.SelfAssign | include/mysql++3.2.3/refcounted.h:156-164 | assigning a handle to itself changes nothing |
| RefCounted.AssignRefs | include/mysql++3.2.3/refcounted.h:157-164 | after assignment the handle refers to what the other refers to and no other handle changes |
| RefCounted.AssignRawSoundIff | include/mysql++3.2.3/refcounted.h:133-147 | assigning a raw pointer keeps the invariant if and only if it was never handed in before |
| RefCounted.SamePointerNoOpIff | include/mysql++3.2.3/refcounted.h:138-147 | assigning the pointer a handle already manages changes nothing if and only if that pointer is null |
| RefCounted.SamePointerDangles | include/mysql++3.2.3/refcounted.h:125-147 | after it, once the other handles to the object are gone in any order, the object is destroyed and the handle still refers to it |
| RefCounted.SamePointerDestroys | include/mysql++3.2.3/refcounted.h:138-147 | re-assigning the pointer a sole handle manages destroys the object the handle still refers to |
| RefCounted.Store.ConstructRaw | include/mysql++3.2.3/refcounted.h:100-109 | a non-null pointer gets a new count of one |
| RefCounted.Store.ConstructCopy | include/mysql++3.2.3/refcounted.h:112-119 | shares pointer and count and increments it |
| RefCounted.Store.Destruct | include/mysql++3.2.3/refcounted.h:125-131 | decrements, and at zero destroys the object and frees the count |
| RefCounted.Store.SwapWith | include/mysql++3.2.3/refcounted.h:245-249 | exchanges both pointers of two handles |
| RefCounted.Store.AssignHandle | include/mysql++3.2.3/refcounted.h:157-164 | temporary, swap and destruction amount to assignment and keep the invariant |
| RefCounted.Store.AssignRaw | include/mysql++3.2.3/refcounted.h:140-147 | the same for a raw pointer, sound exactly when the pointer is new |
| TrailingSpace.PlainEndMeaning | include/mysqlconnector-6.1.9/m_string.h:326-328 | the byte loop stops exactly where only spaces follow and none precedes |
| TrailingSpace.EightSpaces | include/mysqlconnector-6.1.9/byte_order_generic.h:56-69 | the eight-byte load is the all-spaces word exactly when all eight bytes are spaces |
| TrailingSpace.SkipTrailingSpace | include/mysqlconnector-6.1.9/m_string.h:317-329 | eight bytes at a time returns the end of the byte loop for every string, reading inside it only |
| TrailingSpace.SkipTrailingSpaceAligned | include/mysqlconnector-6.1.9/m_string.h:280-310 | so does the aligned version for every base address and word size 4 or 8, with aligned loads inside the string |
| Bitmap.OpIsSetOp | include/mysqlconnector-6.1.9/my_bitmap.h:78-138 | each update of the bytes is the same update of the set of indices |
| Bitmap.CompareIsSetEquality | include/mysqlconnector-6.1.9/my_bitmap.h:113-122 | with a mask over exactly the unused bits, comparison is true iff the sets are equal, whatever the padding |
| Bitmap.IndexIsDigit | include/mysqlconnector-6.1.9/my_bitmap.h:99-103 | an index is in the set when binary digit i mod 8 of byte i / 8 is one |
| Bitmap.MaskExists | include/mysqlconnector-6.1.9/my_bitmap.h:113-122 | for every bit count there is a mask over exactly the unused bits of the last word |
| Bitmap.MyBitmap.SetBit | include/mysqlconnector-6.1.9/my_bitmap.h:78-82 | adds the index |
| Bitmap.MyBitmap.FlipBit | include/mysqlconnector-6.1.9/my_bitmap.h:85-89 | adds the index if absent, removes it if present |
| Bitmap.MyBitmap.ClearBit | include/mysqlconnector-6.1.9/my_bitmap.h:92-96 | removes the index |
| Bitmap.MyBitmap.ClearAllBits | include/mysqlconnector-6.1.9/my_bitmap.h:127-130 | leaves the empty set and every byte 0 |
| Bitmap.MyBitmap.SetAllBits | include/mysqlconnector-6.1.9/my_bitmap.h:135-138 | leaves all indices below the bit count and every byte 255 |
| Bitmap.MyBitmap.IsSet | include/mysqlconnector-6.1.9/my_bitmap.h:99-103 | the bit test is set membership |
| Bitmap.MyBitmap.Cmp | include/mysqlconnector-6.1.9/my_bitmap.h:113-122 | true exactly when both bitmaps hold the same indices |
| Bitmap.Run | include/mysqlconnector-6.1.9/my_bitmap.h:78-138 | any run of updates gives the set that the same run on sets gives |
| KeyLength.StoreKeyLengthInc | include/mysqlconnector-6.1.9/my_compare.h:85-92 | writes one byte, or 255 and two bytes with the high one first, advances past them and changes nothing else |
| KeyLength.GetKeyPackLength | include/mysqlconnector-6.1.9/my_compare.h:78-83 | reads a length of one byte, or of two after 255 with the high one first, and its packed size |
| KeyLength.PackedBytes | include/mysqlconnector-6.1.9/my_compare.h:85-92 | the bytes themselves: the length, or 255 and the low 16 bits with the high byte first |
| KeyLength.UnpackPacked | include/mysqlconnector-6.1.9/my_compare.h:64-92 | a stored length reads back as its low 16 bits, wherever it lies |
| KeyLength.RoundTrip | include/mysqlconnector-6.1.9/my_compare.h:64-92 | any list of 16-bit lengths stored back to back reads back as the list, ending where it ends |
| KeyLength.TooLong | include/mysqlconnector-6.1.9/myisampack.h:87-89 | a length of 65536 or more never reads back |
| RecBits.SetRecBits | include/mysqlconnector-6.1.9/my_compare.h:98-105 | the macro's one or two byte updates in place, as the record function `Write` whose bits the next rows describe |
| RecBits.GetRecBits | include/mysqlconnector-6.1.9/my_compare.h:94-96 | the macro's two-byte load, as `Read` and as the quotient and remainder of the little-endian number |
| RecBits.GetIsQuotient | include/mysqlconnector-6.1.9/my_compare.h:94-96 | the value read is the little-endian number of two bytes, divided by 2^offset, mod 2^length |
| RecBits.BitAtIsDigit | include/mysqlconnector-6.1.9/my_compare.h:94-105 | bit p of a record is binary digit p mod 8 of byte p / 8 |
| RecBits.WriteSets | include/mysqlconnector-6.1.9/my_compare.h:98-105 | a write sets its field, across a byte boundary or not, to the low bits of any value |
| RecBits.WriteOutside | include/mysqlconnector-6.1.9/my_compare.h:98-105 | outside the field a write sets exactly the bits that a too wide value spills on in the bytes touched, and changes no other |
| RecBits.WriteKeepsIff | include/mysqlconnector-6.1.9/my_compare.h:98-105 | all bits outside the field stay if and only if the value spills only on bits already set |
| RecBits.WriteKeeps | include/mysqlconnector-6.1.9/my_compare.h:98-105 | a write of a value that fits leaves every bit outside its field alone |
| RecBits.SpillWitness | include/mysqlconnector-6.1.9/my_compare.h:98-105 | writing 2 into a one-bit field sets the neighbouring bit |
| RecBits.ReadBits | include/mysqlconnector-6.1.9/my_compare.h:94-96 | a read returns exactly the bits of its field |
| RecBits.AllReadBack | include/mysqlconnector-6.1.9/my_compare.h:94-105 | after writing pairwise disjoint fields every field reads back as its own value |
| RecBits.OtherBitsKept | include/mysqlconnector-6.1.9/my_compare.h:98-105 | and every bit outside the fields keeps its value |
| Serialize.SerializeBase | include/serialize.hpp:4-15 | writes the value at the offset, or refuses and changes nothing |
| Serialize.SerializePB | include/serialize.hpp:17-32 | little-endian size prefix and body, with the prefix left behind when only the body does not fit |
| Serialize.PutMessageBytes | include/serialize.hpp:17-32 | the prefix is the eight little-endian bytes of the body's size, each written out, and the body follows |
| Serialize.PrefixRead | include/serialize.hpp:47-52 | the number read from eight bytes is the one whose little-endian bytes they are |
| Serialize.UnSerializeBase | include/serialize.hpp:34-45 | returns the bytes at the offset, or refuses |
| Serialize.UnSerializePB | include/serialize.hpp:47-62 | reads prefix and body and parses in place, or refuses and leaves the offset before the prefix or just after it |
| Serialize.OverrunIff | include/serialize.hpp:47-62 | the call passes on a length that reaches past the buffer if and only if the prefix plus the offset after it reaches 2^64; otherwise it is the read without wrap-around |
| Serialize.ParserLength | include/serialize.hpp:54-57 | below 2^31 bytes a length that passed the test reaches the parser's `int` unchanged, or negative if the sum wrapped |
| Serialize.OverrunWitness | include/serialize.hpp:54 | a prefix of eight 0xff bytes passes the test in every buffer |
| Serialize.AppendsAll | include/serialize.hpp:4-32 | a series of calls succeeds exactly when all items fit, and changes no byte outside the written range even when it refuses |
| Serialize.RoundTrip | include/serialize.hpp:4-62 | after a successful series of items whose bodies the parser gives back, reading the same kinds with the 64-bit tests returns equal items, never passes a length past the buffer, and ends at the same offset |
| ValueList.PrintValueListB | include/mysql++3.2.3/vallist.h:352-372 | the selected items joined, after one extra delimiter when the first is suppressed and a later one is not |
| ValueList.PrintEqualListB | include/mysql++3.2.3/vallist.h:296-317 | the same for the pairs left, equals sign, right, over the shorter of the two lists |
| ValueList.PrintValueList | include/mysql++3.2.3/vallist.h:329-344 | all items joined by the delimiter |
| ValueList.PrintEqualList | include/mysql++3.2.3/vallist.h:272-288 | all pairs left, equals sign, right joined, over the shorter list |
| ValueList.JoinConcat | include/mysql++3.2.3/vallist.h:329-344 | one delimiter between neighbouring groups, none around a single item |
| ValueList.SelectedAt | include/mysql++3.2.3/vallist.h:352-372 | each kept item stands right behind those kept before it |
| ValueList.SparseTextIsJoinIff | include/mysql++3.2.3/vallist.h:215-223 | the documented text appears exactly when the first item is kept, nothing is kept, or the delimiter is empty |
| ValueList.AllKept | include/mysql++3.2.3/vallist.h:352-372 | with every item kept the sparse and the plain printer agree |
| ValueList.LeadingDelimiterWitness | include/mysql++3.2.3/vallist.h:352-372 | list (a, b) with only b kept prints ":b" |

## Left out

- Buffer.CByteBuffer.WriteBuf: sizes that are granted on a wrapped sum are excluded by a precondition, here and in ReserveFillCommit, CheckedWritePointer and Run; `GrantSoundIff` shows that these are exactly the unsound grants, after which the copy would leave the block.
- Buffer: `realloc` is assumed to succeed; elements wider than one byte are not modelled, because the copies count bytes; the overloads of `ReadBuf` that return raw pointers are not modelled.
- Query.QueryBuilder.BatchFrom: a failed statement is a `false` reply; if the library raises an exception there instead, the transaction's destructor rolls back, which has the same effect on the database. Statement lengths are unbounded integers, so statements of 2^31 or more characters are not covered. The connection's state is part of the query object.
- RefCounted: counts do not wrap, object and count addresses are never reused, and an exception from allocating a count is not modelled.
- FakeRandom: `Lottery` and its floating point.
- Hash.GetHash: the empty string is excluded, because the code's unsigned subtraction then makes it read far beyond the string; words are little-endian.
- GameTime, DiffDays: daylight saving; the week and month helpers; `abs` is the overload for `long`.
- DiffDays.DiffDaysExact: times 49711 days (4295030400 seconds) or more apart, where the 32-bit product wraps (`WrapGapTight`).
- TrailingSpace: address wrap-around at the top of memory.
- Bitmap.MyBitmap.Cmp: bitmaps of different sizes, for which the code promises nothing; the body of `bitmap_init` is not in the header, so the constructor only shows that valid bitmaps exist.
- RecBits.AllReadBack: values wider than their field, which the write macro lets spill (`WriteKeepsIff`).
- Serialize: the protobuf body codec is a parameter that is handed exactly the bytes of the body; what it does with a negative length, or with bodies of 2^31 bytes or more, is not modelled. Sums of an offset and the size of a value in memory are unbounded, because value and buffer share one address space; only the length read from the buffer can wrap.
- Serialize.UnSerializePB: a prefix that wraps the sum is excluded by a precondition; `Fetch` and `OverrunIff` cover it.
- core/shm_pipe.h and core/center_mng.h hold declarations only; sockets, daemons, ciphers, configuration loading and the remaining MySQL++ classes are system calls or thin wrappers.
