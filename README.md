# Filter: a verified model of the Arduino data-filtering library

The Filter library keeps the most recent readings from a sensor and
computes statistics over them. This project models its two core classes
and proves what they compute:

- **FilterQueue** (`FilterQueue.cpp`, version 0.6.0) is a bounded FIFO of
  `long` values. It is a doubly linked list from `_head` (oldest) to
  `_tail` (newest), with the counters `_currentSize` and `_maxSize`.
  `write` appends and evicts the oldest value when the queue is full.
  `orderedWrite` links a value into ascending position. `read` and
  `read(index)` look values up. `setMaxSize` changes the capacity and drops
  the oldest values. The class also has a copy constructor and an
  assignment operator. In the model the class is
  `Queue.FilterQueue`. Its list is the sequence field `elems`, head first.
  `currentSize` and `maxSize` are separate fields, as in the source.
  `Valid()` ties only `currentSize` to the list length; `maxSize` is a
  capacity the list may exceed (see `orderedWrite` below).
- **Filter** (`Filter.cpp`, version 0.3) keeps up to `sampleSize` readings
  in an array `_values`, newest first. `prepend` shifts the array and puts
  the new reading in slot 0. `mean`, `median`, `maximum` and `minimum`
  compute the statistics and keep them in fields. In the model the class
  is `Stats.Filter`, and the two arrays stay arrays.
  `median` builds a sorted snapshot in `_medianValues` by repeated ordered
  insertion. The sorted insertion is shared with `orderedWrite`, in module
  `Ordering`.

The modules are:

- `ordering.dfy` (`Ordering`): ascending insertion (`InsertionPoint`,
  `Inserted`). It also defines the sorted snapshot built by inserting the
  readings one at a time (`Snapshot`). It proves that an ascending
  arrangement of a multiset is unique.
- `queue.dfy` (`Queue`): the FilterQueue class and the pure definitions its
  methods are proved against:
  - `Written`, one write, branch for branch;
  - `Newest`, the newest m values;
  - `WriteAll`, a run of writes;
  - `Replayed`, what copying replays.
- `stats.dfy` (`Stats`): the Filter class and its pure specification:
  - `TruncDiv` and `TruncMod`, C's truncating `/` and `%`;
  - `Sum` and `MeanOf`;
  - `MiddleOf` and `MedianOf`;
  - `Prepended`.
  It also proves that Filter's newest-first window, read back to front,
  is FilterQueue's oldest-first queue.

Points where the code's behaviour is easy to misread, all modelled as the
code does it:

- `mean` scales each reading by 100 (two decimals). Its rounding adds one when the two
  dropped decimals are 50 or more. For a negative sum C's `%` is never 50
  or more, so negative means are truncated toward zero, not rounded
  (`MeanTruncatesNegative`, `MeanOfNegativeExample`).
- The even-count median is the truncated average of the two middle values,
  C's `(a + b) / 2`. It is not rounded to the nearest integer.
- `FilterQueue::write` on an empty queue stores the value whatever
  `_maxSize` is, so a queue of capacity 0 can hold one value
  (`WrittenIgnoresCapacityWhenEmpty`).
- `orderedWrite` makes no capacity check, so `currentSize <= maxSize` is
  not an invariant of the class. It is proved for every run of writes on a
  queue within capacity (`WriteAll`, `WrittenBounded`).
- Filter version 0.3 keeps its own array. It does not use FilterQueue.
  `PrependMirrorsWrite` proves the two keep the same window.
- `operator=` empties the list before walking the other list. Assigning a
  queue to itself therefore leaves it empty (`Assign`).

Readings are listed as `Filter` stores them, newest first (slot 0
first), unless a row says they were written one after another.

Each read of a value from the source that may be missing is an `Option`:
`read()` on an empty queue, and `read(index)` with no such position. In
the source both fall off the end of a non-void function.

## Model

| member | source | states |
|---|---|---|
| Ordering.InsertionPoint | FilterQueue.cpp:93-121 | the position orderedWrite links a value at: every value before it is at most v, and the value at it, if any, is strictly greater |
| Ordering.InsertionPointUnique | FilterQueue.cpp:93-121 | those two conditions single out the insertion point, so a scan that stops at the first greater value finds it |
| Ordering.Inserted | FilterQueue.cpp:80-125 | an ordered insertion adds exactly one copy of v (multiset), grows the list by one and puts v at the insertion point |
| Ordering.InsertedSorted | FilterQueue.cpp:93-121 | inserting into an ascending list keeps it ascending |
| Ordering.Snapshot | Filter.cpp:79-82 | inserting the readings one at a time, reading 0 first, yields an ascending permutation of the readings |
| Ordering.SnapshotStep | Filter.cpp:80-82 | one iteration of median's insertion loop extends the snapshot of a prefix by the next reading |
| Ordering.SortedUnique | Filter.cpp:79-82 | two ascending sequences with the same multiset of values are equal |
| Ordering.SnapshotIgnoresOrder | Filter.cpp:79-82 | the snapshot depends only on which readings are stored, not on their order |
| Ordering.SnapshotIs | Filter.cpp:79-82 | any ascending permutation of the readings is their snapshot |
| Ordering.SnapshotOfSorted | Filter.cpp:79-82 | readings already in ascending order are their own snapshot |
| Queue.WriteDefined | FilterQueue.cpp:161-211 | the states in which write keeps its list and counter consistent: every state but a one-element queue with maxSize at most 0 and an over-full queue with maxSize 1; in particular every empty queue and every queue within a capacity of at least 1 |
| Queue.Written | FilterQueue.cpp:161-211 | the list after write(v), branch for branch (first item, room left, full with one slot, full); the result is at most one longer and ends with v |
| Queue.Replayed | FilterQueue.cpp:45-69 | what copying or assigning leaves: a suffix of the other's values, at most maxSize of them when maxSize is at least 1, and all of them when they fit |
| Queue.WrittenWithRoom | FilterQueue.cpp:166-183 | on an empty queue or one with room, a write appends v at the tail |
| Queue.WrittenWhenFull | FilterQueue.cpp:184-210 | on a full queue with maxSize at least 1, a write drops the head and appends v |
| Queue.Newest | FilterQueue.cpp:147-159 | the newest m values in order: a suffix of length min(m, size), empty for negative m |
| Queue.WrittenKeepsNewest | FilterQueue.cpp:161-211 | on a queue within capacity (maxSize at least 1) a write is always defined and leaves the newest maxSize values of the old list plus v |
| Queue.WrittenBounded | FilterQueue.cpp:166-210 | a write grows a queue with room by one, keeps a full queue full, never exceeds capacity, and puts v at the tail |
| Queue.WrittenIgnoresCapacityWhenEmpty | FilterQueue.cpp:166-173 | a write into an empty queue stores v whatever maxSize is, exceeding a capacity of 0 or less |
| Queue.WriteAll | FilterQueue.cpp:161-211 | any run of writes on a queue within capacity leaves it within capacity |
| Queue.WritesKeepNewest | FilterQueue.cpp:161-211 | any run of writes leaves exactly the newest maxSize values of everything written, oldest first |
| Queue.WriteOneMore | FilterQueue.cpp:161-211 | the induction step of WritesKeepNewest: one more write keeps the newest maxSize values |
| Queue.OldestAfterOverflow | FilterQueue.cpp:184-210 | after maxSize + k writes into an empty queue it is full, its head is the (k+1)-th value written and its tail the last |
| Queue.FilterQueue.constructor | FilterQueue.cpp:30-35 | a new queue is empty with maxSize 0 |
| Queue.FilterQueue.WithMaxSize | FilterQueue.cpp:37-42 | a new queue is empty with the given maxSize |
| Queue.FilterQueue.Copy | FilterQueue.cpp:45-55 | the copy has the other's maxSize and holds what replaying its values leaves; a queue within capacity is copied exactly |
| Queue.FilterQueue.Assign | FilterQueue.cpp:58-69 | assignment takes the other's maxSize and replays its values; assigning a queue to itself empties it |
| Queue.FilterQueue.WriteEach | FilterQueue.cpp:50-54 | writing values one at a time into an empty queue leaves the newest maxSize of them (all of them when maxSize is below 1 and there is at most one) |
| Queue.FilterQueue.CurrentSize | FilterQueue.cpp:72-74 | the counter returned is the number of values in the list |
| Queue.FilterQueue.MaxSize | FilterQueue.cpp:76-78 | returns the configured capacity |
| Queue.FilterQueue.OrderedWrite | FilterQueue.cpp:80-125 | the list becomes the ordered insertion of v, the counter grows by one, and there is no capacity check |
| Queue.FilterQueue.Read | FilterQueue.cpp:128-132 | the head (oldest) value, or None when the queue is empty |
| Queue.FilterQueue.ReadAt | FilterQueue.cpp:135-145 | the value at index counted from the head when 0 <= index < size, None otherwise |
| Queue.FilterQueue.SetMaxSize | FilterQueue.cpp:147-159 | records the new capacity and keeps exactly the newest m values, in order (none for negative m) |
| Queue.FilterQueue.Write | FilterQueue.cpp:161-211 | the list after a write follows the source's four branches; the counter stays equal to the list length |
| Queue.CopyThenWrite | FilterQueue.cpp:45-55 | a copy is a distinct object: on any queue within a capacity of at least 1, full ones included, writing to the copy leaves the original's values and maxSize unchanged, and the copy holds the newest maxSize values of the original's values then v |
| Stats.TruncDiv | Filter.cpp:61 | C division by a positive divisor: the quotient rounded toward zero, with its remainder bounds for each sign of the dividend |
| Stats.TruncMod | Filter.cpp:63 | C remainder: quotient times divisor plus remainder is the dividend, and the remainder takes the dividend's sign |
| Stats.Sum | Filter.cpp:58-60 | the sum accumulated by mean's loop; non-negative readings have a non-negative sum and non-positive readings a non-positive one |
| Stats.MeanOf | Filter.cpp:54-70 | mean: the sum scaled by 100, divided by the count, then divided by 100 with the rounding branch; a non-negative sum gives a non-negative mean and a negative sum a mean of at most 0 |
| Stats.RoundedBetween | Filter.cpp:63-68 | the rounding step of mean maps a scaled value in [100*lo, 100*hi] back into [lo, hi] |
| Stats.TruncDivBetween | Filter.cpp:61-68 | truncating division by b maps [b*lo, b*hi] into [lo, hi] |
| Stats.SumBounds | Filter.cpp:58-60 | readings between lo and hi sum to between n*lo and n*hi |
| Stats.MeanBounded | Filter.cpp:54-70 | the mean lies within any bounds of the readings, so between their minimum and maximum |
| Stats.MeanRoundsHalfUp | Filter.cpp:61-68 | for a non-negative sum, the scaled quotient is the exact mean times 100, truncated, and the result is that quotient rounded half up to a multiple of 100 |
| Stats.MeanTruncatesNegative | Filter.cpp:61-68 | for a negative sum the rounding branch never fires: the mean is the scaled quotient truncated toward zero, and it is at most 0 |
| Stats.MeanOfNegativeExample | Filter.cpp:54-70 | stored readings -2, -2, -1 have mean -1 (exact mean -1.67) |
| Stats.FiveReadingsMean | Filter.cpp:54-70 | stored readings 40, 30, 20, 20, 10 have mean 24 |
| Stats.MiddleSplits | Filter.cpp:84-92 | in an ascending snapshot the middle is the middle value (odd count) or between the two middle values (even count); the first half is at most it and the rest at least it |
| Stats.MedianSplits | Filter.cpp:72-94 | at least half of the sorted readings are at most the median and the rest at least it |
| Stats.PairAverage | Filter.cpp:91 | C's `(a + b) / 2`: the truncated average, which lies between a and b |
| Stats.MiddleOf | Filter.cpp:84-92 | the intended middle of a snapshot: for an odd count one of its values (the middle one), for an even count a value between the two middle values |
| Stats.MedianOf | Filter.cpp:72-94 | median: the middle of the sorted snapshot of the readings; for an odd count it is one of the stored readings |
| Stats.MedianAsWritten | Filter.cpp:86-91 | the middle as line 91 computes it: for an odd count one of the snapshot's values, for an even count a value between the values at count/2 and count/2 + 1 |
| Stats.MedianBounded | Filter.cpp:72-94 | the median lies within any bounds of the readings |
| Stats.MedianIgnoresOrder | Filter.cpp:72-94 | the median depends only on which readings are stored, not on their order |
| Stats.MedianAsWrittenOffByOne | Filter.cpp:90-91 | stored readings 4, 3, 2, 1 sort to 1, 2, 3, 4; on that sorted snapshot line 91's pair gives 3 and the middle pair gives 2 (the program as written returns 4, because its `_orderedInsert` does not sort; see Left out) |
| Stats.MiddlesOfFourSorted | Filter.cpp:86-91 | on 1, 2, 3, 4 the pair the code as written averages gives 3, the middle pair gives 2 |
| Stats.FiveReadingsMedian | Filter.cpp:72-94 | stored readings 40, 30, 20, 20, 10 have median 20 |
| Stats.Prepended | Filter.cpp:39-52 | after prepend, v is first, the old readings follow shifted by one, and the count grows up to the capacity |
| Stats.PrependMirrorsWrite | Filter.cpp:39-52 | read back to front, prepend on a window of capacity n is a defined FilterQueue write with maxSize n |
| Stats.Filter.constructor | Filter.cpp:31-37 | a new filter has sampleSize slots in each array and no readings stored |
| Stats.Filter.Prepend | Filter.cpp:39-52 | every slot moves one place toward the end, v goes in slot 0, the count grows up to sampleSize, and the stored readings become Prepended of the old ones |
| Stats.Filter.PrependAsWritten | Filter.cpp:39-46 | as written, the shift loop never runs: only slot 0 changes |
| Stats.Filter.Mean | Filter.cpp:54-70 | the summing loop computes MeanOf of the stored readings, and stores it in the mean field |
| Stats.Filter.FindSlot | Filter.cpp:116-131 | the scan for the first snapshot slot holding a value greater than v finds the insertion point |
| Stats.Filter.OpenGap | Filter.cpp:116-131 | the slots from k on move one place right, the slots before k are unchanged |
| Stats.Filter.OrderedInsert | Filter.cpp:111-132 | the snapshot prefix of the median array becomes its ordered insertion of v, one longer |
| Stats.Filter.FillSnapshot | Filter.cpp:74-82 | after the insertion loop, the median array's first count slots hold the sorted snapshot of the stored readings |
| Stats.Filter.Middle | Filter.cpp:84-92 | picks MiddleOf of the snapshot held in the median array |
| Stats.Filter.Median | Filter.cpp:72-94 | returns and stores MedianOf the stored readings, leaves the readings unchanged and the sorted snapshot in the median array |
| Stats.Filter.Maximum | Filter.cpp:167-178 | the largest stored reading, which is one of them; slot 0 when nothing is stored |
| Stats.Filter.Minimum | Filter.cpp:180-191 | with the intended loop test, the smallest stored reading, which is one of them; slot 0 when nothing is stored |
| Stats.Filter.MinimumAsWritten | Filter.cpp:180-191 | as written the loop never runs once a reading is stored: the result is always slot 0, the newest reading |
| Stats.MinimumAsWrittenExample | Filter.cpp:180-191 | 1 then 5 written: minimum as written gives 5, the corrected scan gives 1 |
| Stats.PrependAsWrittenExample | Filter.cpp:39-46 | 1 then 2 written into a window of two: prepend as written keeps 2 and the never-written slot 1 (0 under the model's zero fill), losing the 1; the corrected shift keeps 2, 1 |

## Left out

- Memory management (`malloc`, `free`, the `_prev`/`_next` links) is not modelled. The list is a sequence, so node aliasing and leaks are not captured.
- Queue.FilterQueue.SetMaxSize: models the intended head update. Line 157 never moves `_head` to the surviving node, so the source keeps `_head` at a freed node. With a negative m on an empty queue the branch is still taken, the freeing loop does not run, and line 157 dereferences a NULL `_head`. The model records m and drops the oldest values, keeping none for a negative m.
- Queue.FilterQueue.Write: requires `WriteDefined`. It excludes the two states where the source breaks its own list or counter. One is a one-element queue with maxSize of 0 or less: the head is freed while still linked. The other is a queue over capacity, filled by `orderedWrite`, with maxSize 1: the counter is not reset.
- Queue.FilterQueue.Copy: requires maxSize at least 1, or at most one value, for the same reason: the replay calls write and would reach the first excluded state.
- Queue.FilterQueue.Assign: requires the same of a different queue. Self-assignment is always allowed: the source clears the list before walking it and calls write zero times.
- Queue.FilterQueue.Read: returns None where the source returns an undefined value. ReadAt does the same.
- `long` is 32-bit on the target. FilterQueue values and counters are unbounded integers here.
- Stats.Filter.Mean: does not model overflow. `_values[i] * 100` is computed in 16-bit `int` before it is added to the `long` sum. The model's sum is exact.
- Stats.MiddleOf: the pair sum is exact. In the source `_medianValues[midpoint] + _medianValues[midpoint+1]` is a 16-bit `int` sum and overflows once the two values pass 32767 together. Readings, `_values` and `_medianValues` are unbounded integers here, not 16-bit `int`. MedianAsWritten and PairAverage have the same gap.
- Stats.Filter.Mean: requires at least one reading. The source divides by the count.
- Stats.Filter.Median: requires at least one reading. With none, the source averages two stale slots of `_medianValues`.
- Stats.MedianAsWritten: excludes a count of 2. There the second index of line 91 is past the snapshot.
- Stats.Filter.Maximum: requires sampleSize at least 1, because the source reads `_values[0]` unconditionally. Minimum and Prepend have the same requirement.
- Stats.Filter.MinimumAsWritten: requires at least one reading. With none, the inverted loop test stays true and the loop runs off the array.
- Stats.Filter.OrderedInsert: models the sorted insertion that `median` relies on, not the recursive `_orderedInsert` as written (lines 116-132). On the first insert the snapshot is empty, so the test `i == _medianValuesCount` holds at i = 0; the slot is filled and the count becomes 1, which makes the test hold again at i = 1, and so on: the `for` loop, without recursing, fills every slot up to `_valuesCount` with `_values[0]`. Every later insert finds `_medianValuesCount == _valuesCount` and does nothing. As written, `median` therefore returns the newest reading (4 for the stored 4, 3, 2, 1). The routine also bounds its loop by `_valuesCount` rather than the snapshot size.
- Lines 174 and 187 read `_value[i]`, which is not a member; it does not compile. The model reads `_values[i]`, the evident intent.
- The constructor's `int _values[_sampleSize]` and `int _medianValues[_sampleSize]` declare locals that vanish, and the member arrays are never allocated. The model allocates both arrays at sampleSize slots filled with 0. The `byte type` constructor argument is unused and not modelled.
- `stdev` and `mode` are not modelled. `stdev` uses floating point and `^` as exclusive-or. `mode` never assigns `_mode`.
- The version 0.4 header's `put`, `describe` (`String`), `_valuesFirst` and `_valuesLast` have no implementation in `Filter.cpp` version 0.3, and `Arduino.h` is not part of this model.

## Findings

| source | as written | input that shows it | evidently intended | confidence | as-written member | corrected member |
|---|---|---|---|---|---|---|
| Filter.cpp:91 | even count averages `_medianValues[midpoint]` and `[midpoint+1]` | stored readings 4, 3, 2, 1, once sorted to 1, 2, 3, 4: answer 3 (the program as written returns 4, because `_orderedInsert` does not sort; see Left out) | average of `[midpoint-1]` and `[midpoint]`: answer 2 | high; not executed | Stats.MedianAsWritten, Stats.MedianAsWrittenOffByOne | Stats.MiddleOf, Stats.MiddleSplits |
| Filter.cpp:185 | loop test `i > _valuesCount`, so the scan never runs | 1 then 5 written: answer 5 | `i < _valuesCount`: answer 1 | high; not executed | Stats.Filter.MinimumAsWritten, Stats.MinimumAsWrittenExample | Stats.Filter.Minimum |
| Filter.cpp:41 | shift starts at `sizeof(_values)/sizeof(int) - 1`, which is 0 on AVR, where `int *` and `int` have the same size | 1 then 2 written into a window of two: slot 0 holds 2 and slot 1 was never written, so the 1 is lost | start at `_sampleSize - 1`: stored 2, 1 | medium (depends on the target's address size); not executed | Stats.PrependAsWrittenExample | Stats.Filter.Prepend |
