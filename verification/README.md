# Models of the ns-3 core: fixed-point numbers, event queues, the simulator loop, CSV lines

The project models four parts of the ns-3 core module and proves what they are relied upon for.

* **Numbers.** `int64x64_t` on two-limb 128-bit integers. `WideInt` holds the integer operations with their 64-bit
  wrap-around written out, `NarrowDiv` the 96-by-64-bit division, `FixedPoint` the unsigned Q64.64 product and the
  digit-skipping long division, `HighPrecision` (file Int64x64.dfy) the class that overwrites its value in place and
  the division by a precomputed inverse, `DecimalText`, `DecimalReading` and `DecimalRoundTrip` the printer, the reader
  and what they do to each other. Each loop is a method proved equal to a mathematical function: floor, truncation,
  ceiling, or the digits of an integer.
* **Event queues.** `ListQueue` is the plain sorted list. `HeapQueue` (binary heap) and `CalendarQueue` (bucket array
  with a wrapping search and self-sampled resizing, in both bucket orders) are proved against it in `SchedulerRuns`:
  any run of operations gives the same answers.
* **The simulator.** `Simulator` is the state machine: queue, clock, uids, cancel flags, and the list other threads
  fill; a locked block is one step. `SimulatorInvariants` proves what holds after any sequence of steps, `Handlers`
  runs deterministic event handlers while other threads push and says which steps a run takes and what it notifies,
  `RunLaws` what runs look like from outside, `CancelRemove` turns cancelling into removing, and
  `DefaultSimulator` is the object itself, updating its fields in place over a queue of any kind (`AnyQueue`), whose
  every method takes the model state to the next one.
* **CSV.** `Csv` defines a column by its parts and proves the parser's state machine equal to it; `CsvRoundTrip` shows
  that what was written, in quotes or without, is read back, and which lines are blank rows.

Handlers are trees of calls (`Handlers.Prog`) chosen by event object, time, context and a memory of identifiers and
data; they branch on the expiry of identifiers and on the delay left until their events. It is an assumption that they
look at nothing else: the simulator also offers its count of processed events (core/model/default-simulator-impl.cc:395-399),
which differs after Cancel and after Remove. Other threads appear as steps that push events at any time, or as the batch
that arrives while an event is processed. Times, uids and counters are unbounded naturals; queued timestamps stay below
2^64 - 1, the calendar's search sentinel. Delays are not negative, which the results about order rest on; Schedule
asserts it (core/model/default-simulator-impl.cc:229), ScheduleWithContext does not (lines 243-273), and
`SimulatorInvariants.OnlyTheFutureKeepsOrder` says that an event in the past always breaks the order.

## Where the code and its comments differ

The model follows the code in each case.

* core/helper/csv-reader.h:148-151 says trailing blanks are ignored; core/helper/csv-reader.cc:376-393 drops them only
  when a delimiter ends an unquoted field, so `1,2 # c` has the columns `1` and `2` followed by a blank.
* core/helper/csv-reader.h:307-315 calls a blank line a blank row; a line without any character has no column, and the
  flag at core/helper/csv-reader.cc:332 is then false.
* core/model/int64x64.cc:56-66 calls the printing exact; lines 122-124 look at one unprinted digit only, so a 5 after
  an even digit is dropped even when more digits follow it.
* core/model/int64x64-cairo.cc:216-235 rounds the inverse up after multiplying back; for 2^63 the probe is negative
  and the result is one unit above the ceiling. Quotients of integers are still exact.
* core/model/int64x64.cc:195-211 returns the low word of a sum whose rounding can reach one: for nineteen
  nines with more behind them that rounds up, the carry is lost, so `0.99999999999999999999` is read as zero.
  `DecimalReading.Carries` is the exact condition: the fraction is within 5/9 of a unit of 2^-64 of one.
* The number -2^127 prints with two minus signs, since its magnitude has no positive form, and is not read back.
* core/model/cairo-wideint.c:765 widens a 32-bit word through a signed cast, so with 64-bit support the 96-by-64
  division is wrong when a low divisor word between 1 and 2^31 meets a numerator of at least 2^64.
* core/model/calendar-scheduler.cc:366-382 doubles the average gap and triples the total in 64 bits, so gaps of 2^63
  and more can give a width of one; the width is right exactly when it fits in 64 bits.
* core/model/heap-scheduler.cc:237-239 only sifts down after an event is removed out of turn, so the heap may lose its
  order.

## Model

| member | source | states |
|---|---|---|
| WideInt.Add | core/model/cairo-wideint.c:388-398 | Two-limb addition with its carry is addition modulo 2^128 |
| WideInt.Sub | core/model/cairo-wideint.c:400-410 | Two-limb subtraction with its borrow is subtraction modulo 2^128 |
| WideInt.Negate | core/model/cairo-wideint.c:634-640 | Complement and increment is negation modulo 2^128 |
| WideInt.Lt | core/model/cairo-wideint.c:570-576 | The limb comparison is the order of the 128-bit values |
| WideInt.SignedLt | core/model/cairo-wideint.c:578-586 | The signed comparison is the order of the two's complement values |
| WideInt.Lsl | core/model/cairo-wideint.c:516-532 | Shifting left multiplies by a power of two modulo 2^128, for shifts below and from 64 bits |
| WideInt.Rsl | core/model/cairo-wideint.c:534-550 | Shifting right by any distance below 128 divides by that power of two, rounding down |
| WideInt.Mul64x64 | core/model/cairo-wideint.c:460-486 | Four 32-bit partial products and the carry give the exact 128-bit product |
| WideInt.DivRem | core/model/cairo-wideint.c:601-632 | Bit-at-a-time division ends with num = quo * den + rem and rem < den for every den > 0, also when shifting stops at the top bit |
| WideInt.TruncDivTruncates | core/model/cairo-wideint.c:652-674 | The quotient the signed wrapper is held to truncates toward zero and its remainder has the numerator's sign |
| WideInt.SignedDivRem | core/model/cairo-wideint.c:652-674 | The signed wrapper gives that quotient modulo 2^128 and that remainder |
| NarrowDiv.OverflowMarker | core/model/cairo-wideint.c:676-793 | The overflow marker comes back exactly when the quotient does not fit 32 bits |
| NarrowDiv.DivRem96by64Exact | core/model/cairo-wideint.c:685-793 | A quotient that fits and its remainder are right if and only if the low divisor word is not misread: numerator below 2^64, or low word 0 or above 2^31 |
| NarrowDiv.SomeLowWordIsMisread | core/model/cairo-wideint.c:760-770 | 2^64 divided by 2^32 + 1 comes out wrong |
| NarrowDiv.MainTermMisread | core/model/cairo-wideint.c:760-770 | What the signed cast makes of a low word between 1 and 2^31 |
| FixedPoint.ProductParts | core/model/int64x64-cairo.cc:84-118 | The partial products of two words add up to the exact product |
| FixedPoint.MiddlePart | core/model/int64x64-cairo.cc:96-98 | The middle partial products of magnitudes up to 2^127 add up without overflow |
| FixedPoint.Umul | core/model/int64x64-cairo.cc:84-118 | The product is floor(a * b / 2^64) modulo 2^128, and the abort test fires exactly when the high words' product reaches 2^64 |
| FixedPoint.NoBitDiscarded | core/model/int64x64-cairo.cc:162-170 | Whenever the cast-off loop shortens the denominator, the bit it casts off is zero |
| FixedPoint.RoundProgresses | core/model/int64x64-cairo.cc:153-160 | Between rounds the remainder is below the denominator and one more shift loses none of its bits |
| FixedPoint.Udiv | core/model/int64x64-cairo.cc:129-190 | The digit-skipping division gives floor(a * 2^64 / b) modulo 2^128 for 0 < b <= 2^127; every round adds a digit, so it ends |
| HighPrecision.Int64x64.Mul | core/model/int64x64-cairo.cc:75-118 | The stored value becomes the signed product truncated toward zero; it is right if and only if that is representable, and otherwise wraps or aborts |
| HighPrecision.Int64x64.Div | core/model/int64x64-cairo.cc:120-190 | The stored value becomes the signed quotient truncated toward zero, modulo 2^128 |
| HighPrecision.UmulByInvertWithinOne | core/model/int64x64-cairo.cc:202-214 | Leaving out the low words' product costs at most one unit, and nothing for integers |
| HighPrecision.Int64x64.MulByInvert | core/model/int64x64-cairo.cc:192-200 | For every divisor that the operand is an inverse of, the stored value becomes the truncated quotient within one unit of 2^-64, and for integers its integer part is exact |
| HighPrecision.ProbeInverse | core/model/int64x64-cairo.cc:216-235 | Multiplying back gives 1 exactly when 2^128 was divided without remainder and the divisor is not 2^63 |
| HighPrecision.Int64x64.Invert | core/model/int64x64-cairo.cc:216-235 | The inverse of n > 1 is the ceiling of 2^128 / n if and only if n is not 2^63, and never more than one unit too large |
| HighPrecision.InverseQuotient | core/model/int64x64-cairo.cc:202-235 | The inverse's error never reaches the next quotient of an integer |
| HighPrecision.IntegerDivisionByInverse | core/model/int64x64-cairo.cc:192-235 | For every 64-bit integer and divisor above one, multiplying by the inverse and taking the integer part is division truncated toward zero |
| HighPrecision.Int64x64.DivideByInvariant | core/model/int64x64-cairo.cc:192-235 | Invert, MulByInvert and GetInt one after the other divide any integer exactly |
| HighPrecision.DivisionByInverseWithinOne | core/model/int64x64-cairo.cc:192-235 | For any other non-negative number the result is within one unit of 2^-64 |
| HighPrecision.LargeNeverDivides | core/model/int64x64-cairo.cc:216-235 | No divisor above 2^63 divides 2^128, so the negative probe does no harm there |
| HighPrecision.IntegerPartTruncates | core/model/int64x64-cairo.h:260-267 | GetInt truncates toward zero, the least integer included |
| DecimalText.IncrementDigits | core/model/int64x64.cc:125-154 | Carrying through a digit string is adding one to the number, a carry out of the front included |
| DecimalText.PropagateCarry | core/model/int64x64.cc:125-154 | The right-to-left walk in the printed string skips the point and increments its digits |
| DecimalText.Print | core/model/int64x64.cc:68-160 | The printed text is sign, integer part and the rounded digits of the exact expansion, in both stream formats |
| DecimalReading.ReadHiDigits | core/model/int64x64.cc:171-183 | The integer reader accumulates digits modulo 2^64 |
| DecimalReading.ReadHiOfDigits | core/model/int64x64.cc:171-183 | What it reads from digits is the number they spell, modulo 2^64 |
| DecimalReading.ReadLoDigits | core/model/int64x64.cc:195-211 | The fraction reader's right-to-left divisions by ten, failing on a character that is no digit |
| DecimalReading.ReadLoExactly | core/model/int64x64.cc:195-211 | Dividing by ten digit by digit and rounding each time is rounding once: before it is cut to 64 bits, the sum for any digits is the decimal fraction in units of 2^-64, plus 5/9, rounded down |
| DecimalReading.ReadLoCarries | core/model/int64x64.cc:195-211 | The sum reaches one, or is zero, exactly when the decimal fraction is within 5/9 of a unit of one, or below 4/9 of a unit |
| DecimalReading.CarriesLooksLike | core/model/int64x64.cc:195-211 | The digits that reach one are nineteen nines with a rest behind them that rounds up |
| DecimalReading.ReadLoOfDigits | core/model/int64x64.cc:195-211 | What the fraction reader returns is within 5/9 of a unit of 2^-64 of the decimal fraction if and only if that is not within 5/9 of a unit of one; if it is, the reader returns zero |
| DecimalReading.TwentyNinesCarry | core/model/int64x64.cc:195-268 | Such digits: +0.99999999999999999999 is read as zero |
| DecimalReading.SplitNumeral | core/model/int64x64.cc:219-253 | In any decimal numeral, signed or not, with a point or without, and behind spaces or, if it has a sign, any text without that sign or a minus, the splitter finds sign, integer digits and fraction |
| DecimalReading.Parse | core/model/int64x64.cc:213-268 | The token is split, read and negated as the specification says, failing on a fraction character that is no digit |
| DecimalReading.ParseWithin | core/model/int64x64.cc:171-268 | Any decimal numeral is read as a number within 5/9 of a unit of what it denotes, if and only if its integer part is below 2^63 (or it is -2^63 followed by a fraction below 4/9 of a unit) and its fraction is not within 5/9 of a unit of one |
| DecimalRoundTrip.PrintedWithin | core/model/int64x64.cc:84-124 | In either format the text is within 0.6 of its last place |
| DecimalRoundTrip.NearestUnlessHalfKept | core/model/int64x64.cc:119-124 | It is a nearest decimal if and only if the rounding does not meet a 5 after an even digit with more than half cut off |
| DecimalRoundTrip.SomeHalfIsKept | core/model/int64x64.cc:119-124 | 15/256 with one place is printed as 0.0, more than half a place away |
| DecimalRoundTrip.PrintedForm | core/model/int64x64.cc:68-160 | In any format any number but -2^127 is printed as sign, integer part without needless zeros, point, and as many places as the format asks for (in the default one the fewest that are exact, at most 20); they spell a nearest decimal unless a 5 is kept, the even one of two equally near |
| DecimalRoundTrip.FractionSurvives | core/model/int64x64.cc:68-211 | In these formats printing and reading errors together stay below one unit, so the fraction is the same |
| DecimalRoundTrip.RoundTrip | core/model/int64x64.cc:68-268 | Printing in default format, or in fixed format with 20 places or more, and parsing back gives the same number if and only if it is not -2^127 |
| DecimalRoundTrip.LeastIsMisread | core/model/int64x64.cc:68-268 | -2^127 prints with two minus signs and is read as another number |
| Scheduler.LeastIsUnique | core/model/scheduler.h:272-311 | Keys with distinct uids have one least element |
| Scheduler.InsertOrderedSorted | core/model/list-scheduler.cc:61-74 | Inserting in front of the first later event keeps a list sorted, ascending or descending |
| Scheduler.EraseUndoesInsert | core/model/list-scheduler.cc:61-113 | Erasing an event just inserted gives back the list as it was |
| Scheduler.UidFindsEvent | core/model/list-scheduler.cc:99-113 | Searching by uid finds the stored event |
| ListQueue.ListScheduler.Insert | core/model/list-scheduler.cc:61-74 | The walk inserts in sorted order |
| ListQueue.ListScheduler.PeekNext | core/model/list-scheduler.cc:83-88 | The front event is the least |
| ListQueue.ListScheduler.RemoveNext | core/model/list-scheduler.cc:90-97 | The least event leaves from the front and the rest stays as it was |
| ListQueue.ListScheduler.Remove | core/model/list-scheduler.cc:99-113 | The event with the uid leaves, or nothing changes and the assertion fails |
| HeapQueue.RootIsLeast | core/model/heap-scheduler.cc:209-214 | In a heap-ordered array the first entry is least |
| HeapQueue.SwapUp | core/model/heap-scheduler.cc:154-164 | One step up moves the only possible disorder to the parent |
| HeapQueue.SwapDown | core/model/heap-scheduler.cc:166-199 | One step down to the smaller child moves the only possible disorder to that child |
| HeapQueue.HeapScheduler.BottomUp | core/model/heap-scheduler.cc:154-164 | Sifting up restores heap order and keeps the contents |
| HeapQueue.HeapScheduler.TopDown | core/model/heap-scheduler.cc:166-199 | Sifting down, with its separate step for a last left child, keeps the contents and restores heap order exactly when the start fits below its parent |
| HeapQueue.HeapScheduler.Insert | core/model/heap-scheduler.cc:201-207 | One event more, heap order kept |
| HeapQueue.HeapScheduler.RemoveNext | core/model/heap-scheduler.cc:216-225 | A least event leaves, the rest stays, heap order is restored |
| HeapQueue.HeapScheduler.Remove | core/model/heap-scheduler.cc:227-244 | The event leaves; heap order survives if and only if the last entry is not before the parent of the vacated place |
| HeapQueue.RemoveCanBreakOrder | core/model/heap-scheduler.cc:227-244 | A heap of six events and an entry for which it does not |
| HeapQueue.Drain | core/model/heap-scheduler.cc:201-225 | Emptying a heap gives a sorted permutation of what it held |
| CalendarBuckets.InsertKeepsWellFormed | core/model/calendar-scheduler.cc:131-150 | Insertion keeps every bucket sorted and every event in its hashed bucket |
| CalendarBuckets.WindowsAreBuckets | core/model/calendar-scheduler.cc:122-129 | All timestamps of a window share a bucket, and the windows use the buckets in turn |
| CalendarBuckets.InWindow | core/model/calendar-scheduler.cc:207-224 | A bucket head inside the current window is the least event of the whole queue |
| CalendarBuckets.WindowPassed | core/model/calendar-scheduler.cc:207-236 | A bucket head outside its window rules out that window for every event |
| CalendarBuckets.FullLap | core/model/calendar-scheduler.cc:207-246 | After a full lap the least head seen is the least event of the whole queue |
| CalendarQueue.CalendarScheduler.PeekNext | core/model/calendar-scheduler.cc:168-200 | The wrapping search names the least event |
| CalendarQueue.CalendarScheduler.DoRemoveNext | core/model/calendar-scheduler.cc:202-246 | The search takes out the least event, in the window or after a full lap, and the search position again belongs to its timestamp |
| CalendarQueue.CalendarScheduler.Init | core/model/calendar-scheduler.cc:96-106 | Fresh empty buckets positioned at the start time |
| CalendarQueue.CalendarScheduler.constructor | core/model/calendar-scheduler.cc:62-94 | An empty queue in either bucket order |
| CalendarQueue.CalendarScheduler.Insert | core/model/calendar-scheduler.cc:152-159 | One event more, through any resize it causes; two events a bucket at most unless there are 32768 buckets |
| CalendarQueue.CalendarScheduler.RemoveNext | core/model/calendar-scheduler.cc:248-260 | The least event leaves, through any resize it causes, and the number of buckets still follows the number of events |
| CalendarQueue.CalendarScheduler.Remove | core/model/calendar-scheduler.cc:262-284 | The event leaves from its hashed bucket and the search position stays, through any resize |
| CalendarQueue.CalendarScheduler.ResizeUp | core/model/calendar-scheduler.cc:286-295 | The number of buckets doubles, with a sampled width, exactly when there are more than two events a bucket and fewer than 32768 buckets; else nothing changes |
| CalendarQueue.CalendarScheduler.ResizeDown | core/model/calendar-scheduler.cc:297-306 | It halves exactly when there is less than one event for two buckets; else nothing changes |
| CalendarQueue.CalendarScheduler.Resize | core/model/calendar-scheduler.cc:407-415 | The contents stay through sampling and rebuilding; the bucket count is the requested power of two, the width the sampled one |
| CalendarQueue.CalendarScheduler.CalculateNewWidth | core/model/calendar-scheduler.cc:308-385 | The width comes from the first events in order, all up to five, else five and a tenth of their number and at most 25; all of them are put back and the search state is restored |
| CalendarQueue.AverageGaps | core/model/calendar-scheduler.cc:345-384 | The two averaging loops give three times the span of the samples without the gaps above twice the average gap, in 64 bits, at least 1 |
| CalendarQueue.WidthFromGaps | core/model/calendar-scheduler.cc:345-384 | So does the specified width, from the sequence of differences filtered by the limit |
| CalendarQueue.LongGapLeftOut | core/model/calendar-scheduler.cc:366-384 | Samples at 0, 1, 2, 3 and 13 give the width 9 |
| CalendarQueue.GapNotNegative | core/model/calendar-scheduler.cc:360-363 | No difference of neighbouring sampled timestamps is negative |
| CalendarQueue.GapSumBounds | core/model/calendar-scheduler.cc:345-384 | The gaps add up to the span, and those not left out never to more |
| CalendarQueue.WidthBounded | core/model/calendar-scheduler.cc:345-384 | The width never exceeds three times the span of the samples, wrapped or not |
| CalendarQueue.WidthIsIntended | core/model/calendar-scheduler.cc:345-384 | The width in 64 bits is three times the span without the gaps above twice the average, unwrapped, if and only if that fits in 64 bits |
| CalendarQueue.LongGapWraps | core/model/calendar-scheduler.cc:366-382 | Two samples 2^63 apart give the width one |
| CalendarQueue.CalendarScheduler.DoResize | core/model/calendar-scheduler.cc:387-405 | Every event lands in its bucket under the new width and count, none is lost |
| SchedulerRuns.DriveList | core/model/list-scheduler.cc:61-113 | A run on the list gives the specified answers |
| SchedulerRuns.ListServesAll | core/model/scheduler.h:190-228 | The answers of any legal run are those of a priority queue on multisets: each is a least event of what is stored at that point, which changes by the event stored, taken or removed |
| SchedulerRuns.DriveCalendar | core/model/calendar-scheduler.cc:131-284 | A run of any legal operations, removals included, gives the list's answers, in both bucket orders |
| SchedulerRuns.DriveHeap | core/model/heap-scheduler.cc:154-244 | A run gives the list's answers up to the first removal that would break the heap's order, and to the end if there is none |
| SchedulerRuns.QueuesAgree | core/model/list-scheduler.cc:61-113 | From empty, list and calendar give the same events, each a least one of those stored, and the heap does while its removals are safe |
| SimulatorInvariants.StepKeepsInv | core/model/default-simulator-impl.cc:129-381 | Every step of the main thread or another thread keeps queue, expiry, order, conservation and hand-off invariants |
| SimulatorInvariants.OnlyTheFutureKeepsOrder | core/model/default-simulator-impl.cc:243-259 | A new event keeps the queue ahead of the clock if and only if it is not in the past |
| SimulatorInvariants.ExpiredExactly | core/model/default-simulator-impl.cc:358-381 | The test that never looks at the queue is false exactly when the event is queued and not cancelled |
| SimulatorInvariants.ReachableExpiry | core/model/default-simulator-impl.cc:358-381 | That holds in every reachable state for every identifier Schedule returned |
| SimulatorInvariants.ReachableDestroyExpiry | core/model/default-simulator-impl.cc:284-381 | In every reachable state an identifier of a destroy event is unexpired exactly while it was returned more often than removed and its object is not cancelled |
| SimulatorInvariants.DestroyEventLives | core/model/default-simulator-impl.cc:284-294 | The identifier ScheduleDestroy returns, behind all listed before it, is unexpired unless its object is cancelled already |
| SimulatorInvariants.RemovedDestroyEvent | core/model/default-simulator-impl.cc:316-330 | Removing it expires it exactly when it was listed once |
| SimulatorInvariants.OnlyThatObjectExpires | core/model/default-simulator-impl.cc:316-356 | Cancel and Remove expire the identifier they are given, and none that names another object |
| SimulatorInvariants.DelayRunsDown | core/model/default-simulator-impl.cc:303-314 | Through any steps after Schedule, GetDelayLeft is the delay less the time that has passed while the event is queued and not cancelled, and zero afterwards |
| SimulatorInvariants.ReachableOrder | core/model/default-simulator-impl.cc:129-148 | In every reachable state the processed events are in strictly increasing order of time, then of uid, the last of them is the current one, and all queued keys lie above it |
| SimulatorInvariants.ReachableCounts | core/model/default-simulator-impl.cc:222-347 | In every reachable state the counter is the queue length, each inserted event is queued, processed or removed, once, the event count is the number processed, and every scheduling call used one uid |
| SimulatorInvariants.ReachableHandOff | core/model/default-simulator-impl.cc:156-184 | Under any interleaving pushed events enter the queue once, in push order, under increasing uids, at the time of the drain plus their delay, and the flag tells whether the shared list is empty |
| Handlers.ExecKeepsInv | core/model/default-simulator-impl.cc:129-148 | Whatever a handler does, it takes the simulator where its calls lead one by one, and the invariants hold when it returns |
| Handlers.NotifiedKeepsInv | core/model/default-simulator-impl.cc:129-146 | Notifying the next event is popping it and taking its handler's calls, with one note in the log, unless its object is cancelled: then it is only popped |
| Handlers.ProcessOneKeepsInv | core/model/default-simulator-impl.cc:129-184 | Then what other threads push is taken over, all of it, at the time of that event |
| Handlers.RunLoopKeepsInv | core/model/default-simulator-impl.cc:129-203 | Whatever handlers do and other threads push meanwhile, the loop takes only steps of the model and notifies, in order of time, exactly the events it processes whose object is not cancelled when popped; it ends only for lack of events or after Stop |
| Handlers.RunKeepsHistory | core/model/default-simulator-impl.cc:186-203 | The same for Run from any state with a history, whatever other threads have pushed before |
| Handlers.ClosingAssertion | core/model/default-simulator-impl.cc:186-203 | The assertion that closes Run holds however the loop ends and whatever other threads push, and time never goes back |
| RunLaws.NothingCancelled | core/model/default-simulator-impl.cc:129-203 | If no object is cancelled, the log holds every processed event with its time and context, in order |
| RunLaws.PeriodicEvent | core/model/default-simulator-impl.cc:129-241 | An event that reschedules itself every d, started at t, is notified at t, t + d, ..., t + (n - 1) d in n events, and its memory has counted to n |
| RunLaws.PeriodicEventInContext | core/model/default-simulator-impl.cc:129-273 | Started by ScheduleWithContext it stays in that context |
| RunLaws.StopEndsTheRun | core/model/default-simulator-impl.cc:186-210 | The stop flag is up behind an event exactly if its handler called Stop, and the run then ends with that event |
| RunLaws.RunsUntilEmpty | core/model/default-simulator-impl.cc:186-210 | A run whose handlers never stop ends for lack of events only, even behind a run that was stopped |
| RunLaws.RegisterNamesEvent | core/model/default-simulator-impl.cc:222-381 | An event just scheduled is not expired, has its whole delay left, expires when cancelled, and leaves the queue as it was when removed |
| RunLaws.RegisterNamesDestroyEvent | core/model/default-simulator-impl.cc:284-381 | A destroy event just scheduled is not expired, expires when cancelled, and is gone when removed |
| CancelRemove.ExecBoth | core/model/default-simulator-impl.cc:316-381 | A handler in which any Cancel calls are turned into Remove calls ends with the same memory, in a state that lacks cancelled events only |
| CancelRemove.Catches | core/model/default-simulator-impl.cc:129-148 | What the run without those events has notified, the run that still pops them has notified some events later |
| CancelRemove.CancelsBecomeRemoves | core/model/default-simulator-impl.cc:316-356 | Over whole runs, any Cancel calls of queued events can be turned into Remove calls: the same events are notified at the same times, and if one run ends so does the other |
| CancelRemove.RemoveInsteadOfCancel | core/model/default-simulator-impl.cc:316-356 | In particular all of them, for handlers that schedule no destroy events |
| CancelRemove.CancelLikeRemove | core/model/default-simulator-impl.cc:316-356 | A handler that cancels an event or removes it, whatever it does afterwards, ends with the same memory and the same notifications follow, the counts of events being at most one apart |
| CancelRemove.CancelBetweenEvents | core/model/default-simulator-impl.cc:316-356 | The same for a call made between two events |
| AnyQueue.AnyScheduler.RemoveNext | core/model/default-simulator-impl.cc:129-132 | Whichever queue is used, list, calendar or heap, the head of the sorted list it stands for leaves |
| AnyQueue.AnyScheduler.TakeAll | core/model/default-simulator-impl.cc:111-118 | Moving event by event into another kind of queue keeps the sorted list |
| AnyQueue.AnyScheduler.Remove | core/model/default-simulator-impl.cc:336-341 | The event leaves the sorted list, on a heap if the removal is one that keeps its order |
| DefaultSimulator.DefaultSimulatorImpl.constructor | core/model/default-simulator-impl.cc:55-67 | The object starts in the initial state |
| DefaultSimulator.DefaultSimulatorImpl.SetScheduler | core/model/default-simulator-impl.cc:105-120 | Swapping the queue moves all events and changes nothing else |
| DefaultSimulator.DefaultSimulatorImpl.Schedule | core/model/default-simulator-impl.cc:222-241 | The object takes the model's scheduling step and returns its identifier |
| DefaultSimulator.DefaultSimulatorImpl.ScheduleWithContext | core/model/default-simulator-impl.cc:243-273 | On the main thread the event is queued, on another it is handed over |
| DefaultSimulator.DefaultSimulatorImpl.ScheduleDestroy | core/model/default-simulator-impl.cc:284-294 | The destroy event is listed and a uid used |
| DefaultSimulator.DefaultSimulatorImpl.IsExpired | core/model/default-simulator-impl.cc:358-381 | The object's test is the model's, the walk over destroy events included; SimulatorInvariants says for either kind of event when it is false |
| DefaultSimulator.DefaultSimulatorImpl.GetDelayLeft | core/model/default-simulator-impl.cc:303-314 | Zero for an expired identifier, else the time until the event: never negative for what Schedule returned, never positive for destroy events |
| SimulatorInvariants.DelayLeftBounds | core/model/default-simulator-impl.cc:284-314 | Those bounds hold in every state with a history |
| DefaultSimulator.DefaultSimulatorImpl.Cancel | core/model/default-simulator-impl.cc:349-356 | Only an unexpired event's flag is set |
| DefaultSimulator.DefaultSimulatorImpl.Remove | core/model/default-simulator-impl.cc:316-347 | The event is found in the queue, removed, flagged and uncounted; expired and destroy identifiers take their own branches |
| DefaultSimulator.DefaultSimulatorImpl.ProcessEventsWithContext | core/model/default-simulator-impl.cc:156-184 | The shared list is swapped out and inserted in order at the current time |
| DefaultSimulator.DefaultSimulatorImpl.Invoke | core/model/event-impl.cc:46-54 | A cancelled event object is not notified |
| DefaultSimulator.DefaultSimulatorImpl.ProcessOneEvent | core/model/default-simulator-impl.cc:129-148 | One event is popped, made current, invoked, and what other threads pushed meanwhile drained, as in the model's event, which Handlers.ProcessOneKeepsInv describes; its time is not before the current one. On a heap the handler may stop in front of an unsafe removal, and what is left of it would finish the event |
| DefaultSimulator.DefaultSimulatorImpl.Run | core/model/default-simulator-impl.cc:186-203 | The run is the model's run, with other threads pushing, whose log and steps Handlers.RunKeepsHistory describes, and its closing assertion holds; all it asks is that what is scheduled along this run fits a timestamp. On a heap it stops in front of the first removal that would break the heap's order, in a state from which the model's run goes on |
| DefaultSimulator.KindsAgree | core/model/default-simulator-impl.cc:105-203 | Two simulators with different queues notify the same events, on a heap up to the first unsafe removal if there is one |
| Csv.CsvReader.ParseColumn | core/helper/csv-reader.cc:336-474 | The state machine finds the column the definition by parts gives, and stops where that ends |
| Csv.CsvReader.ParseLine | core/helper/csv-reader.cc:306-334 | The loop collects all columns and sets the blank flag, which CsvRoundTrip.BlankRows describes |
| CsvRoundTrip.CellsComeBack | core/helper/csv-reader.cc:306-474 | Lines mixing quoted fields, unquoted fields and blank cells come back: quoted ones whatever they contain, with blanks before and ignored text behind the quotes; unquoted ones without the blanks around them if a delimiter follows, else with those behind; with a trailing delimiter or a comment |
| CsvRoundTrip.BareFieldsComeBack | core/helper/csv-reader.cc:336-474 | Fields without quotes come back exactly, with any of the six blank characters in front of each and in front of each delimiter |
| CsvRoundTrip.UnclosedQuote | core/helper/csv-reader.cc:357-440 | A quote that is never closed takes the rest of the line |
| CsvRoundTrip.RoundTrip | core/helper/csv-reader.cc:306-474 | Quoting, doubling and joining with a delimiter is undone by parsing if and only if the delimiter is not the quote or there is nothing to write |
| CsvRoundTrip.ColumnsConsume | core/helper/csv-reader.cc:317-331 | Each column takes a character, so the loop ends with no more columns than characters |
| CsvRoundTrip.BlankBeforeComment | core/helper/csv-reader.cc:376-408 | In `1,2 # c` the blank before the comment stays |
| CsvRoundTrip.BlankRows | core/helper/csv-reader.cc:306-474 | For every line, from its text: the row is blank if and only if the line has a character, and behind its blanks there is nothing, a last delimiter, a comment, or an empty string in quotes with no column behind it |
| CsvRoundTrip.EveryLineSplits | core/helper/csv-reader.cc:421 | Every line is such blanks and a rest |

## Left out

- Handlers.RunLoop: bounds the number of events, because a run need not end; every statement about it holds for every bound.
- SchedulerRuns.DriveHeap: ends at a removal out of turn that would break heap order (HeapQueue.HeapScheduler.Remove states which do).
- DefaultSimulator.DefaultSimulatorImpl.Run: ends on a heap in front of a removal that would break the heap's order, as nothing is promised about the heap after it.
- CancelRemove.CancelLikeRemove: assumes that no other thread is pushing, as the hand-off reads the clock that cancelling moves; destroy events, which are listed apart, are not turned.
- DefaultSimulator.DefaultSimulatorImpl.Schedule: asks that the new time fits a timestamp.
- DefaultSimulator.DefaultSimulatorImpl.ScheduleWithContext: takes no negative delay, although the source function does not reject one; an event in the past breaks the order the object keeps.
- WideInt.DivRem: a zero denominator is not modelled; the source's loop does not end on it.
- Wrap-around of uids, event counters and calendar bucket tops, and events at timestamp 2^64 - 1.
- Cancel flags are a set of event object names, so an object with a flag and its name are the same thing; reference counts and memory are not modelled.
- Thread ids, the mutex and the atomic flag: each locked block is one step.
- The list other threads fill is a sequence; the swap of two lists is an assignment.
- The calendar's bucket lists are sequences inside an array, so iterators into them are indices.
- The 96-by-64 division, the 128-bit operations and the CSV definition are functions where the source is straight-line code.
- Destroy, DoDispose, ScheduleNow, Stop with a delay, GetEventCount, and the real-time and distributed simulators.
- Floating-point constructors and conversions, the native 128-bit build, and the 32-bit-pair variants that are compiled out.
- Stream state, number conversion of CSV cells, reading lines from a stream, and characters outside the C locale's blanks.
- Attributes, callbacks, logging, command line, configuration, hashing, and the parts outside the core module.
