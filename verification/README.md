# Verified model of the NTP support library

This project models the parts of `libntp` whose correctness is not obvious from reading
them, and proves what they promise:

* the calendar engine: proleptic Gregorian and ISO 8601 week arithmetic, the unfolding of
  32-bit NTP seconds around a pivot, and the year search of `clocktime`;
* the symmetric-key store: hash buckets, a circular list, a free list and a one-entry
  cache, refining a plain map;
* the protocol between the daemon and its blocking workers, over whole runs;
* fixed-point numbers: two-word arithmetic, the decimal printer and parser, and the
  conversions to and from `timespec` and `timeval`;
* the receive-buffer pool and its FIFO, whose anchor keeps the address of the last link;
* three smaller machines: the monotone clock reader, the additive random generator and
  the bounded formatter.

`dafny verify dfyconfig.toml` checks everything.

| file | content |
|---|---|
| `Words.dfy` | 32- and 64-bit words, truncating division, bitwise operators, the `M_*` macros |
| `Periodic.dfy`, `Gregorian.dfy`, `IsoWeeks.dfy`, `DaySplit.dfy`, `Epoch.dfy`, `Dates.dfy` | `libntp/ntp_calendar.c` |
| `ClockSearch.dfy` | `libntp/clocktime.c` |
| `Lists.dfy`, `KeyMap.dfy`, `KeyStore.dfy` | the list macros, what the key store means, and the store itself |
| `RecvPool.dfy` | the FIFO macros and `libntp/recvbuff.c` |
| `Worker.dfy` | `libntp/ntp_worker.c`, `libntp/ntp_intres.c`, `libntp/work_fork.c` |
| `Decimal.dfy`, `CStrings.dfy`, `Options.dfy` | numerals, C strings, optional values |
| `LfpPrint.dfy`, `LfpParse.dfy`, `LfpGrammar.dfy`, `LfpText.dfy` | printing, parsing, the accepted texts, and printing and parsing together |
| `Intervals.dfy` | `include/timespecops.h`, `include/timevalops.h` |
| `SysTime.dfy`, `RandomRing.dfy` | `libntp/systime.c`, `libntp/ntp_random.c` |
| `Formatter.dfy`, `FormatMeaning.dfy` | `libntp/snprintf.c`, and what its texts mean |

## Conventions

Integers are unbounded. Wrap-around of unsigned words, conversions and truncating division
are written out (`U32`, `S32`, `U64`, `S64`, `TruncDiv`, `TruncMod`); signed arithmetic
that would overflow is not, and the members concerned are named below. `long` and `time_t` have 64 bits
except in the forms the source has for machines without 64-bit scalars, which are modelled
beside the others and proved to agree with them.

Linked structures live in an explicit memory: a pointer is an address, 0 is NULL, and a
link field is a sequence indexed by address. A class holds that memory, its methods update
it link by link, and a ghost record names the lists it spells. The predicate `Ok` ties the
two together, and every method keeps it.

The worker protocol is a state machine over a `World`: parent variables, pipe contents and
worker states. Signals, descriptors and process creation are abstracted to opening and
closing pipes.

Clock readings, random numbers, the outcome of `adjtime` and of name-service calls, the
locale's thousands separator and the variable arguments of the formatter are parameters.

## Where the code differs from what is said of it

* `M_ISGEQ` is labelled a signed comparison. It is one exactly when the difference of the
  signed high words fits 32 bits (`Words.IsGeqExact`, `Words.IsGeqFails`).
* `ntpcal_dayjoin` without 64-bit scalars is right for every day count but the least
  `int32` (`DaySplit.DayjoinLimbs`).
* `UNLINK_MID_FIFO` restores the anchor exactly when it removes the first entry or one
  with at least two successors (`RecvPool.UnlinkMidFifo`, `RecvPool.LostTail`).
* `auth_agekeys` and `auth_delkeys` leave the key cache alone, so an expired key can still
  be answered for and an erased secret still be cached (`KeyMap.AgeAndCache`,
  `KeyMap.StaleAfterAging`, `KeyMap.DelAndCache`, `KeyMap.StaleSecret`); key id 0 can be
  trusted but is denied while the cache is empty (`KeyMap.CacheTransparent`,
  `KeyMap.ZeroIsSpecial`).
* The comments of `atolfp` and `mstolfp` describe the texts they take. The code agrees with
  them, reading by reading, except that it refuses blank texts, whose parts are all optional
  in the comments, and that `atolfp` takes a number after a minus and a plus sign
  (`LfpGrammar.CommentHolds`, `LfpGrammar.Disagreements`).
* `mstolfp` rewrites the text into 100 bytes without a check. For any text, taken or refused,
  they suffice exactly when it does not start with a number, or that number's sign, integral
  digits, counted as at least four, and fraction digits are 98 characters or fewer
  (`LfpGrammar.RoomNeeded`, `LfpParse.BufferSuffices`, `LfpParse.ManyDigits`,
  `LfpGrammar.RefusedToo`).
* Converting a `timespec` to fixed point and back changes the sign of exactly -2^31 seconds
  (`Intervals.IntervalRoundTrip`, `Intervals.LowestSecond`), and the conversion from fixed
  point returns a denormal interval when a non-negative fraction rounds up to a second
  (`Intervals.LfpToIntervalNormal`, `Intervals.WholeSecond`).
* `get_systime` promises strictly later results. Two results can be equal, only when the
  clock reading was the earliest permissible one (`SysTime.StrictlyLater`,
  `SysTime.LaterThanEarliest`, `SysTime.EqualResults`). It gives up at an advance of exactly
  one second too, not only beyond it (`SysTime.AcceptedReading`, `SysTime.GivesUp`). And a result can be
  earlier after the fuzz was lowered, unless the clock has made up for the former fuzz
  (`SysTime.NeverEarlier`, `SysTime.LoweredFuzz`).
* `adj_systime` updates the residue before `adjtime` can fail. What is asked for reaches the
  clock or the residue exactly when the call succeeds (`SysTime.Clock.AdjSystime`,
  `SysTime.LostAdjustment`).
* `fmtint` prints a zero where section 7.19.6.1 of C99 wants no digit, for value and
  precision zero (`FormatMeaning.IntTextIsC99`), and with thousands separators and a precision
  a field can fall short of its width (`Formatter.IntTextLength`, `Formatter.NarrowField`).
* A seed fills the rest of the random window with 2^31 - 1 if and only if it is a multiple
  of that number, negative ones included; a 64-bit seed of more than about 9.6 * 10^10 in
  size does so from the sixth word on at the latest (`RandomRing.StuckSeed`,
  `RandomRing.SeedsSettle`, `RandomRing.StuckSeeds`).
* The five weekday searches wrap around when the day sought is not an `int32`, and find it
  exactly when it is (`Periodic.WeekdayForward` and the three lemmas after it).

## Model

| member | source | states |
|---|---|---|
| Words.FloorFix | libntp/ntp_calendar.c:489-495 | the correction applied after C's truncating division yields the floor quotient and the non-negative remainder |
| Words.Neg | include/ntp_fp.h:123-127 | two-word negation is negation modulo 2^64 |
| Words.Add | include/ntp_fp.h:135-140 | two-word addition with the recovered carry is addition modulo 2^64 |
| Words.Sub | include/ntp_fp.h:156-161 | two-word subtraction with the recovered borrow is subtraction modulo 2^64 |
| Words.ShiftLeft | include/ntp_fp.h:175-179 | the two-word shift doubles modulo 2^64 |
| Words.Add3 | include/ntp_fp.h:142-154 | three-word addition is addition modulo 2^96, though the two carries are or-ed |
| Words.IsNegIsSign | include/ntp_fp.h:203-204 | the sign test on the high word is the sign of the 64-bit number |
| Words.ComparisonsAgree | include/ntp_fp.h:206-212 | the signed and unsigned greater-than macros compare the 64-bit numbers |
| Words.IsGeqExact | include/ntp_fp.h:218-220 | the greater-or-equal macro is the signed comparison if and only if the high-word difference fits int32 |
| Words.IsGeqFails | include/ntp_fp.h:218-220 | a pair of numbers for which it is not |
| Periodic.ExactIsExtension | libntp/ntp_calendar.c:279-320 | a number congruent to the value in the window of the cycle exists, also for negative cycles |
| Periodic.ExtensionUnique | libntp/ntp_calendar.c:279-320 | there is only one such number |
| Periodic.ExtendIsExact | libntp/ntp_calendar.c:321-363 | the unsigned complement-and-flag computation is that number modulo 2^32, for all pivots, values and cycles but 0 and INT32_MIN |
| Periodic.ExtendCorrect | libntp/ntp_calendar.c:321-363 | a 32-bit number is the result, with no overflow, if and only if it is congruent to the value and in the window |
| Periodic.WeekdayForward | libntp/ntp_calendar.c:1300-1316 | weekday_ge and weekday_gt give the least day not before (after) the given one on that weekday if and only if that day is an int32 |
| Periodic.WeekdayBackward | libntp/ntp_calendar.c:1327-1343 | weekday_le and weekday_lt give the greatest day not after (before) it on that weekday if and only if that day is an int32 |
| Periodic.WeekdayClosest | libntp/ntp_calendar.c:1318-1325 | no day on that weekday is closer than the one weekday_close gives, if and only if the day sought is an int32 |
| Periodic.WeekdayWraps | libntp/ntp_calendar.c:1300-1345 | at either end of the int32 range the day found is not the one sought |
| Gregorian.MacroIsLeapRule | include/ntp_calendar.h:399 | the macro with C's remainder is the leap rule, for negative years too |
| Gregorian.DaysInYearsCounts | libntp/ntp_calendar.c:955-979 | the closed form equals counting the years' lengths one by one, in both directions from the era |
| Gregorian.YearStep | libntp/ntp_calendar.c:955-979 | each year adds 365 or 366 days by the leap rule |
| Gregorian.SplitEraDaysCorrect | libntp/ntp_calendar.c:605-652 | for every day count the split gives the year it lies in, the day of that year and its leap flag, overflow days included |
| Gregorian.SplitEraDaysUnique | libntp/ntp_calendar.c:605-652 | no other year and day would do |
| Gregorian.SplitYearDaysCorrect | libntp/ntp_calendar.c:664-686 | the month guessed as day/32 and corrected by one is the right one; days outside the year give (-1, -1) |
| Gregorian.SplitYearDaysUnique | libntp/ntp_calendar.c:664-686 | every month and day of month is found again |
| Gregorian.MonthTableSteps | libntp/ntp_calendar.c:198-204 | both tables accumulate the month lengths |
| Gregorian.ShiftedMonthAgrees | libntp/ntp_calendar.c:997-1028 | the March-based month count agrees with the January-based table in every year |
| Gregorian.YearDaysVsEraDays | libntp/ntp_calendar.c:1039-1088 | the two conversions of an elapsed date differ by the start of the year, for months in or out of range |
| Gregorian.MonthsCarryIntoYears | libntp/ntp_calendar.c:1039-1057 | twelve more months are one more year |
| Gregorian.MonthStep | libntp/ntp_calendar.c:1039-1057 | one more month adds the length of the month left, which determines the conversion |
| IsoWeeks.IsoYearStart | libntp/ntp_calendar.c:1398-1433 | an ISO year starts at most three days from 1 January, for every year |
| IsoWeeks.IsoYearStartIsClosestMonday | libntp/ntp_calendar.c:1398-1433 | it starts on the Monday closest to 1 January, which is what weekday_close gives |
| IsoWeeks.IsoYearLength | libntp/ntp_calendar.c:1398-1433 | ISO years have 52 or 53 weeks |
| IsoWeeks.SplitEraWeeksCorrect | libntp/ntp_calendar.c:1441-1480 | splitting weeks inverts the interpolation: the week index lies in the year found |
| IsoWeeks.SplitEraWeeksUnique | libntp/ntp_calendar.c:1441-1480 | no other year and week would do |
| DaySplit.Daysplit | libntp/ntp_calendar.c:480-495 | days are the floor quotient by 86400 in 32 bits, seconds the remainder in 0..86399 |
| DaySplit.DaysplitLimbs | libntp/ntp_calendar.c:497-557 | the form on 32-bit words (shift by 7, chained 16-bit division by 675) computes the same for all inputs |
| DaySplit.DivideBy675 | libntp/ntp_calendar.c:526-540 | the chained division gives the remainder and the quotient modulo 2^32 |
| DaySplit.DayjoinLimbs | libntp/ntp_calendar.c:899-938 | the form on 32-bit words is days*86400+secs modulo 2^64 if and only if days is not INT32_MIN |
| DaySplit.JoinSplitInverse | libntp/ntp_calendar.c:480-941 | splitting undoes joining always, joining undoes splitting if and only if the day count fits 32 bits |
| Epoch.LimbFormsAgree | libntp/ntp_calendar.c:378-461 | the 32-bit-word forms of both unfoldings give the same 64 bits |
| Epoch.NtpToNtpUnfolds | libntp/ntp_calendar.c:427-461 | the result is the periodic extension of the stamp around the pivot |
| Epoch.NtpToTimeUnfolds | libntp/ntp_calendar.c:378-412 | the same on the UN*X scale |
| Epoch.EpochUnfolding | libntp/ntp_calendar.c:427-461 | the one value congruent to the stamp within half a cycle of the pivot is returned |
| Epoch.TwoScales | libntp/ntp_calendar.c:378-461 | both unfoldings name the same instant, JAN_1970 apart |
| Dates.TimesplitCorrect | libntp/ntp_calendar.c:568-593 | excess days and time of day account for all seconds and the time is valid |
| Dates.Calendar.RdToDate | libntp/ntp_calendar.c:693-726 | fills the date part for the day number, leaves the time alone, and tells overflow and leap years |
| Dates.Calendar.DaysecToDate | libntp/ntp_calendar.c:767-782 | fills the time part, leaves the date alone, returns the excess days |
| Dates.Calendar.NtpToDate | libntp/ntp_calendar.c:1253-1273 | whenever the year fits, fills in the valid date and time whose days, counted year by year, and seconds since the start of 1900, a Monday, are those of the unfolded stamp; converting them back gives the stamp |
| Dates.RdRoundTrip | libntp/ntp_calendar.c:1136-1144 | every valid date is found again from its day number |
| Dates.DateRoundTrip | libntp/ntp_calendar.c:693-726 | a day number is found again from its date if and only if the year fits 16 bits |
| Dates.OverflowedYear | libntp/ntp_calendar.c:712-717 | year 0 standing for a year out of range denotes another day |
| Dates.DateNtpRoundTrip | libntp/ntp_calendar.c:1253-1286 | date_to_ntp undoes ntp_to_date for every stamp and pivot whose year fits |
| Dates.JoinedStamp | libntp/ntp_calendar.c:1253-1286 | day and time of day joined give the stamp, even if the day count wrapped |
| Dates.WeekDateRoundTrip | libntp/ntp_calendar.c:1487-1547 | a day number and its week date determine each other, and the week exists in that year |
| Dates.RdOfWeekDate | libntp/ntp_calendar.c:1533-1547 | every valid week date is found again |
| Dates.WeekDateNtpRoundTrip | libntp/ntp_calendar.c:1487-1547 | isocal_date_to_ntp undoes isocal_ntp_to_date |
| Dates.IsoDate.NtpToDate | libntp/ntp_calendar.c:1487-1527 | succeeds if and only if the ISO year is in 1..65535; the week date and time then denote the days and seconds since the start of 1900 of the unfolded stamp, and convert back to it |
| Dates.Epochs | include/ntp_calendar.h:363-373 | the day number of 1 January 1900, a Monday, and the seconds from there to 1 January 1970, are the constants used |
| Dates.DaysSince1900 | libntp/ntp_calendar.c:1136-1144 | the day number of a valid date counts the days since the start of 1900 year by year |
| Dates.StampDate | libntp/ntp_calendar.c:1253-1273 | the date, the day of the week and the time that a stamp denotes, for every stamp and pivot whose year fits |
| Dates.StampWeekDate | libntp/ntp_calendar.c:1487-1527 | the same for its week date, in every year |
| Dates.DateStamp | libntp/ntp_calendar.c:1275-1286 | the stamp of a valid date and time is their seconds since the start of 1900, in 32 bits |
| Dates.UnixEpoch | libntp/ntp_calendar.c:1253-1273 | stamp 2208988800 is 0:00:00 on Thursday, 1 January 1970 |
| ClockSearch.Clocktime | libntp/clocktime.c:51-127 | the result is the cached year start plus the seconds asked for when that is within 182 days, else, in the nearest year of all, the second that falls on the given day at the given time, moved by 3600 per hour of the offset; the flag tells whether it is within four hours; all modulo 2^32 and for all arguments |
| ClockSearch.NearestYear | libntp/clocktime.c:106-126 | the loops find the year whose start is nearest to the instant wanted, of all years |
| ClockSearch.MomentDate | libntp/clocktime.c:67-74 | for a day within the year and a valid time of day, that second has just that year, day of the year and time |
| ClockSearch.YearStartCounts | libntp/clocktime.c:142-149 | a year starts 86400 s per day counted year by year after the start of 1900 |
| ClockSearch.OffsetWraps | libntp/clocktime.c:67-74 | the offset in 32 bits gives the stamp of the full one |
| ClockSearch.CircularDistance | libntp/clocktime.c:85-87 | the difference taken is the least one over all turns of 2^32 s |
| ClockSearch.SearchFindsNearest | libntp/clocktime.c:106-120 | the best of three wrapped distances belongs to the nearest start among all years |
| ClockSearch.ShortcutAgrees | libntp/clocktime.c:82-94 | the cached year start gives the same timestamp as the search whenever it is a year start within 2^31 s |
| ClockSearch.InstantInYear | libntp/clocktime.c:129-140 | the instant a stamp denotes lies in the year ntp_to_year returns |
| ClockSearch.YearToNtpWraps | libntp/clocktime.c:142-149 | year_to_ntp is the start of the year modulo 2^32 |
| Lists.ChainPush | include/ntp_lists.h:128-132 | LINK_SLIST puts an entry in front |
| Lists.ChainRemove | include/ntp_lists.h:182-210 | UNLINK_SLIST takes exactly the given entry off the list, the first one included |
| Lists.SegmentAppend | include/ntp_lists.h:403-409 | LINK_TAIL_DLIST puts an entry last in the circular list |
| Lists.SegmentRemove | include/ntp_lists.h:411-417 | UNLINK_DLIST takes exactly the given entry out, both directions intact |
| KeyMap.ApplyKeepsCache | libntp/authkeys.c:366-578 | every operation keeps a nonzero cached id naming a present, trusted, typed key with the same fields |
| KeyMap.RunKeepsCache | libntp/authkeys.c:366-578 | so does every run of them |
| KeyMap.CacheTransparent | libntp/authkeys.c:366-417 | in every run authhavekey answers as an uncached lookup for nonzero ids, and authistrusted does for every id unless it is 0, trusted, and the cache is empty |
| KeyMap.ZeroIsSpecial | libntp/authkeys.c:490-512 | key id 0 can be trusted and is then denied |
| KeyMap.AgeAndCache | libntp/authkeys.c:616-629 | aging keeps the cache right if and only if the cached key does not expire |
| KeyMap.DelAndCache | libntp/authkeys.c:586-610 | deleting keeps it right if and only if the cache is empty, names an autokey key or has no secret to lose |
| KeyMap.StaleAfterAging | libntp/authkeys.c:616-629 | a run after which an expired key is still answered for |
| KeyMap.StaleSecret | libntp/authkeys.c:596-605 | a run after which an erased secret is still cached |
| KeyMap.TrustMeaning | libntp/authkeys.c:424-484 | trusting with 0 removes the key; else it is trusted, survives a sweep at time t if and only if the trust is unlimited or t is at most now plus trust, keeps type and secret, and no other key changes |
| KeyMap.SetKeyMeaning | libntp/authkeys.c:525-578 | the key has the new type and secret; a present one keeps trust and lifetime, a new one is untrusted; no other key changes |
| KeyMap.OthersChangeNothing | libntp/authkeys.c:366-417 | lookups and rehashes change no key |
| KeyMap.AgeMeaning | libntp/authkeys.c:616-629 | aging drops the keys whose end has passed and changes no other |
| KeyMap.DelMeaning | libntp/authkeys.c:586-610 | deleting keeps keys above 65535 as they are, and the trusted ones without secret and end |
| KeyMap.TrustLasts | libntp/authkeys.c:424-629 | in every run a key last trusted at `now` lives until the trust runs out, whatever is done to other keys |
| KeyStore.Store.constructor | libntp/authkeys.c:105-123 | an empty store with all lists in order |
| KeyStore.Store.FindKey | libntp/authkeys.c:321-335 | walking the bucket is lookup in the map |
| KeyStore.Store.MoreMem | libntp/authkeys.c:158-191 | adds the asked number of free entries and changes no key |
| KeyStore.Store.AllocSymkey | libntp/authkeys.c:262-289 | adds exactly one key, in its bucket and last on the list of live keys, all lists and counters kept |
| KeyStore.Store.UnlinkBucket | libntp/authkeys.c:307-308 | splices exactly the entry out of its bucket |
| KeyStore.Store.FreeSymkey | libntp/authkeys.c:295-315 | removes exactly one key from bucket, list and map, and frees its entry |
| KeyStore.Store.HaveKey | libntp/authkeys.c:366-417 | answers and fills the cache as the map says |
| KeyStore.Store.IsTrusted | libntp/authkeys.c:490-512 | answers as the map and the cache say |
| KeyStore.Store.Trust | libntp/authkeys.c:423-484 | updates, adds or removes just that key in the map, and the cache with it |
| KeyStore.Store.SetKey | libntp/authkeys.c:515-578 | updates or adds just that key, and the cache with it |
| KeyStore.Store.Resize | libntp/authkeys.c:227-252 | rehashing into 4 to 15 bits changes no key and no counter |
| KeyStore.Store.Prealloc | libntp/authkeys.c:197-210 | makes room for the asked number of keys and changes none |
| KeyStore.Store.DelKeys | libntp/authkeys.c:586-610 | the walk during removal leaves exactly the autokey and trusted keys |
| KeyStore.Store.AgeKeys | libntp/authkeys.c:616-629 | leaves exactly the keys with lifetime 0 or not yet over, and counts the others |
| KeyStore.CountsKeys | libntp/authkeys.c:76 | the counter of active keys is the size of the map |
| KeyStore.ActivateOk | libntp/authkeys.c:262-289 | taking the first free entry into use keeps every structure |
| KeyStore.FreedOk | libntp/authkeys.c:295-315 | freeing an entry keeps every structure |
| KeyStore.Rehashed | libntp/authkeys.c:248-251 | relinking the next key into the new table keeps it right |
| KeyStore.SweepStep | libntp/authkeys.c:591-609 | one entry of the walk is dropped or kept, the rest is as before |
| RecvPool.LinkFifo | include/ntp_lists.h:264-279 | appends the entry and keeps the tail slot that of the last entry |
| RecvPool.UnlinkFifo | include/ntp_lists.h:281-296 | removes the first entry and keeps the anchor, also when the list becomes empty |
| RecvPool.UnlinkMidFifo | include/ntp_lists.h:298-328 | removes just the given entry, and keeps the anchor if and only if it was first or has two successors |
| RecvPool.LostTail | include/ntp_lists.h:298-328 | removing the second of two entries leaves an anchor that says the FIFO is empty |
| RecvPool.CheckConsistency | libntp/recvbuff.c:304-323 | accepts an anchor if and only if its tail slot is that of the last entry |
| RecvPool.Pool.constructor | libntp/recvbuff.c:108-127 | a pool of the asked size, all buffers free |
| RecvPool.Pool.CreateBuffers | libntp/recvbuff.c:78-106 | adds the asked number and the shortfall, all free |
| RecvPool.Pool.GetFree | libntp/recvbuff.c:186-203 | hands out the first free buffer or counts a shortfall |
| RecvPool.Pool.FreeBuffer | libntp/recvbuff.c:154-169 | takes a held buffer back |
| RecvPool.Pool.AddFull | libntp/recvbuff.c:172-183 | a held buffer becomes the last full one |
| RecvPool.Pool.GetFull | libntp/recvbuff.c:223-256 | full buffers leave in arrival order; each buffer is free, full or held, and the counters say so |
| Worker.QueueKeeps | libntp/ntp_worker.c:157-207 | queueing a block's message keeps the invariant |
| Worker.NewRequestKeeps | libntp/ntp_intres.c:234-300 | so does a new request |
| Worker.CompleteKeeps | libntp/ntp_intres.c:457-582 | a completion keeps the invariant, whether it retries or calls back and whatever the callback requests |
| Worker.ProcessReplyKeeps | libntp/ntp_worker.c:227-262 | so does taking a reply or an end of file |
| Worker.PostponedOk | libntp/ntp_intres.c:1054-1075 | a retry doubles the interval up to 64 and never starts before the slot |
| Worker.IdleMeansIdle | libntp/ntp_worker.c:320-335 | an armed idle timer means nothing is in flight anywhere |
| Worker.IdleKeeps | libntp/ntp_worker.c:320-335 | closing the pipes on the timer keeps the invariant |
| Worker.Conservation | libntp/ntp_worker.c:157-262 | in every run the pending count is the number of requests in pipes, being worked on and answered; each live block has exactly one of them; and a closed request pipe or an armed timer has nothing unanswered behind it |
| Worker.Ownership | libntp/ntp_intres.c:457-582 | in every run no callback ran twice or for a live block, every message carries its block's interval, which is the first one doubled per retry up to 64, and the start times a slot has handed out since its last reset do not decrease |
| Worker.StartTimes | libntp/ntp_intres.c:270-296 | in every run, along every request pipe, each request carries its block's start time, and these do not decrease among those queued since the slot was last reset, which are the last ones in the pipe; a per-query pipe has one request at most |
| Worker.StepOrdered | libntp/ntp_intres.c:270-296 | every step keeps the requests in a pipe in the order in which their start times were handed out |
| Worker.ReleasedOnlyByCallback | libntp/ntp_intres.c:457-582 | a step releases a block if and only if it runs its callback, and then only that one |
| Worker.Verdict | libntp/ntp_intres.c:491-582 | in every run, a reply that is taken runs its callback and releases its block if and only if it is a success or a final failure, has no interval left, or names nobody after an EAI_AGAIN was read; else the block stays and starts at the later of now plus its interval and the slot, the interval doubled up to 64; and what becomes of the slot |
| Worker.AgainSeen | libntp/ntp_intres.c:1082-1138 | the flag is set if and only if the run has read an EAI_AGAIN reply |
| Worker.Asked | libntp/ntp_intres.c:234-300 | in every run a new request gets a fresh block starting at the later of now and the slot, is counted, and turns the idle timer off |
| Worker.AfterReading | libntp/ntp_worker.c:227-262 | in every run, after a reading the idle timer is armed if and only if nothing is pending; a per-query worker is told to leave |
| Worker.SentHome | libntp/ntp_worker.c:320-335 | in every run the idle timer closes every request pipe and changes nothing else |
| Worker.InOrder | libntp/ntp_worker.c:157-262 | in every run the requests of a worker are answered in the order they were made |
| Worker.Parent.AvailableBlockingChildSlot | libntp/ntp_worker.c:126-154 | the loop finds the first free slot, growing the array when there is none |
| Worker.Parent.QueueBlockingRequest | libntp/ntp_worker.c:157-207 | the routine is the queueing step |
| Worker.Parent.WorkerIdleTimerFired | libntp/ntp_worker.c:320-335 | the loop closes request pipes with nothing behind them |
| Worker.Parent.ProcessBlockingResp | libntp/ntp_worker.c:227-262 | the routine is the step of taking a reply |
| Decimal.CanonicalUnique | libntp/dolfptoa.c:110-120 | there is one numeral without superfluous leading zeros for a number |
| LfpPrint.Dolfptoa | libntp/dolfptoa.c:12-136 | prints the canonical numeral of the value rounded half up to at most 14 decimals, the point moved for milliseconds |
| LfpPrint.Digits | libntp/dolfptoa.c:42-108 | the buffer holds all digits of the rounded value |
| LfpPrint.RoundUp | libntp/dolfptoa.c:93-108 | the carry loop adds one in the last place |
| LfpPrint.Mfptoa | libntp/dolfptoa.c:139-154 | prints a signed number as sign and magnitude |
| LfpPrint.Mfptoms | libntp/dolfptoa.c:157-172 | the same in milliseconds |
| LfpPrint.MagnitudeCorrect | libntp/dolfptoa.c:148-153 | negating a negative number gives its absolute value, the least one included |
| LfpParse.Atolfp | libntp/atolfp.c:29-122 | yields the fixed-point number of the numeral that the scan finds, None for the texts it refuses |
| LfpGrammar.ScannerGrammar | libntp/atolfp.c:55-92 | the scan accepts exactly the texts made of spaces, a sign (none, minus, plus or both), digits and a point with digits, with a digit or a point and an end after them, and finds the numeral they spell |
| LfpGrammar.CommentHolds | libntp/atolfp.c:50-54 | code and comment agree on a text if and only if it is neither blank nor a number after a minus and a plus sign; the same for mstolfp, without plus signs |
| LfpGrammar.BlankRefused | libntp/atolfp.c:66-67 | every blank text fits the comment and is refused |
| LfpGrammar.MinusPlusTaken | libntp/atolfp.c:58-64 | every number after both signs is read and does not fit the comment |
| LfpGrammar.Disagreements | libntp/atolfp.c:50-67 | the smallest texts of both kinds |
| LfpParse.Divide | libntp/atolfp.c:94-114 | the 32-step shift-and-subtract loop gives the fraction rounded to nearest |
| LfpParse.ParseWrite | libntp/atolfp.c:55-92 | parsing reads back what was written |
| LfpParse.Mstolfp | libntp/mstolfp.c:11-101 | the number of milliseconds read as the number of seconds a thousandth of it, and the room the text takes in the buffer |
| LfpParse.Rewrite | libntp/mstolfp.c:33-99 | the rewritten text spells the same numeral with its point three places further left, and how much of the buffer is written |
| LfpParse.ThousandthIsExact | libntp/mstolfp.c:54-91 | that denotes exactly a thousandth |
| LfpParse.BufferSuffices | libntp/mstolfp.c:20 | an accepted text fits the 100 bytes if and only if its sign, its integral digits, counted as at least four, and its fraction digits are at most 98 |
| LfpParse.ManyDigits | libntp/mstolfp.c:20 | of the texts of digits alone exactly those of at most 98 fit |
| LfpGrammar.NumberFound | libntp/mstolfp.c:31-92 | every text starts with a longest number, possibly empty |
| LfpGrammar.RoomNeeded | libntp/mstolfp.c:20-92 | a text, taken or refused, fits the 100 bytes if and only if that number is empty, or its sign, its integral digits, counted as at least four, and its fraction digits are at most 98 |
| LfpGrammar.RefusedToo | libntp/mstolfp.c:20-92 | digits before a letter are refused, and fit if and only if there are at most 98 |
| LfpText.ParseThenPrint | libntp/atolfp.c:29-122 | a canonical numeral with 1..9 decimals survives parsing and printing if and only if its value is in -2^31..2^31, upper end excluded, and it is not -0 |
| LfpText.PrintThenParse | libntp/dolfptoa.c:12-136 | printing with k decimals and parsing moves a number by at most (2^32 + 10^k) / (2 * 10^k) units, modulo 2^64 |
| LfpText.NineDecimals | libntp/dolfptoa.c:12-136 | with nine decimals by at most two units |
| LfpText.PrintedMeaning | libntp/dolfptoa.c:12-136 | the text is a numeral with the sign and the decimals asked for, up to 14, or 11 in milliseconds, without superfluous zeros, nearest to the number or to 1000 times it, halves up |
| LfpText.FixedMeaning | libntp/atolfp.c:95-120 | the number read is the integral part plus the binary fraction nearest to the first nine decimals, with its sign, to 64 bits |
| Intervals.NormalForm | include/timespecops.h:78-120 | the normalised interval is the only normal one with the same total |
| Intervals.Normalize | include/timespecops.h:78-120 | division and loops compute it in at most three steps |
| Intervals.ArithmeticOnTotals | include/timespecops.h:122-196 | addition, subtraction and negation are those of the totals, with normal results |
| Intervals.AbsoluteOnTotals | include/timespecops.h:198-218 | the absolute value is that of the total |
| Intervals.CompareOnTotals | include/timespecops.h:220-280 | comparison and test are those of the totals, for denormal intervals after normalising |
| Intervals.UnitsSurvive | include/timespecops.h:59-68 | nanoseconds and microseconds survive the binary fraction |
| Intervals.IntervalToLfpValue | include/timespecops.h:296-310 | the fixed-point number is the total rounded to nearest, modulo 2^64 |
| Intervals.BackAgain | include/timespecops.h:326-349 | what comes back from a conversion there and back, for every interval |
| Intervals.IntervalRoundTrip | include/timespecops.h:296-349 | it is the normal form if and only if the total is above -2^31 s and at most 2^31 s |
| Intervals.LowestSecond | include/timespecops.h:326-349 | -2^31 s comes back as 2^31 s |
| Intervals.LfpRoundTrip | include/timevalops.h:348-401 | the other order moves any number by at most 2 units (2147 for microseconds), modulo 2^64 |
| Intervals.LfpToIntervalNormal | include/timespecops.h:326-349 | the interval is normal if and only if the number is negative or its fraction does not round up to a second |
| Intervals.WholeSecond | include/timespecops.h:326-349 | the largest fraction comes out as 10^9 nanoseconds |
| SysTime.FuzzIsTruncated | libntp/systime.c:215-216 | the fuzz in fixed point is the truncated product |
| SysTime.FuzzSpread | libntp/systime.c:215-216 | the fuzz lies between 0 and sys_fuzz, and the random numbers take it from one end to the other |
| SysTime.AcceptedReading | libntp/systime.c:185-200 | the reading used is the later of the clock's and the earliest permissible; the program gives up if and only if that needs a second or more |
| SysTime.GivesUp | libntp/systime.c:178-195 | it gives up at a clock exactly one second behind |
| SysTime.FuzzedValue | libntp/systime.c:209-217 | the result is stamp plus fuzz modulo 2^64 |
| SysTime.FullMonotone | libntp/systime.c:185-217 | a reading the fuzz later is never stamped earlier, whatever the random numbers |
| SysTime.NeverEarlier | libntp/systime.c:209-217 | with any two fuzzes, the second result is not earlier for all random numbers if and only if the clock's advance makes up for the largest fuzz of the first |
| SysTime.StrictlyLater | libntp/systime.c:219-245 | results are strictly later for all random numbers if and only if the clock's advance exceeds the largest fuzz |
| SysTime.LaterThanEarliest | libntp/systime.c:219-245 | which holds a nanosecond past the earliest permissible reading |
| SysTime.EqualResults | libntp/systime.c:219-245 | and not at it |
| SysTime.RunAdvances | libntp/systime.c:174-249 | in every run each reading but the first after a backward step is the fuzz after the last; its result is not earlier if the fuzz was not lowered or the clock has made up for the former one |
| SysTime.LoweredFuzz | libntp/systime.c:174-249 | a run in which lowering the fuzz makes a result earlier |
| SysTime.StretchOrdered | libntp/systime.c:174-249 | over any stretch without such a step n readings take n times the fuzz and results are ordered |
| SysTime.EraOrdered | libntp/systime.c:219-245 | within an era the returned timestamps are ordered so, and a reported one equals the last |
| SysTime.FewForced | libntp/systime.c:247-248 | at most one reading per backward step is exempt |
| SysTime.Clock.GetSystime | libntp/systime.c:156-252 | the routine does that, and reports a result that is not later |
| SysTime.SlewExact | libntp/systime.c:286-310 | the part handed to adjtime and the residue make up the request, and the residue is at most half a quantum and a microsecond |
| SysTime.Quantize | libntp/systime.c:286-310 | of the request, the whole seconds towards zero and the microseconds of the multiple of the quantum nearest to the rest are handed over, and the residue leaves nothing out and is bounded |
| SysTime.SlewIsUnique | libntp/systime.c:286-310 | that determines the split |
| SysTime.Clock.AdjSystime | libntp/systime.c:259-322 | over all calls, applied plus refused plus residue is what was requested; in one call, applied and residue together change by the amount asked for if and only if the call succeeds, which it does if and only if adjtime does or has nothing to do |
| SysTime.NothingApplied | libntp/systime.c:296-315 | the adjustment handed over is zero if and only if both its parts are |
| SysTime.LostAdjustment | libntp/systime.c:296-322 | a second refused to a new clock is neither applied nor kept in the residue |
| RandomRing.GoodRandIsResidue | libntp/ntp_random.c:215-245 | the result is congruent to 16807 x for every x, and for x up to 9.6 * 10^10 in size it is that residue modulo 2^31 - 1, with 2^31 - 1 in place of 0 |
| RandomRing.StuckSeed | libntp/ntp_random.c:215-245 | within that size, all later words are 2^31 - 1 if and only if the seed is a multiple of it |
| RandomRing.StuckSeeds | libntp/ntp_random.c:215-245 | four such seeds, one of them negative |
| RandomRing.SeedsDivisible | libntp/ntp_random.c:269-271 | for every seed, a word is a multiple of 2^31 - 1 if and only if the seed is |
| RandomRing.SeedsSettle | libntp/ntp_random.c:259-271 | for every 64-bit seed the words are in range from the sixth on, follow the multiplicative generator, and are stuck if and only if the seed is such a multiple |
| RandomRing.SeedsArePowers | libntp/ntp_random.c:269-271 | within that size, positive or negative, the words are in 1..2^31-1 and follow the multiplicative generator unless the seed is a multiple of 2^31 - 1 |
| RandomRing.WidthIrrelevant | libntp/ntp_random.c:472-499 | the output is that of the 32-bit recurrence y(n) = y(n-31) + y(n-3), whatever the width of long |
| RandomRing.OutputRecurrence | libntp/ntp_random.c:472-499 | each result is the sum of those 31 and 3 calls before it modulo 2^31, or one more |
| RandomRing.CallHolds | libntp/ntp_random.c:485-487 | adding the rear word to the front word produces the next term and keeps the window |
| RandomRing.Ring.Random | libntp/ntp_random.c:472-499 | call n returns bits 1..31 of y(n); the pointers stay 3 apart and never wrap together |
| RandomRing.Ring.Seed | libntp/ntp_random.c:259-280 | seeds the window, and 310 calls bring both pointers back |
| Formatter.RevDigitsDenote | libntp/snprintf.c:1434-1447 | the digits denote the number in the base, with no superfluous zero |
| Formatter.Convert | libntp/snprintf.c:1434-1447 | the loop computes them and the buffer never fills up |
| Formatter.IntTextLength | libntp/snprintf.c:1039-1053 | the number of characters emitted, which is the larger of the width and of sign, prefix and digits without separators; and exactly when the width is reached |
| Formatter.NarrowField | libntp/snprintf.c:1039-1053 | a field of width eight that is seven characters wide |
| FormatMeaning.PrintedIsNumeral | libntp/snprintf.c:1434-1447 | the digits printed are the numeral of the number in its base, in the case asked for |
| FormatMeaning.NumeralUnique | libntp/snprintf.c:1434-1447 | a number has one numeral |
| FormatMeaning.IntTextIsC99 | libntp/snprintf.c:991-1089 | without separators the characters are those C99 asks for, if and only if it is not zero with precision zero |
| FormatMeaning.IntTextReads | libntp/snprintf.c:991-1089 | whatever width, precision and flags, without separators the text reads back to the value |
| FormatMeaning.GroupedByThree | libntp/snprintf.c:1079-1084 | separators set off three digits at a time from the right |
| FormatMeaning.ArgumentWidths | libntp/snprintf.c:720-796 | an argument is cut to 8, 16, 32 or 64 bits as its modifier says |
| FormatMeaning.IntegerConversions | libntp/snprintf.c:720-800 | the text of %d, %i, %u, %o, %x and %X reads back, in base 10, 8 or 16, to the argument in its width; only %X prints capitals |
| FormatMeaning.OtherConversions | libntp/snprintf.c:852-936 | what %c, %s, %n and %% print, take and store |
| FormatMeaning.PointerConversion | libntp/snprintf.c:861-887 | a pointer reads back in base 16, a null one is "(nil)" |
| FormatMeaning.Stars | libntp/snprintf.c:628-682 | a star takes width or precision from the arguments; negative ones mean left alignment and none |
| FormatMeaning.PlainText | libntp/snprintf.c:588-600 | characters outside of directives stand for themselves |
| FormatMeaning.OneDirective | libntp/snprintf.c:588-941 | a directive stands for what its conversion prints of the next argument, and the rest of the format follows |
| FormatMeaning.BoundedMeaning | libntp/snprintf.c:943-947 | as much of the text as leaves room for a NUL, the NUL, and what was there before |
| Formatter.StrTextMeaning | libntp/snprintf.c:956-988 | the longest NUL-free prefix within the precision, padded to the width |
| Formatter.Sink.OutChar | libntp/snprintf.c:531-536 | a character is stored if it fits before the NUL, and always counted |
| Formatter.Sink.Terminate | libntp/snprintf.c:943-947 | the buffer holds the text, or its first size-1 characters, a NUL, and is otherwise as before |
| Formatter.Sink.FmtStr | libntp/snprintf.c:956-988 | emits the padded string |
| Formatter.Sink.FmtInt | libntp/snprintf.c:990-1089 | emits the laid-out integer, separators included |
| Formatter.Sink.OutDigits | libntp/snprintf.c:1079-1084 | emits the digits with a separator before every third |
| Formatter.Sink.Conversion | libntp/snprintf.c:720-936 | each conversion character emits, takes and stores what the specification says |
| Formatter.Scan | libntp/snprintf.c:597-719 | each state of the scanner advances the directive that is read |
| Formatter.WidthNumber | libntp/snprintf.c:628-651 | the field width read is the number its digits denote, refused if and only if it exceeds INT_MAX |
| Formatter.PrecisionNumber | libntp/snprintf.c:659-682 | the same for the precision |
| Formatter.DirectiveReadBack | libntp/snprintf.c:597-719 | every directive of flags, width, precision and modifier is read back from its text, wherever it stands |
| Formatter.Run | libntp/snprintf.c:588-941 | the state machine produces the output of the format |
| Formatter.Vsnprintf | libntp/snprintf.c:552-954 | for every size the return value and the %n counts are those of the unbounded output, and the buffer gets its first size-1 characters and a NUL |

## Left out

- purge_recv_buffers_for_fd and CONCAT_FIFO: their effect depends on the cases in which the anchor is not restored.
- Freed and dangling memory: secrets are values, and neither `malloc` failure nor the reuse of a freed secret is modelled.
- Order and aliasing of allocations: a new key entry gets the next address of the model's memory, not one chosen by `malloc`.
- MD5 and OpenSSL digests, key files, and `auth_log2`, whose result is a parameter of `KeyStore.Store.Resize`.
- The layout of serialised `addrinfo` messages, the resolver, signals, descriptors, deferred forks and the thread variant of the workers.
- Child failure: a worker that dies with requests unanswered.
- dofptoa and its users: rounding there does not move the start of the text back.
- LfpParse.Mstolfp: when the text needs more than the 100 bytes of the source's buffer, says what a longer buffer would give; what then happens in C is undefined.
- Gregorian.DaysInYears, IsoWeeks.WeeksInYears and the functions built on them: their signed 32-bit arithmetic is unbounded here, so results outside int32 are not what C computes.
- Dates.Calendar.RdToDate, Dates.RdOfNtp: likewise `rd - 1` and the sum of a day count and the start of the NTP era.
- The table-driven microsecond conversions; only the 64-bit arithmetic form is modelled.
- Signed overflow of `tv_sec`, of a negated minimal field width and of `len`, which C leaves undefined.
- IEEE rounding in `systime.c`: doubles are reals, and sys_fuzz is exactly sys_fuzz_nsec nanoseconds.
- Truncation of the clock to ticks, signaled I/O, and the setting of the clock in `step_systime` beyond the flag it leaves.
- Generator types other than the compiled-in degree 31, and the historic weak seeding.
- Floating-point conversions of the formatter: what they emit and whether they fail is part of the argument.
- A variable argument list that is too short: it is read as going on with zeros.
- The `struct tm` variants of the calendar functions, which repeat the ones modelled, and a cycle of INT32_MIN in `ntpcal_periodic_extend`, which cannot be negated.
- Periodic.WeekdayForward: like the two lemmas after it, says nothing when the given day plus or minus the constant added to it overflows.
