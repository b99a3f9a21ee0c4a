# Verified models of cppforge components

A Dafny model of seven stateful components of cppforge, with proofs about all their runs. `dafny verify
dfyconfig.toml` checks everything.

- **LFU cache** (`LfuCache.dfy`, `LfuPolicy.dfy`, `LfuTheorems.dfy`). A class with heap nodes, a map from count to
  list and a map from key to node, proved against the policy "least frequent, ties by least recent" with a ghost
  clock. The theorems are about every trace of put, get, const get, remove and clear.
- **LRU cache** (`LruCache.dfy`, `LruSpec.dfy`, `LruTheorems.dfy`). Likewise, with the two-run inclusion theorem. Both
  caches are compared with one unbounded map (`CacheTrace.dfy`), and the objects are driven by whole traces
  (`CacheReplay.dfy`).
- **Cron expressions** (`CronField.dfy`, `CronTexts.dfy`, `CronExpression.dfy`, `Calendar.dfy`, `CronMeaning.dfy`,
  `CronTotality.dfy`). Parsing against the documented grammar, exactly which texts are accepted, what an expression
  means in dates and times, the exactness of the search, and exactly when the search can fail, over the Gregorian
  calendar.
- **Task scheduler** (`SchedulerModel.dfy`, `SchedulerTheorems.dfy`, `SchedulerTimes.dfy`, `SchedulerSearches.dfy`,
  `SchedulerFutures.dfy`, `SchedulerCrashes.dfy`, `TaskScheduler.dfy`, `SchedulerReplay.dfy`). A transition system
  with a program counter per worker and per schedule call; the class carries out its steps. What holds in every run,
  and what can still happen. Cron tasks use the cron model.
- **Delayed task actuator** (`ActuatorModel.dfy`, `DelayedTaskActuator.dfy`, `ActuatorReplay.dfy`). A monitor with
  sleeping threads, blocked callers, cancellation and destruction.
- **Base64url and JWT** (`Base64Url.dfy`, `Base64Rfc.dfy`, `JwtToken.dfy`). Both codec loops on a wrapping signed
  32-bit accumulator against big numbers and against the groups and the alphabet of RFC 4648, and the token framing on
  top.
- **Middleware chain** (`MiddlewareChain.dfy`). The re-entrant `next` over one shared index.

Classes keep the fields of the source and change them in place; each method states its whole new state as a function
of the old one, and the theorems are about that function over whole runs. Threads are modelled by interleaving atomic
sections.

## Where the code and its documentation differ

The model follows the code.

- CronExpression.hpp says that a malformed expression throws; but any text that starts with no digit may follow a
  number in a field. Exactly which texts are accepted is `CronTexts.AcceptedIff`. A comma list of values such as
  `1,15` means `1`, and `1,3-5` means `1-5` (`CronTexts.CommaListIsCut`, `CronTexts.CommaRange`).
- "Could not find next execution time within 4 years" is thrown for expressions that do name a time: for February 29th
  from the beginning of 2097 (`CronTotality.LeapDayFails`), and for every date on one weekday
  (`CronTotality.OneDateOneWeekdayFails`). Exactly when is `CronTotality.NeverFailsIff`. Inside a worker that
  exception is not caught and ends the process; exactly which expressions can bring that about is
  `SchedulerCrashes.CrashIff`.
- TaskScheduler.hpp says that cancel returns whether the task was found and cancelled; a periodic task whose body is
  running is not found and goes on. Exactly when that happens is `SchedulerFutures.MissedCancelIff`, and exactly which
  tasks can still begin in any state is `SchedulerFutures.CanBeginIff`.
- TaskScheduler.hpp says that stop cancels all pending tasks; each one that was not cancelled itself can begin after
  the next start (`SchedulerFutures.BeginsAgainIff`), while a periodic task that was running is lost
  (`SchedulerTheorems.DroppedNeverReturns`, `SchedulerFutures.ATaskIsDropped`).
- DelayedTaskActuator.hpp says that cancelTask cancels a task that has not started; its body still runs
  (`ActuatorModel.CancelledTaskStillRuns`).
- JwtToken.hpp says that decode gives nothing for an expired token; a token that says it expired at time 0 is accepted
  (`JwtToken.ExpiredIsAccepted`). Exactly which tokens are accepted is `JwtToken.AcceptedIff`.
- A JWT with one more dot at the end is accepted (`JwtToken.SignedIsAccepted`), and a payload with a NUL byte does not
  come back (`JwtToken.TokenRoundTrip`).
- `std::priority_queue` has no `get_container`; the model takes it to give the queued tasks.

## Model

| member | source | states |
|---|---|---|
| LfuCache.LFUCache.Create | common/include/cppforge/cache/LFUCache.hpp:147-154 | a cache is made exactly for a positive capacity; otherwise the call fails |
| LfuCache.LFUCache.RemoveEmptyFreqList | common/include/cppforge/cache/LFUCache.hpp:359-389 | deletes the list of one count if it is empty, and afterwards `minFreq` is again the least count in use, or 0 when none is |
| LfuCache.MinElement | common/include/cppforge/cache/LFUCache.hpp:379-381 | finds the least count of a non-empty set |
| LfuCache.LFUCache.UpdateFrequency | common/include/cppforge/cache/LFUCache.hpp:295-322 | moves the node of a key to the front of the list of the next count: the policy's count and time stamp of that key advance and every link stays consistent |
| LfuCache.LFUCache.Get | common/include/cppforge/cache/LFUCache.hpp:236-257 | answers the value that is stored for the key, exactly when the key is there, and then counts one more use of it; all three structures stay linked |
| LfuCache.LFUCache.ConstGet | common/include/cppforge/cache/LFUCache.hpp:156-160 | answers the same and changes nothing |
| LfuCache.LFUCache.EvictLfuItem | common/include/cppforge/cache/LFUCache.hpp:324-351 | on a non-empty cache never fails, and removes exactly the policy's victim |
| LfuCache.LFUCache.Put | common/include/cppforge/cache/LFUCache.hpp:259-293 | always returns true; the new state is that of the policy: overwrite and count, or evict the victim if full and insert with count 1 in front |
| LfuCache.LFUCache.Remove | common/include/cppforge/cache/LFUCache.hpp:180-202 | returns whether the key was there and removes just that key, its node and, if need be, its list |
| LfuCache.LFUCache.Clear | common/include/cppforge/cache/LFUCache.hpp:204-210 | leaves an empty cache with minimum count 0, no node in use, and the clock one further |
| LfuCache.LFUCache.Size | common/include/cppforge/cache/LFUCache.hpp:212-228 | the number of entries, at most the capacity |
| LfuCache.LFUCache.Contains | common/include/cppforge/cache/LFUCache.hpp:230-234 | whether the key has an entry |
| LfuCache.LastOfMinIsVictim | common/include/cppforge/cache/LFUCache.hpp:324-340 | the last node of the list of the least count is the entry with the lexicographically least (count, last touch), although nothing stores a time stamp |
| LfuCache.EmptyExactly | common/include/cppforge/cache/LFUCache.hpp:110-111 | the least count has a list exactly when the cache is not empty, so eviction cannot fail on a full cache |
| LfuCache.Detached | common/include/cppforge/cache/LFUCache.hpp:295-308 | taking a node out of its list and deleting the list if empty keeps key map, lists and policy entries in correspondence |
| LfuCache.Attached | common/include/cppforge/cache/LFUCache.hpp:310-315 | putting a node in front of its list keeps every list ordered newest first by last touch |
| LfuPolicy.VictimExists | common/include/cppforge/cache/LFUCache.hpp:324-340 | among entries with different time stamps there is a least one by (count, last touch) |
| LfuPolicy.VictimIsUnique | common/include/cppforge/cache/LFUCache.hpp:324-340 | and only one |
| LfuTheorems.RunExplained | common/include/cppforge/cache/LFUCache.hpp:236-322 | after every run each cached key has count 1 + the uses since its insertion and the time stamp of its last use, both read off the trace |
| LfuTheorems.RunSize | common/include/cppforge/cache/LFUCache.hpp:273-280 | after every run the size is at most the capacity |
| LfuTheorems.RunStamps | common/include/cppforge/cache/LFUCache.hpp:295-322 | after every run the time stamps of the entries differ |
| LfuTheorems.VictimIsLeastFrequent | common/include/cppforge/cache/LFUCache.hpp:4-8 | in every run of put, both gets, remove and clear, a put into a full cache evicts exactly one entry: the one used least since its insertion, and among those the one last used longest ago |
| LfuTheorems.Coherence | common/include/cppforge/cache/LFUCache.hpp:236-293 | after every run a hit returns the value of the latest put since the last remove or clear: the cache is a part of the unbounded map driven by the same trace |
| LfuTheorems.AnswerIff | common/include/cppforge/cache/LFUCache.hpp:236-257 | after every run a key has value v exactly if it is cached and v is the value of its latest put since the last remove or clear |
| LfuTheorems.PutWithRoom | common/include/cppforge/cache/LFUCache.hpp:261-292 | a put evicts nothing while there is room or when its key is cached already |
| LfuTheorems.Conservation | common/include/cppforge/cache/LFUCache.hpp:324-351 | only evictions lose keys: the keys of the unbounded map are the cached ones and the ones evicted since their last put, without overlap |
| LruCache.LRUCache.Create | common/include/cppforge/cache/LRUCache.hpp:126-133 | a cache is made exactly for a capacity above 0 |
| LruCache.LRUCache.MoveToFront | common/include/cppforge/cache/LRUCache.hpp:204-214 | splices one node to the front and keeps the order of the others, with the map still pointing to each node |
| LruCache.LRUCache.Get | common/include/cppforge/cache/LRUCache.hpp:216-228 | looks the key up and, on a hit, moves it to the front; the const version does the same |
| LruCache.LRUCache.Put | common/include/cppforge/cache/LRUCache.hpp:230-252 | overwrites and moves to the front, or drops the last entry of a full list and inserts in front; always true |
| LruCache.LRUCache.Remove | common/include/cppforge/cache/LRUCache.hpp:159-171 | returns whether the key was there and removes exactly its entry from list and map |
| LruCache.LRUCache.Clear | common/include/cppforge/cache/LRUCache.hpp:173-178 | leaves an empty cache |
| LruCache.LRUCache.Size | common/include/cppforge/cache/LRUCache.hpp:180-196 | the number of entries, at most the capacity |
| LruCache.LRUCache.Contains | common/include/cppforge/cache/LRUCache.hpp:198-202 | whether the key has an entry |
| LruTheorems.RunShape | common/include/cppforge/cache/LRUCache.hpp:242-251 | after every run the keys of the list differ and their number is at most the capacity |
| LruTheorems.Inclusion | common/include/cppforge/cache/LRUCache.hpp:160-252 | on the same trace the list of the smaller cache is a subsequence of the list of the larger one, with equal values, and the sizes differ by no more than the capacities: more capacity never loses a hit |
| LruTheorems.HitsAreIncluded | common/include/cppforge/cache/LRUCache.hpp:216-228 | so every hit of the smaller cache is the same hit in the larger one |
| LruTheorems.Coherence | common/include/cppforge/cache/LRUCache.hpp:216-252 | after every run every entry is the latest put of its key since the last remove or clear |
| LruTheorems.AnswerIff | common/include/cppforge/cache/LRUCache.hpp:216-228 | after every run a lookup finds v exactly if the key is cached and v is the value of its latest put since the last remove or clear |
| LruTheorems.PutWithRoom | common/include/cppforge/cache/LRUCache.hpp:234-251 | a put evicts nothing while there is room or when its key is cached already, and its entry is in front |
| LruTheorems.Conservation | common/include/cppforge/cache/LRUCache.hpp:242-247 | only evictions lose keys, and a key is never both cached and lost |
| LruTheorems.RecencyHolds | common/include/cppforge/cache/LRUCache.hpp:204-214 | after every run the list is ordered by the time of last use, newest first |
| LruTheorems.VictimIsLeastRecent | common/include/cppforge/cache/LRUCache.hpp:242-247 | the entry that a put evicts is the one last used longest ago, and nothing else goes |
| CacheTrace.RefRunIsLatestPut | common/include/cppforge/cache/LRUCache.hpp:230-252 | what the reference map of both caches holds: a key has value v exactly when some put gave it v and no later operation removed, overwrote or cleared it |
| CacheReplay.LfuStep | common/include/cppforge/cache/LFUCache.hpp:180-293 | each operation of the LFU object is the policy's step on its state, and a get of either kind answers the stored value, if there is one |
| CacheReplay.ReplayLfu | common/include/cppforge/cache/LFUCache.hpp:180-389 | an LFU object driven by any trace is in the state of the run, and every get answers what the run before it holds: the theorems about runs are about the object |
| CacheReplay.LfuAnswersAreLatestPuts | common/include/cppforge/cache/LFUCache.hpp:236-257 | over a whole replay a get of a key, const or not, answers v exactly if the key is cached and v is the value of its latest put since the last remove or clear |
| CacheReplay.LruStep | common/include/cppforge/cache/LRUCache.hpp:159-252 | each operation of the LRU object is a step on its list of entries, and a get answers what that list holds |
| CacheReplay.ReplayLru | common/include/cppforge/cache/LRUCache.hpp:159-252 | likewise for an LRU object and any trace |
| CacheReplay.LruAnswersAreLatestPuts | common/include/cppforge/cache/LRUCache.hpp:216-228 | likewise for the LRU cache |
| CronField.PushSteps | starters/scheduler/src/CronExpression.cc:75-78 | the push loop: an increasing list of exactly start, start + step, ... up to stop; it ends because the step is positive |
| CronField.ParseField | starters/scheduler/src/CronExpression.cc:38-114 | a field is read as a form, refused with the form's own complaint, or turned into the list of exactly the values that the form selects |
| CronField.ListsUnique | starters/scheduler/src/CronExpression.cc:38-114 | that list is determined by the form |
| CronField.ReadShown | starters/scheduler/src/CronExpression.cc:51-93 | every documented form, written out, is read back as itself; a step of 0 is refused |
| CronField.AcceptedIsDocumented | starters/scheduler/src/CronExpression.cc:51-93 | an accepted text never means anything outside the documented forms: the form that it is read as, written out, is read the same way |
| CronField.AcceptedSelects | starters/scheduler/src/CronExpression.cc:70-110 | an accepted field selects at least one value, and only values between its limits |
| CronTexts.StoiIff | starters/scheduler/src/CronExpression.cc:92 | std::stoi succeeds with v if and only if the text is white space, perhaps a sign, some digits and then anything but a digit, and the number they spell is v and fits an int |
| CronTexts.StoiFailsIff | starters/scheduler/src/CronExpression.cc:92 | it throws invalid_argument if and only if the text spells no number, and out_of_range if and only if it spells one that does not fit |
| CronTexts.StoiOfDecimal | starters/scheduler/src/CronExpression.cc:92 | how written numbers with or without a sign are read, up to the limits of a 32-bit int |
| CronTexts.DecimalExample | starters/scheduler/src/CronExpression.cc:92 | numbers are in base ten, most significant digit first |
| CronTexts.SelectsIff | starters/scheduler/src/CronExpression.cc:70-110 | a form selects start, start + step, start + 2 * step and so on up to its end; a value with no step or with step 1 is just that value |
| CronTexts.ErrorsInOrder | starters/scheduler/src/CronExpression.cc:54-63 | the step is read first, then the base |
| CronTexts.BaseErrorsInOrder | starters/scheduler/src/CronExpression.cc:67-92 | the two ends of a range are read from left to right |
| CronTexts.LimitErrors | starters/scheduler/src/CronExpression.cc:73-97 | a value outside the limits, and a range outside them or in the wrong order, have their own errors |
| CronTexts.AcceptedIff | starters/scheduler/src/CronExpression.cc:38-114 | exactly which texts a field accepts: before the first '/', if any, a star, a number within the limits, or two ordered numbers within the limits around the first '-'; after it a positive number; each number may be followed by anything |
| CronTexts.JunkIsCut | starters/scheduler/src/CronExpression.cc:51-93 | for every first number, however it is spelled, and every rest: what follows the number up to the next '-' or '/' makes no difference to how the field is read |
| CronTexts.CommaListIsCut | starters/scheduler/src/CronExpression.cc:51-93 | a list that begins with a number, however it is spelled, and a comma is accepted if and only if it is without the comma and the text up to the next '-' or '/', and is read as that; a list of plain values is its first value |
| CronTexts.CommaListSplits | starters/scheduler/src/CronExpression.cc:51-77 | every text after the comma is of that kind |
| CronTexts.CommaRange | starters/scheduler/src/CronExpression.cc:73-86 | so `v,a-b` is the range from v to b |
| CronTexts.OtherListIsRefused | starters/scheduler/src/CronExpression.cc:51-93 | a list whose first item has no '-' or '/' and spells no number is refused |
| CronTexts.StarListIsRefused | starters/scheduler/src/CronExpression.cc:51-93 | for example, one that begins with a star |
| CronField.ReadDecimal | starters/scheduler/src/CronExpression.cc:92 | how std::stoi reads a written number: exactly, whatever non-digit text follows it |
| CronField.WordsFirst | starters/scheduler/src/CronExpression.cc:20-23 | the words of a text are its parts between white space, in order |
| CronField.WordsOfBlank | starters/scheduler/src/CronExpression.cc:20-23 | a text of white space has no words |
| CronField.WhiteSpace | starters/scheduler/src/CronExpression.cc:20 | white space is blank, tab, newline, vertical tab, form feed and carriage return |
| CronField.ReadWords | starters/scheduler/src/CronExpression.cc:16-23 | the extraction loop yields those words |
| CronExpression.Create | starters/scheduler/src/CronExpression.cc:14-36 | accepts exactly the texts of five accepted fields; each field then lists what its text selects and is not empty; otherwise the error is the wrong count or that of the first bad field |
| CronExpression.DocumentedExpression | starters/scheduler/src/CronExpression.cc:14-36 | written-out documented fields are accepted exactly when there are five, no step is 0, and every value and range fits its field |
| CronMeaning.FiveValues | starters/scheduler/src/CronExpression.cc:31-35 | the limits: five values are accepted exactly if the first is at most 59, the second at most 23, the third from 1 to 31, the fourth from 1 to 12 and the fifth at most 6 |
| CronMeaning.FiveValuesSelect | starters/scheduler/src/CronExpression.cc:31-35 | the order: they select that minute, hour, day of the month, month and weekday |
| CronMeaning.StarsSelect | starters/scheduler/src/CronExpression.cc:42-49 | five stars select every value within these limits |
| CronExpression.NextExecutionTime | starters/scheduler/src/CronExpression.cc:116-155 | the minute-by-minute loop finds the first fitting minute of its window, or fails |
| CronExpression.NextMinute | starters/scheduler/src/CronExpression.cc:120-135 | zero seconds, one minute more and mktime give the start of the next minute, also across hours, days, months and years |
| CronExpression.MatchesIsMinuteFits | starters/scheduler/src/CronExpression.cc:157-176 | matching a time point is a question about its local minute, hour, date and weekday only |
| CronExpression.NextTimeIsEarliest | starters/scheduler/src/CronExpression.cc:116-176 | the search is exact, both ways: it answers t if and only if t is a whole local minute after that of `from`, within 366*24*60*4 minutes, matches all five fields, and no instant of an earlier searched minute matches |
| CronExpression.NextTimeFails | starters/scheduler/src/CronExpression.cc:137-154 | it throws if and only if no instant of the searched minutes matches |
| CronMeaning.MatchesIff | starters/scheduler/src/CronExpression.cc:157-176 | a time point at a date and a time of day matches if and only if its minute, hour, day of the month, month and weekday are all selected |
| CronMeaning.AnswerIff | starters/scheduler/src/CronExpression.cc:116-155 | the answer of the search in these terms, both ways: the beginning of a later local minute, at most 2108160 minutes later, that is selected in all five fields, no instant of an earlier one being selected |
| CronMeaning.NoAnswerIff | starters/scheduler/src/CronExpression.cc:137-154 | it throws if and only if no instant of these minutes is selected |
| CronMeaning.AnswerIsADate | starters/scheduler/src/CronExpression.cc:137-151 | every answer is a date and a time of day, to the minute, that is selected in all five fields |
| Calendar.DayNumberOfDate | starters/scheduler/src/CronExpression.cc:119-135 | the calendar behind localtime_r and mktime: stepping through the days and counting days by years and months agree |
| Calendar.DateOfDayNumber | starters/scheduler/src/CronExpression.cc:119-135 | and every valid date is reached |
| Calendar.MonthLengths | starters/scheduler/src/CronExpression.cc:119-135 | the lengths of the twelve months |
| Calendar.LeapRule | starters/scheduler/src/CronExpression.cc:119-135 | the Gregorian rule for leap years |
| Calendar.KnownDay | starters/scheduler/src/CronExpression.cc:119-135 | February 29th 2024 is day 19782 and was a Thursday |
| Calendar.WeekdaysFollow | starters/scheduler/src/CronExpression.cc:175 | Saturday is followed by Sunday, weekday 0 |
| Calendar.DatesRepeat | starters/scheduler/src/CronExpression.cc:137-151 | dates and weekdays repeat after 146097 days |
| CronTotality.NeverFailsIff | starters/scheduler/src/CronExpression.cc:137-154 | for any expression: the search never throws, from any start, if and only if every 1464 days in a row contain a day with a selected date and weekday |
| CronTotality.OneCycleSuffices | starters/scheduler/src/CronExpression.cc:137-154 | that condition need only be looked at for the windows that begin in one 400-year cycle |
| CronTotality.AllWeekdaysNeverFailsIff | starters/scheduler/src/CronExpression.cc:137-154 | with all weekdays selected the search never throws if and only if some selected date exists in every year; February 29th alone is not enough |
| CronTotality.AllDaysNeverFails | starters/scheduler/src/CronExpression.cc:137-154 | with all days of the month selected the search never throws |
| CronTotality.LeapDayOnly | starters/scheduler/src/CronExpression.cc:137-154 | without a date that exists in every year, the 1464 days from January 1st 2097 contain no fitting day |
| CronTotality.SearchFromDay | starters/scheduler/src/CronExpression.cc:137-154 | a search that starts just before a day succeeds if and only if one of the 1464 days from there on fits |
| CronTotality.LeapDayIsRead | starters/scheduler/src/CronExpression.cc:14-36 | `0 0 29 2 *` is accepted and read as minute 0, hour 0, day 29, month 2 and all weekdays |
| CronTotality.LeapDayFails | starters/scheduler/src/CronExpression.cc:137-154 | its search succeeds when it starts as 2096 begins and throws when it starts as 2097 begins |
| CronTotality.SameDateOtherWeekday | starters/scheduler/src/CronExpression.cc:137-154 | no date comes back on the same weekday within 1464 days |
| CronTotality.OneDateOneWeekdayFails | starters/scheduler/src/CronExpression.cc:137-154 | so an expression for one date on one weekday throws from some start, whatever the date and the weekday |
| CronTotality.YearlyDateIsNecessary | starters/scheduler/src/CronExpression.cc:137-154 | an expression whose search never throws selects a date that exists in every year |
| SchedulerModel.OwnedStep | starters/scheduler/src/TaskScheduler.cc:21-208 | every step of every thread keeps: each id once in the queue or with one worker, heap keys equal to due times, no worker with a cancelled task, no worker when stopped |
| SchedulerTheorems.Invariant | starters/scheduler/src/TaskScheduler.cc:21-208 | ownership, the log of started tasks and conservation hold in every reachable state |
| SchedulerTheorems.OnePlace | starters/scheduler/src/TaskScheduler.cc:150-207 | in every interleaving a task is in at most one place, so it never overlaps itself |
| SchedulerTheorems.BeginsInOrder | starters/scheduler/src/TaskScheduler.cc:171-199 | a task scheduled once begins at most once; successive due times of a cron task or of a positive interval strictly increase, so each (task, due time) begins at most once |
| SchedulerTheorems.BeginsSpaced | starters/scheduler/src/TaskScheduler.cc:186-195 | in every run an interval task is not due again, and does not begin again, before its interval has passed since it began; a cron task is due again only after it began |
| SchedulerTimes.FirstDue | starters/scheduler/src/TaskScheduler.cc:25-31 | the first due time: the call plus the delay or the interval in milliseconds, or the answer of the cron search from the moment of the call |
| SchedulerTimes.NextDueTime | starters/scheduler/src/TaskScheduler.cc:186-195 | the next due time, after the body: that moment plus the interval, or the answer of the cron search from that moment; unchanged for an interval that is not positive |
| SchedulerTimes.DelayIsKept | starters/scheduler/src/TaskScheduler.cc:45-86 | in every run a task with a delay or an interval does not begin before that many milliseconds have passed since the call |
| SchedulerTimes.CronTasksKeepTheirTimes | starters/scheduler/src/TaskScheduler.cc:162-191 | in every run a cron task begins only for whole minutes that its expression selects in all five fields, and not before them |
| SchedulerTheorems.NeverEarly | starters/scheduler/src/TaskScheduler.cc:171-178 | with a non-decreasing clock nothing begins before it is due |
| SchedulerTheorems.QueuedDueIsFixed | starters/scheduler/src/TaskScheduler.cc:186-198 | a due time never changes while its task is queued, and it is the one the heap has seen |
| SchedulerTheorems.TakesTheEarliest | starters/scheduler/src/TaskScheduler.cc:162-174 | so the entry that a worker takes has the least due time of all queued tasks |
| SchedulerTheorems.WhoWrites | starters/scheduler/src/TaskScheduler.cc:185-198 | a record changes only by cancel while it is queued, under the lock, or by the one worker that holds it while it is not queued |
| SchedulerTheorems.NothingIsLost | starters/scheduler/src/TaskScheduler.cc:150-207 | a submitted task is queued or with a worker, unless it was cancelled, was to run once and began, or was running when the scheduler stopped |
| SchedulerTheorems.CancelIsFinal | starters/scheduler/src/TaskScheduler.cc:88-107 | once cancel has found a task, the task does not begin in any continuation of any interleaving |
| SchedulerFutures.MissedCancelIff | starters/scheduler/src/TaskScheduler.cc:88-107 | a cancel that does not find a task changes nothing, and the task can begin again afterwards if and only if a worker has it and will push it again: it is being rescheduled, or its body runs, it is periodic and the scheduler runs |
| SchedulerFutures.CanBeginIff | starters/scheduler/src/TaskScheduler.cc:21-208 | exactly which tasks can begin, in every reachable state, running, stopping or stopped: those that are queued and not cancelled, and those that a worker has and will push again; with or without further cancels |
| SchedulerFutures.QueuedBegins | starters/scheduler/src/TaskScheduler.cc:109-207 | a queued task that is not cancelled can begin whatever the scheduler is doing, and nothing else needs to be cancelled for it |
| SchedulerSearches.SearchesLater | starters/scheduler/src/TaskScheduler.cc:188-191 | an expression whose search succeeded once has a later time, after any time, at which it succeeds again |
| SchedulerSearches.ReachableFrom | starters/scheduler/src/TaskScheduler.cc:21-43 | in every reachable state every cron record holds such an expression, because its first search succeeded |
| SchedulerFutures.CancelMissesARunningTask | starters/scheduler/src/TaskScheduler.cc:88-107 | a short instance: after the missed cancel the worker pushes the task again |
| SchedulerFutures.ACancelMisses | starters/scheduler/src/TaskScheduler.cc:88-107 | such states are reached, for every interval and every delay: an interval task can begin again, a one-time task cannot |
| SchedulerTheorems.DroppedNeverReturns | starters/scheduler/src/TaskScheduler.cc:185-200 | a periodic task that was running when the scheduler stopped never begins again, even after a new start |
| SchedulerFutures.ATaskIsDropped | starters/scheduler/src/TaskScheduler.cc:185-200 | such states are reached, for every interval |
| SchedulerTheorems.SilentForever | starters/scheduler/src/TaskScheduler.cc:150-207 | a task that is cancelled or that nobody has does not begin in any continuation |
| SchedulerTheorems.QuietAfterStop | starters/scheduler/src/TaskScheduler.cc:124-143 | when stop has returned there is no worker, and nothing begins before the next start |
| SchedulerFutures.BeginsAgainIff | starters/scheduler/src/TaskScheduler.cc:109-143 | stop cancels nothing: when it has returned, a task can begin again if and only if it is queued and was not cancelled itself, and then it does in a run without any further cancel |
| SchedulerFutures.StopKeepsTheQueue | starters/scheduler/src/TaskScheduler.cc:109-143 | a short instance: a due task at the top begins after the next start |
| SchedulerFutures.ATaskOutlastsStop | starters/scheduler/src/TaskScheduler.cc:109-143 | such states are reached, for every positive delay |
| SchedulerFutures.DueTaskBegins | starters/scheduler/src/TaskScheduler.cc:150-178 | a worker that waits, once awake, begins a due task at the top of the queue |
| SchedulerFutures.WorkersLeave | starters/scheduler/src/TaskScheduler.cc:152-207 | once the scheduler is not running, every step of a worker brings it nearer to the end of its loop |
| SchedulerFutures.OthersDoNotInterfere | starters/scheduler/src/TaskScheduler.cc:124-143 | and no other event but a start or the end of stop moves it |
| SchedulerFutures.WorkerIsNotStuck | starters/scheduler/src/TaskScheduler.cc:150-208 | a worker that has not left its loop always has a next step |
| SchedulerFutures.StopIsBounded | starters/scheduler/src/TaskScheduler.cc:124-143 | once the scheduler is not running, in every run without a start its workers take at most a fixed number of steps in all |
| SchedulerFutures.StopReturns | starters/scheduler/src/TaskScheduler.cc:124-143 | and when none of them can take a step, stop can return, unless the process has ended |
| SchedulerCrashes.CrashIff | starters/scheduler/src/TaskScheduler.cc:188-191 | for any set of cron expressions asked for, next to any other tasks: some run ends in a failing search inside a worker if and only if one of the expressions names some day, but not in every 1464 days in a row |
| SchedulerCrashes.CrashNeedsHazard | starters/scheduler/src/TaskScheduler.cc:188-191 | from any state whose records hold such expressions, a run that ends so names one of them |
| SchedulerCrashes.NeverCrashes | starters/scheduler/src/TaskScheduler.cc:188-191 | if no expression is of that kind, as when no search of theirs can fail, no run ends so |
| SchedulerCrashes.HazardCrashes | starters/scheduler/src/TaskScheduler.cc:188-191 | each such expression alone can end the process |
| SchedulerCrashes.LeapDayCrashes | starters/scheduler/src/TaskScheduler.cc:188-191 | a task scheduled for February 29th can end the process |
| SchedulerCrashes.CrashRun | starters/scheduler/src/TaskScheduler.cc:176-191 | the run: a search that succeeds when the task is scheduled and fails when its body has run |
| TaskScheduler.TaskScheduler.Prepared | starters/scheduler/src/TaskScheduler.cc:24-33 | parses the expression and searches its next time; gives the record, the parse error or the failure of the search |
| TaskScheduler.TaskScheduler.Schedule | starters/scheduler/src/TaskScheduler.cc:21-43 | the three steps of a cron submission, or an exception after which only the id is used up |
| TaskScheduler.TaskScheduler.ScheduleOnce | starters/scheduler/src/TaskScheduler.cc:45-64 | the three steps of a one-time submission |
| TaskScheduler.TaskScheduler.SchedulePeriodic | starters/scheduler/src/TaskScheduler.cc:66-86 | the three steps of an interval submission |
| TaskScheduler.TaskScheduler.CancelTask | starters/scheduler/src/TaskScheduler.cc:88-107 | the search loop finds the task exactly when it is queued, and marks it |
| TaskScheduler.TaskScheduler.StartWorkers | starters/scheduler/src/TaskScheduler.cc:109-122 | nothing when running, otherwise the given number of new workers |
| TaskScheduler.TaskScheduler.RequestStop | starters/scheduler/src/TaskScheduler.cc:124-129 | the first part of stop: no longer running, and waiting for the workers if it was |
| TaskScheduler.TaskScheduler.JoinWorkers | starters/scheduler/src/TaskScheduler.cc:133-140 | the second part of stop, possible when every worker has left its loop |
| TaskScheduler.TaskScheduler.TakeTask | starters/scheduler/src/TaskScheduler.cc:154-174 | the locked head of the loop is one step of the transition system: wait, drop a cancelled task, or begin a due one |
| TaskScheduler.TaskScheduler.DecideAgain | starters/scheduler/src/TaskScheduler.cc:185-186 | whether the task is scheduled again is one step of the transition system |
| TaskScheduler.TaskScheduler.ComputeNext | starters/scheduler/src/TaskScheduler.cc:188-195 | the new due time is written in one step of the transition system, or the search throws |
| TaskScheduler.TaskScheduler.PushAgain | starters/scheduler/src/TaskScheduler.cc:197-199 | the record goes back with its present due time |
| SchedulerModel.TopOf | starters/scheduler/src/TaskScheduler.cc:162 | the top of the queue is an entry with a least due time |
| SchedulerReplay.StepTheWorker | starters/scheduler/src/TaskScheduler.cc:150-208 | each step of a worker of the object is an event of the transition system that was possible |
| SchedulerReplay.Replay | starters/scheduler/src/TaskScheduler.cc:21-208 | any calls and steps of an object, in any order, are a run of the transition system |
| SchedulerReplay.ReplayNew | starters/scheduler/src/TaskScheduler.cc:11-14 | so a new object is always in a reachable state, to which the theorems apply |
| ActuatorModel.Invariant | common/include/cppforge/thread/DelayedTaskActuator.hpp:76-215 | in every reachable state: futures not handed out are those of the unclaimed tasks, pending tasks are those that sleep and were not cancelled, claims and runs are unique, blocked callers are justified |
| ActuatorModel.NoStrandedWaiter | common/include/cppforge/thread/DelayedTaskActuator.hpp:159-162 | a blocked caller of getTaskResult waits on an id that is pending, with its future gone and its thread not fired |
| ActuatorModel.WakesWhenTrue | common/include/cppforge/thread/DelayedTaskActuator.hpp:126-132 | every step that makes a blocked caller's condition true unblocks it, and only the thread of its task or the destructor is such a step, never cancelTask |
| ActuatorModel.WaitersStep | common/include/cppforge/thread/DelayedTaskActuator.hpp:197-215 | the condition of every blocked caller stays false across every step, cancelTask included, which does not notify |
| ActuatorModel.BlockedCallerLeaves | common/include/cppforge/thread/DelayedTaskActuator.hpp:115-176 | a blocked caller gets away: when the delay is over its task's thread can fire, and the caller then leaves with an error |
| ActuatorModel.BlockedCallerNeverReturns | common/include/cppforge/thread/DelayedTaskActuator.hpp:159-176 | a caller that once blocked is never handed a future, in any continuation |
| ActuatorModel.SingleClaim | common/include/cppforge/thread/DelayedTaskActuator.hpp:169-175 | over every run at most one getTaskResult or cancelTask succeeds for an id |
| ActuatorModel.IssuedOnce | common/include/cppforge/thread/DelayedTaskActuator.hpp:108 | the id that scheduleTask issues next was never issued before |
| ActuatorModel.CancelSucceedsIff | common/include/cppforge/thread/DelayedTaskActuator.hpp:197-215 | cancelTask succeeds if and only if the task's thread still sleeps and nothing was claimed for it |
| ActuatorModel.ReturnsIff | common/include/cppforge/thread/DelayedTaskActuator.hpp:152-177 | while the actuator lives, getTaskResult returns a future at once if and only if the id was issued and not claimed, whether the task has run or not |
| ActuatorModel.RunsOnce | common/include/cppforge/thread/DelayedTaskActuator.hpp:115-133 | each body runs at most once, exactly when its thread fires |
| ActuatorModel.DelayIsKept | common/include/cppforge/thread/DelayedTaskActuator.hpp:115-124 | in every run a body does not start before its delay has passed since scheduleTask, and while its thread sleeps it can wake exactly from then on |
| ActuatorModel.PendingIff | common/include/cppforge/thread/DelayedTaskActuator.hpp:190-195 | isTaskPending: the id was issued, its body has not run and it was not cancelled |
| ActuatorModel.NothingRunsAfterDestruction | common/include/cppforge/thread/DelayedTaskActuator.hpp:40-47 | no body starts after destruction |
| ActuatorModel.CancelledTaskStillRuns | common/include/cppforge/thread/DelayedTaskActuator.hpp:119-124 | after every successful cancelTask the task's body can still run: cancelling takes away the future, not the task |
| ActuatorModel.ACancelSucceeds | common/include/cppforge/thread/DelayedTaskActuator.hpp:197-215 | a successful cancel is reached, for every delay |
| ActuatorModel.ACallerBlocks | common/include/cppforge/thread/DelayedTaskActuator.hpp:159-162 | a blocked caller is reached: the second one that asks for a task that has not run |
| DelayedTaskActuator.DelayedTaskActuator.ScheduleTask | common/include/cppforge/thread/DelayedTaskActuator.hpp:92-150 | refuses a negative delay, then a missing task, without a trace; otherwise issues the next id with its pending mark, future and thread |
| DelayedTaskActuator.DelayedTaskActuator.WakeThread | common/include/cppforge/thread/DelayedTaskActuator.hpp:121-132 | the section after the sleep: runs the task exactly if the actuator is alive, clears the pending mark and wakes every caller |
| DelayedTaskActuator.DelayedTaskActuator.GetTaskResult | common/include/cppforge/thread/DelayedTaskActuator.hpp:152-177 | one evaluation of the wait condition: block, hand out the future, or fail as destroyed or not available |
| DelayedTaskActuator.DelayedTaskActuator.IsPendingLocked | common/include/cppforge/thread/DelayedTaskActuator.hpp:179-188 | whether the id has a pending mark that is true |
| DelayedTaskActuator.DelayedTaskActuator.CancelTask | common/include/cppforge/thread/DelayedTaskActuator.hpp:197-215 | takes the pending mark and the future if both are there, and returns whether it did |
| DelayedTaskActuator.DelayedTaskActuator.Destruct | common/include/cppforge/thread/DelayedTaskActuator.hpp:40-47 | clears both maps and wakes every caller |
| ActuatorReplay.Replay | common/include/cppforge/thread/DelayedTaskActuator.hpp:92-215 | any calls and steps of an actuator object, in any order, are a run of the transition system |
| ActuatorReplay.ReplayNew | common/include/cppforge/thread/DelayedTaskActuator.hpp:33-35 | so a new actuator is always in a reachable state, to which the theorems apply |
| Base64Url.Encode | starters/security/src/JwtToken.cc:101-137 | the loop over a wrapping signed 32-bit accumulator writes the base-64 digits of the input read as one big number, in the URL-safe alphabet |
| Base64Url.Decode | starters/security/src/JwtToken.cc:139-191 | the loop over the same kind of accumulator writes the bytes of the digits up to the first character outside the alphabet, read as one big number |
| Base64Url.ShiftIn | starters/security/src/JwtToken.cc:115 | the accumulator after a wrapping shift and add still agrees with the unbounded one modulo the bits that are read later |
| Base64Url.EncodedText | starters/security/src/JwtToken.cc:101-137 | encoded text has length ceil(4n/3) and only URL-safe characters, so no padding and no dot (sections 3.2 and 5 of RFC 4648) |
| Base64Rfc.CharIs | starters/security/src/JwtToken.cc:104 | the characters are those of the alphabet of section 5 of RFC 4648, in its order |
| Base64Rfc.DigitIs | starters/security/src/JwtToken.cc:153-170 | the decoder takes each of these characters for its place in that alphabet, and '+' and '/' for 62 and 63 |
| Base64Rfc.NoDigitIs | starters/security/src/JwtToken.cc:180 | and stops at every other byte |
| Base64Rfc.EncodeIsRfc | starters/security/src/JwtToken.cc:101-137 | the encoder writes what section 4 of RFC 4648 says, for every byte string: groups of three bytes as four characters, two as three and one as two |
| Base64Rfc.DecodeIsRfc | starters/security/src/JwtToken.cc:139-191 | the decoder reads groups of four characters as three bytes, three as two and two as one, up to the first character without a value |
| Base64Url.RoundTrip | starters/security/src/JwtToken.cc:101-191 | decode(encode(x)) = x for every byte string of any length |
| Base64Url.CanonicalExactly | starters/security/src/JwtToken.cc:101-191 | encode(decode(s)) = s if and only if s is in the URL-safe alphabet, its length is not 1 mod 4 and its unused trailing bits are zero (section 3.5 of RFC 4648) |
| JwtToken.Jwt.Encode | starters/security/src/JwtToken.cc:24-51 | the token is header, payload and signature, encoded and joined by dots, for some enumeration of the payload |
| JwtToken.Jwt.Decode | starters/security/src/JwtToken.cc:53-99 | three parts, a matching signature and a JSON object give the string members; anything else gives nothing |
| JwtToken.SplitToken | starters/security/src/JwtToken.cc:56-62 | the getline loop |
| JwtToken.SplitJoin | starters/security/src/JwtToken.cc:56-62 | splitting yields dot-free parts and loses exactly one thing, a dot at the very end |
| JwtToken.TokenParts | starters/security/src/JwtToken.cc:46-62 | a token of encode splits into exactly its three parts |
| JwtToken.DecodeOfToken | starters/security/src/JwtToken.cc:24-99 | what decode makes of any token of encode |
| JwtToken.HeaderIs | starters/security/src/JwtToken.cc:27 | the text of the header |
| JwtToken.StringsIff | starters/security/src/JwtToken.cc:90-96 | a name has a value exactly if it has a string, and then the last one |
| JwtToken.NoStringNoName | starters/security/src/JwtToken.cc:90-96 | a name without a string is absent |
| JwtToken.TokenRoundTrip | starters/security/src/JwtToken.cc:24-99 | decode(encode(p)) = p with the same secret if and only if p has no NUL byte |
| JwtToken.AcceptedIff | starters/security/src/JwtToken.cc:53-99 | exactly which tokens are accepted, given non-empty MACs: two dot-free parts followed by their own signature, and perhaps a final dot, the second part a JSON object; no time and no member of the payload matters |
| JwtToken.ExpiredIsAccepted | starters/security/src/JwtToken.cc:80-98 | for every secret: a token whose only member says that it expired at time 0 is accepted |
| JwtToken.AcceptedIsSigned | starters/security/src/JwtToken.cc:56-78 | an accepted token is two dot-free parts followed by their own signature, and perhaps a final dot |
| JwtToken.SignedIsAccepted | starters/security/src/JwtToken.cc:56-98 | every such token is taken, with or without the final dot, and gives the string members of its payload |
| JwtToken.ForeignSecret | starters/security/src/JwtToken.cc:69-78 | a token is accepted under another secret exactly if the two MACs of its signing input agree |
| JwtToken.SomeLibraryIsSound | starters/security/src/JwtToken.cc:30-86 | the assumptions about the MAC and the JSON library can be met |
| MiddlewareChain.Chain.Add | common/src/middleware/MiddlewareChain.cc:9-12 | appends |
| MiddlewareChain.Chain.Size | common/src/middleware/MiddlewareChain.cc:29-32 | the number of middlewares that were added |
| MiddlewareChain.Chain.Execute | common/src/middleware/MiddlewareChain.cc:14-27 | handles the first `End` middlewares of the chain in order, each once |
| MiddlewareChain.Execution.Next | common/src/middleware/MiddlewareChain.cc:18-25 | one call of the re-entrant closure works off the shared index; it ends because the index grows |
| MiddlewareChain.EndComposes | common/src/middleware/MiddlewareChain.cc:18-25 | calls made inside a middleware are worked off like calls made after it |
| MiddlewareChain.CountingLaw | common/src/middleware/MiddlewareChain.cc:14-27 | the number of executed middlewares is the least m with 1 + the calls made by the first m equal to m, or the chain length if there is none, both ways |
| MiddlewareChain.ShortCircuit | common/src/middleware/MiddlewareChain.cc:14-27 | while every middleware calls next once the chain goes on, and the first that does not is the last one executed |

## Left out

- Integer widths of ids, use counts, sizes and clock values: unbounded here, as is `i += step` in parseField, which
  overflows in C++ for steps near the limit of int. The accumulators of the codec and the range of std::stoi are 32
  bits wide.
- Time zones and daylight saving in localtime_r and mktime: local time is UTC plus a fixed offset, and neither it nor
  a time point is negative.
- CronTotality.NeverFailsIff: for offsets of at most one day east of UTC, because the witness of a failing search must
  be a non-negative time point.
- Calls to the clock, the heap inside std::priority_queue, and which of several tasks with equal due times comes
  first: parameters or any choice.
- SchedulerReplay.Replay: a schedule call of the object is not interrupted by other calls; the transition system lets
  them interleave.
- TaskScheduler.TaskScheduler.StartWorkers: the number of threads is a parameter, not a field of the object, and the
  thread bodies are the other methods in any order that SchedulerModel allows.
- SchedulerModel.OwnedStep: a parked worker may wake at any time; that notify or a time limit wakes it promptly is not
  stated, and overlapping calls of start and stop are not modelled.
- Task bodies: whether they end, what they throw (an exception other than std::exception ends the process) and calls
  they make to the scheduler while they run, except as further interleaved events.
- SchedulerFutures.MissedCancelIff: a cancel of an id whose schedule call has not yet pushed its record is not
  covered; the caller does not know that id yet.
- SchedulerCrashes.CrashIff: for offsets of at most one day east of UTC, as for CronTotality.NeverFailsIff.
- ActuatorModel.Invariant: one actuator whose methods are not called during or after its destruction, except for
  callers already blocked; thread creation does not fail, and task results and exceptions inside futures are not
  modelled.
- HMAC-SHA256 and RapidJSON: functions with stated assumptions (`JwtToken.Sound`): a MAC is not empty, and parsing
  what was written gives it back.
- JwtToken.Jwt.Encode: the member order of std::map is not fixed, the contract holds for some enumeration of the
  payload.
- The constant time of the signature comparison, and the const and move overloads of the caches beyond their effect on
  the contents.
- The hash order of std::unordered_map, allocation failure and iterator invalidation inside the C++ library.
- Middleware that keeps `next` and calls it after execute has returned, or that throws.
- Router, ServiceProvider, ApplicationContext, RbacManager, Tracer and Span: first match, a memoised factory, set
  membership and a bounded queue would only add easy members.
- gRPC, configuration files, logging, console programs, and the components of which only headers are present (NIO
  buffers, Snowflake, thread pool, R-tree, metrics, event bus): input and output, or no code to model.
