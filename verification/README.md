# turborg in Dafny

turborg is an IRC bouncer, a bot and a pooled multi-tenant supervisor. This
project models its small deterministic engines (schedulers, parsers, sliding
windows, queues, restart and debounce protocols) and proves what they promise
over all inputs, all runs and all interleavings. `dafny verify dfyconfig.toml`
checks everything.

## Layout

| file | models |
|---|---|
| `CronField.dfy`, `Cron.dfy`, `CronText.dfy`, `Calendar.dfy`, `Scheduler.dfy` | cron fields with 64-bit wrap-around, what the text of an expression asks for, the earliest-match scan over a real Gregorian calendar, and which minutes fire over whole runs |
| `Supervisor.dfy`, `SpecDiff.dfy` | the tenant restart protocol as interleaved steps, and which spec changes avoid a restart |
| `LiveHandles.dfy` | the connection handle through which in-place updates reach a run, across builds, ends and panics |
| `Glob.dfy` | the greedy hostmask matcher against the language of its pattern |
| `Protocol.dfy`, `Replay.dfy`, `Text.dfy` | the IRC line codec, tag values, replay lines and their decoration |
| `Windows.dfy`, `Throttle.dfy`, `Reconnect.dfy` | pruned sliding windows against full histories: throttle, lockout, deduplication, storm breaker, backoff |
| `Flow.dfy` | the bounded queue walk over an arbitrary flow graph |
| `Budget.dfy` | the rolling token budget and overlapping calls |
| `Feed.dfy` | the tenant feed: snapshot to events to tenants |
| `Emitter.dfy` | the debounced snapshot emitter |
| `History.dfy` | the message rings, their paging and the replay order |
| `Lifts.dfy` | timed mode reversals across restarts |
| `Outage.dfy` | the long-outage watchdog |
| `Channels.dfy`, `Modes.dfy` | joined channels, NAMES bursts, renames and MODE lines |

Code that changes state is modelled by classes and loops whose contracts tie
the new state to functions of the old one; concurrent code by a state machine
whose steps are its mutex sections, channel operations and cancellations. In
`Lifts.dfy`, `Outage.dfy` and `Budget.dfy` the class methods are proved to be
the machine's steps, in `Supervisor.dfy` they are proved to change the shared
fields as its steps do; `Emitter.dfy` and `LiveHandles.dfy` are machines only.
The theorems are about the functions and the machines. Where a contract speaks
through a small function, a lemma says what that function means without it.

## Conventions

- A string is a sequence of bytes, one `char` each; white space and letter case are ASCII.
- Time is an integer, in nanoseconds where the unit matters, on a clock that never runs back. Clocks, random draws, handler results, provider replies and the moment of a cancellation are parameters, so every theorem holds for all of them.
- A mutex section is one step. A map is iterated in an arbitrary order.
- Slices held in maps are values; the aliasing of `bucket[:0]` is modelled only in `Budget.dfy`, where the entries live in an array that is compacted in place.
- A nil slice and an empty one are the same value, except where `SpecDiff.dfy` keeps a nil config map or a missing channel list apart.
- Integers are unbounded except in `CronField.dfy`, where the counter's 64-bit wrap-around decides what a field permits.

## Where the code differs from what it says

- A field step so large that the counter wraps twice admits values the field does not name: `59/9223372036854775807` also permits every other odd minute (`CronField.WrapAroundExample`; the exact condition is `CronField.SpanExact` for a part, `CronField.FieldExact` for a field). The last check of the field parser, for an empty set, cannot fail (`CronField.FieldInhabited`).
- `next` returns its horizon when nothing matches, and the tick fires on it: `0 0 30 2 *` fires about once a year (`Scheduler.ImpossibleDayNeverMatches`, `Scheduler.NeverMatchingFiresYearly`). `Cron.AlwaysGenuineExactly` says for which expressions this never happens.
- Replacing the skills between a matching minute and the next tick loses that minute, because the due time is computed anew (`Scheduler.ReinstallMisses`, `Scheduler.MissedExactly`).
- A change to a live setting of an IRC connector after the first neither restarts nor reloads anything (`SpecDiff.UnnoticedExactly`); a change to the first one's is applied to the connection that was built last (`SpecDiff.LastTakesFirstNick`). `SpecDiff.InPlaceExactly` says for which specs every live update arrives.
- A denied throttle call is told to retry after a time at which it is still denied, and that time can be zero, though the comment calls it positive (`Throttle.RetryAfterExact`, `Throttle.ZeroRetryExactly`).
- An untagged line of spaces, a colon and more parses differently once tags are put in front (`Replay.DecorateUntagged`, `Replay.SwallowedLine`). Both callers (internal/connector/irc/bouncer.go:1416, internal/connector/irc/chathistory.go:137) pass rebuilt lines, which `Replay.ReplayRoundTrip` covers.
- A feed snapshot that lists one id with two different specs sends events on every poll (`Feed.SilentExactly`, `Feed.TwoSpecsOneId`).
- A Flush that overlaps a change can deliver the older snapshot last (`Emitter.StaleFlush`; the exact condition is `Emitter.SettlesCurrentExactly`).
- A timed reversal can be issued up to a second early (`Lifts.EarlyExactly`).
- After a restart without an actor a sweep drops the due lifts that an earlier process scheduled, after removing them from the store (`Lifts.DroppedRun`, `Lifts.DroppedExactly`).
- The clean-up after a tenant's run is not deferred, so after a panic the handles still name the dead run; an in-place update that then comes while the next run is built, after it has read the spec, reports success and is lost (`LiveHandles.LostAfterPanic`; the exact condition is `LiveHandles.FacetLostExactly`).
- A warning is missed when an outage ends and another begins between two polls (`Outage.MissedWarning`, `Outage.WarnedExactly`), and a link that registers between the decision to pause and the transition is paused all the same (`Outage.PauseRace`, `Outage.PausedUnbrokenExactly`).
- A rename of a nick to itself removes the member (`Channels.RenameExact`).
- A MODE line that names one nick twice, as in `+ov a a`, leaves the wrong prefix (`Modes.CopyIsHarmless`).

## Model

| member | source | states |
|---|---|---|
| CronField.Atoi | internal/skill/cron.go:62-85 | A number is accepted only inside the int64 range |
| CronField.PartSpan | internal/skill/cron.go:59-90 | An accepted part has its start and end in order inside the field and a positive 64-bit step; what its text says is `CronText.PartReads` |
| CronField.AddSpan | internal/skill/cron.go:91-93 | The counting loop, with its 64-bit wrap-around, terminates and adds what the wrapped counter visits |
| CronField.SpanExact | internal/skill/cron.go:91-93 | The loop collects exactly the arithmetic progression of the part if and only if start + 2 * step - 2^64 lies below the field |
| CronField.WrapAroundExample | internal/skill/cron.go:56-93 | The text `59/9223372036854775807` in the minute field parses, names minute 59 alone and permits exactly the odd minutes |
| CronField.ParseField | internal/skill/cron.go:56-99 | The field is the union over its parts, or the error of the first bad part; what its text says is `CronText.FieldReads` |
| CronField.FirstErrorWins | internal/skill/cron.go:58-90 | An error found in a prefix of the list is the error of the whole list |
| CronField.FieldMeaning | internal/skill/cron.go:56-99 | A value of the range is permitted exactly when some part denotes it, when no part wraps twice |
| CronField.FieldAdds | internal/skill/cron.go:56-99 | Whatever the steps, the permitted values of the range are those some part denotes and those a part adds by wrapping twice, once or repeatedly |
| CronField.FieldExact | internal/skill/cron.go:56-99 | A field means the union of its parts if and only if every value of the range that a doubly wrapping part adds is denoted by some part |
| CronField.FieldInhabited | internal/skill/cron.go:95-97 | A field that parses permits some value of its range, so the final emptiness check never fires |
| Cron.ParseCron | internal/skill/cron.go:30-53 | Success exactly when there are five fields and all parse, otherwise the count error or the first field's error; every result permits something in each field; what the text asks for is `CronText.ExpressionReads` |
| CronText.PartReads | internal/skill/cron.go:59-90 | The text of a star, a number or a range a-b, with or without /step, is read as its first value, its last value and its step; a step below one and bounds out of the field or out of order are the errors |
| CronText.PartShape | internal/skill/cron.go:59-90 | Every accepted part is such a text |
| CronText.FieldReads | internal/skill/cron.go:56-99 | A comma list of such texts is accepted exactly when every part is valid, the first invalid one decides the error, and it permits exactly the values from first to last in steps that some part says, when no step wraps twice |
| CronText.FieldShape | internal/skill/cron.go:56-99 | Every accepted field is such a list |
| CronText.ExpressionReads | internal/skill/cron.go:23-129 | From text to minutes: five valid fields parse, and the result matches a minute of a date exactly when minute, hour and month are asked for and so is the day, by either day field when both are restricted and by both otherwise |
| CronText.ExpressionShape | internal/skill/cron.go:23-53 | Every expression that parses is such a text, up to white space |
| Calendar.DateOf | internal/skill/cron.go:119-128 | Every day number has a valid proleptic Gregorian date with that number |
| Calendar.DateRoundTrip | internal/skill/cron.go:119-128 | Every valid date is the date of its own number |
| Calendar.DayByDay | internal/skill/cron.go:119-128 | Day 0 is Thursday, 1 January 1970, and every day has the date and the weekday after those of the day before |
| Calendar.DayNumberOrder | internal/skill/cron.go:105-114 | Day numbers order valid dates as year, month, day do |
| Calendar.AddYearAndDaySpan | internal/skill/cron.go:107 | The horizon lies 366 or 367 days after the first candidate (the comment says about 366) |
| Calendar.AddYearAndDayExact | internal/skill/cron.go:107 | It lies one day past the anniversary of the first candidate, which for 29 February is 1 March |
| Cron.Next | internal/skill/cron.go:105-114 | The loop returns the scan result that NextIsEarliest characterises |
| Cron.ScanExact | internal/skill/cron.go:108-113 | The scan finds the least match of the window, or its end when there is none |
| Cron.NextIsEarliest | internal/skill/cron.go:101-129 | The result is strictly later than the start, at most the horizon, no earlier minute matches, and it is itself a match exactly when one lies before the horizon |
| Cron.RecursIsGenuine | internal/skill/cron.go:101-129 | If day-of-week is restricted or some permitted day exists in every year, a match lies before the horizon from every start |
| Cron.AlwaysGenuineExactly | internal/skill/cron.go:101-129 | The horizon is never returned, whatever the start, if and only if day-of-week is restricted or some permitted day exists in common years |
| Cron.EarlyDayRecurs | internal/skill/cron.go:101-129 | A permitted day of the month up to 28 is enough for that |
| Scheduler.ParseSchedule | internal/skill/scheduler.go:116-142 | An interval below one minute is never accepted; everything else is the cron parse of the trimmed text; an empty text gives nothing |
| Scheduler.Scheduler.ReplaceSkills | internal/skill/scheduler.go:47-64 | The kept skills in order, each due at its first time after the installation |
| Scheduler.KeptInOrder | internal/skill/scheduler.go:47-64 | Exactly the schedule skills whose schedule parses are kept, in order |
| Scheduler.Scheduler.Tick | internal/skill/scheduler.go:83-92 | Returns exactly the skills whose due time has passed, in order, moves only these on and leaves the others untouched |
| Scheduler.Scheduler.Run | internal/skill/scheduler.go:69-80 | Over a whole run what fires at each evaluation depends on each skill's cadence and first due time alone |
| Scheduler.FiresAppend | internal/skill/scheduler.go:86-92 | A skill fires at an evaluation exactly when the due time left by all earlier evaluations has passed |
| Scheduler.FiresPaired | internal/skill/scheduler.go:86-112 | Each firing is the due time its predecessor set and comes less than one evaluation gap late |
| Scheduler.LogListsFires | internal/skill/scheduler.go:69-92 | The log of a whole run lists a skill at exactly the evaluations at which its cadence and first due time make it fire |
| Scheduler.FiresExactlyWhenDue | internal/skill/scheduler.go:83-112 | Whatever the gap, a skill whose due time was set at one evaluation fires at a later one exactly when a matching minute lies between them, or none lies before the horizon and that has passed |
| Scheduler.ExactlyOnce | internal/skill/scheduler.go:82-112 | With evaluations at most a minute apart and a match before the horizon from each, the firings are exactly the matching minutes since installation, in order, each once |
| Scheduler.RecurringExactlyOnce | internal/skill/scheduler.go:82-112 | The same for every expression that always recurs, with no assumption on the run besides its gaps |
| Scheduler.EveryMatchListed | internal/skill/scheduler.go:69-112 | End to end: the log of a run lists a recurring cron skill once per matching minute since its installation, in order, less than a minute late, and never else |
| Scheduler.MissedExactly | internal/skill/scheduler.go:47-92 | Over runs with any number of re-installations, events at most a minute apart: a recurring skill fires for matching minutes only, each at most once, increasing, and a matching minute is missed if and only if the first event at or after it is a re-installation |
| Scheduler.ReinstallMisses | internal/skill/scheduler.go:47-92 | For every recurring expression and each of its minutes, a re-installation between that minute and the next evaluation loses it |
| Scheduler.MatchingMinutesExact | internal/skill/scheduler.go:82-112 | The minutes listed there are the matching ones of the span, each once, increasing |
| Scheduler.HorizonFires | internal/skill/scheduler.go:86-92 | When nothing matches before the horizon the tick still fires at the horizon |
| Scheduler.NeverMatchingFiresYearly | internal/skill/scheduler.go:82-112 | Over every run an expression that never matches fires at the horizon of the evaluation that fired before, 366 to 367 days, a minute and the gap apart |
| Scheduler.ImpossibleDayNeverMatches | internal/skill/cron.go:101-114 | The text `0 0 30 2 *` parses, no minute ever matches it and every scan falls to the horizon |
| Scheduler.IntervalSpacing | internal/skill/scheduler.go:86-112 | Evaluations that fire an interval skill are at least a period and less than a period plus the evaluation gap apart |
| Supervisor.InvUpdaterStep | internal/server/tenant.go:820-854 | Every step of a concurrent update keeps: a stale run is cancelled or its canceller in flight, and a restart is signalled or coming |
| Supervisor.InvSupervisorStep | internal/server/tenant.go:186-231 | Every step of the supervisor keeps the same, and the status says quarantined exactly between a panic and the revival |
| Supervisor.InvAlways | internal/server/tenant.go:186-231 | So does every interleaving of any length with any number of updates |
| Supervisor.NoLostSpec | internal/server/tenant.go:186-237 | In every reachable state a run that has read a stale or torn spec is cancelled or about to be, a restart is pending or coming, and restarts never outnumber updates |
| Supervisor.QuiescentIsFresh | internal/server/tenant.go:820-854 | When no update is in flight, an uncancelled run, and the last run of a waiting supervisor without a token, have read only the final spec |
| Supervisor.StaleWaitRestarts | internal/server/tenant.go:221-229 | A supervisor that waits after a stale run is restarted by at most three steps of pending calls |
| Supervisor.CannotWaitForever | internal/server/tenant.go:221-231 | From a stale wait, without a new write, pending calls take boundedly many steps in any order, and a step is possible until the restart is taken |
| Supervisor.EveryScheduleRestarts | internal/server/tenant.go:186-231 | So in every reachable state no schedule leaves the supervisor waiting: at most two steps per pending call precede the restart |
| Supervisor.BackoffShape | internal/server/tenant.go:257-268 | The quarantine backoff starts at the base, doubles per panic and stays at 32 bases |
| Supervisor.Tenant.BeginUpdate | internal/server/tenant.go:820-831 | An equal spec changes nothing; another one is stored whole and the cancel function of the current run captured; a new version only if the restart-relevant part changed |
| Supervisor.Tenant.SignalRestart | internal/server/tenant.go:850-853 | The non-blocking send leaves one token, however many are sent |
| Supervisor.Tenant.TakeRestart | internal/server/tenant.go:224-229 | Receiving empties the one-slot channel |
| Supervisor.Tenant.RecordPanic | internal/server/tenant.go:260-268 | Counts the panic, sets the status, stamps the deadline and returns the backoff of that count |
| SpecDiff.StripLiveConnectorFields | internal/server/tenant.go:926-943 | Removes the three live keys from IRC connectors only |
| SpecDiff.LiveOnlyExact | internal/server/tenant.go:907-920 | A change avoids the restart exactly when it is confined to commands, flows, ignore list, usage counters and live keys of IRC connectors |
| SpecDiff.LiveRoundTrip | internal/server/connector_irc.go:84-119 | Nick, channel list and suspend flag written into a config map are what a run takes from it |
| SpecDiff.OtherTypes | internal/server/connector_irc.go:84-119 | A missing setting or one of another type counts as unset |
| SpecDiff.OtherItems | internal/server/connector_irc.go:107-119 | Items of a channel list that are no strings are skipped, the others keep their order |
| SpecDiff.EditNoticed | internal/server/tenant.go:945-961 | Any edit of the first IRC connector's live settings avoids the restart, and nick, channels and suspend flag are each noticed exactly when they change |
| SpecDiff.UnnoticedExactly | internal/server/tenant.go:864-872 | Some change that the update takes as needing nothing leaves the run out of date if and only if the running spec has an IRC connector with a config map after the first |
| SpecDiff.LaterNickUnnoticed | internal/server/tenant.go:945-961 | For every such spec a new nick for the later connector is taken as needing nothing |
| SpecDiff.SecondIrcNickDropped | internal/server/tenant.go:945-961 | A concrete spec where the new nick of a second IRC connector is dropped |
| SpecDiff.LiveTenant.ApplyLiveUpdate | internal/server/tenant.go:864-890 | Each changed facet is applied to the live objects, or a restart is asked for, branch by branch as the in-place function says |
| SpecDiff.InPlaceExactly | internal/server/tenant.go:864-1004 | Every live update of a spec reaches an up-to-date run or restarts it if and only if an IRC connector with a config map is the only IRC connector |
| SpecDiff.RestartsExactly | internal/server/tenant.go:864-890 | A live update falls back to a restart if and only if commands or a setting of the connection change and there is none, or flows change and nothing is wired |
| SpecDiff.OnlyChangedFacets | internal/server/tenant.go:864-890 | A facet that the update does not change is left as the run has it, whatever that is |
| SpecDiff.LastTakesFirstNick | internal/server/tenant.go:984-998 | With several IRC connectors the first one's new nick goes to the connection built last; every other connection keeps what it had |
| LiveHandles.FacetLostExactly | internal/server/tenant.go:820-854 | In every run with panics anywhere, once no update is in flight and no restart asked for, the connection follows the stored facet unless, and only unless, the last apply went to a dead connection after the current run had read an older spec |
| LiveHandles.InvAlways | internal/server/tenant.go:300-356 | Every run keeps: a connection behind the spec means an update in flight, a restart asked for or such a missed apply |
| LiveHandles.UpdatesLeaveRun | internal/server/tenant.go:984-998 | An update starts and ends no run and tells only a connection that is up and that the handle names |
| LiveHandles.NoPanicNoLoss | internal/server/tenant.go:332-352 | Without a panic no in-place update is lost |
| LiveHandles.LostAfterPanic | internal/server/tenant.go:300-356 | A run in which an update after a panic reaches the dead connection, asks for no restart and leaves the live connection behind the spec |
| Glob.HostmaskMatches | internal/runtime/runtime.go:740-766 | For a prefix without a leading colon true exactly when the pattern is not empty and the prefix is in its language; for one with it, the same of the rest |
| Glob.Greedy | internal/runtime/runtime.go:747-765 | The fragment loop computes the leftmost-first walk over the pattern cut at its stars |
| Glob.GreedyIsLanguage | internal/runtime/runtime.go:740-766 | That walk accepts exactly the language in which each star takes any substring |
| Glob.WalkIsLanguage | internal/runtime/runtime.go:752-765 | From any fragment on, taking leftmost occurrences loses no match and invents none |
| Glob.GreedyStep | internal/runtime/runtime.go:757-764 | The leftmost occurrence of a middle fragment is always a right choice |
| Glob.StarAbsorbs | internal/runtime/runtime.go:757-764 | A star that matches a later tail matches every earlier one |
| Protocol.UnescapeTagValue | internal/connector/irc/protocol.go:42-61 | The early exit and the loop decode pair by pair; a lone trailing backslash is kept |
| Protocol.UnescapeEscape | internal/connector/irc/protocol.go:34-61 | Decoding inverts the escaping table of the IRCv3 message-tags specification for every string |
| Protocol.UnescapeOther | internal/connector/irc/protocol.go:42-61 | Between escaped texts any other escaped byte stands for itself, and a backslash at the end is kept |
| Protocol.EscapeIsInert | internal/connector/irc/protocol.go:34-41 | Escaped text contains no semicolon, space, CR or LF |
| Protocol.Parse | internal/connector/irc/protocol.go:66-124 | Tags, prefix, command, parameters and trailing of any line, malformed ones included, as the round trips below characterise them |
| Protocol.ParseFormat | internal/connector/irc/protocol.go:126-138 | Parsing a printed command gives back command, parameters and trailing, also when the trailing contains " :" |
| Protocol.ParsePrefixed | internal/connector/irc/protocol.go:66-138 | The same behind any prefix without spaces |
| Protocol.TagListRoundTrip | internal/connector/irc/protocol.go:69-98 | A printed list of key=value pairs, bare keys and blanks parses to its map: a bare key has the empty value, a blank none, the last of equal keys wins |
| Protocol.MapOfDistinct | internal/connector/irc/protocol.go:84-96 | With distinct keys every key maps to its own value |
| Protocol.TagsRoundTrip | internal/connector/irc/protocol.go:66-124 | Putting a printed tag list before an untagged line adds that map and changes nothing else |
| Protocol.FullLine | internal/connector/irc/protocol.go:66-124 | A line with tags, prefix, command, parameters and trailing, set apart by any number of spaces and ended by any carriage returns and line feeds, reads back as its parts |
| Protocol.BareTags | internal/connector/irc/protocol.go:66-124 | A line that ends with its tags has nothing else |
| Protocol.BarePrefix | internal/connector/irc/protocol.go:66-124 | Nor has one that ends with its prefix |
| Protocol.PrefixParts | internal/connector/irc/protocol.go:143-164 | Nick, ident and host of a full prefix come back, whatever the host contains |
| Replay.DecorateTagged | internal/connector/irc/bouncer.go:1484-1514 | A tagged line with a body keeps its meaning, and its tags are the batch id, if one is given, overridden by its own tags; one without a body passes through with its own tags alone |
| Replay.DecorateUntagged | internal/connector/irc/bouncer.go:1484-1514 | An untagged line gets exactly the tags batch, if a batch id is given, and time, if negotiated, with their values, and keeps its meaning if and only if it is not a run of spaces followed by a colon and more |
| Replay.SwallowedLine | internal/connector/irc/bouncer.go:1497-1499 | Such a line is a space, a colon and x: once it is decorated it no longer means what it did |
| Replay.ReplayLineReads | internal/connector/irc/bouncer.go:1435-1452 | The rebuilt line reads back as PRIVMSG, channel and text from nick!ident@host of the identity for own messages and nick!~user@upstream otherwise |
| Replay.ReplayRoundTrip | internal/connector/irc/bouncer.go:1435-1514 | So does the decorated line, with exactly the batch and time tags, for every negotiated combination of batch and server-time |
| Windows.KeepKeep | internal/connector/irc/ratelimit.go:173-179 | Pruning earlier never changes what a later window sees |
| Windows.AgreesAt | internal/connector/irc/ratelimit.go:173-189 | A bucket pruned at any earlier cutoffs agrees with the full history from then on |
| Windows.KeepIsSuffix | internal/connector/irc/ratelimit.go:173-187 | In an ordered history the kept events are its tail |
| Windows.KeepCount | internal/connector/irc/ratelimit.go:173-179 | Pruning keeps as many events as lie at or after the cutoff |
| Windows.CountInExact | internal/connector/irc/ratelimit.go:119-122 | The count of a window is the number of its events |
| Windows.PacedWindows | internal/connector/irc/ratelimit.go:119-122 | If every event saw fewer than the bound in the window ending with it, no window anywhere holds more than the bound |
| Throttle.HistoryPaced | internal/connector/irc/ratelimit.go:167-191 | The allowed events of any run of calls are ordered and each saw fewer than the limit |
| Throttle.EveryWindowBounded | internal/connector/irc/ratelimit.go:119-191 | No closed interval of the window's length holds more than the limit |
| Throttle.AllowsExactly | internal/connector/irc/ratelimit.go:167-190 | A call is allowed if and only if fewer than the limit of allowed events lie at or after now less the window |
| Throttle.RetryAfterExact | internal/connector/irc/ratelimit.go:154-187 | After a denial every call up to and including now + RetryAfter is denied and the first later one allowed |
| Throttle.ZeroRetryExactly | internal/connector/irc/ratelimit.go:182-186 | A denial carries a zero RetryAfter if and only if an allowed event lies exactly one window ago |
| Throttle.ZeroRetryAfterDenied | internal/connector/irc/ratelimit.go:182-186 | A concrete run with such a denial, although the comment calls RetryAfter always positive |
| Throttle.Limiter.AllowWithReason | internal/connector/irc/ratelimit.go:167-191 | Allowed exactly when fewer than the limit of the unpruned history lie in the window; the retry time is that of the history's oldest event there |
| Throttle.NewThrottle | internal/connector/irc/ratelimit.go:132-148 | A throttle exactly for a positive limit and window |
| Throttle.UnlockedWindows | internal/connector/irc/ratelimit.go:94-117 | While no failure locks, every window holds fewer failures than the threshold |
| Throttle.LocksExactly | internal/connector/irc/ratelimit.go:94-117 | A failure locks if and only if with it the failures at or after now less the window reach the threshold |
| Throttle.NewRateLimiter | internal/connector/irc/ratelimit.go:40-61 | A limiter exactly for positive threshold, window and lockout |
| Throttle.RateLimiter.RecordFailure | internal/connector/irc/ratelimit.go:94-117 | Locks exactly when the unpruned failures since the last lock or success, with this one, reach the threshold in the window |
| Throttle.RateLimiter.RecordSuccess | internal/connector/irc/ratelimit.go:85-90 | Forgets failures and lock of the address and nothing else |
| Throttle.RateLimiter.TimeUntilUnlock | internal/connector/irc/ratelimit.go:65-78 | The rest of the lockout, zero once it is over; only an expired entry is removed |
| Throttle.Dedupe.FirstSight | internal/runtime/runtime.go:500-516 | True exactly when the key was not sighted within the window; collecting stale keys in any order is unobservable |
| Reconnect.BackoffSchedule.constructor | internal/connector/irc/backoff.go:60-77 | An empty schedule is replaced by the default, a negative jitter by none |
| Reconnect.BackoffSchedule.Next | internal/connector/irc/backoff.go:82-99 | The n-th call since the last reset gives the n-th base delay while there is one and the last one for ever, jittered |
| Reconnect.JitterBounds | internal/connector/irc/backoff.go:92-97 | For any random draw and any non-negative fraction the delay stays within the fraction of its base; up to a fraction of one it is not negative |
| Reconnect.JitterSpread | internal/connector/irc/backoff.go:92-97 | The middle draw gives the base delay and the least draw the lower end |
| Reconnect.ReconnectStorm.Record | internal/connector/irc/reconnect_storm.go:44-59 | Trips exactly when the full history with this attempt exceeds the threshold in the half-open window |
| Reconnect.TripsExactly | internal/connector/irc/reconnect_storm.go:44-59 | It trips if and only if the attempts later than now less the window, with this one, exceed the threshold |
| Reconnect.ReconnectStorm.NextDelay | internal/connector/irc/reconnect_storm.go:64-73 | The cooldown when it trips, the backoff otherwise |
| Reconnect.ReconnectDelay | internal/connector/irc/connector.go:1713-1719 | The breaker's delay over the full history, raised to the floor |
| Reconnect.PacedDelayExact | internal/connector/irc/connector.go:1713-1719 | That delay is the cooldown in a storm and the backoff otherwise, or a positive floor above it |
| Reconnect.FloorRespected | internal/connector/irc/connector.go:1626-1646 | Consecutive attempts are at least the floor apart |
| Reconnect.RunPaced | internal/connector/irc/connector.go:1626-1666 | With the cooldown no shorter than the window every attempt sees at most the threshold of earlier ones |
| Reconnect.ReconnectBound | internal/connector/irc/connector.go:1626-1666 | No half-open window of any run, for any backoffs, holds more than the threshold plus one attempts |
| Reconnect.SharpReconnectBound | internal/connector/irc/connector.go:1626-1719 | With a positive floor a window also holds no more attempts than the floor leaves room for |
| Reconnect.BoundReached | internal/connector/irc/reconnect_storm.go:41-59 | For every pacing some run attains the smaller of the two bounds |
| Flow.EntryNodes | internal/flow/flow.go:62-90 | The three loops compute the entry list characterised by EntriesExact |
| Flow.EntriesExact | internal/flow/flow.go:59-90 | Entry ids are listed once each: targets of entry edges and nodes without other incoming edges |
| Flow.EntryTargetsExact | internal/flow/flow.go:63-69 | The seeded targets are exactly those of edges from the empty name, start or trigger |
| Flow.UnreachedExact | internal/flow/flow.go:84-88 | The added nodes are exactly those with no edge into them but from such a name |
| Flow.CandidatesInOrder | internal/flow/flow.go:62-90 | Seeded targets follow the order of the edges, added nodes that of the nodes |
| Flow.EntriesInOrder | internal/flow/flow.go:75-90 | Entry ids are ordered by their first occurrence among the seeded targets followed by the added nodes |
| Flow.Successors | internal/flow/flow.go:94-105 | The targets of the matching edges in edge order |
| Flow.TargetsCount | internal/flow/flow.go:94-105 | Each target occurs as often as there are edges to it from that node and port |
| Flow.TargetsInOrder | internal/flow/flow.go:94-105 | In the order of the edges |
| Flow.Run | internal/flow/engine.go:352-389 | The queue loop with its early exits computes the bounded walk |
| Flow.Walk | internal/flow/engine.go:363-368 | No run pops more than the ceiling, and it leaves ids unpopped only when it popped exactly that many |
| Flow.WalkOrder | internal/flow/engine.go:363-388 | First in, first out: popped ids and leftovers are the entry ids followed by the successors of each successful execution in order |
| Flow.ActivationAccounting | internal/flow/engine.go:352-389 | A run that empties its queue popped each id once for being an entry and once per matching edge of each successful execution |
| Flow.BagIsShared | internal/flow/engine.go:352-389 | In every run each node sees what all nodes popped before it wrote, failed and stopping ones included, each pop records its node's answer on that bag, and the last such bag is left |
| Flow.LastListedRuns | internal/flow/engine.go:358-376 | The node that runs for an id is the last one listed with it, if its kind is known |
| Flow.WalkFinishes | internal/flow/engine.go:363-388 | On an acyclic graph a queue no heavier than the remaining steps is emptied |
| Flow.CeilingNeverHit | internal/flow/engine.go:350-389 | With entry nodes no heavier than the ceiling no run is cut short, whatever the handlers return |
| Flow.CeilingReached | internal/flow/engine.go:350-389 | With heavier entry nodes some handlers run into the ceiling, so the weight is the exact bound |
| Budget.Compact | internal/llm/budget.go:103-113 | The in-place filter keeps exactly the entries not older than the cutoff, in order |
| Budget.PruneKeeps | internal/llm/budget.go:103-113 | Pruned entries give every later window what the full history gives |
| Budget.SinceExact | internal/llm/budget.go:103-113 | The window keeps every entry not older than the cutoff as often as it was recorded |
| Budget.RecordCounts | internal/llm/budget.go:78-88 | One more entry in the window raises the input total by its input and the output total by its output |
| Budget.TokenBudget.Record | internal/llm/budget.go:50-59 | Appends one entry at the current time to the history, raises each reported total by its own number, and is the machine's step |
| Budget.TokenBudget.SetBaseline | internal/llm/budget.go:69-74 | Replaces the baseline, clamped at zero, and nothing else, as the machine's step |
| Budget.TokenBudget.Totals | internal/llm/budget.go:78-88 | The baseline plus all entries ever recorded inside the window |
| Budget.TokenBudget.Allow | internal/llm/budget.go:92-101 | Whether the reported input is below a positive input cap and the reported output below a positive output cap, which is how the machine checks |
| Budget.SinceOnlyShrinks | internal/llm/budget.go:103-113 | As time passes the recorded total only falls |
| Budget.BoundedStep | internal/llm/budgeted.go:33-46 | Every step of overlapping calls keeps: recorded plus still possible usage at most cap - 1 plus one usage per overlapping call |
| Budget.OvershootBounded | internal/llm/budgeted.go:33-46 | With a fixed baseline below the cap no interleaving reports more than cap - 1 + overlap * usage |
| Budget.LocalOvershootBounded | internal/llm/budgeted.go:33-46 | Whatever baselines are pushed meanwhile, the locally recorded part obeys the same bound |
| Budget.OvershootAttained | internal/llm/budgeted.go:33-46 | The bound is attained in every capped dimension, for every cap, overlap and pair of input and output usages |
| Budget.Ask | internal/llm/budgeted.go:33-46 | A spent budget reaches no provider, and only an answered call is charged |
| Feed.Server.Consume | internal/server/server.go:136-174 | The tenants are the fold of the events, specs without an id ignored |
| Feed.Server.Boot | internal/server/server.go:105-107 | So are they after the initial snapshot |
| Feed.BootAgrees | internal/server/server.go:101-108 | Booting leaves the snapshot with the last duplicate winning, less the empty id |
| Feed.HttpSource.constructor | internal/server/http_source.go:55-60 | The poller starts from the snapshot with the last duplicate winning |
| Feed.HttpSource.EmitUpserts | internal/server/http_source.go:99-109 | Wherever the sends stop, copy and server agree; a finished pass has merged the snapshot into the copy |
| Feed.HttpSource.EmitRemovals | internal/server/http_source.go:110-119 | In any order of the ids, wherever the sends stop, copy and server agree; a finished pass has removed exactly the unseen ids |
| Feed.HttpSource.Diff | internal/server/http_source.go:98-120 | Cancelled or not, copy and server agree; a finished diff leaves the snapshot; it is silent exactly when the copy already holds every spec and no other id |
| Feed.SilentExactly | internal/server/http_source.go:98-120 | Polling an unchanged snapshot again is silent if and only if no id occurs in it with two different specs |
| Feed.TwoSpecsOneId | internal/server/http_source.go:98-120 | Such a snapshot is one id listed with two specs: after a poll of it the next poll is not silent |
| Emitter.InvStep | internal/statepush/state_emitter.go:151-222 | Every step keeps: an unbuilt change is being notified, queued, collected or in a build started after it |
| Emitter.NoLostChange | internal/statepush/state_emitter.go:151-251 | In every interleaving, at rest the newest build includes every change |
| Emitter.FlushCatchesUp | internal/statepush/state_emitter.go:224-237 | A Flush started after the last change leaves nothing unbuilt, even after Stop |
| Emitter.BuildsSpaced | internal/statepush/state_emitter.go:200-222 | Builds of the goroutine start at least one debounce apart |
| Emitter.FullDebounce | internal/statepush/state_emitter.go:200-222 | And no earlier than a full debounce after the last notification the goroutine took, in every run |
| Emitter.ComesToRest | internal/statepush/state_emitter.go:180-222 | Without new changes the goroutine and the pending notifications take a bounded number of steps |
| Emitter.RestIsQuiescent | internal/statepush/state_emitter.go:180-222 | And where none of them can move the emitter is at rest |
| Emitter.FailuresDeliverNothing | internal/statepush/state_emitter.go:239-251 | A run whose PUTs all fail delivers nothing |
| Emitter.StopExits | internal/statepush/state_emitter.go:165-222 | From wherever it is the goroutine can be stopped after at most one build and its PUT |
| Emitter.DeliveredInOrder | internal/statepush/state_emitter.go:224-251 | In every run with successful PUTs in which no change falls into a Flush, the last delivery at rest includes every change |
| Emitter.SettlesCurrentExactly | internal/statepush/state_emitter.go:224-251 | After any history, every way of settling without a further change delivers the current version last if and only if every Flush in flight started after the last change and the emitter is not already at rest on an older delivery |
| Emitter.StaleFlush | internal/statepush/state_emitter.go:230-237 | A Flush overlapping a change can deliver the older snapshot last |
| History.MemoryStore.Submit | internal/messages/messages.go:95-107 | Each ring stays the newest submissions of its channel, up to the cap |
| History.MemoryStore.Recent | internal/messages/messages.go:113-139 | The newest matching messages of the channel's last submissions, newest first, up to the limit |
| History.Newest | internal/messages/messages.go:127-138 | The backward loop with its early exit computes that page |
| History.PagesOfPrefix | internal/messages/messages.go:109-139 | Paging from any bound that cuts an increasing ring collects everything below the cut, newest first |
| History.PagingComplete | internal/messages/messages.go:109-139 | Paging by the oldest timestamp seen collects the whole ring without gap or repeat, for every page size, if and only if its timestamps strictly increase |
| History.PagingLastSubmissions | internal/messages/messages.go:95-139 | A channel submitted with increasing non-zero timestamps pages to exactly its last submissions, up to the cap, newest first |
| History.ReverseMessages | internal/connector/irc/bouncer.go:1465-1469 | The two-index swap reverses the array |
| History.ReplayIsTail | internal/connector/irc/bouncer.go:1463-1469 | A reversed newest page is the tail of the ring in submission order |
| Lifts.InvStep | internal/skill/engine.go:612-651 | Every step keeps memory equal to the store once loaded, and every lift accounted for |
| Lifts.EveryLiftAccounted | internal/skill/engine.go:595-667 | Over every run, whatever its restarts and whichever process has an actor, scheduled lifts are, as multisets, pending, in flight, issued, lost between claim and issue, or dropped; none is issued before its second |
| Lifts.NeverTwice | internal/skill/engine.go:625-667 | In no run, whatever its restarts, is a lift issued more often than it was scheduled |
| Lifts.SweepLeavesOnlyLater | internal/skill/engine.go:635-650 | After a sweep every pending lift is due strictly later |
| Lifts.SweepDecides | internal/skill/engine.go:628-667 | A sweep claims every pending copy of a due lift for issuing if its process has an actor and drops every copy otherwise, and moves nothing else of it |
| Lifts.SplitInOrder | internal/skill/engine.go:636-645 | Due and later lifts each keep their order |
| Lifts.DueAfterSweep | internal/skill/engine.go:495-667 | In every run, after a sweep with an actor a due lift never dropped before is issued, in flight or lost, as often as scheduled; after one without, a due lift never claimed before is dropped as often as scheduled |
| Lifts.DueMeansClaimed | internal/skill/engine.go:625-667 | With an actor and no restart, after a sweep every scheduling of a due lift is issued or in flight |
| Lifts.DroppedExactly | internal/skill/engine.go:628-654 | A run drops a lift if and only if some sweep by a process without an actor finds one due |
| Lifts.DroppedForGood | internal/skill/engine.go:643-654 | However a run goes on, dropped copies are never issued |
| Lifts.DroppedRun | internal/skill/engine.go:495-654 | For every timed effect: scheduled with an actor, then a restart without one, then a sweep once it is due, and the lift is dropped |
| Lifts.EarlyExactly | internal/skill/engine.go:612-640 | From any state a sweep can claim a newly scheduled lift before its deadline if and only if it lies in the future and the scheduling does not fall on a whole second |
| Lifts.EarlyIssue | internal/skill/engine.go:612-667 | And for every such scheduling some whole run issues it early |
| Lifts.EarlyByLessThanASecond | internal/skill/engine.go:612-667 | In every run a lift is issued less than a second before the deadline of any scheduling it can stem from, or later |
| Lifts.Engine.EnsureLiftsLoaded | internal/skill/engine.go:597-610 | Loads the stored lifts once |
| Lifts.Engine.ScheduleLift | internal/skill/engine.go:612-623 | With an actor, adds the lift to what was pending and persists it, as the machine's step |
| Lifts.Engine.Claim | internal/skill/engine.go:628-651 | Claims exactly the due lifts and persists the others, as the machine's step |
| Lifts.Engine.SweepLifts | internal/skill/engine.go:628-667 | Issues each claimed lift once, in order, with its channel, modes and argument, an empty argument left out; without an actor it issues none and drops them all |
| Outage.OutageClock | internal/connector/irc/connector.go:1948-1990 | While the watchdog runs its clock is unset exactly outside outages and otherwise stands at the first transition of the unbroken outage |
| Outage.OutageStates | internal/connector/irc/upstream_state.go:103-129 | No outage are exactly registered, disconnected_by_user and nick_invalid; terminal are exactly auth_failed, banned, paused_idle and stopped |
| Outage.WatchesExactly | internal/connector/irc/connector.go:1935-1943 | The watchdog runs exactly when one of its two limits is positive, and its clock starts at once in an outage |
| Outage.WarnOncePerOutage | internal/connector/irc/connector.go:1995-2015 | Every warning came warnAfter into an unbroken outage, and no outage is warned about twice |
| Outage.WarnedExactly | internal/connector/irc/connector.go:2005-2015 | A poll that finds the outage long enough leaves it warned about unless, and only unless, some poll warned in an earlier outage and no poll since found the link up |
| Outage.FlagMeans | internal/connector/irc/connector.go:1995-2012 | In every run the flag is up exactly when some poll warned and no later poll found the link up |
| Outage.MissedWarning | internal/connector/irc/connector.go:1995-2015 | A run in which the link comes back and drops between two polls and the second outage is never warned about |
| Outage.PausedOnlyAfter | internal/connector/irc/connector.go:2016-2020 | A pause is decided only after pauseAfter of unbroken outage |
| Outage.PausedUnbrokenExactly | internal/connector/irc/connector.go:2016-2020 | Before and after the transition to paused_idle the decided outage is unbroken, and then at least pauseAfter long, if and only if no transition since the decision left it |
| Outage.PausesExactly | internal/connector/irc/connector.go:2002-2020 | And by a tick exactly when that much has passed outside a terminal state |
| Outage.PauseRace | internal/connector/irc/connector.go:2016-2019 | A link that registers between decision and transition is paused all the same |
| Outage.Watchdog.Transition | internal/connector/irc/upstream_state.go:247-286 | A transition to the current state changes nothing; others start, keep or end the outage |
| Outage.Watchdog.Tick | internal/connector/irc/connector.go:2002-2020 | One poll moves clock, flag and phase as the machine's step, and reports whether it warned |
| Outage.Watchdog.Pause | internal/connector/irc/connector.go:2016-2019 | The pause enters paused_idle from whatever state holds by then and ends the watchdog |
| Channels.CountElements | internal/connector/irc/state.go:88-93 | A list without repeats is as long as its set |
| Channels.ChannelState.Count | internal/connector/irc/state.go:88-93 | The number of joined channels |
| Channels.ChannelState.JoinedChannels | internal/connector/irc/state.go:97-107 | Each joined channel once, in join order |
| Channels.ChannelState.OnSelfJoin | internal/connector/irc/state.go:110-122 | A new channel goes last; a known one changes nothing |
| Channels.ChannelState.OnSelfPart | internal/connector/irc/state.go:124-135 | The channel leaves map and list together; the rest keeps its order |
| Channels.WithoutExact | internal/connector/irc/state.go:129-134 | Removing the first occurrence removes the key and keeps the list free of repeats |
| Channels.EntryReads | internal/connector/irc/state.go:312-317 | One mode prefix in front of a listed nick is taken off and shown |
| Channels.ChannelState.OnNamesReply | internal/connector/irc/state.go:190-209 | One NAMES line: a fresh member list after a completed burst, an extended one otherwise |
| Channels.AddNamesExact | internal/connector/irc/state.go:203-208 | The members are those before and those listed; the last listing decides the prefix |
| Channels.BurstIsFlat | internal/connector/irc/state.go:178-217 | However a burst is cut into lines, it adds its entries to its base and leaves name and topic alone |
| Channels.BurstExactly | internal/connector/irc/state.go:178-217 | A burst leaves exactly the listed members if and only if it follows a completed one or lists every member from before |
| Channels.RenameExact | internal/connector/irc/state.go:301-310 | A rename carries the prefix to the new nick if and only if it changes the nick; a rename to itself removes the member |
| Channels.ChannelState.OnNickChange | internal/connector/irc/state.go:301-310 | The rename reaches every channel, in any order |
| Channels.ChannelState.OnMemberQuit | internal/connector/irc/state.go:272-278 | A quit removes the nick from every channel, in any order |
| Channels.ChannelState.OnMemberJoin | internal/connector/irc/state.go:219-230 | A join of a known member keeps the prefix; only that channel changes |
| Channels.ChannelState.SetMemberPrefix | internal/connector/irc/state.go:254-268 | Only the shown prefix of a known member changes |
| Modes.ApplyPrefixModes | internal/connector/irc/connector.go:2589-2648 | The loop, reading a copy taken before the line, leaves what deciding every aligned change on that copy gives |
| Modes.OnlyChangesAreWritten | internal/connector/irc/connector.go:2631-2646 | A change that alters nothing on the copy is not written to the live members |
| Modes.ModeMeans | internal/connector/irc/connector.go:2593-2646 | Granting one of q a o h v shows the higher of its prefix and the shown one, in the order ~ & @ % +; removing it clears the prefix if that is the one shown; no other letter touches a member |
| Modes.LetterTakes | internal/connector/irc/connector.go:2599-2630 | The arguments go to the letters q a o h v b e I k f j, and l when granted, from left to right |
| Modes.SignSwitches | internal/connector/irc/connector.go:2608-2621 | A plus starts granting and a minus removing, for the letters and arguments that follow |
| Modes.ChangeNicks | internal/connector/irc/connector.go:2611-2630 | The changes of a line name distinct nicks that occur among its arguments, when no argument repeats |
| Modes.DistinctAgree | internal/connector/irc/connector.go:2631-2646 | For distinct nicks deciding on the copy equals applying one by one |
| Modes.OpThenVoiceDiffers | internal/connector/irc/connector.go:2635-2640 | For any repeated argument there is a line, as in "+ov a a", where they differ |
| Modes.CopyIsHarmless | internal/connector/irc/connector.go:2589-2648 | For every mode string and member list the copy makes no difference if and only if no non-empty argument repeats |

## Left out

- Sockets, TLS, HTTP, WebSocket fan-out, JSON, environment loading and logging: input and output or library behaviour.
- time.ParseDuration and strings with non-ASCII letters or white space: library behaviour; the duration is a parameter of `Scheduler.ParseSchedule`.
- Scheduler.Scheduler.Tick: does not model firing a skill (rendering, actions); it returns the skills to fire. The sweep of timed lifts at the end of a tick is in `Lifts.dfy`.
- Supervisor.NoLostSpec: versions stand for the restart-relevant part of a spec; live facets are followed in `LiveHandles.dfy`. Stopping a tenant and its drain are one step.
- LiveHandles.FacetLostExactly: one live facet of one connection is followed, and a connection always comes up before its run ends regularly; updates come one at a time because the server holds its lock over each; the agent and wiring handles are cleared at the same point and not modelled.
- Supervisor.Tenant.RecordPanic: does not model int64 overflow of the shifted backoff.
- SpecDiff.LiveOnlyExact: the scalar fields of a tenant spec and the capabilities other than the usage counters are lumped together, because comparison treats them alike; whether a live facet applies to a running tenant is a nondeterministic step of the supervisor machine.
- SpecDiff.InPlaceExactly: every IRC connector of the running spec is taken to have been built, a running connection is represented by what it was last told, and a blank nick asks for nothing; what reloading commands, flows and the guard does inside the agent is not modelled.
- Reconnect.JitterBounds: jitter is computed over reals and truncated; floating-point rounding of the product is not modelled.
- Reconnect.ReconnectBound: covers runs whose sleeps are not cut short by a lifecycle signal or a park, which redial at once by design; the rest of the connector's run loop, Suspend and Resume are not modelled.
- Flow.Run: a handler is a function of the node and the bag, so its effects outside the bag are not modelled; the registry of node types is a set of kinds.
- Budget.OvershootBounded: covers calls of Ask; a stream is the same check and record with an estimated usage.
- Feed.HttpSource.Diff: agreement of the poller's first fetch with the server's initial snapshot is a hypothesis (`Synced`); a tenant is represented by its latest spec, its restart by `Supervisor.dfy`.
- Emitter.NoLostChange: assumes that every change is followed by a notification; a failed PUT is not retried by the code, so delivery is stated for runs whose PUTs succeed; the retries inside one PUT are not modelled.
- Lifts.EveryLiftAccounted: the store keeps what was last written; encoding of the lifts is not modelled, and an error of SetMode counts as issued because the code only logs it.
- Outage.OutageClock: a transition and its notification are one step, and so is the seeding of the watchdog; out-of-order delivery of concurrent transitions is not modelled.
- Channels.ChannelState.JoinedChannels: infos are values, so returned copies cannot alias; topic metadata, IsOperator and the wanted-channel list are left out as they add no property across operations.
- Modes.ApplyPrefixModes: no other goroutine changes the channel during one line.
- The CAP negotiation's deferred welcome, the fallback-nick counter, ident registry, policy switches, metrics and settings defaults: easy members.
- The connect gate: its guarantee lives in golang.org/x/time/rate, which is not part of this model.
- LLM providers, prompts, templates, HTML stripping and URL fetching.
