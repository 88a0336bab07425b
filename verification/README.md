# Verified models of router firmware components

This project models the parts of a Tomato-based router firmware that move and
transform data, and proves what they promise for every input, every run and every
interleaving:

- the web server: route matching, query strings, UTF-8 transcoding, the JSON of the
  API, saving a settings form, shell quoting
- the traffic statistics daemon: sampling, the ledgers of days and months, the speed window
- the bandwidth quotas: the lock shared by processes, the messages to the kernel, the
  backups in text and in binary form
- the time range match: overlap test, sort, merge and split of ranges
- the hotplug daemon: its child list, its backlog, and reaping at any moment
- base 64

Code that works by changing things is modelled by methods, arrays and classes with
the loops of the original, each proved against a function of the old state; what is
promised is then proved about those functions. `dafny verify dfyconfig.toml` checks
the whole project.

## Layout

| file | models |
|---|---|
| Glob.dfy | `match_single` and `match` of the web server |
| Ring.dfy, Traffic.dfy | `bump`, `calc` and the life of a host in the statistics daemon |
| TimeRange.dfy | `parse_time_ranges` and `merge_adjacent_time_ranges` |
| Utf8.dfy | the transcoder of the web server |
| ChildList.dfy, Hotplug.dfy | the hotplug daemon |
| Semaphore.dfy, Transfer.dfy | `lock`, `unlock` and `set_bandwidth_data` |
| History.dfy, Tokens.dfy, Usage.dfy, Restore.dfy | the quota backups, and a restore from end to end |
| Cgi.dfy, Query.dfy | `str_replace`, `unescape`, `webcgi_init` |
| Json.dfy, Emitter.dfy | the API's emitter, each of its calls a method of `Page`, and the JSON grammar |
| Base64.dfy, Settings.dfy, Shell.dfy | the codec, `save_variables`, `shell_quote_arg_alloc` |
| Bytes.dfy, Decimal.dfy, Wrappers.dfy | integers as bytes and as text, `Option` |

## Where the code falls short of its promise

- The glob matcher keeps one backtrack point. On patterns such as `**a*b` it rejects
  paths that match (`Glob.StarMisleads`). `Glob.SettledIsExact` says exactly when, for patterns without `?`;
  all routes of the web server are on the good side (`Glob.RoutesExact`).
- A time range that runs past midnight and touches another range's start is not split
  (`TimeRange.MidnightMissed`), and ranges that end at 0:00 and start at 24:00 are not
  brought into order (`TimeRange.TwoMidnightsMissed`). `TimeRange.CanonicalExact` gives
  the exact condition, and says that an empty range between others does no harm; one
  that comes first does (`TimeRange.EmptyRangeUnbalances`).
- The overlap test does not see a range that runs past midnight into another one
  (`TimeRange.OverlapMissed`), and reports one with the empty range from 24:00 to 0:00
  (`TimeRange.OverlapInvented`). `TimeRange.OverlapMeaning` is exact.
- HTML text is written unit by unit. A character above U+FFFF becomes two references
  that a reader takes for U+FFFD each (`Utf8.HtmlLosesPairs`), and some control
  characters become others. `Utf8.HtmlExact` is the exact condition.
- A backup record with an unknown address family is loaded with an address that was
  never set, since the error code of the library counts as success
  (`Usage.UnknownFamilyStored`). `Usage.UnsetExact` is the exact condition.
- A name with an encoded `=` in a query is cut at it, since fields are decoded before
  they are split. `Query.FieldExact` is the exact condition.
- `split_on_separators` documents that a negative limit ignores the flag for the
  remainder. The code looks at the flag, but `Tokens.CountEnough` shows that it never
  makes a difference.

## Model

| member | source | states |
|---|---|---|
| Glob.MatchSingle | tomato64/package/httpd/httpd/httpd.c:819-890 | The loop with its one saved star terminates and returns exactly `Accepts`, the matcher written as a recursion |
| Glob.RunSound | tomato64/package/httpd/httpd/httpd.c:819-890 | From every state of the matcher, acceptance means that the rest of the pattern matches here or further along the saved star |
| Glob.AcceptsSound | tomato64/package/httpd/httpd/httpd.c:819-890 | Every accepted path matches the pattern by the declarative relation `Matches` (`?` any character, `*` any run without `/`, `**` any run, and a star that ends the pattern any remainder) |
| Glob.StarTakesOver | tomato64/package/httpd/httpd/httpd.c:828-847 | Exchange argument: on a settled pattern, whatever a later choice for the old star could match, the newly saved star can match from where it stands |
| Glob.RunComplete | tomato64/package/httpd/httpd/httpd.c:819-890 | On a settled pattern the matcher accepts whenever the rest matches here or further along the saved star |
| Glob.AcceptsExact | tomato64/package/httpd/httpd/httpd.c:819-890 | On a settled pattern, and for any pattern on a path without `/`, acceptance and the relation agree in both directions |
| Glob.SettledIsExact | tomato64/package/httpd/httpd/httpd.c:819-890 | For patterns without `?`: the matcher decides the relation on every path if and only if the pattern is settled; otherwise a path is constructed that matches and is rejected |
| Glob.StarMisleads | tomato64/package/httpd/httpd/httpd.c:819-890 | `**a*b` on `a/ab` matches by the relation and is rejected |
| Glob.QuestionMisleads | tomato64/package/httpd/httpd/httpd.c:819-890 | A concrete pattern with `?` after `*` and a path that matches it and is rejected |
| Glob.OnlyDoubleSettled | tomato64/package/httpd/httpd/httpd.c:819-890 | Patterns whose wildcards are all `**` are settled, so the matcher is exact on them |
| Glob.OnlyOnePlace | tomato64/package/httpd/httpd/httpd.c:872-886 | A stretch with a `/` that only literals part from its `*` fits in one place only, so that star needs no backtracking any more |
| Glob.OnlySingleSettled | tomato64/package/httpd/httpd/httpd.c:819-890 | Patterns whose wildcards are all single `*`, with `?` only where no `*` stands before it in the same component of the path, are settled |
| Glob.NoQuestionTidy | tomato64/package/httpd/httpd/httpd.c:819-890 | Patterns without `?` are among them |
| Glob.SplitUnique | tomato64/package/httpd/httpd/httpd.c:896-916 | A pattern has only one reading as alternatives joined by bars |
| Glob.SplitIsSplit | tomato64/package/httpd/httpd/httpd.c:896-916 | The alternatives found are that reading |
| Glob.Match | tomato64/package/httpd/httpd/httpd.c:896-916 | The loop over the alternatives accepts if and only if some alternative is accepted |
| Glob.AlternativesExact | tomato64/package/httpd/httpd/httpd.c:896-916 | When every alternative is settled, `match` says whether some alternative matches by the relation |
| Glob.RoutesExact | tomato64/package/httpd/httpd/tomato.c:2879-2975 | Each wildcard route of the route table is matched exactly as it reads, for every request path |
| Ring.PostKeepsLedger | tomato64/package/cstats/cstats/cstats.c:732-753 | Posting to the insertion-ordered list keeps its keys distinct and non-zero and its length within the limit |
| Ring.PostConserves | tomato64/package/cstats/cstats/cstats.c:732-753 | What the list holds plus what it drops grows by what is posted, modulo 2^64 |
| Ring.PostMeaning | tomato64/package/cstats/cstats/cstats.c:732-753 | Posting adds to its own key; every other key keeps its sum, and only the oldest one goes, when a new key comes to a full list |
| Ring.BumpNew | tomato64/package/cstats/cstats/cstats.c:736-753 | A new key in the slot behind the tail appends to the list and drops its oldest entry when the ring is full |
| Ring.BumpOld | tomato64/package/cstats/cstats/cstats.c:736-753 | A known key, wherever it is in the ring, has the counters added in place |
| Ring.EntriesDistinct | tomato64/package/cstats/cstats/cstats.c:732-753 | The entries of a valid ring have distinct keys |
| Ring.Locate | tomato64/package/cstats/cstats/cstats.c:736-743 | The search, the tail first and then downwards, finds a slot with the key or proves there is none |
| Ring.Bump | tomato64/package/cstats/cstats/cstats.c:732-753 | The circular array refines posting to the insertion-ordered list, and stays valid |
| Ring.List | tomato64/package/cstats/cstats/cstats.c:696-704 | The walk from behind the tail that skips zero keys lists exactly the entries, in insertion order |
| Traffic.Node.constructor | tomato64/package/cstats/cstats/cstats.c:91-110 | A new host starts with empty rings, `sync` 1 and the current uptime |
| Traffic.Node.Housekeeping | tomato64/package/cstats/cstats/cstats.c:755-763 | The end of a round refines the host transition for it |
| Traffic.Node.Sample | tomato64/package/cstats/cstats/cstats.c:841-923 | One accounting line, with its early return, refines the host transition for a sample |
| Traffic.Node.Spread | tomato64/package/cstats/cstats/cstats.c:893-901 | The loop that writes the speed ring pushes n equal shares through a window of 1440 slots |
| Traffic.DiffMeaning | tomato64/package/cstats/cstats/cstats.c:867-890 | A difference carries the old reading to the new one modulo 2^64 unless it is suppressed, exactly when it is suppressed, and a decrease never counts for more than 3750 MByte |
| Traffic.SlideIsWindow | tomato64/package/cstats/cstats/cstats.c:893-901 | The speed ring is the window over the last 1440 shares ever written |
| Traffic.ShareLoss | tomato64/package/cstats/cstats/cstats.c:893-901 | n times the share is at most the difference and falls short of it by less than n |
| Traffic.SampleSpeed | tomato64/package/cstats/cstats/cstats.c:857-901 | A counted sample pushes out one slot for each whole interval since the host clock and writes as many equal slots, whose sum is the difference of the readings, short by less than one unit per slot; a new baseline and an early sample leave clock and speed ring alone |
| Traffic.RunSpeed | tomato64/package/cstats/cstats/cstats.c:841-923 | Over every run the speed ring is the window over what the run wrote, one slot for each interval by which the host clock advanced, and all slots ever written add up to what was counted, short by less than one unit per slot |
| Traffic.SampleBooks | tomato64/package/cstats/cstats/cstats.c:906-923 | A sample that is not too early, with the clock set, adds its difference under its day and its month, and nothing else changes but the oldest key of a full ledger |
| Traffic.RunKeepsLedgers | tomato64/package/cstats/cstats/cstats.c:906-923 | In every run no day and no month is booked twice, and the ledgers hold at most 62 days and 25 months |
| Traffic.SyncMeaning | tomato64/package/cstats/cstats/cstats.c:755-763 | Over every run `sync` stays in -1, 0, 1 and a host counts its next sample if and only if it was seen in the round before |
| Traffic.ClockInvariant | tomato64/package/cstats/cstats/cstats.c:857-865 | Over every run with a clock that does not go back, the host clock never passes the uptime, is within one interval of it after each counted sample, and the speed ring tail moves in lockstep with it |
| Traffic.RunConserves | tomato64/package/cstats/cstats/cstats.c:841-923 | Over every run, what the daily or the monthly ring holds plus everything evicted from it equals what was counted, modulo 2^64 |
| Traffic.RunAccounts | tomato64/package/cstats/cstats/cstats.c:841-923 | Over every run and for any counters, what was counted plus what a new baseline or a suppressed decrease left uncounted equals the last reading minus the first, modulo 2^64 |
| Traffic.Telescopes | tomato64/package/cstats/cstats/cstats.c:841-923 | Between two baselines with counters that do not decrease, the counted differences add up to the last reading minus the baseline, however many samples came too early |
| TimeRange.FindOverlap | tomato64/package/gargoyle-timerange/extension/libxt_timerange.c:433-454 | The double loop reports an overlap exactly when two ranges overlap after unrolling those past the end of the period |
| TimeRange.OverlapMeaning | tomato64/package/gargoyle-timerange/extension/libxt_timerange.c:433-454 | On all ranges within the period: two of them share a second if and only if an overlap of ranges that hold a second at all is reported, or one runs past the end and into another, which the test does not see |
| TimeRange.OverlapMissed | tomato64/package/gargoyle-timerange/extension/libxt_timerange.c:433-454 | 22:00 to 2:00 with 1:00 to 3:00 share an hour and no overlap is reported |
| TimeRange.OverlapInvented | tomato64/package/gargoyle-timerange/extension/libxt_timerange.c:433-454 | 24:00 to 0:00, which holds no second, with 22:00 to 2:00 is reported as an overlap |
| TimeRange.SortedIsChained | tomato64/package/gargoyle-timerange/extension/libxt_timerange.c:433-479 | Sorted ranges without overlap are chained up to the first past the end, and all behind it start at the very end; there are none behind it exactly when the list is seamless |
| TimeRange.SmallestStart | tomato64/package/gargoyle-timerange/extension/libxt_timerange.c:467-471 | The inner loop finds the first of the smallest starts that are left |
| TimeRange.SortRanges | tomato64/package/gargoyle-timerange/extension/libxt_timerange.c:458-479 | The in-place selection sort of pairs refines the sort on lists |
| TimeRange.SortMeaning | tomato64/package/gargoyle-timerange/extension/libxt_timerange.c:458-479 | The sort orders by start and keeps the ranges as a multiset, with what they cover |
| TimeRange.MergeAdjacent | tomato64/package/gargoyle-timerange/extension/libxt_timerange.c:562-604 | The in-place compaction keeps exactly the boundaries of the merged list |
| TimeRange.MergedParity | tomato64/package/gargoyle-timerange/extension/libxt_timerange.c:577-594 | Merging drops equal boundaries two at a time, so that the parity of boundaries passed is the same at every second |
| TimeRange.MergedShape | tomato64/package/gargoyle-timerange/extension/libxt_timerange.c:577-594 | Merging keeps the first and the last boundary and leaves those before the last strictly increasing |
| TimeRange.CoverParity | tomato64/package/gargoyle-timerange/extension/libxt_timerange.c:543-557 | In an ordered list a second is covered if and only if an odd number of boundaries has been passed |
| TimeRange.Adjust | tomato64/package/gargoyle-timerange/extension/libxt_timerange.c:510-557 | Copying and splitting at the end of the period never leaves the allocation of length + 3 and yields the adjusted list |
| TimeRange.StraightExact | tomato64/package/gargoyle-timerange/extension/libxt_timerange.c:494-557 | With no range past the end, the result is ordered, of even length, and covers the same seconds; it is suppressed exactly when everything is covered |
| TimeRange.WrappedExact | tomato64/package/gargoyle-timerange/extension/libxt_timerange.c:510-557 | With a range past the end that stops before any start, splitting it gives the same covered seconds |
| TimeRange.WrappedWrong | tomato64/package/gargoyle-timerange/extension/libxt_timerange.c:536-542 | With a range past the end that reaches a start, the split is missed and the last second of the period is taken for the opposite |
| TimeRange.EndParity | tomato64/package/gargoyle-timerange/extension/libxt_timerange.c:510-557 | With a range past the end, the last second is covered if and only if an even number of boundaries lies before the end |
| TimeRange.SeamWrong | tomato64/package/gargoyle-timerange/extension/libxt_timerange.c:494-557 | When a range that ends at second 0 and another that starts at the very end meet at midnight, the result is never right |
| TimeRange.CanonicalExact | tomato64/package/gargoyle-timerange/extension/libxt_timerange.c:433-557 | For every list of ranges with both ends in 0..period, with no overlap reported, and with every empty range between others and touching none of them: the result covers the same seconds if and only if no range runs past the end and on to a start, and no range ends at second 0 while another starts at the very end; there is no result exactly when everything is covered |
| TimeRange.LooseMerged | tomato64/package/gargoyle-timerange/extension/libxt_timerange.c:577-594 | Merging removes an empty range that lies between others and touches none of them, and nothing else |
| TimeRange.SettledExact | tomato64/package/gargoyle-timerange/extension/libxt_timerange.c:494-557 | The same on sorted lists, by taking one such empty range away after the other |
| TimeRange.MidnightMissed | tomato64/package/gargoyle-timerange/extension/libxt_timerange.c:536-542 | 22:00 to 0:00 with 0:00 to 5:00 is a case where the result is wrong |
| TimeRange.TwoMidnightsMissed | tomato64/package/gargoyle-timerange/extension/libxt_timerange.c:536-554 | 22:00 to 0:00 with 24:00 to 5:00 is another, with no range reaching a start |
| TimeRange.EmptyRangeUnbalances | tomato64/package/gargoyle-timerange/extension/libxt_timerange.c:577-594 | An empty range that comes first is a case where the result is wrong |
| TimeRange.ParseTimeRanges | tomato64/package/gargoyle-timerange/extension/libxt_timerange.c:433-557 | From the parsed pairs on, the function returns what the composition of overlap test, sort, merge and split says, null included |
| Utf8.DecodeExact | tomato64/package/httpd/httpd/utf8.c:57-105 | The decoder accepts exactly the characters of the grammar in section 4 of RFC 3629 and inverts the encoding |
| Utf8.CodePointsEncode | tomato64/package/httpd/httpd/utf8.c:57-105 | A well-formed string is the encoding of the code points read from it |
| Utf8.EncodeAllNonZero | tomato64/package/httpd/httpd/utf8.c:57-105 | The encoding of non-zero scalar values is a string without terminator |
| Utf8.EncodeAllDecodes | tomato64/package/httpd/httpd/utf8.c:57-105 | Every list of non-zero scalar values is read back from its encoding |
| Utf8.Utf16Size | tomato64/package/httpd/httpd/utf8.c:22-55 | The scan by lead bytes returns the unit count of the recursion `Size`, or -1 |
| Utf8.SizeStep | tomato64/package/httpd/httpd/utf8.c:22-55 | On one character the scan and the decoder agree on the number of UTF-16 units |
| Utf8.SizeExact | tomato64/package/httpd/httpd/utf8.c:22-55 | On every well-formed string the count equals the number of UTF-16 units of its code points |
| Utf8.ConvertFits | tomato64/package/httpd/httpd/utf8.c:163-209 | A unit takes at most 6 bytes in a script string and at most 8 in HTML |
| Utf8.WriteUnit | tomato64/package/httpd/httpd/utf8.c:163-209 | One converter call writes the unit if and only if a byte stays free for the terminator |
| Utf8.WriteChar | tomato64/package/httpd/httpd/utf8.c:242-255 | Both units of a character are written after what is there |
| Utf8.Utf8ToString | tomato64/package/httpd/httpd/utf8.c:211-265 | Succeeds exactly on non-empty well-formed UTF-8 of acceptable length, never because the buffer sized beforehand is full, and yields the escaped units |
| Utf8.UnescapeEscaped | tomato64/package/httpd/httpd/utf8.c:163-189 | A script engine reads the escaped units back, for every list of units |
| Utf8.ReadHtmlEscaped | tomato64/package/httpd/httpd/utf8.c:191-209 | A reader by the numeric character reference rule of the HTML standard takes each written unit on its own, for every list of units |
| Utf8.HtmlExact | tomato64/package/httpd/httpd/utf8.c:191-209 | The text reads back as the code points if and only if none is above U+FFFF and none is a control character that HTML takes for another |
| Utf8.HtmlLosesPairs | tomato64/package/httpd/httpd/utf8.c:242-255 | U+1F600 is written as two halves of a surrogate pair and read as twice U+FFFD |
| Utf8.EscapedSafe | tomato64/package/httpd/httpd/utf8.c:163-189 | The script text holds only printable characters and no quote of either kind |
| Utf8.HtmlSafe | tomato64/package/httpd/httpd/utf8.c:191-209 | The HTML text holds only printable characters, no quote of either kind, no less-than and no greater-than sign |
| Utf8.PlainKept | tomato64/package/httpd/httpd/utf8.c:163-209 | Text of printable characters without those that are escaped is well-formed and comes out unchanged |
| Utf8.TooLongExact | tomato64/package/httpd/httpd/utf8.c:218-226 | Refused is exactly what would need a buffer beyond the largest size |
| Utf8.Utf8ToJsString | tomato64/package/httpd/httpd/utf8.c:267-270 | The result unescapes to the UTF-16 form of the input, by section 2.1 of RFC 2781, and is safe between quotes; it fails exactly on empty, malformed or too long input |
| Utf8.Utf8ToHtmlString | tomato64/package/httpd/httpd/utf8.c:272-275 | Fails exactly on empty, malformed or too long input; the result is safe in text and in attributes, and reads back as the input if and only if all its code points survive as references to one unit |
| ChildList.AddChild | tomato64/package/hotplug2/hotplug2/childlist.c:19-39 | From any node the new child is linked behind the rightmost one; the list stays doubly linked and its pids grow by one |
| ChildList.Rightmost | tomato64/package/hotplug2/hotplug2/childlist.c:19-39 | The walk along `next` ends at the rightmost node |
| ChildList.FindLeft | tomato64/package/hotplug2/hotplug2/childlist.c:41-85 | The walk along `prev` ends at the nearest node with the pid, or at the leftmost |
| ChildList.Unlink | tomato64/package/hotplug2/hotplug2/childlist.c:41-85 | Relinking the neighbours removes exactly that node and leaves a doubly linked list |
| ChildList.RemoveChild | tomato64/package/hotplug2/hotplug2/childlist.c:41-85 | Removes the nearest child with the pid at or left of the pointer, returns the rightmost node of what is left, lowers the count if and only if one was removed |
| Hotplug.StepKeepsInvariant | tomato64/package/hotplug2/hotplug2/hotplug2.c:708-881 | Every step of the loop and every reaping keeps the invariant: counters equal to the lists, at most the allowed children, at most 64 waiting, events conserved, first in first out |
| Hotplug.RunKeepsInvariant | tomato64/package/hotplug2/hotplug2/hotplug2.c:708-881 | The invariant holds in every state of every run, with children reaped between any two steps |
| Hotplug.NoRequeue | tomato64/package/hotplug2/hotplug2/hotplug2.c:715-722 | An event taken from the backlog never goes back to it |
| Hotplug.ExamineExact | tomato64/package/hotplug2/hotplug2/hotplug2.c:785-840 | An event without sequence number, or in dumb mode other than the adding of a device with a module alias, is dropped; any other goes to the end of the backlog if no more children may run, else on to the fork |
| Hotplug.RunOutcomes | tomato64/package/hotplug2/hotplug2/hotplug2.c:708-881 | In every run children run and events wait for such events only, and an event is dropped only if it is none or its fork failed |
| Hotplug.RunHighest | tomato64/package/hotplug2/hotplug2/hotplug2.c:785-806 | In every state of every run the sequence number kept is the largest examined |
| Hotplug.OnlyFullWaits | tomato64/package/hotplug2/hotplug2/hotplug2.c:708-763 | In every run the loop has nothing to do exactly while the backlog is full and no more children may run; the end of any child then lets it go on |
| Hotplug.Daemon.constructor | tomato64/package/hotplug2/hotplug2/hotplug2.c:530-708 | The daemon starts with no children and no backlog |
| Hotplug.Daemon.DequeueBacklog | tomato64/package/hotplug2/hotplug2/hotplug2.c:715-722 | Taking the head of the linked backlog refines the step that takes the oldest event |
| Hotplug.Daemon.ReadEvent | tomato64/package/hotplug2/hotplug2/hotplug2.c:726-763 | Reading from the socket refines the step that receives an event |
| Hotplug.Daemon.ExamineEvent | tomato64/package/hotplug2/hotplug2/hotplug2.c:785-840 | Dropping, queueing or forking on the event in hand refines the examine step |
| Hotplug.Daemon.Append | tomato64/package/hotplug2/hotplug2/hotplug2.c:832-838 | Linking behind the tail appends to the queue |
| Hotplug.Daemon.ForkDone | tomato64/package/hotplug2/hotplug2/hotplug2.c:843-880 | A fork that succeeds adds the child and counts it; one that fails drops the event |
| Hotplug.Daemon.ReapChild | tomato64/package/hotplug2/hotplug2/hotplug2.c:359-380 | The signal handler removes the child and keeps pointer, list and count in step, at any point of the loop |
| Semaphore.StepExclusive | tomato64/package/gargoyle-quotas/tools/ipt_bwctl.c:109-222 | Every system call of any process keeps value plus owners at one from creation on |
| Semaphore.StepSerialised | tomato64/package/gargoyle-quotas/tools/ipt_bwctl.c:687-751 | Every step keeps the message log equal to the calls in lock order, the last one possibly unfinished |
| Semaphore.RunSafe | tomato64/package/gargoyle-quotas/tools/ipt_bwctl.c:109-222 | Both hold in every interleaving of any number of processes, including creation and initialisation |
| Semaphore.AtMostOneHolder | tomato64/package/gargoyle-quotas/tools/ipt_bwctl.c:109-222 | In every interleaving at most one process holds the lock, and the value is then 0 |
| Semaphore.UnlockRaises | tomato64/package/gargoyle-quotas/tools/ipt_bwctl.c:163-185 | A holder that unlocks always finds the value 0 and raises it |
| Semaphore.CallContiguous | tomato64/package/gargoyle-quotas/tools/ipt_bwctl.c:687-751 | The messages of every finished call stand in the log as one block, after those of the calls before it |
| Semaphore.RunBusy | tomato64/package/gargoyle-quotas/tools/ipt_bwctl.c:687-751 | In every run every process that is in a call works on the messages of the job with which it started that call |
| Semaphore.RunGrants | tomato64/package/gargoyle-quotas/tools/ipt_bwctl.c:687-751 | The calls that got the lock, read off the run itself, are in order those of the jobs with which the processes started them, with all their messages |
| Semaphore.SoloCompletes | tomato64/package/gargoyle-quotas/tools/ipt_bwctl.c:109-222 | After any run, a process that starts a call while nobody holds the lock, and then runs alone, delivers all its messages and gives the lock back |
| Semaphore.MissedAttempt | tomato64/package/gargoyle-quotas/tools/ipt_bwctl.c:187-207 | An attempt that fails, at either system call, waits 25 ms and tries again as long as time is left, else gives up |
| Semaphore.WaitsExactly | tomato64/package/gargoyle-quotas/tools/ipt_bwctl.c:187-207 | While another process holds the lock a call makes exactly max(1, ceil(wait / 25)) attempts and sends nothing |
| Semaphore.AttemptsExact | tomato64/package/gargoyle-quotas/tools/ipt_bwctl.c:187-207 | The attempts of a lock that never succeeds are max(1, ceil(wait / 25)) |
| Semaphore.Lock | tomato64/package/gargoyle-quotas/tools/ipt_bwctl.c:187-207 | The loop stops at the first success, else after exactly that many attempts, sleeping 25 ms between two |
| Transfer.BlockRead | tomato64/package/gargoyle-quotas/tools/ipt_bwctl.c:654-684 | A block read back gives the entry that was written |
| Transfer.MessageReceived | tomato64/package/gargoyle-quotas/tools/ipt_bwctl.c:687-741 | A message read back gives its total, start index, count and entries |
| Transfer.MessageAddressed | tomato64/package/gargoyle-quotas/tools/ipt_bwctl.c:700-717 | Every message carries the id of the quota up to 49 bytes, filled up with zeros, the flag and the backup time of the request, and no history |
| Transfer.SetIpBlock | tomato64/package/gargoyle-quotas/tools/ipt_bwctl.c:654-684 | Writes the 28-byte block at the index and moves on, or reports the buffer full and changes nothing |
| Transfer.Prepare | tomato64/package/gargoyle-quotas/tools/ipt_bwctl.c:689-717 | The buffer starts as the message with no blocks |
| Transfer.FillBuffer | tomato64/package/gargoyle-quotas/tools/ipt_bwctl.c:721-737 | Fills one buffer with as many blocks as fit, and the count field says how many |
| Transfer.SendUsage | tomato64/package/gargoyle-quotas/tools/ipt_bwctl.c:719-741 | Sends exactly the messages of consecutive chunks of 582 entries, one empty message for no entries |
| Transfer.SentLabelled | tomato64/package/gargoyle-quotas/tools/ipt_bwctl.c:719-741 | Message k carries the total, start index 582 k, the number of its blocks, zeros behind them, and the quota it is for |
| Transfer.TransferLossless | tomato64/package/gargoyle-quotas/tools/ipt_bwctl.c:687-741 | The blocks of all messages read in order give the input list, each entry once, and every message names the quota |
| History.ChooseBits | tomato64/package/gargoyle-quotas/tools/ipt_bwctl.c:1101-1106 | 32 bits are chosen exactly when every counter of the entry is below 2^31 - 1 |
| History.SaveEntry | tomato64/package/gargoyle-quotas/tools/ipt_bwctl.c:1081-1127 | The bytes of one entry |
| History.EntryParts | tomato64/package/gargoyle-quotas/tools/ipt_bwctl.c:1081-1127 | Those bytes place by place: address, number of counters, the three times, which are zero just for an empty history, width and counters |
| History.SaveHistory | tomato64/package/gargoyle-quotas/tools/ipt_bwctl.c:1043-1133 | The bytes of the file: count, interval of the first entry, entries |
| History.CountersRead | tomato64/package/gargoyle-quotas/tools/ipt_bwctl.c:1332-1348 | The chosen width never loses a counter, a counter that the file does not hold at all is loaded as zero, and one in the middle of which the file ends is left open |
| History.EntryRead | tomato64/package/gargoyle-quotas/tools/ipt_bwctl.c:1299-1350 | An entry whose first 49 bytes are in the file is read back wherever it stands: its head, and its counters as far as the file holds them |
| History.LoadHistory | tomato64/package/gargoyle-quotas/tools/ipt_bwctl.c:1273-1355 | Returns the number of entries that the file announces and, in order, every entry whose first 49 bytes are there, with zero for counters that are missing |
| History.LoadCounters | tomato64/package/gargoyle-quotas/tools/ipt_bwctl.c:1332-1348 | The loop over the counters of an entry, which goes on behind the end of the file |
| History.HistoryCut | tomato64/package/gargoyle-quotas/tools/ipt_bwctl.c:1273-1355 | A saved file cut at any byte after its header gives the number of entries; exactly those are present whose first 49 bytes are, each with its head, with the counters that are there, and with zero for those that are missing |
| History.OffsetMeaning | tomato64/package/gargoyle-quotas/tools/ipt_bwctl.c:1080-1127 | Where an entry of a saved file starts: behind the bytes of those before it |
| History.HistoryRoundTrip | tomato64/package/gargoyle-quotas/tools/ipt_bwctl.c:1273-1355 | Loading a saved list gives, entry by entry, the address, the three times unless the history is empty, when they are zero, every counter, and the interval of the first entry |
| Tokens.PiecesSplit | tomato64/package/gargoyle-quotas/tools/ipt_bwctl.c:799-917 | The pieces are the maximal separator-free runs of the line, in order |
| Tokens.SplitUnique | tomato64/package/gargoyle-quotas/tools/ipt_bwctl.c:799-917 | No other list is |
| Tokens.LimitedPieces | tomato64/package/gargoyle-quotas/tools/ipt_bwctl.c:852-905 | With a limit the first pieces are returned |
| Tokens.LimitedWhole | tomato64/package/gargoyle-quotas/tools/ipt_bwctl.c:852-905 | With the remainder asked for, the last piece of a limit goes on to the end of the line and starts where that piece starts |
| Tokens.CountEnough | tomato64/package/gargoyle-quotas/tools/ipt_bwctl.c:811-828 | One more than the number of separators is room for every piece, and then it makes no difference whether the remainder is asked for |
| Tokens.SplitOnSeparators | tomato64/package/gargoyle-quotas/tools/ipt_bwctl.c:799-917 | With a negative limit returns exactly the pieces; otherwise those of the limit |
| Usage.SignedRead | tomato64/package/gargoyle-quotas/tools/ipt_bwctl.c:1007-1034 | Every printed number is one token and is scanned back |
| Usage.SaveUsage | tomato64/package/gargoyle-quotas/tools/ipt_bwctl.c:999-1040 | The text of the backup |
| Usage.ReadRecords | tomato64/package/gargoyle-quotas/tools/ipt_bwctl.c:1165-1257 | The loop over the tokens stores exactly the records, never beyond the table of tokens / 3 + 1 |
| Usage.LoadUsage | tomato64/package/gargoyle-quotas/tools/ipt_bwctl.c:1136-1270 | Loads the timestamp and the records of any file |
| Usage.TextPieces | tomato64/package/gargoyle-quotas/tools/ipt_bwctl.c:999-1040 | The tokens of a saved file are the timestamp and three per entry |
| Usage.RecordsCut | tomato64/package/gargoyle-quotas/tools/ipt_bwctl.c:1165-1257 | A backup cut between any two tokens restores exactly its complete records |
| Usage.UnknownFamilyStored | tomato64/package/gargoyle-quotas/tools/ipt_bwctl.c:1201-1257 | A record of an unknown family is stored, with an address that was never set |
| Usage.UnsetExact | tomato64/package/gargoyle-quotas/tools/ipt_bwctl.c:1165-1257 | What a file loads is free of addresses that were never set if and only if the tokens behind the timestamp meet no record of a family that is neither IPv4 nor IPv6 |
| Usage.UnsetShows | tomato64/package/gargoyle-quotas/tools/ipt_bwctl.c:1201-1257 | If they meet one, two values of the memory that was never set load differently |
| Usage.SavedMeetsNone | tomato64/package/gargoyle-quotas/tools/ipt_bwctl.c:999-1040 | A saved backup of known families never meets one |
| Usage.UsageRoundTrip | tomato64/package/gargoyle-quotas/tools/ipt_bwctl.c:1136-1270 | Loading a saved backup gives the timestamp and, entry by entry, the family, the address, one word of it for IPv4 and all four for IPv6, and the counter, for all counters up to 2^64 |
| Restore.CallDelivers | tomato64/package/gargoyle-quotas/tools/ipt_bwctl.c:687-751 | In every interleaving of any number of processes, a call that was started with the messages of a transfer and is over has them in a contiguous part of the log, all naming its quota, and the kernel reads its counters from them |
| Restore.CallPossible | tomato64/package/gargoyle-quotas/tools/ipt_bwctl.c:687-751 | After any run such a call can be completed by a process that starts it while nobody holds the lock |
| Restore.RestoreDelivers | tomato64/package/gargoyle-quotas/tools/quota_backup.c:87-114 | Saving, loading and sending under any interleaving delivers the counters that were saved |
| Cgi.ReplacedAtFirst | tomato64/package/httpd/httpd/cgi.c:67-102 | Replacement from the left: nothing happens without an occurrence, else the first one is replaced and the rest goes on behind it |
| Cgi.FindExact | tomato64/package/httpd/httpd/cgi.c:84-90 | The search finds the first occurrence if and only if there is one |
| Cgi.StrReplace | tomato64/package/httpd/httpd/cgi.c:67-102 | Returns 0 if and only if the arguments are good and the result fits; then the buffer holds the replacement; it stays terminated within its size and partly replaced otherwise; bytes outside are untouched |
| Cgi.ReplaceAll | tomato64/package/httpd/httpd/cgi.c:82-101 | The loop, which terminates whatever the replacement holds |
| Cgi.Splice | tomato64/package/httpd/httpd/cgi.c:91-98 | Moving the tail and copying in replaces the bytes in place |
| Cgi.Unescape | tomato64/package/httpd/httpd/cgi.c:46-65 | The buffer holds the decoded string, up to the first malformed escape, within its old extent |
| Cgi.Separate | tomato64/package/httpd/httpd/cgi.c:161-166 | Every separator becomes a terminator and the segments are counted |
| Cgi.EnterSegment | tomato64/package/httpd/httpd/cgi.c:169-178 | One segment is decoded and entered; entries made before keep their strings |
| Cgi.EnterField | tomato64/package/httpd/httpd/cgi.c:174-177 | A segment without `=` is ignored, otherwise it is cut at the first `=` and its two parts are entered; the names and values entered before keep their strings |
| Cgi.WebcgiSet | tomato64/package/httpd/httpd/cgi.c:123-142 | A new name is entered with pointers to name and value; a known one keeps the pointer to its name and gets the new value |
| Cgi.WebcgiInit | tomato64/package/httpd/httpd/cgi.c:144-179 | At the end the table holds, for each name, pointers to the name and to the string the segments assign last, both terminated in the buffer, and it was created large enough |
| Query.EncodeEncodes | tomato64/package/httpd/httpd/cgi.c:46-65 | Writing a space as `+` and escaping all other bytes that are not unreserved is such an encoding, so every list of pairs has one |
| Query.ReplacedPasses | tomato64/package/httpd/httpd/cgi.c:172-172 | A percent-encoded text holds no `%u`, so the rewriting passes over it |
| Query.UnescapedEncoded | tomato64/package/httpd/httpd/cgi.c:46-65 | Unescaping any encoding of a byte string, with escapes of either case and `+` for a space, gives the byte string |
| Query.UnescapedStops | tomato64/package/httpd/httpd/cgi.c:46-65 | Decoding stops at a `%` that two hexadecimal digits do not follow, and keeps what was decoded before |
| Query.FieldUnicode | tomato64/package/httpd/httpd/cgi.c:172-173 | A `%u` between encoded text is read as `~u`, and the text around it as it is |
| Query.SegmentIgnored | tomato64/package/httpd/httpd/cgi.c:174-177 | A segment without `=` assigns nothing |
| Query.FieldExact | tomato64/package/httpd/httpd/cgi.c:172-177 | A field assigns its pair if and only if the name holds no `=`, because it is decoded before it is split |
| Query.QueryEntered | tomato64/package/httpd/httpd/cgi.c:144-179 | An encoded query assigns its pairs in order |
| Query.QueryRoundTrip | tomato64/package/httpd/httpd/cgi.c:144-179 | For every list of pairs with `=`-free names and every encoding of it by section 2.1 of RFC 3986, with `+` for a space, the table has exactly those names, each with its last value |
| Json.QuotedRead | tomato64/package/httpd/httpd/api.c:70-94 | Every string is read back from its escaped form by section 7 of RFC 8259 |
| Json.ValueRead | tomato64/package/httpd/httpd/api.c:44-175 | Every value is read back from its serialisation, with anything that may follow a value |
| Json.ShownIsParsed | tomato64/package/httpd/httpd/api.c:44-175 | Parsing a serialised value gives the value |
| Emitter.ListedShown | tomato64/package/httpd/httpd/api.c:60-66 | With no comma due at the start, the flag puts commas exactly between the members |
| Emitter.Page.PutEscaped | tomato64/package/httpd/httpd/api.c:77-91 | The loop appends the escaped string |
| Emitter.Page.PutStr | tomato64/package/httpd/httpd/api.c:70-94 | Appends the member with the string as a JSON string |
| Emitter.Page.PutList | tomato64/package/httpd/httpd/api.c:126-147 | Appends the member with the words of the list, as far as they fit the buffer, as an array of strings |
| Emitter.Page.Emit | tomato64/package/httpd/httpd/api.c:44-175 | Any balanced group of calls appends the serialisation of what it means, after the comma that is due |
| Emitter.Page.EmitPage | tomato64/package/httpd/httpd/api.c:44-175 | Any balanced tree of calls yields the serialisation of its tree; parsing it gives the tree, and that says of every call what it was given |
| Emitter.MeaningSays | tomato64/package/httpd/httpd/api.c:44-175 | The tree says of each call, under its name: the string, a lexeme that scans to the number, the nearest number of hundredths, true if and only if the flag is set, the words of the list |
| Emitter.PageParses | tomato64/package/httpd/httpd/api.c:44-175 | The serialisation of any tree of calls parses, by sections 3 to 7 of RFC 8259, to that tree |
| Base64.Encode | tomato64/package/libshared/shared/base64.c:35-63 | The loop writes the letters of the sextets and the padding |
| Base64.SextetsMeaning | tomato64/package/libshared/shared/base64.c:35-63 | The sextets are the digits to base 64 of the number the bytes are to base 256, shifted by the bits of the filling, as section 4 of RFC 4648 describes |
| Base64.LetterCode | tomato64/package/libshared/shared/base64.c:32-32 | The letters of the digits are those of table 1 of RFC 4648 |
| Base64.PaddedExactly | tomato64/package/libshared/shared/base64.c:35-63 | An encoding is whole groups of four characters, and its last ones are `=`, one for each byte that the last group lacks, and no others |
| Base64.Decode | tomato64/package/libshared/shared/base64.c:66-100 | The loop with accumulator and counter writes the bytes of the digits before the first `=`, on every input: a NUL character is found behind the last letter, counts as the digit 0 and sets the lowest bit of the digit before it in its group |
| Base64.AccumulatedIs | tomato64/package/libshared/shared/base64.c:78-92 | With any characters, the accumulator holds the digits of the group as a number to base 64, above them at most a bit that is never written |
| Base64.ValuesPlain | tomato64/package/libshared/shared/base64.c:66-100 | Without a NUL character the digits are the indices of the letters |
| Base64.RoundTrip | tomato64/package/libshared/shared/base64.c:35-100 | Decoding an encoding gives the input, for every byte sequence |
| Base64.Lengths | tomato64/package/libshared/shared/base64.c:102-116 | The encoded length is exactly `base64_encoded_len`; decoding never writes more than `base64_decoded_len` bytes |
| Base64.OnlySignificant | tomato64/package/libshared/shared/base64.c:66-100 | Decoding depends only on the letters of the alphabet and the NUL characters before the first `=` |
| Settings.StrippedAppend | tomato64/package/httpd/httpd/misc.c:136-152 | Stripping works piece by piece |
| Settings.StrippedMeaning | tomato64/package/httpd/httpd/misc.c:136-152 | Stripping drops each carriage return and keeps each other character where it stands |
| Settings.UnixString | tomato64/package/httpd/httpd/misc.c:136-152 | The copying loop strips |
| Settings.LongRead | tomato64/package/httpd/httpd/tomato.c:2502-2506 | Blanks, at most one sign and digits are read as their number, clamped to the range of a long |
| Settings.LongOnly | tomato64/package/httpd/httpd/tomato.c:2502-2506 | Nothing else is read at all |
| Settings.LongBack | tomato64/package/httpd/httpd/tomato.c:2502-2506 | Every printed number is read back, with blanks and a plus sign before it, too; one beyond the range of a long as its nearest end |
| Settings.RangeExact | tomato64/package/httpd/httpd/tomato.c:2502-2506 | A number in a field with a range is accepted if and only if it lies in the range, unless the range reaches to an end of what a long can hold and the number goes beyond it |
| Settings.FormValidExactly | tomato64/package/httpd/httpd/tomato.c:2649-2723 | A form is valid if and only if every posted value has the length, lies in the range or is the address that its field asks for, a new password is posted twice alike, and no rule is longer than 2048 |
| Settings.Store.SetField | tomato64/package/httpd/httpd/tomato.c:2475-2552 | -1 exactly for a posted value that is not valid, and then nothing changes; otherwise the normal form is stored in the write pass only, and 1 tells that a variable that is not temporary changed |
| Settings.Store.SaveFields | tomato64/package/httpd/httpd/tomato.c:2662-2682 | The loop over the table stops at the first bad field and names it; otherwise applies all writes |
| Settings.Store.SavePassword | tomato64/package/httpd/httpd/tomato.c:2690-2702 | The password is stored if both copies agree and are not the placeholder |
| Settings.Store.SaveRules | tomato64/package/httpd/httpd/tomato.c:2704-2720 | The fifty rules, with the length limit |
| Settings.Store.SaveVariables | tomato64/package/httpd/httpd/tomato.c:2649-2723 | The check pass changes nothing and tells whether the form is valid; the write pass on a valid form applies all writes and returns whether it was dirty |
| Settings.Store.Save | tomato64/package/httpd/httpd/tomato.c:2744-2756 | The two passes: an invalid form changes no variable, on a valid one the write pass does not fail and all writes are applied |
| Settings.ApplyMeaning | tomato64/package/httpd/httpd/tomato.c:2539-2547 | Writes to different variables: each one lands and nothing else changes |
| Settings.SavedExactly | tomato64/package/httpd/httpd/tomato.c:2649-2723 | After a save every posted value is stored, a text without its carriage returns, and every variable the form does not set is as before |
| Settings.DirtyExactly | tomato64/package/httpd/httpd/tomato.c:2649-2723 | A save is reported dirty if and only if some variable that is not temporary changed |
| Shell.ShellQuoteArg | tomato64/package/httpd/httpd/log.c:140-175 | The buffer has exactly the computed length and is filled to it; a POSIX shell reads it as the argument |
| Shell.SizeMeaning | tomato64/package/httpd/httpd/log.c:149-155 | The computed length is that of the quoted text with both quotes and the terminator |
| Shell.UnquotedQuoted | tomato64/package/httpd/httpd/log.c:161-171 | Unquoting by section 2.2 of the POSIX Shell Command Language gives the argument, for every argument |

## Left out

- Sockets, files, processes, TLS, the nvram library, logging: only the data they carry is modelled. A stored variable matches a value if it exists and is equal.
- The tree of hosts and the hash table are maps; libc's calendar is not modelled and the keys of days and months are inputs.
- Null pointers, failing allocations and sizes beyond the integer types: the models start from arguments that exist and memory that is there.
- Statistics daemon: the limit on hosts, loading and clamping of history files, and the narrowing of the tick count to an int.
- Quotas: the history branch of the kernel messages, daylight saving shifts, printing, and the signal handler that unlocks whether or not the lock is held.
- Semaphore.Lock: one attempt is a parameter that succeeds or not; the steps inside an attempt are those of the state machine.
- Semaphore.RunGrants: the raw socket of a call can be opened; otherwise the source takes the lock, sends nothing and gives it back.
- Transfer.SendUsage: fewer than 2^32 entries, as the count field of a message has 32 bits.
- History.SaveHistory: the first pass over the counters, whose result is never used, is not modelled; fewer than 2^32 entries.
- History.LoadHistory: entries whose first 49 bytes are not all there, which the source fills with values it never read, are only counted; a counter in the middle of which the file ends is left open; a count of fewer than four bytes is completed with zeros, where the C library leaves it open.
- Usage.LoadUsage: numbers beyond 64 bits are reduced where the C library leaves the result open, and a token of vertical tabs or form feeds counts as no number.
- Usage.UsageRoundTrip: takes it from the C library that a printed address is one token and is parsed back, for IPv4 and IPv6.
- Tokens.SplitOnSeparators: an empty list of separators is excluded, since the source does not terminate on it.
- TimeRange.CanonicalExact: text parsing is left out; empty ranges that come first or last or touch another range are outside the statement, since some of them do harm (`TimeRange.EmptyRangeUnbalances`) and others do not, depending on how many boundaries meet.
- Glob.SettledIsExact: one direction only for patterns with `?`, given by `Glob.AcceptsExact`, since the other depends on how segments overlap with themselves; `Glob.QuestionMisleads` shows that they can fail, too.
- Utf8.HtmlExact: the reader takes plain characters and decimal references; markup and named references, which are never written, are outside it.
- Utf8.EscapedSafe: `isprint` is that of the C locale; the unit count is not limited to an int.
- Hotplug.RunKeepsInvariant: rule flags that override throttling, the exit condition, the musl variant and the cold plug process are left out.
- Cgi.StrReplace: null arguments, which return -1 as well, are not represented.
- Emitter.Page.Emit: names and list members must hold nothing that needs an escape, as the source's own comment assumes; a real is a finite number, without a negative zero.
- Json.ValueRead: the parser rejects escaped surrogates, which the emitter never writes.
- Settings.Store.SetField: the checks of IPv4, MAC and IPv6 addresses are the C library's and come in as predicates; the wireless branches are not part of the modelled build.
- Settings.SavedExactly: the names of the table are distinct and do not include `http_passwd` or the numbered rules.
- Shell.ShellQuoteArg: overflow of the length is left out.
- The rule parser of the hotplug daemon, page templates, status pages, upgrades, the terminal proxy and the wireless code: foreign interfaces or only easy facts.
