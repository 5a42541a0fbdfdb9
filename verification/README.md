# Sakai: a verified model

Sakai reads Linux cgroup v2 interface files. This project models the parts of it whose behaviour is
not evident from one function body, and proves what they promise: the two change-notification
protocols, discovery and opening of a cgroup directory, and the parsers. `dafny verify dfyconfig.toml`
checks everything.

## How the model is organised

**Change notification.** `Notification` holds the inotify watcher: `ConfigurationWatcher.Wait` is the
call, with its reader loop in `ReadBatch`; it is proved equal to the function `WaitBatch`, and
`IsAnswer` says what it returns in every case. `WatcherProtocol` puts that function into a state machine
in which kernel writes, removals and arbitrary further events interleave with a client that registers,
takes a snapshot, waits and reads again. `EventPolling` holds the descriptor that is rewound and read to
acknowledge a notification; `PollerProtocol` interleaves seek, each single read, kernel changes and the
client's reads. The kernel is an environment that chooses freely within these assumptions:

- poll(2) may report anything, at any time;
- read(2) on an inotify descriptor returns whole events from the front of the queue, at least one and
  at most a buffer of them, or EAGAIN when the queue is empty; the reader asks again only when its
  buffer is empty (inotify(7));
- the event of a write is queued, and the notification of a change issued, some time after the write
  or the change;
- an event equal to the unread last one is merged into it; a full queue takes one overflow event and
  drops the rest until it is read; removing or unmounting the inode queues its events and ends the
  watch, but a removal may also be silent;
- a read of an event file from its start stores the current change counter in the descriptor, and the
  descriptor has priority readiness while the two differ.

**Directories.** `Paths` is `std::path` on components, `Lookup` a tree of directories, files and
symbolic links with read and search permissions, on which one `openat2` call and the walk by
components are compared. `Discovery` filters and ranks the mounts and tries them in turn.

**Parsers.** `Text` and `Decimal` are the text and number primitives (digits are read by an explicit
loop with checked multiplication and addition), `Traversal`, `LastWins`, `OrderedMap` and `Keyed` the
shared line and key machinery. `IdList`, `PageSize`, `Partition`, `Encodings`, `CpuMax`, `CpuStat`,
`EagerStat` with `MemoryStat` and `NumaStat`, `DeviceMaps`, `IoWeight`, `Rdma` and `CgroupStat` are
one file format each. Nearly every parser has a lemma named `…Exact`: it accepts a text with a result
if and only if the text spells that result. For values and lists, spelling is defined without the
parser; for whole keyed files it is the last value of each key, read by the value parsers, whose own
lemmas say what they accept.

**Release tools.** `Retry` holds the two retry loops, over an arbitrary sequence of outcomes.

A parse error keeps its kind, field and offending value, and the lemmas named `…Errors` say which one a
rejected text gives.

## Where the code does not do what one might expect

Each of these five is a theorem with the exact condition, and has inputs for which the property
fails.

- The two ways of opening a directory are meant to be interchangeable. In the tree model, which has no
  limit on the length of a path, they are, except for two permissions: the component walk must be able
  to read every directory on the way, the single call must be able to search a directory whose path
  ends in a dot (`Lookup.BackendsDifferInPermissionsOnly`, `Lookup.BackendsAgreeExactly`, with
  `Lookup.UnreadableDirectorySeparates` and `Lookup.UnsearchableDirectorySeparates`).
- `io.weight` is collected by the text of the key before it is collected by device, so among several
  spellings of one device the greatest text wins and not the last line
  (`IoWeight.LastLineWinsInFiles`, with `IoWeight.LastLineCanLose`). Nested I/O files and RDMA files
  do follow the last line.
- `memory.stat` interprets values that a later line replaces and rejects the file for them; keyed
  lookup would not (`MemoryStat.ReplacedValuesDecide`, with `MemoryStat.ShadowedValueIsRejected`).
- A wait of the event poller whose copy fails has acknowledged the change as soon as one read was
  made, so a client that reads again only after `true` misses it (`PollerProtocol.FailedCopyExact`,
  with `PollerProtocol.FailedCopyLosesAChange`). Reading the contents again makes good for it
  (`PollerProtocol.ReadingRestores`).
- `CgroupController::Other` with the name of a known controller does not survive printing and parsing;
  no file produces one (`CgroupStat.ControllerRoundTrip`).

The documented order matters in both protocols: a snapshot taken before registration can be stale, and
then stays so until the contents change again (`WatcherProtocol.SnapshotBeforeRegisteringGoesStale`,
`PollerProtocol.SnapshotBeforeOpeningGoesStale`).

## Model

| member | source | states |
|---|---|---|
| Notification.ConfigurationWatcher.Wait | sakai/src/cgroup/v2/notification.rs:371-397 | one call, exactly: an error for a removed watcher, an overlong timeout, a failed poll, an invalid or hung-up descriptor, or a failed read, and for nothing else; no notification when the timeout expires or the queue is empty; else one batch off the queue and the union of its recognised flags |
| Notification.ConfigurationWatcher.ReadBatch | sakai/src/cgroup/v2/notification.rs:379-394 | the reader loop takes one batch off the queue and returns the union of its flags; an error never follows an included flag, and leaves the queue alone |
| Notification.ReadinessExact | sakai/src/cgroup/v2/notification.rs:407-424 | exactly when polling fails and with which error, when it says ready, and when it says nothing happened |
| Notification.WaitBatchAnswers | sakai/src/cgroup/v2/notification.rs:371-397 | the transition the protocol uses gives exactly those answers |
| Notification.ChangeNotification.Include | sakai/src/cgroup/v2/notification.rs:301-306 | adds the flags of one event to the three stored ones and removes none |
| Notification.Reader.Next | sakai/src/cgroup/v2/notification.rs:382-392 | the buffered reader goes to the kernel only when its buffer is empty |
| Notification.WaitBatch | sakai/src/cgroup/v2/notification.rs:371-397 | one wait as a transition: it removes a prefix of the queue and returns exactly the union of its flags, or nothing if that is quiet; a failing wait and a removed watcher leave everything alone |
| Notification.UnionConcat | sakai/src/cgroup/v2/notification.rs:270-307 | coalescing is independent of how events are cut into batches |
| WatcherProtocol.WaitTakesBatch | sakai/src/cgroup/v2/notification.rs:371-397 | a wait returns the union of a prefix it removes, nothing if that union is quiet; a failing wait removes nothing; a removed watcher only fails |
| WatcherProtocol.StepKeeps | sakai/src/cgroup/v2/notification.rs:338-397 | every step of kernel or client keeps the protocol invariant; a write and the queueing of its event are separate steps |
| WatcherProtocol.EveryRunKeeps | sakai/src/cgroup/v2/notification.rs:338-397 | the invariant holds in every reachable state, for every queue limit |
| WatcherProtocol.ClientStarts | sakai/src/cgroup/v2/notification.rs:338-348 | registering and reading gives a registered client with a current snapshot |
| WatcherProtocol.WritesAreNoticed | sakai/src/cgroup/v2/notification.rs:353-361 | two writes merge into one event, one wait returns exactly a modification, and one reread makes the client current |
| WatcherProtocol.RemovalIsNoticed | sakai/src/cgroup/v2/notification.rs:362-364 | a reported removal queues its two events and the next wait returns exactly a removal and becomes terminal |
| WatcherProtocol.QueueIsBounded | sakai/src/cgroup/v2/notification.rs:295-299 | in every run the kernel queue holds at most its limit and one overflow event |
| WatcherProtocol.QuietMeansCurrent | sakai/src/cgroup/v2/notification.rs:353-365 | while the file exists, a client that was registered when it took its snapshot holds current contents whenever no event is due, the queue is empty and no reread is owed |
| WatcherProtocol.SnapshotBeforeRegisteringGoesStale | sakai/src/cgroup/v2/notification.rs:338-348 | with the opposite order a write is missed, and no further wait, whatever poll and read answer, tells the client |
| WatcherProtocol.NothingMoreIsTold | sakai/src/cgroup/v2/notification.rs:353-365 | with nothing due and nothing queued, any number of waits brings no notification and changes nothing the client knows |
| WatcherProtocol.FlagsAreConserved | sakai/src/cgroup/v2/notification.rs:376-396 | over every run events are consumed in order, once each, and the flags returned are the union of those events' flags |
| WatcherProtocol.RemovalIsReported | sakai/src/cgroup/v2/notification.rs:288-299 | a removal the kernel announced has been returned, or an overflow has, once the queue is empty |
| WatcherProtocol.RemovalIsTerminal | sakai/src/cgroup/v2/notification.rs:371-395 | the removal notice is returned at most once and every later wait is a broken pipe that takes nothing from the queue |
| WatcherProtocol.RemovedStaysRemoved | sakai/src/cgroup/v2/notification.rs:371-375 | a removed watcher consumes nothing on any continuation |
| WatcherProtocol.TurnTakesSome | sakai/src/cgroup/v2/notification.rs:359-361 | one wait and reread makes the client current and the queue shorter |
| WatcherProtocol.DrainingCatchesUp | sakai/src/cgroup/v2/notification.rs:359-361 | as many turns as queued events empty the queue, whatever batch sizes the kernel chooses |
| EventPolling.EventPoller.Acknowledge | sakai/src/cgroup/v2/notification.rs:259-263 | it is a seek and reads up to the first failure or the end; exactly the notifications issued before the first read are acknowledged once that read is made, even if a later read fails; a failure before it acknowledges none |
| EventPolling.AcknowledgementExact | sakai/src/cgroup/v2/notification.rs:259-263 | the acknowledged counter, position and number of calls after every sequence of outcomes of seek and reads |
| EventPolling.EventPoller.Open | sakai/src/cgroup/v2/notification.rs:223-230 | a new poller has acknowledged everything before its first read; a failing acknowledgement is reported and has acknowledged as much as it read, a failing open nothing |
| EventPolling.EventPoller.Wait | sakai/src/cgroup/v2/notification.rs:249-257 | false exactly if the timeout fits and expired or poll reported nothing that matters; not ready, its errors are exactly those of polling and the descriptor is left alone; ready, it says true only after acknowledging to the end, and when it fails what was pending is acknowledged as soon as the first read was made |
| EventPolling.ReadAt | sakai/src/cgroup/v2/notification.rs:260-261 | a read at the start takes stock of the counter, any other read does not; zero bytes mean the end |
| PollerProtocol.StepKeeps | sakai/src/cgroup/v2/notification.rs:223-263 | every step, seek and reads apart, keeps the poller invariant, except a failing read of a wait that has already read |
| PollerProtocol.ChangesAreAnnounced | sakai/src/cgroup/v2/notification.rs:223-263 | in every run in which no wait fails after its first read, for a snapshot taken with the poller open: a notification is due or pending, the wait in progress will say true, a reread is owed, or the snapshot is current |
| PollerProtocol.ReadingRestores | sakai/src/cgroup/v2/notification.rs:240-241 | after any run, however many waits failed, a read of the contents restores that guarantee |
| PollerProtocol.FailedCopyExact | sakai/src/cgroup/v2/notification.rs:249-263 | when a woken wait fails in its copy, the change stays announced if and only if not one read was made before the failure |
| PollerProtocol.FailedCopyLosesAChange | sakai/src/cgroup/v2/notification.rs:249-263 | from any up-to-date idle state, a wait that fails after one read leaves the client stale until the contents change again |
| PollerProtocol.NothingMoreIsTold | sakai/src/cgroup/v2/notification.rs:249-257 | an idle client with nothing announced to it is told nothing on any continuation without a change |
| PollerProtocol.AcknowledgementIsARun | sakai/src/cgroup/v2/notification.rs:259-263 | whatever system calls an acknowledgement makes, its effect on the descriptor is that of a run of seek, read and kernel steps of the protocol |
| PollerProtocol.SnapshotBeforeOpeningGoesStale | sakai/src/cgroup/v2/notification.rs:204-208 | a snapshot taken before opening can be stale with nothing pending, and stays so on every continuation without a change |
| PollerProtocol.OneRoundCatchesUp | sakai/src/cgroup/v2/notification.rs:249-263 | once changes stop, one wait and reread make the client current and leave nothing pending |
| Paths.ComponentsExact | sakai/src/cgroup/v2/handle.rs:153-155 | the component check accepts exactly the relative paths without a parent component |
| Paths.AbsoluteExact | sakai/src/cgroup/v2/path.rs:51-61 | an absolute path is the root and then its pieces without the dots |
| Paths.JoinPaths | sakai/src/cgroup/v2/path.rs:61-61 | joining appends, except that an absolute right side replaces and a leading dot disappears |
| Lookup.ResolveExact | sakai/src/cgroup/v2/handle.rs:160-166 | one path resolution opens a directory exactly when the way to it can be searched and the end read, and it opens the place the names denote |
| Lookup.OpenOnceExact | sakai/src/cgroup/v2/handle.rs:160-167 | when the single call succeeds, and on what |
| Lookup.OpenComponentsExact | sakai/src/cgroup/v2/handle.rs:173-178 | when the component walk succeeds, and on what |
| Lookup.OpenDirectoryExact | sakai/src/cgroup/v2/handle.rs:152-178 | the operation succeeds exactly for relative paths without a parent component whose directory can be opened, the empty path included, and opens the directory the names denote |
| Lookup.OpenTreeExact | sakai/src/cgroup/v2/handle.rs:152-178 | on a tree without permission obstacles it succeeds exactly if the names denote a directory |
| Lookup.BackendsDifferInPermissionsOnly | sakai/src/cgroup/v2/handle.rs:152-178 | on every tree and accepted path the two open the same directory, up to exactly two permissions |
| Lookup.BackendsAgreeExactly | sakai/src/cgroup/v2/handle.rs:152-178 | the two succeed on the same directories if and only if, where base and way can be searched and the end read, both of the two further permissions hold or neither does |
| Lookup.BackendsAgree | sakai/src/cgroup/v2/handle.rs:152-178 | where permissions are no obstacle they agree on every path, and the result is a directory of the tree at or below the base |
| Lookup.TraversalIsRejected | sakai/src/cgroup/v2/handle.rs:153-155 | absolute paths and parent components are invalid input, and the kernel is never asked to climb |
| Lookup.SymlinksAreNeverFollowed | sakai/src/cgroup/v2/handle.rs:114-115 | a symbolic link anywhere on the path makes both ways fail |
| Lookup.UnreadableDirectorySeparates | sakai/src/cgroup/v2/handle.rs:173-178 | an unreadable directory on the way is a tree on which the two ways differ |
| Lookup.UnsearchableDirectorySeparates | sakai/src/cgroup/v2/handle.rs:160-167 | so is a readable directory that cannot be searched, at a path that ends in a dot |
| Discovery.FindUnified | sakai/src/cgroup/v2/path.rs:40-45 | the membership is the first of hierarchy zero without controllers, and is found exactly if there is one |
| Discovery.Cgroup | sakai/src/cgroup/v2/path.rs:40-51 | the membership is deleted exactly if its path ends in ` (deleted)`, and is reported without that ending; else its components are used |
| Discovery.SortIsStable | sakai/src/cgroup/v2/path.rs:67-67 | ranking permutes the matches, deepest root first, equal depths in their old order |
| Discovery.StableSortIsUnique | sakai/src/cgroup/v2/path.rs:67-67 | any stable sort by depth gives the same list |
| Discovery.CandidateDenotesTheCgroup | sakai/src/cgroup/v2/path.rs:59-64 | mount root followed by some part is the membership path, and the candidate is the mount point followed by that part |
| Discovery.CandidatesAreTheMatchingMounts | sakai/src/cgroup/v2/path.rs:52-71 | the candidates come from exactly the cgroup2 mounts whose root is a prefix, and there is none only if no mount matches |
| Discovery.RankedInFileOrder | sakai/src/cgroup/v2/path.rs:52-67 | among mounts with equally long roots the candidates are exactly the matching mounts in the order of the file |
| Discovery.CandidatesExact | sakai/src/cgroup/v2/path.rs:68-71 | the list is that of the ranked matches, or an error exactly if no cgroup2 mount shows the cgroup |
| Discovery.OfProcessIsDeepest | sakai/src/cgroup/v2/path.rs:31-35 | the current path comes from the first mount in the file among those with the longest matching root |
| Discovery.RootsAreNested | sakai/src/cgroup/v2/path.rs:58-67 | each later root is a prefix of each earlier one, so equal depth means equal root |
| Discovery.OpenCandidates | sakai/src/cgroup/v2/handle.rs:98-112 | candidates are tried in order, none after a success; the first error is the one returned |
| Discovery.FromPid | sakai/src/cgroup/v2/handle.rs:83-96 | the result is the first success in ranked order, or the first candidate's error; invalid IDs, deleted and missing memberships have their own errors |
| Discovery.DeepestIsTried | sakai/src/cgroup/v2/handle.rs:81-82 | every mount with a longer root than the one opened was tried before and failed |
| Decimal.ParseUnsignedExact | sakai/src/parse/mod.rs:164-168 | the checked digit loop accepts exactly the numerals whose unbounded value fits |
| Decimal.ParseI32Exact | sakai/src/cgroup/v2/cpu/stat.rs:231-232 | the signed type accepts what the unsigned one does up to 2^31 - 1, and down to -2^31 |
| Decimal.ParsePrint | sakai/src/parse/mod.rs:164-168 | printing and parsing is the identity on each integer type |
| IdList.ParseRangeExact | sakai/src/cgroup/v2/cpuset/list.rs:18-35 | a part is accepted exactly when it spells a 32-bit range, leading zeros of any length included |
| IdList.ParseExact | sakai/src/cgroup/v2/cpuset/list.rs:12-42 | a list is accepted exactly when its trimmed text is ranges, however spelled, with commas between them that ascend without overlap; none is merged |
| IdList.FirstBadPart | sakai/src/cgroup/v2/cpuset/list.rs:17-36 | the error names the first part that is not a range |
| IdList.OverlapIsReported | sakai/src/cgroup/v2/cpuset/list.rs:38-41 | ranges that overlap or descend are reported as the whole trimmed list |
| IdList.ParsePrintList | sakai/src/cgroup/v2/cpuset/list.rs:12-42 | every valid list survives printing and parsing |
| IdList.ReprintIsStable | sakai/src/cgroup/v2/cpuset/list.rs:12-42 | parsing, printing and parsing again any accepted text changes nothing |
| IdList.IdsAreTheRanges | sakai/src/cgroup/v2/cpuset/list.rs:67-76 | the expanded sequence ascends strictly, is as long as the sum of widths, and holds exactly the members |
| IdList.MembershipIsTextual | sakai/src/cgroup/v2/cpuset/list.rs:76-76 | an ID is a member exactly when some part of the text spells a range around it |
| IdList.CollectExpands | sakai/src/cgroup/v2/cpuset/list.rs:72-72 | the 32-bit range iterator yields the whole range and ends, also at the largest ID |
| IdList.FlattenIsIds | sakai/src/cgroup/v2/cpuset/list.rs:72-72 | stepping through all ranges in turn yields the expanded sequence |
| PageSize.PageSizesArePowers | sakai/src/cgroup/v2/hugetlb.rs:41-45 | the page sizes are exactly 2^10 to 2^63 |
| PageSize.LabelDivisionIsExact | sakai/src/cgroup/v2/hugetlb.rs:58-68 | the division shown in a label leaves no remainder |
| PageSize.ParseLabel | sakai/src/cgroup/v2/hugetlb.rs:56-92 | every page size is parsed back from its label; the checked product does not fail |
| PageSize.ParseExact | sakai/src/cgroup/v2/hugetlb.rs:74-91 | only canonical labels of page sizes are accepted |
| PageSize.LabelExact | sakai/src/cgroup/v2/hugetlb.rs:56-69 | the label of 2^e is 2^(e-10) KB below 2^20, 2^(e-20) MB below 2^30, and 2^(e-30) GB from there |
| PageSize.ParseCases | sakai/src/cgroup/v2/hugetlb.rs:74-91 | the accepted texts are those labels and nothing else, each with its size |
| PageSize.FileNameIsInjective | sakai/src/cgroup/v2/hugetlb.rs:53-53 | a file name determines size and interface |
| Partition.ParsePrint | sakai/src/cgroup/v2/cpuset/partition.rs:80-103 | every state survives its kernel text, with any visible one-line reason, parentheses and separator included |
| Partition.ParseExact | sakai/src/cgroup/v2/cpuset/partition.rs:80-103 | a text is accepted exactly when, trimmed, it is the kernel text of a reportable state |
| Partition.ParseErrors | sakai/src/cgroup/v2/cpuset/partition.rs:82-101 | blank text is a missing state, anything else refused is reported trimmed |
| Partition.GettersDetermine | sakai/src/cgroup/v2/cpuset/partition.rs:46-74 | state, validity and reason together determine the value |
| Encodings.ParseMicrosecondsExact | sakai/src/parse/mod.rs:216-226 | accepted are the numbers up to floor((2^64 - 1) / 1000), as nanoseconds |
| Encodings.BandwidthCountRoundTrip | sakai/src/cgroup/v2/cpu/stat.rs:225-238 | all 2^32 counter values survive being printed as signed decimals |
| Encodings.BandwidthCountExact | sakai/src/cgroup/v2/cpu/stat.rs:230-237 | accepted are unsigned 64-bit tokens and negative ones within 32 bits |
| CpuMax.ParseExact | sakai/src/cgroup/v2/cpu/max.rs:72-79 | exactly two tokens, each a duration between 1 and the bound, the first possibly `max` |
| CpuMax.ParseLimit | sakai/src/cgroup/v2/cpu/max.rs:72-79 | the token cursor, field by field, gives the same value and the same first error |
| CpuMax.CpuCountIsTokenQuotient | sakai/src/cgroup/v2/cpu/max.rs:55-66 | the CPU count is the rational quotient of the two tokens as written |
| CpuMax.ParsePrintLimit | sakai/src/cgroup/v2/cpu/max.rs:72-79 | a limit written in microseconds and parsed is the same limit |
| Keyed.Parser.NextRawField | sakai/src/parse/mod.rs:110-112 | takes the next token, or reports the named field missing |
| Keyed.Parser.Finish | sakai/src/parse/mod.rs:122-127 | fails exactly when a token is left |
| Keyed.ParseKeyValue | sakai/src/parse/mod.rs:32-35 | a line is its two tokens, or the first missing one, or an excess |
| Keyed.EntriesExact | sakai/src/parse/mod.rs:28-38 | a file is accepted exactly when each visible line has two tokens |
| Keyed.KeyIsNeverMissing | sakai/src/parse/mod.rs:31-35 | the missing-key error cannot arise, because a visible line has a token |
| Keyed.FileErrors | sakai/src/parse/mod.rs:28-38 | a file is rejected for its first visible line without two tokens: a missing value or an excess |
| Text.VisibleLinesExact | sakai/src/parse/mod.rs:31-31 | the lines looked at are those that do not trim to nothing, in order |
| Text.LinesExact | sakai/src/parse/mod.rs:31-31 | the three forms of text determine its lines, with either line ending |
| Text.TokensExact | sakai/src/parse/mod.rs:107-107 | the three forms of a line determine its tokens |
| Text.TrimExact | sakai/src/cgroup/v2/cpuset/list.rs:13-13 | what is trimmed away on either side is blank |
| Keyed.InsertedLine | sakai/src/parse/mod.rs:28-38 | a further well-formed line affects no other key and no earlier error |
| Keyed.PrintedEntriesParse | sakai/src/parse/mod.rs:28-38 | any list of keys and values is read back as written |
| LastWins.CollectIsLastValue | sakai/src/parse/mod.rs:19-25 | the collected map is last-line-wins lookup |
| LastWins.OrderDoesNotMatter | sakai/src/parse/mod.rs:19-25 | without conflicting lines order is irrelevant |
| CpuStat.ParseExact | sakai/src/cgroup/v2/cpu/stat.rs:122-255 | exact success: base times valid, bandwidth complete when any of five keys appears, burst when either of two does; replaced values are never read |
| CpuStat.ParseErrors | sakai/src/cgroup/v2/cpu/stat.rs:122-255 | the error is that of the first field, in the order they are looked at, that is missing or cannot be read |
| CpuStat.OneTokenLine | sakai/src/cgroup/v2/cpu/stat.rs:293-296 | a line with a key alone lacks that field if the key is known, else a value |
| CpuStat.ReorderingIsHarmless | sakai/src/cgroup/v2/cpu/stat.rs:243-254 | reordering lines without conflicting keys leaves the snapshot unchanged |
| CpuStat.UnknownKeyIsIgnored | sakai/src/cgroup/v2/cpu/stat.rs:293-300 | an unknown two-token line, anywhere, changes neither value nor error |
| MemoryFields.UnitsAreDisjoint | sakai/src/cgroup/v2/memory/stat.rs:49-55 | no field name belongs to two units |
| EagerStat.FoldExact | sakai/src/cgroup/v2/memory/stat.rs:48-71 | the fold succeeds exactly when every line of a known field can be interpreted, and then holds each field's last value |
| EagerStat.FromLinesExact | sakai/src/cgroup/v2/memory/stat.rs:63-75 | the same for the whole file, with both baseline fields required |
| EagerStat.FoldErrors | sakai/src/cgroup/v2/memory/stat.rs:63-71 | the fold fails for the first line that cannot be split or interpreted |
| EagerStat.BaselineErrors | sakai/src/cgroup/v2/memory/stat.rs:217-226 | when every line is fine the missing baseline field is reported, `anon` first |
| MemoryStat.MemoryStat.Insert | sakai/src/cgroup/v2/memory/stat.rs:48-57 | updates the map of the field's unit, ignores unknown fields, and changes nothing on an error |
| MemoryStat.MemoryStat.RequireBaseline | sakai/src/cgroup/v2/memory/stat.rs:217-226 | the first missing baseline field is reported |
| MemoryStat.MemoryStat.FromStr | sakai/src/cgroup/v2/memory/stat.rs:63-75 | the loop computes the fold, value and error |
| MemoryStat.EagerRefinesLazy | sakai/src/cgroup/v2/memory/stat.rs:48-75 | a field is stored in a unit's map exactly when keyed lookup reads it in that unit, with the same number |
| MemoryStat.ParseAccepts | sakai/src/cgroup/v2/memory/stat.rs:63-75 | exactly which files are accepted |
| MemoryStat.LineErrors | sakai/src/cgroup/v2/memory/stat.rs:48-70 | what is wrong with a line: a missing value, an excess, or a known field that is not a number |
| MemoryStat.ReplacedValuesDecide | sakai/src/cgroup/v2/memory/stat.rs:63-75 | a file is accepted exactly when keyed lookup can read it and every replaced value of a known field is a number too |
| MemoryStat.ShadowedValueIsRejected | sakai/src/cgroup/v2/memory/stat.rs:48-75 | for every malformed word there is a file that keyed lookup reads and this fold rejects for a value it replaces |
| NumaStat.NumaStat.Insert | sakai/src/cgroup/v2/memory/numa_stat.rs:79-88 | replaces the node map of a known field, and changes nothing on an error |
| NumaStat.NumaStat.FromStr | sakai/src/cgroup/v2/memory/numa_stat.rs:94-105 | the loop computes the fold, value and error |
| NumaStat.ParseNodesExact | sakai/src/cgroup/v2/memory/numa_stat.rs:54-77 | a line has at least one token and every token is a node and a value; for a repeated node the later value counts |
| NumaStat.ParseNodeErrors | sakai/src/cgroup/v2/memory/numa_stat.rs:66-75 | a malformed node is reported with the whole token, a malformed value as one of the field |
| NumaStat.LineErrors | sakai/src/cgroup/v2/memory/numa_stat.rs:61-88 | what is wrong with a line of a known field: no node, or its first bad token |
| NumaStat.RepeatedFieldReplaces | sakai/src/cgroup/v2/memory/numa_stat.rs:79-105 | a repeated field's node map is replaced whole, not merged |
| DeviceMaps.ParseDeviceExact | sakai/src/cgroup/v2/io/mod.rs:140-146 | a device is two 32-bit numbers around the first colon |
| DeviceMaps.ParsePrintDevice | sakai/src/cgroup/v2/io/mod.rs:140-146 | every device is read back from its kernel form |
| DeviceMaps.ParseLinesExact | sakai/src/cgroup/v2/io/mod.rs:149-172 | a file is accepted exactly when each visible line describes a device, which gets the record of the last line naming it, in whatever spelling |
| DeviceMaps.LineErrors | sakai/src/cgroup/v2/io/mod.rs:153-169 | what is wrong with a line, in order: the device, no field, a field without an equals sign, the record |
| DeviceMaps.FieldErrors | sakai/src/cgroup/v2/io/mod.rs:160-168 | the fields of a line fail for the first token without an equals sign |
| DeviceMaps.DeviceIsNeverMissing | sakai/src/cgroup/v2/io/mod.rs:153-157 | the missing-device error cannot arise either |
| DeviceMaps.PrintedListingsParse | sakai/src/cgroup/v2/io/mod.rs:149-172 | any list of devices and fields is read back as the map from device to its last record |
| OrderedMap.OrderedIsLastValue | sakai/src/parse/mod.rs:44-46 | iterating the text-keyed map yields each key's last value in ascending order of keys |
| OrderedMap.LeastErrorWins | sakai/src/parse/mod.rs:44-53 | reading a text-keyed map fails for the least key that cannot be read, wherever its line stands |
| IoWeight.ParseWeightExact | sakai/src/cgroup/v2/io/weight.rs:74-80 | a weight is a number from 1 to 10000 |
| IoWeight.OverridesAccept | sakai/src/cgroup/v2/io/weight.rs:58-66 | accepted exactly when each key but `default` is a device and its last value a weight |
| IoWeight.GreatestSpellingWins | sakai/src/cgroup/v2/io/weight.rs:58-66 | a device's weight is the last value of the greatest text that names it |
| IoWeight.ParseExact | sakai/src/cgroup/v2/io/weight.rs:58-67 | exactly which files give which default and overrides |
| IoWeight.ParseErrors | sakai/src/cgroup/v2/io/weight.rs:58-66 | the order of errors: a line without two tokens, the default, the overrides |
| IoWeight.OverrideErrors | sakai/src/cgroup/v2/io/weight.rs:60-65 | the overrides fail for the least bad key, for its device before its weight |
| IoWeight.LastLineWinsExactly | sakai/src/cgroup/v2/io/weight.rs:58-66 | for all weights the last line naming a device decides, if and only if no other line spells the device with a greater text |
| IoWeight.LastLineWinsInFiles | sakai/src/cgroup/v2/io/weight.rs:58-67 | the same for every file with a `default` line and these keys |
| IoWeight.LesserSpellingLoses | sakai/src/cgroup/v2/io/weight.rs:58-66 | with two spellings of one device the greater one is read though the lesser one is on the last line |
| IoWeight.EveryDeviceHasTwoSpellings | sakai/src/cgroup/v2/io/mod.rs:140-146 | a zero in front of the kernel spelling of any device gives a second, lesser one |
| IoWeight.LastLineCanLose | sakai/src/cgroup/v2/io/weight.rs:58-67 | for every device and any weights there is a file whose last line for the device is not the one read |
| IoWeight.OneSpellingIsEnough | sakai/src/cgroup/v2/io/weight.rs:58-66 | with one spelling per device the last line decides |
| Rdma.ParseIndexExact | sakai/src/cgroup/v2/rdma.rs:362-366 | the index is the last `index` field as a 32-bit number, or absent |
| Rdma.ParseDevicesExact | sakai/src/cgroup/v2/rdma.rs:346-370 | accepted exactly when each visible line describes a device; each name and numeric index has the record of its last line |
| Rdma.LineErrors | sakai/src/cgroup/v2/rdma.rs:354-368 | what is wrong with a line, in order: a field without an equals sign, the index, the record |
| CgroupStat.NameRoundTrip | sakai/src/cgroup/v2/core.rs:108-157 | a controller made from a name prints as that name, known or not |
| CgroupStat.ControllerRoundTrip | sakai/src/cgroup/v2/core.rs:108-157 | printing and parsing a controller gives it back unless it is `Other` with a known name |
| CgroupStat.SubsystemsAccept | sakai/src/cgroup/v2/core/state.rs:147-162 | accepted exactly when each prefixed key has a nonempty name and its last value is a count |
| CgroupStat.SubsystemsExact | sakai/src/cgroup/v2/core/state.rs:147-162 | the map has one count for each prefixed key, that of its last line |
| CgroupStat.PrefixesAreDisjoint | sakai/src/cgroup/v2/core/state.rs:173-174 | no key is in both maps |
| CgroupStat.FromEntriesExact | sakai/src/cgroup/v2/core/state.rs:168-176 | exactly which entries give which snapshot |
| CgroupStat.ParseExact | sakai/src/cgroup/v2/core/state.rs:168-176 | exactly which files give which snapshot |
| CgroupStat.FromEntriesErrors | sakai/src/cgroup/v2/core/state.rs:168-176 | the order of errors: the two totals, the live subsystems, the dying ones |
| CgroupStat.SubsystemErrors | sakai/src/cgroup/v2/core/state.rs:147-162 | a subsystem map fails for the least bad key with its prefix |
| Retry.VerifyRegistry | xtask/src/release.rs:276-303 | the loop ends with the verdict of its first decisive or last allowed attempt, after one sleep between attempts, and never runs off its end |
| Retry.SucceedsExactly | xtask/src/release.rs:276-303 | it succeeds exactly when some attempt within the budget does and all before it fail transiently |
| Retry.DownloadKernel | xtask/src/vmtest/kernel.rs:88-109 | every attempt but the last made is retried after the server's delay or the multiplied one; the product's overflow is an error of its own |

## Left out

- System calls, procfs and descriptor ownership: they enter as the environments described above. Errors of procfs itself are not among the discovery errors.
- EventPolling.EventPoller.Acknowledge: does not model the retry after EINTR inside `io::copy`, which only repeats a read.
- Notification.Readiness: does not model timeouts finer than a second, because only their range is checked.
- The wrap-around of the kernel's own event counter, and liveness after a removal the kernel does not report.
- Lookup.BackendsAgree: does not say that both ways return the same error, because the kernel reports a symbolic link differently to each; the tree does not change during a lookup. PATH_MAX is not modelled either: it limits the single call and not the component walk, which separates the two on longer paths.
- The `openat2` call's other errors: only its absence (ENOSYS) switches to the component walk.
- `child`, `children` and the file-system check after opening: they add an easy case or a constant comparison. In discovery the check is part of the outcome of an attempt.
- Discovery.SortByDepth: does not follow the library's sort algorithm on the vector in place; it is one stable sort, and `Discovery.StableSortIsUnique` makes it stand for every other.
- CpuMax.CpuCountIsTokenQuotient: does not model the rounding of `f64`; it is over the reals.
- Other floating point: pressure percentages, ratios and scaling bounds.
- Error message text, the verbatim file kept in an error, and the numeric cause.
- Quantity types: times are nanoseconds and counts are numbers, each with its bound.
- Scalar files, `dmem`, `misc`, `pids`, swap, zswap and pressure readers, and the records inside `io.*` and `rdma.*` lines, which enter as an arbitrary function of the line's fields: they reuse the parsers modelled here.
- The text primitives of the Rust standard library are modelled from their documentation, on Unicode characters instead of UTF-8 bytes; character order and byte order agree.
- HTTP, packaging and virtual machines: an attempt's outcome is a parameter, and so is `Retry-After`, already parsed.
- The Python bindings.
