# A verified model of the simdlogs cluster coordinator

simdlogs is a sharded, replicated log store. This project models what its router and its nodes do where a mistake would be silent: repairing replicas, deciding that a replica has lost data, translating Elasticsearch queries, moving rows over the wire, planning a query across shards and merging the answers, ingesting bulk bodies in place, and the small protocols around tenants, replicated writes, syslog framing and backups. The properties are proved for every input, every run and every interleaving; counterexamples are proved too, with the exact condition under which the code does what its documentation says.

`dafny verify dfyconfig.toml` checks everything.

## The modules

| module | what it models |
|---|---|
| `Basics`, `Sorting`, `Sets` | bytes and machine integers; sorting by a strict total order has one answer; counting ordinals |
| `Repair`, `RepairSafety`, `RepairLost`, `RepairAccounting`, `RepairInStep`, `RepairReport`, `RepairBooks`, `RepairOrder`, `RepairLimits`, `RepairPass` | one bounded anti-entropy pass: the data and the steps; what it never does; what arrives unseen; one shard's books; what a complete pass leaves behind; the report of the whole pass; what each of its numbers counts; which group the visit order sends; where the promises stop; the loops |
| `Watermark`, `HighWatermark` | what a router remembers of each replica's watermark; the compare-and-swap loop that issues it |
| `EsDsl`, `EsDslProof`, `EsDslWindow`, `EsDslPass` | Elasticsearch bodies, the trees and windows they become, and what both mean |
| `RowCodec`, `RowCodecProof`, `RowCodecGrammar`, `RowCodecSyntax`, `RowCodecObjects`, `RowCodecCheck`, `RowCodecPass` | the line a node prints for a row and the row a router reads from a line; the grammar of what it reads |
| `Calendar`, `CalendarParse`, `RowClock` | timestamps against the calendar, in machine integers, and as the row codec uses them |
| `Merge`, `Planner`, `PlannerProof`, `PipeText` | merging shard answers, splitting a pipeline, cutting a query's text |
| `StatsMerge`, `StatsTable` | aggregates and value counts combined from shards |
| `Labels`, `StatsSeries`, `StatsRange`, `StatsNode`, `StatsKinds`, `StatsAcc` | the key of a label set; merging the shards' series; what an answer lists; a cluster's stats range against one node's; what a cell of each kind holds; how a node builds its own |
| `BucketWalk`, `StatsWalk`, `StatsExact` | the range bucket walk; which steps the merge is right for; aggregates computed over merged rows |
| `StatsHits`, `HitsNode` | merging the shards' hits; how a node builds its own |
| `Bulk`, `BulkLines`, `BulkRequests`, `BulkAction`, `BulkClients`, `BulkRejects` | bulk bodies |
| `Tenants`, `TenantsProof`, `TenantsUse`, `TenantsServer` | claims and eviction |
| `Writes`, `WritesCluster` | replicated writes with receipts, on one shard and over the shards of a cluster |
| `Syslog` | both framings of RFC 6587 |
| `Backup` | which replica a shard is copied from, and which manifests may be restored |

A method whose source is a loop is a method with a loop, proved to compute a function; the theorems are about the function. Heap state is used where the source updates an object or overwrites a buffer: `Watermark.ShardHigh`, `EsDslPass.Query`, `TenantsServer.Server`, `Writes.Store`, `Syslog.FrameReader`, and the arrays of `Bulk.BulkDocs` and `BulkRejects.MarkBulkRejects`.

## Where the code and its documentation part

- Repair, the shared-holder exemption. Its comment says a lying replica can only cause more blocking. `RepairLimits.FalseSpansCertify` is a shard where a replica reporting false spans makes the pass copy a group over rows that are there. The exemption changes nothing exactly when every certificate is true (`RepairSafety.ExemptionExactly`), and that, not honesty, is what the safety theorems assume.
- Repair, the guard. An empty digest reads as "no overlap" (`RepairLimits.UnnamedGroupIsCopiedOver`, exactly when in `RepairSafety.GuardExact`). A group that reaches the destination unseen is not in the guard: one it adopted while the answer was lost (`RepairLimits.LostAnswerIsCopiedOver`), or one it declined because it held it and had not reported it (`RepairLimits.TrueDeclineIsCopiedOver`). Either does no harm exactly when the groups the destination may be sent are pairwise disjoint (`RepairLost.UnseenArrivalsExactly`), which every complete pass implies (`RepairInStep.CompleteIsApart`).
- Repair, the report. A node declines a group only when it holds it (`internal/storage/antientropy.go:219-221`), and then a complete report is right; but the router has only its word. A complete report means every replica is in step exactly when no decline was false (`RepairInStep.CompleteIsInStepExactly`); `RepairLimits.FalseDeclineIsComplete` is a complete report over a replica that holds nothing, as the comment at `internal/api/cluster_repair.go:567-571` fears.
- Repair, the bounds. `budget-claimed` wraps in 64 bits; `RepairAccounting.BudgetTestExact` says for which claims the test is right, and `RepairLimits.ClaimPastLimitBreaksBound` is a shard whose pass moves three times the byte budget.
- Watermarks. A URL that moves from a build without generations to one with them carries the old floor (`Watermark.UpgradeCarriesFloor`).
- Planning. When the pushed prefix is cut short by a limit, the coordinator receives the whole pipeline and runs the prefix a second time. `PlannerProof.CutShortExactly` says when that is harmless; `PlannerProof.FormattedTwice` is `format "<n>!" as n`, for which every row is wrong.
- Statistics. "min of mins is the min" does not hold of what shards print: a group without a sample is printed as 0, so a shard that holds the group and no number of it wins every minimum above zero and every maximum below it (`StatsMerge.SamplelessShardWins`; exactly when in `StatsMerge.MergeIsWholeExactly`).
- Statistics. Points are stamped in whole seconds, and the router folds points by stamp, so below a step of one second it adds up the buckets of a second (`StatsNode.SecondsAreAddedUp`). From a second on its answer is the node's over every window (`StatsWalk.WalkIsNodeExactly`); for every step below there is a count it never answers as a node does (`StatsWalk.SubsecondIsNeverNode`).
- Statistics. A NUL in a label lets two label sets share a key (`Labels.LabelKeyInjectiveExactly`).
- Ranges. Rows of a window below the lowest multiple of the step in 64 bits are in no bucket (`BucketWalk.RequestedRowsCoveredExactly`).
- Rows. "What a shard encoded is what comes back" holds for every row with a timestamp; for a row without one it holds exactly for `RowCodecProof.Survives` (`RowCodecProof.LaterTimeIsMoved` is a row it fails for).
- Writes. A handler may store part of a request and answer an error (`internal/api/protocols.go:157-186`), and the retry stores that part again (`Writes.EachConditionIsNeeded`; exactly when in `Writes.StaysSingleExactly`).
- Writes. A retry after the number of shards changed meets the receipts of the first attempt exactly when the id still hashes to the same shard; otherwise a second shard stores the rows (`WritesCluster.RetryAfterResizeExactly`).
- Syslog. The maximum is measured without the terminator for a line that fits the read buffer and with it for a longer one, so at the maximum the buffer's size decides (`Syslog.BufferDecidesExactly`, `Syslog.EdgeLine`).
- Backups. The spread of watermarks wraps from 2^63 on (`Backup.Spread`).
- Elasticsearch. A document at or past 2^62 ns is outside even `match_all` (`EsDslProof.FaithfulExactlyBelowNoEnd`).

## What the theorems assume

- Repair safety: digests are not empty and no certificate is false (`RepairSafety.Trusted`; the second follows where a digest determines its span, `RepairSafety.HonestCertifies`), and for the statements about the final state of a destination either the groups it may be sent are pairwise disjoint or none of its answers is lost and none truly says that a group was already held. `RepairLimits` shows a shard for each. What a complete pass leaves behind needs, besides the first two, spans that do not end before they start; that it leaves every replica with the union, if no decline was false, needs nothing. A source for every missing group needs distinct, non-empty replica URLs. The accounting and the convergence of a pass assume nothing.
- Watermarks: reports are seen in the order the process issued them, and each names its generation.
- Rows: instants are printed and read as `RowClock.Clocked` says, and the general parser reads what is printed (`RowClock.ClockedIsFaithful`).
- Planning: pushed pipes keep a row's time and one-to-one pipes are (`Planner.Honest`), and rows have distinct times; `Merge.NewestOfNewest` and `Merge.ArrivalOrderIrrelevant` do without the last.
- Statistics: rows are disjoint over the shards, label sets are free of NUL (a hits request needs not even that), the stats pipe's first output has a name of its own, steps are a second or more, and no limit on the number of hit series is set (each shard would fold its own tail, `internal/api/server.go:1734-1737`).
- Writes: `Writes.NoRowTwice` alone needs attempts that do not overlap, handlers that store all or nothing, recorded receipts and no crash between rows and receipt; `Writes.EachConditionIsNeeded` drops each.
- Syslog: each frame with its terminator fits the maximum, and the end of a stream is reported by a read of its own.

## Model

| member | source | states |
|---|---|---|
| RepairPass.RepairCluster | internal/api/cluster_repair.go:280-590 | the nested loops over shards, replicas and digests compute one pass: one budget, one copy count, one report, one entry per group considered |
| RepairPass.RepairShard | internal/api/cluster_repair.go:336-590 | the pass over one shard, whatever order maps are iterated in |
| RepairPass.RepairDestination | internal/api/cluster_repair.go:438-590 | the loop over the sorted union for one destination, growing the spans it is guarded by |
| RepairSafety.JudgedExactly | internal/api/cluster_repair.go:517-590 | a missing group is blocked if and only if an uncertified span meets it; otherwise it is left if and only if 64 groups were copied, nothing is left of the budget, its claim exceeds what is, or no other reachable replica holds it; otherwise it is what became of the transfer |
| RepairPass.CollectUnion | internal/api/cluster_repair.go:361-388 | the union keeps the widest span any reachable holder reports |
| RepairPass.CollectHolders | internal/api/cluster_repair.go:389-430 | only replicas whose own inventory does not overlap are listed as holders |
| RepairPass.SortedDigests | internal/api/cluster_repair.go:463-486 | the visit order is the sorted order, which is the order of the union's spans (`RepairOrder.OrderIsTimeOrder`) |
| RepairOrder.OrderIsTimeOrder | internal/api/cluster_repair.go:463-486 | of two digests visited one after the other the first one's span in the union starts no later, on equal starts ends no later, and on equal spans its digest is the smaller |
| RepairOrder.EarlierIsJudgedFirst | internal/api/cluster_repair.go:463-490 | of two groups missing at a destination the one whose span starts first, then the narrower, then the smaller digest, is judged first |
| RepairOrder.BlockedExactly | internal/api/cluster_repair.go:517-590 | a missing group that is clear of what its destination reported is blocked if and only if it meets a group copied to it earlier in the pass |
| RepairOrder.EarlierIsSent | internal/api/cluster_repair.go:463-590 | of two groups that meet, both missing and clear of the destination, the earlier and then narrower is judged first; if it is copied the other is blocked, and if it is blocked itself that is by a still earlier copy it meets |
| RepairSafety.UnionIsWidest | internal/api/cluster_repair.go:361-388 | the union's span of a digest starts where the earliest report of it does and ends where the latest does, each attained by some reachable replica |
| RepairSafety.FoldSize | internal/api/cluster_repair.go:361-388 | the size claimed for a digest is that of the last report of it |
| RepairSafety.OverlapsExactly | internal/api/cluster_repair.go:813-850 | two spans overlap if and only if they share an instant |
| Repair.OrderMembers | internal/api/cluster_repair.go:463-486 | every digest of the union is visited exactly once |
| Repair.OrderCanonical | internal/api/cluster_repair.go:463-486 | any duplicate-free listing of the union sorts to the same order |
| RepairSafety.GuardExact | internal/api/cluster_repair.go:813-830 | the guard answers non-empty for every overlapping group exactly when the first group covering each instant carries a digest |
| RepairSafety.GuardSees | internal/api/cluster_repair.go:851-900 | a named overlapping group that no common holder certifies is always seen |
| RepairSafety.HonestCertifies | internal/api/cluster_repair.go:851-925 | where a digest determines its span every certificate is true: two digests with a common certifying holder have disjoint widened spans |
| RepairSafety.ExemptionExactly | internal/api/cluster_repair.go:851-925 | the guard with the exemption answers as the guard without it, for every list of union members and every digest, if and only if every certified pair has disjoint widened spans |
| RepairSafety.ReceivedAreDisjoint | internal/api/cluster_repair.go:438-590 | every group a destination is sent in a pass is disjoint from everything it reported and every acknowledged copy before it, for any network, lost answers and declines included |
| RepairSafety.StaysNonOverlapping | internal/api/cluster_repair.go:438-590 | a replica without overlaps has none after the pass, the groups it truly declined included: under every network if the groups it misses that are clear of its own are pairwise disjoint, and otherwise if none of its answers is lost and none truly says already held |
| RepairLost.UnseenArrivalsExactly | internal/api/cluster_repair.go:556-590 | under every network that loses answers, under every network that truly declines, and under every network at all, a replica without overlaps has none after the pass if and only if the groups it misses that are clear of its own are pairwise disjoint, the bounds leaving room for each and each having a source |
| RepairSafety.NoRowTwice | internal/api/cluster_repair.go:438-590 | under the same conditions no instant is covered by two groups of the destination after the pass, the groups it truly declined included |
| RepairSafety.MissingGroupHasSource | internal/api/cluster_repair.go:604-616 | a missing group always has a source other than the destination, so no work is left for want of one |
| RepairAccounting.EveryMissingPairBookedOnce | internal/api/cluster_repair.go:438-590 | for one destination, each missing digest is logged once and counted under exactly one outcome |
| RepairReport.EveryPairReported | internal/api/cluster_repair.go:280-600 | the outcomes of the report of the whole pass add up to the (replica, digest) pairs missing in the whole cluster, and its copies and declines are those of the logs |
| RepairBooks.EveryHeadingReported | internal/api/cluster_repair.go:405-595 | under every heading of the report stands the total over all shards and replicas: copies, bytes that moved, blocked, left, declined and failed groups each under their own, and the replicas that answered and overlap themselves |
| RepairBooks.BudgetIsRest | internal/api/cluster_repair.go:585-590 | what is left of the byte budget after a pass is the budget less the bytes reported |
| RepairReport.CompleteExactly | internal/api/cluster_repair.go:333-600 | the report says complete if and only if in every shard every replica answered, none overlaps itself, and each held, received or declined every group of the union |
| RepairInStep.CompleteHoldsExactly | internal/api/cluster_repair.go:556-600 | after a complete pass over a shard every replica holds the whole union if and only if no decline was false, whatever the inventories and the network |
| RepairInStep.CompleteIsApart | internal/api/cluster_repair.go:500-530 | a complete pass is one over pairwise disjoint groups: where two meet, some replica that reports one blocks the other |
| RepairInStep.CompleteIsInStepExactly | internal/api/cluster_repair.go:556-600 | after a complete pass over a shard every replica is in step, without overlaps, if and only if no decline was false |
| RepairAccounting.UnionKept | internal/api/cluster_repair.go:361-388 | repair does not change what the shard should hold, whatever the network does |
| RepairReport.PassConverges | internal/api/cluster_repair.go:280-600 | for every network a pass lowers the number of pairs missing in the cluster by exactly the copies it reports, the groups adopted without an acknowledgement and those declined because they were there |
| RepairReport.CompleteLeavesInStepExactly | internal/api/cluster_repair.go:333-600 | after a complete report every replica of every shard is in step if and only if no decline was false |
| RepairReport.IdleExactly | internal/api/cluster_repair.go:333-600 | a pass reports nothing and is complete if and only if every shard is in step, whatever the network would do |
| RepairReport.RepeatIsIdleExactly | internal/api/cluster_repair.go:333-600 | a pass repeated after a complete report reports nothing and is complete if and only if no decline of the first was false |
| RepairAccounting.BudgetTestExact | internal/api/cluster_repair.go:536-545 | the 64-bit budget test agrees with true arithmetic exactly for claims that do not pass the wrap |
| RepairAccounting.PassIsBounded | internal/api/cluster_repair.go:55-76 | over all shards one pass copies at most 64 groups, and at most twice the byte budget for claims that cannot wrap |
| RepairLimits.UnnamedGroupIsCopiedOver | internal/api/cluster_repair.go:813-830 | a concrete shard where an unnamed group is copied over |
| RepairLimits.LostAnswerIsCopiedOver | internal/api/cluster_repair.go:556-590 | a concrete shard where a lost acknowledgement leads to overlapping groups |
| RepairLimits.TrueDeclineIsCopiedOver | internal/api/cluster_repair.go:556-590 | a concrete shard where a group truly declined leads to overlapping groups, the destination's part of the report being complete and blocking nothing |
| RepairLimits.FalseDeclineIsComplete | internal/api/cluster_repair.go:566-575 | a concrete shard whose whole report is complete although a replica holds nothing |
| RepairLimits.FalseSpansCertify | internal/api/cluster_repair.go:389-430 | a concrete shard where false spans certify an overlapping pair |
| RepairLimits.ClaimPastLimitBreaksBound | internal/api/cluster_repair.go:536-545 | a shard, every transfer within the ceiling, whose pass moves three times the byte budget because one claim past the limit wraps |
| Watermark.ShardHigh.Observe | internal/api/cluster.go:1232-1329 | the marks and the verdict after a report are those the runs below are about |
| Watermark.HeldIsLatest | internal/api/cluster.go:1232-1262 | a peer is remembered if and only if it reported and no member list since left it out, and what is held of it is the watermark and the generation of its latest report |
| Watermark.LagsExactly | internal/api/cluster.go:1319-1329 | over every run, a report not below its own floor is behind if and only if some other listed member that is remembered has a higher latest report; it is measured against the first such member and not certain; otherwise it is (not behind, 0, certain exactly when named) |
| Watermark.FallsExactly | internal/api/cluster.go:1238-1284 | a report below its own floor is measured against that floor, the highest report that still counts; it is behind if and only if it names the process of the latest report or either names none, and certain if and only if both name one |
| Watermark.ShardHigh.Forget | internal/api/cluster.go:1252-1270 | exactly the peers that are neither the reporter nor members are dropped |
| Watermark.FloorIsTenureMax | internal/api/cluster.go:1238-1251 | after any run the floor of a peer is the highest watermark of the reports that still count |
| Watermark.RefusedExactly | internal/api/cluster.go:1183-1329 | a report is refused if and only if the peer is remembered under the same named process and some counting report was higher |
| Watermark.NeverRefusedInVain | internal/api/cluster.go:1183-1329 | over any run of named reports whose per-process watermarks never fall nothing is refused |
| Watermark.EveryFallRefused | internal/api/cluster.go:1183-1329 | once a process falls below its own floor every later low report of it is refused, not only the first |
| Watermark.UpgradeCarriesFloor | internal/api/cluster.go:1242-1251 | a move from no generation to a generation carries the old floor and refuses a truthful process |
| Watermark.HonestRefusalNeedsUnnamed | internal/api/cluster.go:1183-1329 | over honest processes a refusal needs an unnamed report in the tenure that set the floor |
| HighWatermark.AnswersNeverFall | internal/api/cluster_protocol.go:333-365 | in every interleaving of any number of callers the issued marks never fall and no caller is told less than it brought |
| HighWatermark.AnswersAreSeen | internal/api/cluster_protocol.go:333-365 | in every interleaving every answer is zero or a maximum some scan of the tenants found |
| HighWatermark.AnswersExtend | internal/api/cluster_protocol.go:355-364 | a longer run only appends answers |
| HighWatermark.HonestNodesAreNeverRefused | internal/api/cluster_protocol.go:333-365 | end to end: a router that sees each process's answers in the order they were issued refuses none |
| EsDslPass.EsToQuery | internal/api/es.go:220-241 | a body is accepted exactly when all of it is supported, and the filter and window accepted together accept exactly the documents it describes |
| EsDslPass.ClauseToExpr | internal/api/es.go:256-407 | the recursive translation narrowing one query object in place equals the specification from the window it found |
| EsDslPass.BoolToExprs | internal/api/es.go:264-324 | the children of a bool, in order, with the window threaded through must and filter only |
| EsDslPass.ListToExprs | internal/api/es.go:268-284 | sub-clauses in order, each narrowing the same query; the first refusal refuses all |
| EsDslPass.RangesToExprs | internal/api/es.go:361-398 | time ranges are lifted or become leaves; a range on another field refuses |
| EsDslPass.Query.Narrow | internal/api/es.go:375-387 | a document is in the narrowed window if and only if it was in the window and is in the span |
| EsDslProof.ClauseRight | internal/api/es.go:256-407 | through any nesting, a document is in the window before and satisfies the clause if and only if it is in the window after and satisfies the tree; where nothing may be lifted the window is untouched |
| EsDslProof.QueryRight | internal/api/es.go:220-241 | for every document before 2^62 an accepted body and its query agree |
| EsDslProof.FaithfulExactlyBelowNoEnd | internal/api/es.go:220-241 | the documents every body is right for are exactly those before 2^62 |
| EsDslProof.RefusedExactly | internal/api/es.go:256-407 | a body is refused if and only if something in it, at any depth, discarded should arms included, is not supported |
| EsDslProof.ShouldMeans | internal/api/es.go:293-323 | the union built for should, or its absence, means at least the needed number of arms, with the defaults and the explicit zero of minimum_should_match |
| EsDslProof.NegatedMeans | internal/api/es.go:276-292 | a negated arm that filters nothing matches no document |
| EsDslProof.RangeRight | internal/api/es.go:503-568 | a resolved range is the conjunction of all bounds it names, strict and not, for every instant below the saturated end |
| EsDslWindow.ScanExactly | internal/api/es.go:220-407 | the scan window of an accepted body covers an instant before 2^62 if and only if every time range in positive conjunctive position, at any depth of must and filter, allows it |
| EsDslWindow.WindowExactly | internal/api/es.go:256-407 | a clause cuts the window by exactly those ranges; ranges below must_not and should never touch it |
| RowCodecProof.ByteRoundTrip | internal/api/server.go:2561-2583 | the escape of any byte reads back as that byte |
| RowCodecProof.StringRoundTrip | internal/api/cluster_rowscan.go:261-336 | any byte string survives escaping and scanning |
| RowCodecProof.LineRoundTrip | internal/api/cluster_rowscan.go:115-207 | any list of fields, repeated keys included, is read back from its line, in order |
| RowCodecProof.LineInjective | internal/api/server.go:1190-1302 | distinct field lists print as distinct lines |
| RowCodecProof.EmittedOneTime | internal/api/server.go:1201-1252 | a line never carries two `_time` keys, whatever the row held |
| RowCodecProof.DecodeEncoded | internal/api/cluster_rowscan.go:115-207 | reading a printed row gives exactly the fields printed |
| RowCodecProof.StampedRoundTrip | internal/api/cluster_rowscan.go:115-207 | a row with a timestamp comes back at it, and printing what came back gives the same bytes |
| RowCodecProof.UntimedRoundTrip | internal/api/cluster_rowscan.go:115-207 | a row with neither a timestamp nor a `_time` field comes back and prints the same bytes |
| RowCodecProof.UnstampedRoundTripExactly | internal/api/cluster_rowscan.go:115-207 | a row without a timestamp reproduces its line if and only if its `_time`, if it prints one, is no instant or stands first in the printer's spelling |
| RowCodecProof.LaterTimeIsMoved | internal/api/cluster_rowscan.go:173-206 | a row whose `_time` field follows another field is printed differently the second time |
| RowCodecProof.FramingRoundTrip | internal/api/cluster.go:600-650 | cutting a body at newlines recovers exactly the lines printed |
| RowCodecProof.LineAccepted | internal/api/cluster_rowscan.go:597-604 | the structural check accepts every printed line |
| RowCodecProof.StampedLineTime | internal/api/cluster.go:2164-2186 | the merge key found in a timestamped row's line is its timestamp, whatever its other fields hold |
| RowCodecCheck.DecodableIsAccepted | internal/api/cluster_rowscan.go:478-604 | every line the parser reads as an object, nested values and escapes included, passes the structural check |
| RowCodecObjects.TruncatedIsRefused | internal/api/cluster_rowscan.go:478-604 | an accepted line that was cut short is refused by the structural check, wherever it was cut |
| RowCodecObjects.GluedIsRefused | internal/api/cluster_rowscan.go:597-604 | an accepted line followed by anything but white space is refused |
| RowCodecCheck.StringRaw | internal/api/cluster_rowscan.go:478-535 | a string the grammar reads ends where the raw walk says |
| RowCodecCheck.Nested | internal/api/cluster_rowscan.go:478-518 | a nested value closes its own brackets and no more |
| RowCodecGrammar.NumberRead | internal/api/cluster_rowscan.go:437-474 | every number of section 6 of RFC 8259, its exponent letter in either case, is read whole, up to the byte that cannot continue it |
| RowCodecGrammar.NumberSpelled | internal/api/cluster_rowscan.go:437-474 | whatever is read as a number is a number of the grammar |
| RowCodecGrammar.Utf8Right | internal/api/cluster_rowscan.go:341-379 | a rune is spelled in as few bytes as hold it, and their bits make it up again (section 3 of RFC 3629) |
| RowCodecSyntax.StringRead | internal/api/cluster_rowscan.go:261-379 | every string of section 7 of RFC 8259, plain bytes, letter escapes, hex escapes and surrogates in any mix, reads as the bytes it stands for |
| RowCodecSyntax.StringSpelled | internal/api/cluster_rowscan.go:261-379 | whatever is read as a string is one of that grammar, with that meaning |
| RowCodecObjects.ValueRead | internal/api/cluster_rowscan.go:387-518 | every value, strings, numbers, literals and validated nested text, reads as its text, null as nothing |
| RowCodecObjects.ReadExactly | internal/api/cluster_rowscan.go:115-207 | a line is read as an object with these fields if and only if it is the spelling of a flat object with these fields, white space wherever it may stand |
| RowCodecGrammar.RuneRoundTrip | internal/api/cluster_rowscan.go:341-379 | every rune written as an escape, its hex digits in either case and a surrogate pair where it needs one, reads back |
| RowCodecGrammar.LoneSurrogate | internal/api/cluster_rowscan.go:341-360 | a surrogate is the replacement character and consumes nothing more if and only if what follows is not its other half, another escape included |
| RowCodecProof.StreamPairRight | internal/api/server.go:1228-1299 | a full record carries `_stream` and `_stream_id` exactly once, the row's last non-empty value or the synthesized one |
| RowCodecPass.AppendJSONString | internal/api/server.go:2561-2576 | the loop appends the escape of every byte |
| RowCodecPass.AppendRowJSON | internal/api/server.go:1190-1302 | the buffer gains one line: the row's timestamp if it has one, then every field but a repeated `_time` and, when the stream pair follows, but that pair's keys, in order, then the pair |
| RowCodecProof.EmittedIsPrinted | internal/api/server.go:1190-1302 | the fields printed are exactly those places of the row that are not a `_time` behind another or behind the row's own timestamp and not the stream pair printed at the end, in order |
| RowCodecProof.FieldsSurvive | internal/api/server.go:1213-1267 | with or without the stream pair, under any keys but `_time` and the pair's own the line carries exactly the row's fields in their order |
| RowCodecProof.FirstTimeInPlace | internal/api/server.go:1213-1247 | a row without a timestamp prints its first `_time` where it stands |
| RowCodecProof.EscapesExactly | internal/api/server.go:2561-2583 | a string is printed as itself if and only if it has no quote, backslash or control byte |
| RowCodecProof.LiftedExactly | internal/api/cluster_rowscan.go:173-206 | a timestamp is lifted if and only if some `_time` can be read, and from the first of them |
| RowCodecPass.ScanJSONString | internal/api/cluster_rowscan.go:261-336 | the fast path and the escaped path both read the string of the grammar |
| RowCodecPass.ScanUnicodeEscape | internal/api/cluster_rowscan.go:341-379 | surrogate pairs are one rune, lone surrogates the replacement character |
| RowCodecPass.ScanNumber | internal/api/cluster_rowscan.go:437-474 | the index loops skip what the number grammar skips |
| RowCodecPass.ScanComposite | internal/api/cluster_rowscan.go:478-518 | stops just past the bracket that balances the first |
| RowCodecPass.ScanJSONValue | internal/api/cluster_rowscan.go:387-431 | one value and its text |
| RowCodecPass.JsonLineToRow | internal/api/cluster_rowscan.go:115-207 | a flat object is a row with the first readable `_time` lifted; anything else is the whole line as a message |
| RowCodecPass.LooksLikeJSONObject | internal/api/cluster_rowscan.go:597-604 | the structural check by index |
| RowCodecPass.CollectRows | internal/api/cluster.go:610-639 | the rows are exactly the accepted lines in order, and the line reported is the first refused one, if any was |
| Calendar.FastDaysRight | internal/api/cluster.go:2228-2241 | the 400-year closed form counts the days of the calendar for every year from 1, every month and any day number |
| Calendar.NanosMonotone | internal/api/cluster.go:2197-2264 | calendar order is strict order of the instants |
| CalendarParse.FastRFC3339Nano | internal/api/cluster.go:2197-2264 | no operation leaves int64 for any string; accepted are exactly the shaped strings from 1678 to 2261, and the result is the calendar's count |
| CalendarParse.DaysFrom | internal/api/cluster.go:2228-2241 | the day number in machine integers |
| CalendarParse.ReadFraction | internal/api/cluster.go:2244-2259 | nine fraction digits count, further ones do not, none overflows |
| CalendarParse.PrintRoundTrip | internal/api/cluster.go:2197-2264 | every printed timestamp, its fraction trimmed of trailing zeros, reads back as its fields, and is accepted if and only if its year is one of 1678 to 2261 |
| CalendarParse.AcceptedIsSpelled | internal/api/cluster.go:2197-2264 | whatever the fast parser takes is the spelling of the date and time it read, then a fraction of which nine digits count, then Z |
| Calendar.EveryInstantHasDate | internal/api/cluster.go:2197-2264 | every number of nanoseconds is the instant of a valid date and time |
| RowClock.ClockedIsFaithful | internal/api/cluster.go:2164-2264 | what the row codec asks of its timestamps holds once instants are printed as dates and read by the fast parser, all that is left being that the general parser reads what is printed |
| RowClock.FastTakesExactly | internal/api/cluster.go:2164-2264 | the fast parser takes over for exactly the printed instants of the years 1678 to 2261, and answers the instant |
| CalendarParse.PrintedOrder | internal/api/cluster.go:2197-2264 | merge keys of printed timestamps compare as the calendar does |
| Merge.ArrivalOrderIrrelevant | internal/api/cluster.go:571-650 | the merged order is the same whatever order the shards finish in |
| Merge.NewestOfNewest | internal/api/cluster.go:789-823 | merging each shard's newest n and keeping n is the newest n of everything, ties included |
| Merge.PosAtMostIndex | internal/api/cluster.go:571-590 | a row at position p of its shard's answer is not earlier than p in the merge |
| Merge.OrderTotal | internal/api/cluster.go:721-732 | the comparator is a strict total order on tagged rows |
| Merge.MergedInTimeOrder | internal/api/cluster.go:721-732 | merged rows stand newest or oldest first, rows of one time by shard, and rows of one shard as it answered them |
| Planner.PlanQuery | internal/api/cluster_plan.go:190-210 | what is pushed is the longest prefix of row-local pipes that keep the time, ended before the first that may change the row count when a limit bounds the scan; the coordinator gets what is left, or the whole pipeline when the prefix was cut short |
| PlannerProof.MergeOfParts | internal/api/cluster.go:680-735 | merging the shards' answers to a row-local prefix is the prefix over all rows, in either direction, for pipes that drop or multiply rows too |
| PlannerProof.CoordinatorInput | internal/api/cluster.go:703-735 | what the coordinator's half is applied to is what a node would hand it |
| PlannerProof.AllPushed | internal/api/cluster_plan.go:283-306 | with nothing left for the coordinator, limits on the shards and one on the merge answer as one node |
| PlannerProof.ClusterIsNode | internal/api/cluster_plan.go:74-210 | the cluster's answer is the single node's, for every pipeline, partition, limit and finishing order, the cut-short prefix being idempotent |
| PlannerProof.CutShortExactly | internal/api/cluster_plan.go:207-209 | whatever follows a one-to-one prefix from a count-changing pipe on, it is answered right on all rows, partitions, orders and limits if and only if running the prefix again changes nothing |
| PlannerProof.FormattedTwice | internal/query/pipes.go:1343-1352 | a format that reads the field it writes, pushed in front of a filter under a limit, marks every row twice on a cluster and once on a node |
| PipeText.PipeSegments | internal/api/cluster_plan.go:215-240 | the index loop cuts at exactly the pipes outside quotes and brackets |
| PipeText.QuotedIsOnePiece | internal/api/cluster_plan.go:222-231 | a quoted text is never cut, whatever pipes, brackets, other marks and escapes are in it |
| PipeText.BracketedIsOnePiece | internal/api/cluster_plan.go:232-237 | a bracketed text is never cut, whatever pipes, quotes and brackets are nested in it |
| PipeText.BalancedIsOnePiece | internal/api/cluster_plan.go:215-240 | text with balanced quotes and brackets and no pipe at its top is one segment |
| PipeText.CutExactly | internal/api/cluster_plan.go:215-240 | balanced texts without a pipe at their top, joined by pipes, are cut apart exactly at those pipes |
| PipeText.ShardText | internal/api/cluster_plan.go:204-206 | the text sent is the kept segments joined |
| PipeText.ShardTextResplits | internal/api/cluster_plan.go:204-240 | a shard cuts that text into exactly the kept segments, for every query text |
| StatsMerge.MergeIsWholeExactly | internal/query/distributed.go:459-475 | combining the shards' printed cells is the cell over all rows if and only if no shard holds the group without a sample, or no shard has a sample, or the node's minimum is not above zero (its maximum not below); for sums always |
| StatsMerge.GatherIsWhole | internal/query/pipes.go:121-219 | what the shards hold for a group, presence and samples, folds to what one node holds, however the rows are spread |
| StatsMerge.SamplelessShardWins | internal/query/pipes.go:769-772 | for every nonzero v, a shard without a sample and one with v give 0 on the cluster and v on one node |
| StatsMerge.ExtremesRight | internal/query/pipes.go:206-219 | a cell is emitted if and only if its group has a row; an extremal cell is attained by some sample and passed by none, and is zero for a group without a sample |
| StatsHits.FederatedHits | internal/api/cluster.go:2049-2109 | the merge is refused if and only if some series has unequal arrays or a stamp that is no instant; otherwise under every key it holds the label set first seen, at every stamp the sum of all counts listed, and the sum of the totals |
| StatsHits.HitsAreNode | internal/api/cluster.go:1989-2140 | under every label set and bucket the merged hits list exactly the count one node holding all the rows answers, dense zeros included, and nothing else |
| StatsHits.TotalsAreNode | internal/api/cluster.go:2106-2109 | the merged total of a label set is the node's |
| StatsHits.HitsNotRefused | internal/api/cluster.go:2067-2104 | what nodes answer is never refused |
| HitsNode.Hits | internal/query/engine.go:1129-1181 | a node's own hits, label set by label set, are the dense counts and totals the merge assumes |
| HitsNode.FillHits | internal/query/engine.go:1248-1300 | one value for every bucket of the walk, the number of the label set's rows in it, and their total |
| StatsMerge.StatsIsNodeExactly | internal/api/cluster.go:1641-1842 | after any row-local prefix a merged cell is the node's under the same condition, and is absent exactly where the node's is |
| StatsSeries.FederatedMatrix | internal/api/cluster.go:1749-1842 | the merge is refused if and only if some value or stamp does not read as a number or the first series of a key has no operator; otherwise the series come out in key order, stamps ascending, holding at every stamp the combination of every value listed under the key |
| StatsSeries.MergeSeries | internal/api/cluster.go:1756-1806 | the loops over answers and series file every point under its key and stamp |
| StatsSeries.AddPoints | internal/api/cluster.go:1785-1805 | the points of one series are combined into what its key holds, or refused |
| StatsSeries.EmitSeries | internal/api/cluster.go:1808-1836 | each key's series once, in key order, with exactly its points, ascending |
| StatsRange.RouterAnswers | internal/api/cluster.go:1749-1842 | from answers that list the shards' cells under label sets whose keys are apart, the router lists exactly their combinations, each label set once |
| StatsNode.MatrixIsNodeExactly | internal/api/cluster.go:1641-1842 | for every stats query the router merges, over label sets free of NUL and distinct stamps, what it emits lists under every label set and stamp exactly the cell of one node holding all the rows, and nothing else, if and only if no shard's printed zero passes a true extreme; what those cells are is `StatsKinds.NodeCellByKind` |
| StatsKinds.NodeCellByKind | internal/query/pipes.go:121-219 | a node's cell is there if and only if its group has a row in the bucket; a minimum is attained by a row's sample and at most every sample, a maximum the other way, both zero without a sample; every other kind is the sum of the samples |
| StatsKinds.RouterByKind | internal/query/distributed.go:444-475 | the router emits a value under a label set and stamp if and only if some shard has a row of the group there: for a minimum the least of all shards' samples, for a maximum the greatest, each also ranging over the zero of a shard with the group and no sample, and the sum of the samples for every other kind |
| StatsKinds.SameGroupExactly | internal/query/pipes.go:72-105 | two rows share a label set if and only if they agree in every grouping field, and it names their values and the output |
| StatsAcc.GroupRows | internal/query/pipes.go:72-105 | the stats pipe lists each group with a row once and holds for it what its rows make of it |
| StatsAcc.StatsQueryRange | internal/query/stats_range.go:125-317 | a node's own answer, bucket after bucket, lists under every label set a point for each bucket with a cell, and nothing else, each label set once |
| StatsWalk.WalkIsNodeExactly | internal/api/cluster.go:1641-1842 | at a step of a second or more, over every window, what the router emits for a stats query it merges is what a node answers if and only if no shard's printed zero passes a true extreme |
| StatsWalk.WalkStampsExactly | internal/query/stats_range.go:125-300 | every walk at a step has distinct stamps if and only if the step is at least a second |
| StatsWalk.SharedStampIsNeverNode | internal/api/cluster.go:1785-1805 | where two buckets of one stamp both have a cell of some label set, no answer of the router is the node's |
| StatsWalk.SubsecondIsNeverNode | internal/api/cluster.go:1785-1805 | for every step below a second, a count over two rows that no cluster answers as a node does, whatever the partition and the shards' answers |
| StatsExact.ExactBuckets | internal/api/cluster_stats_exact.go:401-479 | the loop with its two searches gives each bucket of the walk the rows within its edges, through the coordinator's pipes |
| StatsExact.ExactIsNode | internal/api/cluster_stats_exact.go:323-479 | over rows fetched once, merged and sliced, every bucket's rows after the pipeline are a node's own, for any pipeline and aggregate, window, step, partition and finishing order, the cut-short prefix being idempotent |
| StatsNode.SumsAreNode | internal/api/cluster.go:1641-1842 | for counts, sums, lengths and empties that is always so |
| StatsNode.MatrixNotRefused | internal/api/cluster.go:1766-1801 | what nodes answer to a merged query is never refused |
| StatsNode.MergeOps | internal/query/distributed.go:418-457 | none if and only if some aggregate cannot be merged; otherwise exactly the output names, each with the operator of the last aggregate under it: the least for a minimum, the greatest for a maximum, the sum for the rest |
| StatsNode.StampsApartExactly | internal/query/stats_range.go:275-300 | the stamps of the multiples of a step are distinct if and only if the step is at least a second |
| StatsNode.SecondsAreAddedUp | internal/api/cluster.go:1785-1805 | two buckets with one stamp come out as one point holding their sum |
| StatsMerge.NeedsExactStats | internal/api/cluster_stats_exact.go:545-603 | the decision, pipe by pipe |
| StatsMerge.MergedExactly | internal/api/cluster_stats_exact.go:545-603 | a stats query is merged if and only if it is row-local pipes and then one mergeable aggregate with nothing after |
| StatsTable.MergeTables | internal/api/cluster.go:1582-1593 | the merged table holds the combination of the shards' cells under every key and no other |
| StatsTable.FederatedValueCounts | internal/api/cluster.go:1557-1615 | the answer is the highest entries of the summed table, however it is listed: larger counts first, equal ones by value, nothing left out counting more than anything listed; the limit cuts the merged list |
| StatsTable.TopIsHighest | internal/api/cluster.go:1594-1615 | the top of the list is as long as the limit and the table allow, in order, and no value left out has a larger count, or an equal one and a smaller name, than one listed |
| StatsTable.CountIsRows | internal/api/cluster.go:1582-1593 | a value's count is the number of rows that carry it |
| StatsTable.TopIsWhole | internal/api/cluster.go:1557-1615 | merged unlimited value counts are the node's table, and so is the top n, however either is listed |
| Labels.LabelKey | internal/api/cluster.go:2143-2160 | the key is the names in their one order with their values, whatever order the map yields |
| Labels.LabelKeyInjectiveExactly | internal/api/cluster.go:2143-2160 | the key tells the label sets over an alphabet apart if and only if NUL is not in the alphabet |
| Labels.OneNameInjective | internal/api/cluster.go:2143-2160 | under one name the key tells any two values apart, NUL or not |
| BucketWalk.BoundRangeBuckets | internal/api/server.go:2245-2295 | a window the ceiling admits is left alone; one too wide is refused if it was named, and otherwise, never refused, becomes the 240 steps before now, or as many as 64 bits reach back, or an empty window where that start wraps; a non-positive step is a thirtieth of the window |
| BucketWalk.TooWideExactly | internal/api/server.go:2265-2295 | a window is too wide if and only if it holds more than ten thousand whole steps |
| BucketWalk.AlignDownRight | internal/query/engine.go:1416-1428 | floored to a multiple within one step, or, when the floor leaves the domain, the lowest multiple |
| BucketWalk.WalkIsBounded | internal/api/cluster_stats_exact.go:409-413 | the walk ends, after at most the ceiling plus two steps, even when the addition wraps |
| BucketWalk.SliceBuckets | internal/api/cluster_stats_exact.go:409-479 | the loop takes one slice per bucket, found by binary search |
| BucketWalk.SlicesPartition | internal/api/cluster_stats_exact.go:409-415 | the slices end to end are the rows from the first start to the last end, none lost or repeated |
| BucketWalk.SliceIsBucket | internal/api/cluster_stats_exact.go:409-479 | slice i holds exactly the rows at or after the start of bucket i and before its end |
| BucketWalk.StartsExactly | internal/api/cluster_stats_exact.go:409-413 | bucket i starts i steps after the first, and there are as many as start before the end |
| BucketWalk.DefaultStepFits | internal/query/stats_range.go:230-251 | a named step is taken as it is; without one a window is one bucket or thirty to fifty-nine whole ones, and never too wide |
| BucketWalk.SpanIsWalked | internal/query/engine.go:1193-1214 | the walk ends where the fetched span ends |
| BucketWalk.FetchedRowsPartition | internal/api/cluster_stats_exact.go:355-479 | every fetched row is in exactly one slice |
| BucketWalk.NoBucketExactly | internal/query/engine.go:1193-1214 | a window has no bucket if and only if it ends at or below the lowest multiple of the step |
| BucketWalk.RequestedRowsCoveredExactly | internal/query/engine.go:1193-1214 | every requested row is in exactly one slice, in order, if and only if none is below the lowest multiple of the step |
| BucketWalk.StartCoveredExactly | internal/query/engine.go:1193-1214 | the walk starts at or before the window if and only if the lowest multiple of the step does |
| BucketWalk.HoistedWindow | internal/api/cluster_stats_exact.go:371-470 | the window resolved once, intersected with a bucket, is the window resolved for that bucket |
| Bulk.ParseBulk | internal/api/esbulk.go:85-174 | one item per action in order, or a refusal of the request |
| BulkRequests.BodyAnswered | internal/api/esbulk.go:85-174 | any list of readable requests gets one item each, at its position, with its operation, the verdict it deserves by itself, and its document if accepted |
| BulkLines.ParseIsItems | internal/api/esbulk.go:85-182 | for every body, parsing by index gives the items of its list of lines, refusals included: blank lines passed over, every other line an action, each action but a delete followed by the next line that is not blank |
| BulkLines.BlankLinesIgnored | internal/api/esbulk.go:110-143 | blank lines change nothing, before an action, between it and its source, or at the end |
| BulkLines.AtMostAllowed | internal/api/esbulk.go:102-109 | an answered request has no more items than are allowed |
| Bulk.ParsedTrails | internal/api/esbulk.go:85-174 | for every body that parses, each document starts strictly past the write cursor of the compaction |
| Bulk.BulkDocs | internal/api/esbulk.go:450-461 | the front of the overwritten array is the original documents in order, each with a newline, and the rest is untouched |
| Bulk.CompactBulk | internal/api/esbulk.go:85-461 | for every body that parses, the lines left at the front of the overwritten buffer are the candidates' documents as sent, one each and in order |
| Bulk.BatchIsCandidates | internal/api/esbulk.go:450-461 | line k of the batch is candidate k's document, and there are no other lines |
| BulkRejects.MarkBulkRejects | internal/api/esbulk.go:546-587 | marks exactly the placed items, or all candidates, or nothing and says so |
| BulkRejects.BulkCandidates | internal/api/esbulk.go:592-600 | the doc-carrying items in order |
| BulkRejects.ExactlyTheRefused | internal/api/esbulk.go:546-587 | under a true report exactly the refused documents' items are marked |
| BulkRejects.UnansweredExactly | internal/api/esbulk.go:546-587 | a true report is left unanswered if and only if positions are truncated and some documents were stored |
| BulkAction.ActionRoundTrip | internal/api/esbulk.go:201-245 | the operation read is the one written, for any metadata object with balanced braces, escapes, numbers and nested objects included, and any ASCII white space |
| BulkAction.UnknownKeyRefused | internal/api/esbulk.go:213-225 | a key that names no operation refuses the line |
| BulkClients.ClientsAnswered | internal/api/esbulk.go:85-245 | every body of such action lines and sources gets one item each, in order, with the operation written, the verdict it deserves by itself, and its source exactly if accepted |
| BulkClients.BracedExactly | internal/api/esbulk.go:377-392 | a source is taken for an object if and only if it opens and closes with a brace, white space aside |
| BulkAction.SecondKeyRefused | internal/api/esbulk.go:227-240 | anything behind the metadata object, a second key in particular, refuses the line |
| BulkAction.MatchBrace | internal/api/esbulk.go:281-303 | the index of the brace closing the object, strings skipped |
| TenantsServer.Server.Acquire | internal/api/tenant.go:125-205 | a tenant is handed out claimed and marked used now, if and only if it is open or the store opens and there is room or an idle tenant to close |
| TenantsServer.Server.EvictIdle | internal/api/tenant.go:215-256 | closes the least recently used unclaimed tenant other than the default, if and only if there is one |
| TenantsUse.ClosesLeastRecent | internal/api/tenant.go:125-256 | in every run a tenant is closed only while nobody claims it, and its latest request is no later than that of any other unclaimed tenant but the default |
| TenantsUse.MarkIsLatestRequest | internal/api/tenant.go:76-200 | in every run a tenant's mark is the time of the latest request that was handed it |
| TenantsServer.Server.WinDone | internal/api/tenant.go:434-440 | only one caller wins a claim's done flag |
| TenantsServer.Server.Drop | internal/api/tenant.go:434-440 | the winner lowers the count once |
| TenantsServer.Server.Snapshot | internal/api/tenant.go:518-526 | a detached walk claims every open tenant once and no other: each open one's count rises by one |
| TenantsProof.EveryRunIsSafe | internal/api/tenant.go:125-256 | in every state of every run counts equal unreleased claims, nothing claimed is closed, the default tenant is open, and a positive limit is kept |
| TenantsProof.ClaimedIsNeverClosed | internal/api/tenant.go:207-256 | an unreleased claim is on an open tenant, in every interleaving |
| TenantsProof.ReleasedOnce | internal/api/tenant.go:429-440 | claims only go forward along a run, so each is released once |
| Writes.EveryRunSound | internal/api/quota.go:36-94 | after any run a receipt means durable rows, and so does an acknowledgement |
| Writes.Store.CheckStorage | internal/api/quota.go:36-94 | duplicate check, budget, handler, receipt, in that order, are the three steps of an attempt |
| Writes.CountAcks | internal/api/cluster.go:345-356 | success at one if and only if some replica was heard, at quorum if and only if more than half were, at all if and only if every one was |
| Writes.SuccessIsHeld | internal/api/cluster.go:253-262 | after any run a success means the rows are held: by some replica at one, by more than half at quorum, by every one at all |
| Writes.SuccessHasHolder | internal/api/cluster.go:253-358 | at every level a success on a shard with replicas means some replica holds the rows |
| Writes.RequiredExactly | internal/api/cluster.go:253-262 | the count a level demands is reached if and only if some one, more than half, or every one was heard |
| Writes.QuorumSuccessesShareReplica | internal/api/cluster.go:253-262 | two writes on one shard, each answered at quorum after any run of its own, are both held by some replica |
| Writes.NoRowTwice | internal/api/cluster.go:288-371 | with attempts that do not overlap, handlers that store all or nothing, recorded receipts and no crash before the receipt, no replica stores a row twice |
| Writes.StaysSingleExactly | internal/api/quota.go:36-94 | from whatever state a run has reached, every continuation under those conditions keeps a row at one copy or fewer on each replica if and only if the state is single: no two attempts active on a replica, none checked where a copy is, no second copy, and no copy without a receipt unless its attempt is about to record it |
| Writes.EachConditionIsNeeded | internal/api/quota.go:76-94 | without any one of the four a state is reached from which steps under all of them store a row twice |
| WritesCluster.SendAttempt | internal/api/cluster.go:327-341 | the router's send, by the index its hash loop computes, is the routed step of a run |
| WritesCluster.EveryAttemptOnHome | internal/api/cluster.go:328-399 | over every run of a cluster whose number of shards stays constant, every attempt of an id is on the one shard its hash names, and no other shard holds a copy or a receipt |
| WritesCluster.EachShardRuns | internal/api/cluster.go:288-371 | each shard of a cluster goes through a run of its own events, so what holds of every run of one shard holds of each |
| WritesCluster.NoRowTwiceInCluster | internal/api/cluster.go:288-399 | then, its shard's run being calm, no replica of any shard stores the rows twice and no other shard stores them at all |
| WritesCluster.RetryAfterResizeExactly | internal/api/cluster.go:385-399 | a write stored, the number of shards changed, the write sent again: the rows are on two shards if and only if the id's shard differs under the two numbers |
| WritesCluster.EvenIdsMove | internal/api/cluster.go:388-399 | it does for every id of even bytes when one shard becomes two |
| WritesCluster.XorExactly | internal/api/cluster.go:388-402 | a bit of the exclusive or is set if and only if one of the two is |
| WritesCluster.FnvOfA | internal/api/cluster.go:388-402 | the hash of "a" is the published FNV-1a value |
| Syslog.FrameReader.Next | internal/api/syslog_frame.go:60-83 | one read answers exactly what the stream, the buffer's size and the maximum determine, and leaves the rest of the stream |
| Syslog.FrameReader.OctetCounted | internal/api/syslog_frame.go:85-129 | count, bounds and payload of a counted frame; a stream that ends in the count ends cleanly, one that ends in the payload is cut short |
| Syslog.CountedExactly | internal/api/syslog_frame.go:85-129 | a read at a digit is decided by the whole run of digits and what follows it: too large from eleven digits or above the maximum, ended with the stream, malformed before anything but a space, cut short with the payload, and otherwise the payload of that length |
| Syslog.FrameReader.NewlineFramed | internal/api/syslog_frame.go:141-180 | the whole line is returned however many buffers it takes, if and only if its trimmed length is within the maximum when it fits the buffer, and its length with the terminator otherwise |
| Syslog.FrameRead | internal/api/syslog_frame.go:60-187 | for every buffer size a frame that fits is read as sent and exactly what follows is left |
| Syslog.LastLineRead | internal/api/syslog_frame.go:141-180 | a last line without its newline is read too, for every buffer size |
| Syslog.ReadAll | internal/api/syslog_frame.go:60-187 | any mix of frames comes back as the messages sent, with their framing, and then the stream ends |
| Syslog.BufferDecidesExactly | internal/api/syslog_frame.go:141-180 | readers of two buffer sizes answer a line differently, for some two sizes, if and only if the message fits the maximum, the message with its terminator does not, and the line overflows the smallest buffer |
| Syslog.SizesDifferExactly | internal/api/syslog_frame.go:141-180 | two given sizes answer differently if and only if, besides, the line overflows the smaller and fits the larger |
| Syslog.EdgeLine | internal/api/syslog_frame.go:141-180 | a line of exactly the maximum is refused by the smallest buffer and read by one that holds it |
| Backup.CompleteReplica | internal/api/cluster_backup.go:311-351 | the lowest-numbered complete replica, or none exactly when there is none |
| Backup.CompleteExactly | internal/api/cluster_backup.go:311-351 | a replica is complete if and only if it answered and holds every group any replica that answered holds |
| Backup.NothingLost | internal/api/cluster_backup.go:306-351 | the chosen replica holds every group any reachable one holds |
| Backup.ValidateClusterBackup | internal/api/cluster_backup.go:401-442 | accepts exactly the manifests that name each shard once, with an archive, for the right topology |
| Backup.NoShardMissing | internal/api/cluster_backup.go:425-440 | as many entries as shards and no two alike leave no shard out |
| Backup.Spread | internal/api/cluster_backup.go:451-465 | the largest distance between two shards' watermarks if it is below 2^63, and a negative number if and only if it is not |

## Left out

- HTTP: handlers, headers, status text, form parsing, the transport of group archives, and the streaming of tar files. A peer is an outcome value.
- Storage, ingest and most of the query engine: a digest stands for a group's content, a row-local pipe acts row by row, a handler that answers success has made its rows durable.
- Repair: the divergence counter and the row totals of a report. A stale inventory shows only in what its destination answers: a group that is held unreported and never sent, because it is blocked or deferred, is not part of the final state.
- Elasticsearch: the text of a time bound (`esTimeValue`, date arithmetic and its saturation, zones, formats) is a bound already read, and values are the strings `toStr` gives; the decoder that refuses unknown keys.
- RowCodec: the shared byte buffer that decoded strings alias, the size hint for the field list, and the general RFC 3339 parser, whose contract is that a printed instant reads back.
- CalendarParse: the fallback to the general parser for instants it declines.
- Planner: parsing of query text, budgets, and rows that share a timestamp; the pipes' behaviour is a parameter. A leading `limit` pipe that a node folds into its scan is an ordinary global pipe.
- PipeText: which characters count as white space is a parameter.
- StatsMerge: floating-point rounding, and the text of numbers and timestamps in a matrix. A query with more groups than the ceiling, which is refused, is not modelled, and a node's groups are told apart by their label sets, which without NUL are the values the source joins.
- StatsHits: a limit on the number of series, and stamps are instants already read.
- StatsExact: the accumulator of the router is the node's own code and is given the same buckets; what it makes of rows an unmergeable aggregate answers is not modelled. Rows have distinct times.
- Paging of Elasticsearch hits (`sortESHits`), which orders by timestamp text.
- BulkAction: white space outside ASCII, and the `_index` and `_id` values read from the metadata.
- Tenants: shutdown, store health, and writer configuration.
- TenantsServer.Server.EvictIdle: takes its scan as one step. Releases take no lock (`internal/api/tenant.go:436-440`), so one may fall inside the scan and the tenant closed, though unclaimed when it was looked at, need not be the least recently used one at the end of it.
- Writes: what the receipt shares a manifest record with.
- Syslog: listeners, TLS and the caller's handling of an empty counted frame.
- Cursors, authentication, configuration, health, metrics, alerts, retention, tiering and the user interface, which would only add easy members.
