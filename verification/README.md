# A model of wg-conf and proofs about it

wg-conf is a small server that manages the peers of a WireGuard interface. It
keeps each peer in four places: a block of the server's configuration file, a
row of a database table, a key on the live device and a client configuration
file. A collector reads the device's byte counters at intervals and turns them
into monthly totals, although the counters restart from zero at any time.
This project states in Dafny what the three hard parts of that program do and
proves what they keep over whole runs.

**Monthly traffic** (`Traffic`, `TrafficCalc`, `PeerRows`, `MonthRun`,
`Conservation`, `Device`, `Ledger`, `FailedWrites`, `FaultySoundness`,
`FaultPatterns`, `Int64`, `Collector`, `DatabaseRuns`, `MonthQueries`). One
pass over a peer is a step on its rows in three tables: a baseline and an
offset for each month, a total for each month, and a log of snapshots of which
only the newest counts, whatever its month. The reference is the plain
accumulator that adds the growth between two samples, or the whole new sample
once either counter went down. A separate device that moves bytes and resets at
any moment says what was truly transferred. The results are:

- one pass repairs any rows, and from then on the tables refine the accumulator;
- a conservation law over any sequence of months, balanced to the byte against
  the device, with the boundary gaps, the overcharges and the bytes lost in
  resets named exactly, and the exact condition under which nothing is
  overcharged;
- exactly which patterns of store failures are sound for every device behaviour,
  and soundness of every behaviour in which no re-anchoring pass is split;
- exactly when 64-bit arithmetic computes the mathematical month.

**The configuration file as a text database** (`Text`, `WgConf`, `ConfDoc`,
`ConfEdit`, `ConfCommute`, `ConfRoundTrip`, `ConfLines`, `FreeIP`, `Junk`). The
parser ends a peer block at the next marker and the remover ends it at a blank
line. A document of blocks sits between the two: parsing reads off its blocks
for every text, and removal on lines refines removal on blocks for every text.
A text is well-formed when each block has a blank line with no key lines after
it. On those texts removal is a filter and removals commute. Appending adds
exactly one peer on every text. Removing it again, when no peer of that name
was there before, restores the text up to the newlines at its end. The address
allocator and the injection of junk packet parameters are here too.

**The peer life cycle** (`Store`, `SyncTable`, `ClientFile`, `PeerSystem`,
`Service`, `Consistency`, `Lifecycle`, `Leftovers`, `Runs`, `ClientConfigs`,
`Records`, `Counting`). `Service` has the operations as methods on the four
components; each is proved to do what its function in `PeerSystem` says. The
lemmas are about those functions. A revocation that the device refuses leaves a
row behind, and a sync then forgets it. What every run keeps all the same is
`Orderly`: each configured peer has its own row, and no two share a name, a key
or an address. Every run hands out stable client configurations and disturbs no
other peer's counters. Runs that retry refused revocations in time keep
configuration, table and device in agreement. `Tracked` says that the rows also
keep account of every key on the device; the operations that break it are named
exactly, runs that retry refused revocations keep it, and a restart restores it
from every orderly state.

**The two together** (`Metering`, `PeerTotals`, `Machine`). One machine has the
peer operations, restarts of the interface and the program, the traffic on the
device and the passes of the collector; `Machine` runs it on the components
themselves. For every name it yields the history of a device, in which a stop,
a revocation, a forgotten row or a restart is a reset, and the rows of the name
are the replay of that history. So soundness and the ledger hold for every name
over every run, under conditions on the failures of the name's own samples
alone, and through a new peer of a revoked name, which goes on from the old
total. Bytes of a key that no row has any more move under no name.

Five behaviours of the code are kept as they are, each with its exact effect:

- A drop seen by the first pass of a month charges that month the larger of the
  two samples (`MonthRun.FirstCollectCharges`, `Conservation.Overcharge`).
- A re-anchoring pass whose total is not stored leaves the old snapshot behind,
  and the next drop counts it again (`FailedWrites.StaleSnapshotCountsTwice`,
  `FaultPatterns.AlwaysSoundIff`).
- Resetting a month does not start it at zero when the previous month has no
  total: the counters are imported again (`MonthRun.ResetStartsAtZeroIff`). A
  reset that fails half-way is mostly undone (`MonthRun.HalfResetIsUndoneIff`).
- A block without a blank line takes the next peer with it when it is removed,
  and key lines after the blank line stay behind and are read into the peer
  before it (`ConfEdit.RemovalIsExactIff`, `ConfRoundTrip.RemovalLosesSuccessor`,
  `ConfRoundTrip.RemovalMovesLateKey`).
- A revoke that fails at the device has already cut the configuration. A retry
  completes it. A sync in between repairs the state if the peer was disabled;
  the key of an enabled peer stays on the device, and the retry no longer finds
  the peer (`Runs.RetriedRevokeCompletes`, `Runs.SyncAfterFailedRevokeIff`).

The comment on `EnsureJunkParams` (internal/wgconf/junk.go:70) and its error
message speak of a missing `[Interface]` section. The code also fails when there
is one but no `[Peer]` line after it, and the model follows the code.

Inputs of the model: counters, device answers, store failures, month indices,
keys and random numbers.

## Model

The main results come first, then the others by module, and the methods on
single components last. Getters and setters of one row or field have no line
here; their contracts are in their modules.

| member | source | states |
|---|---|---|
| `PeerTotals.TotalsAreSound` | internal/monitor/collector.go:84-162 | Over every run of operations, restarts, traffic and passes of one month, from the moment its baseline is stored and with any failures for any peer: if no sample of a name's own splits a re-anchoring, its month never gains more than moved under it, through stops, revocations (refused and forgotten ones too) and a new peer of the same name, which goes on from the old total |
| `PeerTotals.TotalsAreSoundUnlessHarmful` | internal/monitor/collector.go:84-162 | Over every run of operations, restarts, traffic and passes of one month, from the moment its baseline is stored and with split re-anchorings too: if the failures of a name's own samples are not of a harmful pattern, its month never gains more than moved under it |
| `PeerTotals.LedgerOfEveryName` | internal/monitor/collector.go:84-177 | From a name never seen, over every run of operations, restarts, traffic and passes in which the name's own samples are complete, with any months and any failures for other peers: its totals + gaps + shortfalls + what moved since the last sample = what moved under the name + overcharges |
| `Metering.HistoryIsTrue` | internal/monitor/collector.go:52-164 | Over every run of operations, restarts, traffic, passes and month resets, the rows of every name are the replay of its own device history, and that history has every byte that moved under the name |
| `MonthRun.RefinesAccumulator` | internal/monitor/collector.go:84-162 | Over every run of complete passes the baseline/offset/snapshot tables hold what the plain accumulator holds: the earlier total plus all joint deltas |
| `MonthRun.MonthTotal` | internal/monitor/collector.go:166-177 | Closed form of a whole month for every run of samples: the first charge plus every later joint delta |
| `Ledger.LedgerBalances` | internal/monitor/collector.go:84-177 | From empty tables and an idle device, for any traffic, resets and months: totals + gaps + shortfalls = bytes moved + overcharges |
| `Conservation.ConservationIsExactIff` | internal/store/store.go:328-355 | Over every chronological run from empty tables, totals + gaps equal the joint deltas from zero if and only if no month begins with a drop and the counters were zero before every skipped month |
| `FaultPatterns.AlwaysSoundIff` | internal/monitor/collector.go:132-162 | From the moment a month's baseline is stored, a pattern of failures is sound for all device behaviours if and only if no pass that can split a re-anchoring is followed by one that can re-anchor and, then or later, one that can store a total; where no snapshot is above zero yet, a pass that can store one must come before them |
| `FaultySoundness.SoundDespiteFaults` | internal/monitor/collector.go:84-162 | From the moment a month's baseline is stored at the current counters without a drop, or from an anchored month: for any failures in any number and order, if every pass that re-anchors completes, the month never gains more than the bytes the device moved |
| `Int64.MonthExactIff` | internal/monitor/traffic_calc.go:35-50 | A whole int64 month is exact if and only if its closed-form total, the first charge and all joint deltas, is in range |
| `ConfDoc.RemovalRefinesBlocks` | internal/wgconf/wgconf.go:132-151 | On every file whatever, the line loop removes blocks: a dropped block leaves the lines after its first blank one to its predecessor, and without a blank line it takes the following blocks along |
| `ConfEdit.RemovalIsExactIff` | internal/wgconf/wgconf.go:126-154 | On every text whatever, removal filters exactly that name if and only if no block of the name lacks its blank line before another peer's marker and the lines left behind mean nothing to the block before them |
| `ConfCommute.RemovalsCommute` | internal/wgconf/wgconf.go:126-154 | On every text in which each block of the two names has a blank line, well-formed or not otherwise, removals of the two names give the same text in either order |
| `ConfRoundTrip.AppendRoundTrip` | internal/wgconf/wgconf.go:104-123 | For every text and printable peer, parsing after an append gives the parsed list followed by the peer, and well-formedness is kept |
| `ConfRoundTrip.RemovalUndoesAppend` | internal/peer/service.go:243-250 | For every text without a peer of that name, removing the appended peer gives the original text with one newline at its end |
| `ConfLines.BlockTextIsRead` | internal/wgconf/wgconf.go:33-72 | The text `### Client <name>`, `[Peer]`, `PublicKey = <k>`, `PresharedKey = <s>`, `AllowedIPs = <a>`, line by line, is read as one peer with exactly these values, for every valid name and one-line values |
| `ConfLines.AppendAddsLines` | internal/wgconf/wgconf.go:104-123 | An append adds exactly these five lines and an empty one, with the values of the peer |
| `Runs.RunsStayOrderly` | internal/peer/service.go:75-477 | Over every run, with refused revocations, syncs that forget them and restarts anywhere in it, every configured peer has its own row, and configured names, keys and IPv4 addresses stay pairwise distinct |
| `Runs.StepKeepsTrackedIff` | internal/peer/service.go:164-477 | Every operation or restart, refused by the device or not, keeps the rows an account of every key on the device if and only if it is none of those that lose one |
| `Runs.DisciplinedRunsStayTracked` | internal/peer/service.go:75-477 | If between a refused revoke and its accepted retry there is no sync, stop, start, program start or create of that name, the rows keep account of every key on the device over the whole run, and only names with a pending revocation are left over |
| `Runs.RunsStayConsistent` | internal/peer/service.go:75-477 | From a consistent state, every run that retries its refused revocations before any sync, stop, start, program start or create of the name ends consistent: configuration, table and device agree |
| `Runs.SyncAfterFailedRevokeIff` | internal/peer/service.go:388-397 | After a refused revoke a sync repairs the state if and only if the peer was disabled; an enabled peer's key stays on the device with no record. Either way a retry then finds no such peer |
| `Runs.StartupRestoresConsistencyIff` | cmd/wg-conf/main.go:114-120 | For any table found, start-up ends consistent if and only if the sync has no key clash |
| `Runs.RestartRestoresConsistency` | cmd/wg-conf/main.go:114-120 | From every state that a run can reach, an interface reload and a program start end consistent; keys forgotten on the device are cleared |
| `ClientConfigs.CreatedPeerAndText` | internal/peer/service.go:187-293 | Under a server `base.last`, a successful create gives the peer the least address `base.i`, i from 2 to 254, that no configured peer has, and the IPv6 address with the same i; the parsed configuration gains it with its public and preshared key; and the text returned has line by line the private key, both addresses, the DNS servers, the parameters and, under `[Peer]`, the server's key, the preshared key, the endpoint and the allowed addresses |
| `ClientConfigs.CreatedConfigIsStable` | internal/peer/service.go:187-353 | After a create, any run in which the peer is not revoked, with refused revocations of others, forgetting syncs and restarts, and then a request returns the identical text |
| `ClientConfigs.RequestedConfigIsStable` | internal/peer/service.go:295-353 | After a first successful request, any run in which the peer is not revoked, with refused revocations of others, forgetting syncs and restarts, and then a request returns the identical text |
| `ClientConfigs.GetConfigKeepsLines` | internal/peer/service.go:308-339 | A stored text without parameters is answered with all its lines in order, the three parameter lines and an empty line before the first `[Peer]` line after an `[Interface]` line, up to empty lines at the end |
| `Records.RunSays` | internal/peer/service.go:75-477 | Over every run in which a peer is not revoked, its creator stays, its limit is the last one set for it, and it is enabled as the last stop or start of it says that the device accepted |
| `Records.SyncKeepsRecords` | internal/store/store.go:462-485 | After a sync each configured name has the key and addresses of its block; a surviving row keeps creator, limit and flag; a new one is enabled, made by an import and without limit; the text is that of the first client file, with parameters if they could be added, else the one on record |
| `MonthRun.StabilisesInOneCollect` | internal/monitor/traffic_calc.go:22-57 | From any stored rows whatever, one complete pass with non-negative counters leaves total = offset + (snapshot - baseline) and baseline <= snapshot on both channels |
| `MonthRun.AnchoredStep` | internal/monitor/traffic_calc.go:22-71 | From a month whose total is offset + (snapshot - baseline), a complete pass adds exactly the joint delta of the two samples and touches no other month |
| `MonthRun.FirstCollectCharges` | internal/monitor/collector.go:89-96 | The first pass of a month charges 0, max(prev,cur), cur or prev+cur, decided by the previous month having a row and by a drop against the latest snapshot, which may be of an older month |
| `MonthRun.FirstPassUnderFaults` | internal/monitor/collector.go:84-177 | What a first pass of a month leaves behind under every combination of failures: the baseline is the current counters if and only if the previous month is known to have a total, a failed lookup counting as none, and it stays when a later call fails |
| `MonthRun.TotalsNeverFall` | internal/monitor/collector.go:84-162 | After one complete pass, from any rows, no later complete pass of the month lowers either total |
| `MonthRun.FallbackIsRedundant` | internal/monitor/traffic_calc.go:41-46 | From an anchored month the whole run is the same without the stored-total fallback and without comparing counters to the baseline |
| `MonthRun.FallbackMattersWhenUnanchored` | internal/monitor/traffic_calc.go:59-64 | A concrete unanchored month where dropping those two parts changes the total |
| `MonthRun.ResetStartsAtZeroIff` | internal/store/store.go:380-386 | After the reset command the next pass stores zero if and only if the counters did not drop and either the previous month has a row or the counters are zero; otherwise old counters come back |
| `MonthRun.HalfResetIsUndoneIff` | internal/store/store.go:380-386 | A reset whose second delete fails is undone by the next complete pass if and only if that pass sees no drop, or on both channels the snapshot or the offset still knows what the deleted total had |
| `PeerRows.TotalsKeepBaselines` | internal/monitor/collector.go:84-148 | Over every run of passes, store failures and resets, no monthly total is ever stored without its baseline |
| `Conservation.ConservationFrom` | internal/monitor/collector.go:89-96 | Over every chronological run from an anchored month: the sum of all totals + boundary gaps = the sum before + all joint deltas + overcharges |
| `Conservation.TotalsAreConserved` | internal/monitor/collector.go:166-177 | From empty tables, over any months with or without gaps: all totals + boundary gaps = all joint deltas from zero + overcharges |
| `Conservation.NoOverchargesIff` | internal/monitor/collector.go:166-177 | Over every chronological run there are no overcharges if and only if no month begins with a drop and the counters were zero before every skipped month |
| `Device.CountersAreSinceLastReset` | internal/monitor/traffic_calc.go:50-56 | A device that moves bytes and zeroes both counters at any moment shows what it moved since its last reset |
| `Device.JointDeltaMissesShortfall` | internal/monitor/traffic_calc.go:59-64 | For every interval, joint delta + shortfall = bytes moved, where the shortfall is what moved before the last reset, plus the previous sample if both counters had already overtaken it |
| `Device.DeltasAndShortfallsAreMoved` | internal/traffic/traffic.go:5-21 | Over every run of intervals, the deltas and the shortfalls add up to all bytes moved |
| `Device.MonthTotalsAreSound` | internal/monitor/traffic_calc.go:22-71 | A month whose baseline is the current counters: stored total + shortfalls = bytes moved since the first pass, so the total never exceeds them |
| `FailedWrites.PassIsForgotten` | internal/monitor/collector.go:132-162 | Whatever store calls fail, a pass without a drop is forgotten by the next complete pass |
| `FailedWrites.FaultsAreHarmlessWithoutDrops` | internal/monitor/collector.go:145-162 | Once the month has a baseline and while counters do not drop, any faulty passes and then a complete one leave the rows of the complete one alone |
| `FailedWrites.LostTotalIsHarmlessIff` | internal/monitor/collector.go:145-148 | With drops: a failed total makes no difference after the next pass if and only if the failed sample repeated the snapshot or the next one drops against neither |
| `FailedWrites.LostSnapshotIsHarmlessIff` | internal/monitor/collector.go:150-162 | With drops: the exact condition, on baseline, snapshot and the two samples, under which a failed snapshot makes no difference |
| `FailedWrites.StaleSnapshotCountsTwice` | internal/monitor/collector.go:133-148 | A re-anchor whose total fails leaves the old snapshot behind: the next drop against it charges the old segment again, one-way traffic included |
| `FailedWrites.StaleSnapshotExample` | internal/monitor/collector.go:133-148 | A concrete such run on the device: 220 bytes stored, 120 moved |
| `FailedWrites.LostSnapshotCountsTwice` | internal/monitor/collector.go:150-162 | A re-anchor whose snapshot fails leaves the old snapshot behind: the next drop against it charges the old segment again, except that a channel whose old segment was empty recovers its stored total |
| `FaultySoundness.AccountedStep` | internal/monitor/collector.go:132-162 | A pass with any failures keeps the stored total covered by bytes moved, provided it does not split a re-anchoring |
| `FaultySoundness.SoundWhenAnchored` | internal/monitor/collector.go:84-162 | From an anchored month, for any failures in any number and order with every re-anchoring pass complete, the month never gains more than the bytes moved |
| `FaultPatterns.HarmlessIsSound` | internal/monitor/collector.go:132-162 | Under a harmless pattern of failures every device behaviour from an anchored month is sound, split passes included |
| `FaultPatterns.HarmlessFromReady` | internal/monitor/collector.go:132-162 | From the moment a month's baseline is stored, under a harmless pattern of failures every device behaviour is sound |
| `FaultPatterns.HarmfulExceeds` | internal/monitor/collector.go:132-162 | Under a harmful pattern some device behaviour from an anchored month is charged the whole old snapshot beyond what it moved |
| `FaultPatterns.HarmfulFromReady` | internal/monitor/collector.go:132-162 | From the moment a month's baseline is stored, under a harmful pattern some device behaviour is charged more than it moved |
| `FaultPatterns.SplitThenComplete` | internal/monitor/collector.go:132-162 | One pass and then a complete one are harmful exactly when the first can be split |
| `Int64.StepExact` | internal/monitor/traffic_calc.go:22-71 | A step whose inputs and total fit has no wrapped intermediate |
| `Int64.MonthExact` | internal/monitor/traffic_calc.go:35-50 | k complete passes with all counters and the prior snapshot in 0..C keep every value at most (k+1)*C, and the int64 run equals the mathematical one while (k+1)*C < 2^63 |
| `Int64.OverflowExample` | internal/monitor/traffic_calc.go:49-51 | A concrete step beyond that bound whose int64 total is negative |
| `Int64.StepExactIff` | internal/monitor/traffic_calc.go:22-71 | For inputs in range the int64 step is the mathematical one if and only if the mathematical total is in range |
| `Int64.RunExactIff` | internal/monitor/traffic_calc.go:35-50 | From an anchored month the whole int64 run is the mathematical run if and only if the final total is in range |
| `Collector.IndexByKey` | internal/monitor/collector.go:59-62 | The loop builds the map in which the last statistics of a key win |
| `Collector.ByKeyIsLast` | internal/monitor/collector.go:59-62 | Of several statistics with one key the last counts |
| `Collector.LoadBaseline` | internal/monitor/collector.go:84-96 | Stores a baseline exactly when the month has none, resolves it by the previous month, and reports the two ways of failing; no other peer changes |
| `Collector.WriteRows` | internal/monitor/collector.go:132-162 | Each write happens only after the one before it succeeded; the peer's rows are those of the specification and the snapshot log is only extended |
| `Collector.CollectPeer` | internal/monitor/collector.go:84-162 | With any failures, the database is changed for this peer as one step of the row machine, and for no other |
| `Collector.CollectPeers` | internal/monitor/collector.go:78-163 | The loop over the configured peers equals the fold of those steps for every peer name at once |
| `Collector.CollectAll` | internal/monitor/collector.go:52-164 | A whole pass, including unreadable statistics or configuration, which change nothing |
| `Collector.PassIsPerPeer` | internal/monitor/collector.go:78-163 | With distinct names a pass is one independent step for each peer; a peer the device does not know keeps its rows |
| `Collector.PassIgnoresOrder` | internal/monitor/collector.go:78-163 | The order of the peers in the configuration makes no difference to any row, whichever store calls fail for each peer |
| `DatabaseRuns.Process` | internal/monitor/collector.go:52-164 | One tick of the collector or one month reset changes the rows of every name by that name's own samples and reset |
| `DatabaseRuns.ProcessAll` | internal/monitor/collector.go:36-50 | Any run over the database, with changing configurations, statistics, months, failures and resets, is for every name at once the run of its own events, also when a configuration repeats names; no total is ever stored without its baseline |
| `Machine.RunAll` | internal/monitor/collector.go:36-50 | Any run of the service, the device, the collector and the database together is a run of the joint machine: the state and the rows of every name are those it says |
| `Machine.RunMetered` | internal/monitor/collector.go:84-162 | After any run of the service, the device, the collector and the database together, the database stores for a name at most what it had and what moved under the name, if no sample of the name's own splits a re-anchoring |
| `ConfDoc.DocIsLossless` | internal/wgconf/wgconf.go:33-72 | Preamble and blocks put back together are the lines: the document view loses nothing |
| `ConfDoc.ParserReadsBlocks` | internal/wgconf/wgconf.go:33-72 | From any parser state, the line loop yields the pending peer and then one peer for each block |
| `ConfDoc.ParsedIsBlocks` | internal/wgconf/wgconf.go:33-72 | For every text, carriage returns and missing final newline included, the parsed peers are the blocks of its lines |
| `ConfDoc.MarkersAgree` | internal/wgconf/wgconf.go:132 | The remover's marker pattern for a name matches a line if and only if the parser reads that name off it |
| `ConfDoc.ToDocAppend` | internal/wgconf/wgconf.go:33-72 | The document of joined lines is the join of the documents |
| `ConfLines.MarkerNameIff` | internal/wgconf/wgconf.go:12 | A trimmed line is the marker of a name exactly when it is `###`, blanks or nothing, `Client`, blanks, the name, and blanks or nothing |
| `ConfLines.KeyLinesAre` | internal/wgconf/wgconf.go:53-62 | A key line gives the peer everything after `PublicKey = `, `PresharedKey = ` or `AllowedIPs = `; any other line says nothing |
| `ConfLines.AddressesAre` | internal/wgconf/wgconf.go:74-84 | Of a comma-separated list the last part with a dot is the IPv4 address and the last other part with a colon the IPv6 one, trimmed and without `/32` or `/128`; a missing one is empty |
| `ConfLines.CharacterClasses` | internal/wgconf/wgconf.go:12 | The character codes of blanks, white space and names |
| `ConfLines.TrimSpaceIs` | internal/wgconf/wgconf.go:39 | Trimming takes off white space at both ends and nothing else |
| `ConfLines.SuffixIsDropped` | internal/wgconf/wgconf.go:74-84 | A suffix is dropped once when it is there, and otherwise nothing is |
| `ConfEdit.RemovalLeavesLeftovers` | internal/wgconf/wgconf.go:136-151 | On every document where nothing is taken along, removal leaves exactly the other blocks in order, each with the lines that the removed blocks directly after it leave behind |
| `ConfEdit.RemovalKeepsOthers` | internal/wgconf/wgconf.go:136-151 | If in addition those lines hold no keys, every other block keeps its marker and its body up to lines that say nothing |
| `ConfEdit.RemovalDropsDragged` | internal/wgconf/wgconf.go:136-151 | A block of the name without a blank line before another peer's marker always costs at least one other peer |
| `ConfEdit.OneNewlineKeepsPeers` | internal/wgconf/wgconf.go:152 | Normalising the end of the text changes neither the parsed peers nor well-formedness |
| `ConfEdit.RemovalFilters` | internal/wgconf/wgconf.go:126-154 | On every well-formed text, parsing after a removal is the parsed list with that name filtered out, and the text stays well-formed |
| `ConfEdit.NoKeysLeftIsEnough` | internal/wgconf/wgconf.go:53-63 | The lines left behind mean nothing to the block before them whenever no key lines follow the blank line of a removed block |
| `ConfCommute.BlockRemovalsCommute` | internal/wgconf/wgconf.go:136-151 | On blocks, removals of two delimited names commute |
| `ConfCommute.RemovedOfNormalised` | internal/wgconf/wgconf.go:152 | Removal does not depend on how many newlines end the text |
| `ConfRoundTrip.RemovalLosesSuccessor` | internal/wgconf/wgconf.go:136-148 | Failing texts of the first kind: two markers with no blank line between them, for any two names |
| `ConfRoundTrip.AppendedLines` | internal/wgconf/wgconf.go:105-111 | Appending adds exactly the marker and body lines, whatever the text ended with |
| `ConfRoundTrip.BodyReadsBack` | internal/wgconf/wgconf.go:53-62 | Reading the printed body gives the peer back, field by field |
| `ConfRoundTrip.UndoneAppendKeepsPeers` | internal/peer/service.go:247-250 | Appending a new peer and removing it again leaves the parsed peers and well-formedness as they were |
| `ConfRoundTrip.AddressesReadBack` | internal/wgconf/wgconf.go:74-84 | Both addresses come back out of `v4/32,v6/128` |
| `ConfRoundTrip.RemovalMovesLateKey` | internal/wgconf/wgconf.go:136-148 | Failing texts of the second kind: a key line after the blank line of the removed peer becomes the key of the peer before it |
| `FreeIP.FindFreeIP` | internal/wgconf/wgconf.go:87-101 | Returns the least octet in 2..254 whose address is not used, and fails if and only if all 253 are used |
| `FreeIP.AllocatedIs` | internal/wgconf/wgconf.go:87-101 | For a server `base.last` the octet given out is the least i from 2 to 254 with `base.i` unused, and none if and only if all are used |
| `FreeIP.CandidateIs` | internal/peer/service.go:213-214 | The IPv4 address of a new peer under a server `base.last` is `base.i` |
| `FreeIP.ClientIPv6Is` | internal/peer/service.go:216-217 | The IPv6 address of a new peer under a server `base::rest` is `base::i` |
| `FreeIP.ClientIPv6WithoutBase` | internal/peer/service.go:502-508 | Under a server without `::` it is the whole server address, `::` and i |
| `FreeIP.FreeOctetIsLeast` | internal/wgconf/wgconf.go:94-100 | A search from any octet returns the least free one at or above it, and none if and only if all up to 254 are used |
| `FreeIP.NeverFullBelow253` | internal/wgconf/wgconf.go:87-101 | Fewer than 253 used addresses never exhaust the subnet, by injectivity of decimal printing and counting |
| `FreeIP.DoubleColonIsFirst` | internal/peer/service.go:502-508 | The IPv6 base ends at the first `::` |
| `FreeIP.NewAddressesReadBack` | internal/peer/service.go:213-233 | The addresses printed into a new peer's allowed IPs are the ones parsed back |
| `Text.DecimalIs` | internal/wgconf/wgconf.go:95 | Decimal printing, digit by digit |
| `Junk.GenerateJunkParams` | internal/wgconf/junk.go:18-41 | Jc is 2 + r0 % 6, Jmin is 8 + r1 % 41 and Jmax is Jmin + 16 + r2 % 81 but at most 128, so for every draw 2..7, 8..48 and Jmin+16..128 |
| `Junk.InsertBlock` | internal/wgconf/junk.go:92-110 | The loop over the lines computes the scan |
| `Junk.InjectJunkParams` | internal/wgconf/junk.go:86-118 | Result or error of the injection |
| `Junk.InjectionSucceedsIff` | internal/wgconf/junk.go:92-114 | Injection succeeds if and only if some `[Interface]` line precedes some `[Peer]` line |
| `Junk.InjectionInserts` | internal/wgconf/junk.go:95-100 | The result is the original with one block before the first such `[Peer]` line, up to trailing newlines |
| `Junk.InjectionAddsJunk` | internal/wgconf/junk.go:86-118 | Every success is recognised as carrying parameters |
| `Junk.EnsureIsIdempotent` | internal/wgconf/junk.go:71-84 | After one success the text has parameters, and ensuring again with any other random parameters returns it unchanged |
| `Junk.EnsureKeeps` | internal/wgconf/junk.go:71-74 | A text that has parameters is returned as it is |
| `Junk.EnsureInserts` | internal/wgconf/junk.go:71-118 | A text without parameters keeps all its lines in order: the three parameter lines and an empty line come before the first `[Peer]` line after an `[Interface]` line, up to empty lines at the end |
| `Junk.EnsureFailsIff` | internal/wgconf/junk.go:71-118 | It fails if and only if the text has no parameters and no `[Peer]` line after an `[Interface]` line |
| `Junk.JunkBlockLines` | internal/wgconf/junk.go:55-57 | The parameter block is the lines `Jc = `, `Jmin = ` and `Jmax = ` with their numbers |
| `Junk.JunkLineIs` | internal/wgconf/junk.go:60-68 | A parameter line begins, trimmed, with `Jc` and has an equals sign |
| `Junk.BuiltConfigHasJunk` | internal/wgconf/wgconf.go:157-169 | A built client configuration always carries its parameters |
| `Junk.BuiltLines` | internal/wgconf/wgconf.go:157-169 | The lines of a built client configuration, section by section, each setting with its own value |
| `SyncTable.SyncRowsResult` | internal/store/store.go:462-485 | With distinct names, a successful sync gives every record the row computed from the original table and leaves other rows alone |
| `SyncTable.SyncSucceedsIff` | internal/store/store.go:462-485 | With distinct names a sync succeeds if and only if no two records share a key and every key held under another name belongs to a name that is written earlier |
| `Consistency.SyncIsExact` | internal/peer/service.go:75-110 | With distinct configured names a sync succeeds exactly when it is free of key clashes, and then the table's names are the configured ones |
| `Consistency.SyncOfOrderly` | internal/peer/service.go:75-110 | Whatever the device has, a sync of an orderly state succeeds, drops exactly the rows left over and keeps the key and flag of every other |
| `Consistency.AgreementIsClashFree` | internal/store/store.go:462-485 | A table with unique keys that has a row for every configured peer never blocks a sync |
| `Consistency.FindPeerIsFirst` | internal/peer/service.go:479-491 | The peer found for a name is the first configured one of that name |
| `Consistency.SyncKeepsConsistent` | internal/peer/service.go:75-110 | In a consistent state a sync succeeds and changes nothing but stored client configurations |
| `Consistency.SecondSyncChangesNothing` | internal/peer/service.go:75-110 | With client files that need no parameters, a second sync with other random draws changes nothing |
| `Consistency.ConsistentIff` | internal/peer/service.go:75-110 | A state is consistent if and only if every key on the device is accounted for and no row is left over |
| `Consistency.SyncOfTracked` | internal/peer/service.go:75-110 | After refused revocations a sync still succeeds, and its outcome is consistent if and only if no row left over was enabled |
| `Lifecycle.CreateSucceeds` | internal/peer/service.go:187-293 | With a valid new name and a free octet: the configuration gains exactly this peer with the least free address, the device exactly its key at zero, and the built text is returned |
| `Lifecycle.CreateRollsBack` | internal/peer/service.go:247-250 | A create the device refuses leaves table, device and files alone and the configuration with the same peers |
| `Lifecycle.CreateKeepsConsistent` | internal/peer/service.go:187-293 | A create keeps the state consistent, succeeds if and only if name, address and device allow it, and otherwise leaves the parsed peers as they were |
| `Lifecycle.CreateAnswers` | internal/peer/service.go:187-276 | A create answers with the first reason to refuse it: the name, the configured peer, the full subnet, the device |
| `Lifecycle.ValidNameIs` | internal/peer/service.go:20 | Names are one to fifteen letters, digits, underscores and hyphens |
| `Lifecycle.CreateFindsAddress` | internal/peer/service.go:197-210 | With fewer than 253 configured peers an address is always found |
| `Lifecycle.RevokeKeepsConsistent` | internal/peer/service.go:355-399 | A complete revoke filters the peer out of configuration, table and device, and nothing else |
| `Lifecycle.StopKeepsConsistent` | internal/peer/service.go:401-434 | Whatever the device answers the state stays consistent; on success the peer is disabled and its key off the device |
| `Lifecycle.StartKeepsConsistent` | internal/peer/service.go:436-461 | Whatever the device answers the state stays consistent; on success the peer is enabled and its key on the device |
| `Lifecycle.StopStartZeroesCounters` | internal/peer/service.go:401-461 | Stop then Start puts an enabled peer's counters to zero, the drop the accounting has to cope with |
| `Lifecycle.SetLimitKeepsConsistent` | internal/peer/service.go:164-185 | Setting a limit keeps a consistent state consistent |
| `Lifecycle.GetConfigKeepsConsistent` | internal/peer/service.go:295-353 | Handing out the configuration of a known peer keeps a consistent state consistent |
| `Lifecycle.GetConfigTouchesOnlyConfig` | internal/peer/service.go:316-334 | Handing out a configuration changes no key, address, flag, creator or limit, although the written row names no limit |
| `Lifecycle.StrayRequestIsHarmlessIff` | internal/peer/service.go:327-334 | Asking for an unconfigured name keeps the state consistent if and only if no stray client file would be given parameters; otherwise a row without a key appears |
| `Lifecycle.SyncDropsStrayRow` | internal/peer/service.go:75-110 | The next sync removes such a row |
| `Leftovers.CreateKeepsTrackedIff` | internal/peer/service.go:187-293 | A create keeps every key accounted for if and only if it does not succeed over an enabled row that a refused revoke left behind |
| `Leftovers.CreateKeepsOrderly` | internal/peer/service.go:187-293 | Every create keeps the state orderly; it adds the name with its new key at zero exactly when it can, and changes no other row |
| `Leftovers.RevokeKeepsOrderly` | internal/peer/service.go:355-399 | Every revoke, refused or not, cuts the name from the configuration and keeps the state orderly; an accepted one drops its row and its key, a refused one neither |
| `Leftovers.SwitchesKeepTrackedIff` | internal/peer/service.go:401-461 | Stop and Start begin with a sync, so they keep every key accounted for if and only if no leftover row is enabled |
| `Leftovers.SwitchesKeepOrderly` | internal/peer/service.go:401-461 | Stop and Start keep every orderly state orderly, whatever was left over |
| `Leftovers.ReloadKeepsTrackedIff` | cmd/wg-conf/main.go:114-120 | An interface that loads the configuration again has exactly the keys of the enabled rows if and only if every configured peer is enabled and no enabled row is left over |
| `Leftovers.ResumeKeepsTrackedIff` | cmd/wg-conf/main.go:114-120 | A program start keeps every key accounted for if and only if no enabled row is left over |
| `Leftovers.SwitchedAlready` | internal/peer/service.go:415-417 | Stopping a stopped peer or starting a started one is done without asking the device |
| `Leftovers.MissingKeyIsRecorded` | internal/peer/service.go:419-425 | A peer whose block has no key is stopped and revoked by the key on record |
| `Leftovers.ResumeWithoutSync` | cmd/wg-conf/main.go:116-120 | A program start whose sync fails still takes the disabled peers off |
| `Leftovers.CreateKeyConflict` | internal/peer/service.go:243-278 | A create whose key another row holds fails after the append and the device, which are not undone |
| `Leftovers.StrayRowIs` | internal/peer/service.go:327-334 | The row that a stray client file becomes: enabled, imported, with the text and no key |
| `Runs.FreshInstallIsConsistent` | internal/peer/service.go:75-110 | A text without peers, an empty table and an idle device are consistent |
| `Runs.AcceptedIsDisciplined` | internal/peer/service.go:355-399 | Every run in which the device refuses no revocation and the interface is not reloaded alone retries its (absent) refused revocations in time, so it ends consistent |
| `Runs.SyncAfterRun` | internal/peer/service.go:75-110 | After any run a sync succeeds and leaves exactly the configured names; if the run retried its refused revocations in time, the sync restores consistency if and only if no row left over is enabled |
| `Runs.RestartStartsFromZero` | cmd/wg-conf/main.go:114-120 | After a restart text and files are as before, exactly the configured names have rows, each enabled peer counts from zero and no disabled one is on the device |
| `Runs.RetriedRevokeCompletes` | internal/peer/service.go:383-397 | A revoke that failed at the device, repeated, ends exactly where a complete one would have |
| `ClientConfigs.CreateSettles` | internal/peer/service.go:252-285 | A created configuration is on record and saved everywhere |
| `ClientConfigs.GetConfigSettles` | internal/peer/service.go:314-339 | A requested configuration is on record and saved everywhere |
| `ClientConfigs.GetConfigAnswers` | internal/peer/service.go:295-353 | The text on record, or else in the first client file, is returned as it is when it has parameters and otherwise with parameters; without a text the answer tells a configured peer from an unknown one; a refused request changes nothing |
| `ClientConfigs.RunKeepsSettled` | internal/peer/service.go:75-477 | Over every run in which the peer is not revoked, with refused revocations of others, syncs that forget them and restarts, its recorded text and files stay, despite random parameters in every sync |
| `ClientConfigs.RevokedConfigIsGone` | internal/peer/service.go:355-399 | After a complete revoke the request fails and changes nothing |
| `Counting.RunKeepsCounting` | internal/peer/service.go:75-477 | Over every run without traffic in which an enabled peer is not revoked, stopped or reloaded, it keeps its key and the device its counters, whatever happens to others |
| `Records.CreateRecords` | internal/peer/service.go:264-276 | A create records the key, the text it returns, the actor and no limit; a row left behind keeps its creator and limit |
| `Metering.ViewFollows` | internal/peer/service.go:75-477 | From every orderly state, any operation or restart leaves the counters under a name alone or zeroes them, and exactly which is stated |
| `Metering.PassSamples` | internal/monitor/collector.go:52-164 | From every orderly state, a pass takes exactly one sample of a configured name whose key the device has, and none of any other name |
| `ClientFile.SaveReachesAll` | internal/clientfile/clientfile.go:40-46 | After a save every directory in use holds exactly the text |
| `ClientFile.LoadsWhatWasSaved` | internal/clientfile/clientfile.go:10-26 | A text saved everywhere is the only one a load can return |
| `ClientFile.LoadsFromFirst` | internal/clientfile/clientfile.go:10-26 | The first directory in use that has the file decides what is loaded; without one nothing is |
| `ClientFile.SaveTouchesOne` | internal/clientfile/clientfile.go:40-46 | A save changes no file of another name, of a directory that is not listed, or of an empty directory name |
| `ClientFile.RemoveTouchesOne` | internal/clientfile/clientfile.go:29-37 | A removal changes only files of the name in the listed directories |
| `ClientFile.LoadAfterSave` | internal/clientfile/clientfile.go:10-46 | A peer whose file could be loaded loads the new text after a save |
| `ClientFile.NothingAfterRemove` | internal/clientfile/clientfile.go:29-37 | After a removal nothing is loaded |
| `MonthQueries.MonthlyTrafficByPeer` | internal/store/store.go:388-413 | One entry for each total of the month, with the limit on record and exceeded if and only if a limit is set and reached |
| `MonthQueries.MonthlyTrafficTotals` | internal/store/store.go:415-421 | The month's total is the sum of the per-peer answers |
| `MonthQueries.TotalIsSumByPeer` | internal/store/store.go:388-421 | Summing the rows of a month equals summing the per-peer map, for every table |
| `MonthQueries.ByPeerIsRows` | internal/store/store.go:388-413 | Each peer's entry is the total in its own rows |
| `WgConf.SplitAllowedIPs` | internal/wgconf/wgconf.go:74-84 | The loop keeps the last dotted part as IPv4 and the last other part with a colon as IPv6 |
| `WgConf.ParseContent` | internal/wgconf/wgconf.go:33-72 | The scanning loop computes the parse of the text |
| `Service.PeerService.SyncFromConfig` | internal/peer/service.go:75-110 | Parsing, the record loop, the transaction and the pruning together are the sync of the state machine; on a key conflict nothing changes |
| `Service.PeerService.Create` | internal/peer/service.go:187-293 | Every branch, the rollback included, is the create of the state machine |
| `Service.PeerService.CommitPeer` | internal/peer/service.go:243-283 | Append, device, undo, upsert and save in this order |
| `Service.PeerService.GetConfig` | internal/peer/service.go:295-353 | Stored text, else client file; parameters added, row updated or imported, files saved |
| `Service.PeerService.Revoke` | internal/peer/service.go:355-399 | Configuration first, then device, table and files; a device failure stops after the first |
| `Service.PeerService.Stop` | internal/peer/service.go:401-434 | Sync, find, early return, device, flag |
| `Service.PeerService.Start` | internal/peer/service.go:436-461 | Sync, find, early return, device, flag |
| `Service.PeerService.SetLimit` | internal/peer/service.go:164-185 | Sets the limit of a row that exists |
| `Service.PeerService.ApplyDisabledPeers` | internal/peer/service.go:463-477 | The loop takes exactly the keys of disabled rows off the device |
| `Service.PeerService.Startup` | cmd/wg-conf/main.go:114-120 | Interface loaded from the configuration, and then the program start |
| `Service.PeerService.Resume` | cmd/wg-conf/main.go:114-120 | Sync, whose failure is only logged, then disabled peers taken off |
| `Store.Database.SaveUsageSnapshot` | internal/store/store.go:235-245 | Appends to the log; the latest snapshot of that peer alone changes |
| `Store.Database.ResetMonthTraffic` | internal/store/store.go:380-386 | Removes the month's totals and then its baselines for every peer, the second delete possibly failing; snapshots stay |
| `Store.Database.UpsertPeer` | internal/store/store.go:149-162 | Fails without effect exactly when another row holds the key; otherwise an existing row keeps its creator, and its text and limit unless new ones are given |
| `Store.Database.ListPeers` | internal/store/store.go:193-215 | Lists every row, each once |
| `Store.Database.SyncPeersFromConfig` | internal/store/store.go:462-485 | All records in order or, on a key violation, no change |
| `Store.Database.PrunePeersExcept` | internal/store/store.go:487-502 | Keeps exactly the rows of the given names, also when there are none |
| `WgConf.ConfigFile.RemovePeer` | internal/wgconf/wgconf.go:126-154 | The skipping loop leaves exactly the kept lines, trailing newlines normalised to one |
| `ClientFile.FileSystem.Load` | internal/clientfile/clientfile.go:10-26 | The first directory in use that has the file decides |
| `ClientFile.FileSystem.SaveAll` | internal/peer/service.go:281-283 | Saves in every directory |
| `ClientFile.FileSystem.Remove` | internal/clientfile/clientfile.go:29-37 | Removes the file from every directory |
| `Service.LiveDevice.AddPeer` | internal/wireguard/wg.go:51-79 | A known key keeps its counters, a new one starts at zero |
| `Service.LiveDevice.GetPeerStats` | internal/wireguard/wg.go:141-165 | One entry for each key the device has, with its counters |

## Left out

- ConfEdit.RemovalFilters: for names the parser can produce (letters, digits, `_` and `-`), the only ones the program removes; so are the other removal lemmas.
- FaultySoundness.SoundDespiteFaults: excludes behaviours in which a re-anchoring pass fails after its first write; `FaultPatterns.AlwaysSoundIff` says exactly which patterns of such failures are unsound.
- PeerTotals.TotalsAreSound: for runs whose samples of the name are all of the one month, and without month resets, after which a total may start from imported counters.
- Runs.RunsStayOrderly: creates draw keys that neither a row nor the device has, and a request for a name without a row is for one without a stray client file that would be given parameters; `Lifecycle.StrayRequestIsHarmlessIff` says what happens otherwise. A database failure other than a key conflict is out; after `AddPeer` or `RemovePeer` it would leave device and table apart.
- ClientConfigs.RunKeepsSettled: for runs in which the peer is not revoked at all, a refused revocation of it included.
- WgConf.ParseContent: white space outside ASCII and the line scanner's length limit are not part of this model.
- WgConf.ConfigFile.RemovePeer: read and write failures of the file are not part of this model.
- ClientFile.FileSystem.Load: read errors other than a missing file are not part of this model.
- ClientFile.FileSystem.SaveAll: failed writes, which the program ignores, are not part of this model.
- Service.LiveDevice.AddPeer: preshared key and allowed addresses on the device are not part of this model.
- Service.PeerService.Create: needs a dot in the server's IPv4 address, without which the program stops; keys are inputs, and the lemmas about it assume the public key is new. The server's own address is not excluded from allocation, as in the code.
- Service.PeerService.SetLimit: the limit is in bytes; its conversion from a floating-point number of GB is not part of this model.
- Service.PeerService.ApplyDisabledPeers: the device accepts every removal; the program stops at the first one it refuses.
- Service.PeerService.Startup: the interface has loaded every configured peer with counters at zero; wg-quick itself is not part of this model.
- Store.Database.ListPeers: every row once, but not sorted by name.
- MonthQueries.MonthlyTrafficTotals: sums in unbounded integers.
- Interleaving of requests: every operation is atomic. The code takes no lock between reading the configuration and appending to it.
- Edits of the files by other programs during a run.
- Unreadable or unwritable configuration files.
- Regular expressions beyond the two marker patterns, which are written out by hand.
- Calendar arithmetic: a month is an index and the previous month is that index minus one.
- Timestamps, handshakes, endpoints, online flags, preshared keys and allowed addresses on the device.
- Client file names: one interface, so a file is named by its directory and its peer.
- HTTP, authentication, JSON, QR codes, the dashboard, the audit log, logging, command-line flags, List views and embedded files: no property beyond plumbing.
- Key generation, wgctrl and SQLite internals: the device is a map of keys to counters, the tables are maps and an append-only log.
