# wlmaker in Dafny

A model of the parts of the `wlmaker` compositor whose correctness rests on state kept across
many steps, with proofs of what those steps keep.  Each part has a specification on values (pure
step functions and an independent statement of what they should achieve), a class whose methods
change state in place as the program does and promise those steps, and lemmas over whole runs.

| part | modules |
|---|---|
| scrolling graph | GraphTypes (what a picture should be), GraphSteps (the passes), GraphPicture (proofs), GraphMeaning (what each pixel says of the values), GraphLeftmost and GraphRebuild (column 0, and what a rebuild changes), GraphEngine (ring and pixel buffer) |
| network source | NetRates, NetEngine, NetAlignment (source and graph together), NetWidth (how wide a graph may be), NetApp (both objects) |
| menus | MenuTypes, MenuTool (the menus of `wlmtool`), MenuGroups, MenuGenerator and MenuThemes (how it builds them), RootMenu (the reader), MenuRoundTrip, MenuPipeline, MenuShown (what is on screen) |
| key bindings | KeyBindings |
| session lock | LockOutputs, LockSession, LockTracking (read off the events alone), LockMgr |
| toplevel configuration | XdgToplevel, XdgRuns |
| hot corner and idle monitor | HotCorner, IdleMonitor, InhibitSession, IdleRuns, CornerEngine |

`dafny verify dfyconfig.toml` checks the project.

## What is proved, in short

- **Graph.** Each tick scrolls part of the picture, renders one column, clears stale pixels up to
  the first black one, and updates a cached peak.  `GraphPicture.RunFaithful` shows that after any
  run of updates and rebuilds every pixel of columns 1 and up is the pixel one would draw from
  scratch, and `GraphMeaning.PictureShows` what it then says of the values delivered, by comparing
  products of usage and rows.  Three plainer claims are false of the code; each gets a run that
  fails it and its exact condition.
  - The leftmost column may keep a connector to a sample that has scrolled out, because scrolling
    skips the rows above the new minimum (`StaleConnectorRemains`).  After any run of updates
    `LeftmostFromReadings` gives each of its pixels from the readings alone, and it is the
    from-scratch picture exactly under the condition of `LeftmostFromScratchIff`.  From any
    state, `LeftmostExactIff` and `RebuildLeftmostExactIff` say when one update or rebuild makes
    it so.
  - A rebuild may erase connectors that updates drew, in column 0 (`RebuildErasesStale`) or
    elsewhere (`RebuildErasesConnector`).  It leaves the whole picture as it is exactly under the
    condition of `RebuildChangesNothingIff`.
  - A rebuild may blank bars, when the newest sample has no values (`RebuildBlanksBar`).  It changes
    connector pixels only, and keeps the invariant, exactly when that sample has values or nothing
    is active (`RebuildChangesOnlyConnectorsIff`, `RebuildFaithfulIff`).
- **Network source.** Its 512-entry history lines up with the graph's samples in every session;
  `SampleShows` and `SampleShowsGrowth` say exactly what each sample shows of the counters.  The
  decaying peak cannot halve within 88 reads, which keeps the unclamped bidirectional byte in range
  for graphs of up to 88 columns; from 89 on there are sessions where it wraps (`BytesFitIff`).
- **Menus.** Printing and reading back is a round trip for unbounded trees, with the exact
  condition for success.  The trees the tool builds, by filling submenus through references
  after attaching them, satisfy what the round trip needs; `MenuShown` says which item is on screen
  for each desktop and theme file.
- **Protocols.** The lock confirms exactly when every output added and not removed is covered
  (`ConfirmsIff`), and only its own unlock request unlocks; a locked run has lost its holder
  exactly when the lock last confirmed was destroyed since (`HolderLostIff`).  At most one toplevel
  size is outstanding, a size request is sent exactly when all earlier sizes are acknowledged
  (`SizeRequestSentIff`), and a window is placed exactly when mapped with a size since
  (`PlacedIff`).  The monitor locks exactly at the first timer event a full delay after the last
  restart, or when the last inhibit ends after that (`TimerLocksIff`, `EndOfInhibitLocksIff`).  For
  the inhibit counter, what it counts in every run, and the exact configurations for which it
  balances and for which its assertion is safe.

## Where code and documentation differ

The model follows the code.

- The bottom corners use each other's actions (`src/corner.c:257-262` and `src/corner.c:361-366`),
  against the field descriptions at `src/corner.c:95-102`: see `HotCorner.NamesHonouredIff`.
- When the client holding the session lock dies, the desktop forgets the lock's element but stays
  locked, and unlocking compares with that element (`src/toolkit/desktop.c:368-410`): no later lock
  can release it, see `LockSession.ReleasableIff`, `LockSession.OrphanedLockIsPermanent` and the
  run of `LockSession.OrphanedRun`.
- In the connector code the case of a neighbour without a line
  (`apps/wlm_graph_shared.c:816-824`) does not occur, since that neighbour has the higher usage;
  nor do columns left over at the end of a rebuild (`apps/wlm_graph_shared.c:616-619`), since the
  ring has one sample per column.

## Model

| member | source | states |
|---|---|---|
| GraphMeaning.PictureShows | apps/wlm_graph_shared.c:1290-1358 | every run of updates and rebuilds the code copes with: what each pixel from column 1 up says of the values delivered, by products of usage and rows alone: the line on the topmost row a value is enough for, below it the shade for the number of values that reach the row, above it a connector exactly below the top row of a joined neighbour |
| GraphMeaning.LeftmostShows | apps/wlm_graph_shared.c:1290-1358 | the rows of the bar in column 0 likewise, the others black or line colour |
| GraphMeaning.LitIff | apps/wlm_graph_shared.c:638-743 | the line is on the topmost row some value is enough for |
| GraphMeaning.CoversIff | apps/wlm_graph_shared.c:651-704 | a value's bar covers a row exactly when its usage, its own or stacked on those before it, is enough for the row: 255 times the rows above the bottom is at most usage times all rows but one |
| GraphMeaning.ShadeIs | apps/wlm_graph_shared.c:716-735 | the shade of a bar row goes with the number of values that reach it |
| GraphMeaning.DeliveredAt | apps/wlm_graph_shared.c:1290-1358 | without failures and rebuilds the values delivered are the readings', newest first |
| GraphPicture.IncrementalIsFromScratch | apps/wlm_graph_shared.c:1094-1128 | after any run of OK and failed reads from the black buffer, every column from 1 up equals the from-scratch picture of its sample (bar, peak line, connectors to both neighbours), and every column, the leftmost too, is exact at and below its own line |
| GraphPicture.RunFaithful | apps/wlm_graph_shared.c:573-625 | over every run mixing updates and rebuilds, every pixel of every column from 1 up is fixed: the right connector is present exactly on columns joined by an update since the last rebuild; the leftmost column is exact at and below its line; the peak cache is right |
| GraphPicture.StepFaithful | apps/wlm_graph_shared.c:1290-1358 | one tick keeps that invariant |
| GraphPicture.UpdateFaithful | apps/wlm_graph_shared.c:1094-1128 | scroll, render, cache update and connector together keep the invariant |
| GraphPicture.RebuildFaithful | apps/wlm_graph_shared.c:594-625 | a rebuild over any faithful picture, for any new window, gives exact columns without right connectors: rendering an older column erases the connector just drawn on it |
| GraphPicture.RebuildFaithfulIff | apps/wlm_graph_shared.c:582-592 | a rebuild, for any new window, keeps picture and cache right if and only if the newest sample has values or the whole window is idle (the code blanks the picture when the newest sample has no values) |
| GraphPicture.RunExactBelowLine | apps/wlm_graph_shared.c:638-743 | in every run every column is exact at and below its peak line and black or line colour above it |
| GraphRebuild.RebuildChangesOnlyConnectorsIff | apps/wlm_graph_shared.c:573-625 | rebuilding a reachable picture changes only pixels above the lines, and only between black and line colour, if and only if the newest sample has values or the whole window is idle; otherwise bars are blanked |
| GraphPicture.PartialScrollIsFullScroll | apps/wlm_graph_shared.c:967-979 | in every run, scrolling from the cached minimum row equals scrolling all rows on columns 1 and up |
| GraphPicture.StaleScanClearsAll | apps/wlm_graph_shared.c:706-714 | in every run, the stale-pixel scan that stops at the first black pixel leaves none |
| GraphPicture.BlackThenNonBlack | apps/wlm_graph_shared.c:706-714 | each column from 1 up is black above one row and non-black from it to the bottom; that row is never above the cached minimum nor below the line |
| GraphPicture.CacheIsRescan | apps/wlm_graph_shared.c:541-562 | in every run the cached minimum is what a full rescan finds: the least line of the window, and the newest sample attaining it |
| GraphPicture.UpdateCaches | apps/wlm_graph_shared.c:1101-1119 | the cheap cache update, rescanning only when the peak sample is overwritten, gives a correct cache |
| GraphPicture.RescanCaches | apps/wlm_graph_shared.c:541-562 | a rescan gives a correct cache |
| GraphPicture.CacheIsUnique | apps/wlm_graph_shared.c:541-562 | a window has only one correct cache |
| GraphLeftmost.LeftmostFromReadings | apps/wlm_graph_shared.c:1094-1128 | every run of updates, every width from 2: each pixel of column 0 from the values delivered alone; above the bar it is line colour for the right connector, and for the sample last dropped while the present ones reach its row, else where the most recent dropped sample to reach the row has its line strictly above it |
| GraphLeftmost.LeftmostAboveMin | apps/wlm_graph_shared.c:967-979 | above the cached minimum: line colour exactly where the most recent value whose line is at or above the row has it strictly above |
| GraphLeftmost.LeftmostFromScratchIff | apps/wlm_graph_shared.c:967-979 | every run of updates: column 0 is the from-scratch picture if and only if no row above bar and connector keeps a connector to a dropped sample |
| GraphLeftmost.LeftmostExactIff | apps/wlm_graph_shared.c:967-979 | exactly when an update leaves column 0 as drawn from scratch, from the state before it, for every width: nothing left above the rows scrolled, and the connector to the dropped sample hidden by the bar or by the connector on the other side |
| GraphLeftmost.RebuildLeftmostExactIff | apps/wlm_graph_shared.c:594-614 | exactly when a rebuild does: when the column has no gap above the line for the stale scan to stop in |
| GraphRebuild.RebuildKeepsColumnIff | apps/wlm_graph_shared.c:594-614 | exactly when a rebuild leaves a column from 1 up as it is: no right connector is drawn on it, or bar and left connector reach as high |
| GraphRebuild.RebuildKeepsLeftmostIff | apps/wlm_graph_shared.c:594-614 | exactly when a rebuild leaves column 0 as it is: black from the neighbour's line, or at least the row above the bar, down to the bar |
| GraphRebuild.RebuildKeepsLeftmostRunIff | apps/wlm_graph_shared.c:594-614 | the same after any run of updates, from the readings alone: no connector to the neighbour or to a dropped sample meets the bar |
| GraphRebuild.RebuildChangesNothingIff | apps/wlm_graph_shared.c:573-625 | every run: a rebuild leaves the whole picture as it is if and only if column 0 and every column from 1 up meet the two conditions above or, when the newest sample has no values, the window is idle and column 0 black |
| GraphRebuild.RebuildErasesStale | apps/wlm_graph_shared.c:594-614 | a run after which a rebuild changes column 0 alone |
| GraphRebuild.RebuildBlanksBar | apps/wlm_graph_shared.c:582-592 | a run after which a rebuild blanks a bar, not only connectors |
| GraphRebuild.BlankIff | apps/wlm_graph_shared.c:582-592 | the picture is blank exactly when the window is idle and column 0 is black |
| GraphRebuild.RebuildErasesConnector | apps/wlm_graph_shared.c:594-614 | a run after which a rebuild erases a connector: the incremental picture is not always what a rebuild draws |
| GraphLeftmost.RenderClearsIff | apps/wlm_graph_shared.c:706-714 | rendering clears a column exactly when it has no gap above the line |
| GraphLeftmost.LeftmostColumn | apps/wlm_graph_shared.c:1104-1128 | what an update leaves in column 0, pixel by pixel |
| GraphLeftmost.StaleConnectorRemains | apps/wlm_graph_shared.c:967-979 | a run after which the whole window is idle but column 0 still shows a connector to a dropped sample: column 0 is not always the from-scratch picture |
| GraphPicture.WindowIsLastReadings | apps/wlm_graph_shared.c:1290-1358 | in every run, regenerating reads included, the window is the last readings, newest first, then blanks |
| GraphPicture.ConnectBoth | apps/wlm_graph_shared.c:795-828 | either connector rule colours, on both columns, the rows strictly between the neighbour's line and the own line |
| GraphPicture.RenderClears | apps/wlm_graph_shared.c:638-743 | rendering over a column that is black then non-black, even with a fresh connector, gives exactly the new sample's bar |
| GraphPicture.RenderKeepsBelowLine | apps/wlm_graph_shared.c:638-743 | rendering over an exact column whose rows above the line are black or line colour leaves it so for the new sample |
| GraphPicture.UpdateColumn | apps/wlm_graph_shared.c:1104-1128 | after an update each column from 1 up is its exact picture for the new window |
| GraphPicture.UpdateLeftmost | apps/wlm_graph_shared.c:1104-1128 | after an update the leftmost column is exact at and below its new line |
| GraphPicture.RebuildColumns | apps/wlm_graph_shared.c:599-614 | the right-to-left rebuild loop makes all its columns exact |
| GraphPicture.BlackAboveMin | apps/wlm_graph_shared.c:1104-1108 | columns from 1 up have nothing above the cached minimum |
| GraphPicture.BlankFaithful | apps/wlm_graph_shared.c:1466-1467 | the initial black buffer is the right picture of an idle window |
| GraphTypes.TopmostRow | apps/wlm_graph_shared.c:638-704 | a row is covered by some value exactly from the row computed from the peak downward |
| GraphTypes.PeakAttained | apps/wlm_graph_shared.c:1029-1051 | some non-zero value's bar reaches the peak |
| GraphTypes.LevelAtMostPeak | apps/wlm_graph_shared.c:1029-1051 | no bar reaches above the peak |
| GraphTypes.LutIndexInRange | apps/wlm_graph_shared.c:716-735 | every colour-table index is in 0..255 |
| GraphTypes.YMonotone | apps/wlm_graph_shared.c:747-757 | more usage never gives a lower row |
| GraphTypes.UsageScales | apps/wlm_graph_shared.c:747-750 | the bar of usage u is as many rows high, above the bottom one, as u is 255ths of the other rows, rounded down; 255 reaches row 0 |
| GraphTypes.ReachesRowIff | apps/wlm_graph_shared.c:747-750 | it reaches exactly the rows its usage is enough for |
| GraphTypes.UsageToY | apps/wlm_graph_shared.c:747-750 | the row is inside the picture; how it scales is `UsageScales` |
| GraphTypes.LutIndexSpreads | apps/wlm_graph_shared.c:716-735 | counts 1 to n are spread evenly over the colour table, rounded down, n itself on the last entry |
| GraphTypes.SumConcat | apps/wlm_graph_shared.c:1029-1051 | stacked values add up |
| GraphTypes.YLine | apps/wlm_graph_shared.c:754-757 | the line is below the picture exactly for usage 0 |
| GraphTypes.PaintedIsSuffix | apps/wlm_graph_shared.c:638-743 | a column with connectors is black exactly above the higher of connector top and line |
| GraphEngine.Session | apps/wlm_graph_shared.c:1290-1358 | the object, from creation through all ticks, is in the state of the specified run |
| GraphEngine.GraphState.constructor | apps/wlm_graph_shared.c:1466-1467 | a fresh graph is the start state |
| GraphEngine.GraphState.SampleUpdate | apps/wlm_graph_shared.c:1290-1358 | a tick on the object is the specified step: error, update or regeneration |
| GraphEngine.GraphState.IconResized | apps/wlm_graph_shared.c:1250-1258 | an icon size that leaves the graph its size redraws the samples: the specified rebuild |
| GraphEngine.GraphState.Handle | apps/wlm_graph_shared.c:1250-1358 | any event, tick or redraw, is the specified step |
| GraphEngine.GraphState.UpdateWithSample | apps/wlm_graph_shared.c:1094-1128 | scrolling in a sample in place is the specified update |
| GraphEngine.GraphState.UpdatePeakCache | apps/wlm_graph_shared.c:1101-1119 | the cache fields become the specified cache |
| GraphEngine.GraphState.YMinFromSamples | apps/wlm_graph_shared.c:541-562 | the do-while walk over the ring is the specified rescan, one turn exactly |
| GraphEngine.GraphState.RebuildFromSamples | apps/wlm_graph_shared.c:573-625 | the in-place rebuild, the blank case included |
| GraphEngine.GraphState.RebuildAll | apps/wlm_graph_shared.c:594-614 | the do-while walk renders every column once, right to left, and none is left over |
| GraphEngine.GraphState.ColumnRender | apps/wlm_graph_shared.c:638-743 | the column becomes the specified rendering; other columns stay; the line row is returned |
| GraphEngine.GraphState.CountRows | apps/wlm_graph_shared.c:651-704 | the row counters hold, for each row, the number of non-zero values whose (cumulative) bar covers it |
| GraphEngine.GraphState.ClearStale | apps/wlm_graph_shared.c:706-714 | rows from the scan's stop to the line become black, all else stays |
| GraphEngine.GraphState.PaintBar | apps/wlm_graph_shared.c:716-743 | rows from the line down get the sample's colours, all else stays |
| GraphEngine.GraphState.ScrollLeft | apps/wlm_graph_shared.c:967-979 | rows from the start row shift left, in place |
| GraphEngine.GraphState.PeakConnectorDraw | apps/wlm_graph_shared.c:769-783 | the column's rows in the range get the line colour |
| GraphEngine.GraphState.PeakConnectorDrawBetween | apps/wlm_graph_shared.c:795-828 | the connector goes on the column with the lower usage, below the other's line |
| GraphEngine.GraphState.ComputePeak | apps/wlm_graph_shared.c:1029-1051 | the stored peak is the maximum, or the sum cut at 255 |
| GraphEngine.GraphState.SamplesInit | apps/wlm_graph_shared.c:1060-1071 | the slots form one ring of blank samples |
| GraphEngine.GraphState.WalkMeetsEachOnce | apps/wlm_graph_shared.c:1060-1071 | following prev returns to the start after exactly one step per slot, each slot met once |
| GraphEngine.GraphState.Regenerate | apps/wlm_graph_shared.c:1311-1349 | a regenerating tick rebuilds from the new sample and the rewritten ones |
| GraphEngine.GraphState.RegenerateHistory | apps/wlm_graph_shared.c:1311-1344 | the callback's values go to the samples in ring order, with fresh peaks |
| GraphEngine.GraphState.CountOthers | apps/wlm_graph_shared.c:1311-1326 | the walk finds one sample per other column |
| GraphEngine.GraphState.StoreSample | apps/wlm_graph_shared.c:1297-1310 | only the oldest sample is overwritten |
| NetAlignment.SampleShowsGrowth | apps/wlmnetgraph.c:196-361 | every sample of every session: its three bytes are the growth of the receive counter and of the send counter between the two reads it stands for, and the smaller of both, as 255ths of the peak it is drawn at, rounded down |
| NetAlignment.SessionRates | apps/wlmnetgraph.c:256-270 | the rates measured are the counters' growth from each successful read to the next, nothing when a counter went backwards |
| NetRates.ReadShowsTraffic | apps/wlmnetgraph.c:256-302 | a read shows the growth of the two counters since the last one, first what was received, then what was sent, then the smaller, scaled to the new peak |
| NetRates.BytesShow | apps/wlmnetgraph.c:298-302 | each byte, by products: byte times peak is at most 255 times the rate, and less than one more; the third may wrap |
| NetRates.PeakFollows | apps/wlmnetgraph.c:279-295 | a higher total is taken at once, otherwise a 128th is lost, and the peak never exceeds old peak, total and minimum |
| NetRates.ReadGuarantees | apps/wlmnetgraph.c:257-315 | after every successful read: peak at least the minimum, scale the smallest that holds it (or the last), third byte the smaller of the other two, regeneration requested exactly when the old scale no longer is that ceiling |
| NetRates.PeakHalvesSlowly | apps/wlmnetgraph.c:279-295 | whatever the traffic, 88 reads never halve the peak |
| NetRates.HalvedAfter89Iff | apps/wlmnetgraph.c:279-295 | 88 is the best bound: 89 idle reads halve exactly the peaks above twice the minimum, which are those that can be halved at all |
| NetRates.IdleDecays | apps/wlmnetgraph.c:279-295 | an idle peak falls to its minimum, or faster than (127/128)^n |
| NetRates.DecayBound | apps/wlmnetgraph.c:279-295 | n reads keep at least (127/128)^n of the peak |
| NetRates.DecayPerRead | apps/wlmnetgraph.c:279-295 | one read keeps 127/128 of the old peak and of the new total |
| NetRates.IdleSettles | apps/wlmnetgraph.c:279-295 | without traffic the peak reaches its minimum in finitely many reads and stays |
| NetRates.ScaleIsCeiling | apps/wlmnetgraph.c:279-295 | the scale kept is always the ceiling of the peak |
| NetRates.ByteExactIff | apps/wlmnetgraph.c:297-309 | the byte cast keeps the scaled rate exactly while it stays below 256/255 of the peak |
| NetRates.ByteFits | apps/wlmnetgraph.c:297-309 | a rate within the peak is not cut by the cast |
| NetRates.ThirdByteIsSmaller | apps/wlmnetgraph.c:297-309 | the third byte is the minimum of the other two when the smaller rate is within the peak |
| NetEngine.NetState.StatsRead | apps/wlmnetgraph.c:257-315 | one read on the object is the specified read; what it shows of the counters is `NetRates.ReadShowsTraffic` |
| NetEngine.NetState.Ingest | apps/wlmnetgraph.c:257-295 | counter differences (zero when a counter went back), history and peak are updated as specified |
| NetEngine.NetState.Record | apps/wlmnetgraph.c:271-277 | the ring holds the new rate in front of the remembered ones, at most 512 |
| NetEngine.NetState.UpdatePeak | apps/wlmnetgraph.c:279-295 | rise at once, decay otherwise, never below the minimum |
| NetEngine.NetState.ScaleIndexCeil | apps/wlmnetgraph.c:149-158 | smallest scale that holds the value, or the last |
| NetEngine.NetState.RegenerateSamples | apps/wlmnetgraph.c:320-361 | every remembered sample is redrawn at the current peak, the others cleared; what they then show is `NetAlignment.SampleShowsGrowth` |
| NetEngine.NetState.RingOffsetTight | apps/wlmnetgraph.c:335-341 | the ring offset never falls below zero, and is zero only at a full history's last entry; it addresses the slot of that reading |
| NetEngine.NetState.constructor | apps/wlmnetgraph.c:376-385 | the state after priming the counters |
| NetAlignment.SessionAligned | apps/wlmnetgraph.c:320-361 | in every session, sample k steps back shows the reading of k successful reads ago at the peak it was last drawn at, zeros once cleared, blank without a reading |
| NetAlignment.RegenerationAligned | apps/wlmnetgraph.c:320-361 | regeneration redraws each sample from the very reading that produced it; beyond the history zeros; blanks stay blank; every rewritten buffer has its three bytes |
| NetAlignment.SampleShows | apps/wlmnetgraph.c:320-361 | exactly what every sample shows: its own reading at the source's peak of the later of that read and the last regeneration; zeros if the history did not reach it then |
| NetAlignment.LastRegenerationIsLast | apps/wlmnetgraph.c:303-308 | the regeneration a sample is shown at is the last one: none follows it |
| NetWidth.BytesFitIff | apps/wlmnetgraph.c:342-354 | the bidirectional byte of every sample fits in every session of a graph exactly when the graph has at most 88 columns |
| NetWidth.BytesOverflow | apps/wlmnetgraph.c:342-354 | the failing session for 89 columns or more: two reads of 10455000 bytes each way, then silence; the last read lowers the scale and redraws a byte of 256 as 0 |
| NetWidth.BurstFalls | apps/wlmnetgraph.c:279-295 | the arithmetic of that session |
| NetAlignment.RegeneratedBytesFit | apps/wlmnetgraph.c:342-354 | in graphs of at most 88 columns the unclamped bidirectional byte of every sample fits at every tick and is the smaller of the two directions |
| NetAlignment.SessionPeakHalvesSlowly | apps/wlmnetgraph.c:279-295 | a session of at most 88 successful reads never halves the peak |
| NetAlignment.SessionFaithful | apps/wlmnetgraph.c:196-361 | the picture the network source drives is faithful after every tick of every session, redraws included |
| NetAlignment.TockAligned | apps/wlmnetgraph.c:271-277 | one tick keeps the rings aligned |
| NetAlignment.PeakTock | apps/wlmnetgraph.c:279-295 | a read keeps the peak above (127/128)^(k+1) of the total of k reads ago |
| NetApp.RunSession | apps/wlm_graph_shared.c:1290-1358 | the two objects together, from priming through all ticks, follow the specified session |
| NetApp.Tick | apps/wlm_graph_shared.c:1290-1358 | one tick of both objects is one tick of the session |
| NetApp.OlderSamples | apps/wlm_graph_shared.c:1311-1335 | the values handed to regeneration are those of all samples but the oldest, newest first |
| MenuRoundTrip.RoundTrip | src/root_menu.c:766-813 | a printed tree is read back if and only if every entry in it is acceptable, and then as the same tree sorted by title at each level; empty submenus come back disabled |
| MenuRoundTrip.ToolOutputReadsBack | src/root_menu.c:711-727 | the same for the whole output read into the requesting menu, where an empty menu is an error |
| MenuRoundTrip.ShownSorted | tool/item.c:314-334 | what is shown is in title order and, as a multiset, exactly the tree's items |
| MenuTypes.OrderKeepsAll | tool/item.c:256-263 | sorting takes each item exactly as often as it is there |
| MenuRoundTrip.FineIff | tool/item.c:314-334 | sorting keeps the items, so acceptance does not depend on the order |
| MenuPipeline.Generate | src/root_menu.c:711-727 | tool menu to on-screen menu: works exactly for a non-empty menu of acceptable entries, and shows its sorted tree; on failure shows what could be read and a disabled item |
| MenuTypes.BeforeIff | tool/item.c:256-263 | one title comes before another exactly when they agree up to some place where it ends or has the smaller character |
| MenuTypes.OrderIsStable | tool/item.c:245-263 | the sort is a permutation in title order that keeps equal titles in list order |
| MenuTypes.StableOrderUnique | tool/item.c:245-263 | there is only one such order |
| MenuTool.ToolMenu.AddItem | tool/item.c:137-147 | an item is added to index and list unless its key is taken |
| MenuTool.ToolMenu.GetOrCreateSubmenu | tool/item.c:151-171 | what the key stands for, created as a submenu at most once; a submenu unless the key was that of an entry |
| MenuTool.ToolMenu.GetOrCreateTwice | tool/item.c:151-171 | asking twice gives the same and changes nothing more |
| MenuTool.EntryCreate | tool/item.c:189-228 | an entry needs a first word |
| MenuTool.ToolMenu.SortItems | tool/item.c:256-263 | sorting only permutes the list, submenus included |
| MenuTool.ToolMenu.CreateArray | tool/item.c:314-334 | the nested array of the tree; the tree itself ends up sorted and otherwise unchanged |
| MenuTool.ToolMenu.PrintItem | tool/item.c:267-281 | one item printed, the others untouched |
| MenuTool.PrintsTheSameAgain | tool/item.c:314-334 | printing sorts in place, yet printing again gives the same array |
| MenuTool.IndexedAdd | tool/item.c:137-147 | adding keeps index and list in agreement under distinct keys |
| MenuTool.IndexedPermute | tool/item.c:314-334 | so does any permutation |
| MenuGenerator.PlaceEach | tool/menu.c:301-380 | from an empty menu, any additions through the references returned leave index and list agreeing in every menu of the tree, which is the tree of the groups |
| MenuGenerator.Place | tool/menu.c:301-380 | one addition: category found or made, entry filed, refused exactly when its key is taken there |
| MenuGenerator.FileEntry | tool/menu.c:365-370 | filling a submenu through a reference keeps the whole tree valid and changes that group only |
| MenuGenerator.EnsureGroup | tool/menu.c:335-338 | the submenu of a category, found or made |
| MenuGenerator.AddDesktopFile | tool/menu.c:301-380 | one desktop file: skipped, refused or filed |
| MenuGenerator.GenerateApplications | tool/menu.c:202-236 | the applications menu is printed exactly when every file is usable and none comes twice in its category, and is the tree of its categories |
| MenuThemes.GenerateAppearance | tool/menu.c:121-199 | the appearance menu is printed exactly when every theme file looked at can be read: system and user themes in a submenu each, or those of one given directory beside an empty submenu |
| MenuThemes.ListedAreFirst | tool/menu.c:255-275 | the entries added for one directory are those of the first file of each path |
| MenuThemes.AllListed | tool/menu.c:255-275 | every path is listed, and none twice |
| MenuThemes.AddThemesPath | tool/menu.c:242-275 | files go into a submenu through the reference to it, up to the first that cannot be read |
| MenuThemes.GivenReadsBack | src/root_menu.c:711-727 | the menu of one directory is always read back, in full |
| MenuThemes.ThemesReadBack | src/root_menu.c:711-727 | so is the menu of system and user |
| MenuGenerator.ApplicationsReadBack | src/root_menu.c:711-727 | the applications menu is read back exactly when there is an application, and shows all of them |
| MenuShown.ApplicationsShown | tool/menu.c:301-380 | the applications menu on screen: every category with an application has a submenu that shows exactly its applications, each with its name and the command that starts it, in the terminal if it asks for one |
| MenuShown.MakeableIff | tool/menu.c:311-380 | the applications menu can be made exactly when every desktop file can be read, every application to be shown has a name and something to execute, and no two of one category come from the same path |
| MenuShown.ThemesShown | tool/menu.c:121-199 | the appearance menu on screen: the submenus of system and user show exactly their theme files, each path once, with name and the path to load; one without files is disabled |
| MenuShown.GivenShown | tool/menu.c:121-138 | for one given directory: the empty submenu, and each theme file once |
| MenuShown.EntriesIff | tool/item.c:137-147 | a category's entries are those filed first with their key |
| MenuGroups.PlacedAllIs | tool/menu.c:301-380 | filing one by one gives one group per category in order of first appearance, with exactly that category's entries, the first of each key |
| MenuGroups.KeyIff | tool/item.c:137-147 | a key is in a category exactly when an addition put it there |
| RootMenu.PopulateIff | src/root_menu.c:479-521 | any array: the items read are those of the elements after the title, up to the first that describes none; without a title or elements nothing is read |
| RootMenu.PopulateMenu | src/root_menu.c:479-521 | items are appended in order up to the first unreadable element |
| RootMenu.InitMenuObject | src/root_menu.c:399-462 | the reading chosen by the second element |
| RootMenu.CreateMenuItem | src/root_menu.c:766-813 | the item an array describes, or none |
| KeyBindings.Parse | src/action.c:594-632 | the loop ends on every string with the specified modifiers, key and success |
| KeyBindings.ParsesIff | src/action.c:594-632 | for every string: success exactly when a token names a key and only modifiers follow the first such token, which gives the key; modifiers are the union of all modifier tokens |
| KeyBindings.CombinationParses | src/action.c:594-632 | modifier names and one key name joined by + in any order parse to the union and that key |
| KeyBindings.NonModifierAfterKeyFails | src/action.c:618-624 | any non-modifier after a recognised key fails |
| KeyBindings.SplitJoin | src/action.c:603-611 | splitting at + undoes joining |
| KeyBindings.JoinSplit | src/action.c:603-611 | joining undoes splitting, for every string, but for a trailing plus sign |
| KeyBindings.SplitPlusFree | src/action.c:603-611 | tokens have no plus signs |
| KeyBindings.UnionBits | src/action.c:614-617 | a bit is in the union exactly when some modifier token carries it |
| KeyBindings.FindTokenEnd | src/action.c:605-606 | the first + from the start, or the end |
| LockTracking.ConfirmsIff | src/lock_mgr.c:378-410 | every run: the client is told `locked` if and only if the desktop was not locked and the event commits, in time, the present surface of an output, after which every output added to that lock and not removed is covered |
| LockTracking.LockedCoversEveryOutput | src/lock_mgr.c:378-410 | so when `locked` is sent, every output added to that lock while it lived and not removed since has a surface, created and then committed with a serial at or above its configure's, that nothing has taken away |
| LockTracking.TrackedIff | src/lock_mgr.c:513-527 | every run: a lock tracks exactly the outputs added to it while it was live and not removed since |
| LockTracking.IdsStep | src/lock_mgr.c:513-582 | an added output is tracked, a removed one is not, and no other event changes what a lock that stays tracks |
| LockTracking.CoveredIff | src/lock_mgr.c:594-727 | every run: an output is covered exactly when its present surface was committed in time after its creation |
| LockTracking.SurfaceIff | src/lock_mgr.c:594-652 | every run: an output has a surface exactly when one was requested while it was tracked and none taken away since |
| LockTracking.SurfaceCreation | src/lock_mgr.c:594-652 | the surface it has is the one requested when it had none, with that configure's serial |
| LockTracking.EntryStep | src/lock_mgr.c:513-727 | every event treats each output of each lock as if it were the only one |
| LockTracking.LiveIff | src/lock_mgr.c:295-365 | a lock exists exactly while it was made and not destroyed since |
| LockTracking.LockedIff | src/toolkit/desktop.c:368-410 | every run: the desktop is locked if and only if some client was told so and has not requested the unlock since, while its lock lived |
| LockSession.LockedMeansAllCovered | src/lock_mgr.c:378-410 | over every run: the very creation and commit behind each output on the lock's list when locked is sent, neither undone since |
| LockSession.ConfirmsOnlyWhenCovered | src/lock_mgr.c:378-410 | locked is sent only on an unlocked-to-locked transition with a non-empty list of covered outputs |
| LockSession.UnlocksIff | src/lock_mgr.c:485-494 | a locked desktop is unlocked by the holder's unlock and by nothing else |
| LockSession.StaysLocked | src/lock_mgr.c:349-365 | without that request the desktop stays locked through any run of surface loss, output changes, other locks and client death |
| LockSession.ReleasableIff | src/toolkit/desktop.c:368-410 | a locked desktop can still be unlocked by some run of events exactly while it has a holder |
| LockSession.OrphanedLockIsPermanent | src/toolkit/desktop.c:368-410 | after the holder dies the desktop can never be unlocked: unlock compares with the forgotten element |
| LockSession.OrphanedRun | src/toolkit/desktop.c:368-410 | a run that ends locked for good: one output, its surface created and committed, then the lock destroyed |
| LockSession.HolderLostIff | src/lock_mgr.c:349-410 | every run that ends locked: the event that locked it is the last confirmation, and the holder is lost if and only if that lock was destroyed since |
| LockSession.CoverHistory | src/lock_mgr.c:594-727 | where a covered output's surface and commit came from |
| LockSession.SurfaceOrigin | src/lock_mgr.c:594-652 | a live surface goes back to an accepted request, undisturbed since |
| LockSession.RunSound | src/lock_mgr.c:420-475 | distinct outputs, no commit without a surface, a holder that exists, in every run |
| LockSession.LockedWasConfirmed | src/lock_mgr.c:378-410 | a locked desktop was confirmed, and its holder was the last one confirmed |
| LockMgr.Desktop.LockWith | src/toolkit/desktop.c:339-365 | locking succeeds only on an unlocked desktop |
| LockMgr.Desktop.UnlockFrom | src/toolkit/desktop.c:368-391 | unlocking succeeds only for the holding element |
| LockMgr.Desktop.Unreference | src/toolkit/desktop.c:400-410 | the element is forgotten, the lock stays |
| LockMgr.Lock.LockIfReady | src/lock_mgr.c:378-410 | locks and confirms exactly when the outputs are ready and the desktop is not locked |
| LockMgr.Lock.HandleNewSurface | src/lock_mgr.c:420-475 | accepted exactly for a tracked output without a surface |
| LockMgr.Lock.HandleSurfaceCommit | src/lock_mgr.c:712-739 | a commit counts exactly when it acknowledges the creation's configure; it may lock |
| LockMgr.Lock.SurfaceDestroy | src/lock_mgr.c:660-682 | the output loses surface and commit |
| LockMgr.Lock.OutputCreate | src/lock_mgr.c:513-527 | the output is appended to the list, without surface; `LockTracking.IdsStep` says what is then tracked |
| LockMgr.Lock.OutputDestroy | src/lock_mgr.c:558-582 | the output leaves the list, the others stay |
| LockMgr.Server.HandleDestroy | src/lock_mgr.c:349-365 | the lock goes away, the desktop forgets it and stays locked |
| LockMgr.Server.Handle | src/lock_mgr.c:235-739 | every event on the objects is the specified step |
| XdgRuns.SizeRequestSentIff | src/xdg_toplevel.c:826-843 | every run: a size request on an initialized surface is sent at once if and only if every size sent before has been acknowledged; else it is dropped |
| XdgRuns.PlacedIff | src/xdg_toplevel.c:522-533 | every run: the window is on a workspace if and only if the surface was mapped, not unmapped since, and had a size when mapped or at some commit since |
| XdgRuns.MappedIff | src/xdg_toplevel.c:718-741 | every run: mapped exactly when mapped by some event and not unmapped since |
| XdgRuns.HasCommittedSize | src/xdg_toplevel.c:755-762 | every run: the window has the size last committed |
| XdgRuns.InitialCommitConfigures | src/xdg_toplevel.c:764-768 | the first commit of an initialized surface is always answered with a configure |
| XdgToplevel.OneSizeOutstanding | src/xdg_toplevel.c:826-843 | between any two sizes sent lies a commit acknowledging at least the first |
| XdgToplevel.RunGate | src/xdg_toplevel.c:745-785 | in every run a pending size never waits behind an unacknowledged one |
| XdgToplevel.StepGate | src/xdg_toplevel.c:826-843 | an event keeps this, and sends a size only when the client has caught up |
| XdgToplevel.ResponseTakenIff | src/xdg_toplevel.c:745-785 | a size the toolkit requests in response to a commit is taken if and only if that commit sends no pending size and acknowledges the last one |
| XdgToplevel.ShowsLastCommitted | src/xdg_toplevel.c:774-784 | in every run the window shows the client's last fullscreen state, and its last maximized state committed while placed and without a change of fullscreen |
| XdgToplevel.SendsSizeIff | src/xdg_toplevel.c:481-511 | exactly which events send a size |
| XdgToplevel.FlushSendsLatest | src/xdg_toplevel.c:481-511 | each flush sends, per property, the latest value requested since the last flush; a first commit with no request open schedules a configure; nothing else sends |
| XdgToplevel.PendingIsOpen | src/xdg_toplevel.c:804-878 | in every run the pending record summarizes the accepted requests not yet sent; a fullscreen request cancels a pending maximize |
| XdgToplevel.CommitEmptiesPending | src/xdg_toplevel.c:764-768 | nothing stays pending after an initialized commit |
| XdgToplevel.RunPlacedWhenReady | src/xdg_toplevel.c:522-533 | placed implies mapped; mapped with a non-empty size implies placed |
| XdgToplevel.Session | src/xdg_toplevel.c:715-878 | the object, from creation through all events, is in the state of the specified run and has sent its messages |
| XdgToplevel.Toplevel.Handle | src/xdg_toplevel.c:715-878 | every handler on the object is the specified step |
| XdgToplevel.Toplevel.FlushProperties | src/xdg_toplevel.c:481-511 | nothing before initialization; else each pending property once, in order |
| XdgToplevel.Toplevel.HandleCommit | src/xdg_toplevel.c:745-785 | the commit handler is the specified step: size, flush or first configure, serial, placement, then the fullscreen or else the maximized state; over runs see `XdgRuns.HasCommittedSize` and `XdgRuns.PlacedIff` |
| XdgToplevel.Toplevel.DoTryMap | src/xdg_toplevel.c:522-533 | maps a window that is mapped, has a size and is not placed yet |
| IdleRuns.TimerLocksIff | src/idle.c:260-295 | every run: an idle-timer event makes the monitor lock if and only if it is the first since the last restart to find the idle delay elapsed, nothing inhibits, and the lock command starts |
| IdleRuns.EndOfInhibitLocksIff | src/idle.c:249-276 | every run: any other event does if and only if it ends the last inhibit after the timer has run out, and the lock command starts |
| IdleRuns.TimerFollows | src/idle.c:193-202 | every run: the timer is set to the idle delay after its last restart, and has expired exactly when it ran out since |
| IdleRuns.ArmedUnlessExpired | src/idle.c:193-202 | every run: with a delay, the timer is armed exactly while it has not expired; without one it never is |
| IdleRuns.LockedIff | src/idle.c:271-276 | every run: the monitor counts itself locked exactly when it has locked and no unlock has come since |
| IdleRuns.InhibitorsIff | src/idle.c:334-377 | every run: the list holds, each once, the inhibitors made and not gone since |
| IdleRuns.CounterBalances | src/idle.c:243-254 | every run, any configuration, until the assertion fails: the counter is live inhibitors plus all inhibits begun by corners and keys less all they ended |
| IdleRuns.CounterIs | src/idle.c:243-254 | with paired slots: live inhibitors, plus one for a corner holding an inhibit, plus what keys began less what they ended |
| IdleRuns.AbortsIff | src/idle.c:249-254 | the assertion fails at exactly the events that end an inhibit when none is counted |
| IdleRuns.UserLocksIff | src/action.c:222-234 | the lock command is started on demand exactly when a locking action is executed, by key or corner, and it can be |
| IdleRuns.CornerIs | src/corner.c:301-343 | every run: the corner on record is the one the pointer is in, after its last move and in the last layout |
| IdleRuns.EntersIff | src/corner.c:279-371 | every run: an enter action fires if and only if a timer event finds the pointer to have stayed in the corner for the configured delay |
| InhibitSession.RunSound | src/corner.c:241-371 | in every run the recorded corner is where the pointer is, the timer is armed exactly while a corner waits, and firings are strictly alternating enter/leave pairs, each for one corner and so from one slot |
| InhibitSession.EnterAfterStay | src/corner.c:279-297 | an enter fires only after the pointer stayed in that corner, unbroken and untriggered, for the configured delay |
| InhibitSession.ArmedOnArrival | src/corner.c:279-297 | an armed timer was set on arrival in the present corner |
| InhibitSession.CountsInhibits | src/idle.c:243-254 | with paired slots the counter is, in every run, live inhibitors plus one for a corner holding an inhibit; the assertion never fails |
| InhibitSession.NeverAbortsIff | src/idle.c:249-254 | the assertion can never fail if and only if the delay is 0 or in every slot no enter ends an inhibit and a leave ends one only if its enter began it; any other configuration has, from every start, a failing run of events that can arrive: in order of time, the pointer inside the layout |
| InhibitSession.CountsInhibitsIff | src/idle.c:243-254 | the counter is live inhibitors plus a held corner in every run that can arrive if and only if the delay is 0 or all slots are paired |
| InhibitSession.RunCovered | src/idle.c:249-254 | in a safe configuration the counter always covers what is live, in every run |
| InhibitSession.VisitExecutes | src/corner.c:347-371 | visiting a corner for the delay, from any start and at any time, executes its enter action and then its leave action |
| InhibitSession.AutoLocksIff | src/idle.c:260-276 | exactly when an event locks automatically: lock command startable, timer expired, nothing inhibits any more, and the event is the timer or ends an inhibit |
| InhibitSession.NoAutoLockWhileInhibited | src/idle.c:260-276 | no automatic lock while a client's inhibitor lives or a corner holds an inhibit |
| InhibitSession.AutoLockAfterIdling | src/idle.c:193-202 | an automatic lock comes only after the full idle delay without activity |
| InhibitSession.TimerHistory | src/idle.c:288-295 | behind an armed or expired idle timer lies the last restart, which armed it |
| HotCorner.NamesHonouredIff | src/corner.c:250-264 | corners do what their configured names say if and only if both bottom corners are configured alike |
| HotCorner.SlotsOfIff | src/corner.c:250-264 | a corner has its own slot at the top, that of the corner beside it at the bottom, and no other |
| HotCorner.InsideOnlyCornerPixels | src/corner.c:311-343 | for a pointer inside the layout, in a corner means on that corner's pixel; where pixels coincide, the left or top one |
| HotCorner.CornerAtIff | src/corner.c:311-343 | for any pointer and layout: a left or top corner takes just its edge, a right or bottom one its edge and all beyond |
| HotCorner.MovedTracks | src/corner.c:407-422 | a pointer move keeps the recorded corner right and fires properly |
| HotCorner.RelaidTracks | src/corner.c:301-308 | so does a layout change |
| HotCorner.TimerTracks | src/corner.c:347-371 | the timer triggers the corner the pointer is in |
| CornerEngine.CornerWatch.Handle | src/corner.c:347-422 | every event on the corner and monitor objects is the specified step |
| CornerEngine.CornerWatch.constructor | src/corner.c:169-219 | creation evaluates the pointer's position |
| CornerEngine.CornerWatch.Clear | src/corner.c:241-269 | leaving disarms the timer, and executes the leave action if triggered |
| CornerEngine.CornerWatch.Occupy | src/corner.c:279-297 | entering another corner leaves the old one and arms the timer |
| CornerEngine.CornerWatch.Evaluate | src/corner.c:311-343 | the corner follows layout and pointer |
| CornerEngine.CornerWatch.HandleTimer | src/corner.c:347-371 | the timer triggers the corner and executes its enter action |
| IdleMonitor.Monitor.Uninhibit | src/idle.c:249-254 | the assertion, the decrement and the reconsidered lock |
| IdleMonitor.Monitor.ConsiderLocking | src/idle.c:260-276 | locks exactly with no inhibit, an expired timer and a lock command that starts |
| IdleMonitor.Monitor.ResetTimer | src/idle.c:193-202 | re-arms unless locked, to the full delay: see `IdleRuns.TimerFollows` |
| IdleMonitor.Monitor.HandleUnlock | src/idle.c:415-425 | unlocks and re-arms, to the full delay: see `IdleRuns.TimerFollows` |
| IdleMonitor.Monitor.AddInhibitor | src/idle.c:334-354 | the inhibitor is listed and counted |
| IdleMonitor.Monitor.HandleDestroyInhibitor | src/idle.c:363-377 | the inhibitor is uncounted, reconsidering the lock, and unlisted |
| IdleMonitor.Monitor.Execute | src/action.c:222-234 | the three actions that reach the monitor |
| IdleMonitor.WithoutTakesOne | src/idle.c:371-373 | removing an inhibitor removes one entry and nothing else |

## Left out

- GraphEngine.GraphState.PeakConnectorDraw: pixels are a two-dimensional array, not offsets into a flat buffer, and colours are plain 32-bit numbers.
- GraphEngine.GraphState.SamplesInit: ring links are indices in arrays, not pointers; a sample's values are a sequence, so the reuse of its heap buffer is not modelled.
- GraphEngine.GraphState.SampleUpdate: values come as parameters; a failed read leaves the sample untouched; what is drawn on screen from the buffer is not part of it.
- NetEngine.NetState.StatsRead: takes the parsed totals; rates are unbounded integers, so the overflow of a 64-bit product is not modelled.
- NetEngine.NetState.RegenerateSamples: a sample the history covers must already hold three values; `NetAlignment.RegenerationAligned` shows that it always does while the graph is not resized.
- XdgToplevel.OneSizeOutstanding: serials are unbounded and increase from one turn of the event loop to the next, and clients acknowledge only serials of earlier turns, in order; wrap-around is not modelled.
- LockMgr.Lock.HandleSurfaceCommit: serials are unbounded as well.
- KeyBindings.Parse: the modifier mask is a set of bits, and names are looked up in given tables.
- MenuTool.ToolMenu.GetOrCreateSubmenu: when the key is that of an entry the code takes the entry for a submenu; the model returns the entry and does not follow what the code then reads. It does not come up in the menus the tool builds, which `MenuGenerator.PlaceEach`, `MenuGenerator.GenerateApplications` and `MenuThemes.GenerateAppearance` cover.
- MenuThemes.GenerateAppearance: theme files come as lists in the order the directories are walked; a walk that fails otherwise counts as a file that cannot be read.
- MenuGenerator.GenerateApplications: directories, parsing of desktop files, and the lookup of a category are parameters.
- RootMenu.InitMenuObject: what an include or generate statement pulls in is a parameter; reading files and running subprocesses are not modelled.
- InhibitSession.CountsInhibits: keys must not begin or end inhibits; `IdleRuns.CounterIs` and `IdleRuns.CounterBalances` count those too. Corner actions do not re-enter the corner handler.
- IdleMonitor.Monitor.Execute: other actions, and what the lock command does, are left out; whether the command starts is a parameter.
- Resizing the graph: an icon size that changes the graph's width or height; one that leaves it its size is modelled.
- Drawing with Cairo, bezel, label, colour tables, blitting, double buffering, argument and font parsing.
- Parsing of `/proc`, and the other graph applications: input followed by one line of arithmetic.
- Allocation failures, logging, destruction of objects, and listener bookkeeping.
- The key index of a menu is a map and not an AVL tree; the list sort is any stable sort.
- Placing lock surfaces on outputs, focus, and configuring a lock surface again after a layout change.
- XdgToplevel.Toplevel.HandleCommit: what the toolkit requests while it takes up a committed state comes as further events, since it is the last thing the handler does; decoration, position and stacking of the window are left out.
- XdgRuns.HasCommittedSize: the size a commit brings is that of the surface's geometry or, where it sets none, of its extents; which of the two is not modelled.
- The toplevel's interactive requests.
- The rest of the compositor: server, clip, dock, launcher, layer shell, X11 windows, popups, icons, background, task list, configuration files.
