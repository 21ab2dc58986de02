# A verified model of the client's algorithms and state machines

The repository is a GTK BitTorrent client with a video player, and test tools around the same
torrent library. Most of it draws widgets and moves bytes. This project models the parts that
compute something: containers kept in step with each other, an explicit-stack tree walk, a merge
in place, a playback state machine, a peer protocol, a text format, a slot allocator. It proves
what they keep in every run. `dafny verify dfyconfig.toml` checks all of it.

| file | models |
|---|---|
| `ListModelAdapter.dfy` | `gtk/ListModelAdapter.cc`: a vector of ids and an id-to-position map under splice notifications |
| `FileTreeBuild.dfy` | `gtk/FileList.cc`: growing the tree of rows from file paths |
| `FileTree.dfy` | `gtk/FileList.cc`: the post-order walk, the sums it computes, and the priority toggle |
| `TrackerFilter.dfy` | `gtk/FilterBar.cc`: the tally of tracker sites and the merge into the rows on screen |
| `VideoPlayer.dfy` | `gtk/BaconVideoWidget.cc`: wanted against actual state, buffering, and the one-place seek queue |
| `PeerConn.dfy` | `examples/connection_tester.cpp`: the downloading peer |
| `TorrentGenerator.dfy` | `examples/connection_tester.cpp`: file sizes and hashing threads of the generated torrent |
| `TrackerText.dfy` | `gtk/DetailsDialog.cc`: the tracker list as text |
| `RowStore.dfy` | `gtk/DetailsDialog.cc`: the mark-and-sweep refresh of the tracker and the peer list |
| `TorrentView.dfy` | `examples/torrent_view.cpp`: filter, order, selection and scroll window |
| `CustomStorage.dfy` | `examples/custom_storage.cpp`: piece buffers in memory and the slots that hold storages |
| `PadRanges.dfy` | `Play/make_torrent.cpp`: the cursor over pad-file ranges while hashing |
| `RecentDirs.dfy` | `gtk/Prefs.cc`: recently used directories |
| `PieceSizes.dfy` | shared by these two test tools' models, `CustomStorage` and `PadRanges`: how a torrent is cut into pieces |
| `StringViews.dfy`, `StringOrder.dfy`, `Sequences.dfy`, `Options.dfy` | shared: token splitting of `gtk/tr-utils.h`, string order, sequences, optional values |

## How it is modelled

Classes of the program are classes here, with the same fields, and their loops are loops. Most
methods are proved equal to a function of the old state, and the laws of that function, over all
its runs where it is a state machine, are separate lemmas. These laws speak of the numbers,
characters, status fields and events of the program, not of the definitions they are about.

What the outside world answers (the clock, whether a seek event was accepted, the order in which a
hash map is walked, what a peer sends) is a parameter. Ghost fields hold histories that the program
itself does not store: requests sent, rows announced, writes made.

The rows of GTK's list and tree stores are sequences of records. A row reference is the number of
its row, and a row number is never used twice.

Player: each callback or user call is one step on the main loop, and a state command takes effect
at once. Messages on the bus are posted by the environment at any time and handled one by one or
in the drain loop of the stop path. Positions are in milliseconds, the clock in nanoseconds, and
the rate is a real number or a NaN, which compares false with everything.

Downloading peer: runs start at the handshake and may hold have_all, suggest, allowed-fast, choke,
unchoke, block and other messages; a block message answers an outstanding request. The shuffle of
have_all is any permutation.

## Where code and text disagree

The code was followed in each case.

- `gtk/FilterBar.cc:216` describes the count of a site as a number of torrents. The code counts
  pairs of torrent and tracker: `TrackerFilters.OneTorrentCountedTwice` is a torrent that lists one
  URL twice and is counted as two, and `TrackerFilters.CountIsTorrentsIff` says exactly when the
  count is the number of torrents.
- `gtk/BaconVideoWidget.cc:4319` says the pipeline is in READY or lower after the messages are
  worked off. `VideoPlayers.StopLeavesPaused` is a run at whose end it is in PAUSED, and
  `VideoPlayers.StopLeavesPausedIff` says exactly when it is above READY, for any messages on the
  bus, settled or not.
- Opening a file number below -1 is taken by the guard of play for a chosen file.
  `VideoPlayers.OpeningIsSafeIff` says which numbers are safe.
- BEP 6 ("Allowed Fast") lets a choked peer request allowed pieces only. The peer goes on with a
  piece it is in the middle of. `PeerConns.ChokedRequestIsAllowedIff` says exactly when a choked
  request is for a piece the other side allowed at some point of the run, and
  `PeerConns.ChokedRequestNotAllowed` is a run in which it is not.
- The usage text of the torrent generator (`examples/connection_tester.cpp:732`) promises a number
  of files. The sizes grow by 200 bytes a file, so there may be fewer.
  `TorrentGenerator.AsManyFilesAsAskedIff` says exactly when there are as many.
- The scroll step of the list view is at least eight rows, which does not fit into a low window:
  `TorrentViews.SelectionStaysInSightIff` gives the height from which the selected row stays on the
  screen in all runs, and `TorrentViews.ArrowDownKeepsWindowIff` and
  `TorrentViews.ArrowUpKeepsWindowIff` the height for one key.
- A seek to a negative position is lost when it has to wait: `VideoPlayers.NegativeSeekIsLost` is
  such a run, and `VideoPlayers.NewestSeekSurvivesIff` says for every run whether the newest request
  is lost at its end.
- Both bounds of the playback rate (`gtk/BaconVideoWidget.cc:4587-4595`) let a NaN through.
  `VideoPlayers.RateStaysInBoundsIff` says that this is the only way out of them.

## Model

| member | source | states |
|---|---|---|
| `ListModelAdapters.InverseIsUnique` | gtk/ListModelAdapter.cc:52-67 | the list determines the index: two maps that both invert it are the same map |
| `ListModelAdapters.InverseExistsIffDistinct` | gtk/ListModelAdapter.cc:52-67 | a list of ids can be indexed by position exactly when no id occurs twice |
| `ListModelAdapters.RemovalKeepsInverse` | gtk/ListModelAdapter.cc:241-259 | erasing one id and shifting the later positions down by one leaves the exact inverse of the shorter list |
| `ListModelAdapters.InsertionKeepsInverse` | gtk/ListModelAdapter.cc:262-285 | shifting the later positions up and recording a new id leaves the exact inverse of the longer list |
| `ListModelAdapters.ReplayNotification` | gtk/ListModelAdapter.cc:235-286 | the row-deleted and row-inserted events of a notification, replayed one by one on the old list, are all applicable and give the adaptee's new list |
| `ListModelAdapters.ListModelAdapter.constructor` | gtk/ListModelAdapter.cc:52-67 | a new adapter holds the adaptee's ids, its index inverts them, and every row was announced |
| `ListModelAdapters.ListModelAdapter.FindItemPositionById` | gtk/ListModelAdapter.cc:213-217 | a lookup finds the id's true position, and nothing exactly when the id is not listed |
| `ListModelAdapters.ListModelAdapter.AdjustItemPositions` | gtk/ListModelAdapter.cc:221-231 | exactly the recorded positions of the items from a position on move; no key comes or goes |
| `ListModelAdapters.ListModelAdapter.Emit` | gtk/ListModelAdapter.cc:235-286 | at every emission the index inverts the list, and the event is just what happened to the list since the last one |
| `ListModelAdapters.ListModelAdapter.RemoveRows` | gtk/ListModelAdapter.cc:241-259 | the removal loop takes out a stretch and announces it from its end to its start |
| `ListModelAdapters.ListModelAdapter.InsertRows` | gtk/ListModelAdapter.cc:262-285 | the insertion loop brings in the adaptee's ids from the front and ends with its list |
| `ListModelAdapters.ListModelAdapter.OnAdapteeItemsChanged` | gtk/ListModelAdapter.cc:235-286 | after any notification the list is the adaptee's, the index its inverse, and replaying what was announced on the old list gives the new one |
| `ListModelAdapters.ListModelAdapter.IterNext` | gtk/ListModelAdapter.cc:88-107 | next succeeds exactly on a current iterator to a listed item that is not the last, and gives the one after it |
| `ListModelAdapters.ListModelAdapter.IterChildren` | gtk/ListModelAdapter.cc:118-130 | the first child exists exactly at the root of a non-empty list |
| `ListModelAdapters.ListModelAdapter.IterNthRootChild` | gtk/ListModelAdapter.cc:138-152 | the n-th child exists exactly for positions in range, negative ones refused |
| `ListModelAdapters.ListModelAdapter.GetPath` | gtk/ListModelAdapter.cc:164-180 | the path leads back to the item the iterator stands for, and is empty exactly when there is no such row |
| `ListModelAdapters.ListModelAdapter.WalkRows` | gtk/ListModelAdapter.cc:88-180 | first child, then next until it fails, visits every item once in the adaptee's order and stops; each row's path undoes the n-th child on the way |
| `FileTrees.AggregateMeetsTarget` | gtk/FileList.cc:334-363 | summing only the immediate children's rows gives the sums over all files below, switched-off files left out, and a priority that, put through the 8-bit column, says which one all these files have or, as 233, that two differ |
| `FileTrees.PushOnTrack` | gtk/FileList.cc:423-463 | going down to the children keeps "visited, then what the stack still stands for" equal to the recursive post-order |
| `FileTrees.PopOnTrack` | gtk/FileList.cc:423-463 | coming back up to a directory and running it keeps the same equation and shrinks the measure |
| `FileTrees.LastPop` | gtk/FileList.cc:423-463 | when the stack runs empty the nodes visited are the whole recursive post-order |
| `FileTrees.RefreshMeetsTargets` | gtk/FileList.cc:240-417 | updating rows in post-order, whatever they held before, leaves every row at any depth with the sums and the priority mark of the files below it |
| `FileTrees.TargetsTell` | gtk/FileList.cc:240-417 | a row shows a priority from 0 to 7 if and only if all files below have it, and 233 if and only if two of them differ; it shows the bytes of its file, or the sums over the files below whose priority is not 0 |
| `FileTrees.RefreshTells` | gtk/FileList.cc:240-463 | the same holds for every row at any depth after a refresh of rows that held anything |
| `FileTrees.ClickGoesRound` | gtk/FileList.cc:1277-1294 | a click on a row over files of priority 4, 7, 1 or 0 gives 7, 1, 0 or 4, and on one over files that differ, or share another priority, 4 |
| `FileTrees.ScanFinds` | gtk/FileList.cc:1029-1044 | scanning all rows for paths at or below a path collects exactly the files of the subtree at that path, in order |
| `FileTrees.SelectedCovers` | gtk/FileList.cc:1094-1119 | every file below a selected row is collected |
| `FileTrees.SelectedIsSound` | gtk/FileList.cc:1094-1119 | no file is collected that is not below a selected row |
| `FileTrees.SelectedIff` | gtk/FileList.cc:1094-1119 | a file is collected for a selection exactly when it lies below a selected row |
| `FileTrees.UniformPriority` | gtk/FileList.cc:355-362 | files that all have one priority are shown as having it |
| `FileTrees.FileList.SumChildren` | gtk/FileList.cc:334-363 | the loop over the children computes the totals of their rows |
| `FileTrees.FileList.RefreshFilesForeach` | gtk/FileList.cc:240-417 | one call brings one row up to date and touches no other |
| `FileTrees.FileList.ForeachPostorder` | gtk/FileList.cc:423-463 | the loop with a stack of iterators ends, and calls the row update on exactly the recursive post-order sequence of the forest |
| `FileTrees.FileList.Refresh` | gtk/FileList.cc:240-463 | after one refresh every row says of the files below it what it should: one priority of 0 to 7 exactly when all have it, 233 exactly when two differ, and the bytes of those not switched off; rows outside the tree stay as they are |
| `FileTrees.FileList.GetActiveFilesForPath` | gtk/FileList.cc:1206-1216 | the files a click is about: exactly those below the selected rows if the clicked row is one of them, else exactly those of its subtree, in order |
| `FileTrees.FileList.SetPriorities` | gtk/FileList.cc:1304-1327 | exactly the given files get the priority, directories are skipped |
| `FileTrees.FileList.SetAndRefresh` | gtk/FileList.cc:1256-1336 | after writing priorities and refreshing, each row all of whose files were written shows the new priority, and every row is right |
| `FileTrees.FileList.OnViewPathToggled` | gtk/FileList.cc:1256-1336 | clicking a row's priority gives exactly the files the click is about, those below other selected rows included, the priority that comes after that of the files below the row, round and round 4, 7, 1, 0; before adding, every row over such files alone then shows it and every other file keeps its own; in the session, exactly these files are asked for and the rows tell what the session reports |
| `StringViews.JoinOfSplit` | gtk/tr-utils.h:178-195 | joining the tokens gives the string back except for one final delimiter |
| `StringViews.SplitOfJoin` | gtk/tr-utils.h:178-195 | splitting a join gives the tokens back when none holds the delimiter and the last is not empty |
| `FileTreeBuild.CopyOfNode` | gtk/FileList.cc:598-640 | copying a subtree visits exactly the nodes at or below its root, each once |
| `FileTreeBuild.ForestHoldsAll` | gtk/FileList.cc:598-640 | the copied forest holds every node of the tree but its root, once |
| `FileTreeBuild.AddHolds` | gtk/FileList.cc:722-766 | adding one node keeps the map from (parent, name) to node exact, and every node on the path of some file |
| `FileTreeBuild.LabelsIdentify` | gtk/FileList.cc:722-766 | two nodes with the same names from the top down are the same node, so no two siblings share a name |
| `FileTreeBuild.NodeOnPath` | gtk/FileList.cc:722-766 | for every part of a node's path there is a node, and it has a child |
| `FileTreeBuild.WalkReachesEnd` | gtk/FileList.cc:722-766 | however much of a path is there already, the walk ends at a node whose names spell the whole path |
| `FileTreeBuild.GrownHolds` | gtk/FileList.cc:722-766 | the invariant of tree, map and owners holds after growing any paths at all |
| `FileTreeBuild.PrefixFreeLeaves` | gtk/FileList.cc:722-766 | when no path is empty, repeated or a directory of another, the childless nodes are exactly the ends of the paths, each with its file's number |
| `FileTreeBuild.OneLeafPerFileIff` | gtk/FileList.cc:722-780 | the tree shows exactly one leaf per file and no other leaf if and only if no path is empty and none equals or is a directory of another |
| `FileTreeBuild.LeafSpellsPath` | gtk/FileList.cc:722-766 | for any paths, joining the names from the top to where a file ends gives the file's path, save for a final slash; for prefix-free paths that is the leaf with the file's number |
| `FileTreeBuild.LeavesAreFiles` | gtk/FileList.cc:598-640 | for any paths, every leaf carries some file's number and all row ids are distinct |
| `FileTreeBuild.SiblingsStandInOrder` | gtk/FileList.cc:598-766 | at every level the rows stand in the order in which the files first needed them: prepending on both passes turns the order round twice |
| `FileTreeBuild.OneTop` | gtk/FileList.cc:704-766 | when all paths begin with one directory, the tree has a single top row, and it has children |
| `FileTreeBuild.TopRowShowsTotal` | gtk/FileList.cc:668-807 | for every torrent of several files under one directory, none switched off, the tree has one top row and it shows the sum of all file sizes |
| `FileTreeBuild.TreeBuilder.AddNode` | gtk/FileList.cc:736-762 | a node is prepended to its parent's children and entered in the map |
| `FileTreeBuild.TreeBuilder.AddFile` | gtk/FileList.cc:722-766 | the loop over one path's tokens adds just the missing nodes |
| `FileTreeBuild.TreeBuilder.BuildFilename` | gtk/FileList.cc:1047-1064 | climbing from a node to the top and turning the names round gives the save path and the node's whole label path; an invalid handle gives nothing |
| `FileTreeBuild.GrowTree` | gtk/FileList.cc:722-766 | growing all files in order gives the tree whose invariant GrownHolds states |
| `FileTreeBuild.SetTorrentWhenAdd` | gtk/FileList.cc:668-807 | opening a torrent to be added: priorities padded with 4 to one per file, one leaf per file exactly for prefix-free paths, and every row telling of the files below it |
| `StringOrder.LessIsTotal` | gtk/FilterBar.cc:222-225 | of two different names exactly one comes before the other |
| `StringOrder.LessIff` | gtk/FilterBar.cc:222-225 | a name comes before another if and only if it is the beginning of it, or has the smaller character where they first differ |
| `TrackerFilters.CountedAllTallies` | gtk/FilterBar.cc:233-269 | the tally's map has each URL once, with its site and the number of its occurrences |
| `TrackerFilters.CountsAddUp` | gtk/FilterBar.cc:233-275 | the counts of all sites add up to the number of (torrent, tracker) pairs |
| `TrackerFilters.CountIsTorrentsIff` | gtk/FilterBar.cc:214-266 | a site's count is the number of torrents that list it if and only if no torrent lists it more than once |
| `TrackerFilters.OneTorrentCountedTwice` | gtk/FilterBar.cc:256-266 | one torrent that lists a URL twice counts as two |
| `TrackerFilters.CountTorrentsMeans` | gtk/FilterBar.cc:233-269 | the count of the first row is the number of torrents that are not null |
| `TrackerFilters.MergedShowsSites` | gtk/FilterBar.cc:284-353 | whatever rows there were, sorted or not, after the merge they are the sites in order, by name and count |
| `TrackerFilters.MergedKeepsRows` | gtk/FilterBar.cc:284-353 | each row is either an old one with only its count changed, or a new one |
| `TrackerFilters.MergedKeepsIdsDistinct` | gtk/FilterBar.cc:284-353 | no two rows are the same row |
| `TrackerFilters.MergedKeepsMost` | gtk/FilterBar.cc:284-353 | with both sides sorted, of every name exactly the smaller of the old and the new number of rows survive, repeated names included |
| `TrackerFilters.RowsReadAscending` | gtk/FilterBar.cc:178-189 | rows that show sorted sites ascend by name, character by character, and show the name with its first letter turned into a capital |
| `TrackerFilters.FilterBar.Tally` | gtk/FilterBar.cc:233-269 | the loops over torrents and trackers count every URL, and the torrents |
| `TrackerFilters.FilterBar.SortedTally` | gtk/FilterBar.cc:233-275 | whatever order the hash map is walked in, the sites come out in ascending order of their names, character by character, each once, with the right counts |
| `TrackerFilters.FilterBar.Merge` | gtk/FilterBar.cc:284-353 | the loop with an iterator that erases, inserts and updates in place ends, and computes the merge; "All" and the separator stay |
| `TrackerFilters.FilterBar.TrackerFilterModelUpdate` | gtk/FilterBar.cc:212-356 | one update, listing and sorting included: the first row counts torrents, the rest are the sites in ascending order of their names, character by character, counts add up, and as many rows of each name survive as possible |
| `TrackerFilters.FilterBar.UpdateCount` | gtk/FilterBar.cc:191-197 | the count of one row changes, nothing else |
| `VideoPlayers.PlayingIsAlwaysWanted` | gtk/BaconVideoWidget.cc:2110-2134 | in every run a playing pipeline is wanted, not buffering, and has a file, if only file numbers or -1 are opened |
| `VideoPlayers.PlayingWithoutFile` | gtk/BaconVideoWidget.cc:4131-4171 | for every number below -1 there is a run after opening it that plays with no file chosen |
| `VideoPlayers.OpeningIsSafeIff` | gtk/BaconVideoWidget.cc:4131-4236 | a number may be opened without spoiling any run that follows if and only if it is at least -1 |
| `VideoPlayers.PauseHolds` | gtk/BaconVideoWidget.cc:4244-4277 | after the user's pause no sequence of events without the user's play, buffering and seeks included, plays again |
| `VideoPlayers.RestLasts` | gtk/BaconVideoWidget.cc:2054-2167 | once nothing plays or wants to, it stays so in every run until the user's next play |
| `VideoPlayers.RateStaysInBounds` | gtk/BaconVideoWidget.cc:4572-4627 | the rate stays within 0.5 and 3.0 in every run in which no NaN is set |
| `VideoPlayers.RateStaysInBoundsIff` | gtk/BaconVideoWidget.cc:4572-4627 | the rate is within its bounds at every point of a run if and only if no NaN is set and accepted in it |
| `VideoPlayers.RateIsLastRate` | gtk/BaconVideoWidget.cc:4572-4627 | in every run in which no NaN is set, the rate is the last one since the last close that was accepted, lay between 0.5 and 3.0 and differed by 0.00001 or more from the one before, and 1.0 if there was none |
| `VideoPlayers.WantedPlaysIff` | gtk/BaconVideoWidget.cc:2177-2438 | in every run a wanted playback is playing exactly when nothing is being buffered and neither a seek nor a refused play has held it up since it last started: the ends of buffering and of the last seek start it again by themselves |
| `VideoPlayers.WantedIff` | gtk/BaconVideoWidget.cc:4107-4332 | in every run from the start, playing is wanted if and only if a play of a chosen file was not followed by a pause, stop, close, opening over an open file, initialisation or unhandled error |
| `VideoPlayers.BufferingFollows` | gtk/BaconVideoWidget.cc:2384-2438 | in every run from the start, the widget is buffering only if the last buffering message said less than 100 percent with no stop, close or unhandled error since, and surely so if nothing that might have stopped it came in between |
| `VideoPlayers.PlayingMeans` | gtk/BaconVideoWidget.cc:2177-2438 | in every run from the start that opens only file numbers or -1, a playing pipeline means that a play by the user still stands, a file is chosen, and nothing is being buffered |
| `VideoPlayers.SeeksStayInOrder` | gtk/BaconVideoWidget.cc:3876-3988 | in every run, at any rates, the positions given to the pipeline are an in-order subsequence of the requests on record, and the queue holds the newest |
| `VideoPlayers.PositionsAreAsked` | gtk/BaconVideoWidget.cc:3913-3988 | in every run from the start, each request on record is the time the user asked for, or the length known then if that is less, and each position given to the pipeline is one of these numbers, in their order |
| `VideoPlayers.GivenGrowsIff` | gtk/BaconVideoWidget.cc:3876-3988 | in every run, a seek is given to the pipeline at once if and only if it is accurate, the first, or comes more than 100000000 nanoseconds after the last one, and the rate is positive or can be made so; a queued one is given when the seek before it finishes, and it is the newest |
| `VideoPlayers.NewestSeekSurvives` | gtk/BaconVideoWidget.cc:3913-3988 | in every run of non-negative requests in which no NaN is set the newest one is queued or was the last one given to the pipeline |
| `VideoPlayers.NewestSeekSurvivesIff` | gtk/BaconVideoWidget.cc:3876-3988 | in every run, whatever the requests and rates, the newest request is lost at the end if and only if the last one was negative and had to wait, or its turn came while the pipeline could not be turned forward, with no close since |
| `VideoPlayers.NegativeSeekIsLost` | gtk/BaconVideoWidget.cc:3913-3988 | a run from the initial state, of two seeks, the second negative and too soon, loses the newest request |
| `VideoPlayers.StopLeavesPausedIff` | gtk/BaconVideoWidget.cc:4284-4332 | for any messages on the bus, stopping leaves the pipeline above READY exactly when PAUSED was wanted and the messages, worked off from READY, end in a repeated pause |
| `VideoPlayers.StopLeavesPaused` | gtk/BaconVideoWidget.cc:4284-4332 | a run from the initial state that stops with its own pause message on the bus ends wanting READY and in PAUSED |
| `VideoPlayers.EndsPausedWhenSettled` | gtk/BaconVideoWidget.cc:2110-2134 | if no pause meets a live stream, that is whenever any READY-to-PAUSED message of the pipeline is among them |
| `VideoPlayers.BaconVideoWidget.constructor` | gtk/BaconVideoWidget.cc:322-322 | a widget starts in the state the runs start in |
| `VideoPlayers.BaconVideoWidget.InitializeState` | gtk/BaconVideoWidget.cc:4107-4122 | the wanted state and the pipeline become PAUSED |
| `VideoPlayers.BaconVideoWidget.SetPlaybackDirection` | gtk/BaconVideoWidget.cc:4049-4097 | asking for the direction the rate already has always succeeds and changes nothing |
| `VideoPlayers.BaconVideoWidget.DoPlay` | gtk/BaconVideoWidget.cc:4179-4236 | play starts the pipeline unless there is no file or it is buffering, and remembers the wish in the latter case |
| `VideoPlayers.BaconVideoWidget.DoPause` | gtk/BaconVideoWidget.cc:4244-4277 | pause pauses, or stops a live stream |
| `VideoPlayers.BaconVideoWidget.StopPlayPipeline` | gtk/BaconVideoWidget.cc:4284-4332 | brings the pipeline to READY, works off the bus, and wants READY |
| `VideoPlayers.BaconVideoWidget.HandleStateChanged` | gtk/BaconVideoWidget.cc:2054-2167 | a state message of the pipeline makes it repeat the wanted pause on the way up from READY, and nothing else |
| `VideoPlayers.BaconVideoWidget.DoClose` | gtk/BaconVideoWidget.cc:4363-4411 | close stops, forgets the seeks and the length, and resets the rate |
| `VideoPlayers.BaconVideoWidget.DoOpen` | gtk/BaconVideoWidget.cc:4131-4171 | open closes what was open, and starts with an empty bus |
| `VideoPlayers.BaconVideoWidget.SeekTimeNoLock` | gtk/BaconVideoWidget.cc:3876-3903 | a seek that is carried out pauses the pipeline, empties the queue and enters the history |
| `VideoPlayers.BaconVideoWidget.SeekTime` | gtk/BaconVideoWidget.cc:3913-3988 | a request is entered as the time asked for or the length, whichever is less; it goes through when the last was long ago or it is accurate, else it replaces the queued one |
| `VideoPlayers.BaconVideoWidget.OnAsyncDone` | gtk/BaconVideoWidget.cc:2177-2210 | a finished seek carries out the queued one, or resumes |
| `VideoPlayers.BaconVideoWidget.HandleBufferingMessage` | gtk/BaconVideoWidget.cc:2384-2438 | below 100 percent a wanted playback is paused, at 100 it resumes |
| `VideoPlayers.BaconVideoWidget.OnError` | gtk/BaconVideoWidget.cc:1989-2008 | an error that nobody handled stops everything |
| `VideoPlayers.BaconVideoWidget.SetRate` | gtk/BaconVideoWidget.cc:4572-4627 | a new rate is taken exactly when it differs, does not lie outside the bounds and is accepted; a NaN passes all comparisons |
| `PeerConns.StepKeepsInv` | examples/connection_tester.cpp:347-467 | every step keeps the books of the peer in order: pieces in one place each, requests the blocks that are gone, the counter exact and bounded |
| `PeerConns.PickKeeps` | examples/connection_tester.cpp:347-385 | choosing a piece always finds one (the assertion failure is unreachable) and only moves it |
| `PeerConns.AdvanceRequests` | examples/connection_tester.cpp:386-408 | the block about to be requested was never requested before, and afterwards one more is gone |
| `PeerConns.RequestsInSequence` | examples/connection_tester.cpp:347-408 | in every run the blocks of a piece are requested one after the other from its first, and no other piece in between |
| `PeerConns.OldestFirst` | examples/connection_tester.cpp:347-385 | in every run, when a piece is begun while unchoked, all pieces suggested before it have been, and if it was never suggested all suggested ones and all before it in the shuffled order; while choked it was allowed, and the pieces allowed before it have been begun |
| `PeerConns.PipelineIsFull` | examples/connection_tester.cpp:446-467 | in every run, after have_all, the peer only goes on to wait for a message with 40 requests unanswered or with everything requested that the messages so far let it ask for, save after a have message or the last block of a piece |
| `PeerConns.AllowedIsGranted` | examples/connection_tester.cpp:652-661 | a piece that is allowed before it is suggested or begun counts among those that a choked peer goes on asking for |
| `PeerConns.RunKeepsInv` | examples/connection_tester.cpp:547-663 | the invariant holds in every run of messages and completed writes |
| `PeerConns.EachPieceInOnePlace` | examples/connection_tester.cpp:547-663 | from have_all on, every piece is on exactly one of the main, suggested and allowed-fast lists, or current, or fully requested |
| `PeerConns.RequestsAreExact` | examples/connection_tester.cpp:347-420 | in every run no block is requested twice, all are real blocks, the answered ones are exactly those of the block messages and were requested, and outstanding is requested minus answered, between 0 and 40 |
| `PeerConns.CompletedMeansDelivered` | examples/connection_tester.cpp:446-467 | "COMPLETED DOWNLOAD" means that every block of every piece was requested exactly once and answered |
| `PeerConns.CompletedIff` | examples/connection_tester.cpp:446-467 | in every run, a step that looks for work reports completion if and only if every block of every piece has been answered |
| `PeerConns.HaveIsSentIff` | examples/connection_tester.cpp:582-616 | a have message is sent exactly after the last block of a piece, and then no request is |
| `PeerConns.SecondHaveAll` | examples/connection_tester.cpp:549-556 | a second have_all keeps the books exactly when no piece has left the main list yet |
| `PeerConns.ChokedIff` | examples/connection_tester.cpp:644-651 | in every run from the handshake the peer counts as choked if and only if no unchoke has arrived since the last choke, or none at all |
| `PeerConns.ChokedIsQuiet` | examples/connection_tester.cpp:347-350 | in every run, as long as that is so, no request is sent unless an allowed-fast message has arrived or a piece is under way |
| `PeerConns.ChokedRequestIsAllowedIff` | examples/connection_tester.cpp:347-385 | in every run, a request sent while no unchoke is the last of the chokes and unchokes is for a piece the other side allowed by a message of that run, also one ignored here, exactly when no piece was under way or the piece under way was allowed |
| `PeerConns.ChokedRequestNotAllowed` | examples/connection_tester.cpp:347-408 | a run from the handshake at whose end a choked peer is asked for a piece it never allowed |
| `PeerConns.PeerConn.constructor` | examples/connection_tester.cpp:154-181 | a new connection is in the state all runs start in |
| `PeerConns.PeerConn.PickNextPiece` | examples/connection_tester.cpp:347-385 | whenever a request may be sent a piece is chosen, choked or not, in the source's order of preference |
| `PeerConns.PeerConn.WriteRequest` | examples/connection_tester.cpp:347-408 | a request is sent exactly when there is something the peer may be asked for |
| `PeerConns.PeerConn.DoWorkDownload` | examples/connection_tester.cpp:446-467 | completion is reported, or a request sent while the pipeline has room, or the next message awaited |
| `PeerConns.PeerConn.OnHandshake` | examples/connection_tester.cpp:280-301 | after the handshake the peer does what it does after every step: report completion, send a request, or wait for a message |
| `PeerConns.PeerConn.OnRequestSent` | examples/connection_tester.cpp:410-420 | a sent request leads to the next one |
| `PeerConns.PeerConn.OnHaveSent` | examples/connection_tester.cpp:715-722 | after a have message was sent only the next message is awaited; no request is sent |
| `PeerConns.PeerConn.OnMessage` | examples/connection_tester.cpp:547-663 | each message is one step of the protocol machine; a choke and an unchoke set what they say, and no other message touches that |
| `TorrentGenerator.SizesAreUnique` | examples/connection_tester.cpp:830-843 | sum, growth by 200 and the cut last file leave only one list of sizes |
| `TorrentGenerator.AsManyFilesAsAskedIff` | examples/connection_tester.cpp:830-843 | there are never more files than asked for, and as many exactly when all but one of them do not yet fill the torrent |
| `TorrentGenerator.FewerFilesThanAsked` | examples/connection_tester.cpp:830-843 | one megabyte in a hundred files gives fewer than a hundred |
| `TorrentGenerator.GenerateFiles` | examples/connection_tester.cpp:824-843 | the loop ends within as many rounds as files were asked for, and the sizes add up to the total exactly |
| `TorrentGenerator.CutsSplit` | examples/connection_tester.cpp:855-862 | the ranges of the threads follow each other from the first piece to the last |
| `TorrentGenerator.ThreadsAreDisjoint` | examples/connection_tester.cpp:855-862 | no piece belongs to two threads |
| `TorrentGenerator.ThreadsCover` | examples/connection_tester.cpp:855-862 | every piece belongs to some thread |
| `TorrentGenerator.ThreadsShareEvenly` | examples/connection_tester.cpp:855-862 | each thread gets an even share of the pieces, rounded down or up |
| `TorrentGenerator.EachHashWrittenOnce` | examples/connection_tester.cpp:763-862 | however the threads interleave, every slot of the list of hashes is written, and exactly once |
| `TorrentGenerator.WritesStayInside` | examples/connection_tester.cpp:763-862 | no thread writes outside the list of hashes |
| `TrackerText.ParsedIsPlain` | gtk/DetailsDialog.cc:2209-2253 | whatever the text, the URLs read are trimmed, non-empty and free of line breaks |
| `TrackerText.StripMeans` | gtk/tr-utils.cc:259-273 | stripping takes off exactly the spaces, tabs, line feeds, vertical tabs, form feeds and carriage returns at both ends |
| `TrackerText.ParsedLineByLine` | gtk/DetailsDialog.cc:2209-2253 | whatever the text, there is one entry per line that is not blank, in order, and its tier is the number of blank lines before it modulo 256 |
| `TrackerText.RenumberCountsChanges` | gtk/DetailsDialog.cc:2209-2253 | the renumbered tier of an entry is the number of tier changes before it, modulo 256 |
| `TrackerText.ParsePrint` | gtk/DetailsDialog.cc:2209-2284 | printing and reading back keeps the URLs in order and renumbers the tiers |
| `TrackerText.RoundTripIff` | gtk/DetailsDialog.cc:2209-2284 | any list comes back unchanged if and only if its URLs are trimmed, non-empty and on one line and its tiers start at 0 and step by 0 or 1 (modulo 256) |
| `TrackerText.PrintIsStable` | gtk/DetailsDialog.cc:2209-2284 | printing, reading and printing again gives the same text |
| `TrackerText.NormalForm` | gtk/DetailsDialog.cc:2209-2284 | any text at all, read and printed once, does not change any more |
| `TrackerText.UrlTxtToAnnounceEntryVec` | gtk/DetailsDialog.cc:2209-2253 | the reading loop agrees with the recursive reading, with its 8-bit tier |
| `TrackerText.AnnounceEntryVecToTxt` | gtk/DetailsDialog.cc:2265-2284 | the printing loop agrees with the recursive printing |
| `TrackerText.IsValidUrlTxt` | gtk/DetailsDialog.cc:2287-2317 | a text is accepted exactly when every URL the reader finds in it is valid |
| `RowStores.RefreshedShape` | gtk/DetailsDialog.cc:2068-2177 | after a refresh there is one row per key of the input and no other; rows whose key stays keep their identity, and a new row is what the entries with its key make of the row for the first of them |
| `RowStores.TouchedIsUpToDate` | gtk/DetailsDialog.cc:2111-2132 | the update pass gives each row the updates by the entries with its key, one after the other, and no other |
| `RowStores.TouchByReference` | gtk/DetailsDialog.cc:2111-2132 | the lookup never fails, and updating the one row the hash refers to updates every row with that key |
| `RowStores.KeptKeys` | gtk/DetailsDialog.cc:2158-2173 | sweeping rows marked by key leaves exactly the wanted keys |
| `RowStores.Store.AddNew` | gtk/DetailsDialog.cc:2082-2108 | entries with unknown keys get a row and a hash entry, once each even if repeated |
| `RowStores.Store.UpdateRow` | gtk/DetailsDialog.cc:1470-1476 | one row is updated through its reference, all others stay |
| `RowStores.Store.Sweep` | gtk/DetailsDialog.cc:1480-1496 | the loop that erases while walking leaves exactly the updated rows, in order, and a hash that agrees |
| `RowStores.Store.Refresh` | gtk/DetailsDialog.cc:1435-1503 | hash keys, row keys and input keys coincide, every reference points at the row with its key, old rows survive as the same rows, and every row's data is accounted for |
| `TorrentViews.TabsAddUp` | examples/torrent_view.cpp:506-530 | the tabs 1, 3, 4 and 5 share out all torrents, and the first two make up tab 2 |
| `TorrentViews.StrictWeakOrder` | examples/torrent_view.cpp:94-123 | all three comparisons are strict weak orders, as sorting requires |
| `TorrentViews.SortedReadsInOrder` | examples/torrent_view.cpp:94-123 | a list is in order if and only if, by queue, torrents with a position come first, by position, then the others by falling seed rank and then hash; by name, names ascend character by character; by size, the bytes done fall |
| `TorrentViews.Sort` | examples/torrent_view.cpp:556-570 | the list becomes a sorted permutation of itself |
| `TorrentViews.ExactMeans` | examples/torrent_view.cpp:536-553 | the list has no duplicates and holds exactly the torrents whose flags and state are those its tab stands for, tab by tab from 0 to 6 |
| `TorrentViews.ListOutlivesUpdate` | examples/torrent_view.cpp:207-239 | an update during which no torrent starts or stops passing leaves the list right without a rebuild |
| `TorrentViews.RemovedKeepsExact` | examples/torrent_view.cpp:189-205 | removing a torrent leaves no dangling entry, though the list is only searched when the torrent is shown |
| `TorrentViews.RemovedGoesAlone` | examples/torrent_view.cpp:189-205 | a removal takes the torrent out of the map and the list, and no other |
| `TorrentViews.AlwaysExact` | examples/torrent_view.cpp:143-239 | in every run of updates, removals, filters, orders and keys, the list holds exactly the torrents whose flags and state its tab stands for, for each of the seven tabs, each once |
| `TorrentViews.FinishingChangesTabs` | examples/torrent_view.cpp:506-530 | in every run, a running torrent that finishes leaves tab 1, and tab 6 if it was being checked, enters tab 3, and changes no other tab; no other torrent moves |
| `TorrentViews.PausingChangesTabs` | examples/torrent_view.cpp:506-530 | in every run, a torrent that is paused leaves tab 2 and tab 1 or 3, and enters tab 4 if it is auto-managed and tab 5 if not |
| `TorrentViews.StoppingChangesTabs` | examples/torrent_view.cpp:506-530 | in every run, a paused torrent that is no longer auto-managed goes from tab 4 to tab 5 |
| `TorrentViews.UpdatedIsLatest` | examples/torrent_view.cpp:207-239 | after an update a torrent has the last status given for it |
| `TorrentViews.UpdatedLeavesOthers` | examples/torrent_view.cpp:207-239 | a torrent that no status speaks of keeps its own |
| `TorrentViews.SortedIffNeighbours` | examples/torrent_view.cpp:94-123 | a list is in order exactly when no torrent should come before the one just above it |
| `TorrentViews.OrderSurvivesIff` | examples/torrent_view.cpp:189-239 | after one step an ordered list is still in order if and only if the step was not an update without a rebuild that puts two neighbours the wrong way round |
| `TorrentViews.AlwaysInOrderIff` | examples/torrent_view.cpp:143-239 | in every run the list is in order all the time if and only if no step was such an update |
| `TorrentViews.OrderIsLost` | examples/torrent_view.cpp:207-239 | a run from the initial view after whose second update, of a queue position, the list is out of order |
| `TorrentViews.RebuildKeepsWindow` | examples/torrent_view.cpp:536-553 | after a rebuild of any length the selection is in the list and in the window |
| `TorrentViews.RebuildMovesLittle` | examples/torrent_view.cpp:536-553 | a rebuild keeps the selected row number if the list is long enough for it, and the window unless it would show rows past the end |
| `TorrentViews.SelectionStaysInSight` | examples/torrent_view.cpp:207-325 | in every run without removals and with eleven lines or more, the selected row is in the list and on the screen |
| `TorrentViews.SelectionStaysInSightIff` | examples/torrent_view.cpp:207-325 | the selected row stays in the list and on the screen in all runs without removals if and only if there are at least eleven lines; below that a run of updates and down keys loses it |
| `TorrentViews.KeysMoveByOne` | examples/torrent_view.cpp:276-325 | each key moves the selection by one row and stops at the ends, the up key takes back the down key, and the window only moves when the row would leave it, by eight rows or a third of the height beyond it |
| `TorrentViews.ArrowDownKeepsWindowIff` | examples/torrent_view.cpp:300-325 | the down key keeps the selection on the screen, from every exact list with the selection in sight, if and only if there are at least eleven lines |
| `TorrentViews.ArrowUpKeepsWindowIff` | examples/torrent_view.cpp:276-298 | the same for the up key |
| `TorrentViews.RemovalKeepsSelectionIff` | examples/torrent_view.cpp:189-205 | a removal leaves the window alone, and leaves the selection in the list unless it takes a shown torrent while the last row, not the first, is selected |
| `TorrentViews.TorrentView.UpdateFilteredTorrents` | examples/torrent_view.cpp:536-553 | for any walk order of the hash map the rebuild lists exactly the torrents whose flags and state the tab stands for, in the order of their queue positions, names or sizes, with a clamped selection and window |
| `TorrentViews.TorrentView.SetFilter` | examples/torrent_view.cpp:143-150 | a new filter rebuilds, the same one does nothing |
| `TorrentViews.TorrentView.SetSortOrder` | examples/torrent_view.cpp:157-164 | a new order sorts the same torrents |
| `TorrentViews.TorrentView.RemoveTorrent` | examples/torrent_view.cpp:189-205 | an unknown handle changes nothing; a known one leaves the map, and the list if shown |
| `TorrentViews.TorrentView.UpdateTorrents` | examples/torrent_view.cpp:207-239 | statuses are taken in order, and a rebuild follows exactly when some torrent started or stopped passing on the way |
| `TorrentViews.TorrentView.ArrowUp` | examples/torrent_view.cpp:276-298 | the selection goes up one row, scrolling when it leaves the window |
| `TorrentViews.TorrentView.ArrowDown` | examples/torrent_view.cpp:300-325 | the selection goes down one row, scrolling when it leaves the window |
| `TorrentViews.TorrentView.GetActiveHandle` | examples/torrent_view.cpp:177-187 | gives the selected torrent after clamping, and none exactly when nothing is shown |
| `PieceSizes.PieceSizeBounds` | examples/custom_storage.cpp:123-128 | every piece, the last included, holds between one byte and a piece length |
| `PieceSizes.PieceSizesAddUp` | examples/custom_storage.cpp:123-128 | the piece sizes add up to the total |
| `CustomStorage.OverlayIsLatest` | examples/custom_storage.cpp:46-75 | the overlay has, at each offset, the byte of the latest write that covers it |
| `CustomStorage.UntouchedIsZero` | examples/custom_storage.cpp:63-75 | an offset that no write covers holds zero |
| `CustomStorage.TempStorage.Readv` | examples/custom_storage.cpp:46-62 | reading gives the overlay of all writes so far, cut at the end of the piece, and fails exactly for unwritten pieces or offsets past the end |
| `CustomStorage.TempStorage.Writev` | examples/custom_storage.cpp:63-75 | a write adds itself to the overlay, and no buffer that exists ever moves or changes its length |
| `CustomStorage.NewTorrentKeeps` | examples/custom_storage.cpp:149-159 | a new torrent gets a slot that is empty or new, no live storage is overwritten, and the stack of free slots stays exact |
| `CustomStorage.RemoveTorrentKeepsIff` | examples/custom_storage.cpp:161-165 | removing a slot keeps the stack of free slots exact if and only if the slot is in use |
| `CustomStorage.LastEmptiedFirst` | examples/custom_storage.cpp:149-165 | the slot emptied last is the first to be used again, which undoes the removal |
| `CustomStorage.StorageStays` | examples/custom_storage.cpp:149-165 | through every run that does not remove it, a storage stays in its slot |
| `CustomStorage.TableIsPeak` | examples/custom_storage.cpp:134-165 | after every run the table is exactly as long as the most torrents that were live at once |
| `CustomStorage.TempDiskIo.constructor` | examples/custom_storage.cpp:142-145 | a session starts with an empty table |
| `CustomStorage.TempDiskIo.NewTorrent` | examples/custom_storage.cpp:149-159 | a fresh storage of the given sizes goes into the slot on top of the stack, or a new one |
| `CustomStorage.TempDiskIo.RemoveTorrent` | examples/custom_storage.cpp:161-165 | the slot is emptied and handed back |
| `CustomStorage.TempDiskIo.AsyncRead` | examples/custom_storage.cpp:169-181 | a read gives what was last written to this storage |
| `CustomStorage.TempDiskIo.AsyncWrite` | examples/custom_storage.cpp:183-194 | a write reaches its own storage and no other |
| `PadRanges.PadFilesAscend` | Play/make_torrent.cpp:50-78 | the collected ranges do not overlap and are in order |
| `PadRanges.PadFilesHold` | Play/make_torrent.cpp:50-78 | an offset lies in a collected range exactly when it lies in a pad file, zero-sized files included |
| `PadRanges.PopFront` | Play/make_torrent.cpp:112-113 | popping a range that has ended loses no offset still to come |
| `PadRanges.FrontDecides` | Play/make_torrent.cpp:112-118 | after popping, the front range alone tells whether an offset lies in any range |
| `PadRanges.PieceBounds` | Play/make_torrent.cpp:99-106 | each piece holds something, fits, and ends where the next begins or the torrent ends |
| `PadRanges.CollectFiles` | Play/make_torrent.cpp:24-79 | total size and ranges come out of one pass; a single file never counts as a pad file |
| `PadRanges.HashPiece` | Play/make_torrent.cpp:108-123 | the bytes of a piece are zero exactly in pad files and the low byte of the piece number elsewhere |
| `PadRanges.MakeTestTorrent` | Play/make_torrent.cpp:97-125 | the pieces together are the torrent's bytes, each of its size, and the running offset ends at the total |
| `RecentDirs.TakeBeforeOrAfter` | gtk/Prefs.cc:405-441 | cutting the list before adding at its front, or only after, makes no difference |
| `RecentDirs.NonEmptyOfResized` | gtk/Prefs.cc:369-441 | reading back a list written padded to four gives its first four entries |
| `RecentDirs.SaveKeepsMostRecent` | gtk/Prefs.cc:405-441 | one save, of a non-empty directory or an empty one, turns the first four distinct entries of the reversed history into those of the longer history |
| `RecentDirs.MostRecentMeans` | gtk/Prefs.cc:369-441 | the directories read back are at most four, each once, the last saved first, and one that is left out was last saved before each of four others |
| `RecentDirs.OtherKeyUnchanged` | gtk/Prefs.cc:405-441 | saving under one key leaves the other key's history as it was |
| `RecentDirs.Session.GetRecentDirs` | gtk/Prefs.cc:375-403 | after any saves, reading back gives the first at most four distinct non-empty directories of the reversed history |
| `RecentDirs.Session.SaveRecentDir` | gtk/Prefs.cc:405-441 | a save writes all four preferences of its key and none of the other |

## Left out

- GTK widgets, icons, translations, rendering and number formatting.
- Elements, pads, caps and tags of the media framework; only the states, positions and times the control logic reads are kept, as inputs.
- Delayed completion of state changes in the media framework: a state command takes effect at once.
- That a queued seek is carried out in the end: a request shortly after a finished seek is queued with nothing outstanding, so only safety is stated.
- The volume, the seek bar and the frame-accurate flags of the player, and the tag and stream selection.
- `PeerConns.PeerConn.OnMessage`: does not model the have, bitfield and reject messages, the reconnecting and the verification of downloaded data.
- The uploading half of the connection tester.
- Progress after unchoke: pieces left on the allowed-fast list are not picked once unchoked.
- The contents of the tester's blocks and the file slices its hashing threads walk through.
- Renaming a directory in the file list (`gtk/FileList.cc:1346-1400`), whose separator test also holds for "not found".
- Opening a torrent that is in the session already (`gtk/FileList.cc:818-949`) grows the same tree from another list of paths; only the add dialog's entry is modelled.
- `FileTreeBuild.TreeBuilder.BuildFilename`: does not model how the toolkit joins the tokens into one string.
- The progress column and the enabled column of the file list, and the row-changed signals.
- The sorting of the file rows by name once they are there.
- Favicons, the display filter and the visibility of rows in the filter bar.
- The columns of the tracker and peer rows beyond key, identity and update mark: their contents are a function parameter.
- The `parse_trackers_txt` of `gtk/MakeDialog.cc`, a copy of the reader modelled here.
- Drawing in the list view, which also drops handles that have become invalid; handles are taken to stay valid, and the height to stay fixed.
- The hash functions over the piece buffers of the in-memory storage.
- `PadRanges.MakeTestTorrent`: does not model negative file sizes, which the text-to-number conversion would let through.
- The width of 64-bit sizes and positions, which are unbounded numbers here; the 8-bit priority column and the 8-bit tier are modelled with their truncation.
- `PadRanges.CollectFiles`: does not model 32-bit overflow of the total size.
- What the session makes of the priorities it is asked for, and when: the priorities it reports are an input.
- Priorities of files above 7, which the library does not hand out.
- Sockets, threads other than the hashing ones, files, bencoding, and the session of the torrent library.
