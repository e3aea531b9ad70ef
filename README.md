# mounttab workspace model in Dafny

mounttab keeps a *workspace*, a collection of browser tabs, consistent
across several replicas: the running browser, a JSON file on disk, a
watched directory and remote clients. Each replica has an adapter. An
adapter that sees its replica change diffs a fresh snapshot against the
canonical workspace, applies the resulting `OpenTab`/`CloseTab` actions,
and publishes each action on a broadcast bus, tagged with its own source
name. Every other adapter acts on the envelopes of other sources and
skips its own echo.

The repository holds several drafts of this design. This project models
the sequential core of each draft, one module per source file:

- `UrlWorkspace` (`src/model.rs`): tabs are a list of URLs, and the same
  URL may occur several times. `CloseTab` removes the first occurrence,
  and the diff counts occurrences with two frequency tables. Its main
  theorem is convergence: applying the diff of `A` against `B` to `A`
  gives `B`'s multiset. The hash maps' iteration order is unspecified,
  so the diff method picks the next key nondeterministically. Its result
  is specified by the `IsDiff` predicate: the opens come first, and the
  opened and closed URLs are the two multiset differences.
- `ExistenceWorkspace` (`cli/src/model2.rs`): tabs are `Tab { url }`
  records. `CloseTab` removes every tab with that URL, and the diff only
  checks whether a URL is present. It converges on URL sets, not counts.
- `TabHolder` (`extension/src/model.ts`): the extension's tabs record,
  keyed by id, and its id remapping table.
- `TitleTabList` (`src/main.rs`): the title/id list whose new ids are
  `tab-<length>`.
- `WatchEvents` (`src/main.rs`, `src/lib.rs`, `cli/src/file_watcher.rs`):
  translates watcher events into actions by stripping the canonical
  watched directory from the event's first path. A path is a sequence of
  components plus an "absolute" flag. The result of `fs::canonicalize` is
  a parameter that may be `None`. The copy in `cli/src/file_watcher.rs`
  has the same text as the one in `src/lib.rs`, so one function models
  both.
- `FileWatcher` (`cli/src/file_watcher.rs`): the watcher callback. It
  forwards each translated action on a bounded channel, and a failed send
  is reported and dropped.
- `ActionBus`: envelopes, the bus as the log of published envelopes plus
  the outcomes of its sends, and the echo filter.
- `Outcomes`: the outcome of each request made to something outside the
  model (the browser's `new_page`, the channel's receiver, the bus's
  subscribers). Requests are numbered in the order they are made, and any
  one of them may fail, whatever the earlier ones did. `Kept` is what gets
  through of a run of fire-and-forget requests.
- `JsonStorage` (`cli/src/json_storage.rs`):
  - the store as the file's contents, plus whether writing it succeeds;
  - the subscriber loop, which skips `"fs"` envelopes and saves after
    each applied action;
  - the watcher loop, which publishes each event's diff tagged `"fs"`.
- `BrowserAdapter` (`src/browser.rs`):
  - the snapshot of the browser's pages;
  - opening the stored tabs;
  - the poll, diff, apply and publish tick.
- `CliBrowser` (`cli/src/browser.rs`): the same tick without publishing.

The browser's pages, the watcher's deliveries, the file's contents, the
results of canonicalization and the outcome of each request are inputs to
the model. The loops that
run forever in the source run here over a finite sequence of such inputs.

The system's design intends some things the code does not do; the model
follows the code:

- The source tags are `"fs"` and `"browser"`, as the code writes them.
- The existence-only `CloseTab` removes every matching tab, where the
  design asks for one occurrence to be removed.
- Steady-state errors are meant to be non-fatal, but the code's `?` makes
  a failed snapshot or a failed publish end the browser loop.
- Publishing is meant to be fire-and-forget, but `send` returns an error
  when the bus has no receiver, and the browser loop then ends.
- The extension's action has no `RemoveTab` variant.

`cli/src/browser.rs` is written against the URL-list workspace of
`src/model.rs` (`tabs: Vec<Url>`, `WorkspaceManger`). It is therefore
modelled on `UrlWorkspace`.

## Model

| member | source | states |
|---|---|---|
| UrlWorkspace.Position | src/model.rs:31 | the first index holding the URL, with no earlier occurrence; none exactly when the URL is absent |
| UrlWorkspace.Workspace.FindTab | src/model.rs:21-23 | finds a tab exactly when the URL is in the list, and the tab found is that URL |
| UrlWorkspace.Applied | src/model.rs:25-36 | OpenTab appends at the end and keeps every earlier entry; CloseTab takes one occurrence off the multiset and changes nothing when the URL is absent |
| UrlWorkspace.CloseRemovesFirst | src/model.rs:30-34 | CloseTab removes exactly the first occurrence and keeps the other tabs in order |
| UrlWorkspace.Workspace.ApplyAction | src/model.rs:25-36 | the in-place push/remove leaves the list as `Applied` says |
| UrlWorkspace.CountOccurrences | src/model.rs:43-51 | the frequency table has exactly the URLs of the list as keys, each mapped to its number of occurrences |
| UrlWorkspace.PushCopies | src/model.rs:56-58 | the inner loop appends `count - self_count` copies, and none when that difference is not positive (an empty range) |
| UrlWorkspace.PushOpens | src/model.rs:53-59 | in any iteration order, only OpenTabs are emitted, and their URL multiset is target minus current |
| UrlWorkspace.PushCloses | src/model.rs:61-67 | in any iteration order, CloseTabs are appended after the opens, which are kept unchanged, and their URL multiset is current minus target |
| UrlWorkspace.Workspace.ActionsFromDiff | src/model.rs:38-70 | the result is a diff: every OpenTab precedes every CloseTab, and for each URL there are max(0, target - current) opens and max(0, current - target) closes |
| UrlWorkspace.ApplyAllMultiset | src/model.rs:25-36 | applying an opens-first sequence adds the opened multiset, then subtracts the closed one (truncated at zero) |
| UrlWorkspace.Convergence | src/model.rs:25-70 | applying any diff of current against target to current gives target's multiset of URLs |
| UrlWorkspace.DiffLength | src/model.rs:53-67 | the number of actions is the sum over URLs of the absolute count difference |
| UrlWorkspace.DiffOfReorderingIsEmpty | src/model.rs:38-70 | the diff is empty when the target is the current list or any reordering of it |
| UrlWorkspace.DuplicateClosesOnce | src/model.rs:61-67 | two copies of a URL against one give exactly one CloseTab |
| UrlWorkspace.OpenTwiceCloseOnce | src/model.rs:25-36 | opening a URL twice and closing it once leaves exactly one entry |
| ExistenceWorkspace.First | cli/src/model2.rs:29-31 | finds a tab exactly when some tab has the URL, and it has that URL |
| ExistenceWorkspace.Workspace.FindTab | cli/src/model2.rs:29-31 | finds a tab exactly when the URL is present, and the tab found is `Tab(url)` |
| ExistenceWorkspace.Applied | cli/src/model2.rs:33-43 | OpenTab appends the tab; CloseTab leaves exactly the other URLs and is a no-op when the URL is absent |
| ExistenceWorkspace.WithoutCount | cli/src/model2.rs:40 | `retain` drops every copy of the closed URL and keeps every copy of the others |
| ExistenceWorkspace.FiltersConcat | cli/src/model2.rs:40-56 | `retain` and the diff's filters distribute over concatenation, so they keep order |
| ExistenceWorkspace.Workspace.ApplyAction | cli/src/model2.rs:33-43 | the in-place push/retain leaves the list as `Applied` says |
| ExistenceWorkspace.Workspace.OpensOfMissing | cli/src/model2.rs:48-60 | the first loop emits one OpenTab per target tab whose URL current lacks, in target order and with its repetitions |
| ExistenceWorkspace.Workspace.ClosesOfMissing | cli/src/model2.rs:53-64 | the second loop appends, after the opens, one CloseTab per current tab whose URL target lacks, in current order |
| ExistenceWorkspace.Workspace.ActionsFromDiff | cli/src/model2.rs:45-67 | the result is the opens of the missing target tabs, then the closes of the missing current tabs |
| ExistenceWorkspace.DiffCounts | cli/src/model2.rs:45-67 | a URL present in both workspaces gets no action whatever its counts; otherwise the diff opens it as often as target has it, or closes it as often as current has it |
| ExistenceWorkspace.ApplyOpens | cli/src/model2.rs:35-38 | applying the opens of some tabs appends exactly those tabs |
| ExistenceWorkspace.ApplyCloses | cli/src/model2.rs:39-41 | applying the closes of some tabs removes exactly their URLs from the URL set |
| ExistenceWorkspace.Convergence | cli/src/model2.rs:33-67 | applying the diff of current against target gives exactly target's URL set |
| ExistenceWorkspace.DiffOfSelfIsEmpty | cli/src/model2.rs:48-56 | a workspace diffed against itself gives no action |
| ExistenceWorkspace.OneAgainstTwo | cli/src/model2.rs:48-56 | current `[a]` against target `[a, a]` gives no action |
| ExistenceWorkspace.DuplicateOpens | cli/src/model2.rs:48-60 | a target repeating a URL that current lacks opens it once per repetition |
| TabHolder.Remapped | extension/src/model.ts:40-45 | the table's entry for the id when it has one, the id itself otherwise; `Holder.GetNewIdFromId` is this lookup on the holder's table |
| TabHolder.Holder.UpdateTabId | extension/src/model.ts:35-37 | afterwards the old id looks up to the new id, and every other lookup and the tabs record are unchanged |
| TabHolder.RemappedAfterUpdate | extension/src/model.ts:35-45 | setting one entry changes the lookup of that id only |
| TabHolder.ChainedRemapIsOneStep | extension/src/model.ts:41-43 | lookup is one step: with a→b and b→c, a maps to b |
| TabHolder.Applied | extension/src/model.ts:49-58 | open/close sets `is_open` on the named tab only; a URL change changes only that tab's URL; create inserts or overwrites `{id, false, ""}`; every other tab is unchanged |
| TabHolder.AppliedKeepsKeyed | extension/src/model.ts:49-58 | no action stores a tab under another tab's id |
| TabHolder.EmptyIdIsSkipped | extension/src/model.ts:49-58 | an empty-string id is falsy, so a later field of the action is applied instead |
| TabHolder.OpenTabWins | extension/src/model.ts:49-50 | a truthy OpenTab is applied whatever the other fields hold |
| TabHolder.Holder.ApplyActionToTabHolder | extension/src/model.ts:47-60 | applies the first truthy field's effect to the tabs record and never changes the id table |
| TitleTabList.DecimalString | src/main.rs:24 | decimal digits without a leading zero |
| TitleTabList.ParsePrinted | src/main.rs:24 | reading the printed number back gives the number |
| TitleTabList.TabId | src/main.rs:24 | the id is `tab-` followed by the printed length |
| TitleTabList.TabIdInjective | src/main.rs:24 | different lengths give different ids |
| TitleTabList.WithoutId | src/main.rs:28 | `retain` keeps exactly the tabs with another id |
| TitleTabList.WithoutIdConcat | src/main.rs:28 | `retain` keeps order |
| TitleTabList.WithoutAbsentId | src/main.rs:27-29 | closing an id no tab has changes nothing |
| TitleTabList.Handled | src/main.rs:21-31 | OpenTab appends a tab with id `tab-<length before the push>`; CloseTab keeps exactly the tabs with another id |
| TitleTabList.TabList.HandleAction | src/main.rs:21-31 | the in-place update leaves the list as `Handled` says |
| TitleTabList.FirstIds | src/main.rs:24 | the first two ids are `tab-0` and `tab-1` |
| TitleTabList.IdsRepeatAfterClose | src/main.rs:24-28 | open a, open b, close `tab-0`, open c leaves two tabs with the id `tab-1` |
| TitleTabList.OpensAppendNumbered | src/main.rs:23-25 | only opens append one numbered tab per open, in order |
| TitleTabList.DistinctIdsFromOpens | src/main.rs:23-25 | opens only, from an empty list: the i-th tab has the i-th title and id `tab-i`, and no two ids are equal |
| WatchEvents.StripPrefix | src/lib.rs:58 | succeeds exactly when the base's components are a prefix of the path's, and gives the remaining components as a relative path |
| WatchEvents.StripJoined | src/lib.rs:58 | stripping a base from a path built on it gives back the rest of the path |
| WatchEvents.EventToAction | src/lib.rs:49-90 | an action only for Create/Remove after canonicalization succeeds and the first path lies under the base; it names the relative path, and it is an open exactly for Create |
| WatchEvents.UnderBase | cli/src/file_watcher.rs:45-81 | a file created or removed under the watched directory gives `Some(OpenTab(relative))` or `Some(CloseTab(relative))` |
| WatchEvents.NotUnderBase | cli/src/file_watcher.rs:52-72 | a failed canonicalization, or a path outside the base, gives no action |
| WatchEvents.OnlyFirstPath | src/lib.rs:58-74 | only the event's first path affects the result |
| WatchEvents.EventToActions | src/main.rs:78-108 | Create behaves like the Option variant; Remove gives exactly `[CloseTab(full unstripped path)]`; other kinds give `[]` |
| WatchEvents.DisplayKeepsRoot | src/main.rs:100 | an absolute path never prints like a relative well-formed one |
| WatchEvents.ListCreateRemoveMismatch | src/main.rs:82-101 | creating then removing a file under an absolute base opens the relative name and closes the absolute one, and the two names differ |
| WatchEvents.OptionCreateRemoveMatch | src/lib.rs:51-80 | the same two events open and close the same relative name |
| FileWatcher.Forwarded | cli/src/file_watcher.rs:15-31 | a watch error sends nothing; an event sends its translated action when there is one |
| FileWatcher.ForwardedAllLength | cli/src/file_watcher.rs:15-31 | at most one action per delivery |
| FileWatcher.ErrorsSendNothing | cli/src/file_watcher.rs:16-22 | a run of watch errors sends nothing |
| FileWatcher.Channel.BlockingSend | cli/src/file_watcher.rs:27-30 | each send has its own outcome; a successful one appends the action, a failed one delivers nothing |
| FileWatcher.Callback | cli/src/file_watcher.rs:15-31 | one send per forwarded action; the channel receives it exactly when that send succeeds, and a failed send is reported and the callback carries on |
| FileWatcher.WatchAll | cli/src/file_watcher.rs:15-31 | over a run of deliveries, one send per forwarded action, and the channel receives exactly the forwarded actions whose sends succeed, in order |
| ActionBus.Bus.Send | cli/src/json_storage.rs:72 | each send has its own outcome; a successful one appends the envelope to the log, a failed one leaves it unchanged |
| Outcomes.AcceptsAllEach | src/browser.rs:93-96 | a run of requests succeeds as a whole exactly when each of its requests succeeds |
| Outcomes.AcceptsAllThen | src/browser.rs:98-110 | two successful runs of requests, one after the other, make one successful run |
| Outcomes.RefusedBreaks | src/browser.rs:95 | one refused request fails the whole run, as the `?` after `new_page` makes it |
| Outcomes.FirstRefusedAfter | src/browser.rs:98-110 | a first refusal after a successful run is the first refusal since the run began |
| Outcomes.KeptAll | cli/src/json_storage.rs:71-73 | when every send succeeds, every item gets through, in order |
| Outcomes.KeptNone | cli/src/json_storage.rs:71-73 | when every send fails, nothing gets through |
| Outcomes.KeptConcat | cli/src/json_storage.rs:68-74 | a second run of sends is numbered on from the first, and what gets through of both is what gets through of each, in order |
| ActionBus.TaggedAt | cli/src/json_storage.rs:71-73 | the i-th published envelope carries the i-th action and the source tag |
| ActionBus.ActionsOfTagged | cli/src/json_storage.rs:71-73 | unwrapping the tagged actions gives the actions back |
| ActionBus.ForeignMembers | cli/src/json_storage.rs:38-41 | the echo filter keeps exactly the envelopes of other sources |
| ActionBus.OwnEchoIgnored | cli/src/json_storage.rs:38-41 | a subscriber ignores everything its own source published |
| ActionBus.OthersKept | cli/src/json_storage.rs:38-43 | the echo filter keeps every envelope of another source, in order |
| JsonStorage.Loaded | cli/src/json_storage.rs:6-19 | the stored tabs when the file exists, none otherwise |
| JsonStorage.AfterLoad | cli/src/json_storage.rs:14-17 | loading a missing file creates an empty one when it can be written; an existing file is unchanged |
| JsonStorage.SaveToPath | cli/src/json_storage.rs:21-35 | a successful save stores the workspace; a failed one is reported and, with writes taken as atomic, leaves the file unchanged |
| JsonStorage.FromPath | cli/src/json_storage.rs:6-19 | gives the stored tabs, or an empty workspace that it also tries to store |
| JsonStorage.Receive | cli/src/json_storage.rs:38-47 | an `"fs"` envelope is skipped; any other is applied and the whole workspace is saved, and a failed save changes nothing more |
| JsonStorage.ListenForActions | cli/src/json_storage.rs:37-49 | the workspace receives exactly the actions of the non-`"fs"` envelopes the loop received, in order, and the file ends up holding it once one was applied |
| JsonStorage.PublishAll | cli/src/json_storage.rs:71-73 | one send per action, whatever the earlier sends gave; the log gains, in order and under the tag, exactly the actions whose sends succeed |
| JsonStorage.HandleEvent | cli/src/json_storage.rs:68-74 | one event sends each action of the diff of this workspace against the reloaded file, tagged `"fs"`, and the log gains the ones whose sends succeed |
| JsonStorage.Watch | cli/src/json_storage.rs:51-77 | over a run of events, one send per action of each event's diff against the same, unchanged workspace; the log gains the ones that succeed, in order; with no event the file is untouched, otherwise it is as the last reload left it |
| JsonStorage.ListenerIgnoresWatch | cli/src/json_storage.rs:38-41 | the listener applies nothing the watcher published |
| JsonStorage.UnchangedFilePublishesNothing | cli/src/json_storage.rs:68-74 | events that find the file holding the workspace's own tabs publish nothing |
| JsonStorage.MissingFileClosesAll | cli/src/json_storage.rs:68-74 | an event after the file was deleted closes every tab, in order |
| BrowserAdapter.PageUrlsSuccess | src/browser.rs:9-19 | the snapshot succeeds exactly when every page has a URL, and then lists them in page order |
| BrowserAdapter.FirstFailureReported | src/browser.rs:13-14 | a failed snapshot reports the error of the first page without a URL |
| BrowserAdapter.FromBrowser | src/browser.rs:9-19 | the loop over the pages gives the snapshot, stopping at the first failure |
| BrowserAdapter.Browser.NewPage | src/browser.rs:95 | each request has its own outcome; a successful one records the URL, a failed one opens nothing |
| BrowserAdapter.OpenStoredTabs | src/browser.rs:91-96 | succeeds exactly when every request succeeds, having opened every stored tab in stored order; otherwise the first refused request ends the adapter, after exactly the tabs before it were opened |
| BrowserAdapter.RunOkExactly | src/browser.rs:106-109 | a run of sends ends without a refusal exactly when every one of its sends succeeds |
| BrowserAdapter.ApplyAndSend | src/browser.rs:107-108 | one action is applied, then sent tagged `"browser"`, and published exactly when that send succeeds |
| BrowserAdapter.ApplyAndPublish | src/browser.rs:106-109 | when every send succeeds, each action is applied and published in order; otherwise the first refused send stops the loop, after every action up to its own was applied and the ones before it published |
| BrowserAdapter.Sync | src/browser.rs:102-109 | under the write lock: the actions are a diff, applied and published as `ApplyAndPublish` says; when every send succeeds the workspace holds the snapshot's multiset; a workspace already holding it changes, sends and publishes nothing |
| BrowserAdapter.Tick | src/browser.rs:98-110 | the tick fails on its snapshot exactly when the snapshot fails, with that error, changing nothing; otherwise it applies and publishes the diff as `ApplyAndPublish` says, and it completes exactly when every send succeeds, leaving the snapshot's multiset |
| BrowserAdapter.PollLoop | src/browser.rs:98-110 | the loop stops only on a failed tick: with the error of the first failed snapshot, every earlier one having succeeded, or on a refused send that is the first refusal of the run; when it runs to the end, every snapshot and send succeeded and the workspace holds the last snapshot's multiset |
| BrowserAdapter.StartBrowserInner | src/browser.rs:91-110 | opens the stored tabs, failing exactly when one request is refused, with the tabs before it opened and the workspace and bus untouched; then runs the ticks, stopping as `PollLoop` says |
| CliBrowser.ApplyEach | cli/src/browser.rs:77-80 | the actions are applied to the workspace in order |
| CliBrowser.Sync | cli/src/browser.rs:71-80 | the actions are a diff of the workspace against the snapshot, and afterwards the workspace holds the snapshot's multiset |
| CliBrowser.Tick | cli/src/browser.rs:64-81 | a failed snapshot ends the loop and changes nothing; otherwise the workspace holds the snapshot's multiset, and there is no bus |
| CliBrowser.PollLoop | cli/src/browser.rs:64-81 | the loop stops only with the error of the first failed snapshot, every earlier one having succeeded; when it runs to the end, the workspace holds the last snapshot's multiset |
| CliBrowser.StartBrowser | cli/src/browser.rs:55-81 | opens the stored tabs in order, failing exactly when one request is refused, with the tabs before it opened; then runs the ticks, stopping with the first failed snapshot's error |

## Left out

- WebSocket servers and `cli/src/daemon.rs`: socket plumbing. Their only logic is the echo filter of `ActionBus`.
- The `WorkspaceManager` of `cli/src/model.rs`: channel wiring whose `ignore_next_action` flag has no consumer.
- Broadcast-channel details: capacity 16, lagging receivers, the `RwLock` and `tokio::spawn`. This is concurrency. A tick is modelled as holding the write lock from the diff to the last publish, as the code does; the snapshot is taken before the lock, which changes nothing here because it does not read the workspace.
- `listen_for_actions` subscribes anew for each envelope (cli/src/json_storage.rs:38), so envelopes sent between two receives are missed. The received envelopes are an input of `JsonStorage.ListenForActions`.
- Which receivers exist at each moment is not modelled: every send on the bus or the channel has an outcome of its own. This allows more than the source can do. A dropped `mpsc` receiver never comes back, so once a `blocking_send` fails every later one fails too, but the model also allows a later one to succeed.
- Chromium launch, the connect and retry loop, `ctrlc`, sleeps, `println!`/`eprintln!` and the `console.log` calls of `extension/src/model.ts`: these are I/O at the system boundary.
- serde JSON and file reads and writes: the store is its parsed contents plus whether a write succeeds. The serialisation round trip is serde's behaviour.
- JsonStorage.SaveToPath: a write is modelled as atomic, and whether writes succeed is fixed for a run. A failed `fs::write` that truncates the file, or a run whose first save succeeds and a later one fails, is not represented. This also holds for `JsonStorage.Receive`, `JsonStorage.ListenForActions`, `JsonStorage.FromPath` and `JsonStorage.HandleEvent`.
- The `unwrap` panics of `from_path` on an unreadable or malformed file are not modelled.
- Indexing `event.paths[0]` on an empty path list panics. It is a precondition of `WatchEvents.EventToAction` and `WatchEvents.EventToActions`.
- `TabHolder.Applied`: dereferencing a missing tab throws a TypeError. The `TabHolder.Ready` precondition excludes it.
- TabHolder.Remapped, TabHolder.Holder.GetNewIdFromId, TabHolder.Applied: the records are maps, so JavaScript's inherited keys are not modelled. `id in holder.idMap` is true for `"toString"` or `"constructor"`, and assigning `holder.tabs["__proto__"]` sets the prototype instead of adding a tab.
- `fs::canonicalize` and `to_string_lossy` take no part beyond their results. The canonical path is a parameter, and a path prints as its components joined by `/`.
- `UrlWorkspace.CountOccurrences`: counts are unbounded integers. The i32 counters of the source would overflow only past 2^31 - 1 copies of one URL.
- `UrlWorkspace.Workspace.ActionsFromDiff`: the order of the URLs within each action family depends on hash-map iteration. It is left nondeterministic and specified by its multisets.
- `BrowserAdapter.PollLoop`: the source's loop never ends; it is modelled over a finite sequence of snapshots, and what each tick published is stated by `BrowserAdapter.Tick`, not summed over the run.
- `CliBrowser.PollLoop`: the source's loop never ends; it is modelled over a finite sequence of snapshots, and what each tick applied is stated by `CliBrowser.Tick`, not summed over the run.
- `JsonStorage.Watch`: the watcher's own setup errors (`recommended_watcher`, `watch`) are not modelled; the loop is modelled over a finite run of events.

## Findings

| source | as written | input that shows it | evidently intended | confidence | as-written member | corrected member |
|---|---|---|---|---|---|---|
| src/main.rs:99-101 | a Remove event closes the tab named by the full, unstripped event path, while a Create event opens the tab named by the path relative to the watched directory | watched directory `/w`; create then remove `/w/a`: this opens `a` and closes `/w/a`, so the tab `a` is never closed | strip the canonical watched directory on Remove as on Create, as `src/lib.rs:68-80` does | not executed | WatchEvents.ListCreateRemoveMismatch | WatchEvents.OptionCreateRemoveMatch |
