/**
 * The file-backed workspace of the command-line daemon: the workspace is
 * kept in a JSON file in the watched directory, bus actions from other
 * adapters are applied and saved, and changes to the file are diffed and
 * published on the bus.
 */
module JsonStorage {
  import opened Wrappers
  import opened ActionBus
  import opened Outcomes
  import EW = ExistenceWorkspace

  /** The source tag of the actions this adapter publishes. */
  const FileSystem := "fs"

  /**
   * The `browser-tabs.json` file of the workspace directory: its parsed
   * contents when it exists, and whether writing it succeeds.
   */
  class Store {
    var file: Option<seq<EW.Tab>>
    var writable: bool

    constructor (file: Option<seq<EW.Tab>>, writable: bool)
      ensures this.file == file && this.writable == writable
    {
      this.file := file;
      this.writable := writable;
    }
  }

  /** The tabs `from_path` loads from a file: its contents, or none when it does not exist. */
  function Loaded(file: Option<seq<EW.Tab>>): (r: seq<EW.Tab>)
    ensures file.Some? ==> r == file.value
    ensures file.None? ==> r == []
  {
    if file.Some? then file.value else []
  }

  /** The file after `from_path`: unchanged when present, an empty workspace when absent and writable. */
  function AfterLoad(file: Option<seq<EW.Tab>>, writable: bool): (r: Option<seq<EW.Tab>>)
    ensures file.Some? ==> r == file
    ensures file.None? && writable ==> r == Some([])
    ensures file.None? && !writable ==> r == None
  {
    if file.Some? then file else if writable then Some([]) else None
  }

  /** Writes the workspace to the store; a failed write is reported and leaves the file as it was. */
  method SaveToPath(ws: EW.Workspace, store: Store) returns (ok: bool)
    modifies store
    ensures ok == store.writable && store.writable == old(store.writable)
    ensures store.file == if ok then Some(ws.tabs) else old(store.file)
  {
    ok := store.writable;
    if ok {
      store.file := Some(ws.tabs);
    }
  }

  /** Loads the workspace from the store, creating an empty one when the file does not exist. */
  method FromPath(store: Store) returns (ws: EW.Workspace)
    modifies store
    ensures fresh(ws)
    ensures ws.tabs == Loaded(old(store.file))
    ensures store.writable == old(store.writable)
    ensures store.file == AfterLoad(old(store.file), store.writable)
  {
    if store.file.Some? {
      ws := new EW.Workspace(store.file.value);
    } else {
      ws := new EW.Workspace([]);
      var _ := SaveToPath(ws, store);
    }
  }

  /**
   * One turn of the subscriber loop: an envelope from the file system is
   * skipped; any other is applied, and the workspace is saved (a failed
   * save is reported and ignored).
   */
  method Receive(ws: EW.Workspace, store: Store, e: Envelope<EW.Action>)
    modifies ws, store
    ensures ws.tabs == if e.source == FileSystem then old(ws.tabs) else EW.Applied(old(ws.tabs), e.action)
    ensures store.writable == old(store.writable)
    ensures store.file == if store.writable && e.source != FileSystem then Some(ws.tabs) else old(store.file)
  {
    if e.source == FileSystem {
      return;
    }
    ws.ApplyAction(e.action);
    var _ := SaveToPath(ws, store);
  }

  /**
   * The subscriber loop over the envelopes it received before the bus
   * closed. Which envelopes those are is an input: the loop subscribes anew
   * for each one, so it misses those sent between two receives.
   */
  method ListenForActions(ws: EW.Workspace, store: Store, received: seq<Envelope<EW.Action>>)
    modifies ws, store
    ensures ws.tabs == EW.ApplyAll(old(ws.tabs), Actions(Foreign(received, FileSystem)))
    ensures store.writable == old(store.writable)
    ensures Foreign(received, FileSystem) == [] || !store.writable ==> store.file == old(store.file)
    ensures Foreign(received, FileSystem) != [] && store.writable ==> store.file == Some(ws.tabs)
  {
    for i := 0 to |received|
      invariant ws.tabs == EW.ApplyAll(old(ws.tabs), Actions(Foreign(received[..i], FileSystem)))
      invariant store.writable == old(store.writable)
      invariant Foreign(received[..i], FileSystem) == [] || !store.writable ==> store.file == old(store.file)
      invariant Foreign(received[..i], FileSystem) != [] && store.writable ==> store.file == Some(ws.tabs)
    {
      ghost var before := Foreign(received[..i], FileSystem);
      ForeignSnoc(received, i, FileSystem);
      ActionsSnoc(before, received[i]);
      EW.ApplyAllSnoc(old(ws.tabs), Actions(before), received[i].action);
      if received[i].source == FileSystem {
        assert before + [] == before;
      }
      Receive(ws, store, received[i]);
    }
    assert received[..|received|] == received;
  }

  /** The actions `watch` publishes for a run of file states, each diffed against `current`. */
  function FsActions(current: seq<EW.Tab>, observed: seq<Option<seq<EW.Tab>>>): seq<EW.Action>
  {
    if observed == [] then []
    else
      var n := |observed| - 1;
      FsActions(current, observed[..n]) + EW.Diff(current, Loaded(observed[n]))
  }

  lemma FsActionsSnoc(current: seq<EW.Tab>, observed: seq<Option<seq<EW.Tab>>>, i: nat)
    requires i < |observed|
    ensures FsActions(current, observed[..i + 1]) ==
      FsActions(current, observed[..i]) + EW.Diff(current, Loaded(observed[i]))
  {
    assert observed[..i + 1][..i] == observed[..i];
  }

  /**
   * The log and the send count after one more run of sends, when before it
   * the log held what got through of the earlier sends.
   */
  lemma PublishedStep(source: string, earlier: seq<EW.Action>, next: seq<EW.Action>, outcomes: seq<bool>, from: nat,
                      start: seq<Envelope<EW.Action>>, before: seq<Envelope<EW.Action>>, after: seq<Envelope<EW.Action>>,
                      sent: nat, sentAfter: nat)
    requires sent == from + |earlier| && sentAfter == sent + |next|
    requires before == start + Tagged(source, Kept(earlier, outcomes, from))
    requires after == before + Tagged(source, Kept(next, outcomes, sent))
    ensures sentAfter == from + |earlier + next|
    ensures after == start + Tagged(source, Kept(earlier + next, outcomes, from))
  {
    var ke, kn := Kept(earlier, outcomes, from), Kept(next, outcomes, sent);
    KeptConcat(earlier, next, outcomes, from);
    TaggedConcat(source, ke, kn);
    ConcatAssoc(start, Tagged(source, ke), Tagged(source, kn));
  }

  /** The log after one more send of a run. */
  lemma PublishedSnoc(source: string, actions: seq<EW.Action>, j: nat, outcomes: seq<bool>, from: nat,
                      start: seq<Envelope<EW.Action>>, before: seq<Envelope<EW.Action>>, after: seq<Envelope<EW.Action>>)
    requires j < |actions|
    requires before == start + Tagged(source, Kept(actions[..j], outcomes, from))
    requires after == if Accepts(outcomes, from + j) then before + [Envelope(source, actions[j])] else before
    ensures after == start + Tagged(source, Kept(actions[..j + 1], outcomes, from))
  {
    var k := Kept(actions[..j], outcomes, from);
    KeptSnoc(actions, outcomes, from, j);
    if Accepts(outcomes, from + j) {
      TaggedConcat(source, k, [actions[j]]);
      assert Tagged(source, [actions[j]]) == [Envelope(source, actions[j])];
      ConcatAssoc(start, Tagged(source, k), [Envelope(source, actions[j])]);
    } else {
      assert k + [] == k;
    }
  }

  lemma ConcatAssoc<T>(a: seq<T>, b: seq<T>, c: seq<T>)
    ensures (a + b) + c == a + (b + c)
  {
  }

  /**
   * Sends each action in order, tagged with `source`, ignoring the send
   * results: the log gains exactly the actions whose sends succeed.
   */
  method PublishAll(bus: Bus<EW.Action>, source: string, actions: seq<EW.Action>)
    modifies bus
    ensures bus.sends == old(bus.sends) + |actions|
    ensures bus.published == old(bus.published) + Tagged(source, Kept(actions, bus.outcomes, old(bus.sends)))
  {
    for j := 0 to |actions|
      invariant bus.sends == old(bus.sends) + j
      invariant bus.published == old(bus.published) + Tagged(source, Kept(actions[..j], bus.outcomes, old(bus.sends)))
    {
      ghost var before := bus.published;
      var _ := bus.Send(Envelope(source, actions[j]));
      PublishedSnoc(source, actions, j, bus.outcomes, old(bus.sends), old(bus.published), before, bus.published);
    }
    assert actions[..|actions|] == actions;
  }

  /**
   * One change event, the file then holding `file`: the workspace is
   * reloaded from the store and its diff from this one is published.
   */
  method HandleEvent(ws: EW.Workspace, store: Store, bus: Bus<EW.Action>, file: Option<seq<EW.Tab>>)
    modifies store, bus
    ensures store.writable == old(store.writable)
    ensures store.file == AfterLoad(file, store.writable)
    ensures bus.sends == old(bus.sends) + |EW.Diff(ws.tabs, Loaded(file))|
    ensures bus.published ==
      old(bus.published) + Tagged(FileSystem, Kept(EW.Diff(ws.tabs, Loaded(file)), bus.outcomes, old(bus.sends)))
  {
    store.file := file;
    var fromFile := FromPath(store);
    var actions := ws.ActionsFromDiff(fromFile);
    PublishAll(bus, FileSystem, actions);
  }

  /**
   * The watcher loop over a run of change events; `observed` holds the
   * file's state when each event is handled. Every event is diffed
   * against this workspace, which the loop never changes.
   */
  method Watch(ws: EW.Workspace, store: Store, bus: Bus<EW.Action>, observed: seq<Option<seq<EW.Tab>>>)
    modifies store, bus
    ensures store.writable == old(store.writable)
    ensures bus.sends == old(bus.sends) + |FsActions(ws.tabs, observed)|
    ensures bus.published ==
      old(bus.published) + Tagged(FileSystem, Kept(FsActions(ws.tabs, observed), bus.outcomes, old(bus.sends)))
    ensures observed == [] ==> store.file == old(store.file)
    ensures observed != [] ==> store.file == AfterLoad(observed[|observed| - 1], store.writable)
  {
    for i := 0 to |observed|
      invariant store.writable == old(store.writable)
      invariant bus.sends == old(bus.sends) + |FsActions(ws.tabs, observed[..i])|
      invariant bus.published ==
        old(bus.published) + Tagged(FileSystem, Kept(FsActions(ws.tabs, observed[..i]), bus.outcomes, old(bus.sends)))
      invariant i == 0 ==> store.file == old(store.file)
      invariant i > 0 ==> store.file == AfterLoad(observed[i - 1], store.writable)
    {
      ghost var before, sent := bus.published, bus.sends;
      ghost var earlier, diff := FsActions(ws.tabs, observed[..i]), EW.Diff(ws.tabs, Loaded(observed[i]));
      FsActionsSnoc(ws.tabs, observed, i);
      HandleEvent(ws, store, bus, observed[i]);
      PublishedStep(FileSystem, earlier, diff, bus.outcomes, old(bus.sends), old(bus.published),
                    before, bus.published, sent, bus.sends);
    }
    assert observed[..|observed|] == observed;
  }

  /** The listener applies nothing the watcher published: its own echo is suppressed. */
  lemma ListenerIgnoresWatch(tabs: seq<EW.Tab>, published: seq<EW.Action>)
    ensures EW.ApplyAll(tabs, Actions(Foreign(Tagged(FileSystem, published), FileSystem))) == tabs
  {
    OwnEchoIgnored(FileSystem, published);
  }

  /** Events that find the file holding the workspace's own tabs publish nothing. */
  lemma {:induction false} UnchangedFilePublishesNothing(current: seq<EW.Tab>, observed: seq<Option<seq<EW.Tab>>>)
    requires forall i :: 0 <= i < |observed| ==> Loaded(observed[i]) == current
    ensures FsActions(current, observed) == []
    decreases |observed|
  {
    if observed != [] {
      var n := |observed| - 1;
      UnchangedFilePublishesNothing(current, observed[..n]);
      EW.DiffOfSelfIsEmpty(current);
    }
  }

  /** A deleted file reads as an empty workspace, so the event closes every tab, in order. */
  lemma MissingFileClosesAll(current: seq<EW.Tab>)
    ensures FsActions(current, [None]) == EW.CloseEach(current)
  {
    var observed: seq<Option<seq<EW.Tab>>> := [None];
    assert observed[..0] == [];
    assert FsActions(current, observed) == EW.Diff(current, []);
    assert EW.Urls([]) == {};
    EW.MissingNone([], current);
    EW.MissingFromEmpty(current);
  }
}
