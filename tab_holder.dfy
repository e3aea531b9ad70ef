/**
 * The browser extension's tab holder: a record of tabs keyed by tab id,
 * plus a table that remaps an id the daemon knows to the id the browser
 * gave the tab.
 */
module TabHolder {
  import opened Wrappers

  type TabId = string

  datatype Tab = Tab(id: TabId, isOpen: bool, url: string)

  /**
   * A workspace action as the extension receives it: a record whose four
   * fields are each optional.
   */
  datatype Action = Action(
    openTab: Option<TabId>,
    closeTab: Option<TabId>,
    changeTabUrl: Option<(TabId, string)>,
    createTab: Option<TabId>)

  /** JavaScript truthiness of an optional string: present and not empty. */
  predicate Truthy(id: Option<TabId>)
  {
    id.Some? && id.value != ""
  }

  /** What an action does to the tabs record, once its field has been chosen. */
  datatype Effect =
    | SetOpen(id: TabId, open: bool)
    | Create(id: TabId)
    | ChangeUrl(id: TabId, url: string)
    | NoEffect

  /**
   * The one field of an action that is applied: the first truthy one in
   * the order OpenTab, CloseTab, CreateTab, ChangeTabUrl. A ChangeTabUrl
   * pair is an array, which is truthy whatever its contents.
   */
  function Selected(a: Action): Effect
  {
    if Truthy(a.openTab) then SetOpen(a.openTab.value, true)
    else if Truthy(a.closeTab) then SetOpen(a.closeTab.value, false)
    else if Truthy(a.createTab) then Create(a.createTab.value)
    else if a.changeTabUrl.Some? then ChangeUrl(a.changeTabUrl.value.0, a.changeTabUrl.value.1)
    else NoEffect
  }

  /**
   * The effect can be applied without a TypeError: opening, closing and
   * changing the url of a tab dereference `tabs[id]`, so that tab must exist.
   */
  predicate Ready(tabs: map<TabId, Tab>, e: Effect)
  {
    match e
    case SetOpen(id, _) => id in tabs
    case ChangeUrl(id, _) => id in tabs
    case _ => true
  }

  /** The tabs record after an effect. */
  function Applied(tabs: map<TabId, Tab>, e: Effect): (r: map<TabId, Tab>)
    requires Ready(tabs, e)
    ensures e.SetOpen? ==> r.Keys == tabs.Keys && r[e.id] == Tab(tabs[e.id].id, e.open, tabs[e.id].url)
    ensures e.ChangeUrl? ==> r.Keys == tabs.Keys && r[e.id] == Tab(tabs[e.id].id, tabs[e.id].isOpen, e.url)
    ensures e.Create? ==> r.Keys == tabs.Keys + {e.id} && r[e.id] == Tab(e.id, false, "")
    ensures forall k :: k in tabs && (e.NoEffect? || k != e.id) ==> k in r && r[k] == tabs[k]
    ensures e.NoEffect? ==> r == tabs
  {
    match e
    case SetOpen(id, open) => tabs[id := tabs[id].(isOpen := open)]
    case ChangeUrl(id, url) => tabs[id := tabs[id].(url := url)]
    case Create(id) => tabs[id := Tab(id, false, "")]
    case NoEffect => tabs
  }

  /** Every tab is stored under its own id. */
  ghost predicate Keyed(tabs: map<TabId, Tab>)
  {
    forall k :: k in tabs ==> tabs[k].id == k
  }

  /** No effect stores a tab under another tab's id. */
  lemma AppliedKeepsKeyed(tabs: map<TabId, Tab>, e: Effect)
    requires Keyed(tabs) && Ready(tabs, e)
    ensures Keyed(Applied(tabs, e))
  {
    var r := Applied(tabs, e);
    forall k | k in r ensures r[k].id == k {
      if !e.NoEffect? && k == e.id {
        assert e.SetOpen? || e.ChangeUrl? ==> k in tabs;
      }
    }
  }

  /** An empty id is falsy, so a later field is applied in its place. */
  lemma EmptyIdIsSkipped(id: TabId)
    requires id != ""
    ensures Selected(Action(Some(""), Some(id), None, None)) == SetOpen(id, false)
    ensures Selected(Action(None, None, Some((id, "u")), Some(""))) == ChangeUrl(id, "u")
  {
  }

  /** A truthy OpenTab wins whatever the other fields hold. */
  lemma OpenTabWins(a: Action, b: Action)
    requires Truthy(a.openTab) && b.openTab == a.openTab
    ensures Selected(a) == Selected(b) == SetOpen(a.openTab.value, true)
  {
  }

  /** The id a tab is known by after remapping: its entry in the table, or itself. */
  function Remapped(idMap: map<TabId, TabId>, id: TabId): (r: TabId)
    ensures id in idMap ==> r == idMap[id] && r in idMap.Values
    ensures id !in idMap ==> r == id
  {
    if id in idMap then idMap[id] else id
  }

  /** Setting one entry changes the lookup of that id only. */
  lemma RemappedAfterUpdate(idMap: map<TabId, TabId>, oldId: TabId, newId: TabId, id: TabId)
    ensures Remapped(idMap[oldId := newId], id) == if id == oldId then newId else Remapped(idMap, id)
  {
  }

  /** Lookup takes one step: with a→b and b→c in the table, a maps to b, not to c. */
  lemma ChainedRemapIsOneStep(idMap: map<TabId, TabId>, a: TabId, b: TabId, c: TabId)
    requires a != b
    ensures Remapped(idMap[a := b][b := c], a) == b
    ensures Remapped(idMap[a := b][b := c], b) == c
  {
  }

  /** The extension's tab holder, whose two records are changed in place. */
  class Holder {
    var idMap: map<TabId, TabId>
    var tabs: map<TabId, Tab>

    constructor ()
      ensures idMap == map[] && tabs == map[]
    {
      idMap := map[];
      tabs := map[];
    }

    /** The id a tab is known by now (`getNewIdFromId`). */
    function GetNewIdFromId(id: TabId): TabId
      reads this
    {
      Remapped(idMap, id)
    }

    method UpdateTabId(oldId: TabId, newId: TabId)
      modifies this
      ensures idMap == old(idMap)[oldId := newId] && tabs == old(tabs)
      ensures GetNewIdFromId(oldId) == newId
      ensures forall id :: id != oldId ==> GetNewIdFromId(id) == old(GetNewIdFromId(id))
    {
      idMap := idMap[oldId := newId];
    }

    method ApplyActionToTabHolder(action: Action)
      requires Ready(tabs, Selected(action))
      modifies this
      ensures tabs == Applied(old(tabs), Selected(action))
      ensures idMap == old(idMap)
    {
      if Truthy(action.openTab) {
        var id := action.openTab.value;
        tabs := tabs[id := tabs[id].(isOpen := true)];
      } else if Truthy(action.closeTab) {
        var id := action.closeTab.value;
        tabs := tabs[id := tabs[id].(isOpen := false)];
      } else if Truthy(action.createTab) {
        var id := action.createTab.value;
        tabs := tabs[id := Tab(id, false, "")];
      } else if action.changeTabUrl.Some? {
        var (id, url) := action.changeTabUrl.value;
        tabs := tabs[id := tabs[id].(url := url)];
      }
    }
  }
}
