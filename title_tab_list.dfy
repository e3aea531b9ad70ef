/**
 * The title/id tab list of the file-watching prototype: each tab has a
 * title and an id, and a new tab's id is made from the list's length.
 */
module TitleTabList {

  datatype Tab = Tab(title: string, id: string)

  datatype Action = OpenTab(title: string) | CloseTab(id: string)

  function Digit(d: nat): char
    requires d < 10
  {
    "0123456789"[d]
  }

  /** `n` written in decimal without leading zeros, as `format!("{}", n)` writes a `usize`. */
  function DecimalString(n: nat): (s: string)
    ensures |s| >= 1
    ensures forall i :: 0 <= i < |s| ==> '0' <= s[i] <= '9'
    ensures |s| > 1 ==> s[0] != '0'
    decreases n
  {
    if n < 10 then [Digit(n)] else DecimalString(n / 10) + [Digit(n % 10)]
  }

  /** The value of a string of decimal digits. */
  function ParseDecimal(s: string): nat
    requires forall i :: 0 <= i < |s| ==> '0' <= s[i] <= '9'
  {
    if s == [] then 0
    else ParseDecimal(s[..|s| - 1]) * 10 + ((s[|s| - 1] as int) - ('0' as int)) as nat
  }

  /** Reading back a printed number gives the number. */
  lemma {:induction false} ParsePrinted(n: nat)
    ensures ParseDecimal(DecimalString(n)) == n
    decreases n
  {
    var s := DecimalString(n);
    if n < 10 {
      assert s[..0] == [];
    } else {
      ParsePrinted(n / 10);
      assert s[..|s| - 1] == DecimalString(n / 10);
    }
  }

  /** The id given to the tab opened when the list holds `n` tabs. */
  function TabId(n: nat): (id: string)
    ensures |id| > 4 && id[..4] == "tab-"
  {
    "tab-" + DecimalString(n)
  }

  /** Different lengths give different ids. */
  lemma TabIdInjective(m: nat, n: nat)
    requires TabId(m) == TabId(n)
    ensures m == n
  {
    assert TabId(m)[4..] == DecimalString(m);
    assert TabId(n)[4..] == DecimalString(n);
    ParsePrinted(m);
    ParsePrinted(n);
  }

  /** The tabs whose id is not `id`, in order (`retain(|tab| tab.id != id)`). */
  function WithoutId(tabs: seq<Tab>, id: string): (r: seq<Tab>)
    ensures forall t :: t in r <==> t in tabs && t.id != id
    ensures |r| <= |tabs|
  {
    if tabs == [] then []
    else
      var last := tabs[|tabs| - 1];
      assert tabs == tabs[..|tabs| - 1] + [last];
      WithoutId(tabs[..|tabs| - 1], id) + (if last.id == id then [] else [last])
  }

  /** The retain keeps order: it distributes over concatenation. */
  lemma {:induction false} WithoutIdConcat(xs: seq<Tab>, ys: seq<Tab>, id: string)
    ensures WithoutId(xs + ys, id) == WithoutId(xs, id) + WithoutId(ys, id)
    decreases |ys|
  {
    if ys != [] {
      var init := ys[..|ys| - 1];
      assert (xs + ys)[..|xs + ys| - 1] == xs + init;
      assert (xs + ys)[|xs + ys| - 1] == ys[|ys| - 1];
      WithoutIdConcat(xs, init, id);
    } else {
      assert xs + ys == xs;
    }
  }

  /** Closing an id no tab has changes nothing. */
  lemma {:induction false} WithoutAbsentId(tabs: seq<Tab>, id: string)
    requires forall i :: 0 <= i < |tabs| ==> tabs[i].id != id
    ensures WithoutId(tabs, id) == tabs
    decreases |tabs|
  {
    if tabs != [] {
      WithoutAbsentId(tabs[..|tabs| - 1], id);
      assert tabs == tabs[..|tabs| - 1] + [tabs[|tabs| - 1]];
    }
  }

  /** The list after one action. */
  function Handled(tabs: seq<Tab>, action: Action): (r: seq<Tab>)
    ensures action.OpenTab? ==> r == tabs + [Tab(action.title, TabId(|tabs|))]
    ensures action.CloseTab? ==> forall t :: t in r <==> t in tabs && t.id != action.id
  {
    match action
    case OpenTab(title) => tabs + [Tab(title, TabId(|tabs|))]
    case CloseTab(id) => WithoutId(tabs, id)
  }

  function HandledAll(tabs: seq<Tab>, actions: seq<Action>): seq<Tab>
    decreases actions
  {
    if actions == [] then tabs else HandledAll(Handled(tabs, actions[0]), actions[1..])
  }

  /** The first two ids are "tab-0" and "tab-1". */
  lemma FirstIds()
    ensures TabId(0) == "tab-0" && TabId(1) == "tab-1"
  {
    assert Digit(0) == '0' && Digit(1) == '1';
  }

  /**
   * Ids come from the length alone, so they repeat once a tab is closed:
   * open a, open b, close "tab-0", open c leaves two tabs with id "tab-1".
   */
  lemma IdsRepeatAfterClose(a: string, b: string, c: string)
    ensures HandledAll([], [OpenTab(a), OpenTab(b), CloseTab(TabId(0)), OpenTab(c)]) ==
      [Tab(b, TabId(1)), Tab(c, TabId(1))]
  {
    var acts := [OpenTab(a), OpenTab(b), CloseTab(TabId(0)), OpenTab(c)];
    var one := [Tab(a, TabId(0))];
    var kept := [Tab(b, TabId(1))];
    if TabId(1) == TabId(0) {
      TabIdInjective(1, 0);
    }
    WithoutIdConcat(one, kept, TabId(0));
    assert kept[..0] == [] && one[..0] == [];
    assert Handled([], acts[0]) == one;
    assert WithoutId(one, TabId(0)) == [];
    assert WithoutId(kept, TabId(0)) == kept;
    assert Handled(one + kept, acts[2]) == kept;
    calc {
      HandledAll([], acts);
      HandledAll(one, acts[1..]);
      HandledAll(one + kept, acts[2..]);
      HandledAll(kept, acts[3..]);
      HandledAll(kept + [Tab(c, TabId(1))], []);
    }
  }

  /** Every action opens a tab. */
  predicate OnlyOpens(actions: seq<Action>)
  {
    forall i :: 0 <= i < |actions| ==> actions[i].OpenTab?
  }

  /** The tabs the opens of `actions` add to a list of `start` tabs: the i-th gets id TabId(start + i). */
  function Numbered(start: nat, actions: seq<Action>): (r: seq<Tab>)
    requires OnlyOpens(actions)
    ensures |r| == |actions|
    decreases actions
  {
    if actions == [] then []
    else
      assert OnlyOpens(actions[1..]) by {
        forall i | 0 <= i < |actions[1..]| ensures actions[1..][i].OpenTab? {
          assert actions[1..][i] == actions[i + 1];
        }
      }
      [Tab(actions[0].title, TabId(start))] + Numbered(start + 1, actions[1..])
  }

  lemma {:induction false} NumberedAt(start: nat, actions: seq<Action>, i: nat)
    requires OnlyOpens(actions) && i < |actions|
    ensures Numbered(start, actions)[i] == Tab(actions[i].title, TabId(start + i))
    decreases i
  {
    if i > 0 {
      NumberedAt(start + 1, actions[1..], i - 1);
    }
  }

  /** Handling only opens appends one numbered tab per open, in order. */
  lemma {:induction false} OpensAppendNumbered(tabs: seq<Tab>, actions: seq<Action>)
    requires OnlyOpens(actions)
    ensures HandledAll(tabs, actions) == tabs + Numbered(|tabs|, actions)
    decreases actions
  {
    if actions != [] {
      var t := Tab(actions[0].title, TabId(|tabs|));
      var next := tabs + [t];
      assert Handled(tabs, actions[0]) == next;
      OpensAppendNumbered(next, actions[1..]);
      assert Numbered(|tabs|, actions) == [t] + Numbered(|tabs| + 1, actions[1..]);
      assert next + Numbered(|next|, actions[1..]) == tabs + ([t] + Numbered(|tabs| + 1, actions[1..]));
    }
  }

  /**
   * Starting from an empty list and only opening, the i-th tab has id
   * "tab-i" and the i-th title, so no two tabs share an id.
   */
  lemma DistinctIdsFromOpens(actions: seq<Action>)
    requires OnlyOpens(actions)
    ensures |HandledAll([], actions)| == |actions|
    ensures forall i :: 0 <= i < |actions| ==>
      HandledAll([], actions)[i] == Tab(actions[i].title, TabId(i))
    ensures forall i, j :: 0 <= i < j < |HandledAll([], actions)| ==>
      HandledAll([], actions)[i].id != HandledAll([], actions)[j].id
  {
    OpensAppendNumbered([], actions);
    var r := HandledAll([], actions);
    assert r == Numbered(0, actions);
    forall i | 0 <= i < |actions| ensures r[i] == Tab(actions[i].title, TabId(i)) {
      NumberedAt(0, actions, i);
    }
    forall i, j | 0 <= i < j < |r| ensures r[i].id != r[j].id {
      if r[i].id == r[j].id {
        TabIdInjective(i, j);
      }
    }
  }

  /** The list of `src/main.rs`, changed in place. */
  class TabList {
    var tabs: seq<Tab>

    constructor ()
      ensures tabs == []
    {
      tabs := [];
    }

    method HandleAction(action: Action)
      modifies this
      ensures tabs == Handled(old(tabs), action)
    {
      match action
      case OpenTab(title) =>
        var id := "tab-" + DecimalString(|tabs|);
        tabs := tabs + [Tab(title, id)];
      case CloseTab(id) =>
        tabs := WithoutId(tabs, id);
    }
  }
}
