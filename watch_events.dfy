/**
 * Translation of filesystem-watcher events into workspace actions: a file
 * created under the watched directory opens a tab named by its path
 * relative to that directory, a file removed closes one.
 */
module WatchEvents {
  import opened Wrappers

  /**
   * A filesystem path as its sequence of normal components, and whether it
   * starts at the root directory.
   */
  datatype Path = Path(absolute: bool, parts: seq<string>)

  /** Every component is a non-empty name without a separator. */
  predicate WellFormed(p: Path)
  {
    forall i :: 0 <= i < |p.parts| ==> p.parts[i] != "" && '/' !in p.parts[i]
  }

  /** The components joined by single separators. */
  function Join(parts: seq<string>): (s: string)
    ensures parts != [] && parts[0] != "" ==> s != [] && s[0] == parts[0][0]
  {
    if parts == [] then ""
    else if |parts| == 1 then parts[0]
    else parts[0] + "/" + Join(parts[1..])
  }

  /** `to_string_lossy()` of a path: a leading separator when absolute, then the joined components. */
  function Display(p: Path): string
  {
    (if p.absolute then "/" else "") + Join(p.parts)
  }

  /**
   * `Path::strip_prefix`: succeeds exactly when `base`'s components are a
   * prefix of `p`'s (the root counts as a component, so both are absolute
   * or both relative), and gives the remaining components as a relative path.
   */
  function StripPrefix(p: Path, base: Path): (r: Option<Path>)
    ensures r.Some? <==>
      p.absolute == base.absolute && |base.parts| <= |p.parts| && p.parts[..|base.parts|] == base.parts
    ensures r.Some? ==> !r.value.absolute && p.parts == base.parts + r.value.parts
  {
    if p.absolute == base.absolute && |base.parts| <= |p.parts| && p.parts[..|base.parts|] == base.parts then
      assert p.parts == base.parts + p.parts[|base.parts|..];
      Some(Path(false, p.parts[|base.parts|..]))
    else None
  }

  /** Stripping a base from a path built on it gives back the rest of the path. */
  lemma StripJoined(base: Path, rest: seq<string>)
    ensures StripPrefix(Path(base.absolute, base.parts + rest), base) == Some(Path(false, rest))
  {
    var p := Path(base.absolute, base.parts + rest);
    assert p.parts[..|base.parts|] == base.parts;
    var r := StripPrefix(p, base).value;
    assert base.parts + r.parts == base.parts + rest;
    assert r.parts == (base.parts + r.parts)[|base.parts|..];
  }

  /** The event kinds of the notify crate; their sub-kinds play no part here. */
  datatype EventKind = Any | Access | Create | Modify | Remove | Other

  datatype Event = Event(kind: EventKind, paths: seq<Path>)

  datatype Action = OpenTab(name: string) | CloseTab(name: string)

  /**
   * The Option-returning translation of `src/lib.rs` and
   * `cli/src/file_watcher.rs`. `canonical` is what canonicalizing the
   * watched directory gives at the time of the event: None when it fails.
   * Only the first path of the event is inspected, and only once the
   * canonical directory is known; the source indexes it without a check,
   * which panics on an empty path list.
   */
  function EventToAction(event: Event, canonical: Option<Path>): (r: Option<Action>)
    requires (event.kind.Create? || event.kind.Remove?) && canonical.Some? ==> event.paths != []
    ensures r.Some? ==> event.kind.Create? || event.kind.Remove?
    ensures r.Some? ==> canonical.Some? && StripPrefix(event.paths[0], canonical.value).Some?
    ensures r.Some? ==> r.value.name == Display(StripPrefix(event.paths[0], canonical.value).value)
    ensures r.Some? ==> (r.value.OpenTab? <==> event.kind.Create?)
  {
    if (event.kind.Create? || event.kind.Remove?) && canonical.Some? then
      match StripPrefix(event.paths[0], canonical.value)
      case Some(rel) =>
        var name := Display(rel);
        Some(if event.kind.Create? then OpenTab(name) else CloseTab(name))
      case None => None
    else None
  }

  /**
   * The list-returning translation of `src/main.rs`: a Create event is
   * handled like the Option variant, but a Remove event closes the tab
   * named by the full, unstripped event path and never canonicalizes.
   */
  function EventToActions(event: Event, canonical: Option<Path>): (r: seq<Action>)
    requires event.kind.Create? && canonical.Some? ==> event.paths != []
    requires event.kind.Remove? ==> event.paths != []
    ensures |r| <= 1
    ensures event.kind.Create? ==> (r != [] <==> canonical.Some? && StripPrefix(event.paths[0], canonical.value).Some?)
    ensures r != [] && event.kind.Create? ==> r[0] == OpenTab(Display(StripPrefix(event.paths[0], canonical.value).value))
    ensures event.kind.Remove? ==> r == [CloseTab(Display(event.paths[0]))]
    ensures !event.kind.Create? && !event.kind.Remove? ==> r == []
  {
    match event.kind
    case Create =>
      if canonical.Some? then
        match StripPrefix(event.paths[0], canonical.value)
        case Some(rel) => [OpenTab(Display(rel))]
        case None => []
      else []
    case Remove => [CloseTab(Display(event.paths[0]))]
    case _ => []
  }

  /** A file created or removed under the watched directory names its path relative to it. */
  lemma UnderBase(kind: EventKind, base: Path, rest: seq<string>, others: seq<Path>)
    requires kind.Create? || kind.Remove?
    ensures EventToAction(Event(kind, [Path(base.absolute, base.parts + rest)] + others), Some(base)) ==
      Some(if kind.Create? then OpenTab(Join(rest)) else CloseTab(Join(rest)))
  {
    StripJoined(base, rest);
    assert ([Path(base.absolute, base.parts + rest)] + others)[0] == Path(base.absolute, base.parts + rest);
    assert Display(Path(false, rest)) == Join(rest);
  }

  /** A path outside the watched directory, or a failed canonicalization, gives no action. */
  lemma NotUnderBase(event: Event, canonical: Option<Path>)
    requires canonical.None? || (event.paths != [] && StripPrefix(event.paths[0], canonical.value).None?)
    ensures EventToAction(event, canonical) == None
    ensures event.kind.Create? ==> EventToActions(event, canonical) == []
  {
  }

  /** Only the first path of an event is read. */
  lemma OnlyFirstPath(kind: EventKind, p: Path, others: seq<Path>, canonical: Option<Path>)
    ensures EventToAction(Event(kind, [p] + others), canonical) == EventToAction(Event(kind, [p]), canonical)
    ensures EventToActions(Event(kind, [p] + others), canonical) == EventToActions(Event(kind, [p]), canonical)
  {
  }

  /** A relative, well-formed path never prints like an absolute one. */
  lemma DisplayKeepsRoot(p: Path, q: Path)
    requires p.absolute && !q.absolute && WellFormed(q)
    ensures Display(p) != Display(q)
  {
    assert Display(p)[0] == '/';
    if q.parts != [] {
      assert Display(q) == Join(q.parts);
      assert Display(q)[0] == q.parts[0][0];
      assert q.parts[0][0] in q.parts[0];
    }
  }

  /**
   * In `src/main.rs` a file created and then removed under an absolute
   * watched directory opens one name and closes another: the open names
   * the relative path, the close the absolute one, so the close can never
   * match the tab the open created.
   */
  lemma ListCreateRemoveMismatch(base: Path, rest: seq<string>)
    requires base.absolute && WellFormed(Path(false, rest))
    ensures EventToActions(Event(Create, [Path(true, base.parts + rest)]), Some(base)) == [OpenTab(Join(rest))]
    ensures EventToActions(Event(Remove, [Path(true, base.parts + rest)]), Some(base)) ==
      [CloseTab(Display(Path(true, base.parts + rest)))]
    ensures Join(rest) != Display(Path(true, base.parts + rest))
  {
    StripJoined(base, rest);
    assert Display(Path(false, rest)) == Join(rest);
    DisplayKeepsRoot(Path(true, base.parts + rest), Path(false, rest));
  }

  /** In `src/lib.rs` the same two events open and close the same name. */
  lemma OptionCreateRemoveMatch(base: Path, rest: seq<string>)
    ensures EventToAction(Event(Create, [Path(base.absolute, base.parts + rest)]), Some(base)) == Some(OpenTab(Join(rest)))
    ensures EventToAction(Event(Remove, [Path(base.absolute, base.parts + rest)]), Some(base)) == Some(CloseTab(Join(rest)))
  {
    UnderBase(Create, base, rest, []);
    UnderBase(Remove, base, rest, []);
    assert [Path(base.absolute, base.parts + rest)] + [] == [Path(base.absolute, base.parts + rest)];
  }
}
