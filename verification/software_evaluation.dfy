/** The evaluation screen's bookkeeping: the package → desktop-file map the
    worker publishes, the compatible and incompatible application lists it
    grows as per-package verdicts arrive, and the two-column table laid out
    from them. Widget styling and icon loading are not modelled; the choice
    of icon source is. */
module SoftwareEvaluation {
  import opened Optional
  import opened DesktopEntry

  /** What the screen reads from its surroundings: the current locale, the
      resolution of a desktop filename under `/usr/share/applications`
      (`QDir::absoluteFilePath`, kept abstract), and the readable files
      (path → lines; a path that is absent cannot be opened). */
  datatype Environment = Environment(
    locale: string,
    resolve: string -> string,
    files: map<string, seq<string>>)

  function Open(env: Environment, path: string): Option<seq<string>> {
    if path in env.files then Some(env.files[path]) else None
  }

  /** Reading the desktop file `filename` stays within range. */
  predicate EntryReadable(env: Environment, filename: string) {
    var file := Open(env, env.resolve(filename));
    file.Some? ==> WellFormed(file.value, env.locale)
  }

  predicate EntriesReadable(env: Environment, filenames: seq<string>) {
    forall i :: 0 <= i < |filenames| ==> EntryReadable(env, filenames[i])
  }

  /** `readDesktopFile(appDir.absoluteFilePath(filename))`. */
  function ReadEntry(env: Environment, filename: string): AppInfo
    requires EntryReadable(env, filename)
  {
    var path := env.resolve(filename);
    ReadDesktopFile(env.locale, path, Open(env, path))
  }

  /** The applications of a package's desktop files, in the files' order. */
  function ReadEntries(env: Environment, filenames: seq<string>): (infos: seq<AppInfo>)
    requires EntriesReadable(env, filenames)
    ensures |infos| == |filenames|
    ensures forall i :: 0 <= i < |filenames| ==> infos[i] == ReadEntry(env, filenames[i])
  {
    if |filenames| == 0 then []
    else
      assert EntriesReadable(env, filenames[1..]) by {
        assert forall i :: 0 <= i < |filenames| - 1 ==> filenames[1..][i] == filenames[i + 1];
      }
      [ReadEntry(env, filenames[0])] + ReadEntries(env, filenames[1..])
  }

  /** The screen's state. */
  datatype Evaluation = Evaluation(
    pkgDesktopMap: map<string, seq<string>>,
    compatible: seq<AppInfo>,
    incompatible: seq<AppInfo>)

  /** A freshly built screen: an empty map and empty lists. */
  function Initial(): (ev: Evaluation)
    ensures ev.pkgDesktopMap == map[] && ev.compatible == [] && ev.incompatible == []
  {
    Evaluation(map[], [], [])
  }

  /** The `AppsAvailable` handler: the map is replaced wholesale, not merged. */
  function AppsAvailable(ev: Evaluation, appSet: map<string, seq<string>>): (r: Evaluation)
    ensures r.pkgDesktopMap == appSet
    ensures r.compatible == ev.compatible && r.incompatible == ev.incompatible
  {
    ev.(pkgDesktopMap := appSet)
  }

  /** `clearAppInfos`: both lists emptied, the map kept. */
  function ClearAppInfos(ev: Evaluation): (r: Evaluation)
    ensures r.compatible == [] && r.incompatible == []
    ensures r.pkgDesktopMap == ev.pkgDesktopMap
  {
    ev.(compatible := [], incompatible := [])
  }

  /** What `updateAppInfos(pkg, status)` needs to stay within range: every
      desktop file of a known package reads without a malformed match. */
  predicate UpdateReadable(ev: Evaluation, env: Environment, pkg: string) {
    pkg in ev.pkgDesktopMap ==> EntriesReadable(env, ev.pkgDesktopMap[pkg])
  }

  /** `after` is `before` followed by one application per desktop file of
      `filenames`, in their order. */
  predicate AppendedInOrder(after: seq<AppInfo>, before: seq<AppInfo>, env: Environment, filenames: seq<string>)
    requires EntriesReadable(env, filenames)
  {
    && |after| == |before| + |filenames|
    && after[..|before|] == before
    && forall i :: 0 <= i < |filenames| ==> after[|before| + i] == ReadEntry(env, filenames[i])
  }

  /** `updateAppInfos(pkg, status)`: an unknown package changes nothing; a
      known one appends one application per desktop file, in the map's
      order, to the compatible list when `status` is 1 and to the
      incompatible list otherwise. */
  function UpdateAppInfos(ev: Evaluation, env: Environment, pkg: string, status: int): (r: Evaluation)
    requires UpdateReadable(ev, env, pkg)
    ensures r.pkgDesktopMap == ev.pkgDesktopMap
    ensures pkg !in ev.pkgDesktopMap ==> r == ev
    ensures pkg in ev.pkgDesktopMap && status == 1 ==>
              && r.incompatible == ev.incompatible
              && AppendedInOrder(r.compatible, ev.compatible, env, ev.pkgDesktopMap[pkg])
    ensures pkg in ev.pkgDesktopMap && status != 1 ==>
              && r.compatible == ev.compatible
              && AppendedInOrder(r.incompatible, ev.incompatible, env, ev.pkgDesktopMap[pkg])
  {
    if pkg !in ev.pkgDesktopMap then ev
    else
      var infos := ReadEntries(env, ev.pkgDesktopMap[pkg]);
      if status == 1 then
        assert (ev.compatible + infos)[..|ev.compatible|] == ev.compatible;
        ev.(compatible := ev.compatible + infos)
      else
        assert (ev.incompatible + infos)[..|ev.incompatible|] == ev.incompatible;
        ev.(incompatible := ev.incompatible + infos)
  }

  /** Every application in the lists was read from a desktop file that the
      map names for some package. */
  ghost predicate FromMap(ev: Evaluation, env: Environment) {
    && (forall i :: 0 <= i < |ev.compatible| ==> ReadFromMap(ev.compatible[i], ev.pkgDesktopMap, env))
    && (forall i :: 0 <= i < |ev.incompatible| ==> ReadFromMap(ev.incompatible[i], ev.pkgDesktopMap, env))
  }

  ghost predicate ReadFromMap(info: AppInfo, m: map<string, seq<string>>, env: Environment) {
    exists pkg, k :: pkg in m && 0 <= k < |m[pkg]| && EntryReadable(env, m[pkg][k]) && info == ReadEntry(env, m[pkg][k])
  }

  /** A classification keeps the lists' provenance in the current map. */
  lemma UpdateKeepsProvenance(ev: Evaluation, env: Environment, pkg: string, status: int)
    requires UpdateReadable(ev, env, pkg)
    requires FromMap(ev, env)
    ensures FromMap(UpdateAppInfos(ev, env, pkg, status), env)
  {
  }

  /** The events the screen reacts to. */
  datatype Event =
    | AppsAvailableEvent(appSet: map<string, seq<string>>)
    | MigrateStatus(pkg: string, status: int)
    | Clear

  predicate EventReadable(ev: Evaluation, env: Environment, e: Event) {
    e.MigrateStatus? ==> UpdateReadable(ev, env, e.pkg)
  }

  function Apply(ev: Evaluation, env: Environment, e: Event): Evaluation
    requires EventReadable(ev, env, e)
  {
    match e
    case AppsAvailableEvent(appSet) => AppsAvailable(ev, appSet)
    case MigrateStatus(pkg, status) => UpdateAppInfos(ev, env, pkg, status)
    case Clear => ClearAppInfos(ev)
  }

  /** Every event of the run, in the state it meets, stays within range. */
  predicate RunReadable(ev: Evaluation, env: Environment, events: seq<Event>)
    decreases |events|
  {
    |events| == 0
    || (EventReadable(ev, env, events[0]) && RunReadable(Apply(ev, env, events[0]), env, events[1..]))
  }

  function Run(ev: Evaluation, env: Environment, events: seq<Event>): Evaluation
    requires RunReadable(ev, env, events)
    decreases |events|
  {
    if |events| == 0 then ev else Run(Apply(ev, env, events[0]), env, events[1..])
  }

  /** Until the lists are cleared they only grow at the end: what was listed
      before a run is still listed, in place, after it. */
  lemma {:induction false} RunWithoutClearOnlyAppends(ev: Evaluation, env: Environment, events: seq<Event>)
    requires RunReadable(ev, env, events)
    requires forall i :: 0 <= i < |events| ==> !events[i].Clear?
    ensures var r := Run(ev, env, events);
            && |ev.compatible| <= |r.compatible| && r.compatible[..|ev.compatible|] == ev.compatible
            && |ev.incompatible| <= |r.incompatible| && r.incompatible[..|ev.incompatible|] == ev.incompatible
    decreases |events|
  {
    if |events| > 0 {
      var next := Apply(ev, env, events[0]);
      assert forall i :: 0 <= i < |events| - 1 ==> events[1..][i] == events[i + 1];
      RunWithoutClearOnlyAppends(next, env, events[1..]);
      var r := Run(ev, env, events);
      assert r.compatible[..|ev.compatible|] == r.compatible[..|next.compatible|][..|ev.compatible|];
      assert r.incompatible[..|ev.incompatible|] == r.incompatible[..|next.incompatible|][..|ev.incompatible|];
    }
  }

  /** With the map fixed (no `AppsAvailable`), a run of verdicts and clears
      keeps every listed application traceable to a desktop file the map
      names. */
  lemma {:induction false} RunKeepsProvenance(ev: Evaluation, env: Environment, events: seq<Event>)
    requires RunReadable(ev, env, events)
    requires forall i :: 0 <= i < |events| ==> !events[i].AppsAvailableEvent?
    requires FromMap(ev, env)
    ensures FromMap(Run(ev, env, events), env)
    decreases |events|
  {
    if |events| > 0 {
      if events[0].MigrateStatus? {
        UpdateKeepsProvenance(ev, env, events[0].pkg, events[0].status);
      }
      assert forall i :: 0 <= i < |events| - 1 ==> events[1..][i] == events[i + 1];
      RunKeepsProvenance(Apply(ev, env, events[0]), env, events[1..]);
    }
  }

  /** The map an event publishes, if it is an `AppsAvailable` event. */
  function Seen(e: Event): seq<map<string, seq<string>>> {
    if e.AppsAvailableEvent? then [e.appSet] else []
  }

  /** The maps a run's `AppsAvailable` events publish, in order. */
  function Published(events: seq<Event>): seq<map<string, seq<string>>>
    decreases |events|
  {
    if |events| == 0 then [] else Seen(events[0]) + Published(events[1..])
  }

  /** `info` was read from a desktop file that one of `maps` names. */
  ghost predicate ReadFromSomeMap(info: AppInfo, maps: seq<map<string, seq<string>>>, env: Environment) {
    exists j :: 0 <= j < |maps| && ReadFromMap(info, maps[j], env)
  }

  ghost predicate ListedFrom(list: seq<AppInfo>, maps: seq<map<string, seq<string>>>, env: Environment) {
    forall i :: 0 <= i < |list| ==> ReadFromSomeMap(list[i], maps, env)
  }

  /** Every listed application was read from a desktop file that one of
      `maps` names. */
  ghost predicate FromMaps(ev: Evaluation, maps: seq<map<string, seq<string>>>, env: Environment) {
    ListedFrom(ev.compatible, maps, env) && ListedFrom(ev.incompatible, maps, env)
  }

  /** Remembering more maps keeps every application traceable. */
  lemma ListedFromMoreMaps(list: seq<AppInfo>, maps: seq<map<string, seq<string>>>, more: seq<map<string, seq<string>>>, env: Environment)
    requires ListedFrom(list, maps, env)
    ensures ListedFrom(list, maps + more, env)
  {
    forall i | 0 <= i < |list|
      ensures ReadFromSomeMap(list[i], maps + more, env)
    {
      var j :| 0 <= j < |maps| && ReadFromMap(list[i], maps[j], env);
      assert (maps + more)[j] == maps[j];
    }
  }

  /** Appending the applications of one package of the map `maps[c]` keeps
      every application traceable. */
  lemma ListedFromAfterAppend(after: seq<AppInfo>, before: seq<AppInfo>, env: Environment,
                              maps: seq<map<string, seq<string>>>, c: nat, pkg: string)
    requires c < |maps| && pkg in maps[c] && EntriesReadable(env, maps[c][pkg])
    requires AppendedInOrder(after, before, env, maps[c][pkg])
    requires ListedFrom(before, maps, env)
    ensures ListedFrom(after, maps, env)
  {
    var m := maps[c];
    forall i | 0 <= i < |after|
      ensures ReadFromSomeMap(after[i], maps, env)
    {
      if i < |before| {
        assert after[i] == after[..|before|][i];
      } else {
        var k := i - |before|;
        assert EntryReadable(env, m[pkg][k]) && after[i] == ReadEntry(env, m[pkg][k]);
        assert ReadFromMap(after[i], m, env);
      }
    }
  }

  /** A verdict keeps every listed application traceable to one of `maps`
      when the current map is among them. */
  lemma UpdateKeepsFromMaps(ev: Evaluation, env: Environment, pkg: string, status: int,
                            maps: seq<map<string, seq<string>>>)
    requires UpdateReadable(ev, env, pkg)
    requires ev.pkgDesktopMap in maps
    requires FromMaps(ev, maps, env)
    ensures FromMaps(UpdateAppInfos(ev, env, pkg, status), maps, env)
  {
    if pkg in ev.pkgDesktopMap {
      var c :| 0 <= c < |maps| && maps[c] == ev.pkgDesktopMap;
      var r := UpdateAppInfos(ev, env, pkg, status);
      if status == 1 {
        ListedFromAfterAppend(r.compatible, ev.compatible, env, maps, c, pkg);
      } else {
        ListedFromAfterAppend(r.incompatible, ev.incompatible, env, maps, c, pkg);
      }
    }
  }

  /** One event keeps every listed application traceable, remembering the
      map it publishes, and the current map stays among those remembered. */
  lemma StepKeepsFromMaps(ev: Evaluation, env: Environment, e: Event, maps: seq<map<string, seq<string>>>)
    requires EventReadable(ev, env, e)
    requires ev.pkgDesktopMap in maps
    requires FromMaps(ev, maps, env)
    ensures Apply(ev, env, e).pkgDesktopMap in maps + Seen(e)
    ensures FromMaps(Apply(ev, env, e), maps + Seen(e), env)
  {
    match e
    case AppsAvailableEvent(appSet) =>
      ListedFromMoreMaps(ev.compatible, maps, Seen(e), env);
      ListedFromMoreMaps(ev.incompatible, maps, Seen(e), env);
      assert (maps + Seen(e))[|maps|] == appSet;
    case MigrateStatus(pkg, status) =>
      UpdateKeepsFromMaps(ev, env, pkg, status, maps);
      assert maps + Seen(e) == maps;
    case Clear =>
      assert maps + Seen(e) == maps;
  }

  lemma PublishedStep(maps: seq<map<string, seq<string>>>, events: seq<Event>)
    requires |events| > 0
    ensures maps + Seen(events[0]) + Published(events[1..]) == maps + Published(events)
  {
  }

  /** Over any run, map replacements included: every listed application was
      read from a desktop file named by the map current before the run, by
      an earlier one, or by a map the run publishes. The lists outlive map
      replacements, so the current map alone is not enough. */
  lemma {:induction false} RunKeepsProvenanceAcrossMaps(ev: Evaluation, env: Environment, events: seq<Event>,
                                                        maps: seq<map<string, seq<string>>>)
    requires RunReadable(ev, env, events)
    requires ev.pkgDesktopMap in maps
    requires FromMaps(ev, maps, env)
    ensures FromMaps(Run(ev, env, events), maps + Published(events), env)
    decreases |events|
  {
    if |events| == 0 {
      assert maps + Published(events) == maps;
    } else {
      var next, rest := Apply(ev, env, events[0]), events[1..];
      var remembered := maps + Seen(events[0]);
      StepKeepsFromMaps(ev, env, events[0], maps);
      RunKeepsProvenanceAcrossMaps(next, env, rest, remembered);
      PublishedStep(maps, events);
    }
  }

  /** From a new screen, every listed application was read from a desktop
      file that a map published during the run names. */
  lemma ProvenanceFromStart(env: Environment, events: seq<Event>)
    requires RunReadable(Initial(), env, events)
    ensures FromMaps(Run(Initial(), env, events), Published(events), env)
  {
    var empty: map<string, seq<string>> := map[];
    var r := Run(Initial(), env, events);
    var p := Published(events);
    assert Initial().pkgDesktopMap == [empty][0];
    RunKeepsProvenanceAcrossMaps(Initial(), env, events, [empty]);
    DropEmptyMap(r.compatible, p, env);
    DropEmptyMap(r.incompatible, p, env);
  }

  /** The empty map names no desktop file, so it can be forgotten. */
  lemma DropEmptyMap(list: seq<AppInfo>, maps: seq<map<string, seq<string>>>, env: Environment)
    requires ListedFrom(list, [map[]] + maps, env)
    ensures ListedFrom(list, maps, env)
  {
    forall i | 0 <= i < |list|
      ensures ReadFromSomeMap(list[i], maps, env)
    {
      var j :| 0 <= j < |[map[]] + maps| && ReadFromMap(list[i], ([map[]] + maps)[j], env);
      assert j != 0;
      assert ([map[]] + maps)[j] == maps[j - 1];
    }
  }

  /** Where an icon is loaded from: an absolute file, or a theme name with a
      generic executable icon as the fallback. */
  datatype IconSource = IconFile(path: string) | ThemeIcon(name: string, fallback: string)

  const DefaultThemeIcon := "application-x-executable"

  /** The icon choice of `generateCellWidget`. */
  function IconSourceOf(iconPath: string): (src: IconSource)
    ensures src.IconFile? <==> |iconPath| > 0 && iconPath[0] == '/'
    ensures src.ThemeIcon? ==> src.fallback == DefaultThemeIcon
  {
    if |iconPath| > 0 && iconPath[0] == '/' then IconFile(iconPath)
    else ThemeIcon(iconPath, DefaultThemeIcon)
  }

  function IconReference(src: IconSource): string {
    match src
    case IconFile(path) => path
    case ThemeIcon(name, _) => name
  }

  /** The icon reference read from the desktop file reaches the loader
      unchanged, whichever source is chosen. */
  lemma IconSourceKeepsReference(iconPath: string)
    ensures IconReference(IconSourceOf(iconPath)) == iconPath
  {
  }

  /** One table cell: the application's name beside its icon. */
  datatype Cell = Cell(name: string, icon: IconSource)

  function CellOf(info: AppInfo): Cell {
    Cell(info.name, IconSourceOf(info.iconName))
  }

  datatype Pos = Pos(row: nat, column: nat)

  /** The result table: a row count and the cell widgets set so far. */
  datatype Table = Table(rowCount: nat, cells: map<Pos, Cell>)

  /** Whether `fillTable` writes the cell at `p`. */
  predicate Placed(p: Pos, compatible: seq<AppInfo>, incompatible: seq<AppInfo>) {
    || (p.column == 0 && p.row < |compatible|)
    || (p.column == 1 && p.row < |incompatible|)
  }

  /** One of `fillTable`'s loops: entry `i` of `infos` is set at row `i` of
      `column`. As with `QTableWidget::setCellWidget`, a row at or past the
      row count takes no widget; nothing else changes. */
  method PlaceColumn(table: Table, column: nat, infos: seq<AppInfo>) returns (t: Table)
    ensures t.rowCount == table.rowCount
    ensures forall i :: 0 <= i < |infos| && i < table.rowCount ==>
              Pos(i, column) in t.cells && t.cells[Pos(i, column)] == CellOf(infos[i])
    ensures forall p :: p in table.cells ==> p in t.cells
    ensures forall p :: p in t.cells && !(p.column == column && p.row < |infos| && p.row < table.rowCount) ==>
              p in table.cells && t.cells[p] == table.cells[p]
  {
    t := table;
    var i := 0;
    while i < |infos|
      invariant 0 <= i <= |infos|
      invariant t.rowCount == table.rowCount
      invariant forall j :: 0 <= j < i && j < table.rowCount ==>
                  Pos(j, column) in t.cells && t.cells[Pos(j, column)] == CellOf(infos[j])
      invariant forall p :: p in table.cells ==> p in t.cells
      invariant forall p :: p in t.cells && !(p.column == column && p.row < i && p.row < table.rowCount) ==>
                  p in table.cells && t.cells[p] == table.cells[p]
    {
      if i < t.rowCount {
        t := t.(cells := t.cells[Pos(i, column) := CellOf(infos[i])]);
      }
      i := i + 1;
    }
  }

  /** `fillTable`: the row count becomes the longer list's length (rows past
      it go, with their cells), compatible entry `i` is placed at `(i, 0)`,
      incompatible entry `i` at `(i, 1)`, and every other surviving cell is
      left as it was. */
  method FillTable(table: Table, ev: Evaluation) returns (t: Table)
    ensures t.rowCount >= |ev.compatible| && t.rowCount >= |ev.incompatible|
    ensures t.rowCount == |ev.compatible| || t.rowCount == |ev.incompatible|
    ensures forall i :: 0 <= i < |ev.compatible| ==>
              Pos(i, 0) in t.cells && t.cells[Pos(i, 0)] == CellOf(ev.compatible[i])
    ensures forall i :: 0 <= i < |ev.incompatible| ==>
              Pos(i, 1) in t.cells && t.cells[Pos(i, 1)] == CellOf(ev.incompatible[i])
    ensures forall p :: p in t.cells ==> p.row < t.rowCount
    ensures forall p :: p in t.cells && !Placed(p, ev.compatible, ev.incompatible) ==>
              p in table.cells && t.cells[p] == table.cells[p]
    ensures forall p :: p in table.cells && p.row < t.rowCount ==> p in t.cells
  {
    var rows := if |ev.compatible| > |ev.incompatible| then |ev.compatible| else |ev.incompatible|;
    var kept := Table(rows, map p | p in table.cells && p.row < rows :: table.cells[p]);
    var withCompatible := PlaceColumn(kept, 0, ev.compatible);
    t := PlaceColumn(withCompatible, 1, ev.incompatible);
  }
}
