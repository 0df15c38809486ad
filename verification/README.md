# Software evaluation screens of the system-upgrade tool, in Dafny

This project models the two pieces of sequential logic inside the image-preparation screens of `deepin-system-upgrade-tool`. It then proves what they do.

1. **The software evaluation screen** (`SoftwareEvaluationWidget`).
   - `readDesktopFile` reads a `.desktop` file into an `AppInfo{name, iconName, noDisplay}`. It uses a loose subset of the freedesktop.org Desktop Entry Specification: the localised key `Name[<locale>]` and the keys `Name`, `Icon` and `NoDisplay`.
   - The screen keeps the map that the upgrade worker publishes. It goes from package name to desktop filenames.
   - For each `(package, status)` verdict, the screen appends the package's applications to the compatible list (status 1) or to the incompatible list (any other status).
   - `clearAppInfos` empties both lists.
   - `fillTable` lays the two lists out as the two columns of a table.
2. **The software-check progress screen** (`SoftwareCheckProgressWidget`). It shows the worker's progress value. Each time the value is exactly 100, it raises `CheckDone`, and its own slot turns that into one `AllCheckDone`.

Modules:

- `Optional` (`optional.dfy`): the `Option` datatype.
- `QtString` (`qt_string.dfy`): the QString operations the reader uses.
  - `startsWith` is case-sensitive.
  - `split` on one character keeps empty parts. It comes with its inverse `Join` and both round trips.
  - `trimmed` removes whitespace as `QChar::isSpace` defines it.
- `DesktopEntry` (`desktop_entry.dfy`): the reader, in two forms, proved equal.
  - A left fold over the lines.
  - The `while` loop with the four prefix tests as `readDesktopFile` writes them.

  A recursive reference definition of "the value of the last line of a kind", characterised by quantified lemmas, ties both forms to the file's lines.
- `SoftwareEvaluation` (`software_evaluation.dfy`): the map, the two lists, the event handlers, the icon-source choice and the table fill.
- `CheckProgress` (`check_progress.dfy`): the progress/completion machine.

Modelling choices:

- **File contents.** A file is given as `Option<seq<string>>`: `None` when it cannot be opened, otherwise the lines as `readLine` returns them, terminators included (`trimmed` removes them).
- **Locale.** The current UI locale (`kCurrentLocale`) is a parameter.
- **The `=` precondition.** A line that takes one of the four branches but has no `=` would make `split("=")[1]` index out of range. Only `Icon…` and `Name[<locale>]…` lines can lack one. Every reader member states "matched lines contain `=`" as a precondition (`WellFormed`).
- **Files and paths.** Inside the evaluation screen, `QDir::absoluteFilePath` under `/usr/share/applications` is an abstract function `resolve`. The file system is a map from path to lines, and a missing path is a file that cannot be opened.
- **Table semantics.** The table follows `QTableWidget::setRowCount`: rows at or beyond the new count disappear with their cells. Cells in the remaining rows that `fillTable` does not overwrite keep their old widgets. `FillTable` states this frame condition.
- **Signals.** They are counted, not dispatched: `checkDone` and `allCheckDone` count the signals raised so far.

Three behaviours of the code are worth stating plainly:

- **`Icon` prefix.** The `Icon` test is the bare prefix `Icon`, not `Icon=`, so `IconFoo=x` sets the icon.
- **`noDisplay` default.** `noDisplay` starts false and becomes true only when the value of the last `NoDisplay=` line is exactly `true`. A file with no `NoDisplay` line, and a file that cannot be opened, both give `noDisplay` false.
- **No latch at 100.** Nothing remembers that 100 has been reached: every update equal to 100 raises `CheckDone` again, and a run raises `AllCheckDone` once per 100 it contains.

## Model

| member | source | states |
|---|---|---|
| `DesktopEntry.ReadDesktopFile` | src/deepin-system-upgrade-tool/src/tool/image_preparation/softwareevaluationwidget.cpp:48-51 | An unopenable file yields the file path as the name, an empty icon name and `noDisplay` false. |
| `DesktopEntry.ParseDesktopFile` | src/deepin-system-upgrade-tool/src/tool/image_preparation/softwareevaluationwidget.cpp:16-53 | The reading loop has the four prefix tests of `readDesktopFile` in order, the name is chosen after the loop, and the `None` case falls back to the path. It is proved to compute exactly the functional reader. |
| `DesktopEntry.IconIsLastIconValue` | src/deepin-system-upgrade-tool/src/tool/image_preparation/softwareevaluationwidget.cpp:28-30 | `iconName` is the value of the last line that starts with `Icon` (so `IconFoo=` counts), or empty when there is no such line. |
| `DesktopEntry.NameIsLocalisedElseFallback` | src/deepin-system-upgrade-tool/src/tool/image_preparation/softwareevaluationwidget.cpp:32-46 | The name is the last `Name[<locale>]` value if that is non-empty. Otherwise it is the last `Name=` value, or empty when neither appears. An empty last localised value falls back to `Name=`. |
| `DesktopEntry.NoDisplayIffLastIsTrue` | src/deepin-system-upgrade-tool/src/tool/image_preparation/softwareevaluationwidget.cpp:40-43 | `noDisplay` holds iff the last `NoDisplay=` line's trimmed value is exactly `true`. It is false with no such line and for any other value. |
| `DesktopEntry.OtherLinesDoNotMatter` | src/deepin-system-upgrade-tool/src/tool/image_preparation/softwareevaluationwidget.cpp:25-44 | Inserting lines that match none of the four prefixes anywhere in a file leaves the resulting `AppInfo` unchanged. |
| `DesktopEntry.ValueBetweenFirstAndSecondEquals` | src/deepin-system-upgrade-tool/src/tool/image_preparation/softwareevaluationwidget.cpp:30 | A matched line's value is the trimmed text between its first and second `=` (or the line's end), so `Icon=a=b` yields `a`. |
| `DesktopEntry.ScanTracksLastValues` | src/deepin-system-upgrade-tool/src/tool/image_preparation/softwareevaluationwidget.cpp:25-44 | After the loop, each of the icon, localised name, fallback name and visibility holds the value of the last line of its kind, or its initial value when no line has that kind. |
| `DesktopEntry.LastValueNoneIffNoMatch` | src/deepin-system-upgrade-tool/src/tool/image_preparation/softwareevaluationwidget.cpp:25-44 | The reference "last match" has no value iff no line of the file has that kind. |
| `DesktopEntry.LastValueAtLastMatch` | src/deepin-system-upgrade-tool/src/tool/image_preparation/softwareevaluationwidget.cpp:25-44 | When line `i` has the kind and no later line does, the reference "last match" is line `i`'s value. |
| `DesktopEntry.KindOf` | src/deepin-system-upgrade-tool/src/tool/image_preparation/softwareevaluationwidget.cpp:36-43 | Lines taking the `Name=` or `NoDisplay=` branch always contain `=`, so only `Icon` and `Name[<locale>]` lines can break `split("=")[1]`. |
| `QtString.Split` | src/deepin-system-upgrade-tool/src/tool/image_preparation/softwareevaluationwidget.cpp:30 | `split("=")` gives at least one part, more than one iff the line contains `=`, and no part contains the separator. |
| `QtString.JoinSplit` | src/deepin-system-upgrade-tool/src/tool/image_preparation/softwareevaluationwidget.cpp:30 | Joining the parts of `split` with the separator gives back the line. |
| `QtString.SplitJoin` | src/deepin-system-upgrade-tool/src/tool/image_preparation/softwareevaluationwidget.cpp:30 | Splitting a join of separator-free parts gives back the parts. |
| `QtString.Trimmed` | src/deepin-system-upgrade-tool/src/tool/image_preparation/softwareevaluationwidget.cpp:30 | `trimmed()` is no longer than its input and neither starts nor ends with whitespace. |
| `QtString.TrimmedCutsOnlySpace` | src/deepin-system-upgrade-tool/src/tool/image_preparation/softwareevaluationwidget.cpp:30 | The input is whitespace, then the trimmed value, then whitespace: `trimmed()` removes nothing else. |
| `QtString.TrimmedIdempotent` | src/deepin-system-upgrade-tool/src/tool/image_preparation/softwareevaluationwidget.cpp:30 | Trimming an already trimmed value changes nothing. |
| `SoftwareEvaluation.ReadEntries` | src/deepin-system-upgrade-tool/src/tool/image_preparation/softwareevaluationwidget.cpp:191-193 | Entry `i` of the result is `readDesktopFile` of the `i`-th desktop filename resolved under the applications directory, one per filename, in the map's order. |
| `SoftwareEvaluation.Initial` | src/deepin-system-upgrade-tool/src/tool/image_preparation/softwareevaluationwidget.cpp:55-57 | A new screen has an empty map and empty lists. |
| `SoftwareEvaluation.AppsAvailable` | src/deepin-system-upgrade-tool/src/tool/image_preparation/softwareevaluationwidget.cpp:82-83 | The map becomes exactly the published one, with no merge, and both lists are untouched. |
| `SoftwareEvaluation.ClearAppInfos` | src/deepin-system-upgrade-tool/src/tool/image_preparation/softwareevaluationwidget.cpp:174-178 | Both lists become empty and the map is kept. |
| `SoftwareEvaluation.UpdateAppInfos` | src/deepin-system-upgrade-tool/src/tool/image_preparation/softwareevaluationwidget.cpp:180-200 | An unknown package changes nothing. For a known package with status 1, the compatible list keeps its old entries, followed by exactly one parsed entry per desktop file in map order, and the incompatible list is unchanged. Any other status does the same with the roles swapped. The map is never changed. |
| `SoftwareEvaluation.UpdateKeepsProvenance` | src/deepin-system-upgrade-tool/src/tool/image_preparation/softwareevaluationwidget.cpp:189-199 | If every listed application was read from a desktop file that the map names, that still holds after a verdict. |
| `SoftwareEvaluation.RunKeepsProvenance` | src/deepin-system-upgrade-tool/src/tool/image_preparation/softwareevaluationwidget.cpp:174-199 | Under a fixed map, any run of verdicts and clears keeps every listed application traceable to a desktop file the map names. |
| `SoftwareEvaluation.UpdateKeepsFromMaps` | src/deepin-system-upgrade-tool/src/tool/image_preparation/softwareevaluationwidget.cpp:189-199 | If every listed application was read from a desktop file named by one of a set of remembered maps, and the current map is among them, that still holds after a verdict. |
| `SoftwareEvaluation.StepKeepsFromMaps` | src/deepin-system-upgrade-tool/src/tool/image_preparation/softwareevaluationwidget.cpp:82-88 | Any one event (a map publication, a verdict or a clear) keeps every listed application traceable to a remembered map, once the published map is remembered too, and leaves the current map among those remembered. |
| `SoftwareEvaluation.RunKeepsProvenanceAcrossMaps` | src/deepin-system-upgrade-tool/src/tool/image_preparation/softwareevaluationwidget.cpp:82-88 | Over any run, map replacements included, with the desktop files fixed for the run, every listed application was read from a desktop file named by a map remembered before the run or by a map the run publishes. The lists outlive the map that was current at their verdicts. |
| `SoftwareEvaluation.ProvenanceFromStart` | src/deepin-system-upgrade-tool/src/tool/image_preparation/softwareevaluationwidget.cpp:82-88 | From a new screen, with the desktop files fixed for the run, every listed application after any run was read from a desktop file that a map published during that run names. |
| `SoftwareEvaluation.RunWithoutClearOnlyAppends` | src/deepin-system-upgrade-tool/src/tool/image_preparation/softwareevaluationwidget.cpp:195-198 | Until a clear, the lists accumulate across verdicts and map replacements: the lists before a run are prefixes of the lists after it. |
| `SoftwareEvaluation.IconSourceOf` | src/deepin-system-upgrade-tool/src/tool/image_preparation/softwareevaluationwidget.cpp:141-149 | An icon reference that starts with `/` is loaded as a file. Any other, the empty one included, is a theme name with fallback `application-x-executable`. |
| `SoftwareEvaluation.IconSourceKeepsReference` | src/deepin-system-upgrade-tool/src/tool/image_preparation/softwareevaluationwidget.cpp:141-149 | Whichever source is chosen, it carries the icon reference unchanged. |
| `SoftwareEvaluation.PlaceColumn` | src/deepin-system-upgrade-tool/src/tool/image_preparation/softwareevaluationwidget.cpp:160-171 | One placement loop: entry `i` goes to row `i` of its column when that row exists. As in `QTableWidget::setCellWidget`, a row at or past the row count takes no widget. Every other cell and the row count are untouched. |
| `SoftwareEvaluation.FillTable` | src/deepin-system-upgrade-tool/src/tool/image_preparation/softwareevaluationwidget.cpp:156-172 | The row count is the larger list size. Compatible entry `i` is at `(i, 0)` and incompatible entry `i` is at `(i, 1)`. Every cell is in a row below the row count, and the other surviving cells keep their old contents. |
| `CheckProgress.Initial` | src/deepin-system-upgrade-tool/src/tool/image_preparation/softwarecheckprogresswidget.cpp:51 | The progress circle starts at value 1, with no signal raised. |
| `CheckProgress.OnCheckDone` | src/deepin-system-upgrade-tool/src/tool/image_preparation/softwarecheckprogresswidget.cpp:81-84 | Handling one `CheckDone` raises exactly one `AllCheckDone` and changes nothing else. |
| `CheckProgress.OnCheckProgressUpdate` | src/deepin-system-upgrade-tool/src/tool/image_preparation/softwarecheckprogresswidget.cpp:72-79 | The shown value is the received progress, whatever its range. `CheckDone` is raised iff the progress is exactly 100 (not 99, not 101), at most once per update. Each one brings exactly one `AllCheckDone`. For any other value both signal counts stay as they were. |
| `CheckProgress.UpdateKeepsBalance` | src/deepin-system-upgrade-tool/src/tool/image_preparation/softwarecheckprogresswidget.cpp:68-84 | An update keeps the numbers of `CheckDone` and `AllCheckDone` signals equal. |
| `CheckProgress.RunCountsCompletions` | src/deepin-system-upgrade-tool/src/tool/image_preparation/softwarecheckprogresswidget.cpp:72-84 | Over any sequence of updates, both signals are raised once per occurrence of 100 in it, with no latch, and the shown value is the last one received. |
| `CheckProgress.CompletionsFromStart` | src/deepin-system-upgrade-tool/src/tool/image_preparation/softwarecheckprogresswidget.cpp:51-84 | From a new screen, `AllCheckDone` is raised as often as 100 occurs in the updates, never when 100 does not occur. The shown value is 1 until the first update. |

## Left out

- Qt layout, palettes, dark mode and theme switching, font binding, header styling and spacing (`initUI`, `initConnections` theme handler) are pure widget-toolkit calls.
- Opening and reading files is left out. The file contents are an input, and inside the evaluation screen the readable files are a map from path to lines.
- `QDir::absoluteFilePath` under `/usr/share/applications` is an abstract function. `QIcon::setThemeSearchPaths` is a foreign call, left out.
- `QIcon` theme lookup, pixmap loading and `IconLabel` construction are left out. Only the choice between a file icon and a theme icon with its default is modelled.
- The `DBusWorker` singleton and signal/slot dispatch are left out. Events are function calls, and the compatibility verdicts themselves come from that worker, whose code is not part of this model.
- The `ProgressCircleWidget` animation (`start()`) and all `qDebug` output are left out.
- `kCurrentLocale` is defined in a header that is not part of this model, so it is a parameter.
- The filesystem-size tests in `disk_test.go` belong to the upgrade daemon, not to these screens, and the code they exercise is not part of this model.
- The C++ `int` progress value is modelled as an unbounded integer. The screen only stores and compares it, so no wrap-around can arise.
- `SoftwareEvaluation.Run`, `SoftwareEvaluation.RunKeepsProvenanceAcrossMaps` and `SoftwareEvaluation.ProvenanceFromStart` use one `Environment` (locale, `resolve` and file contents) for a whole run. The code reads each desktop file afresh at every verdict (`updateAppInfos`, softwareevaluationwidget.cpp line 193), so the provenance lemmas do not cover a file that changes between two verdicts.
- The table is assumed to have columns 0 and 1. The column count is set by `SoftwareTableWidget`, whose code is not part of this model, and `setHorizontalHeaderLabels` adds no columns.
- `FillTable` assumes the list sizes and indices handed to `setRowCount(int)` and `setCellWidget(int, int, …)` fit in an `int`. Rows and columns are unbounded naturals, and no narrowing of `size_t` to `int` is modelled.
