# Verified models of the cports build tooling

This project models, in Dafny, the algorithms behind two programs of the repository: the `cbuild` runner
(`cports/src/runner.py`) and the kernel module lister (`scripts/resolve-modules.py`). `dafny verify
dfyconfig.toml` checks everything.

What is modelled:

* **Dependency graphs.** `_add_deps_graph` walks build dependencies depth first and shares its visited set,
  its second set and the graph with every other call (`DepGraph`). It feeds the cycle check (`CycleCheck`) and
  bulk builds. `TopoSort` is the topological sorter both rely on: `prepare` and `static_order`, as a loop over
  groups of ready nodes.
* **Bulk builds.** `_bulkpkg` resolves, parses, orders and builds (`BulkEngine`). Its failure flag is explained
  by a trace of events (`BulkErrors`), its status lines by accounts of every requested template (`BulkLedger`),
  its graph by a book of who was expanded, and why (`BulkGraph`), its final list by the order it was filtered
  from (`BulkOrder`). `BulkBook` and `BulkFate` say in terms of the inputs alone what is found behind each
  requested template, who gets an implicit edge, when the graph is cyclic, what becomes of each template, which
  lines are written, when the failure flag is set, and how the run ends; the phases are proved to do exactly
  that. `BulkTheorems` says what it means for a caller.
* **Around bulk builds.** The reader of status files (`Status`), the commit order (`Commit`), the search for
  templates that can be built (`Unbuilt`), and the printed build graph (`BuildTree`).
* **Rewriters.** The checksum rewriter of `prepare-upgrade` (`Upgrade`) and the source pruner (`Prune`).
* **Kernel modules.** Table reading, name lookup and the dependencies-first listing (`ModuleOrder`).

Conventions:

* A template is read in one of two ways, and the model keeps them apart: as a dependency (`dep`, fixed
  options) and as a requested package (`main`, build options such as `--force-check`, which add dependencies,
  see `cports/src/cbuild/core/dependencies.py` lines 133-135). A view maps names to what constructing the
  template gives: an object with its build dependencies, `SkipPackage`, or another exception. Names without an
  entry cannot be read. The three outcomes are those `pkg_run_exc` tells apart; a skipped one sets no failure
  flag.
* What the outside world answers (`sanitize_pkgname`, `is_built`, the result of a build, repository versions,
  file system contents) is a parameter of the run.
* Names that `sanitize_pkgname` is given no answer for are missing, and builds without a result raise an error
  (`BulkFate.NoEntry`).
* Sets are iterated in any order where Python leaves it open; requested names are sorted as the program does.
* Nothing is assumed about names or dependency lists; they may be cyclic, repeat, or lead to unknown names.

Where the obvious claim is not what the code does:

* `_add_deps_graph` answers only for names it newly visits: of two packages that share an unreadable dependency
  only the first is reported, and the second is recorded for building (`BulkTheorems.SharedUnreadable`). Names
  that are requested themselves count as visited from the start, so a template that lists an unreadable
  requested one is recorded in either order (`BulkTheorems.RequestedUnreadable`), although the comment at lines
  2034 to 2041 of the runner wants it skipped. An expandable template is recorded if and only if every unreadable
  name it leads to, through names neither requested nor behind base-cbuild, is one that an expandable requested
  template before it leads to (`BulkTheorems.RecordedExactly`).
* The implicit edges to `main/base-cbuild` close a cycle exactly if a template that gets one can be reached from
  base-cbuild (`BulkBook.CyclesExactly`). A template gets one exactly if it is not behind base-cbuild and no
  expandable requested template that sorts before it leads to it (`BulkBook.EdgeExactly`). So with options that
  add dependencies a request can fail with a cycle although the build dependencies have none, depending on how
  the names sort (`BulkTheorems.ImplicitEdgeClosesCycle`). It is enough, though not needed, that requested
  templates behind base-cbuild list nothing outside its closure (`BulkBook.KeptClosureIsHarmless`).
* A broken template clears the failure flag, so with `--bulk-continue` an earlier error can be forgotten and
  the run ends normally (`BulkTheorems.BrokenForgetsFailure`). Unless the graph is cyclic, such a run fails
  exactly if a build raises or a template sorted after the last broken one makes trouble
  (`BulkTheorems.OnlyLaterTroubleCounts`); without a broken template it fails exactly if anything is wrong
  (`BulkTheorems.FailureProtocol`).
* Without `--bulk-continue`, templates recorded before a later failure to parse get no status line
  (`BulkTheorems.RecordedWithoutLine`). A run that does not get to its list writes a line about a requested
  template exactly if the parse phase has one for it (`BulkTheorems.OnlyParseLines`); a run that goes through
  its builds writes one for each, or has dropped it (`BulkTheorems.ExactlyOneLine`).
* `_check_tmpls` does not notice cycles. The model gives it a recursion limit. With a limit above the number of
  templates, the search from a template ends exactly if no cycle lies behind it along the dependencies the
  search gets to, which are, of each template, those up to the first that is broken, blocked by a broken one, or
  has a cycle behind it (`Unbuilt.Search.CheckTmpls`, `Unbuilt.ExploredEdges`); with a cycle there it ends at no
  limit. So the list exists exactly if that holds for every out-of-date template not broken itself, and no
  attribute is missing (`Unbuilt.GetUnbuilt`). For a template that is not blocked, any cycle behind it keeps the
  search from ending (`Unbuilt.UnblockedEnds`, `Unbuilt.NeedsItself`); for a blocked one it depends on what is
  listed first (`Unbuilt.ListedFirst`).
* Template files that lack an attribute are meant to be listed as unbuilt (comment at line 1532 of the runner),
  but `getattr` without a default raises for them; `Unbuilt.FindCandidates` has no result then.
* Checksum rewriting is right exactly if no new checksum is the outdated checksum of a later entry and no two
  changed entries get the same one (`Upgrade.RewritingIsRight`); two swapped checksums stay as they were
  (`Upgrade.SwappedChecksumsClash`).

## Model

| member | source | states |
|---|---|---|
| TopoSort.GetReady | cports/src/runner.py:2058 | exactly the nodes not done whose dependencies are all done |
| TopoSort.StaticOrder | cports/src/runner.py:2058 | an order exists exactly if the graph is acyclic; it lists every node once, after all it depends on |
| TopoSort.Prepare | cports/src/runner.py:1397-1399 | succeeds exactly on acyclic graphs |
| DepGraph.GraphWalk.ReadDep | cports/src/runner.py:1951-1962 | only an exception other than SkipPackage raises the failure flag, and it is on record |
| DepGraph.GraphWalk.Add | cports/src/runner.py:1145 | the graph gains the node, what it lists, and exactly those edges |
| DepGraph.GraphWalk.Visit | cports/src/runner.py:1148-1160 | visiting one listed dependency: all of visited set, second set, graph and failure flag afterwards, and success exactly if everything newly visited parsed |
| DepGraph.GraphWalk.AddDepsGraph | cports/src/runner.py:1143-1161 | newly visited names are exactly those reached through unvisited readable names; the graph gains exactly the edges of the template and of the newly visited ones; true exactly if all newly visited parsed; it ends on cyclic dependencies |
| DepGraph.Compose | cports/src/runner.py:1148-1160 | visiting two lists one after the other is visiting their concatenation, whatever was shared |
| DepGraph.NewlyStep | cports/src/runner.py:1148-1160 | searching on from further names finds what one search from all of them finds |
| DepGraph.ExploresExactly | cports/src/runner.py:1148-1160 | completeness and soundness of the walk against plain reachability |
| CycleCheck.GraphPrepare | cports/src/runner.py:1193-1205 | after scanning any list of templates, skipping covered ones, the graph has exactly the edges of everything covered |
| CycleCheck.ScanFindsCycles | cports/src/runner.py:1193-1205 | the scanned graph is cyclic exactly if a cycle lies behind the scanned templates |
| CycleCheck.CheckCycles | cports/src/runner.py:1390-1402 | an error is reported exactly if a dependency cycle can be reached from the templates, for every order and repetition |
| CycleCheck.WholeTree | cports/src/runner.py:1194-1203 | over the whole tree that is any cycle among readable templates |
| BuildTree.Printer.PrintDeps | cports/src/runner.py:1437-1445 | prints a subtree: rows below it are deeper, hang below a row that lists them, are distinct, and are exactly what was newly built; whatever a row lists was printed when its subtree ends; it stops exactly at something unreadable |
| BuildTree.PrintedAppends | cports/src/runner.py:1441-1445 | a printed child subtree extends the tree of its parent |
| BuildTree.SiblingsAppend | cports/src/runner.py:1441-1445 | the next child comes after those listed before it |
| BuildTree.DeeperFirst | cports/src/runner.py:1441-1445 | a printed subtree has everything its rows list, unless it was printed before |
| BuildTree.PrintGraph | cports/src/runner.py:1433-1447 | the depth-first spanning tree in pre-order, siblings in the order they are listed, whatever a row lists standing before or inside its subtree: every reachable dependency exactly once, the root again only if it lies on a cycle; fails exactly if something there cannot be read |
| BulkEngine.BulkRun.MarkBad | cports/src/runner.py:1898-1910 | a missing or invalid name gets its line, sets the flag and is an error of the run |
| BulkEngine.BulkRun.SkipName | cports/src/runner.py:1916-1920 | a name that resolves after a failure is reported, not requested |
| BulkEngine.BulkRun.ResolveOne | cports/src/runner.py:1892-1922 | exact effect on lines, requested and bad names, flag and errors; the flag is set exactly if there is a bad name |
| BulkEngine.BulkRun.ResolveAll | cports/src/runner.py:1890-1922 | lines, requested and bad names, flag and errors are those of taking in all names |
| BulkEngine.BulkRun.BaseCbuild | cports/src/runner.py:1966-1985 | the graph of base-cbuild alone, its closure, requested names marked as visited; the errors are exactly the unreadable names in the closure, and the flag says if there were any |
| BulkEngine.BulkRun.Report | cports/src/runner.py:1995-2106 | one truthful line for a waiting template, which then waits no longer |
| BulkEngine.BulkRun.ReadMain | cports/src/runner.py:2001-2020 | the read with build options; flag and errors are exact |
| BulkEngine.BulkRun.HandleRecdeps | cports/src/runner.py:1938-1964 | keeps the graph invariant, with an implicit edge exactly for unmentioned templates; what is newly found, the errors among it and the flag are exact; true exactly if everything newly found parsed |
| BulkEngine.BulkRun.ParseOne | cports/src/runner.py:1992-2050 | line, recording, flag, errors, visited names and graph after one requested template, case by case; all invariants kept |
| BulkEngine.BulkRun.SkipOne | cports/src/runner.py:1994-1997 | after a failure a template is only reported |
| BulkEngine.BulkRun.GiveUp | cports/src/runner.py:2021-2026 | a line if an error made it fail, silence and the previous flag if it was skipped |
| BulkEngine.BulkRun.SetAside | cports/src/runner.py:2027-2031 | the line of a broken template; the flag stays cleared |
| BulkEngine.BulkRun.Include | cports/src/runner.py:2032-2050 | recorded exactly if everything newly found behind it parsed |
| BulkEngine.BulkRun.Record | cports/src/runner.py:2048-2050 | restores the flag and records the template, with all invariants kept |
| BulkEngine.BulkRun.ParseNext | cports/src/runner.py:1992-2050 | leads from the exact state for the names before to the exact state with this one |
| BulkEngine.BulkRun.ParseAll | cports/src/runner.py:1987-2050 | every requested template is reported, dropped or recorded, exactly one of them; state and lines are exactly those the inputs foretell, in ascending name order |
| BulkEngine.BulkRun.Prepare | cports/src/runner.py:1886-2050 | the phases before ordering with their exact lines, flag, errors and recorded templates; they end early exactly if base-cbuild cannot be read |
| BulkEngine.BulkRun.MarkDone | cports/src/runner.py:2065-2068 | a built template gets its line and no entry |
| BulkEngine.BulkRun.ListOne | cports/src/runner.py:2069-2072 | an outdated template gets its entry, after all it depends on, and no line |
| BulkEngine.BulkRun.OrderOne | cports/src/runner.py:2060-2072 | built templates get a line, other recorded ones an entry |
| BulkEngine.BulkRun.OrderAll | cports/src/runner.py:2052-2072 | the list is exactly the recorded, outdated names of the order, the lines exactly the built ones |
| BulkEngine.BulkRun.Order | cports/src/runner.py:2054-2072 | fails exactly on a cyclic graph, leaving everything as it was; else the list has exactly the outdated recorded templates and respects all chains of dependencies and implicit edges |
| BulkEngine.BulkRun.BuildOne | cports/src/runner.py:2083-2106 | exact line, events and flag of one build; nothing is started after a failure unless told to continue |
| BulkEngine.BulkRun.BuildAll | cports/src/runner.py:2083-2106 | exactly the builds the run does not stop before are started, in list order; every entry gets its exact line; flag and errors are exact |
| BulkEngine.BulkRun.Finish | cports/src/runner.py:2052-2111 | outcome, list, lines, builds and errors exactly as the inputs say; after an earlier stop or with a cycle nothing is written or listed |
| BulkEngine.BulkRun.Run | cports/src/runner.py:1862-2111 | the whole run: the outcome is the verdict on its inputs; names, lines, list, builds and errors are exact, lines true, at most one line per requested template, dependency order |
| BulkFate.AllTaken | cports/src/runner.py:1890-1922 | requested and bad names are disjoint and come from those given; unless the run stopped, every given name is known |
| BulkFate.TakenExactly | cports/src/runner.py:1890-1922 | where sanitizing twice changes nothing: exactly the unresolvable names are bad, exactly the sanitized ones requested |
| BulkFate.BadReported | cports/src/runner.py:1898-1920 | every missing or invalid name has its line; other lines come only from stopping for one; with bulk-continue none twice |
| BulkFate.SkippedExactly | cports/src/runner.py:1912-1920 | which names are reported as skipped while names are resolved |
| BulkFate.NothingAfterBad | cports/src/runner.py:1916-1922 | without bulk-continue nothing is requested after a bad name |
| BulkFate.ParseStep | cports/src/runner.py:1992-2050 | parsing one template leads from one state foretold by the inputs to the next: flag, errors, line, graph |
| BulkFate.StreamExactly | cports/src/runner.py:1992-2106 | the lines about requested templates are exactly those of their fates, of built ones, and of builds |
| BulkFate.ChainsFollow | cports/src/runner.py:1938-1964 | a list that respects the graph respects chains through templates that are not built, and implicit edges |
| BulkBook.FoundTogether | cports/src/runner.py:1938-1964 | what is found behind the requested templates one after the other is what can be reached at all, whatever their order |
| BulkBook.FoundExactly | cports/src/runner.py:1938-1964 | what is newly found behind a template is what it leads to by itself, save what a requested template before it leads to |
| BulkBook.BookStep | cports/src/runner.py:1938-1964 | what the next template adds to visited names, graph and implicit edges, from the requested names alone |
| BulkBook.EdgeExactly | cports/src/runner.py:1942-1950 | an implicit edge exactly for templates not behind base-cbuild to which no earlier requested template leads |
| BulkBook.CyclesExactly | cports/src/runner.py:1931-1985 | the graph is cyclic exactly if a cycle of dependencies is in reach, or a template with an implicit edge is behind base-cbuild |
| BulkBook.KeptClosureIsHarmless | cports/src/runner.py:1931-1985 | a condition a caller can check, under which implicit edges close no cycle in whatever order |
| BulkBook.RunGraphInGraph | cports/src/runner.py:1938-1964 | any chain of expanded templates and implicit edges from a requested one is in the graph |
| Sorting.Sort | cports/src/runner.py:1987 | the names of a set, each once, in the order of texts: a proper prefix first, otherwise by the first differing character |
| Sorting.LessExactly | cports/src/runner.py:1987 | the comparison is that order |
| BulkErrors.PendingExactly | cports/src/runner.py:1999-2048 | the failure flag in terms of events: some error not followed by a broken template |
| BulkErrors.PendingIfStops | cports/src/runner.py:1994-1997 | without bulk-continue, or without broken templates, no error is forgotten |
| BulkErrors.AddBroken | cports/src/runner.py:1999-2031 | a broken template clears the flag, which loses nothing without bulk-continue |
| BulkGraph.GraphStart | cports/src/runner.py:1966-1985 | the graph invariant holds once base-cbuild is expanded |
| BulkGraph.GraphStep | cports/src/runner.py:1938-1964 | expanding any requested template keeps the graph invariant |
| BulkGraph.HarmlessEdges | cports/src/runner.py:1933-1936 | edges into a closed region create no cycle |
| BulkGraph.ImplicitEdgesExactly | cports/src/runner.py:1931-1985 | for every run: cyclic exactly if the explicit edges are, or base-cbuild depends on a template with an implicit edge |
| BulkGraph.CycleVerdict | cports/src/runner.py:1938-2058 | once all requested templates are handled: cyclic exactly if a cycle of dependencies is in reach, or a template with an implicit edge can be reached from base-cbuild |
| BulkGraph.ChainInGraph | cports/src/runner.py:1938-1964 | any chain of expanded templates is in the graph, those of the closure of base-cbuild included |
| BulkLedger.RecdepsErrors | cports/src/runner.py:2033-2047 | success means no error was raised; failure without error means a skipped dependency |
| BulkLedger.LedgerSettle | cports/src/runner.py:1992-2106 | writing the line of a waiting template keeps at most one line each |
| BulkLedger.WholeStream | cports/src/runner.py:1892-2106 | no package has two lines in the whole stream |
| BulkOrder.ListingMembers | cports/src/runner.py:2060-2072 | who is listed, and with which version |
| BulkOrder.ListingFollows | cports/src/runner.py:2058-2072 | filtering an order keeps whatever a template reaches before it, across what was dropped |
| BulkOrder.ListingExactly | cports/src/runner.py:2060-2068 | the list has exactly the outdated recorded templates, the lines exactly the built ones |
| BulkOrder.ListingKeeps | cports/src/runner.py:2055-2072 | the list keeps the order and the repetitions of the names it is made from |
| BulkOrder.BuildsNext | cports/src/runner.py:2083-2106 | one more build: flag, events and lines stay exact |
| BulkTheorems.EventProtocol | cports/src/runner.py:1999-2111 | in terms of events: no build after an error without bulk-continue; the flag is set exactly if some error is not followed by a broken template |
| BulkTheorems.CausesExactly | cports/src/runner.py:1892-2048 | the errors met one after the other amount to: a bad name, an unreadable requested template, or something unreadable behind base-cbuild or a requested template |
| BulkTheorems.FailureProtocol | cports/src/runner.py:1892-2111 | from the inputs: without bulk-continue a run completes exactly if nothing is wrong, cyclic, or raised by a build; with bulk-continue and no broken template it raises exactly if something is wrong or a build raises |
| BulkTheorems.OnlyLaterTroubleCounts | cports/src/runner.py:1999-2048 | with bulk-continue: the run raises exactly if a build raises or a template sorted after the last broken one makes trouble |
| BulkTheorems.FirstInOrder | cports/src/runner.py:1987-1997 | of two unreadable templates the alphabetically first is reported and the other skipped, in whatever order they are given |
| BulkTheorems.SampleOrder | cports/src/runner.py:1987-2023 | the status lines of such a run, in letters |
| BulkTheorems.BrokenForgetsFailure | cports/src/runner.py:2027-2031 | a request whose run completes although something was wrong |
| BulkTheorems.SharedUnreadable | cports/src/runner.py:1151-1152 | of two templates with an unreadable dependency in common the first is reported, the second recorded |
| BulkTheorems.RecordedExactly | cports/src/runner.py:2032-2050 | recorded exactly if an earlier requested template leads to every unreadable name it leads to |
| BulkTheorems.RequestedUnreadable | cports/src/runner.py:1984-1985 | a template that lists an unreadable requested one is recorded, whichever sorts first |
| BulkTheorems.UnreadableOnlyCountsOnce | cports/src/runner.py:1151-1152 | an unreadable dependency seen before goes unnoticed |
| BulkTheorems.ImplicitEdgeClosesCycle | cports/src/runner.py:1942-1950 | requests whose run ends with a cycle that only an implicit edge closes, exactly if they sort one way round |
| BulkTheorems.ExactlyOneLine | cports/src/runner.py:1992-2106 | if the builds were gone through: exactly one line each, or dropped because of `SkipPackage` |
| BulkTheorems.OnlyParseLines | cports/src/runner.py:1992-2074 | in a run that does not get to its list: a line exactly if the parse phase has one |
| BulkTheorems.RecordedWithoutLine | cports/src/runner.py:2050-2074 | a run that fails after recording a template, which gets no line |
| BulkTheorems.BaseCbuildFirst | cports/src/runner.py:1942-1944 | templates with an implicit edge are built after base-cbuild |
| BulkTheorems.ListedDependencyFirst | cports/src/runner.py:1143-1148 | what a listed template itself lists is built before it |
| BulkTheorems.BuiltOrListed | cports/src/runner.py:2065-2072 | of the recorded templates those built already are reported done, unless builds are forced, and the others listed |
| BulkTheorems.BuildsRespectChains | cports/src/runner.py:2083-2106 | builds are started dependencies first |
| BulkTheorems.BulkPkg | cports/src/runner.py:1862-2111 | a whole run from the outside: the outcome is the verdict on its inputs, an early end exactly if main/base-cbuild cannot be read; exactly the errors there are, and no build after one without bulk-continue; exactly the lines there should be, true, phase after phase; exactly the templates to build, with versions exactly if asked for, dependencies first through any chain (in raw mode as given); exactly the builds before a stop |
| Status.SplitRender | cports/src/runner.py:2178 | a written line splits back into name and word |
| Status.RenderedText | cports/src/runner.py:1901-2106 | the status lines, word by word |
| Status.SplitWeave | cports/src/runner.py:2178 | splitting gives back the words of a line, however they are spaced |
| Status.BlankCodes | cports/src/runner.py:2178 | the characters that separate words |
| Status.CollectStatus | cports/src/runner.py:2175-2190 | exactly the names that some line asks for: alone on it, or before another word than broken, ok, invalid and missing |
| Status.RoundTrip | cports/src/runner.py:2175-2190 | reading back a status stream yields exactly the packages reported skipped, parse, done or failed |
| Commit.CommitOrder | cports/src/runner.py:2611-2629 | a plan exists exactly if base-cbuild can be read, nothing is cyclic and no error is left standing; then it is a permutation of the templates; the sorted part has exactly the recorded ones not built yet or forced, dependencies first, and nothing is missing there without a reason; the rest keeps its order |
| Commit.SortableExactly | cports/src/runner.py:2611-2624 | without bulk-continue, or without broken templates: a plan exists exactly if nothing is wrong and nothing cyclic |
| Commit.Rest | cports/src/runner.py:2621-2624 | every occurrence of the templates that could not be sorted, in their order |
| Commit.UnlistedReason | cports/src/runner.py:2621-2624 | why a template is not sortable |
| Unbuilt.Search.GetTmpl | cports/src/runner.py:1563-1575 | caches a right verdict; true exactly for templates marked broken |
| Unbuilt.Search.LooksBroken | cports/src/runner.py:1588-1593 | whether a dependency is marked broken, from the cache or by loading it |
| Unbuilt.Search.CheckTmpls | cports/src/runner.py:1577-1600 | whatever the cache holds, an answer is plain reachability of a broken template; never entered for one cached as broken; with a limit above the number of templates there is an answer exactly if no cycle lies behind the dependencies the search gets to |
| Unbuilt.HarmlessStep | cports/src/runner.py:1587-1598 | when a template may be marked as needing no further look |
| Unbuilt.BlockedExactly | cports/src/runner.py:1577-1600 | blocked is whatever a chain of loadable, unbroken templates outside the repositories leads from to a broken one |
| Unbuilt.InRepository | cports/src/runner.py:1583-1585 | a template in a repository is never blocked, whatever it lists |
| Unbuilt.StopsAtFirst | cports/src/runner.py:1587-1596 | the search ends if it ends at the first dependency that is not safe |
| Unbuilt.UnblockedEnds | cports/src/runner.py:1577-1600 | for a template that is not blocked the search ends exactly if there is no cycle behind it |
| Unbuilt.TroubleGoesOn | cports/src/runner.py:1587-1596 | with a cycle and nothing broken in the way the search goes ever deeper |
| Unbuilt.SearchFits | cports/src/runner.py:1577-1600 | where the search ends, it is no deeper than the number of templates |
| Unbuilt.AcyclicEnds | cports/src/runner.py:1577-1600 | on acyclic dependencies the search ends |
| Unbuilt.ListedFirst | cports/src/runner.py:1587-1596 | a blocked template with a cycle behind it, for which the search ends in one order of its dependencies only |
| Unbuilt.FindCandidates | cports/src/runner.py:1517-1554 | exactly the templates whose version is not that in the repository, or that are in none unless those are to be left out, in order; no result exactly if an attribute is missing |
| Unbuilt.LoadAll | cports/src/runner.py:1602-1606 | leaves out exactly what is marked broken |
| Unbuilt.CheckAll | cports/src/runner.py:1614-1619 | leaves out exactly what a broken dependency blocks, with the versions of what remains; there is a result exactly if every search ends |
| Unbuilt.GetUnbuilt | cports/src/runner.py:1514-1621 | the order-preserving selection of out-of-date templates from which no chain of loadable, unbroken templates outside the repositories leads to a broken one, with their versions; there is a result exactly if no attribute is missing and the search ends for every candidate not broken itself |
| Unbuilt.ListExactly | cports/src/runner.py:1514-1621 | both filters together, on the fields of the templates |
| Unbuilt.SelectedNotBroken | cports/src/runner.py:1602-1619 | two filters in a row select what one does |
| Unbuilt.AcyclicFits | cports/src/runner.py:1577-1600 | on acyclic dependencies the recursion is no deeper than the number of templates |
| Unbuilt.NeedsItself | cports/src/runner.py:1577-1600 | a template that needs itself is a buildable candidate for which the search does not end |
| ModuleOrder.ModuleName | scripts/resolve-modules.py:10-18 | the last path component without one compression suffix and `.ko`, dashes as underscores |
| ModuleOrder.NameExactly | scripts/resolve-modules.py:10-18 | what is left of the last component after cutting one compression suffix and then `.ko`, dashes as underscores |
| ModuleOrder.LastComponent | scripts/resolve-modules.py:11 | slashes and single dots at the end do not count |
| ModuleOrder.RequestExactly | scripts/resolve-modules.py:62 | a request is looked up without `.ko`, dashes as underscores |
| ModuleOrder.RequestsAlike | scripts/resolve-modules.py:62-63 | with or without `.ko`, with dashes or underscores, a request is looked up alike |
| ModuleOrder.FoundUnderOwnName | scripts/resolve-modules.py:10-18 | a module file is looked up under its own name, whatever its directory and compression |
| ModuleOrder.FoundWithoutSuffix | scripts/resolve-modules.py:10-18 | a module file is looked up under its name without `.ko`, too |
| ModuleOrder.ReadTables | scripts/resolve-modules.py:31-39 | the tables of the lines with a colon, the last one counting |
| ModuleOrder.StripExactly | scripts/resolve-modules.py:37 | stripping removes the blanks at both ends and nothing else |
| ModuleOrder.DependenciesRead | scripts/resolve-modules.py:33-38 | the last line for a path gives its dependencies, word by word |
| ModuleOrder.NameRead | scripts/resolve-modules.py:33-39 | the last line for a name gives its path |
| ModuleOrder.NamesAreListed | scripts/resolve-modules.py:38-39 | names lead to listed paths of that name, and every listed path has a name |
| ModuleOrder.ReadBuiltins | scripts/resolve-modules.py:41-46 | the names of built-in modules |
| ModuleOrder.Resolver.Visit | scripts/resolve-modules.py:51-59 | appends exactly what the path leads to, each after its dependencies unless they depend on it; fails exactly at a path without entry |
| ModuleOrder.EmitKeepsOrder | scripts/resolve-modules.py:57-59 | appending a path after its dependencies keeps the order |
| ModuleOrder.Resolver.Request | scripts/resolve-modules.py:61-67 | one request only appends |
| ModuleOrder.ServeAll | scripts/resolve-modules.py:61-67 | all requests known and everything they lead to visited, or a request or a reached path that is not known |
| ModuleOrder.ListModules | scripts/resolve-modules.py:48-69 | success exactly if all requests are known and all reached paths listed; then no duplicates, exactly the closure, dependencies first |
| ModuleOrder.ResolveModules | scripts/resolve-modules.py:31-69 | the same from the text of the module files |
| ModuleOrder.ModuleIsListed | scripts/resolve-modules.py:33-69 | a module file with a line is in the output for every way to ask for its module |
| ModuleOrder.SingleModule | scripts/resolve-modules.py:31-69 | a single module without dependencies is listed, however it is asked for |
| ModuleOrder.BuiltinIsKnown | scripts/resolve-modules.py:42-46 | a built-in module may be asked for in every way |
| ModuleOrder.BuiltinIsAccepted | scripts/resolve-modules.py:63-67 | a request without a path is accepted exactly if the module is built in, and adds nothing |
| ModuleOrder.PrefixesAreClosed | scripts/resolve-modules.py:51-59 | on acyclic tables every prefix of the output is closed under dependencies |
| ModuleOrder.LeastClosed | scripts/resolve-modules.py:51-69 | the output is the least dependency-closed set with the requested paths |
| ModuleOrder.RequestOrder | scripts/resolve-modules.py:61-67 | neither the order of the requests nor repeating them changes success or the set of paths |
| Upgrade.RewriteLine | cports/src/runner.py:2327-2335 | the pairs applied to one line, and the new checksums used up |
| Upgrade.RewriteTemplate | cports/src/runner.py:2310-2337 | the rewritten file: pkgrel lines read `pkgrel = 0`, lines before the first sha256 line are untouched, and elsewhere nothing but checksums changes |
| Upgrade.FileFrame | cports/src/runner.py:2314-2337 | no line is added or removed; only pkgrel lines and outdated checksums change |
| Upgrade.SampleTemplate | cports/src/runner.py:2314-2337 | a small template before and after |
| Upgrade.FileAsColumn | cports/src/runner.py:2314-2337 | with at most one checksum per line, the file is rewritten as a column of checksums |
| Upgrade.ColumnExactly | cports/src/runner.py:2327-2335 | the column is right exactly if nothing clashes, old checksums repeating or not |
| Upgrade.RewritingIsRight | cports/src/runner.py:2310-2337 | the rewritten template lists the new checksums exactly if there are as many and nothing clashes |
| Upgrade.FreshChecksumsDoNotClash | cports/src/runner.py:2328-2335 | distinct new checksums none of which is outdated are written correctly |
| Upgrade.SwappedChecksumsClash | cports/src/runner.py:2328-2335 | swapped checksums are left as they were |
| Prune.SourceCache.PruneHashes | cports/src/runner.py:1255-1270 | keeps exactly the regular files named by a listed checksum, and collects their inodes |
| Prune.SourceCache.PruneChildren | cports/src/runner.py:1288-1291 | keeps exactly the entries with a collected inode |
| Prune.SourceCache.PruneEntry | cports/src/runner.py:1274-1293 | one top-level entry by the rules, reserved names excepted |
| Prune.SourceCache.PruneTop | cports/src/runner.py:1272-1293 | all top-level entries by the rules |
| Prune.SourceCache.PruneSources | cports/src/runner.py:1253-1293 | what is left and reported, with and without dry run |
| Prune.SurvivorsAreTracked | cports/src/runner.py:1287-1291 | every surviving source file shares its inode with a surviving hard link of a listed checksum |
| Prune.SurvivingHashes | cports/src/runner.py:1259-1270 | a hard link survives exactly if it is a regular file, no link, and its first 64 characters are a listed checksum in any case |
| Prune.SurvivingSources | cports/src/runner.py:1272-1293 | what survives of the sources: the reserved entries as they are, real directories of known versions, and in them the files with the inode of a surviving link |
| Prune.LinkKeepsSources | cports/src/runner.py:1259-1293 | a link named by a listed checksum and any rest keeps itself and the files that share its inode |
| Prune.LowerExactly | cports/src/runner.py:1260 | ASCII upper-case letters become lower-case ones, other characters stay |
| Prune.ReportedAs | cports/src/runner.py:1267-1290 | what is reported, and as what |
| Prune.PruningIsIdempotent | cports/src/runner.py:1253-1293 | a second run deletes nothing |
| Prune.ReportIsExact | cports/src/runner.py:1248-1293 | a report names exactly what a real run removes |

## Left out

- Template parsing, chroots, builds, staging and repository queries: they answer through parameters of the model.
- Exceptions raised by `get_build_deps` itself, or by reading base-cbuild other than ending the run: the list of build dependencies of a readable template is a value.
- In the cycle check and the printed graph, exceptions other than `PackageException`, which end the command; the memo of read templates, as reading is a function here.
- The text of the cycle error and of log messages; the printed graph has full template names instead of bare package names.
- Unstaging after a successful build, and the printing of the bulk list.
- `BulkTheorems.BulkPkg` in raw mode: no bound on the lines of one template, as names may repeat in the given list; lines and list themselves are exact.
- Python's recursion limit is a parameter of `Unbuilt.Search.CheckTmpls`, counted in nested calls of that function only; elsewhere recursion is unbounded.
- How `repovers` is filled from package indexes, and how templates are found in directories.
- Character-level search for checksums in template lines: a line is a sequence of quoted checksums and other text, and whether it is a `pkgrel` or `sha256` line is part of the input.
- The regular expression that collects checksums for pruning; inode numbers reused by the file system during a run.
- Lower-casing of file names beyond ASCII letters, which cannot produce a checksum.
- `Path(...).name` beyond dropping empty and single-dot components.
- Interactive completion, options, `git` calls, commit messages, subpackage links, removal of packages: no algorithm of this kind.
