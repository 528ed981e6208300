# Verified models of PHP's path resolver, resource manager and friends

This project models seven algorithms of the PHP 5.4 sources in Dafny and proves what they
promise. Code that works step by step on a buffer, a table or a counter is a method on arrays and
classes here too, and is proved against a definition that does not share its steps.

| file | what it models |
|---|---|
| `PathSpec.dfy` | what path resolution means: the recursion from the right end (`Resolve`, `Body`) and, independently, the walk over a component stack from the left (`Normal`) |
| `PathOutcome.dfy` | when resolution succeeds: which prefixes of a path the file system is asked about, and which answers end it |
| `RealpathCache.dfy` | the realpath cache: 1024 chains, purge on lookup, a byte budget; against a plain newest-first list |
| `PathResolver.dfy` | `tsrm_realpath_r` on its one buffer, with cache, application roots and symbolic links |
| `VirtualCwd.dfy` | `virtual_file_ex` and `virtual_chdir` as a state machine |
| `ShellQuote.dfy` | the command line of `virtual_popen`, read back by the quoting rules of POSIX.1-2017, XCU sections 2.2.1 and 2.2.2 |
| `Tsrm.dfy` | the thread-safe resource manager |
| `ModuleOrder.dfy` | the dependency sort, ordered module startup and the handler lists |
| `ArgParser.dfy` | `zend_parse_va_args` |
| `LineDiff.dfy` | the line diff of the test runner |
| `FlatPrinter.dfy` | the flat value printer with its recursion counters |
| `HeapSort.dfy` | the in-place heap sort of the benchmark |
| `Wrappers.dfy` | the `Option` type they share |

`dafny verify dfyconfig.toml` checks everything.

## How the models read the sources

**Paths.** The Unix build is modelled. There `php_sys_lstat` is `stat`
(php-src/TSRM/tsrm_virtual_cwd.h:144), so a file system without links is the real case; `LinkFree`
says that of the oracle `Env.lstat`, which is fixed while paths are resolved. Three views of a path
meet: the methods of `PathResolver.Resolver` deliver `Resolve`; `PathSpec.Lexical` shows that
`Resolve` is `Normal` or failure, `PathOutcome.SucceedsExactly` which of the two; `VirtualCwd` builds
`virtual_file_ex` on top, and `FileExExact` and `ChdirExact` say what its calls answer without any of
the steps. A cache bucket
promises the answer that FILEPATH resolution would give without any cache (`Sound`). `Resolver.Valid`
demands that of every bucket, and since `RealpathR` keeps `Valid` and delivers `Resolve`, whatever
the cache holds, cache transparency follows for runs of any length (`ServeAll`, `ChdirAll`).
That holds for any clock; only the list view of lookups and deletions asks for a clock that does
not run backwards.

**The condition on application roots.** For any roots whatever, `EarlyExitExact` says when the early
exit changes no expansion of a path without empty components and trailing slash: if and only if no
such prefix of a root ends in a component that starts with `.` (`DotFree`). For roots that have no
empty component and no trailing slash themselves this says that none of their components starts with
`.` (`DotFreeTidy`). A root that breaks the condition shows on its prefix that ends behind the `.`,
which a maintainer can compute (`EarlyExitShows`).

**Resources.** A block is named by its entry and its slot. `life` records everything that ever
happened to it, and no operation rewrites it: `old(life(b)) <= life(b)`. Each operation says of
every block what it adds, and to no other block does it add anything. "Constructed once, destroyed
once right before it is freed once" is the equation `life(b) == Gone(t)` for the block's own type.
`Valid` says of every linked entry: it is in the chain of its thread, one entry for each thread, one
slot for each id, NULL exactly where the type is done; and the thread's own pointer is what the chain
search finds.

**Modules.** `zend_sort_modules` stops because each `try_again` lengthens a dependency path, which in
an acyclic relation never returns to a module. `OrderedIsAcyclic` is the other half: the sort could
only ever stop in an order that a cyclic relation does not have. A module's mention of itself and the
dependencies of a started module do not count, as in the code. `zend_hash_apply` reads the FAILURE
(-1) of a startup function as remove and stop.

**Diff.** `$old1[$idx1] = ... $w[$idx1++]` stores under the incremented index on both sides alike;
the merge only compares these keys with each other, so the model keeps the plain index. Halving the
step budget can leave half a step, hence `real`. Lines are compared by an arbitrary predicate, which
covers both modes.

**Arguments.** Whether an argument converts to a specifier with its modifiers is an oracle. A
strictness notice counts as success, as in the code.

## Model

| member | source | states |
|---|---|---|
| PathSpec.Lexical | php-src/TSRM/tsrm_virtual_cwd.c:795-1164 | in every mode and on every file system without links, the recursion from the right fails or gives the component-stack normal form (`..` at the root absorbed, leading `..` of a relative path kept), and expanding never fails |
| PathSpec.ResolveShape | php-src/TSRM/tsrm_virtual_cwd.c:1134-1164 | a result is never longer than its path, so the length check of the put-back never fires, and an absolute path stays absolute |
| PathSpec.NormalIdempotent | php-src/TSRM/tsrm_virtual_cwd.c:795-854 | a normal form is its own normal form |
| PathOutcome.SucceedsExactly | php-src/TSRM/tsrm_virtual_cwd.c:783-1164 | in any mode and with any application roots, resolution succeeds exactly when no name before the last, nor the last where a directory is needed, is a file, and under realpath the last name exists; names that a root cuts off are not asked about |
| PathOutcome.SucceedsWithoutRoots | php-src/TSRM/tsrm_virtual_cwd.c:1079-1138 | the same without roots: FILEPATH accepts a missing file, REALPATH does not, both refuse a file where a directory is needed |
| PathOutcome.OnlyWithheld | php-src/TSRM/tsrm_virtual_cwd.c:1079-1138 | what the file system says only decides whether the expansion of the path is given out |
| PathOutcome.ResolvesExactly | php-src/TSRM/tsrm_virtual_cwd.c:764-1177 | condition and value together, without roots and for relative paths |
| PathSpec.WalkRender | php-src/TSRM/tsrm_virtual_cwd.c:795-854 | a component stack is read back from its rendering |
| PathSpec.DropLastRender | php-src/TSRM/tsrm_virtual_cwd.c:823-851 | what `..` does to a resolved directory is a pop of the stack, or one more `..` |
| PathSpec.AppendRender | php-src/TSRM/tsrm_virtual_cwd.c:1139-1164 | putting a name behind its resolved parent is a push |
| PathResolver.BodyOfStripped | php-src/TSRM/tsrm_virtual_cwd.c:795-813 | dropping empty and `.` components off the end keeps the answer, once a directory is demanded |
| PathResolver.ModeIrrelevant | php-src/TSRM/tsrm_virtual_cwd.c:1079-1138 | for a file that exists the mode does not matter and the directory demand only withholds the answer; this is why one bucket serves both modes |
| PathResolver.RelativeShape | php-src/TSRM/tsrm_virtual_cwd.c:823-851 | a relative result is empty or ends in a proper component |
| PathResolver.DotsShow | php-src/TSRM/tsrm_virtual_cwd.c:831-845 | looking at the three characters behind the cut recognises exactly a last component `..` |
| PathResolver.PopInPlace | php-src/TSRM/tsrm_virtual_cwd.c:823-851 | `..` in the buffer: cuts the last component, or adds another `..` |
| PathResolver.Resolver.StripDots | php-src/TSRM/tsrm_virtual_cwd.c:795-813 | the strip loop leaves exactly the path without trailing empty and `.` components |
| PathResolver.Resolver.MatchesRoot | php-src/TSRM/tsrm_virtual_cwd.c:783-794 | finds whether the path is a prefix of some application root |
| PathResolver.Resolver.RealpathR | php-src/TSRM/tsrm_virtual_cwd.c:764-1177 | delivers `Resolve` in the buffer whatever the cache holds (what that is, `Lexical` and `SucceedsExactly` say), keeps every bucket sound; with links it ends, by (links left, length), within the buffer, and a successful call followed at most 32 |
| PathResolver.Resolver.UpDirectory | php-src/TSRM/tsrm_virtual_cwd.c:814-854 | the `..` case |
| PathResolver.Resolver.ResolveName | php-src/TSRM/tsrm_virtual_cwd.c:856-877 | a hit answers what resolution would, including the refusal of a file where a directory is needed |
| PathResolver.Resolver.ResolveUncached | php-src/TSRM/tsrm_virtual_cwd.c:1079-1171 | the miss path: resolves, and remembers only answers that keep the promise of a bucket |
| PathResolver.Resolver.ResolveOnDisk | php-src/TSRM/tsrm_virtual_cwd.c:1079-1132 | what a missing file, a file and a directory mean in each mode |
| PathResolver.Resolver.ResolveParent | php-src/TSRM/tsrm_virtual_cwd.c:1134-1164 | the parent's answer with the name behind it |
| PathResolver.Resolver.PutBack | php-src/TSRM/tsrm_virtual_cwd.c:1139-1164 | the name goes behind the parent, or the call fails exactly when that would not fit |
| PathResolver.Resolver.FollowLink | php-src/TSRM/tsrm_virtual_cwd.c:1088-1120 | one link off the budget, resolution starts over on the spliced path |
| PathResolver.Resolver.Splice | php-src/TSRM/tsrm_virtual_cwd.c:1105-1111 | the buffer holds directory, slash, target |
| RealpathCache.ChainAnswersList | php-src/TSRM/tsrm_virtual_cwd.c:692-724 | the first live match of the path's chain is the first live match of the whole list of additions |
| RealpathCache.FirstLiveMeans | php-src/TSRM/tsrm_virtual_cwd.c:703-722 | that is the newest entry of the path that expires at or after the time of the lookup, or any where the ttl is 0 |
| RealpathCache.HoldsPurge | php-src/TSRM/tsrm_virtual_cwd.c:704-714 | freeing an expired bucket keeps the chain a view of the list |
| RealpathCache.HoldsDelete | php-src/TSRM/tsrm_virtual_cwd.c:610-640 | deleting the first bucket of a path from its chain is deleting its first entry from the list, while time runs forwards |
| RealpathCache.HoldsMatched | php-src/TSRM/tsrm_virtual_cwd.c:610-640 | for any clock, a bucket can leave its chain together with the list entry it stands for |
| RealpathCache.Cache.Placed | php-src/TSRM/tsrm_virtual_cwd.c:683-687 | a bucket sits in chain key mod 1024 |
| RealpathCache.Cache.Find | php-src/TSRM/tsrm_virtual_cwd.c:692-724 | answers like the list, whatever was purged; keeps the byte count exact |
| RealpathCache.Cache.Search | php-src/TSRM/tsrm_virtual_cwd.c:692-724 | the walk returns the chain's first live match and frees what expired before it |
| RealpathCache.Cache.Add | php-src/TSRM/tsrm_virtual_cwd.c:642-690 | a new first entry when it fits the budget, no change otherwise; the size stays the sum of the buckets and within the limit |
| RealpathCache.Cache.Unlink | php-src/TSRM/tsrm_virtual_cwd.c:617-633 | one bucket leaves, its bytes leave the count, other chains stay |
| RealpathCache.Cache.Del | php-src/TSRM/tsrm_virtual_cwd.c:610-640 | the first bucket of the path leaves its chain, other chains stay, the bytes stay exact; unless the clock ran backwards that strikes the first entry of the path off the list |
| RealpathCache.Cache.Clean | php-src/TSRM/tsrm_virtual_cwd.c:593-608 | nothing is left, the size is 0 |
| VirtualCwd.FileExExact | php-src/TSRM/tsrm_virtual_cwd.c:1181-1387 | without roots, for every working directory, path and mode: refused for its length, in numbers, or withheld by the file system, or the normal form of the joined path with its trailing slash |
| VirtualCwd.ExpandIsNormal | php-src/TSRM/tsrm_virtual_cwd.c:1212-1338 | expanding is normalising what stands behind the working directory, plus a trailing slash |
| VirtualCwd.Composes | php-src/TSRM/tsrm_virtual_cwd.c:1212-1338 | resolving p and then q against the result is resolving p/q, trailing slash included |
| VirtualCwd.EarlyExitExact | php-src/TSRM/tsrm_virtual_cwd.c:783-794 | for any roots: the early exit changes no expansion of a tidy path if and only if no tidy prefix of a root ends in a component that starts with `.` |
| VirtualCwd.DotFreeTidy | php-src/TSRM/tsrm_virtual_cwd.c:783-794 | for a root without empty components and trailing slash the condition is that no component starts with `.` |
| VirtualCwd.EarlyExitInvisible | php-src/TSRM/tsrm_virtual_cwd.c:783-794 | one half: under the condition a tidy path expands alike with and without roots, at every level of the recursion |
| VirtualCwd.EarlyExitShows | php-src/TSRM/tsrm_virtual_cwd.c:783-794 | the other half: every root that breaks the condition has a prefix that stays as it is with the root and changes without |
| VirtualCwd.ResolvesUnderRoots | php-src/TSRM/tsrm_virtual_cwd.c:783-1164 | under such roots, in every mode, a tidy path gives its normal form exactly when the names behind the root pass |
| VirtualCwd.PlainResolves | php-src/TSRM/tsrm_virtual_cwd.c:795-1164 | a tidy path without dot components resolves to itself |
| VirtualCwd.ChdirKeeps | php-src/TSRM/tsrm_virtual_cwd.c:1389-1393 | a call keeps the working directory absolute, in normal form and short; success means the normal form of the joined path, which is a directory; failure means no change |
| VirtualCwd.ChdirExact | php-src/TSRM/tsrm_virtual_cwd.c:1389-1393 | exactly when a call succeeds: length, realpath resolution of the joined path, and its normal form is a directory; and what the directory then is |
| VirtualCwd.ChdirWalks | php-src/TSRM/tsrm_virtual_cwd.c:1212-1257 | for a relative path that is the walk over its components from the old directory |
| VirtualCwd.ChdirRunKeeps | php-src/TSRM/tsrm_virtual_cwd.c:1389-1393 | the same over every run of calls |
| VirtualCwd.FailuresLeaveNoTrace | php-src/TSRM/tsrm_virtual_cwd.c:1373-1380 | a corollary of `VirtualChdir`, whose failing calls leave the state unchanged: a run ends where its successful calls alone end |
| VirtualCwd.FillBuffer | php-src/TSRM/tsrm_virtual_cwd.c:1192-1269 | the buffer holds the joined path, or the call is refused exactly for an empty or too long one |
| VirtualCwd.FinishBuffer | php-src/TSRM/tsrm_virtual_cwd.c:1320-1338 | `.` for an empty relative result, the trailing slash, and its length check |
| VirtualCwd.Commit | php-src/TSRM/tsrm_virtual_cwd.c:1343-1380 | the caller's check sends the state back as it was, length included |
| VirtualCwd.VirtualFileEx | php-src/TSRM/tsrm_virtual_cwd.c:1181-1387 | the outcome is the uncached specification's, failure leaves the state alone |
| VirtualCwd.Globals.VirtualChdir | php-src/TSRM/tsrm_virtual_cwd.c:1389-1393 | the call with its cache succeeds exactly when `ChdirSucceeds` says so and does what `Chdir` says without a cache |
| VirtualCwd.Globals.ChdirAll | php-src/TSRM/tsrm_virtual_cwd.c:1389-1393 | so does every run, for every clock |
| VirtualCwd.ServeAll | php-src/TSRM/tsrm_virtual_cwd.c:856-877 | cache transparency: after any requests, in any modes, at any times, an absolute path gets the answer it gets without a cache, which without roots is `Answer` |
| ShellQuote.QuotedReadsBack | php-src/TSRM/tsrm_virtual_cwd.c:1925-1939 | the escaped directory inside its quotes reads as the directory |
| ShellQuote.QuotingRoundTrip | php-src/TSRM/tsrm_virtual_cwd.c:1919-1946 | the word after `cd ` is the directory, the rest is ` ; ` and the command |
| ShellQuote.LineFits | php-src/TSRM/tsrm_virtual_cwd.c:1915 | the computed size is enough, terminating zero included |
| ShellQuote.CountExtra | php-src/TSRM/tsrm_virtual_cwd.c:1903-1911 | three bytes for each quote |
| ShellQuote.BuildCommandLine | php-src/TSRM/tsrm_virtual_cwd.c:1895-1946 | writes exactly that line, inside the allocated bytes |
| Tsrm.FindInWithout | php-src/TSRM/TSRM.c:442-480 | unlinking one thread's entry hides that thread from the chain search and no other |
| Tsrm.OnceEach | php-src/TSRM/TSRM.c:178-189 | a whole life: allocated once and first, constructed once if at all, destroyed once if at all and right before the end, freed once and last |
| Tsrm.Manager.constructor | php-src/TSRM/TSRM.c:120-161 | an empty table is valid |
| Tsrm.Manager.AllocateId | php-src/TSRM/TSRM.c:215-267 | keeps the invariant: every entry gets one block of the new type, allocated and constructed once, and nothing else happens to any block |
| Tsrm.Manager.Grow | php-src/TSRM/TSRM.c:248-259 | one entry grows to all ids, each new block allocated and constructed once |
| Tsrm.Manager.NewEntry | php-src/TSRM/TSRM.c:270-304 | a block, allocated and constructed once, for every type that is not done, NULL for the others |
| Tsrm.Manager.Fetch | php-src/TSRM/TSRM.c:308-379 | through the thread's own pointer or through the table, the answer is the slot of the entry the chain search finds; a new entry is linked and its blocks made exactly when there was none |
| Tsrm.Manager.FreeThread | php-src/TSRM/TSRM.c:442-480 | exactly the calling thread's entry goes; each of its blocks has then been destroyed and freed as its type demands, and nothing happens to any other block |
| Tsrm.Manager.FreeId | php-src/TSRM/TSRM.c:530-560 | the type is done and its slot is NULL in every entry; exactly the blocks of that type that were in use are destroyed and freed, so nothing happens when the id is freed twice |
| Tsrm.Manager.Shutdown | php-src/TSRM/TSRM.c:165-211 | every block that was ever made has been destroyed right before it was freed, once, as its own type demands, and no history is lost or invented |
| Tsrm.Manager.Conservation | php-src/TSRM/TSRM.c:165-196 | at any time a block was never made, is in use, or is gone; and it is in use exactly while a linked entry holds it |
| Tsrm.Manager.Run | php-src/TSRM/TSRM.c:165-560 | all of this over every run of operations by any threads: histories only grow, types and threads are what the operations say, and after a final shutdown the life of every block ends as its own type demands |
| ModuleOrder.OrderedIsAcyclic | php-src/Zend/zend_API.c:1708-1740 | an order exists only without cycles |
| ModuleOrder.PathBounded | php-src/Zend/zend_API.c:1708-1740 | in an acyclic relation a chain of swaps into one slot is no longer than the array |
| ModuleOrder.FindDependency | php-src/Zend/zend_API.c:1718-1737 | finds a later module that the current one depends on, or there is none |
| ModuleOrder.SortModules | php-src/Zend/zend_API.c:1708-1740 | ends, permutes, and puts every module behind its dependencies |
| ModuleOrder.OrderedMeans | php-src/Zend/zend_API.c:1719-1734 | no unstarted module names a later one as required or optional |
| ModuleOrder.StartupExact | php-src/Zend/zend_API.c:1651-1705 | startup of an ordered registry, whatever is missing or fails: everything before the first module that requires an unregistered name or whose startup function fails has started, that module is gone, nothing behind it was touched; without such a module everything has started |
| ModuleOrder.StartOneCases | php-src/Zend/zend_API.c:1651-1705 | the three ends of starting one module: nothing to do, refused and unchanged for a requirement that no started module meets, or started |
| ModuleOrder.OrderedStartup | php-src/Zend/zend_API.c:1651-1705 | with all required modules registered and startup functions that succeed, no module of an ordered registry is rejected |
| ModuleOrder.RegisteredAnyOrder | php-src/Zend/zend_API.c:1821-1826 | sorting unregisters nothing |
| ModuleOrder.Registry.Sort | php-src/Zend/zend_hash.c:1421-1470 | the registry after the sort |
| ModuleOrder.Registry.StartupModule | php-src/Zend/zend_API.c:1651-1705 | already started, requirement not started, or started: result and registry in each case, in terms of the registry before |
| ModuleOrder.Registry.StartupModules | php-src/Zend/zend_API.c:1821-1826 | the whole startup, whatever is missing or fails (`StartupOutcome`); with everything registered and willing, all modules are started in dependency order |
| ModuleOrder.Registry.CountHandlers | php-src/Zend/zend_API.c:1743-1762 | how many modules have each handler |
| ModuleOrder.HandlersOf | php-src/Zend/zend_API.c:1754-1791 | which modules are in which list of handlers: exactly those that have the handler, in registry order |
| ModuleOrder.Registry.CollectHandlers | php-src/Zend/zend_API.c:1743-1791 | startup handlers in registry order, shutdown and deactivation handlers in exact reverse, each list ended by NULL |
| ArgParser.CountSpec | php-src/Zend/zend_API.c:715-781 | the first pass computes minimum, maximum and the specifiers behind the marker |
| ArgParser.CountLayout | php-src/Zend/zend_API.c:715-781 | for specifiers with or without `\|` and with or without a marker: what the first pass finds |
| ArgParser.RefusedExactly | php-src/Zend/zend_API.c:715-771 | the first pass refuses a specification exactly for an unknown character or a second marker |
| ArgParser.ParseVaArgs | php-src/Zend/zend_API.c:701-857 | the loops compute `ParseSpec`, which the next four rows describe |
| ArgParser.RefusedNumbers | php-src/Zend/zend_API.c:783-804 | with or without a marker, the call fails for fewer arguments than the specification demands, for more than it takes, and for more than there are |
| ArgParser.DistributionFew | php-src/Zend/zend_API.c:807-856 | with no more arguments than specifiers before the marker, or without a marker, the call succeeds exactly when all convert, each argument goes in order to its specifier, and nothing else is stored |
| ArgParser.Distribution | php-src/Zend/zend_API.c:807-856 | with more, the first go to the specifiers before the marker, the last to those behind it, as many as are left over, and the surplus, in order, to varargs; the call fails exactly when one that goes to a specifier does not convert |
| ArgParser.StoresAt | php-src/Zend/zend_API.c:670-698 | which argument reaches which destination pointer |
| ArgParser.AllConvertAt | php-src/Zend/zend_API.c:843-853 | what "all convert" means in `Distribution`: the k-th argument from i on converts by the k-th specifier |
| ArgParser.DistributePieces | php-src/Zend/zend_API.c:807-854 | specifiers take arguments one by one, in order, and the first that does not convert ends the call |
| ArgParser.DistributeTrailing | php-src/Zend/zend_API.c:813-853 | the marker takes the surplus in order, or none, and the specifiers behind it the last arguments |
| ArgParser.CopyItems | php-src/Zend/zend_API.c:822-835 | the varargs array holds the surplus in order |
| LineDiff.MatchingWithinLcs | php-src/run-tests.php:2118-2158 | no matching is longer than the longest common subsequence |
| LineDiff.LcsReached | php-src/run-tests.php:2118-2158 | and one is as long |
| LineDiff.LooksAhead | php-src/run-tests.php:2128-2154 | the look-ahead finds every run that starts within its budget behind the run at hand: one step for a skipped line of the second list, two for one of the first |
| LineDiff.CountArrayDiff | php-src/run-tests.php:2118-2158 | ends for every budget; its count is that of the best way on within the budget (from below, `LooksAhead`), is the length of a real matching, and is at most the longest common subsequence |
| LineDiff.SkipFirst | php-src/run-tests.php:2129-2138 | the best count after skipping lines of the first list |
| LineDiff.SkipSecond | php-src/run-tests.php:2140-2148 | the same for the second list |
| LineDiff.SkipsAfterRun | php-src/run-tests.php:2168-2173 | lines that match from the start are passed over |
| LineDiff.Collect | php-src/run-tests.php:2168-2190 | what survives on both sides matches pairwise; which lines are skipped; none of the common start |
| LineDiff.Merge | php-src/run-tests.php:2192-2214 | every recorded entry once, each side in its order, neighbouring lines together, and otherwise the smaller position first |
| LineDiff.InsertedDiff | php-src/run-tests.php:2160-2225 | resynchronisation: the diff of one inserted block of foreign lines is exactly its lines, if and only if the block stands at the end or has at most 10 lines |
| LineDiff.DeletedDiff | php-src/run-tests.php:2160-2225 | the same for a deleted block, which may have at most 6 |
| LineDiff.SwappedDiff | php-src/run-tests.php:2160-2225 | two swapped lines give the tie that is decided for the output: the second one as extra, then as missing in its place |
| LineDiff.GenerateArrayDiff | php-src/run-tests.php:2160-2225 | the diff is a patch: without its `-` and `+` lines the lists have equal length and match line by line; it is the merge of exactly the skipped lines, followed by exactly the lines of one list that the main loop left over, and reports nothing of the common start; it resynchronises as the three rows above say |
| LineDiff.WeaveRebuilds | php-src/run-tests.php:2160-2225 | surviving lines and `+` lines interleave to the output |
| LineDiff.PatchRebuilds | php-src/run-tests.php:2109-2116 | in literal mode the output is rebuilt from the wanted lines and the diff |
| FlatPrinter.Printer.PrintFlat | php-src/Zend/zend.c:343-394 | restores every counter and writes what the printer that carries the path writes |
| FlatPrinter.Printer.PrintTable | php-src/Zend/zend.c:348-385 | the guard: a table on the path is cut short, any other is printed, the counter comes back |
| FlatPrinter.Printer.PrintFlatHash | php-src/Zend/zend.c:199-226 | all elements in order with their labels |
| FlatPrinter.Printer.Print | php-src/Zend/zend.c:343-394 | on any finite graph, cycles included, printing ends with all counters at 0 |
| FlatPrinter.AcyclicPrintsPlain | php-src/Zend/zend.c:343-394 | without a cycle the guard never shows, shared tables included |
| FlatPrinter.ScalarsListed | php-src/Zend/zend.c:199-226 | an array of scalars prints them all, from the first to the last, each behind its key |
| FlatPrinter.DigitsReadBack | php-src/Zend/zend.c:218-220 | a numeric key is printed as the decimal digits that denote it |
| HeapSort.TopIsGreatest | php-src/Zend/bench.php:225-231 | the top of a heap is its greatest element |
| HeapSort.HoleMoves | php-src/Zend/bench.php:235-245 | moving the greater child up keeps the rest a heap |
| HeapSort.TakeTop | php-src/Zend/bench.php:225-232 | moving the top behind the heap extends the sorted part |
| HeapSort.Sift | php-src/Zend/bench.php:233-246 | the inner loop restores the heap around the sinking value |
| HeapSort.HeapsortR | php-src/Zend/bench.php:218-248 | for n >= 2 it ends, slots 1 to n are a sorted permutation of what they held, no other slot changes |
| HeapSort.SortedUnique | php-src/Zend/bench.php:218-248 | what the sort leaves in slots 1 to n is determined by what they held, so no other slot has any influence |
| HeapSort.ReturnsExactly | php-src/Zend/bench.php:219-232 | the outer loop returns if and only if n >= 2 |

## Left out

- PathResolver.Resolver.RealpathR: with links only termination, the budget of 32, the buffer bounds and the shape of the cache are proved, not the answer: a bucket for a dangling link and the budget itself make it depend on history. With links it covers absolute resolution only. For a relative start the source has no defined effect in two cases: the splice of a first component that is a link copies -1 bytes, and a link can make a relative result that ends in `..` so long that the next `..` has no room behind it.
- PathResolver.Resolver.FollowLink: covers the splice under an absolute start, for the same reason.
- PathSpec.Lexical: with application roots it covers relative paths only; absolute paths under roots are `EarlyExitInvisible`.
- Tsrm.Manager.Run: each operation is one atomic step; the unlocked read of a storage array after the mutex is released is not modelled.
- HeapSort.HeapsortR: reals instead of PHP floats; n < 2 is excluded because there the loop does not return (`ReturnsExactly`).
- ArgParser.ParseVaArgs: conversions are an oracle, so by-type coercion, error messages and the freeing of the varargs array after a failure do not appear.
- The Windows and NetWare branches, the I/O wrappers around the path functions, and `popen` itself.
- The cache's hash function (any function does), allocation failure anywhere, a `realpath_cache_size_limit` that is lowered while the cache is filled, and `time()`, which is a parameter read once per call.
- Application roots are taken to be absolute and link targets to fit the buffer; the working directory is absolute or empty.
- The resource manager's `ts_free_worker_threads`, requests for another thread's id, interpreter contexts, new-thread handlers, and destructor calls on the NULL storage of done types.
- Class cleanup handlers, module globals and the conflict check at registration in `zend_API.c`.
- `zend_print_zval_r_ex`: the same counter guard with indentation and temporary debug tables, which do not belong to a finite graph.
- The text form of diff lines (line number and sign), and `preg_match`.
- `zend_unregister_functions`, `zend_is_callable_*`, class constants and property declaration.
