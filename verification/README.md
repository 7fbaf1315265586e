# Verified models of the ns3-IAB tools and example logic

This project models, in Dafny, nine self-contained algorithms of the ns3-IAB repository and proves what
they promise. `dafny verify dfyconfig.toml` checks all of it.

| file | models |
|---|---|
| `ConfigPaths.dfy`, `ConfigRoutes.dfy`, `RepeatedPaths.dfy` | the depth-first search for configuration paths over the cyclic graph of registered types; what it records, said without its edge lists; which graphs make it record something twice (`utils/print-introspected-doxygen.cc`) |
| `WorkerPool.dfy` | the threads, queues, sentinels, interrupt flag and collector of the test driver (`test.py`) |
| `LoadOrder.dfy` | the layered load order of the shared libraries (`bindings/python/ns__init__.py`) |
| `Text.dfy`, `StyleCheck.dfy`, `LineChecks.dfy`, `LineFixes.dfy`, `AllFixes.dfy` | Python string operations; the guard state machine with its in-place fixer; six line checkers, why fixed files comply, what exactly the checkers find and what their fixes keep; whole runs over all six checks (`utils/check-style-clang-format.py`) |
| `SchedulerBench.dfy` | the constant-population event loop and Welford's statistics (`utils/bench-scheduler.cc`) |
| `BytePump.dfy` | the callback-driven sender (`examples/tcp/tcp-large-transfer.cc`) |
| `Fairness.dfy` | the byte counters and Jain's index in 64-bit arithmetic (`examples/tcp/dctcp-example.cc`) |
| `TraceWriters.dfy` | the two coupled trace files of each node (`examples/tcp/tcp-variants-comparison.cc`) |
| `IabDepth.dfy` | the depth of the IAB nodes below the donor (`metrics_common.py`) |
| `Collections.dfy` | shared facts about sequences and sets |

Code that updates state is a class or a method with loops, proved against functions and predicates that
do not mention the algorithm: simple walks in preorder, "in exactly one place", chains and cycles, a file
read again, mean and deviations, a stream of letters, a replayed step function, hops to the donor.

## How the models stand to the code

- A type of the search graph is its registration index, and `IsChildOf` is an arbitrary relation.
  `DoGather` is one method per loop plus `Descend` for the push, search, pop sequence that the code
  writes out three times.
- Names of types and attributes are clean if the types, and the attributes of each type, have different
  names, without slashes, and no attribute is called `[i]` or starts with a dollar sign. Only the results
  about repeated records ask for it, and only in one direction.
- A test job is a value with a number; the queues and threads of `TestRun` hold such values. That no job
  is ever in two places is proved (`RunsAreSafe`), so sharing one object would make no difference. The
  field `ran` is history and no part of the program.
- A file is its text after Python's newline translation, so no line has a carriage return. The set of characters that `\w` matches is a
  parameter.
- Clocks, random delays, the socket and the trace events are parameters, nondeterministic methods or
  given sequences; floating point is exact `real`.
- Nested loops of `ScanLines`, `Run` and `DependencyOrder` call a method for one turn where that keeps
  the proof short.

## Where code and documentation disagree

- `Uniquefy` is documented to modify its container in place, and `GetNoTypeIds` to return sorted unique
  names, but the container is passed by value (`utils/print-introspected-doxygen.cc:467`). The model
  follows the code: `Gather` leaves the output in search order with its repeated records. They do occur:
  lines 606 and 608 record the same aggregation, and `RepeatedAggregationRepeatsRecords` and
  `NodeAndProtocolRepeat` show what that does. `DistinctRecordsExactly` says for which type graphs the
  records of a root are distinct.
- A run of the style checker in fix mode reports success (`utils/check-style-clang-format.py:505`), but it
  may leave a file that the checker rejects: the tab fix comes after the license fix and can complete a
  line of the license text (`OneRunIsNotEnough`). `OneRunComplies` gives the exact condition, and
  `TwoRunsComply` shows that a second run always repairs it. A tab fix can also make a guard
  (`TabFixCanMakeGuard`), which does no harm.
- The fairness index that is printed is Jain's index if and only if numerator and denominator are
  undistorted by the arithmetic modulo 2^64 (`PrintedExactly`); as long as the square of the sum is below
  2^64 that means that n times the sum of squares is, too (`PrintedExactlyBelow`). One flow of 2^31 bytes
  among 10 makes the program print 0.5 in the place of 0.1, and one of 2^32 bytes a division of zero by
  zero (`WrappedIndex`). That no intermediate value wraps is a stronger condition (`NothingWrapsExactly`).
- `dependency_order` recurses for ever unless the links are closed and acyclic; `LoadsExactlyWhenAcyclic`
  shows that this condition is exact. So do the depth walks on a parent table with a loop that misses the
  donor, and on no other table (`EndsExactlyWithoutLoops`).

## Model

| member | source | states |
|---|---|---|
| ConfigPaths.StaticInformation.DoGather | utils/print-introspected-doxygen.cc:489-572 | the search appends one record per simple walk that avoids the types in progress, in preorder, returns both stacks as it found them, and ends on every graph; both stacks have equal length and no duplicates at every call |
| ConfigPaths.StaticInformation.Descend | utils/print-introspected-doxygen.cc:517-521 | push, search, pop along the k-th edge: the records of the first k edges become those of the first k + 1 |
| ConfigPaths.StaticInformation.HasAlreadyBeenProcessed | utils/print-introspected-doxygen.cc:421-433 | true exactly for the types on the stack |
| ConfigPaths.StaticInformation.GetCurrentPath | utils/print-introspected-doxygen.cc:402-412 | the labels, each after a slash |
| ConfigPaths.StaticInformation.RecordAggregationInfo | utils/print-introspected-doxygen.cc:370-390 | an aggregation of two known types is recorded, else the first unknown name is |
| ConfigPaths.StaticInformation.Get | utils/print-introspected-doxygen.cc:435-448 | the recorded paths of a type in recording order |
| ConfigPaths.StaticInformation.Gather | utils/print-introspected-doxygen.cc:481-487 | one root's records are appended as the search lists them, with repetitions |
| ConfigPaths.StaticInformation.GatherRoots | utils/print-introspected-doxygen.cc:627-631 | the roots' records follow each other |
| ConfigPaths.WalksExact | utils/print-introspected-doxygen.cc:489-572 | soundness and completeness: a walk is listed exactly if it is a walk of the graph that repeats no type and enters no type in progress |
| ConfigPaths.WalksInPreorder | utils/print-introspected-doxygen.cc:489-572 | the listing is in depth-first preorder |
| ConfigPaths.PreorderListingIsUnique | utils/print-introspected-doxygen.cc:489-572 | a set of walks has one preorder listing only |
| ConfigPaths.WalksAreTheListing | utils/print-introspected-doxygen.cc:489-572 | a list of walks is the search's listing if and only if it is in preorder and holds exactly the simple walks |
| ConfigPaths.SimpleWalkIsShort | utils/print-introspected-doxygen.cc:489-572 | the recursion is never deeper than the number of types |
| ConfigPaths.AggregationIsSymmetric | utils/print-introspected-doxygen.cc:551-571 | the search can step from a to b by aggregation exactly if it can step from b to a |
| RepeatedPaths.RepeatedEdgeRepeatsRecords | utils/print-introspected-doxygen.cc:467-487 | two equal edges make the output hold duplicates |
| RepeatedPaths.DistinctRecordsExactly | utils/print-introspected-doxygen.cc:467-572 | with clean names the records of a root are without duplicates if and only if no simple walk leads to a type that is linked twice, as an aggregate or a subclass, with a type off the walk |
| RepeatedPaths.SingleLinksAreEnough | utils/print-introspected-doxygen.cc:551-571 | where no two types are linked twice, no root has repeated records |
| RepeatedPaths.DoubleLinkRepeats | utils/print-introspected-doxygen.cc:551-571 | a double link off the walk repeats records, whatever the names |
| RepeatedPaths.RepeatedAggregationRepeatsRecords | utils/print-introspected-doxygen.cc:606-608 | recording an aggregation of a root twice repeats records |
| RepeatedPaths.NodeAndProtocolRepeat | utils/print-introspected-doxygen.cc:606-608 | a graph of a node and a protocol for which that happens |
| RepeatedPaths.PathTellsLabels | utils/print-introspected-doxygen.cc:402-412 | for clean labels the path determines the labels it was joined from |
| RepeatedPaths.RepeatExactly | utils/print-introspected-doxygen.cc:489-572 | a repeated record is one path to one type, spelled by two simple walks |
| ConfigRoutes.RecordsExactly | utils/print-introspected-doxygen.cc:489-572 | what gathering a root records are the ends and spellings of the routes along typed pointers, object vectors, subclasses and aggregations that visit no type twice, and nothing else |
| ConfigRoutes.EdgesInOrder | utils/print-introspected-doxygen.cc:498-571 | the search follows attributes, subclasses and aggregations in this order and each kind in its own, everything that leads somewhere once |
| ConfigRoutes.EdgesExact | utils/print-introspected-doxygen.cc:498-571 | an edge is followed if and only if an attribute, a subclass or an aggregation gives it |
| ConfigRoutes.VectorIsRecorded | utils/print-introspected-doxygen.cc:526-536 | the items of an object vector of a root are recorded under its name and the index mark |
| ConfigRoutes.PointerIsRecorded | utils/print-introspected-doxygen.cc:498-524 | what a pointer of a root points to is recorded under its name, unless it is a plain Object |
| ConfigRoutes.RelativeIsRecorded | utils/print-introspected-doxygen.cc:538-571 | subclasses and aggregated types of a root are recorded under their names behind a dollar sign |
| ConfigRoutes.PathsInOrder | utils/print-introspected-doxygen.cc:435-448 | the paths of a type are those of its records, each as often as recorded and in that order |
| ConfigPaths.PathsOfTypeExact | utils/print-introspected-doxygen.cc:435-448 | a path is listed for a type exactly if some simple walk from some root spells it and ends there |
| WorkerPool.StepKeeps | test.py:1101-1185 | every step of every thread, and the signal at any time, keeps the invariant |
| WorkerPool.PlacesKept | test.py:1101-1185 | no step loses a job, doubles one or brings in one that was not dispatched |
| WorkerPool.FinishKeepsContents | test.py:1146-1185 | a new return code spoils no other report |
| WorkerPool.QueueKept | test.py:1950-1957 | the input queue stays the undelivered jobs in order and then the sentinels, one for each worker still running |
| WorkerPool.RunsAreSafe | test.py:1101-1185 | in every state of every run a dispatched job is in exactly one place, comes back unaltered but for is_break and the return code, no sentinel reaches the output queue, and without the signal nothing is dropped |
| WorkerPool.NoDeadlock | test.py:1977-1978 | until the main thread is through, some thread can move |
| WorkerPool.MeasureDecreases | test.py:1101-1185 | every step lowers the number of steps to come |
| WorkerPool.RunsEnd | test.py:1101-1185 | no run has more than 6 steps a job, 3 a worker and the signal |
| WorkerPool.StuckRunsAreComplete | test.py:2142-2143 | a run stops moving only with every job collected once, both queues empty and every worker joined |
| WorkerPool.JobsRunOnce | test.py:1132-1165 | a job a worker is running was never run before, is no skipped one, and is in no other hands |
| WorkerPool.InterruptDropsTheRest | test.py:1115-1118 | after the signal a job that no worker had looked the flag up for is never run, and comes back marked as dropped |
| WorkerPool.CollectedHasEnded | test.py:1143-1175 | a collected job that was neither dropped nor skipped carries the return code with which its process ended in exactly one step of the run |
| WorkerPool.CountersExactly | test.py:1977-2010 | the counters are the numbers of jobs whose processes ended with 0, with 1, with 2 and with anything else, and of the jobs skipped and dropped |
| WorkerPool.VerdictExactly | test.py:2252-2255 | passed + skipped is the total exactly if no job was dropped and each was skipped or its process ended with 0 |
| WorkerPool.OutcomesAddUp | test.py:1977-2013 | the six outcomes add up to the jobs collected |
| WorkerPool.VerdictMeaning | test.py:2252-2255 | passed + skipped is the total exactly if every job came back undropped and was skipped or really run with return code 0 |
| WorkerPool.TestRun.SigintHook | test.py:645-648 | a signal at any time sets the flag and nothing else, and a further one changes nothing |
| WorkerPool.TestRun.WorkerGet | test.py:1103-1109 | the worker takes the head of the queue and stops on a sentinel |
| WorkerPool.TestRun.WorkerCheck | test.py:1115-1130 | the flag is looked at before is_skip; an interrupted job is marked and reported |
| WorkerPool.TestRun.WorkerFinish | test.py:1143-1175 | the end of a process with a return code is a step of the run with that code |
| WorkerPool.TestRun.CollectOne | test.py:1977-2013 | the counters count the collected jobs by outcome |
| WorkerPool.TestRun.ExitCode | test.py:2252-2255 | the code is 0 exactly if no job was dropped and each was skipped or its process ended with 0 in a step of the run; the counters are the numbers of jobs by the way they ended, and add up to the total |
| LoadOrder.Loader.ModulesThatCanBeLoaded | bindings/python/ns__init__.py:444-455 | the pending libraries, in order, all of whose links are loaded |
| LoadOrder.Loader.LoadStep | bindings/python/ns__init__.py:462-469 | a step moves exactly the loadable libraries from pending to current, in order |
| LoadOrder.Loader.DependencyOrder | bindings/python/ns__init__.py:457-472 | with closed acyclic links the recursion ends with nothing pending, in the least number of steps |
| LoadOrder.SortToDependencies | bindings/python/ns__init__.py:433-479 | the result holds each library once, after everything it links to, by the length of the longest dependency chain, and where that is the same in the order found |
| LoadOrder.StuckMeansCycle | bindings/python/ns__init__.py:444-472 | a step that loads nothing while libraries are pending implies a cycle or an outside link |
| LoadOrder.LoadsExactlyWhenAcyclic | bindings/python/ns__init__.py:457-472 | some number of steps loads everything if and only if the links are closed and acyclic; then as many steps as libraries are enough |
| LoadOrder.StepOfLibrary | bindings/python/ns__init__.py:457-472 | a library is in step 0 without links, else one step after the latest it links to |
| LoadOrder.StepIsLongestChain | bindings/python/ns__init__.py:457-472 | the step is the length of the longest dependency chain |
| LoadOrder.StepIsEarliest | bindings/python/ns__init__.py:457-472 | no valid layering places a library earlier |
| LoadOrder.FlattenedInLoadOrder | bindings/python/ns__init__.py:474-479 | the steps in a row are distinct and each library follows its links |
| StyleCheck.SourceFile.CheckManually | utils/check-style-clang-format.py:634-697 | the verdict is the same in every mode and says that every line that is looked at passes; fix mode replaces the lines rejected and no others; their numbers are reported in order, in quick mode the least |
| StyleCheck.EnabledExactly | utils/check-style-clang-format.py:665-671 | the check is on before a line exactly if guards are ignored, or the last of the six guard texts before it is an "on" text, or there is none |
| StyleCheck.BadExactly | utils/check-style-clang-format.py:665-684 | a line is rejected exactly if guards are ignored, or the check is on before it, or it is a guard itself, and the line check does not accept it |
| StyleCheck.FixThenCheck | utils/check-style-clang-format.py:656-697 | for a lawful line check the fixed file, read again, complies, and a second fix changes nothing |
| StyleCheck.FixedIsCompliant | utils/check-style-clang-format.py:663-690 | the same line by line, where lines have vanished and new guards may have switched the check off |
| StyleCheck.FixedLine | utils/check-style-clang-format.py:663-690 | a line changes only if it is checked and bad; no mode changes a plain line in a guarded-off region |
| StyleCheck.CompliantMeansNoBadLine | utils/check-style-clang-format.py:663-697 | the verdict is the absence of bad checked lines |
| Text.ReadThenWrite | utils/check-style-clang-format.py:660-695 | writing the lines of a file gives the file |
| Text.WriteThenRead | utils/check-style-clang-format.py:660-695 | reading written lines gives those lines |
| LineChecks.FixedFilesComply | utils/check-style-clang-format.py:753-1024 | for the quotes, doxygen, license, emacs, whitespace and tabs checks, with and without guards, and every file, a fixed file complies and stays as it is |
| LineChecks.IncludeQuotesLawful | utils/check-style-clang-format.py:753-790 | a fixed include has no angle bracket left and stays one line |
| LineChecks.DoxygenLawful | utils/check-style-clang-format.py:793-842 | a fixed tag line complies, stays one line, and is no guard |
| LineChecks.LicenseLawful | utils/check-style-clang-format.py:845-910 | a license line is deleted or complies once its first line is replaced, and is no guard |
| LineChecks.SpdxFix | utils/check-style-clang-format.py:889-900 | after the replacement the text between the comment marks is the SPDX line |
| LineChecks.EmacsLawful | utils/check-style-clang-format.py:913-952 | the deleted lines are no guards |
| LineChecks.WhitespaceLawful | utils/check-style-clang-format.py:955-987 | a stripped line needs no more stripping |
| LineChecks.TabsLawful | utils/check-style-clang-format.py:990-1024 | an expanded line has no tab, stays one line, and a guard stays the guard it was |
| LineChecks.TabFixCanMakeGuard | utils/check-style-clang-format.py:990-1024 | a tab fix can make a guard out of a line that was none |
| LineFixes.QuotesFinds | utils/check-style-clang-format.py:776-779 | a line does not comply exactly if it has the form the regular expression describes |
| LineFixes.QuotesFixKeepsRest | utils/check-style-clang-format.py:780 | character by character, angle brackets become quotes and nothing else changes |
| LineFixes.DoxygenFinds | utils/check-style-clang-format.py:823-830 | a line does not comply exactly if it can be split as the regular expression says and the tag is not an ignored one |
| LineFixes.DoxygenFixKeepsRest | utils/check-style-clang-format.py:833-834 | only backslashes become at signs, the one of the found tag among them, and no occurrence of the tag is left |
| LineFixes.LicenseFinds | utils/check-style-clang-format.py:889-893 | a line does not comply exactly if it shows a line of the license between margins of spaces, comment marks and spaces |
| LineFixes.LicenseFixKeepsMargins | utils/check-style-clang-format.py:896-902 | the first line of the text becomes the SPDX line between the same margins, the other lines are deleted |
| LineFixes.EmacsFinds | utils/check-style-clang-format.py:935-943 | exactly the lines are deleted in which one of the two markers occurs somewhere |
| LineFixes.WhitespaceFinds | utils/check-style-clang-format.py:973-978 | a line complies exactly if it ends in a newline with no space before it |
| LineFixes.WhitespaceFixKeepsText | utils/check-style-clang-format.py:974 | the fix removes spaces at the end and nothing else, and ends the line |
| LineFixes.TabFixKeepsColumns | utils/check-style-clang-format.py:1012-1016 | every character but the tabs is shown in the column in which it was |
| LineFixes.TabFixBringsBlanksOnly | utils/check-style-clang-format.py:1012-1016 | every other column of the fixed line is blank |
| AllFixes.CheckStyle | utils/check-style-clang-format.py:421-438 | a run over the six checks: fix mode applies the six fixes in order, leaves no space at a line end and always reports success; check mode changes nothing and reports whether the lines pass |
| AllFixes.AllComplyExactly | utils/check-style-clang-format.py:340-400 | a file passes all checks exactly if every line, guarded or not, passes the whitespace check and every line that guards do not exclude passes the other five |
| AllFixes.FixedEnds | utils/check-style-clang-format.py:389-395 | after a run in fix mode no line ends in a space before its newline, guarded or not |
| AllFixes.FixAllIs | utils/check-style-clang-format.py:76-86 | the six fixes in their order |
| AllFixes.OneRunComplies | utils/check-style-clang-format.py:421-438 | one run leaves a file that passes all six checks if and only if the tab fix turns no line into a line of the license text that the license check still looks at; the other five checks always pass |
| AllFixes.TwoRunsComply | utils/check-style-clang-format.py:421-438 | on every file two runs leave a file that passes all six checks, and a third run changes nothing |
| AllFixes.SecondRunIsIdle | utils/check-style-clang-format.py:421-438 | a second run changes nothing if and only if the first has left a file that passes |
| AllFixes.OneRunIsNotEnough | utils/check-style-clang-format.py:421-438 | a file for which one run is not enough |
| AllFixes.FixKeeps | utils/check-style-clang-format.py:656-697 | a fix that leaves compliant lines compliant with another check leaves a compliant file compliant, over deleted lines and new guards |
| AllFixes.LaterFixKeepsLines | utils/check-style-clang-format.py:753-1024 | no fix spoils a line for a check that comes before it, the tab fix and the license check apart; the license fix spoils none for any check |
| AllFixes.TagWasThere | utils/check-style-clang-format.py:1012-1016 | expanding tabs neither makes nor changes a documentation tag |
| AllFixes.IncludeWasThere | utils/check-style-clang-format.py:1012-1016 | expanding tabs makes no include that the quotes check would reject |
| AllFixes.LicenseExactly | utils/check-style-clang-format.py:1012-1016 | exactly when a tab fix spoils a file for the license check |
| SchedulerBench.Bench.Run | utils/bench-scheduler.cc:121-149 | whenever an event fires, as many are pending as the population; total + 1 events fire in time order before all that are left; fired and pending events are those due from the delays drawn; the result counts total events |
| SchedulerBench.Bench.Cb | utils/bench-scheduler.cc:151-164 | below the total an event schedules its successor and is counted, at the total it stops the run |
| SchedulerBench.Simulator.RemoveNext | utils/bench-scheduler.cc:142 | a next event is removed, time never runs backwards, and the number of events pending before it is kept for the record |
| SchedulerBench.Log | utils/bench-scheduler.cc:318-372 | in every field the average is the mean and the variance the mean squared deviation, which is not negative |
| SchedulerBench.WelfordStep | utils/bench-scheduler.cc:345-349 | one step takes the mean and squared deviations of some samples to those of one sample more |
| SchedulerBench.OneMoreResult | utils/bench-scheduler.cc:339-356 | after every prefix of the results all six fields hold the mean and the squared deviations from it, from the first turn on |
| SchedulerBench.WelfordStart | utils/bench-scheduler.cc:333-349 | folding the first sample in again changes nothing |
| SchedulerBench.MeanIsLeastSquares | utils/bench-scheduler.cc:333-359 | no other reference point has squared deviations as small as the mean |
| BytePump.Application.constructor | examples/tcp/tcp-large-transfer.cc:94-99 | the buffer of 1040 bytes holds the alphabet over and over again |
| BytePump.Application.WriteUntilBufferFull | examples/tcp/tcp-large-transfer.cc:210-232 | what the socket accepted is the alphabet over and over again without a gap, slices stay in the buffer and in the socket's room and are as long as one call can be, Close is called exactly when 2000000 bytes are accepted, never more are, and the drain ends |
| BytePump.Application.StartFlow | examples/tcp/tcp-large-transfer.cc:198-208 | over any sequence of callbacks the accepted bytes stay the alphabet over and over again, and every callback that is not stalled makes progress |
| BytePump.StreamIsAlphabet | examples/tcp/tcp-large-transfer.cc:95-99 | the stream starts with an a, behind each letter comes the next one, and behind a z an a |
| BytePump.LetterInBuffer | examples/tcp/tcp-large-transfer.cc:216-219 | a buffer position taken modulo the write size holds the letter due |
| BytePump.StreamGrows | examples/tcp/tcp-large-transfer.cc:216-226 | an accepted slice continues the stream without a splice |
| Fairness.PrintFairness | examples/tcp/dctcp-example.cc:180-186 | for every input the quotient of the two numbers modulo 2^64, which is Jain's index exactly if they are undistorted |
| Fairness.JainBounds | examples/tcp/dctcp-example.cc:186 | the index is undefined exactly without traffic, lies in [1/n, 1], is 1 exactly for equal flows and 1/n exactly for a single one |
| Fairness.FairnessBounds | examples/tcp/dctcp-example.cc:174-217 | the sum of squares, the square of the sum and n times the sum of squares in order, with both cases of equality |
| Fairness.LagrangeIdentity | examples/tcp/dctcp-example.cc:174-217 | the gap in the Cauchy-Schwarz inequality is the sum over all pairs of squared differences |
| Fairness.NothingWrapsExactly | examples/tcp/dctcp-example.cc:180-186 | no accumulation and no product wraps if and only if n times the sum of squares is below 2^64 |
| Fairness.WrapProduct | examples/tcp/dctcp-example.cc:183-186 | wrapping the factors first makes no difference |
| Fairness.PrintedExactly | examples/tcp/dctcp-example.cc:180-186 | the printed index is Jain's index if and only if there is no traffic, or the denominator does not vanish in 64 bits and the remainders are in the proportion of the parts that are lost |
| Fairness.PrintedExactlyBelow | examples/tcp/dctcp-example.cc:180-186 | when the square of the sum fits, the printed index is right if and only if the denominator fits |
| Fairness.WrappedIndex | examples/tcp/dctcp-example.cc:180-200 | wrong and undefined indices for groups of 10 and of 20 flows with traffic on one of them |
| Fairness.InitializeCounters | examples/tcp/dctcp-example.cc:132-147 | all counters are 0 |
| Fairness.TraceSink | examples/tcp/dctcp-example.cc:114-130 | only the counter of the flow moves |
| TraceWriters.Tracers.CwndTracer | examples/tcp/tcp-variants-comparison.cc:83-101 | the lines written to both files of the node, the flag and the value |
| TraceWriters.Tracers.SsThreshTracer | examples/tcp/tcp-variants-comparison.cc:110-129 | the same with the roles swapped |
| TraceWriters.CwndKeeps | examples/tcp/tcp-variants-comparison.cc:83-101 | every file is in time order, ends with the last value at the time of the node's last event of either kind, and replays to the history of its own events; no other node is touched |
| TraceWriters.SsThreshKeeps | examples/tcp/tcp-variants-comparison.cc:110-129 | the same for a threshold event |
| TraceWriters.OtherEvent | examples/tcp/tcp-variants-comparison.cc:96-100 | the extra line of the other quantity's event is redundant in the replay |
| TraceWriters.OwnEvent | examples/tcp/tcp-variants-comparison.cc:88-94 | a quantity's own event extends its history, from time 0 on |
| TraceWriters.Tracers.Run | examples/tcp/tcp-variants-comparison.cc:68-129 | any interleaving of events over nodes and quantities leaves every file replaying to its history |
| TraceWriters.Simulate | examples/tcp/tcp-variants-comparison.cc:68-129 | for any changes in the order of time every file is time-ordered, replays at every time to what the last change of its node and quantity has left, and before the first to what that change found, and reaches up to the last change of the node |
| TraceWriters.HistoryAfter | examples/tcp/tcp-variants-comparison.cc:88-94 | the history at a time is what the last event of the quantity up to then has left |
| TraceWriters.HistoryBefore | examples/tcp/tcp-variants-comparison.cc:88-92 | before the first event it is what that event found, from time 0 on |
| TraceWriters.RecordedPicks | examples/tcp/tcp-variants-comparison.cc:68-129 | the events of a node are its changes, in their order |
| TraceWriters.ContextGivesNode | examples/tcp/tcp-variants-comparison.cc:68-74 | the context string connected for a node gives that node back |
| IabDepth.WalkUp | metrics_common.py:43-48 | without loops the walk ends and counts the rows that lead from the cell to the donor, or fails because none do |
| IabDepth.CellDepths | metrics_common.py:35-52 | on a table without loops it succeeds exactly if rows lead from every cell to the donor, with their number as depth and 0 for the donor |
| IabDepth.PortDepths | metrics_common.py:17-33 | it succeeds exactly on the same tables, with the number of rows for every cell at its port, and holds nothing else |
| IabDepth.ParentExact | metrics_common.py:43-47 | the parent looked up is the one in the first row of the cell |
| IabDepth.DepthByRows | metrics_common.py:43-48 | the depth is the number of rows that lead to the donor, each naming the cell of the next |
| IabDepth.EndsExactlyWithoutLoops | metrics_common.py:43-48 | the walks from all cells end if and only if no cell is its own ancestor without the donor on the way |
| IabDepth.WalkEnds | metrics_common.py:43-48 | without loops a walk ends after one hop more than the table has rows at the latest |
| IabDepth.DepthOfParent | metrics_common.py:45-48 | a node is one hop deeper than its parent, a child of the donor at depth 1 |
| IabDepth.DepthIsBounded | metrics_common.py:45-48 | no depth exceeds the number of rows |
| IabDepth.MappingFollowsTree | metrics_common.py:35-52 | in the mapping a cell is one deeper than its parent, the donor being at 0 |
| IabDepth.MappingsAgree | metrics_common.py:17-52 | the mapping by port is the mapping by cell without the donor, shifted |

## Left out

- The ns-3 library: simulator core, packets, sockets, RRC/MAC/PHY, BAP and helpers; each model has the small interface it needs.
- Scenario scripts and the remaining examples: wiring with fixed constants.
- `IsChildOf` as a walk over parent types: an arbitrary relation instead, which covers it.
- `Uniquefy` and `GetNoTypeIds`: the sorted copy is thrown away.
- Exceptions inside a worker or while results are read, the XML and HTML reports, the list of failed jobs printed in verbose mode, and argument handling in `test.py`.
- `check_include_prefixes_line`, which looks at the file system, clang-format calls, and encoding repair.
- The text of the verbose messages; the model keeps the line numbers.
- CheckManually: does not model the translation of carriage returns when a file is read, because the text is taken after it.
- Library search, reading of binaries and loading in `ns__init__.py`; the model starts from the links found.
- SortToDependencies: its precondition excludes cyclic and outside links, because the recursion does not end on them; `LoadsExactlyWhenAcyclic` shows that nothing else is excluded.
- Square roots, rates and output of the benchmark statistics, and runs with results that are not numbers.
- A socket that accepts zero bytes without refusing, and the connection set-up of `StartFlow`.
- PrintFairness: does not model the throughput averages and aggregate sums printed beside the index; the three copies of the index are one method for any number of flows.
- GetNodeIdFromContext: does not model leading blanks and signs in the number, because the simulator writes none.
- The other five trace files of each node, which no other tracer writes to, and the rounding of printed times.
- CellDepths: its precondition excludes parent tables with loops, because the walk does not end on them; `EndsExactlyWithoutLoops` shows that nothing else is excluded. So do those of PortDepths and WalkUp.
- CheckStyle: does not model the checks on include prefixes, formatting and encoding of the same run, several files in parallel, and files to which only some of the checks apply.
- DistinctRecordsExactly: is about the records of one root; those of several roots follow each other.
