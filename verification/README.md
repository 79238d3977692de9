# GlusterFS client logic in Dafny

This project models seven pieces of GlusterFS that are small in code and rich in state, and proves
what each of them is for.

* **Graph switch of libgfapi** (`GraphSwitch*.dfy`). One `glfs` object is shared by any number of
  calls while bottom-up notifications bring up new translator graphs. The model is a step system:
  a step is one region that holds `fs->mutex` (or one update that needs no mutex), a thread keeps its
  progress in a program counter,
  `migration_in_progress` marks a migration that has dropped the mutex, and the result of every
  `syncop_*` call is part of the run. All main results hold for every run from the initial state.
* **Path resolution** (`Path*.dfy`). The component loop with its recursion on symbolic links, over
  an immutable namespace, against a link-splicing machine after section 4.13 (Pathname Resolution)
  of the POSIX.1-2017 Base Definitions.
* **Directory stream** (`DirStream.dfy`). A handle that buffers a segment of a listing, against a
  plain cursor.
* **DHT layout calculator** (`Layout`, `Score`, `Normalize`, `Greedy`, `Rebalance`, `Placement`).
  Apportioning the 32-bit hash ring, sorting old ranges, scoring and greedy placement.
* **Volfile tools** (`VolText`, `Volfile*`, `Filters`, `PushFilter`, `FilterNames`,
  `FilterRuns`, `ProtFilter`).   Printing, parsing and in-place rewriting of a shared translator graph.
* **Stripe merge** (`Striping`, `Coalesce`, `Traditional`, `StripeMerge`). Rebuilding a file from the
  bricks of a striped volume.
* **CLI registry and disperse check** (`Template`, `Tokens`, `Registry`, `CommandTree`,
  `TemplateWords`, `Disperse`).

Objects that the source updates in place are classes, and the methods that update them are proved
against functions on values; the properties are lemmas about those functions. Option dictionaries
are association lists in iteration order. `dafny verify dfyconfig.toml` checks everything.

Some results need a word, because the code does less than one might expect. Each has its exact
condition:

* A link whose target has no components (such as `//`) stops a walk in the middle of a path unless
  the target is exactly `/` (`PathLaws.SlashTargetMidway`). The code and the reference agree on every
  path from every start that is not a link if and only if each link that can be named has a target
  that is `/` or has a component (`PathExact.AgreesExactly`); `PathLaws.DoubleSlashTarget` is a
  concrete namespace where they differ.
* `normalize` stops the program not only at a gap: its scan also stops at a brick without a range.
  When the ranges partition the ring, it returns if and only if the bricks with a range come first
  (`Normalize.NormalizeReturnsIff`); `Normalize.NewBrickFirst` is an input without a gap that stops it.
* `push_filter` overwrites dictionary entries and `delete` only reaches what the dictionary lists.
  Delete undoes push if and only if no translator that the dictionary does not list after the push
  refers to the filtered one (`FilterRuns.DeleteUndoesPushIff`). In `FilterRuns.CollidingNames` the new
  names push such a translator out of the dictionary; in `FilterRuns.RepeatedName` a repeated volume
  name has left it out from the beginning.
* The first pass of `prot_filter` can take a client out of the dictionary, depending on the order of the
  values, and such a client never gets its trace (`ProtFilter.CollidingClients`, `ProtFilter.Protect`). A
  client stays in the dictionary in every order if and only if it has an entry that no other filtered
  translator writes (`ProtFilter.ListedInEveryOrderIff`).
* A translator that was read without a `type` line is printed with an empty one, which load rejects.
  A loaded graph with distinct names can be printed and read back if and only if every translator
  reachable from its top has a type (`VolfileReload.ReloadsIffTyped`); `VolfileReload.UntypedVolume` is
  a file that loads and whose print does not.
* The output file of the stripe merge is opened without truncation, so with all stripes present it
  equals the original file if and only if it was not longer before, in both formats
  (`Coalesce.MergeUndoesStriping`, `Traditional.OrRestoresFile`). With every stripe missing the
  coalesced loop goes on seeking until `lseek` fails (`StripeMerge.AllMissingGoesOn`); the program is
  always given at least one stripe.
* An abbreviated command word can stop being unambiguous when another word is registered
  (`CommandTree.AbbreviationSurvives` says exactly when; in `CommandTree.AbbreviationLost`, "st" no longer
  selects "start" once "stop" is there); full words are stable. Registration itself
  looks words up by unambiguous prefix.

## Model

| member | source | states |
|---|---|---|
| `GraphSwitchSafety.StepKeepsExcess` | api/src/glfs-resolve.c:808-918 | no step of any thread changes, for any graph, its `winds` minus its slots minus the references that calls and pending drops own |
| `GraphSwitchFds.StepKeepsFdExcess` | api/src/glfs-resolve.c:613-805 | no step changes, for any fd, its reference count minus the glfds that store it minus the calls that use it |
| `GraphSwitchInv.StepKeepsLock` | api/src/glfs-internal.h:289-301 | at most one thread is inside a window, exactly while `migration_in_progress` is set, and `old_subvol` is set only inside one |
| `GraphSwitchInv.OthersFrozen` | api/src/glfs-resolve.c:60-75 | while a migration has dropped the mutex, a step of another thread leaves active, old, cwd, the open-fd table and the notifications as they are, and changes `winds` only by one reference to a graph it puts in the next slot |
| `GraphSwitchInv.StepKeepsInv` | api/src/glfs-resolve.c:808-988 | every enabled step keeps the whole invariant |
| `GraphSwitchInv.RunKeepsInv` | api/src/glfs-resolve.c:808-988 | so does every run, under every interleaving |
| `GraphSwitchInv.WindsAreReferences` | api/src/glfs-resolve.c:868-918 | in every reachable state `winds` of a graph is its number of slots plus the references that calls and pending drops own |
| `GraphSwitchRuns.ZeroMeansUnreferenced` | api/src/glfs-resolve.c:868-888 | `winds` is zero if and only if no slot and no call refers to the graph |
| `GraphSwitchRuns.DropNotifiesLast` | api/src/glfs-resolve.c:868-888 | a drop finds at least one reference; PARENT_DOWN is due exactly when nothing refers to the graph afterwards, and then the graph is not the active one, so the assertion cannot fail |
| `GraphSwitchRuns.NoGraphLeaks` | api/src/glfs-resolve.c:868-888 | a graph that came up and that nothing refers to any more has been told PARENT_DOWN |
| `GraphSwitchRuns.TargetStaysUp` | api/src/glfs-master.c:44-75 | the graph being switched to keeps a reference in every window, even after a notification displaced it from the next slot |
| `GraphSwitchRuns.RetiringOnlyInMigration` | api/src/glfs-resolve.c:808-865 | between steps `old_subvol` is NULL unless a migration is running |
| `GraphSwitchRuns.WindowIsolation` | api/src/glfs-resolve.c:141-157 | in every reachable state with a thread in a window, no step of another thread changes what the migration relies on, nor any reference count but that of a graph it puts in the next slot |
| `GraphSwitchRuns.WindowCanClose` | api/src/glfs-resolve.c:725-743 | a thread inside a window always has a step to take, so a migration cannot get stuck on its own state |
| `GraphSwitchSample.EverythingHappens` | api/src/glfs-resolve.c:746-988 | a concrete run is possible in which a graph comes up, a file is opened and the cwd set on it, another graph replaces it, an fd and a cwd are resolved from the old graph, the last drop tells it PARENT_DOWN, and no fd keeps a reference |
| `GraphSwitchAtomic.SwitchAllOrNothing` | api/src/glfs-resolve.c:782-865 | a switch whose first lookup or cwd refresh fails leaves active, old, cwd and every open fd unchanged; one that succeeds returns its graph, which is active if and only if it was still in the next slot at the exchange, with a set cwd moved along when it is active, and every open fd with a gfid on the new graph unless its own migration failed, in which case it stores exactly the fd it stored |
| `GraphSwitchAnswers.NoSwitchGivesActive` | api/src/glfs-resolve.c:815-816 | with no graph waiting, `glfs_active_subvol` returns the active graph and adds one to its `winds`, with every other count, slot, fd and the cwd unchanged; with no active graph either it returns NULL and changes nothing |
| `GraphSwitchAnswers.ActiveSubvolAnswers` | api/src/glfs-resolve.c:808-918 | a whole call under any interleaving returns the graph that was waiting, or the active one when none was, and NULL if and only if there is no graph at all or its first lookup or cwd refresh fails |
| `GraphSwitchAnswers.NextSlotChanges` | api/src/glfs-master.c:44-69 | a step changes the next slot exactly when graph_setup brings up a graph that is neither active nor next nor switched away from, which then is in it, and when a switch exchanges the slots, which leaves it empty |
| `GraphSwitchAnswers.BroughtUp` | api/src/glfs-master.c:65-75 | such a graph gets one reference, and the one it displaces is left to be dropped |
| `GraphSwitchAtomic.FdRefsAreReferences` | api/src/glfs-resolve.c:613-805 | in every reachable state an fd has one reference per glfd that stores it plus one per call that uses it, and is alive while it has any |
| `GraphSwitchCalls.ResolveFdIsAtomic` | api/src/glfs-resolve.c:746-779 | a whole `glfs_resolve_fd` with any steps of other threads in its window gives NULL if and only if the migration fails and otherwise an fd for the same file on exactly the requested graph; the stored fd becomes that fd if the graph is active or was the stored one's already and stays otherwise; no other open glfd, slot or cwd changes |
| `GraphSwitchCalls.OwnStepLeft` | api/src/glfs-resolve.c:808-865 | every step of the thread that switches brings its switch nearer to its return |
| `GraphSwitchCalls.SwitchReturns` | api/src/glfs-resolve.c:782-865 | whatever other threads do, a switch is over after at most three steps of its own more than there are open fds |
| `GraphSwitchCalls.CwdSetIsAtomic` | api/src/glfs-resolve.c:922-955 | a whole call that sets the cwd, with any steps of other threads in between, leaves active, old and every open fd as they are, and ends with the requested file on the active graph, or with the old cwd exactly if the refresh fails |
| `GraphSwitchAnswers.CwdGetKeeps` | api/src/glfs-resolve.c:958-988 | a whole glfs_cwd_get changes nothing, and drops the mutex exactly when a cwd is set on a graph that is not active |
| `GraphSwitchAnswers.OpenListChanges` | api/src/glfs.c:537-569 | the list of open glfds changes only when a glfd is bound, which appends it, and when one is destroyed, which takes out exactly that one |
| `GraphSwitchAnswers.OpenedIsLeftAlone` | api/src/glfs.c:537-549 | whatever other threads do before a new glfd is bound, a whole switch included, it stores the fd it was opened with on the graph of its call |
| `PathResolve.ResolveAt` | api/src/glfs-resolve.c:359-502 | the component loop ends on every namespace, cyclic links included, and returns and fills loc as the resolution function says, found, missing last component and failure midway alike |
| `PathReference.ResolveIsReference` | api/src/glfs-resolve.c:230-502 | with well-formed link targets it succeeds with inode i, from any start, if and only if the link-splicing reference with the same budget arrives at i |
| `PathReference.Simulates` | api/src/glfs-resolve.c:392-502 | the reference reaches, in some number of steps, exactly where the component loop ends, whatever follows in the path |
| `PathReference.HaltsOnce` | api/src/glfs-resolve.c:230-502 | the reference has only one result |
| `PathLaws.ComponentsOfJoin` | api/src/glfs-resolve.c:392-396 | the components of p/q are those of p and then those of q |
| `PathLaws.WalkComposes` | api/src/glfs-resolve.c:392-502 | walking two component lists one after the other is walking their concatenation |
| `PathLaws.ResolveComposes` | api/src/glfs-resolve.c:359-502 | following links, resolving p/q is resolving q from the directory that p resolves to |
| `PathLaws.ParentIsPrefix` | api/src/glfs-resolve.c:392-502 | on component lists, the parent is reported exactly when everything before the last component can be entered |
| `PathLaws.ParentIsReported` | api/src/glfs-resolve.c:475-502 | p/name reports its parent directory, found or not, exactly when p/. resolves, and it is that directory |
| `PathDots.EntryResolves` | api/src/glfs-resolve.c:229-357 | a name that is not a link resolves to its entry, and one without an entry is reported missing with its parent |
| `PathDots.LinkResolves` | api/src/glfs-resolve.c:412-447 | a link to a name is resolved in the directory it is in, one to a slash and a name in the root, as long as no more than 2048 links were followed |
| `PathDots.SlashIsFromRoot` | api/src/glfs-resolve.c:371-391 | a leading slash, or no directory given, begins at the root |
| `PathDots.DotDotUndoes` | api/src/glfs-resolve.c:251-265 | where parents agree with entries, p/name/.. is the directory that p/. is, when name is a directory in it |
| `PathDots.DotDotReturns` | api/src/glfs-resolve.c:251-265 | following links, if p resolves to a directory with a directory name in it, then p/name/.. resolves to that directory |
| `PathDots.DotsStayAtRoot` | api/src/glfs-resolve.c:246-256 | from the root no number of . and .. leads away from it |
| `PathLaws.SelfLinkFails` | api/src/glfs-resolve.c:412-447 | a link to itself never resolves, whatever budget is left |
| `PathLaws.SlashTargetMidway` | api/src/glfs-resolve.c:359-502 | a link midway whose target has no components is passed if and only if the target is exactly / |
| `PathLaws.DoubleSlashTarget` | api/src/glfs-resolve.c:359-502 | a concrete namespace in which the reference resolves a path and the code does not |
| `PathExact.BadTargetDisagrees` | api/src/glfs-resolve.c:359-502 | wherever a link can be named whose target is neither / nor has a component, the reference resolves a path that the code does not |
| `PathExact.AgreesExactly` | api/src/glfs-resolve.c:359-502 | the two agree on all paths from every start that is not a link if and only if every link that can be named has a target that is / or has a component |
| `PathExact.AgreesEverywhereExactly` | api/src/glfs-resolve.c:359-502 | and from every start at all if and only if all links have one |
| `DirStream.Stream.Refresh` | api/src/glfs-fops.c:2273-2348 | a failed refresh keeps position and buffer; a successful one leaves a segment of the listing from the current position on, with a next entry unless the listing is at its end |
| `DirStream.Stream.EntryNext` | api/src/glfs-fops.c:2351-2375 | one readdir is one step of the plain cursor, for any size of reply, and a failed one leaves the position |
| `DirStream.Stream.Tell` | api/src/glfs-fops.c:2129-2133 | telldir is the offset of the cursor's position |
| `DirStream.Stream.Seek` | api/src/glfs-fops.c:2138-2161 | seekdir moves to the position of that offset whether or not the buffer holds it |
| `DirStream.Run` | api/src/glfs-fops.c:2129-2375 | any sequence of readdir, telldir and seekdir has the outcomes of a cursor over the whole listing |
| `DirStream.BatchesDoNotMatter` | api/src/glfs-fops.c:2273-2375 | two runs of the same successful calls have the same outcomes however the replies are cut |
| `DirStream.ReadsWholeListing` | api/src/glfs-fops.c:2351-2375 | reading until the end, over any failures, yields the rest of the listing, each entry once and in order |
| `Layout.LeftoverBounded` | extras/rebalance.py:94-110 | the floor shares leave a leftover of at least 0 and less than the number of bricks |
| `Layout.GoodSizesFillRing` | extras/rebalance.py:94-110 | the final shares sum to exactly 2^32 and none is negative |
| `Layout.GoodSizesProportional` | extras/rebalance.py:94-110 | every share is the proportion of the ring rounded down, but for the first brick with a share, which gets less than one unit per brick more |
| `Layout.ExactlyOneOwner` | extras/rebalance.py:271-276 | shares laid out one after the other give every hash of the stretch exactly one owner and no other hash any |
| `Score.ScoreCountsKept` | extras/rebalance.py:132-152 | the score is the number of hash values whose owner is the same brick under the old and the proposed layout |
| `Normalize.NormalizeSorts` | extras/rebalance.py:114-130 | what normalize returns is a permutation of its input whose first bricks tile the ring in ascending order |
| `Normalize.PickIsFirst` | extras/rebalance.py:120-126 | the scan ends at the first range that starts at the hash, if no brick without a range comes before it |
| `Normalize.LeftKeepsOrder` | extras/rebalance.py:114-130 | the bricks left over are in the order in which they came |
| `Normalize.NormalizeReturns` | extras/rebalance.py:114-130 | it returns whenever the ranges partition the ring and bricks with a range come first |
| `Normalize.NormalizeReturnsIff` | extras/rebalance.py:114-130 | when the ranges partition the ring, it returns if and only if the bricks with a range come first |
| `Normalize.NewBrickFirst` | extras/rebalance.py:114-130 | an input without a gap that stops it, and that it accepts in the other order |
| `Greedy.Best` | extras/rebalance.py:254-264 | the place taken has a score no other place exceeds; it is the last place unless another is strictly better, and then the first of the best |
| `Greedy.StepScoresNoLess` | extras/rebalance.py:252-269 | one greedy step never lowers the score |
| `Greedy.MovedElements` | extras/rebalance.py:266-268 | element by element: the moved brick is at its new place, those in between make room, the others stay |
| `Greedy.MoveIsMove` | extras/rebalance.py:258-259 | a list is the move to a place if and only if it has the brick there and is otherwise the old list without it |
| `Greedy.StepIsBestMove` | extras/rebalance.py:252-269 | of all lists that have the brick at some place up to its own and are otherwise the old list without it, the step gives one with the highest score: the old list unless another is better, and then the first of the best |
| `Greedy.PlacedIsGreedy` | extras/rebalance.py:252-269 | the loop is a run of such steps, one for each brick that was not in place |
| `Greedy.PlacedRearranges` | extras/rebalance.py:252-269 | the greedy loop only rearranges the bricks |
| `Greedy.PlacedKeepsOrder` | extras/rebalance.py:252-269 | the bricks that were in place keep their relative order over the whole loop |
| `Greedy.PlacedScoresNoLess` | extras/rebalance.py:252-269 | the score at the end of the loop is no less than at its beginning |
| `Rebalance.CollectSizes` | extras/rebalance.py:218-235 | the loop over the sizes stops exactly at one that is not positive, and otherwise sets them and returns their sum |
| `Rebalance.CollectRanges` | extras/rebalance.py:237-245 | the loop over the ranges stops exactly at one that is backwards, and otherwise each brick has the range found for it, with a current size that is zero exactly if there is none |
| `Rebalance.FloorSizes` | extras/rebalance.py:94-101 | the first loop gives each brick its floor share and returns what is left of the ring |
| `Rebalance.AddLeftover` | extras/rebalance.py:102-110 | the leftover goes to the first brick with a share, or to the first of all when none has one |
| `Rebalance.CalcSizes` | extras/rebalance.py:94-110 | the good sizes of the objects become the apportioned shares of their sizes |
| `Rebalance.Scan` | extras/rebalance.py:120-129 | the inner loop of normalize finds the first brick whose range starts at the hash, and stops at a brick without range |
| `Rebalance.NormalizeBricks` | extras/rebalance.py:114-130 | it fails exactly when the search for the next hash finds no range that starts there before the end of the list or a brick without range, and otherwise returns the same objects in the order the specification picks, and how many tile the ring |
| `Rebalance.GetScore` | extras/rebalance.py:132-152 | the accumulating loop computes the score of the order |
| `Placement.FindPlace` | extras/rebalance.py:253-264 | the inner loop finds the best place |
| `Placement.PlaceOne` | extras/rebalance.py:252-269 | one turn of the greedy loop on the brick list makes such a best move |
| `Placement.PlaceAll` | extras/rebalance.py:252-269 | the loop on the brick list goes through such a run to its end, with the same bricks |
| `Placement.Finalize` | extras/rebalance.py:271-276 | each brick gets the range of its share in list order |
| `Placement.FinalRangesSplitRing` | extras/rebalance.py:271-276 | those ranges give every 32-bit hash exactly one holding brick |
| `Placement.Order` | extras/rebalance.py:250-269 | it fails exactly when normalize does, and otherwise gives the bricks in the order that placing greedily what normalize leaves over describes |
| `Placement.Relayout` | extras/rebalance.py:249-276 | from sizes and ranges to new ranges: it stops exactly when normalize does, and otherwise the same bricks, in the order chosen by normalize and the greedy loop on the old ranges and new shares, split the ring |
| `Placement.Calculate` | extras/rebalance.py:215-276 | everything after the bricks are mounted: it ends exactly if the sizes are positive, no range is backwards and normalize returns, and then the new ranges of the same bricks split the ring |
| `Placement.EndsWhenLaidOutFirst` | extras/rebalance.py:215-276 | when the ranges found partition the ring, it ends if and only if the sizes are positive and the bricks with a range come first |
| `VolText.SplitOfJoin` | extras/volfilter.py:94-110 | splitting joined words gives the words back |
| `VolText.JoinedIsNormal` | extras/volfilter.py:107-109 | option values that the parser stores are unchanged by splitting and joining again |
| `VolText.SplitPieces` | extras/volfilter.py:97 | a line is split at every blank, tab, line feed, vertical tab, form feed and carriage return |
| `VolText.SplitWhole` | extras/volfilter.py:97 | and nowhere else |
| `VolfileOrder.GenerateOrder` | extras/volfilter.py:126-139 | generate prints every translator reachable from the top, no other, each exactly once and after all its subvolumes, the top last, however children are shared |
| `VolfileRoundTrip.StanzaLoads` | extras/volfilter.py:94-124 | reading one printed stanza adds one translator with its name, type, options and subvolumes |
| `VolfileMeaning.StanzaMeans` | extras/volfilter.py:100-121 | reading any stanza adds one translator: the type of its last type line or none, for each option the value of its last option line, the subvolumes of all its subvolumes lines in order, and its name now refers to it |
| `VolfileMeaning.PutSets` | extras/volfilter.py:109 | setting an option sets that one only |
| `VolfileGrammar.LoadAccepts` | extras/volfilter.py:82-124 | a file loads if and only if its lines are stanzas from volume to end-volume with type, option and subvolumes lines inside, every subvolume defined by a stanza before; an unknown keyword, text outside, a nested or unclosed stanza, a missing word and an unknown subvolume all stop it |
| `VolfileRoundTrip.TextLoads` | extras/volfilter.py:82-139 | reading the stanzas of any order that respects subvolumes mirrors that order |
| `VolfileRoundTrip.LoadUndoesGenerate` | extras/volfilter.py:82-139 | loading the generated text of an acyclic graph with distinct printable names rebuilds it up to numbering: names, types, options, subvolume order and top |
| `VolfileRoundTrip.ReloadPrinted` | extras/volfilter.py:82-139 | the same when only the translators that are printed are printable |
| `VolfileRoundTrip.LoadedIsAcyclic` | extras/volfilter.py:82-124 | whatever load accepts is an acyclic graph |
| `VolfileReload.LoadedIsNearlyPrintable` | extras/volfilter.py:82-124 | every translator that load returns has a word for its name, distinct option keys and normal option values, and a word or nothing for its type |
| `VolfileReload.MissingTypeStops` | extras/volfilter.py:106-108 | a type line without a type stops load wherever it stands |
| `VolfileReload.ReloadsIffTyped` | extras/volfilter.py:82-139 | such a graph with distinct names can be printed and read back if and only if every translator reachable from the top has a type |
| `VolfileReload.UntypedVolume` | extras/volfilter.py:126-139 | a volume without a type line loads, and what is printed for it does not |
| `VolfileReload.LoadedReloads` | extras/volfilter.py:82-139 | and so can every file that load accepts, with distinct names |
| `VolfileHeap.Translator.constructor` | extras/volfilter.py:72-78 | a new translator has its name and nothing else |
| `VolfileHeap.PrintStanza` | extras/volfilter.py:132-139 | the stanza of one translator is appended to the stream |
| `VolfileHeap.Generate` | extras/volfilter.py:126-139 | on objects: the text of the order is appended, and exactly the printed translators below the start are newly flagged as dumped |
| `VolfileHeap.GenerateSub` | extras/volfilter.py:127-131 | one turn of its loop |
| `VolfileLoad.LoadFile` | extras/volfilter.py:82-124 | on objects: it fails exactly on malformed text, and otherwise returns new objects wired as the text says, their dictionary and the last one |
| `VolfileLoad.TakeWords` | extras/volfilter.py:96-121 | one line that is not blank, with each of its error cases |
| `VolfileLoad.AddSubvols` | extras/volfilter.py:110-113 | the subvolumes line appends the named objects or fails on an unknown name |
| `Filters.Erase` | extras/volfilter.py:141-163 | the graph that FilterRuns.PushAndErase ends with, on values: after any number of pushes, deleted in reverse, it is a copy of the original: types, options and wiring |
| `Filters.PushKeepsRanked` | extras/volfilter.py:141-155 | a pushed filter keeps the graph acyclic |
| `Filters.RedirectSubvols` | extras/volfilter.py:161-163 | the inner loop ends with every occurrence of the victim replaced |
| `Filters.Delete` | extras/volfilter.py:157-163 | it refuses a translator without exactly one subvolume and otherwise ends with no translator of the graph referring to the victim, each list otherwise as it was |
| `PushFilter.VolPushFilter` | extras/volfilter.py:141-155 | the old object becomes the filter over a new object that is what it was, under the names this tool gives; nothing happens when the type has no slash, and when only the filter type has none the new object is listed and the old one has lost its suffix |
| `PushFilter.ProtPushFilter` | extras/prot_filter.py:100-119 | the same with the names prot_filter gives; nothing happens when either type has no slash |
| `FilterNames.SecondIsKind` | extras/prot_filter.py:101-102 | the kind of a type is what stands between its first slash and the next one or the end |
| `FilterNames.ProtNamesReplace` | extras/prot_filter.py:103-106 | when the name is a, the suffix of its type and b, with the suffix nowhere before, the moved translator keeps the name and the filter is a, its own suffix and b |
| `FilterNames.ProtNamesAppend` | extras/prot_filter.py:107-109 | when the suffix is nowhere in the name, both suffixes are appended |
| `FilterNames.TailsKeepApart` | extras/prot_filter.py:103-106 | so names that differ only in what follows the suffix get different filter names |
| `FilterNames.VolNamesReplace` | extras/volfilter.py:142-150 | volfilter replaces the suffix at the end of a longer name |
| `FilterNames.VolNamesAppend` | extras/volfilter.py:142-150 | and appends both suffixes to any other name |
| `ProtFilter.Pass` | extras/prot_filter.py:133-137 | one loop over a snapshot of the values, in whatever order they come, filters exactly the listed translators of the given types, each once, and leaves in the dictionary exactly those that the order leaves there |
| `ProtFilter.OwnEntryStays` | extras/prot_filter.py:100-119 | an entry that no other translator writes is kept in every order |
| `ProtFilter.ListedInEveryOrderIff` | extras/prot_filter.py:133-137 | a translator is listed after the pass in every order of the values if and only if it has an entry that no other filtered translator writes |
| `ProtFilter.Protect` | extras/prot_filter.py:133-143 | after both passes a listed client is under exactly one trace over one prot_client if the first pass left it in the dictionary, and under one prot_client only if not; every listed distribute translator is under one prot_dht; a prot_client of the file gets its trace on the same condition; everything else is untouched |
| `ProtFilter.CollidingClients` | extras/prot_filter.py:100-143 | clients named "a" and "a-client": when the second comes first, the pass takes it out of the dictionary |
| `ProtFilter.CollidingPass` | extras/prot_filter.py:133-137 | the same on objects |
| `FilterRuns.FreshListsAll` | extras/volfilter.py:141-155 | after a push the dictionary lists every translator if and only if the two names differ and take nobody else's last entry |
| `FilterRuns.DeleteUndoesPushIff` | extras/volfilter.py:141-163 | with the dictionary, which need not list everything: delete undoes push if and only if no translator that the dictionary does not list after the push refers to the filtered one |
| `FilterRuns.CollidingNames` | extras/volfilter.py:141-163 | a concrete graph whose names collide, and in which a translator is left on the deleted filter |
| `FilterRuns.RepeatedName` | extras/volfilter.py:116-163 | a concrete graph with a repeated volume name, where the names of the push are fresh and delete does not undo it |
| `FilterRuns.PushInGraph` | extras/volfilter.py:141-155 | on objects that show a graph, push_filter leaves them showing the graph with the filter pushed, and the dictionary with the two entries set |
| `FilterRuns.DeleteInGraph` | extras/volfilter.py:157-163 | on objects that show a graph, delete leaves them showing the graph with the victim redirected in what the dictionary lists |
| `FilterRuns.PushThenDelete` | extras/volfilter.py:141-163 | both calls one after the other leave the objects showing exactly the graph that DeleteUndoesPushIff is about |
| `FilterRuns.PushAndErase` | extras/volfilter.py:141-163 | any number of push_filter calls with fresh names, each on a translator that nobody unlisted refers to, and delete calls in reverse leave the objects showing a copy of the original graph: types, options and wiring; the unlisted translators are those that were unlisted before |
| `Striping.DealtWhereLookedFor` | xlators/cluster/stripe/src/stripe-helpers.c:622-636 | dealing chunks in turn puts every byte on the brick and at the coalesced offset where the stripe translator looks for it |
| `Striping.DealtIsFromFile` | xlators/cluster/stripe/src/stripe-helpers.c:622-636 | and every byte of a brick is a byte of the file: nothing else is stored |
| `Coalesce.MergeRestoresSurvivors` | extras/stripe-merge.c:341-391 | with any stripes missing but one, the loop puts every byte of the present stripes at its original offset, and everything else is as in the old target or zero |
| `Coalesce.MergeUndoesStriping` | extras/stripe-merge.c:341-391 | with all stripes present the file is written over the beginning of the target, which then is the file if and only if it was not longer before |
| `Coalesce.CollectIsRebuild` | extras/stripe-merge.c:361-387 | the loop over stripes, with its stop at the first empty read, does exactly what copying the file chunk by chunk would |
| `Traditional.MergedIsOr` | extras/stripe-merge.c:404-418 | merging block by block writes the stripes OR-ed together up to the longest |
| `Traditional.OrKeepsSurvivors` | extras/stripe-merge.c:398-421 | every byte on a present stripe comes out at its offset, and zeros elsewhere |
| `Traditional.OrUndoesStriping` | extras/stripe-merge.c:398-421 | with all stripes present the bytes written are the file |
| `Traditional.OrRestoresFile` | extras/stripe-merge.c:398-421 | with all stripes present the file is written over the beginning of the target, which then is the file if and only if it was not longer before |
| `Traditional.OrRestoresSurvivors` | extras/stripe-merge.c:398-421 | with stripes missing the target has every byte of the present ones at its offset, zeros in place of the others up to the longest stripe, and its old content behind |
| `StripeMerge.Source.Read` | extras/stripe-merge.c:372-372 | a read returns the next bytes and moves past them |
| `StripeMerge.CopyChunk` | extras/stripe-merge.c:363-386 | one turn of the coalesced loop: skip, copy or stop |
| `StripeMerge.AllMissingGoesOn` | extras/stripe-merge.c:363-370 | with every stripe missing the loop never stops by itself: after any number of turns it has only moved the position |
| `StripeMerge.GenerateCoalesced` | extras/stripe-merge.c:351-391 | on files: the loop ends if one stripe is present, with the target that the specification describes |
| `StripeMerge.ReadBlocks` | extras/stripe-merge.c:408-413 | one zero-padded block from each stripe, and the longest read |
| `StripeMerge.OrBlocks` | extras/stripe-merge.c:414-416 | the nested loops OR the buffers together |
| `StripeMerge.MergeBlock` | extras/stripe-merge.c:404-418 | one turn of the outer loop writes one merged block and moves every stripe past it |
| `StripeMerge.GenerateTraditional` | extras/stripe-merge.c:398-421 | on files: the stripes OR-ed together, up to the end of the longest, are written to the target |
| `Template.ScanBalanced` | cli/src/registry.c:78-109 | the recursive scan with its loop computes the scan function |
| `Template.ScanIsNested` | cli/src/registry.c:78-109 | the scan fails where a stack machine must, and otherwise stops where the machine pops what it started with |
| `Template.BalancedIsDerived` | cli/src/registry.c:60-122 | a template is accepted if and only if the grammar of nested angle, round and square brackets derives it: nothing, a character that is none of the six, a bracketed derived text, or two derived texts in a row |
| `Template.IsBalanced` | cli/src/registry.c:112-122 | the check on strings decides exactly that |
| `Tokens.TokenCount` | cli/src/registry.c:125-157 | the count is one more than the number of tokens |
| `Tokens.BegunCountsTokens` | cli/src/registry.c:125-157 | counting the beginnings of dividers and words counts the tokens |
| `Tokens.TokensAreTokens` | cli/src/registry.c:178-221 | every token is a single divider or a non-empty word without dividers and spaces |
| `Tokens.TokensKeepText` | cli/src/registry.c:178-221 | the tokens put together are the template without its spaces |
| `TemplateWords.DividersAre` | cli/src/registry.c:125-157 | the dividers are the brackets of four kinds and the bar, so every bracket of the template check is one |
| `TemplateWords.LeadingIsWritten` | cli/src/registry.c:330-371 | the words in front of the first bracket or bar, or of the end, are the words that lead to the command |
| `TemplateWords.LeadingIsAllWritten` | cli/src/registry.c:330-371 | the same without a space after the last of them |
| `Tokens.TokensFill` | cli/src/registry.c:178-221 | filling stays inside the array, writes exactly the tokens, and leaves the rest empty |
| `Tokens.Tokenize` | cli/src/registry.c:224-251 | no tokens for a template that is not balanced, otherwise all of them with a terminator behind |
| `Registry.StrTail` | libglusterfs/src/common-utils.c:1929-1939 | it finds the rest exactly when the pattern is a prefix |
| `Registry.GetUnamb` | cli/src/registry.c:253-282 | the exact match if there is one, otherwise the only choice the word begins, otherwise nothing, and nothing for the empty word |
| `CommandTree.Tree.NewWord` | cli/src/registry.c:299-327 | one new word after the given one, everything else as it was |
| `CommandTree.Tree.NextOrNew` | cli/src/registry.c:345-352 | one token of a registration: on to the word it selects, or to a new one |
| `CommandTree.RunGoes` | cli/src/registry.c:330-371 | at every step of a registration siblings are distinct, paths of full words lead where they led, and the tokens so far lead to the current word |
| `CommandTree.Tree.Ingest` | cli/src/registry.c:330-371 | the word the leading words lead to gets the command; no other command changes, and paths of full words are stable |
| `CommandTree.Tree.Register` | cli/src/registry.c:374-410 | a balanced template is registered, any other changes nothing |
| `CommandTree.RegisterAll` | cli/src/registry.c:374-410 | after any number of registrations siblings are distinct and every path of full words leads to the word it led to |
| `CommandTree.WalkIsFollowed` | cli/src/registry.c:253-296 | looking up full words one after the other by prefix finds exactly the path of those words |
| `CommandTree.FullWordsKeepMeaning` | cli/src/registry.c:253-371 | a command line of full words goes on meaning the same word, and only that, after later registrations |
| `CommandTree.AbbreviationSurvives` | cli/src/registry.c:253-282 | an abbreviation goes on selecting the same word if and only if it is a full word or does not begin the word added |
| `CommandTree.AbbreviationLost` | cli/src/registry.c:253-282 | "st" selects "start" until "stop" is registered, and then nothing |
| `Disperse.LowBitOfPower` | cli/src/cli-cmd-parser.c:250-252 | x and -x in two's complement is x exactly for the powers of two |
| `Disperse.NoneOptimal` | cli/src/cli-cmd-parser.c:248-259 | for a power of two no allowed redundancy leaves a power of two |
| `Disperse.SomeOptimal` | cli/src/cli-cmd-parser.c:248-259 | for every other count of at least 3 some allowed redundancy does |
| `Disperse.SearchRedundancy` | cli/src/cli-cmd-parser.c:248-262 | the loop finds the least redundancy in 1..(d-1)/2 that leaves a power of two, and nothing exactly when d is below 3 or a power of two |
| `Disperse.CheckDisperse` | cli/src/cli-cmd-parser.c:238-291 | the default redundancy always passes the later bound and is taken exactly if the user agrees; a given one passes exactly if it is within the bound and leaves a power of two or the user agrees |

## Left out

- The graph switch is modelled on values, one step per region that holds the mutex; object identity, memory release and update in place of `struct glfs` are not captured.
- Bodies of `syncop_*`, inode tables, fds, dictionaries, RPC and XDR: their results are actions of a run or parameters.
- Delivery of PARENT_DOWN after the mutex is released is not a step of its own, and that it is sent at most once per graph is not claimed: a displaced graph can be installed again.
- Wrap-around of the `winds` counter.
- The other `glfs_*` and `glfs_h_*` calls: a call is an abstract acquire, use and release of a graph.
- `glfs_h_resolve_symlink` (acquires a graph without releasing it), `pin_refcnt` and the upcall list (not paired on all exits), the retry bound of `glfs_link`, and `__glfs_resolve_inode`.
- Path resolution: errno values, the iatt beyond the file type, and the second lookup of a stale inode.
- Directory stream: the stat data and inode linking of readdirplus, and directories that change while they are read.
- Layout calculator: mounting, statvfs, reading and printing of xattr values; `mktemp` and option parsing.
- Volfile tools: `copy_stack` and `cleanup` (helpers for trees only), the command lines, and opening of files.
- Stripe merge: opening of files, xattr and mode checks, and failing or short reads and writes.
- Registry: memory allocation failures, `reg_cbk` and disabled commands; `Register` covers an enabled command.
- Disperse check: inputs with a data count, whose derived redundancy need not be positive, and the texts of questions and errors.
- The rest of the command line client, glusterd and all translators.
