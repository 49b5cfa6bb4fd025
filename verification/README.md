# Verified model of the build and documentation scripts

This project models the algorithms under `scripts/` that carry real logic, and proves what their
documentation and tests promise of them, for every input and every run. It verifies with Dafny 4.11:
`dafny verify dfyconfig.toml`.

Code that changes things step by step is modelled by classes, arrays and loops proved against functions
on values; what the scripts promise is then proved about those functions. Where the code does not do
what it is for on every input, the model keeps the code as it is, a lemma exhibits an input that shows
it, and another states exactly when it does.

| part | files |
|---|---|
| package order: Tarjan's search, the cycle-tolerant topological sort | `PackageGraph`, `Components`, `SinkCycles`, `TopoSort`, `RoundOrder` |
| coverage partitions: longest job first over a heap of buckets | `Schedules`, `FilledBuckets`, `CoveragePartitions`, `PartitionGuarantees`, `PartitionDurations`, `OutputTail` |
| the Mach-O load-command editor | `Bytes`, `LoadCommands`, `UnlockGuarantees`, `InjectGuarantees`, `WebviewUnlock` |
| the config catalog: key paths, the presence check, the schema walk, re-exports | `ConfigTypes`, `ConfigLookup`, `ConfigTermination`, `ConfigKeyof`, `ConfigSharing`, `ConfigNames`, `KeyPaths`, `SchemaKeys`, `SchemaWalk`, `SchemaAgreement`, `ReExports` |
| concurrent protocols: the worker pool, the rebuild watcher | `MapConcurrent`, `DevShell` |
| Markdown: destinations, comments, paired code blocks | `BalancedText`, `MarkdownDestinations`, `CommentedLines`, `HtmlComments`, `ProseLines`, `PairedMarkdown` |
| JSDoc prose | `Words`, `Links`, `JsDoc`, `JsDocGuarantees`, `JsDocRows` |
| framings: git batches, the artifact digest, numbers | `Decimals`, `GitBatch`, `ArtifactDigest` |
| worklists, chains and memos | `Candidates`, `BuildOutputs`, `SessionMigrations`, `PackageNames` |
| shared | `Wrappers`, `Sequences`, `Text`, `Numbers`, `Sorting` |

The main results:

- The search in `sinkCycles` returns exactly the cyclic components that depend on nothing else that remains,
  once each; every "lost" throw is dead. `topoSort` always ends with a permutation of its input, puts whatever
  a package reaches before it unless the two reach each other, keeps each cycle in one piece, and places each
  round by where groups stand in the group order, then by the collation. Where the comparator tells the
  packages apart the order depends only on the set of packages, not on how they are listed.
- In terms of recorded durations `assignWeightedPartitions` is within Graham's factor 4/3 - 1/(3m) of every
  other split of the same files, negative weights counting as nothing there, and no better factor holds for
  any m; its heap gives the loads a full scan would; within a partition durations never rise; it leaves no
  partition empty exactly when there are at least m files and at least m - 1 of non-negative weight.
- On an image whose segment commands are whole, injection succeeds if and only if no command loads the dylib,
  at least 8 bytes follow the commands, the place of the command is zero but for a stranded copy, every later
  segment leaves its 72 bytes, and the counts can grow; the first condition that fails decides the error.
  Injecting the command and removing it again gives the file back, with only a stranded copy scrubbed, if and
  only if the file has room for the whole command: on a file that ends sooner and has no later segment,
  injection reports success after writing a truncated command. A second injection answers `already` if and
  only if the name and its NUL were written, and otherwise fails.
- The presence check answers `missing` only where absence is derivable for members as they are written, and
  `found` only where presence is, unless the path passes a `keyof`: it looks through that operator, so it
  finds `m.a` in `interface Config { m: keyof { a: number } }`. On declarations free of indexed access a
  definite answer is right exactly when the lookup that gives `keyof` no members gives it too. Written means
  source text, quotes included: the answers hold of names where properties are written like their names, but a
  member that a type must quote, such as `'max-tokens'`, is reported missing although it is declared.
- A key the schema walk prints always reads back as its path. In a config type that declares the schema it is
  found exactly when every member on that path is spelled without quotes, and reported missing exactly when
  the path is lost: for an object, where some member on it is spelled otherwise; for an intersection or a
  union, where every part loses it. Intersections, unions and members quoted elsewhere included. The walk
  reports a violation exactly when some path through the schema ends at an array or at no schema object.
- Sharing `seen` between siblings only ever turns the answer they would get on their own into `unknown`. That
  answer is `found` or `missing` exactly when presence or absence is derivable as the check reads types, on
  declarations free of indexed access; the shared one is too where no declaration is entered twice. The check
  ends on every such declaration, however recursive; `type A = A['x']` makes it recurse without end.
- In every interleaving `mapConcurrent` claims each index once and never exceeds its jobs. A run without
  rejections can stop only with the pool resolved, and then, with a job and no undefined value, every index
  has its result. With undefined values it stops early, after as many of them as it has workers; the exact
  prefix it serves is proved.
- No file change is lost by the rebuild watcher, one rebuild runs at a time, and once edits stop it is idle
  after at most four more events, the last change rebuilt.
- A destination printed in link or image shape is located exactly if and only if the label's brackets are
  balanced or escaped and the destination is well formed. A code span holding a bracket, which CommonMark
  allows in a label, is therefore refused.
- `parseJsDoc` lays out exactly the prose before the first tag, with all of its words: every hyphen item and
  every paragraph is a line of its own, items of a list one below the other, all else a blank line apart. Its
  links come out as if rewritten on a single line, wherever lines and paragraphs break, if and only if none
  vanishes: a link that holds nothing but a paragraph break does, and takes two words with it.
- `markdownProseLines` keeps exactly the lines outside code blocks that no comment touches or that show a
  character outside all comments, wherever comments begin and end.

## Model

| member | source | states |
|---|---|---|
| PackageGraph.SinkCycleExists | scripts/package-graph.ts:76-81 | A nonempty graph in which every package depends on some package still there has a cyclic component that depends on nothing outside itself. |
| Components.PushKeeps | scripts/package-graph.ts:103-108 | Discovering a package keeps the search invariant: stack entries reach later ones and a running visit, finished components are whole and closed, nothing escapes a finished package. |
| Components.RetireKeeps | scripts/package-graph.ts:119 | A visit that ends with a low link below its index leaves its package on the stack without breaking the invariant. |
| Components.TopIsComponent | scripts/package-graph.ts:119-131 | When a visit's low link is its own index, the stack from its package up is exactly one strongly connected component. |
| Components.CloseKeeps | scripts/package-graph.ts:119-132 | Moving that component off the stack keeps the invariant. |
| SinkCycles.Search.Enter | scripts/package-graph.ts:103-108 | Numbers the package with the next index, sets its low link to it, pushes it, keeps the invariant. |
| SinkCycles.Search.PopOne | scripts/package-graph.ts:120-122 | The stack is never empty when popped, so the throw beside the pop is dead. |
| SinkCycles.Search.Pop | scripts/package-graph.ts:120-131 | Pops exactly the entries from the active package up, each once. |
| SinkCycles.Search.Follow | scripts/package-graph.ts:109-118 | Scanning one dependency keeps the low link attained by an entry in reach and bounded by every stacked dependency seen; both low links it reads are there, so the lookup's throw is dead. |
| SinkCycles.Search.Finish | scripts/package-graph.ts:119-133 | Closes the component or leaves the package to a lower one, as the low link says. |
| SinkCycles.Search.Visit | scripts/package-graph.ts:102-133 | A visit discovers its package and everything below it; either the stack is as before, or the package stays on it and reaches the entry its low link numbers. |
| SinkCycles.FindComponents | scripts/package-graph.ts:135-137 | The components collected are exactly the strongly connected components of the graph, each once, whatever order packages are visited in. |
| SinkCycles.SinksExactly | scripts/package-graph.ts:138-143 | The filter's test on a component holds exactly when it has a cycle and no edge to a remaining package outside it. |
| SinkCycles.FindSinkCycles | scripts/package-graph.ts:94-144 | Returns exactly the cyclic components without edges leaving them, each once. |
| TopoSort.ByConsistent | scripts/package-graph.ts:152-158 | Group rank, then group, then short name is a consistent order whenever the collation is. |
| TopoSort.CheckPeers | scripts/package-graph.ts:62-68 | Reports the first absent dependency in listing order, and reports none exactly when all are present. |
| TopoSort.CyclesExist | scripts/package-graph.ts:77-80 | When nothing is ready and packages remain, some sink cycle is found, so the "could not order" throw is dead. |
| TopoSort.FirstCycleIsBatch | scripts/package-graph.ts:77-79 | The first of the sorted cycles is the sorted sink cycle whose least package is least. |
| TopoSort.NextBatch | scripts/package-graph.ts:73-82 | Each round takes every ready package in order, or else that first sink cycle. |
| TopoSort.Place | scripts/package-graph.ts:83-87 | Placing a batch appends it, removes exactly it from what remains, and keeps placed and remaining a partition of the packages. |
| TopoSort.TopoSort | scripts/package-graph.ts:60-90 | Always ends: with the first missing peer, or with an order built batch by batch from all packages. |
| TopoSort.LayeredComplete | scripts/package-graph.ts:69-89 | Such an order lists every package exactly once. |
| TopoSort.OrderPermutes | scripts/package-graph.ts:60-90 | With distinct short names the output is a permutation of the input. |
| TopoSort.DependenciesFirst | scripts/package-graph.ts:72-88 | Whatever a package reaches through dependencies stands before it, unless the two reach each other. |
| TopoSort.CyclesTogether | scripts/package-graph.ts:76-86 | Between two packages that reach each other stand only packages of the same cycle. |
| TopoSort.LayeredUnique | scripts/package-graph.ts:72-88 | Under a comparator without ties there is only one such order. |
| RoundOrder.ComparesExactly | scripts/package-graph.ts:152-158 | The comparator puts a package before another exactly if its group is listed and the other later or not, or the groups are level and the collation of groups, then of short names, allows it; it ties exactly what the collation ties. |
| RoundOrder.LayeredRounds | scripts/package-graph.ts:69-89 | Every order given is a sequence of rounds, each in that order: the packages that wait for nothing left, or else a sink cycle whose head may stand before every package of every sink cycle. |
| Sorting.SortStable | scripts/package-graph.ts:75 | Packages the comparator ties are left in the order they had. |
| TopoSort.LastFiled | scripts/package-graph.ts:61 | Of several packages with one short name the last is filed. |
| TopoSort.InputOrderIrrelevant | scripts/package-graph.ts:60-90 | Listing the same packages in another order gives the same sorted result when the comparator has no ties among them; a missing peer is still the first in listing order. |
| CoveragePartitions.SwapSifts | scripts/coverage-partitions.ts:351-357 | Swapping a heap entry with its smaller child moves the only disorder to that child. |
| CoveragePartitions.SiftDown | scripts/coverage-partitions.ts:331-359 | From a heap disordered only at the start, restores the heap order and keeps it a permutation of the bucket indices. |
| CoveragePartitions.RootLeanest | scripts/coverage-partitions.ts:319-321 | The heap's root is a bucket of least weight, then least files, among all. |
| CoveragePartitions.PlaceJob | scripts/coverage-partitions.ts:319-325 | Adds the file and its weight to that bucket alone and leaves a heap again. |
| CoveragePartitions.PlaceAll | scripts/coverage-partitions.ts:318-326 | The buckets hold what a greedy schedule of the sorted files puts in them. |
| CoveragePartitions.AssignWeightedPartitions | scripts/coverage-partitions.ts:305-328 | Returns the partitions of a greedy schedule of the files by weight, heaviest first; fails only without partitions for some file. |
| Schedules.HeavyLastJob | scripts/coverage-partitions.ts:318-326 | If the last job of a bucket weighs over a third of the optimum, the bucket does not exceed the optimum. |
| Schedules.GrahamBound | scripts/coverage-partitions.ts:305-328 | Every bucket of a heaviest-first greedy schedule is within 4/3 - 1/(3m) of the fullest bucket of any schedule. |
| Schedules.GrahamTight | scripts/coverage-partitions.ts:305-328 | For every number of buckets that factor is attained: some 2m + 1 jobs fit in 3m each, and greedy reaches 4m - 1. |
| Schedules.ClippedBound | scripts/coverage-partitions.ts:305-328 | With weights of any sign the bound holds against every schedule in which negative weights count as nothing. |
| Schedules.NegativesCancel | scripts/coverage-partitions.ts:305-328 | Counted as they are they may cancel a heavy file, and then it fails: 3, 1 and -100 in two buckets. |
| Schedules.GreedyBalancesAlike | scripts/coverage-partitions.ts:315-317 | However ties between leanest buckets are broken, the same weights and file counts come out. |
| Schedules.LinearScanGreedy | scripts/coverage-partitions.ts:302 | Scanning all buckets for the leanest at each step is a greedy schedule. |
| FilledBuckets.FilledExactly | scripts/coverage-partitions.ts:494-502 | A greedy heaviest-first schedule leaves no bucket empty exactly when there are at least m jobs and the first m - 1 are not negative. |
| PartitionGuarantees.FilesConserved | scripts/coverage-partitions.ts:305-328 | The partitions hold exactly the given files, as often as given. |
| PartitionGuarantees.SplitIsSchedule | scripts/coverage-partitions.ts:305-328 | Any split of the same files into m lists is a schedule of the same jobs with the same weights. |
| PartitionGuarantees.WithinGrahamFactor | scripts/coverage-partitions.ts:305-328 | Whatever the weights, no partition outweighs the heaviest of any other split of the files, negative weights counting as nothing there, by more than 4/3 - 1/(3m). |
| PartitionGuarantees.WithinFactorOfAny | scripts/coverage-partitions.ts:305-328 | Where no file has a negative weight, no partition outweighs the heaviest of any other split of the files by more than 4/3 - 1/(3m). |
| PartitionGuarantees.HeapMatchesScan | scripts/coverage-partitions.ts:315-326 | The weights and file counts are those of the scan over all buckets. |
| PartitionGuarantees.NoEmptyPartition | scripts/coverage-partitions.ts:494-502 | The refusal of an empty partition never fires exactly when at least m files are given and at least m - 1 of them have a non-negative weight. |
| PartitionDurations.WithinFactorByDuration | scripts/coverage-partitions.ts:305-328 | For any function that gives recorded files their durations and others 1, no partition lasts longer than the longest of any other split, negative durations counting as nothing there, by more than 4/3 - 1/(3m). |
| PartitionDurations.WithinFactorInFull | scripts/coverage-partitions.ts:305-328 | Where no file has a negative duration, the other split counts in full. |
| PartitionDurations.ScanByDuration | scripts/coverage-partitions.ts:305-328 | The durations and file counts are those of the scan over all buckets, the files taken longest first. |
| PartitionDurations.NoneEmptyByDuration | scripts/coverage-partitions.ts:494-502 | No partition is empty exactly when there are at least m files, at least m - 1 of which do not last a negative time. |
| PartitionDurations.NeverLonger | scripts/coverage-partitions.ts:311-313 | Within a partition files never get longer, and files that last as long stand by name. |
| OutputTail.TailIsLast | scripts/coverage-partitions.ts:659-662 | However output is cut into chunks, the tail kept is a suffix of the whole, of its length up to 65536 characters and of 65536 beyond. |
| UnlockGuarantees.UnlockCommandIsUnlock | scripts/colaw-webview-unlock.ts:107-115 | The bytes built are one well-formed load command that the scan recognizes as the unlock command. |
| UnlockGuarantees.NamesUnlockExactly | scripts/colaw-webview-unlock.ts:98-100 | A payload is recognized exactly when it starts with the install name and a NUL. |
| UnlockGuarantees.AlreadyExactly | scripts/colaw-webview-unlock.ts:88-129 | Injection answers `already` exactly when some command loads the dylib. |
| UnlockGuarantees.SlackImage | scripts/colaw-webview-unlock.ts:155-167 | Although offsets above 2^53 are rounded, an amount of slack is measured only if every file-backed segment after the commands leaves it, and always then if segment commands are whole. |
| InjectGuarantees.MeasuresExactly | scripts/colaw-webview-unlock.ts:155-166 | The slack is measured exactly if the fields of every segment command are in range, and is at least some amount exactly if no later file-backed segment begins within it. |
| InjectGuarantees.InjectVerdict | scripts/colaw-webview-unlock.ts:123-175 | On any well-formed image injection succeeds if every condition holds, and the first that fails decides the error. |
| InjectGuarantees.InjectsExactly | scripts/colaw-webview-unlock.ts:123-175 | With whole segment commands it succeeds if and only if no command loads the dylib, 8 bytes of rest are there, a stranded copy is in range and all else in the place is zero, later segments leave 72 bytes, and the counts can grow. |
| InjectGuarantees.UnlockCommandLayout | scripts/colaw-webview-unlock.ts:107-115 | The bytes injected, field by field: the name stands where its offset field says, ended by a NUL and padded with zeros. |
| InjectGuarantees.StrandedExactly | scripts/colaw-webview-unlock.ts:139-147 | What stands after the commands is scrubbed exactly if it is a command of at most 4096 bytes that loads the dylib, and nothing else is. |
| InjectGuarantees.CopyScrubbed | scripts/colaw-webview-unlock.ts:134-147 | So a stranded copy of ours is. |
| UnlockGuarantees.InjectAppends | scripts/colaw-webview-unlock.ts:123-175 | A successful injection with room for the command keeps every old command's bytes and place, ends the commands with ours, makes the counts agree, zeroes only a stranded copy, overlaps no later segment and changes nothing else. |
| UnlockGuarantees.InjectTwice | scripts/colaw-webview-unlock.ts:128-129 | After a successful injection a second one answers `already` if and only if the file had room for the name and its NUL; otherwise it fails as out of range. |
| UnlockGuarantees.RemoveDeletes | scripts/colaw-webview-unlock.ts:222-258 | Removal deletes the last unlock command wherever it stands, keeps the others in order, zeroes exactly the vacated bytes, changes nothing else. |
| UnlockGuarantees.RemoveAbsent | scripts/colaw-webview-unlock.ts:229-243 | Without an unlock command removal answers `absent`. |
| UnlockGuarantees.InjectThenRemove | scripts/colaw-webview-unlock.ts:217-258 | With room, removal after injection gives the original file with only a stranded copy zeroed. |
| UnlockGuarantees.RemoveThenInject | scripts/colaw-webview-unlock.ts:123-175 | Injecting again after removing our own last command restores the file, if it injects. |
| UnlockGuarantees.InjectTruncates | scripts/colaw-webview-unlock.ts:153-174 | With less room than the command and no segment after it, injection still succeeds and writes only the part that fits. |
| UnlockGuarantees.TruncatedStays | scripts/colaw-webview-unlock.ts:222-258 | Removal never restores a file so truncated. |
| UnlockGuarantees.UndoneExactly | scripts/colaw-webview-unlock.ts:217-258 | Where injection succeeds, removal gives the file back, a stranded copy scrubbed, if and only if it had room for the whole command. |
| UnlockGuarantees.TruncatedFile | scripts/colaw-webview-unlock.ts:153-174 | A concrete file on which injection succeeds and removal does not undo it. |
| WebviewUnlock.Fill | scripts/colaw-webview-unlock.ts:145 | Zeroes exactly the range. |
| WebviewUnlock.CopyInto | scripts/colaw-webview-unlock.ts:170 | Overwrites from the offset, dropping what does not fit. |
| WebviewUnlock.MoveDown | scripts/colaw-webview-unlock.ts:253 | Moves an overlapping range towards the front without corrupting it. |
| WebviewUnlock.WriteCounts | scripts/colaw-webview-unlock.ts:171-172 | Writes both counts little-endian and nothing else. |
| WebviewUnlock.ScanCommands | scripts/colaw-webview-unlock.ts:93-106 | The loop over the buffer finds what the scan over its contents does, or where it ends. |
| WebviewUnlock.FindCommand | scripts/colaw-webview-unlock.ts:229-242 | The loop finds the last unlock command. |
| WebviewUnlock.MeasureSlack | scripts/colaw-webview-unlock.ts:155-166 | The loop measures the room before the first later segment, with offsets rounded to doubles as the script reads them. |
| Numbers.NumberNearest | scripts/colaw-webview-unlock.ts:160-161 | A 64-bit field is rounded to the nearest double, ties to even. |
| WebviewUnlock.ScrubOrphan | scripts/colaw-webview-unlock.ts:139-148 | Zeroes exactly a stranded copy of our command after the commands. |
| WebviewUnlock.EditBuffer | scripts/colaw-webview-unlock.ts:139-172 | Edits the buffer in place into the injected contents, or fails. |
| WebviewUnlock.InjectLoadCommand | scripts/colaw-webview-unlock.ts:123-175 | The file holds the injected contents on success and is untouched otherwise. |
| WebviewUnlock.CutCommand | scripts/colaw-webview-unlock.ts:244-254 | Cuts one command out of the buffer in place. |
| WebviewUnlock.RemoveUnlockLoadCommand | scripts/colaw-webview-unlock.ts:222-258 | The file holds the contents with the command removed, or is untouched. |
| ConfigLookup.TypeDerives | scripts/gen-config-catalog.ts:393-479 | A definite answer is derivable as the check reads types: members by their source text, every type operator looked through. |
| ConfigLookup.ReferenceAnswers | scripts/gen-config-catalog.ts:464-473 | A reference to Partial, Required, Readonly or NonNullable answers as its argument, one to an array type as its element after an element step, and the arguments of no other name matter. |
| ConfigTypes.FindsFirst | scripts/gen-config-catalog.ts:411-418 | The property found is the first one called so, and there is none only where no property is. |
| ConfigLookup.TypeExclusive | scripts/gen-config-catalog.ts:385-392 | No path is derivably present and derivably absent. |
| ConfigKeyof.DeclSound | scripts/gen-config-catalog.ts:393-437 | On a declaration `missing` implies that the absence of a member written so is derivable, and `found` its presence where the path passes no `keyof`; as written, `keyof` has no members. |
| ConfigKeyof.TypeSound | scripts/gen-config-catalog.ts:438-479 | The same on every form of type. |
| ConfigKeyof.TypeCompare | scripts/gen-config-catalog.ts:456 | What is there as written is there as the check reads it, what is absent as the check reads it is absent as written, and both readings agree where the path passes no `keyof`. |
| ConfigKeyof.KeyofNeverRight | scripts/gen-config-catalog.ts:456 | Whatever is found in a type is found under `keyof` too, and is never there. |
| ConfigKeyof.KeyofFound | scripts/gen-config-catalog.ts:456 | A concrete config and printed key, `m.a`, for which the check answers `found` though there is no such member. |
| ConfigNames.NamedSound | scripts/gen-config-catalog.ts:412-418 | Where no property is written like a name of the path without being called so, or the reverse, `missing` holds of the members declared by name, and so does `found` where the path passes no `keyof`. |
| ConfigNames.ObjectRightExactly | scripts/gen-config-catalog.ts:412-418 | On one object the answer about a name is right exactly when a property is called so if and only if one is written so. |
| ConfigTermination.AlwaysAnswers | scripts/gen-config-catalog.ts:395-402 | On declarations without indexed access, however recursive, the check answers. |
| ConfigTermination.TypeSteady | scripts/gen-config-catalog.ts:393-479 | More stack never changes an answer. |
| ConfigSharing.SharingOnlyWeakens | scripts/gen-config-catalog.ts:399-401 | The shared answer is `unknown` or the answer each sibling would get knowing only what lies above it. |
| ConfigSharing.OnceIsExact | scripts/gen-config-catalog.ts:393-479 | Where no declaration is entered twice with as many steps left, the answer is `found` exactly when the member is derivable and `missing` exactly when its absence is, as the check reads types, and as they are written where the path passes no `keyof`; indexed access or not. |
| ConfigSharing.OwnIsExact | scripts/gen-config-catalog.ts:393-479 | Without sharing that holds on all declarations free of indexed access, for the lookup that looks through `keyof` and, as types are written, for the one that does not. |
| ConfigSharing.RightExactly | scripts/gen-config-catalog.ts:456 | On such declarations a definite answer of the script is right, as types are written, exactly when the lookup that does not look through `keyof` gives it too, and `missing` always is. |
| ConfigSharing.SharingToBlame | scripts/gen-config-catalog.ts:395-402 | There, given stack enough, both always answer, and where something is derivable and the script says `unknown`, sharing is the reason. |
| ConfigSharing.DiamondIsUnknown | scripts/gen-config-catalog.ts:424-435 | It happens: an interface that reaches a base twice gets `unknown` for an absent member. |
| ConfigSharing.DefiniteAnswersAgree | scripts/gen-config-catalog.ts:399-401 | Two definite answers agree, whatever was entered before either. |
| ConfigSharing.EnteredMoreAnswersMore | scripts/gen-config-catalog.ts:399-401 | Having entered more may even turn `unknown` into `found`: a concrete pair of aliases. |
| ConfigTermination.SelfIndexOverflows | scripts/gen-config-catalog.ts:457-461 | `type A = A['x']` lengthens the path on every turn and never answers. |
| KeyPaths.StripArrays | scripts/gen-config-catalog.ts:302-307 | Strips and counts the trailing bracket pairs. |
| KeyPaths.ParsePath | scripts/gen-config-catalog.ts:299-312 | The loops compute the steps a path denotes. |
| KeyPaths.ReadsBackExactly | scripts/gen-config-catalog.ts:298-312 | A printed path parses back to its steps exactly when every key is free of dots and does not end in `[]`. |
| SchemaKeys.CollectWrites | scripts/gen-config-catalog.ts:510-529 | Below a value the walk prints its members, each once, in order. |
| SchemaKeys.VisitWrites | scripts/gen-config-catalog.ts:530-592 | From the top too, through refinements, intersections and unions. |
| SchemaWalk.Walker.CollectValuePaths | scripts/gen-config-catalog.ts:510-529 | Pushes exactly those keys onto the list. |
| SchemaWalk.Walker.Visit | scripts/gen-config-catalog.ts:530-592 | Pushes exactly those keys, and reports a violation exactly when some path through intersections, unions and refinements ends at an array or at no schema object. |
| SchemaKeys.WalkableExactly | scripts/gen-config-catalog.ts:530-592 | The whole schema can be walked exactly if no such path leads out of sight. |
| SchemaAgreement.PrintedReadsBack | scripts/gen-config-catalog.ts:498-595 | Every printed key reads back as the member path it was printed for. |
| SchemaAgreement.AnswersExactly | scripts/gen-config-catalog.ts:393-479 | On a mirror of the schema the check always answers, `found` exactly when every member on the path is spelled as the schema names it, `missing` exactly when the path is lost; intersections and unions included. |
| SchemaAgreement.SpelledNotLost | scripts/gen-config-catalog.ts:393-479 | Where the whole mirror is spelled so, no printed member is lost, even where a union decides. |
| SchemaAgreement.ValueLost | scripts/gen-config-catalog.ts:393-479 | Below an object a member is lost exactly when some member on its path is spelled otherwise. |
| SchemaAgreement.PrintedKeysAgree | scripts/gen-config-catalog.ts:498-595 | On a type that mirrors any schema a printed key is found exactly when every member on its path is spelled so and missing exactly when the path is lost; where the whole mirror is spelled so, it is never `missing`, and `found` without unions. |
| SchemaAgreement.ReportedExactly | scripts/gen-config-catalog.ts:848-861 | From the config declaration, an alias or an interface, a printed key of any schema is reported exactly when its path is lost, although the type declares it, and found exactly when every member on it is spelled so; for an object one or the other holds. |
| SchemaAgreement.QuotedKeyMissing | scripts/gen-config-catalog.ts:412-418 | Any key that both sides write as a string literal with quotes is declared by the type and answered `missing`. |
| SchemaAgreement.MaxTokensReported | scripts/gen-config-catalog.ts:412-418 | A concrete one: `max-tokens`. |
| SchemaAgreement.DroppedKeyNoticed | scripts/gen-config-catalog.ts:393-479 | If the mirror of an object schema loses the member of a printed key, looking that key up is `missing`. |
| ReExports.FindExportedTypeDecl | scripts/gen-config-catalog.ts:323-345 | The loop over export statements with a shared `seen` computes the search, which throws at the first file that cannot be loaded. |
| ReExports.LooksForExactly | scripts/gen-config-catalog.ts:331-339 | `export *` keeps the name, `export { name as exported }` asks for `name`, by the first specifier of that exported name. |
| ReExports.AnswerIsReached | scripts/gen-config-catalog.ts:327-342 | What the search returns is declared where a chain of re-exports leads, and a file it cannot load is one such a chain leads to. |
| ReExports.MissExhausts | scripts/gen-config-catalog.ts:324-344 | After a miss everything entered was loaded and has been followed to its end. |
| ReExports.FindsExactly | scripts/gen-config-catalog.ts:321-345 | The search misses exactly when every chain of re-exports stays among files that load and declare nothing; a hit is declared at the end of a chain, a failure is over a file at the end of one. Cycles do not matter. |
| ReExports.FindsWhenLoadable | scripts/gen-config-catalog.ts:321-345 | When every re-exported file loads, a declaration is found exactly when some chain leads to one. |
| MapConcurrent.StepKeeps | scripts/benchmark-next-package-dependency.ts:189-197 | Every step of any worker keeps the accounting: each claimed index is held by one worker or has its result. |
| MapConcurrent.RunKeeps | scripts/benchmark-next-package-dependency.ts:182-199 | It holds at every point of every run. |
| MapConcurrent.NeverOverlaps | scripts/benchmark-next-package-dependency.ts:189-195 | At most `jobs` operations are in flight, no two on one index. |
| MapConcurrent.ResultsExactly | scripts/benchmark-next-package-dependency.ts:190-198 | A resolved pool has the results of exactly the values before the point where its workers run out on undefined ones. |
| MapConcurrent.AllResults | scripts/benchmark-next-package-dependency.ts:182-199 | With a job and no undefined value, every index has the result for its value. |
| MapConcurrent.RunsEnd | scripts/benchmark-next-package-dependency.ts:190-196 | A run takes at most two steps per value and one per worker. |
| MapConcurrent.NeverStuck | scripts/benchmark-next-package-dependency.ts:189-197 | Until every worker is over, one can claim or has an operation that may resolve. |
| MapConcurrent.StopsResolved | scripts/benchmark-next-package-dependency.ts:182-199 | A run without rejections can go no further exactly when the pool has resolved. |
| MapConcurrent.Completes | scripts/benchmark-next-package-dependency.ts:182-199 | Every run without rejections goes on, within the bound, to a resolved pool with the result of every value, given a job and no undefined value. |
| DevShell.Watcher.ScheduleRestart | scripts/dev-shell.ts:115-121 | Cancels the armed timer and arms one anew. |
| DevShell.Watcher.OnTimer | scripts/dev-shell.ts:117-120 | Disarms and requests a rebuild. |
| DevShell.Watcher.RequestRestart | scripts/dev-shell.ts:96-102 | Starts a rebuild, or remembers the request while one runs. |
| DevShell.Watcher.OnSettled | scripts/dev-shell.ts:104-110 | Serves a remembered request when the rebuild settles. |
| DevShell.StepKeeps | scripts/dev-shell.ts:96-121 | Each callback keeps: at most one live timer, pending only while rebuilding, one rebuild at a time, no change without a later rebuild started or owed. |
| DevShell.RunKeeps | scripts/dev-shell.ts:96-121 | So after any events. |
| DevShell.OneRebuildAtATime | scripts/dev-shell.ts:97-101 | At every moment of a run no rebuild or one is under way, and one is while a request waits. |
| DevShell.IdleIsCurrent | scripts/dev-shell.ts:104-110 | When idle, every change was followed by a rebuild that started after it and settled. |
| DevShell.BurstsCollapse | scripts/dev-shell.ts:95-100 | Until a rebuild settles no further one starts, and rebuilds never outnumber timer fires, nor those changes. |
| DevShell.EditsSettle | scripts/dev-shell.ts:104-120 | After the last change at most four events remain, and nothing can happen exactly when idle. |
| BalancedText.Pass | scripts/markdown.ts:94-102 | The depth-counting scan passes over balanced or escaped text, at any depth. |
| BalancedText.Passed | scripts/markdown.ts:127-138 | What a scan that stopped went over is balanced text, level by level. |
| BalancedText.StopsExactly | scripts/markdown.ts:127-138 | The scan stops exactly at the end of a text if and only if the text is balanced. |
| BalancedText.RunsOutExactly | scripts/markdown.ts:127-139 | At the end of the source the scan passes a text whole exactly when it can be completed to a balanced one. |
| MarkdownDestinations.LabelEnd | scripts/markdown.ts:90-104 | The loop finds the bracket that closes the first one. |
| MarkdownDestinations.AngleRange | scripts/markdown.ts:120-126 | The loop finds the first closing angle bracket that is not escaped, or fails. |
| MarkdownDestinations.BareRange | scripts/markdown.ts:127-139 | The loop finds the end of a bare destination. |
| MarkdownDestinations.DestinationRange | scripts/markdown.ts:106-140 | The range, or the error of the step that fails. |
| MarkdownDestinations.LabelFound | scripts/markdown.ts:90-104 | The label ends where it was printed to end exactly when its brackets are balanced or escaped. |
| MarkdownDestinations.InlineExact | scripts/markdown.ts:106-140 | A destination printed in link or image shape, bare or in angle brackets, with any title, is located exactly if and only if the label is balanced and the destination well formed. |
| MarkdownDestinations.DefinitionExact | scripts/markdown.ts:110-113 | In a definition with a balanced label it is located exactly if and only if it is well formed; where the source ends with a bare one, if and only if some balanced text begins with it. |
| MarkdownDestinations.CodeSpanRefused | scripts/markdown.ts:94-102 | A link whose label is a code span holding a bracket is refused. |
| CommentedLines.RangesOf | scripts/markdown.ts:220-233 | The loop collects the line's part of every comment that touches it. |
| CommentedLines.TouchesExactly | scripts/markdown.ts:223-227 | A comment touches a line exactly if it covers a character of it, or the line break of an empty one. |
| CommentedLines.RangesExactly | scripts/markdown.ts:220-233 | They cover exactly the columns comments cover, and there are some exactly when a comment touches the line. |
| CommentedLines.VisibleText | scripts/markdown.ts:240-246 | The text kept is exactly the characters no range covers, overlapping or nested ranges included. |
| CommentedLines.HasRenderedTextOutsideComments | scripts/markdown.ts:238-248 | True exactly without ranges or when an uncovered character is not whitespace. |
| CommentedLines.KeepsLine | scripts/markdown.ts:218-248 | On one line, the ranges collected leave a character that is not whitespace, or there are none, exactly when no comment touches the line or a character none covers is not whitespace. |
| HtmlComments.FindIn | scripts/markdown.ts:206-215 | The loop over one HTML node collects its comments as source ranges. |
| HtmlComments.FindComments | scripts/markdown.ts:203-216 | All comments of all HTML nodes, in order. |
| HtmlComments.FindsExactly | scripts/markdown.ts:206-215 | On text made of comments with anything but a comment opening between them the ranges are exactly the comments, the last closed or not. |
| HtmlComments.TakesApart | scripts/markdown.ts:206-215 | Every text is so made. |
| ProseLines.LineStands | scripts/markdown.ts:218-235 | Line by line, the offsets accumulated are where the lines of the source stand. |
| ProseLines.RangesByLine | scripts/markdown.ts:218-235 | The loop over the lines gives each line its ranges at its own offset. |
| ProseLines.MarkdownProseLines | scripts/markdown.ts:255-271 | The loops keep the prose lines, by number and in order. |
| ProseLines.ProseExactly | scripts/markdown.ts:255-271 | A line is among them exactly if it is outside code blocks and no comment covers any of it, or some character of the source on it outside all comments is not whitespace; it stands as in the source, and numbers only rise. |
| PairedMarkdown.Partition | scripts/paired-markdown-derivatives.ts:30-63 | Splits the blocks in order into those of derived documents and the rest. |
| PairedMarkdown.FindDerived | scripts/paired-markdown-derivatives.ts:43-55 | A document is derived exactly when its blocks repeat its sibling's, all and in order. |
| PairedMarkdown.SiblingExactly | scripts/paired-markdown-derivatives.ts:16-18 | The sibling of `stem.zh.md` is `stem.md`, and no other document has one. |
| PairedMarkdown.PartitionConserves | scripts/paired-markdown-derivatives.ts:57-62 | Every block goes to exactly one side. |
| PairedMarkdown.RootDocument | scripts/paired-markdown-derivatives.ts:43-55 | Following siblings ends at a document that is kept and has the same sequence of fingerprints. |
| PairedMarkdown.PrimariesCover | scripts/paired-markdown-derivatives.ts:18-29 | Every document's sequence of fingerprints survives whole in some document among the primary blocks. |
| Words.OneLine | scripts/jsdoc.ts:45 | Collapsing whitespace and trimming leaves exactly the words with one blank between two. |
| Links.UnchangedExactly | scripts/jsdoc.ts:80 | The rewriting of links leaves a text alone exactly when it holds no link; every link costs it characters that are not whitespace. |
| Links.CollapseFirst | scripts/jsdoc.ts:80 | Rewriting a text and rewriting it with whitespace collapsed agree up to whitespace if and only if no link vanishes, that is, none rewritten holds only whitespace. |
| Links.RewrittenWords | scripts/jsdoc.ts:80 | The words of a rewritten text are those of its words rewritten on one line if and only if no link vanishes. |
| Links.BlankLinkVanishes | scripts/jsdoc.ts:80 | A link that holds nothing vanishes over a paragraph break and stays on one line. |
| JsDoc.Parser.FlushItem | scripts/jsdoc.ts:46-49 | Closes the open item into the list. |
| JsDoc.Parser.FlushList | scripts/jsdoc.ts:50-54 | Closes the open list into a block with a line per item. |
| JsDoc.Parser.FlushPara | scripts/jsdoc.ts:55-59 | Closes everything open. |
| JsDoc.Parser.Take | scripts/jsdoc.ts:61-78 | One line's effect on the whole state. |
| JsDoc.ParseLines | scripts/jsdoc.ts:60-81 | The loop computes the result of taking every line. |
| JsDoc.Runs | scripts/jsdoc.ts:60-79 | From any reachable state, the blocks in the end are those done and those the layout of the remaining prose gives: paragraphs, then lists, stretch by stretch. |
| JsDocGuarantees.ParseJsDoc | scripts/jsdoc.ts:32-82 | The whole comment, from its delimiters to the result. |
| JsDocGuarantees.ProseStops | scripts/jsdoc.ts:65-66 | The prose is the lines before the first that opens with an at sign. |
| JsDocGuarantees.DocIsLayout | scripts/jsdoc.ts:24-81 | The description is the layout of the lines before the first block tag, its links rewritten, trimmed. |
| JsDocRows.LayoutIsRows | scripts/jsdoc.ts:45-79 | The blocks one below the other are the rows of the prose: hyphen lines and paragraphs with the lines that continue them, a blank line between two unless both are items of one list. |
| JsDocRows.RowStands | scripts/jsdoc.ts:66-79 | Each row is a line of its own, its words with one blank between two; what is above and below has the words of the prose before and after, ending a line or a blank line away. |
| JsDocRows.ItemsKeepTheirLines | scripts/jsdoc.ts:24-81 | So in the description of a comment, before its links are rewritten. |
| JsDocRows.DelimitersGo | scripts/jsdoc.ts:33-35 | The comment delimiters are stripped and nothing else. |
| JsDocRows.MarginGoes | scripts/jsdoc.ts:36-37 | The margin of a line is its indentation, one asterisk and one blank; trailing whitespace goes too. |
| JsDocRows.ModeExactly | scripts/jsdoc.ts:62-64 | A line names a mode exactly when it is the tag, whitespace, one of the five names, and whitespace around. |
| JsDocRows.MentionsExactly | scripts/jsdoc.ts:65 | The tag is mentioned where its name ends there. |
| JsDocRows.TagExactly | scripts/jsdoc.ts:66 | A tag line is one that opens with an at sign, however indented. |
| JsDocGuarantees.JoinIsOneLine | scripts/jsdoc.ts:45 | A paragraph or item is one line with the words of its lines. |
| JsDocGuarantees.WordsConserved | scripts/jsdoc.ts:32-82 | The layout has the words of the comment before its first block tag, in order; the description has them as rewriting links on one line leaves them if and only if no link of the layout vanishes, and unchanged if and only if it has no link. |
| JsDocGuarantees.VanishingComment | scripts/jsdoc.ts:32-82 | A concrete comment whose only link vanishes: its description is empty, though its two words would stay on one line. |
| JsDocGuarantees.LastModeWins | scripts/jsdoc.ts:62-64 | The last line naming a mode decides it, and a mode is noticed exactly when some line mentions one. |
| Decimals.ParseDecimal | scripts/benchmark-npm-resolution.ts:159 | A number written in decimal is read back, whatever follows that is no digit. |
| Decimals.PositiveExactly | scripts/benchmark-npm-resolution.ts:96-103 | The option accepts exactly the canonical decimals of the positive safe integers. |
| GitBatch.ReadGitFiles | scripts/benchmark-npm-resolution.ts:145-169 | The loop reads one object per path, or fails as the first bad one does. |
| GitBatch.FailsAt | scripts/benchmark-npm-resolution.ts:153-164 | Behind a header line, a header that says missing, one without a size, or content cut short give each their own error. |
| GitBatch.ReadsExactly | scripts/benchmark-npm-resolution.ts:152-168 | Reading succeeds exactly when the output begins with one sound frame per path, returns their contents, whatever bytes they hold, and ends right behind them: at the end of the output exactly when it is those frames alone. |
| GitBatch.FilesByPath | scripts/benchmark-npm-resolution.ts:151-165 | With no path twice, each path gets its own frame's content and no other key appears. |
| GitBatch.GitFrameSound | scripts/benchmark-npm-resolution.ts:157-162 | A frame with git's own header for its content is sound exactly up to the largest safe size. |
| ArtifactDigest.ClientArtifactDigest | scripts/client-build-environment.ts:331-347 | Feeds each artifact in sorted order and fails without artifacts. |
| ArtifactDigest.PreimageIsFramed | scripts/client-build-environment.ts:338-345 | The bytes fed are length-prefixed fields, path and content in turn. |
| ArtifactDigest.FramedAllUnique | scripts/client-build-environment.ts:341-344 | Such bytes can be taken apart in only one way, however many fields there are. |
| ArtifactDigest.AcceptsExactly | scripts/client-build-environment.ts:302-328 | With an injective hash a record is accepted exactly when the artifacts and their contents are the recorded ones, in whatever order they are listed. |
| Candidates.Explore | scripts/benchmark-next-package-dependency.ts:140-158 | The queue reaches exactly the packages with a manifest connected to the target through dependencies, optional dependencies and required peers; it ends on cycles. |
| Candidates.DiscoverBenchmarkCandidates | scripts/benchmark-next-package-dependency.ts:134-165 | The result is sorted, without repetition, and holds exactly the reached release packages outside the policy with a peer other than cordis. |
| BuildOutputs.BuildOutputDirectories | scripts/clean.ts:120-154 | Succeeds exactly when every config references lead to is acceptable; then returns exactly the outputs of the configs reached, all inside the repository; otherwise the error is that of a config it came to. |
| BuildOutputs.OutputExactly | scripts/clean.ts:133-144 | What is deleted for a config is the parent of its `types` directory, or the native entry output itself, if it lies below the root; the error tells what fails. |
| SessionMigrations.Aligned | scripts/gen-session-format-catalog.ts:125-135 | Sorted, one per version and none beyond, the declarations stand at their own versions. |
| SessionMigrations.NoneBeyond | scripts/gen-session-format-catalog.ts:126-135 | One per version and as many as versions leave none beyond, so the search for an extra one decides nothing. |
| SessionMigrations.Collect | scripts/gen-session-format-catalog.ts:82-170 | Accepts exactly when some order of the declarations is a chain from 0 to the current version with continuous codecs and declared dependencies, and returns that chain. |
| PackageNames.NearestSpeaks | scripts/bundle-input-isolation.ts:70-81 | The uncached walk answers from the nearest ancestor whose manifest names a package or does not parse. |
| PackageNames.BundleInputIsolation.Reset | scripts/bundle-input-isolation.ts:18-19 | After a reset no remembered answer can be stale. |
| PackageNames.BundleInputIsolation.PackageName | scripts/bundle-input-isolation.ts:70-81 | Whatever was asked before, the memoised answer is the uncached one, and every remembered answer stays right. |

## Left out

- Input and output: files, git, npm, clang, codesign, globbing and subprocesses are parameters or absent; a file is a buffer of bytes, a tree a map.
- Parsers of TypeScript, Markdown and JSON are not modelled: their syntax trees are datatypes. HTML nodes come with their text and offset.
- Strings are sequences of characters, offsets count characters, and text outside the Basic Multilingual Plane is not measured in UTF-16 units; paths and contents in the digest and the git batch are strings of bytes, without decoding.
- `localeCompare` and the default `sort` are comparator parameters, assumed consistent, and tie-free where a lemma says so.
- The group order is no longer than a JavaScript array can be.
- Weights are real numbers; rounding of floating-point sums is not modelled.
- TopoSort.InputOrderIrrelevant: among packages the comparator ties, listing order decides, and so it does which missing peer is reported.
- PartitionGuarantees.WithinGrahamFactor: with negative weights counted in full on the other side it is false, as Schedules.NegativesCancel shows; which weights then still satisfy it is not characterized.
- UnlockGuarantees.InjectAppends: says nothing about sections inside a segment, which the script does not read.
- ConfigTermination.AlwaysAnswers: covers declarations without indexed access; with it the check may or may not end, and only the divergence of a self-indexing alias is proved.
- ConfigKeyof.TypeSound: interfaces that merge are not modelled. The script looks only at the first declaration of a name in a file (lines 137-143), so it may answer `missing` for a member that another one of several merged interfaces declares.
- ConfigTypes bounds the recursion by a stack depth; every result about answers holds for all depths.
- SchemaAgreement.PrintedKeysAgree: schemas are trees, so schema aliases and composed configs of other packages (`foldComposed`) are not followed; and it speaks of paths on which no property is written like another member's key, which only a computed or oddly escaped name could be.
- MapConcurrent.NeverOverlaps: workers are atomic between awaits, as on one JavaScript thread.
- DevShell.EditsSettle: speaks of what happens after the last change; continuous edits can postpone the timer for ever.
- MarkdownDestinations.DefinitionExact: assumes a balanced label, because in a definition the separator search can reach the right colon past a label end found too early; CommonMark admits no unescaped brackets in such labels anyway.
- SessionMigrations.Collect: starts once each manifest's fields have been read; the checks of package name, directory and metadata spelling, and of the session package's own dependency kinds, are not modelled.
- BuildOutputs.BuildOutputDirectories: the rest of the cleaner's plan, and deletion, are not modelled.
- ArtifactDigest.AcceptsExactly: the hash is an injective function; the record's schema and its environment entries are not modelled.
- Catalog rendering, benchmarks, packaging and configuration hold nothing hard to prove.
