# Package hierarchy reconstruction, modelled in Dafny

This project models the core of a tool that recommends a package hierarchy for a Java code
base. Every package has an embedding vector. The projection length of one package's
embedding onto another's is a directional affinity score. The organizer script
(`proposedmethod/packageorganizer.py`, lines 90-224) turns these scores into a containment
map in four stages:

- It seeds one singleton group per package, plus one for the root package when the root has
  an embedding.
- It queues every candidate edge `(child group, parent package)` in descending score order.
- It drains the queue:
  - An edge below the threshold is dropped.
  - If the edge's child group already has a parent, the edge is kept as a backup of that group.
  - Otherwise the child group takes the parent. A probe then walks up the parent chain.
- If the walk comes back into the child, the groups on the loop are merged into one new
  group. The merged groups' queued and backup edges are folded, per parent, into averaged
  edges of the new group, and the queue is re-sorted.

The model also covers three helpers from `proposedmethod/common.py`:

- `split_case`, a regular-expression `findall` that splits identifiers into words;
- `flatten`, over nested lists;
- the post-processing of field and method names in `get_class_identifiers`.

Modules:

- `Wrappers`: `Option` and `Result`.
- `Seqs`: distinctness, order-preserving deduplication, and the exact mean.
- `Candidates`: edges, the stable descending sort, and the initial candidates.
- `Containment`: the containment map and the group registry. It also defines the
  parent-chain relation (`ChainTo`) and acyclicity, the loop probe, and the merge of the
  containment map and registry.
- `Folding`: selection of queued and backup edges, and per-parent averaging.
- `Organizer`: the state, its invariant, initialisation, merge, one iteration (`Step`), and
  the main loop (`Organize`).
- `Identifiers`: `split_case`, `flatten`, and the identifier post-processing.

Modelling choices:

- The embedding and `calculate_projection_length` become a score function
  `(child, parent) -> real` supplied by the caller.
- Scores are exact reals. `np.average` is the exact arithmetic mean.
- A group is a `set` of package names, as the merged group is built from a Python set.
- The queue dictionary is a sequence of edges with unique `(child, parent)` keys, in
  dictionary order. `dict(sorted(..., reverse=True))`, a stable sort into descending order,
  is modelled by a stable insertion sort. `Candidates.SortedUnique` shows that the result
  is the same: only one arrangement is descending and keeps the order within every score.
- A merge iterates over `involved` in a fixed order: the probe's groups in the order
  visited, then the child. This order decides the order of the new group's edges, and so
  their order among edges of equal score after re-sorting. The source leaves that order to
  Python set iteration.
- The probe reads the containment map without the entry just given to the child. This is
  equivalent to the source: the walk stops as soon as it reaches a member of the child,
  before it would read that entry. `Organizer.AssignedMerge` shows that the merge then gives
  the same result.
- The probe terminates by a ghost measure: the length of a group's parent chain
  (`Containment.Depth`). Acyclicity of the containment map is part of the loop invariant.
- The `while` loop is the recursive method `Organizer.Drain`, one call per iteration. It
  terminates under the measure (number of groups, queue length), compared lexicographically.

Two behaviours of the code that are easy to miss, both modelled as written:

- Only merged groups that still had queued edges lose their backup lists
  (`packageorganizer.py:205-207`). Stale lists of the other merged groups stay in the map.
- The fold takes every queued edge of a merged group, including edges below the threshold
  (`:165-178`).

## Model

| member | source | states |
|---|---|---|
| Seqs.Dedup | proposedmethod/packageorganizer.py:178-193 | the parents collected by `setdefault`: each parent once, and exactly the parents of the folded edges |
| Seqs.FirstIndex | proposedmethod/packageorganizer.py:178-193 | the position where an element first occurs: it holds the element, and no earlier position does |
| Seqs.DedupOrder | proposedmethod/packageorganizer.py:178-193 | the parents come in the order in which they first appear among the folded edges, as dictionary insertion order keeps them |
| Seqs.Mean | proposedmethod/packageorganizer.py:198 | the average times the number of scores is their sum |
| Seqs.MeanLowerBound | proposedmethod/packageorganizer.py:198 | an average is at least any lower bound of the averaged scores |
| Candidates.Insert | proposedmethod/packageorganizer.py:113 | inserting one edge adds exactly that edge |
| Candidates.InsertSorted | proposedmethod/packageorganizer.py:113 | inserting into a descending queue keeps it descending |
| Candidates.InsertWithScore | proposedmethod/packageorganizer.py:113 | an inserted edge goes before every edge of its own score that is already there, so the sort is stable |
| Candidates.SortDesc | proposedmethod/packageorganizer.py:113 | the queue is sorted by descending score, holds the same edges, and keeps the input order among equal scores |
| Candidates.SortedUnique | proposedmethod/packageorganizer.py:113 | two descending arrangements that agree on the order within every score are equal, so the stable sort has exactly one result |
| Candidates.MaxScoreAtHead | proposedmethod/packageorganizer.py:118 | the edge popped first has a score at least that of every queued edge |
| Candidates.SortUnique | proposedmethod/packageorganizer.py:113 | sorting keeps the dictionary keys `(child, parent)` unique |
| Candidates.UniqueAppend | proposedmethod/packageorganizer.py:199 | adding edges with new keys to a keyed queue keeps the keys unique |
| Candidates.EdgesOnto | proposedmethod/packageorganizer.py:101-106 | the pairwise candidates of a package are its projections onto every other package and never onto itself |
| Candidates.Enumerate | proposedmethod/packageorganizer.py:90-106 | the candidates of every package: its root projection and its projections onto the other packages |
| Candidates.InitialEdges | proposedmethod/packageorganizer.py:90-106 | an edge is an initial candidate exactly when it projects a package onto another package, or onto the root when the root has an embedding |
| Candidates.EnumerateUnique | proposedmethod/packageorganizer.py:97-106 | no two initial candidates share a key, so no dictionary entry is overwritten |
| Containment.ChainDeterministic | proposedmethod/packageorganizer.py:132-133 | following parents from a group reaches one unassigned group in one number of steps |
| Containment.Depth | proposedmethod/packageorganizer.py:132 | in an acyclic map every group's parent chain has a length |
| Containment.DepthStep | proposedmethod/packageorganizer.py:132-133 | the group of a group's parent has a shorter chain, so the probe terminates |
| Containment.Probe | proposedmethod/packageorganizer.py:127-134 | the probe ends in an unassigned group other than the child, or returns a loop path of distinct groups whose last parent is a member of the child |
| Containment.LoopPathChain | proposedmethod/packageorganizer.py:132-134 | a loop path means the parent chain from the new parent's group ends in the child |
| Containment.ChainThrough | proposedmethod/packageorganizer.py:124 | once the child takes its parent, chains through the child continue along the parent's chain |
| Containment.AssignKeepsAcyclic | proposedmethod/packageorganizer.py:123-124 | assigning a parent whose chain does not end in the child keeps every chain finite |
| Containment.Members | proposedmethod/packageorganizer.py:156 | the new group holds exactly the packages of the merged groups |
| Containment.MergeContainment | proposedmethod/packageorganizer.py:150-157 | the merged groups lose their entries, the new group is unassigned, and all other entries are unchanged |
| Containment.Regroup | proposedmethod/packageorganizer.py:202-203 | the members of the new group resolve to it, and every other package keeps its group |
| Containment.MergedPackages | proposedmethod/packageorganizer.py:156 | a package is in the new group exactly when its old group was merged |
| Containment.MergedGroupFresh | proposedmethod/packageorganizer.py:156-157 | the new group is non-empty, disjoint from every group that stays, and not one of them |
| Containment.MergeKeepsRegistry | proposedmethod/packageorganizer.py:202-203 | after a merge every package resolves to a current group that contains it |
| Containment.MergeKeepsGroups | proposedmethod/packageorganizer.py:150-157 | after a merge every current group is non-empty, and its members resolve to it |
| Containment.MergeKeepsPartition | proposedmethod/packageorganizer.py:150-157 | a merge keeps the packages partitioned into current groups, and no group contained in one of its members |
| Containment.ChainMerge | proposedmethod/packageorganizer.py:150-157 | a chain from a group that stays still ends after a merge, and its end is the new group or its old end |
| Containment.MergeKeepsAcyclic | proposedmethod/packageorganizer.py:141-157 | a merge keeps every parent chain finite |
| Containment.MergedGroupNew | proposedmethod/packageorganizer.py:156-157 | merging two distinct groups creates a group not present before |
| Folding.ChildIn | proposedmethod/packageorganizer.py:165-172 | the queued edges taken out are exactly those whose child was merged |
| Folding.ChildNotIn | proposedmethod/packageorganizer.py:168-172 | the queued edges that stay are exactly those whose child was not merged |
| Folding.ChildNotInUnique | proposedmethod/packageorganizer.py:172 | removing edges keeps the keys unique |
| Folding.ParentNotIn | proposedmethod/packageorganizer.py:176 | edges toward a member of the new group are dropped, and only those |
| Folding.BackupsOf | proposedmethod/packageorganizer.py:184-193 | the backups folded are those of the merged groups that lead outside the new group |
| Folding.ScoresTowardNonEmpty | proposedmethod/packageorganizer.py:198 | a parent has scores exactly when some folded edge leads to it |
| Folding.ScoresTowardAppend | proposedmethod/packageorganizer.py:178-193 | the scores toward a parent are the queued ones, then the backup ones |
| Folding.ScoresTowardOutside | proposedmethod/packageorganizer.py:176 | dropping edges toward the group's members does not change the scores toward an outside parent |
| Folding.BackupScoresOutside | proposedmethod/packageorganizer.py:191-193 | the same holds for backup edges |
| Folding.Parents | proposedmethod/packageorganizer.py:178-193 | the parents named by a list of edges |
| Folding.Averaged | proposedmethod/packageorganizer.py:196-199 | one edge from the new group per parent, scored with the mean of that parent's folded scores, with unique keys |
| Organizer.Init | proposedmethod/packageorganizer.py:90-113 | the initial state; its contract is stated by `InitGroups`, `InitQueue`, `InitInv`, `InitRoot` and `InitBelow` |
| Organizer.InitGroups | proposedmethod/packageorganizer.py:90-111 | each package starts as an unassigned singleton group with an empty backup list, and its registry entry is itself; the root gets an unassigned singleton group without a backup list; nothing else is registered |
| Organizer.InitQueue | proposedmethod/packageorganizer.py:97-113 | the queue is sorted by descending score and holds exactly the initial candidates, in their order within every score |
| Organizer.InitInv | proposedmethod/packageorganizer.py:90-113 | the initial state satisfies the invariant: partitioned, acyclic, queue sorted and keyed uniquely, every queued edge from a current group toward a known package outside it |
| Organizer.Folded | proposedmethod/packageorganizer.py:165-193 | no folded edge leads to a member of the new group |
| Organizer.Replaced | proposedmethod/packageorganizer.py:162-169 | `_replaced_keys`: the merged groups that still had queued edges; `MergeBackupsShape` states what happens to their backup lists |
| Organizer.FreshEdges | proposedmethod/packageorganizer.py:196-199 | one averaged edge per outside parent; `MergeQueueParents`, `MergeQueueMeans`, `FreshEdgeMean`, `FreshEdgeAtLeast` and `FreshEdgeOk` state its contract |
| Organizer.Merge | proposedmethod/packageorganizer.py:141-215 | a merge keeps the set of packages and adds the new group |
| Organizer.MergeContainmentShape | proposedmethod/packageorganizer.py:141-157 | the new group is the union of the merged groups; their entries are replaced by one unassigned entry for it |
| Organizer.MergeRegistryShape | proposedmethod/packageorganizer.py:201-203 | every member of the new group resolves to it, and other packages keep their group |
| Organizer.MergeBackupsShape | proposedmethod/packageorganizer.py:205-209 | merged groups that had queued edges lose their backup lists, and the new group gets an empty one |
| Organizer.FoldedParent | proposedmethod/packageorganizer.py:165-193 | a folded edge leads to `p` exactly when `p` is outside the new group and some queued or backup edge of a merged group leads to `p` |
| Organizer.FoldedScoresOutside | proposedmethod/packageorganizer.py:165-198 | the scores averaged for an outside parent are all queued scores of the merged groups toward it, then all their backup scores toward it |
| Organizer.MergeQueueMembers | proposedmethod/packageorganizer.py:162-199 | after a merge the queue holds the edges of the groups that stay and the new group's edges, nothing else |
| Organizer.MergeQueueKept | proposedmethod/packageorganizer.py:165-172 | no queued edge has a merged group as its child, and every edge of another group stays |
| Organizer.MergeQueueMeans | proposedmethod/packageorganizer.py:196-199 | each new edge leads outside the new group and scores the mean of all folded scores toward its parent |
| Organizer.FreshEdgeMean | proposedmethod/packageorganizer.py:196-199 | the same for one new edge |
| Organizer.FreshEdgeAtLeast | proposedmethod/packageorganizer.py:196-199 | when every folded score toward a parent reaches a bound, so does the new edge toward it |
| Organizer.MergeQueueParents | proposedmethod/packageorganizer.py:176-199 | the new group gets an edge toward exactly the outside packages that a merged group's queued or backup edges lead to |
| Organizer.MergeQueueOrder | proposedmethod/packageorganizer.py:199-215 | the rebuilt queue is sorted again and keyed uniquely |
| Organizer.MergeQueueStable | proposedmethod/packageorganizer.py:196-215 | the re-sort is stable: among the edges of each score, the edges that stay keep their old order and come before the new group's edges |
| Organizer.DiscardInv | proposedmethod/packageorganizer.py:117-122 | popping an edge keeps the invariant |
| Organizer.BackupInv | proposedmethod/packageorganizer.py:222-224 | saving an edge as a backup of its assigned child keeps the invariant |
| Containment.AssignKeepsWellFormed | proposedmethod/packageorganizer.py:123-124 | giving a group a registered parent outside it keeps the packages partitioned and every parent known |
| Organizer.AssignInv | proposedmethod/packageorganizer.py:123-134 | assigning the parent keeps the invariant when the parent's chain ends elsewhere |
| Organizer.LoopReady | proposedmethod/packageorganizer.py:132-145 | the groups of a loop path exist and have backup lists, so the merge can read them |
| Organizer.AssignedMerge | proposedmethod/packageorganizer.py:124-151 | the child's fresh entry does not affect the merge, which removes it |
| Organizer.FreshEdgeOk | proposedmethod/packageorganizer.py:196-199 | each new edge leads from the new group to a known package outside it |
| Organizer.KeptEdgeOk | proposedmethod/packageorganizer.py:165-172 | each edge that stays still leads from a current group with a backup list |
| Organizer.MergeQueueOk | proposedmethod/packageorganizer.py:162-215 | the rebuilt queue satisfies the queue part of the invariant |
| Organizer.MergeBackupsOk | proposedmethod/packageorganizer.py:205-209 | after a merge every assigned group still has a backup list |
| Organizer.MergeInv | proposedmethod/packageorganizer.py:141-215 | a merge keeps the invariant |
| Organizer.MergeShrinks | proposedmethod/packageorganizer.py:141-157 | a merge joins the child with at least one other group, so the number of groups goes down |
| Organizer.Step | proposedmethod/packageorganizer.py:117-224 | one iteration; `StepDiscards`, `StepBackups` and `StepPlaces` state what it does in each case, `StepInv` and `StepMeasure` what it keeps and decreases |
| Organizer.Place | proposedmethod/packageorganizer.py:123-221 | placing an unassigned child; `StepAssigns` and `StepMerges` state its two outcomes, assignment or merge |
| Organizer.StepDiscards | proposedmethod/packageorganizer.py:117-122 | an edge below the threshold is popped and leaves no trace in the containment map or the backups |
| Organizer.StepBackups | proposedmethod/packageorganizer.py:222-224 | an edge whose child has a parent is appended to the child's backup list; nothing else changes |
| Organizer.StepPlaces | proposedmethod/packageorganizer.py:122-123 | an edge at or above the threshold, with its child unassigned, is placed (the threshold is inclusive) |
| Organizer.StepAssigns | proposedmethod/packageorganizer.py:123-134 | if the parent's chain ends outside the child, the child simply takes the parent |
| Organizer.StepMerges | proposedmethod/packageorganizer.py:132-221 | if the parent's chain ends in the child, the step merges the child with exactly the groups on that chain |
| Organizer.StepInv | proposedmethod/packageorganizer.py:117-224 | every iteration keeps the invariant and the set of packages |
| Organizer.StepMeasure | proposedmethod/packageorganizer.py:117-224 | every iteration lowers the number of groups, or keeps it and shortens the queue |
| Organizer.InitRoot | proposedmethod/packageorganizer.py:97-111 | at the start the root is an unassigned singleton group with no outgoing edges |
| Organizer.MergeKeepsRoot | proposedmethod/packageorganizer.py:141-157 | a merge never involves the root's group |
| Organizer.StepKeepsRoot | proposedmethod/packageorganizer.py:117-224 | the root stays an unassigned singleton group at the top of the hierarchy |
| Organizer.InitBelow | proposedmethod/packageorganizer.py:98-106 | when every pairwise score is below the threshold, so is every initial candidate |
| Organizer.StepBelow | proposedmethod/packageorganizer.py:120-122 | over a queue below the threshold an iteration only pops |
| Organizer.StepProgress | proposedmethod/packageorganizer.py:117-224 | an iteration keeps what the loop keeps (the invariant, the packages, the root on top, a flat hierarchy below the threshold) and decreases (groups, queue length) |
| Organizer.Run | proposedmethod/packageorganizer.py:116-224 | the state the loop reaches: iterations of `Step` until the queue is empty; `RunStep`, `Drain` and `Organize` state its contract |
| Organizer.RunStep | proposedmethod/packageorganizer.py:116-224 | the loop's result from a state with edges left is its result from the state one iteration later |
| Organizer.Advance | proposedmethod/packageorganizer.py:117-224 | one iteration of the compiled loop computes exactly `Step`, keeps what the loop keeps, and decreases (groups, queue length) |
| Organizer.Drain | proposedmethod/packageorganizer.py:116-224 | the loop ends with an empty queue in exactly the state that iterating `Step` reaches, and that state still keeps what the loop keeps |
| Organizer.Organize | proposedmethod/packageorganizer.py:90-224 | the result is the state that iterating `Step` reaches from the initial state; the run terminates with an acyclic containment map over all packages and an empty queue; the root stays unassigned; with all scores below the threshold every group stays an unassigned singleton |
| Identifiers.Letters | proposedmethod/common.py:25 | the characters either alternative of the pattern can consume: ASCII letters, in order |
| Identifiers.LowerRun | proposedmethod/common.py:25 | `[a-z]+` is greedy and ends before the first non-lower-case character |
| Identifiers.UpperRun | proposedmethod/common.py:25 | `[A-Z]+` is greedy and ends before the first non-capital |
| Identifiers.MatchAt | proposedmethod/common.py:25 | a match starts exactly at a letter and ends within the identifier |
| Identifiers.MatchShape | proposedmethod/common.py:25 | a match is a word of the pattern; no lower-case letter follows it; a run of capitals gives back its last capital exactly when a lower-case letter follows; the first alternative wins when it applies |
| Identifiers.SplitFrom | proposedmethod/common.py:25 | every word found is a word of the pattern |
| Identifiers.SplitCase | proposedmethod/common.py:24-25 | every word of `split_case` is a non-empty word of the pattern |
| Identifiers.ScanCons | proposedmethod/common.py:25 | a match followed by a scan from its end is a scan: `findall` resumes where the last match ended |
| Identifiers.SplitFromScan | proposedmethod/common.py:25 | the words found from a position are the matches at their starts, in order, not overlapping, and covering every letter from there on |
| Identifiers.ScanUnique | proposedmethod/common.py:25 | two lists of words that both meet that description are equal |
| Identifiers.SplitCaseScan | proposedmethod/common.py:24-25 | the words of `split_case` are the left-to-right, non-overlapping matches of the pattern covering every letter, and they are the only list of words that is |
| Identifiers.LettersOfLetters | proposedmethod/common.py:25 | a run of letters is kept whole |
| Identifiers.SplitFromLetters | proposedmethod/common.py:25 | the words found from a position, joined, are the letters from there on |
| Identifiers.SplitCaseLetters | proposedmethod/common.py:25 | the words, joined, are exactly the identifier's ASCII letters, in order |
| Identifiers.SplitCaseEmpty | proposedmethod/common.py:25 | an identifier has no words exactly when it has no ASCII letter |
| Identifiers.SplitCaseCamel | proposedmethod/common.py:12-25 | `camelCase` splits into `camel`, `Case` |
| Identifiers.SplitCasePascal | proposedmethod/common.py:12-25 | `PascalXYCase` splits into `Pascal`, `XY`, `Case`: a run of capitals gives its last capital to the next word |
| Identifiers.Flatten | proposedmethod/common.py:74-81 | the recursive flattening; `FlattenFlat`, `FlattenAppend`, `FlattenWrap` and `FlattenLeaves` state its contract |
| Identifiers.FlattenFlat | proposedmethod/common.py:74-81 | flattening a list with no nested lists returns its items |
| Identifiers.FlattenAppend | proposedmethod/common.py:74-81 | flattening distributes over concatenation |
| Identifiers.FlattenWrap | proposedmethod/common.py:74-81 | wrapping a list in a list does not change its flattening |
| Identifiers.FlattenLeaves | proposedmethod/common.py:74-81 | a value is in the flattening exactly when it is a non-list item at some depth |
| Identifiers.LowerChar | proposedmethod/common.py:166 | `str.lower` maps each capital to the lower-case letter at the same place in the alphabet and leaves every other character alone |
| Identifiers.Lower | proposedmethod/common.py:166 | `str.lower` applies character by character and keeps the length |
| Identifiers.LowerWords | proposedmethod/common.py:166-172 | every word is lower-cased, none dropped |
| Identifiers.LowerWord | proposedmethod/common.py:166-172 | a lower-cased word of the pattern is a non-empty run of lower-case letters |
| Identifiers.LowerWordsOfSplit | proposedmethod/common.py:164-172 | the lower-cased words of an identifier are non-empty lower-case runs |
| Identifiers.Fields | proposedmethod/common.py:164-166 | each field name becomes its lower-cased words, one entry per name |
| Identifiers.FieldsLower | proposedmethod/common.py:164-166 | field identifiers are never dropped, and all their words are non-empty and lower-case |
| Identifiers.Methods | proposedmethod/common.py:167-172 | the method names fail exactly when one splits into no words; otherwise the result holds exactly the names with at least two words, each without its first word and lower-cased |
| Identifiers.Survivors | proposedmethod/common.py:170 | the positions of the names the filter keeps, each with at least two words; `SurvivorsOrdered` and `SurvivorsComplete` state that these are all of them, in order |
| Identifiers.SurvivorsOrdered | proposedmethod/common.py:167-172 | the positions of the names that survive the filter stand in increasing order |
| Identifiers.SurvivorsComplete | proposedmethod/common.py:167-172 | every name with at least two words survives the filter |
| Identifiers.MethodsInOrder | proposedmethod/common.py:167-172 | entry `k` of the method identifiers is the `k`-th surviving name without its first word, lower-cased, from any starting position |
| Identifiers.MethodsKeepOrder | proposedmethod/common.py:167-172 | the method identifiers keep the list order and its duplicates: entry `k` comes from the `k`-th name with at least two words |
| Identifiers.MethodsLower | proposedmethod/common.py:167-172 | every surviving method identifier is a non-empty list of non-empty lower-case words |
| Identifiers.MethodsFail | proposedmethod/common.py:167-169 | the `IndexError` happens exactly when some method name has no ASCII letter |
| Identifiers.ClassIdentifiers | proposedmethod/common.py:164-174 | the pair of field and method identifiers, failing exactly when the methods do |

## Left out

- `proposedmethod/packageanalyzer.py`: directory walking, embedding lookups and statistics over the file system. None of it is part of the organizer's logic.
- `calculate_projection_length` and the embeddings (`get_package_embedding`, `get_class_embedding`): floating-point vector arithmetic. They are the `score` parameter of `Organizer.Organize`.
- Reading and parsing the Java file in `get_class_identifiers` (`common.py:144-161`, javalang). The model starts from the collected field and method names.
- The interactive prompts, fasttext model loading, `chdir` and `print_debug` of the organizer script (`packageorganizer.py:14-39`). These are I/O.
- The tree rendering and the "lax" annotation (`packageorganizer.py:229-261`). These are presentation.
- Floating point. Scores are exact reals, and `np.average` is the exact mean, so rounding in the sort keys and averages is not modelled.
- The order among equal-score edges newly added by a merge. It depends on Python's set iteration order. The model fixes one order: the probe's groups, then the child.
- Organizer.Organize: requires distinct package names, and a root name that is not a package name. The source receives the packages as dictionary keys, and the root is the directory above them.
- Identifiers.Lower: lower-cases ASCII letters only. `str.lower` also maps other characters, but the words it receives contain only ASCII letters.
- In the source, the items of a flattened list are strings or lists. The model allows any type for the non-list items.
