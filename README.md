# git-gui core in Dafny

This project models the algorithmic core of git-gui, a web front end for
local Git repositories. The core draws a commit history as a lane graph and
runs the text transforms around that graph. Each source file has its own
module:

- **`Layout`, `LayoutLanes`, `LayoutGeometry`** model the commit-graph layout
  engine in `src/commit-graph/layout.js`:
  - `normalize` builds the by-id, children, roots and merges indices;
  - `topoRowOrder` is the stable row order;
  - `assignLanes` walks the rows over an array of nullable lane slots, and
    `firstFree` finds the first free slot;
  - `computeGeometry` places the nodes;
  - `routeEdges` routes the edges, as kind, endpoints, key and skipping.
- **`GraphqlParse`, `GraphqlLanes`** model the history endpoint's server code
  in `src/app/api/graphql/route.js`: `parseLog`, `parsePorcelainZ`, the checks
  and argument vector of `stage`, and its own `assignLanes`. That
  `assignLanes` keeps a compact list edited by `splice`.
- **`CommitGraph`** models `src/components/CommitGraph.jsx`: the lane count,
  `prepareRows` (one cell per lane, with node, connector and horizontal-line
  flags) and `formatRemoteLabel`.
- **`TreeView`** models the folder tree of `src/components/TreeView.jsx` and
  its typed twin `src/components/TreeView.tsx`:
  - `buildTree`, `toggle` and `collectFolderPaths`;
  - the expand-all and collapse-all effects;
  - the file-or-folder test of `NodeList`.
- **`Repos`** models how `readBranch` in `src/lib/repos.js` reads `HEAD`:
  first readable candidate, symbolic ref or detached commit id.
- **`HistorySection`** models the bookkeeping in
  `src/components/HistorySection.jsx`:
  - `localBranchesFromHistory`, `remotesForDisplay` and
    `remoteBranchStatusMap`;
  - the `labelToId` alias index and the branch-click lookup;
  - `deriveSsh`.
- **`StatusFiles`** models the preference lookup of
  `src/components/StatusFilesSection.jsx`. It tries a mode-specific key, then
  the shared key, then trims and lower-cases. It also models what the
  resulting preferences do to the view and to the expand/collapse signals.
- **`common.dfy`** holds shared building blocks:
  - `Option`/`Result` types;
  - JavaScript string operations (`split`, `join`, `trim`, `toLowerCase`,
    `startsWith`);
  - a JavaScript `Set` filled in order (`Seqs.Dedup`, which keeps the first
    occurrence);
  - a generic insertion sort over an abstract total order.

**How JavaScript code becomes Dafny**

- Loops that change state in the source are methods with loop invariants.
  Each method's postcondition ties its result to a specification function, a
  fold over the input, and the lemmas state the properties of that function.
- A `Map` filled in order is `LastWins(entries)`: later writes win.
- `localeCompare` sorts use an abstract comparison `leq`, assumed total and
  transitive.
- Loosely typed JSON fields become `Option`, where `None` means the field
  fails the source's `typeof` or `Array.isArray` test. Where the source
  filters an array by element type, the element is a small datatype with a
  non-string case (`HistorySection.Label`, `GraphqlParse.PathArg`).

**Behaviour of the code worth knowing**

- `layout.js` does not skip parents that are outside the batch. Such parents
  get lanes in `assignLanes`, and only `routeEdges` skips them. See
  `ChildIndexSpec`, `VisitKeepsInv` and `AllEdgesSpec`.
- `layout.js` does not reject a duplicate commit id: the later commit
  overwrites the earlier one in `commitById` (`IndexByIdLastWins`).
- `maxLanes` in `layout.js` can be 0: a lone root commit leaves it there
  (`LayoutLanes.LoneRoot`). The route's `assignLanes` raises it to 1
  (`GraphqlLanes.FinalMaxSpec`).
- In the splice variant of `assignLanes`, a parent's recorded lane is its
  index at lookup time. A later insertion can move that parent
  (`GraphqlLanes.ExistingParentMayMove`).
- A row's lane there can equal the reported width
  (`GraphqlLanes.LaneMayEqualWidth`).
- `formatRemoteLabel` is not injective (`CommitGraph.FormatNotInjective`).

## Model

| member | source | states |
|---|---|---|
| Layout.IndexById | src/commit-graph/layout.js:27-29 | `commitById` has exactly the batch's ids as keys, and maps each to a batch commit carrying that id |
| Layout.IndexByIdLastWins | src/commit-graph/layout.js:27-29 | a duplicate id is not rejected: the last commit with that id is the one indexed |
| Layout.IndexCommits | src/commit-graph/layout.js:27-29 | the first loop of `normalize` builds exactly `IndexById` |
| Layout.AddChildSpec | src/commit-graph/layout.js:34-38 | adding a child appends its id to parent `p`'s list once for each time `p` is among its parents; `p` has a list afterwards exactly when it had one or is a parent |
| Layout.AddChildren | src/commit-graph/layout.js:34-38 | the inner parent loop of `normalize` computes `AddChild` |
| Layout.ChildIndexSpec | src/commit-graph/layout.js:30-38 | `childrenById[p]` lists, in input order, the children naming `p` (once per mention); `p` has an entry iff some commit names it, whether or not `p` is in the batch |
| Layout.RootIdsSpec | src/commit-graph/layout.js:31-32 | `roots` is exactly the ids of commits whose parents are empty or not an array |
| Layout.MergeIdsSpec | src/commit-graph/layout.js:31-33 | `merges` is exactly the ids of commits with more than one parent |
| Layout.Normalize | src/commit-graph/layout.js:19-41 | `normalize` returns the four indices: by id, children, roots and merges |
| Layout.RowBeforeIsTotalPreorder | src/commit-graph/layout.js:52-56 | the row comparator (newer first, then input position) is total and transitive |
| Layout.SortedEntries | src/commit-graph/layout.js:50-56 | the sorted `{c, i}` entries are a permutation of the input entries, ordered by the comparator, each position once |
| Layout.RowOrderPositions | src/commit-graph/layout.js:49-58 | the input positions in row order are distinct and in range, strictly newer first, and ties keep input order (the sort is stable) |
| Layout.TopoRowOrder | src/commit-graph/layout.js:49-58 | row `k` is the id of the commit at the `k`-th position of that order |
| Layout.TopoRowOrderIsPermutation | src/commit-graph/layout.js:49-58 | the row order is a permutation of the input ids |
| LayoutLanes.IndexOf | src/commit-graph/layout.js:78 | `active.indexOf(id)`: -1 iff the id has no slot, otherwise its first slot |
| LayoutLanes.FirstNull | src/commit-graph/layout.js:116-119 | the first null slot, or -1 iff there is none |
| LayoutLanes.FirstFree | src/commit-graph/layout.js:116-119 | the `firstFree` scan returns `FirstNull` |
| LayoutLanes.OwnLane | src/commit-graph/layout.js:78-84 | a row takes its reserved slot if any, else the first null slot, else a new slot at the end |
| LayoutLanes.Released | src/commit-graph/layout.js:78-87 | after taking the lane and nulling it, only that slot changed (the array grows by one when the lane is new) |
| LayoutLanes.TakeLane | src/commit-graph/layout.js:78-87 | the lookup, push or write, and nulling compute `OwnLane` and `Released` |
| LayoutLanes.Spot | src/commit-graph/layout.js:97-99 | a new parent's spot is the first null slot at or after `insertAt` (capped at the length), or the end |
| LayoutLanes.FindSpot | src/commit-graph/layout.js:97-99 | the `while` scan finds `Spot` |
| LayoutLanes.PlaceOneHolds | src/commit-graph/layout.js:91-104 | after placing a parent, its recorded lane holds it |
| LayoutLanes.PlaceOneKeeps | src/commit-graph/layout.js:91-104 | placing a parent never overwrites a slot that holds an id |
| LayoutLanes.PlaceOneOnly | src/commit-graph/layout.js:91-104 | placing a parent adds no id other than that parent |
| LayoutLanes.PlaceOneExisting | src/commit-graph/layout.js:92-94 | a parent that already has a slot records that index and changes nothing |
| LayoutLanes.PlaceOneNew | src/commit-graph/layout.js:96-103 | a parent without a slot is reserved at `Spot` and `insertAt` moves past it |
| LayoutLanes.PlaceOneStart | src/commit-graph/layout.js:96-103 | the start of the search for the next spot never moves back |
| LayoutLanes.PlaceOneNoDup | src/commit-graph/layout.js:91-104 | placing a parent keeps every id in at most one slot |
| LayoutLanes.PlaceParents | src/commit-graph/layout.js:88-105 | one recorded lane per parent, and the array never shrinks |
| LayoutLanes.PlaceParentsKeeps | src/commit-graph/layout.js:88-105 | the parent loop keeps every occupied slot |
| LayoutLanes.PlaceParentsHolds | src/commit-graph/layout.js:88-105 | after the loop, each parent's recorded lane holds that parent |
| LayoutLanes.PlaceParentsSpec | src/commit-graph/layout.js:88-105 | both facts together: occupied slots are kept, and every parent sits at its recorded lane |
| LayoutLanes.PlaceParentsLoop | src/commit-graph/layout.js:88-105 | the parent loop of `assignLanes` computes `PlaceParents` |
| LayoutLanes.PlaceParentsNoDup | src/commit-graph/layout.js:91-104 | no id occupies two slots after the parent loop |
| LayoutLanes.PlaceParentsNewFrom | src/commit-graph/layout.js:96-103 | a parent new to the row gets a lane at or after the row's own lane |
| LayoutLanes.PlaceParentsNewFromAt | src/commit-graph/layout.js:96-103 | the same, for one parent |
| LayoutLanes.PlaceParentsNewIncreasing | src/commit-graph/layout.js:96-103 | the lanes of new parents strictly increase in parent order |
| LayoutLanes.PlaceParentsNewIncreasingAt | src/commit-graph/layout.js:96-103 | the same, for one pair of parents |
| LayoutLanes.PlaceParentsExisting | src/commit-graph/layout.js:92-94 | a parent that already had a slot records that slot's index |
| LayoutLanes.TrimNulls | src/commit-graph/layout.js:109 | trimming leaves a prefix with no trailing null, and removes only nulls |
| LayoutLanes.PopNulls | src/commit-graph/layout.js:109 | the `pop` loop computes `TrimNulls` |
| LayoutLanes.TrimNullsKeeps | src/commit-graph/layout.js:109 | trimming keeps every occupied slot where it was and adds no duplicate |
| LayoutLanes.ReleasedNoDup | src/commit-graph/layout.js:78-87 | taking the row's lane keeps ids unique and leaves the row's own id in no slot |
| LayoutLanes.VisitKeepsInv | src/commit-graph/layout.js:74-110 | one row keeps the invariant (no duplicate, no trailing null, width at most `maxLanes`); `maxLanes` does not decrease; there is one parent lane per parent, below `maxLanes`, holding that parent |
| LayoutLanes.VisitExistingParent | src/commit-graph/layout.js:92-94 | a parent already reserved before the row reuses its index |
| LayoutLanes.VisitNewParents | src/commit-graph/layout.js:88-105 | new parents take strictly increasing lanes from the row's lane on, and a new first parent takes the row's own lane |
| LayoutLanes.AssignLanes | src/commit-graph/layout.js:65-114 | `assignLanes` returns the lane map, parent-lane map and `maxLanes` of the fold `Walk` |
| LayoutLanes.WalkInv | src/commit-graph/layout.js:65-114 | the invariant holds after every prefix of the rows |
| LayoutLanes.WalkKeys | src/commit-graph/layout.js:74-107 | rows whose id is not in `commitById` get no lane and no parent lanes; all others get both |
| LayoutLanes.WalkMaxLanesMonotone | src/commit-graph/layout.js:110 | `maxLanes` after a prefix of the rows is at most the final `maxLanes` |
| LayoutLanes.WalkParentLanesBelowMax | src/commit-graph/layout.js:106-110 | every recorded parent lane is below the final `maxLanes`, with one per parent, outside-batch parents included |
| LayoutLanes.LoneRoot | src/commit-graph/layout.js:72-110 | a lone root commit gets lane 0 and leaves `maxLanes` at 0 |
| LayoutGeometry.SizesDefaults | src/commit-graph/layout.js:129 | the size defaults are 22/28/6/20/14; a size the configuration gives is used |
| LayoutGeometry.Kept | src/commit-graph/layout.js:132-135 | the rows that get a node are exactly those whose id is in `commitById`, in order |
| LayoutGeometry.NodesOfSpec | src/commit-graph/layout.js:132-141 | node `k` is the `k`-th kept row, at `x = colPad + lane*colWidth` and `y = rowPad + i*rowHeight`, where `i` counts skipped rows and the lane defaults to 0 |
| LayoutGeometry.NodeIndexKeys | src/commit-graph/layout.js:134-140 | `nodeIndex` has a key for exactly the drawn ids |
| LayoutGeometry.NodeIndexKept | src/commit-graph/layout.js:140 | `nodeIndex[id]` is the position of the last kept row with that id |
| LayoutGeometry.NodeIndexKeptAt | src/commit-graph/layout.js:140 | the same, for one id |
| LayoutGeometry.NodeIndexSpec | src/commit-graph/layout.js:139-140 | `nodeIndex[id]` is the position of the last node with that id |
| LayoutGeometry.ComputedGeometryValid | src/commit-graph/layout.js:128-143 | every index entry of the computed geometry points at a node |
| LayoutGeometry.ComputeGeometry | src/commit-graph/layout.js:128-143 | `computeGeometry` returns the sizes, the nodes of `NodesOf` and the index of `NodeIndexOf` |
| LayoutGeometry.DrawnSpec | src/commit-graph/layout.js:162-165 | the parents that get an edge are exactly those that have a node |
| LayoutGeometry.NodeEdgesOrder | src/commit-graph/layout.js:162-178 | a node's edges go, in parent order, one to each parent that has a node |
| LayoutGeometry.NodeEdgesSpec | src/commit-graph/layout.js:162-178 | an edge belongs to a node iff it is the edge to one of its parents that has a node |
| LayoutGeometry.AllEdgesSpec | src/commit-graph/layout.js:157-178 | an edge is emitted iff it joins a drawn node whose commit is in `commitById` to one of its parents that has a node; all other pairs are skipped |
| LayoutGeometry.EdgeKindSpec | src/commit-graph/layout.js:167-176 | an edge is a line iff both lanes are equal, otherwise a bezier; it goes from the child's point to the parent's |
| LayoutGeometry.AddNodeEdges | src/commit-graph/layout.js:162-178 | the inner loop of `routeEdges` appends `NodeEdges` |
| LayoutGeometry.RouteEdges | src/commit-graph/layout.js:152-181 | `routeEdges` returns `AllEdges` over the nodes |
| GraphqlParse.Groups | src/app/api/graphql/route.js:403 | the number of commits is the number of whole seven-field groups, and a partial group is dropped |
| GraphqlParse.ReadCommit | src/app/api/graphql/route.js:404-412 | one loop body reads the group at `i`; fields map in order to id, short, parents, message, author name, e-mail and date |
| GraphqlParse.ReadGroups | src/app/api/graphql/route.js:402-414 | the stride-7 loop computes `Groups` |
| GraphqlParse.ParseLog | src/app/api/graphql/route.js:399-415 | `parseLog` as written: the groups of the non-empty NUL-separated fields |
| GraphqlParse.ParentListJoin | src/app/api/graphql/route.js:411 | space-joined parent ids split back into the same list |
| GraphqlParse.GroupOfCommitFields | src/app/api/graphql/route.js:404-412 | reading the seven fields git prints for a commit gives that commit back |
| GraphqlParse.GroupsOfLogFields | src/app/api/graphql/route.js:403-413 | reading the fields of several commits gives them back, in order |
| GraphqlParse.SplitFormatLog | src/app/api/graphql/route.js:109 | splitting the `-z` log output at NUL gives back the fields |
| GraphqlParse.ParseLogFieldsRoundTrip | src/app/api/graphql/route.js:399-415 | the corrected parser reads back every printable commit list, root commits included |
| GraphqlParse.ParseLogRoundTripNoEmptyField | src/app/api/graphql/route.js:399-415 | `parseLog` as written reads a log back when no commit has an empty field |
| GraphqlParse.ParseLogDropsRootCommit | src/app/api/graphql/route.js:401 | `parseLog` as written loses a root commit whose `%P` field is empty; the corrected parser keeps it |
| GraphqlParse.StripSlash | src/app/api/graphql/route.js:299 | one trailing '/' is removed, and nothing else |
| GraphqlParse.ScanSkip | src/app/api/graphql/route.js:295 | an empty field is skipped |
| GraphqlParse.ReadEntry | src/app/api/graphql/route.js:295-302 | one entry is read and reading resumes after it, consuming the rename/copy field too |
| GraphqlParse.AddTo | src/app/api/graphql/route.js:301-302 | `Set.add` adds exactly the new path and keeps the list duplicate-free |
| GraphqlParse.SortedPaths | src/app/api/graphql/route.js:304 | `Array.from(set).sort()` holds the same paths, strictly increasing in code-unit order |
| GraphqlParse.ParsePorcelainZ | src/app/api/graphql/route.js:288-305 | a path is staged iff some entry for it has X not ' ' and not '?'; it is unstaged iff some entry has code '??' or Y present and not ' '; both lists are sorted and duplicate-free |
| GraphqlParse.ReadEntryField | src/app/api/graphql/route.js:296-302 | a status entry `XY path` reads back its code and its path, with one trailing '/' removed |
| GraphqlParse.ScanEntryFields | src/app/api/graphql/route.js:295-302 | a rename or copy takes its path from the next field |
| GraphqlParse.ScanStatusFields | src/app/api/graphql/route.js:294-303 | a run of entries is read entry by entry |
| GraphqlParse.ScanFormatStatus | src/app/api/graphql/route.js:290-303 | porcelain `-z` output of a list of entries is read back as exactly those entries |
| GraphqlParse.StringPaths | src/app/api/graphql/route.js:265 | the filter keeps exactly the non-empty strings of the array; non-string entries are dropped |
| GraphqlParse.StringPathsAppend | src/app/api/graphql/route.js:265 | the filter keeps the array's order: filtering a concatenation concatenates the filtered parts |
| GraphqlParse.StageArgs | src/app/api/graphql/route.js:265-271 | it fails with an invalid action iff the action is neither `stage` nor `unstage`, and with no paths iff the action is valid and `paths` is not an array or holds no non-empty string; otherwise the arguments are `-C path`, then `add --` or `reset HEAD --`, then the non-empty string entries of `paths` in order, other values dropped |
| GraphqlLanes.IndexOf | src/app/api/graphql/route.js:422 | `indexOf`: -1 iff absent, otherwise the first index |
| GraphqlLanes.OwnLane | src/app/api/graphql/route.js:422-423 | a commit in the list takes its index as its lane, otherwise the old length |
| GraphqlLanes.Removed | src/app/api/graphql/route.js:422-424 | the lane is within the list once the commit is spliced out |
| GraphqlLanes.SpliceOut | src/app/api/graphql/route.js:422-424 | push-then-splice computes `OwnLane` and `Removed` |
| GraphqlLanes.RemovedMembers | src/app/api/graphql/route.js:424 | splicing out the commit removes exactly its id |
| GraphqlLanes.RemovedDistinct | src/app/api/graphql/route.js:424 | splicing out the commit keeps the list duplicate-free |
| GraphqlLanes.PlaceOne | src/app/api/graphql/route.js:428-430 | each parent records one lane, and `insertAt` only moves forward |
| GraphqlLanes.PlaceParents | src/app/api/graphql/route.js:427-431 | `parentLanes` has one entry per parent |
| GraphqlLanes.NewsMembers | src/app/api/graphql/route.js:428-430 | the inserted parents are exactly the parents not already in the list |
| GraphqlLanes.NewsDistinct | src/app/api/graphql/route.js:428-430 | each of them is inserted once |
| GraphqlLanes.PlaceParentsShape | src/app/api/graphql/route.js:427-431 | the new parents are inserted at consecutive positions starting at the commit's lane |
| GraphqlLanes.PlaceParentsPrefix | src/app/api/graphql/route.js:427-431 | the lanes of the first `k` parents do not depend on later parents |
| GraphqlLanes.PlaceParentsLane | src/app/api/graphql/route.js:428-430 | parent `k` records its index at lookup time if present, otherwise the current `insertAt` |
| GraphqlLanes.NewParentStays | src/app/api/graphql/route.js:430 | a newly inserted parent is still at its recorded lane when the loop ends |
| GraphqlLanes.PlaceParentsHolds | src/app/api/graphql/route.js:427-431 | after the loop the list holds exactly the old ids and the parents |
| GraphqlLanes.PlaceParentsDistinct | src/app/api/graphql/route.js:427-431 | the parent loop keeps the list duplicate-free |
| GraphqlLanes.PlaceParentsLaneBound | src/app/api/graphql/route.js:427-431 | every recorded parent lane is within the final list |
| GraphqlLanes.PlaceParentsLoop | src/app/api/graphql/route.js:425-431 | the parent loop computes `PlaceParents` |
| GraphqlLanes.Walk | src/app/api/graphql/route.js:421-434 | one row per commit |
| GraphqlLanes.AssignLanes | src/app/api/graphql/route.js:417-437 | `assignLanes` returns the rows of the fold `Walk`, and `FinalMax` as `maxLanes` |
| GraphqlLanes.VisitSpec | src/app/api/graphql/route.js:421-431 | one commit keeps the list duplicate-free; afterwards it holds the old ids minus the commit, plus its parents |
| GraphqlLanes.VisitLanes | src/app/api/graphql/route.js:422-432 | the row copies the commit, and its lane and every parent lane lie within the new list |
| GraphqlLanes.WalkInv | src/app/api/graphql/route.js:421-434 | after every commit the list is duplicate-free and no wider than `maxLanes` |
| GraphqlLanes.WalkPrefix | src/app/api/graphql/route.js:421-434 | rows already emitted never change, and `maxLanes` never decreases |
| GraphqlLanes.WalkRow | src/app/api/graphql/route.js:432 | row `k` is commit `k` with the lane its lookup found; it has one parent lane per parent, and the lane and parent lanes are bounded by the reported width |
| GraphqlLanes.WalkMaxBound | src/app/api/graphql/route.js:433 | the list is never wider than the final `maxLanes` |
| GraphqlLanes.WalkMaxReached | src/app/api/graphql/route.js:433 | a nonzero `maxLanes` is the width after some commit |
| GraphqlLanes.FinalMaxSpec | src/app/api/graphql/route.js:433-435 | `maxLanes` is 0 iff there are no commits, otherwise at least 1 and at least the widest list |
| GraphqlLanes.ExistingParentMayMove | src/app/api/graphql/route.js:428-430 | a parent found in the list can be moved off its recorded lane by a later insertion |
| GraphqlLanes.LaneMayEqualWidth | src/app/api/graphql/route.js:423-435 | a row's lane can equal the reported width |
| CommitGraph.LaneCount | src/components/CommitGraph.jsx:5 | the lane count is `maxLanes` when that is a number of at least 1, and 1 otherwise |
| CommitGraph.Clamp | src/components/CommitGraph.jsx:63-64 | a lane is clamped into `[0, lanes - 1]`, and a non-number counts as 0 |
| CommitGraph.ParentLanesOf | src/components/CommitGraph.jsx:64 | one clamped lane per entry of an array `parentLanes`, and none otherwise |
| CommitGraph.PrepareCells | src/components/CommitGraph.jsx:62-73 | the cell loop yields `lanes` cells: the node exactly at the lane, connectors exactly at the lane and the parent lanes, and horizontal lines exactly between the lane and some parent lane |
| CommitGraph.AddParentLane | src/components/CommitGraph.jsx:67-73 | one parent lane adds its connector and its horizontal run, and nothing else |
| CommitGraph.PrepareRows | src/components/CommitGraph.jsx:59-77 | one prepared row per input row (none for a missing list), in order; `short` defaults to the id's first 7 characters, `labels` to `[]`, and the cells are as above |
| CommitGraph.OneNode | src/components/CommitGraph.jsx:65 | exactly one cell of a row is the node |
| CommitGraph.Connectors | src/components/CommitGraph.jsx:66-68 | the connector cells are exactly the row's lane and its parent lanes |
| CommitGraph.HorizontalRun | src/components/CommitGraph.jsx:69-72 | the horizontal line is one unbroken run, and covers the node iff the row has a parent lane |
| CommitGraph.FormatRemoteLabel | src/components/CommitGraph.jsx:79-96 | only `HEAD` reads `HEAD`; every other label reads as a bracketed `[...]` form; the lemmas below give each case's exact reading |
| CommitGraph.FormatLocalBranch | src/components/CommitGraph.jsx:82 | `refs/heads/X` reads `[local]/[X]` |
| CommitGraph.FormatRemoteBranch | src/components/CommitGraph.jsx:83-89 | `refs/remotes/R/B` reads `[R]/[B]`, split at the first '/' |
| CommitGraph.FormatRemoteOnly | src/components/CommitGraph.jsx:83-86 | `refs/remotes/X` without a further '/' reads `[remote]/[X]` |
| CommitGraph.FormatOther | src/components/CommitGraph.jsx:91-95 | any label with a '/' that is not under `refs/heads/` or `refs/remotes/` reads `[a]/[b]`, split at the first '/' (so `refs/tags/v1` reads `[refs]/[tags/v1]`) |
| CommitGraph.FormatPlain | src/components/CommitGraph.jsx:91-92 | a label without '/' other than `HEAD` reads `[s]` |
| CommitGraph.FormatNotInjective | src/components/CommitGraph.jsx:79-96 | `refs/heads/b` and `local/b` read the same |
| Repos.InterpretHead | src/lib/repos.js:14-22 | a branch name found in a HEAD file is never empty; `InterpretHeadShape` gives its three possible shapes |
| Repos.LastSegmentSpec | src/lib/repos.js:17-18 | the last segment is a '/'-free suffix of the ref, and is either the whole ref or preceded by '/' |
| Repos.LastOfSplit | src/lib/repos.js:17-18 | the last segment is the last piece of `split('/')` |
| Repos.LastSegmentOfJoin | src/lib/repos.js:17-18 | the last segment of '/'-joined segments is the last of them |
| Repos.InterpretHeadShape | src/lib/repos.js:14-22 | a symbolic ref gives a non-empty '/'-free suffix of the ref; a full commit id gives `detached@` and 7 hex digits; anything else gives null |
| Repos.SymbolicHead | src/lib/repos.js:15-18 | content trimming to `ref: R` gives R's last segment, or null when it is empty |
| Repos.RefHead | src/lib/repos.js:14-18 | a symbolic ref padded with white space gives its last segment (`refs/heads/feature/x` gives `x`), or null when that is empty |
| Repos.DetachedHead | src/lib/repos.js:20-22 | a padded 40-hex-digit id gives `detached@` and its first 7 digits |
| Repos.ReadFirstHead | src/lib/repos.js:12-27 | the first readable candidate decides, and no readable candidate gives null |
| Repos.ReadBranch | src/lib/repos.js:6-28 | `HEAD` is tried before `.git/HEAD` |
| TreeView.Descend | src/components/TreeView.jsx:15-22 | one step of the cursor reaches the child node and keeps the root |
| TreeView.StepPath | src/components/TreeView.jsx:14 | the running `acc` is the segments so far joined with '/' |
| TreeView.DescendStep | src/components/TreeView.jsx:15-22 | the body of the inner loop computes `Descend` |
| TreeView.InsertSegments | src/components/TreeView.jsx:11-23 | the inner loop inserts one path's segments from the root |
| TreeView.BuildTree | src/components/TreeView.jsx:5-26 | `buildTree` computes `Build`, path by path |
| TreeView.DescendShape | src/components/TreeView.jsx:16-22 | a missing child is created and listed once under its parent; an existing one is reused |
| TreeView.DescendValid | src/components/TreeView.jsx:13-22 | one step keeps the tree well formed: linked, named by last segment, path a '/'-join, siblings distinct |
| TreeView.InsertFromValid | src/components/TreeView.jsx:11-23 | inserting a path keeps the tree well formed |
| TreeView.SegmentsNonEmptyPieces | src/components/TreeView.jsx:8 | `split('/').filter(Boolean)` yields no empty segment |
| TreeView.BuildValid | src/components/TreeView.tsx:12-33 | a built tree is well formed: each node's path joins its segments with '/', its name is its last segment, and the root's path is '' |
| TreeView.DescendKeys | src/components/TreeView.jsx:16-20 | one step adds exactly the child's node |
| TreeView.InsertFromKeys | src/components/TreeView.jsx:11-23 | walking a path adds exactly the nodes along it |
| TreeView.DescendFiles | src/components/TreeView.jsx:22 | a step marks at most its child as a file, and unmarks nothing |
| TreeView.InsertFromFiles | src/components/TreeView.jsx:11-23 | walking a path marks exactly its last node as a file |
| TreeView.BuildNodes | src/components/TreeView.jsx:7-24 | the nodes are the root and one per distinct non-empty prefix of some path's segments, shared by all paths; a path with no segments adds nothing |
| TreeView.BuildFiles | src/components/TreeView.tsx:29 | the nodes marked `isFile` are exactly the full segment lists of the paths |
| TreeView.BuildShownAsFile | src/components/TreeView.jsx:87 | a node is drawn as a file iff some path ends at it and no path continues below it |
| TreeView.FoldersUnfold | src/components/TreeView.jsx:55-57 | a node with children contributes its own path (if non-empty), then its children's folders in order |
| TreeView.FoldersOfStep | src/components/TreeView.jsx:57 | the children are visited in insertion order |
| TreeView.CollectFolderPaths | src/components/TreeView.jsx:54-59 | the recursion appends the pre-order folder paths to `acc` |
| TreeView.FoldersSound | src/components/TreeView.jsx:54-59 | every collected path is that of a node at or below, with children and a non-empty path |
| TreeView.FoldersComplete | src/components/TreeView.tsx:68-73 | every such node's path is collected |
| TreeView.PathEmptyOnlyAtRoot | src/components/TreeView.jsx:6-14 | in a built tree only the root has the empty path |
| TreeView.CollectedFromRoot | src/components/TreeView.jsx:62-67 | from the root, the collected paths are exactly those of the non-root nodes with children |
| TreeView.Toggled | src/components/TreeView.tsx:61-66 | `toggle` flips the path's membership and keeps every other path |
| TreeView.ToggleTwice | src/components/TreeView.jsx:47-52 | toggling twice restores the set |
| TreeView.SetOf | src/components/TreeView.jsx:66 | `new Set(list)` holds exactly the list's members |
| TreeView.Expansion.constructor | src/components/TreeView.jsx:39-40 | the component's own set starts empty |
| TreeView.Expansion.SetExpanded | src/components/TreeView.jsx:42-45 | a new set goes to a listening parent, and otherwise replaces the component's own set |
| TreeView.Expansion.Toggle | src/components/TreeView.jsx:47-52 | `toggle` hands on the shown set (`expandedPaths ?? expandedState`) with the path flipped |
| TreeView.Expansion.OnExpandAllSignal | src/components/TreeView.jsx:62-70 | a number signal above 0 sets the expanded set to the collected folders; anything else changes nothing |
| TreeView.Expansion.OnCollapseAllSignal | src/components/TreeView.jsx:72-76 | a number signal above 0 sets the expanded set to empty; anything else changes nothing |
| HistorySection.RestAfterSpec | src/components/HistorySection.jsx:153-156 | a label yields a branch iff it is a string starting with the prefix and has a non-empty rest |
| HistorySection.LocalBranchesFromHistory | src/components/HistorySection.jsx:148-162 | the nested loops, the `Set` and the sort compute `HistoryBranches` |
| HistorySection.LabelBranchesMember | src/components/HistorySection.jsx:152-157 | a row's branches are exactly the non-empty rests of its `refs/heads/` string labels |
| HistorySection.RowsBranchesMember | src/components/HistorySection.jsx:150-159 | the same over all rows with an array of labels |
| HistorySection.LocalBranchesSpec | src/components/HistorySection.jsx:148-162 | the result is sorted and duplicate-free, and holds exactly the `refs/heads/` branches of the rows plus a non-empty `headBranch` |
| HistorySection.SortDistinct | src/components/HistorySection.jsx:161 | sorting a duplicate-free list keeps its names and its distinctness |
| HistorySection.LastWinsSnoc | src/components/HistorySection.jsx:232 | `map.set` overwrites the key |
| HistorySection.LastWinsSpec | src/components/HistorySection.jsx:227-244 | a key is in the map iff some entry wrote it, and its value is that of the last such entry |
| HistorySection.SetAll | src/components/HistorySection.jsx:230-242 | the writes of one row extend the map in order |
| HistorySection.LabelIndex | src/components/HistorySection.jsx:227-244 | the `labelToId` loops compute `LastWins` of the alias entries |
| HistorySection.LabelAliasKeys | src/components/HistorySection.jsx:232-241 | a label writes itself; `refs/remotes/X` also writes `X`, and `refs/heads/X` writes `local/X` and `X` (X non-empty); all map to the row's id |
| HistorySection.IndexValuesAreIds | src/components/HistorySection.jsx:232-240 | every index entry carries a row's id |
| HistorySection.RowAliasesHasLabel | src/components/HistorySection.jsx:232 | every string label of a row maps to that row |
| HistorySection.IndexHasLabel | src/components/HistorySection.jsx:232 | every string label of some row is written to the index |
| HistorySection.IndexEntriesIds | src/components/HistorySection.jsx:232-240 | every entry value is a row id |
| HistorySection.LabelledKeyInIndex | src/components/HistorySection.jsx:228-244 | every label of some row is a key of the index, mapped to a row id |
| HistorySection.IndexValueIsId | src/components/HistorySection.jsx:227-244 | every value of the index is a row id |
| HistorySection.ClickTarget | src/components/HistorySection.jsx:338-345 | the full ref label's id wins when truthy; nothing is found iff the full label, `local/b` or `remote/b`, and the bare `b` all miss; a found id is a non-empty value of the index |
| HistorySection.SelectAfterClick | src/components/HistorySection.jsx:345 | the selection changes only when an id is found |
| HistorySection.ClickOnLabelledBranch | src/components/HistorySection.jsx:336-345 | a click on a branch whose full label is on some row selects a commit, and whatever a click selects is a row's id |
| HistorySection.StatusKept | src/components/HistorySection.jsx:170-179 | every status with a string branch is kept |
| HistorySection.StatusFrom | src/components/HistorySection.jsx:170-179 | every kept status comes from one with a string branch |
| HistorySection.NormalizeStatusDefaults | src/components/HistorySection.jsx:173-178 | `remote` defaults to the remote's name, and `ahead`/`behind` default to 0 |
| HistorySection.StringBranchesMember | src/components/HistorySection.jsx:169 | exactly the non-empty string entries of `branches` are kept |
| HistorySection.RemoteKept | src/components/HistorySection.jsx:165-180 | every remote with a string name is kept, normalised |
| HistorySection.RemoteFrom | src/components/HistorySection.jsx:165-180 | every kept remote comes from one with a string name |
| HistorySection.NormalizeRemoteSpec | src/components/HistorySection.jsx:165-180 | the name is kept and an empty url becomes null; branches are sorted and deduplicated non-empty strings; exactly the statuses with a string branch are kept |
| HistorySection.FindLocal | src/components/HistorySection.jsx:181 | `findIndex` finds the first remote named `local`, or -1 |
| HistorySection.MergeBranches | src/components/HistorySection.jsx:183-184 | the merged set is the local entry's branches followed by the new history branches |
| HistorySection.RemotesForDisplay | src/components/HistorySection.jsx:164-194 | `remotesForDisplay` computes `DisplayRemotes` |
| HistorySection.DisplayMergesLocal | src/components/HistorySection.jsx:181-189 | with a `local` entry, only it changes: same place and url, statuses `[]`, branches the sorted, distinct union with the history branches |
| HistorySection.DisplayAddsLocal | src/components/HistorySection.jsx:190-193 | without one, history branches put a `local` entry in front; without history branches nothing changes |
| HistorySection.ShownLocalBranchesSpec | src/components/HistorySection.jsx:208-209 | the branches shown under `local` are sorted and distinct: the history's branches plus those of an existing `local` entry |
| HistorySection.StatusMap | src/components/HistorySection.jsx:196-206 | the nested loops compute `LastWins` of the status entries |
| HistorySection.StatusEntryFrom | src/components/HistorySection.jsx:198-203 | every entry is a status of a non-local remote, under `remote:branch` |
| HistorySection.RemoteStatusEntryFrom | src/components/HistorySection.jsx:200-203 | every entry of one remote is one of its statuses, under its key |
| HistorySection.StatusEntryOf | src/components/HistorySection.jsx:198-203 | every status of a non-local remote writes its key |
| HistorySection.RemoteStatusEntryOf | src/components/HistorySection.jsx:200-203 | every status of one remote writes its entry |
| HistorySection.StatusMapSpec | src/components/HistorySection.jsx:196-206 | the keys are exactly `remote:branch` of the statuses of non-local remotes; each value is such a status under its key, and the last one written |
| HistorySection.DeriveSsh | src/components/HistorySection.jsx:567-576 | a result exists iff the url is present and matches `/^https:\/\/github\.com\/(.+)$/i`; it is `git@github.com:` and the part after the prefix, kept as written |
| HistorySection.DeriveSshSpec | src/components/HistorySection.jsx:567-576 | an address whose first 19 characters are `https://github.com/` in any case, followed by a non-empty path without line breaks, becomes `git@github.com:` and that path; any other address of at least 19 characters is null (shorter ones: `DeriveSshShort`) |
| HistorySection.DeriveSshShort | src/components/HistorySection.jsx:571-572 | an address no longer than `https://github.com/` gives null, whatever its case |
| HistorySection.DeriveSshNull | src/components/HistorySection.jsx:569 | a missing url gives null |
| StatusFiles.Resolve | src/components/StatusFilesSection.jsx:49 | the `get` helper gives a value with no ASCII capital and no white space at either end, and `''` when neither key holds a string; `SpecificWins` and `ParentFallback` give its lookup order |
| StatusFiles.KeysSpec | src/components/StatusFilesSection.jsx:45-48 | the specific key equals the shared key iff there is no status mode; otherwise it is `file status/ <mode>/ <name>` |
| StatusFiles.ToLowerToLower | src/components/StatusFilesSection.jsx:49 | lower-casing is idempotent |
| StatusFiles.NormalizeSpec | src/components/StatusFilesSection.jsx:49 | a resolved value has no capitals and no white space at its ends, and normalising it again changes nothing |
| StatusFiles.SpecificWins | src/components/StatusFilesSection.jsx:49 | a non-null specific value decides, even `''`; the shared key is then ignored |
| StatusFiles.ParentFallback | src/components/StatusFilesSection.jsx:49 | a null or absent specific value falls back to the shared one, and else to `''` |
| StatusFiles.ApplyPreferences | src/components/StatusFilesSection.jsx:37-57 | the effect changes nothing when preferences are off, the response has errors or it was cancelled; the view can only become `tree` or `list`; the two signals never both move; `ApplyPreferencesSpec` states it in full |
| StatusFiles.ApplyPreferencesSpec | src/components/StatusFilesSection.jsx:37-57 | nothing changes when preferences are off, the response has errors, or the effect was cancelled; the view changes only to `tree` or `list`, exactly when so resolved; each signal goes up by one exactly when `expanded` or `collapsed` resolves; never both |

## Findings

| source | as written | input that shows it | evidently intended | confidence | as-written member | corrected member |
|---|---|---|---|---|---|---|
| src/app/api/graphql/route.js:401 | `parseLog` drops every empty NUL-separated field before cutting the output into groups of seven | a root commit: its `%P` field (git format at route.js:109) is empty, so its six remaining fields are no whole group and it disappears; with more commits, every later group is misaligned | cut the fields into groups of seven without dropping empty ones, so a root commit reads with `parents = []` | not executed | GraphqlParse.ParseLogDropsRootCommit | GraphqlParse.ParseLogFieldsRoundTrip |

`GraphqlParse.ParseLog` models the code as written. `GraphqlParse.ParseLogFields`
is the corrected reading, and its round trip over `FormatLog` is proved. The
lane code downstream takes its commit list as a parameter, so it does not
depend on which parser produced the list.

## Left out

- I/O is not modelled: the `git` subprocesses, file reads, `fetch`/GraphQL
  requests and settings storage. Their results are parameters: the text of
  `git log`/`git status`, `ReadResult` for a `HEAD` file, and `Response`
  for the settings query.
- React rendering, hooks, refs and scrolling are not modelled. Effects are
  methods on the state they change (`TreeView.Expansion`) or functions from
  the old state to the new one (`StatusFiles.ApplyPreferences`). The
  `cancelled` flag is a parameter, and effect timing is not modelled.
- A settings request that throws is not modelled apart from errors; both
  change nothing.
- The persistence of the view to `localStorage`
  (`StatusFilesSection.jsx:30-34`) is not modelled, because it is storage I/O.
- LayoutGeometry.RouteEdges: the bezier control points (`c1`, `c2`) and the
  tension are floating point and are not modelled. Only the kind, endpoints,
  key and skipping are. The unused `parentLanesByCommit` argument is
  accepted and ignored.
- Coordinates are integers: lanes, sizes and row positions are whole numbers
  here, while JavaScript numbers are floating point.
- `localeCompare` is an abstract comparison, assumed total and transitive.
  The locale's actual collation is not modelled.
- `parsePorcelainZ` sorts by Dafny's character order. Dafny characters are
  Unicode scalar values, while JavaScript compares UTF-16 code units, so the
  order differs only for characters above U+FFFF.
- `toLowerCase` is modelled for ASCII letters only. `trim` follows
  JavaScript's white-space set.
- TreeView.BuildTree: the tree of mutable objects is a table from each
  node's segments to the node. Children are listed in `Map` insertion order.
  Object identity and aliasing (`cur` pointing into the tree) are not
  modelled; the lazily created `children` Map is a possibly empty list.
- HistorySection.NormalizeRemote: a `url`, or a status's `remote`, that is a
  truthy non-string is modelled as missing. JavaScript would keep it.
- A `null` remote or status entry is modelled as one without a string name
  or branch. It is dropped either way.
- The regex-driven code is not modelled: `inferOperation`, the parsing of
  `git remote -v` and the push-error classification in
  `HistorySection.jsx:465-473`. Their behaviour depends on regular
  expressions over free-form git output.
- `listLocalRepositories` and its `localeCompare` sort in `src/lib/repos.js`
  are not modelled. They are directory listing and locale ordering around
  `readBranch`.
- Repos.IsFullSha is written out as 40 hexadecimal digits, not through a
  regular-expression engine. `deriveSsh`'s pattern is written out the same
  way (`HistorySection.MatchesGithubHttps`).
- The `stage` resolver's repository lookup and its `git` call are not
  modelled. `GraphqlParse.StageArgs` models the checks and the argument
  vector only.
