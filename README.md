# legoHDL core, modelled in Dafny

legoHDL is a package manager and build assistant for VHDL and Verilog.
Designs are grouped into *blocks*, named by a title `library.name`. A block
can carry a version. It can live in three places: downloaded ("local"),
available in a market, or installed into the cache. Installed blocks can
also be pinned to a partial version, such as `v1` or `v1.2`.

This project models the logic at the centre of the program:

- **Graph**: the dependency graph of design units. It keeps forward and
  reverse adjacency lists, and its counting topological sort computes a
  build order.
- **Inventory** and **Title**: the table that maps a block title and its
  level (dnld, avail, instl) to the blocks stored there. This includes
  snapping a requirement string to a title, the full-title form
  `lib.name(@v1.2.3)`, that form after `getFull`, and entity selection.
- **Version**: version tags, for example `v1.2.3` and `1_2_3`. This covers
  parsing, validity, comparison, the `mergeSort` of a version list, and
  the highest tagged version.
- **Release**: the version-bump rule a release uses.
- **Stability**: the `checkStability` walk over the requirement hierarchy.
- **Requires**: how `updateRequires` rebuilds the requirement lists.
- **Installs**: the recursive `installReqs` walk.
- **CfgFile**: the reader and writer of the `.cfg` format, and the
  field/tunnel helpers over nested dictionaries.
- **Units**: design units, their ports and signals, and the component
  recognition (`ICR`) that picks the best-matching entity.
- **Apparatus**: the shared settings and their repair in `load`, plus the
  `fs` and `isSubPath` path helpers and the `merge` of library maps.
- **Workspaces**: workspaces and their links to markets.
- **Strings**, **Lists** and **Dict**: the Python string, list and
  case-insensitive dictionary operations the rest relies on. `Lower` and
  `Split` are examples.

Objects whose fields the program updates in place are Dafny classes. These
are `Graph`, `Store` (the inventory), `Settings`, `Registry`, `Unit`,
`Workspace` and `Installer`. Their methods are proved against
specification functions of the old state. Pure helpers are functions, and
lemmas state their properties.

Prompts to the user become boolean parameters. Files, git and the console
are not modelled; what stands in for each is listed under "Left out".

## Model

| member | source | states |
|---|---|---|
| Graph.EmptyWellFormed | src/legohdl/graph.py:18-34 | a new or cleared graph is well formed, closed and mirrored |
| Graph.AddVertexSpec | src/legohdl/graph.py:37-51 | addVertex gives a new vertex empty lists in both directions, adds it to the vertex set, changes no existing list, does nothing if the vertex is present, and is idempotent |
| Graph.AddVertexKeeps | src/legohdl/graph.py:37-51 | addVertex keeps a closed, mirrored graph closed and mirrored |
| Graph.AddEdgeSpec | src/legohdl/graph.py:54-73 | after addEdge both ends are vertices, derivative is in integral's forward list and integral in derivative's reverse list, and every other list is unchanged |
| Graph.AddBoth | src/legohdl/graph.py:65-66 | the two addVertex calls of addEdge add both ends and change no existing list |
| Graph.AddEdgeTwice | src/legohdl/graph.py:68-72 | addEdge is idempotent: no parallel edges |
| Graph.LinkSpec | src/legohdl/graph.py:68-72 | the list updates of addEdge add exactly the one entry on each side, without repeats |
| Graph.LinkLists | src/legohdl/graph.py:68-72 | entry by entry, each forward (reverse) list after the update holds its old entries plus the new end, nothing else |
| Graph.AddEdgeKeeps | src/legohdl/graph.py:54-73 | addEdge keeps a closed, mirrored graph closed and mirrored |
| Graph.LinkKeeps | src/legohdl/graph.py:68-72 | the list updates keep a closed, mirrored graph closed and mirrored |
| Graph.AddEdgeExact | src/legohdl/graph.py:54-73 | the forward edges after addEdge are exactly the old edges and the new one, on the old vertices and the two ends |
| Graph.RemoveVertexSpec | src/legohdl/graph.py:76-90 | removeVertex drops exactly that vertex's entries and keeps every other list and the mirror property |
| Graph.RemoveVertexAbsent | src/legohdl/graph.py:85-89 | removing a vertex that is not present changes nothing |
| Graph.RemoveEdgeSpec | src/legohdl/graph.py:93-108 | the corrected removeEdge keeps the vertices, removes the edge from both lists, and fails (the KeyError) exactly when an end is not a vertex |
| Graph.RemoveEdgeKeeps | src/legohdl/graph.py:93-108 | a completed corrected removeEdge keeps a closed, mirrored graph closed and mirrored |
| Graph.UnlinkLists | src/legohdl/graph.py:103-107 | entry by entry, the corrected removeEdge takes out only the one edge on each side |
| Graph.RemoveEdgeAsWrittenStale | src/legohdl/graph.py:103-107 | as written, after addEdge(a, b) and removeEdge(a, b) vertex a is no longer a dependency neighbour of b, yet b still lists a upstream: the graph stops being mirrored |
| Graph.NeighborsMirror | src/legohdl/graph.py:289-306 | on a mirrored graph, w is a downstream neighbour of v exactly when v is an upstream neighbour of w |
| Graph.NeighborsAfterAddEdge | src/legohdl/graph.py:289-306 | after addEdge(i, d), getNeighbors(i) holds d and getNeighbors(d, upstream) holds i |
| Graph.PendingZero | src/legohdl/graph.py:139 | a dependency count of zero means every dependency is already sorted |
| Graph.PendingAppend | src/legohdl/graph.py:148-151 | sorting x lowers a vertex's count by one exactly when x is one of its dependencies |
| Graph.DecStep | src/legohdl/graph.py:148-151 | one step of the decrement loop changes only that vertex's count |
| Graph.ProcessStep | src/legohdl/graph.py:139-151 | sorting a vertex whose count is zero keeps the loop state: distinct sorted vertices, each after its dependencies, and exact pending counts |
| Graph.ProcessTopo | src/legohdl/graph.py:139-141 | a vertex all of whose dependencies are sorted can be appended to the order |
| Graph.ProcessCount | src/legohdl/graph.py:146-151 | each count after sorting a vertex: -1 if sorted, otherwise the number of its dependencies still unsorted |
| Graph.ReadyBelow | src/legohdl/graph.py:136-139 | in an acyclic, closed graph, following unsorted dependencies down the rank reaches an unsorted vertex of count zero |
| Graph.NoStall | src/legohdl/graph.py:136-153 | while some vertex is unsorted there is a vertex the next pass will sort, so the while loop progresses |
| Graph.AllSorted | src/legohdl/graph.py:136 | once the order holds as many distinct vertices as the graph, it holds all of them |
| Graph.BlockOrderSpec | src/legohdl/graph.py:143-144 | the block order holds every owner once, in first-seen order, with the last unit's owner at the end |
| Graph.SweptTake | src/legohdl/graph.py:139-152 | taking a vertex of count zero during a pass keeps the pass's state |
| Graph.SweptSkip | src/legohdl/graph.py:138-153 | passing over a vertex whose count is not zero keeps the pass's state |
| Graph.SweepProgressed | src/legohdl/graph.py:138-153 | a pass that starts with an unsorted vertex of count zero sorts at least one vertex |
| Graph.Graph.constructor | src/legohdl/graph.py:18-27 | a new graph is empty |
| Graph.Graph.Clear | src/legohdl/graph.py:30-34 | clear empties both adjacency dictionaries |
| Graph.Graph.AddVertex | src/legohdl/graph.py:37-51 | the new state is AddVertexTo of the old state, keeping the invariant |
| Graph.Graph.AddEdge | src/legohdl/graph.py:54-73 | the new state is AddEdgeTo of the old state, keeping the invariant |
| Graph.Graph.Connect | src/legohdl/graph.py:68-72 | the list half of addEdge, the new state being Link of the old state |
| Graph.Graph.RemoveVertex | src/legohdl/graph.py:76-90 | the new state is RemoveVertexFrom of the old state, keeping the invariant |
| Graph.Graph.RemoveEdge | src/legohdl/graph.py:93-108 | the corrected removeEdge: the new state and the KeyError flag are RemoveEdgeFrom of the old state |
| Graph.Graph.GetNeighbors | src/legohdl/graph.py:289-306 | getNeighbors returns the forward or reverse list, or [] for an unknown vertex |
| Graph.Graph.GetVertices | src/legohdl/graph.py:309-311 | getVertices lists every vertex exactly once |
| Graph.Graph.InitCounts | src/legohdl/graph.py:130-133 | every vertex's starting count is the length of its forward list |
| Graph.Graph.Decrement | src/legohdl/graph.py:148-151 | the counts after the inner loop are one less for every vertex whose list holds the unit |
| Graph.Graph.Take | src/legohdl/graph.py:139-152 | the unit is appended, its owner added to the block order if new, its count set to -1, and its dependants decremented |
| Graph.Graph.Sweep | src/legohdl/graph.py:138-153 | one pass of the for loop ends in the Swept state over all vertices |
| Graph.Graph.TopologicalSort | src/legohdl/graph.py:111-162 | on an acyclic, closed graph, order holds every vertex once with each vertex after all its dependencies; the block order is the first-seen owners with the last unit's owner moved to the end; the error exit happens exactly when the graph is empty |
| Title.Wrap | src/legohdl/block.py:2346-2348 | the slot `sects[diff+i]` that a negative index reaches wraps around the three sections as Python does |
| Title.Sects | src/legohdl/block.py:2343-2348 | placing the pieces always gives three sections, or None for the IndexError |
| Title.SectsFew | src/legohdl/block.py:2344-2348 | one to three pieces are right-aligned into vendor, library and name, and missing sections are '' |
| Title.SectsWrap | src/legohdl/block.py:2346-2348 | four to six pieces wrap around: the negative indices overwrite sections from the end, as written |
| Title.SnapTitleMany | src/legohdl/block.py:2344-2348 | seven or more pieces make the loop index out of range, so snapTitle fails |
| Title.Unlabelled | src/legohdl/block.py:2338-2341 | cutting the version label never lengthens the title |
| Title.SnapFull | src/legohdl/block.py:2316-2362 | snapTitle reads back the vendor, library and name that getFull writes, with no version (also block.py:2551-2567) |
| Title.SnapFullVersion | src/legohdl/block.py:2338-2341 | with a version chain, snapTitle reads back the same sections and, as the version, the standardised chain of sorted versions ending in '@V' (also block.py:2568-2579) |
| Title.Labelled | src/legohdl/block.py:2338-2341 | on `base(chain)` the label is the standardised chain and the rest is base |
| Title.NoLabel | src/legohdl/block.py:2338-2341 | a title without '(' has no version label |
| Title.ValidTitleFull | src/legohdl/block.py:1571-1592 | validTitle of a full title holds exactly when its library and name are non-empty |
| Title.SnapEntity | src/legohdl/block.py:2349-2360 | with inc_ent, snapTitle cuts the entity from the name at the first ENTITY_DELIM |
| Title.CutEntity | src/legohdl/block.py:2350-2354 | a name holding ENTITY_DELIM splits into the name before it and the entity after it |
| Title.DelimCounted | src/legohdl/block.py:2351 | a name holding ENTITY_DELIM has a non-zero count of it |
| Title.DelimAt | src/legohdl/block.py:2352 | find locates the first ENTITY_DELIM |
| Title.GetTitleSpec | src/legohdl/block.py:319-331 | getTitle(index, dist) returns the dist+1 sections ending at index |
| Title.GetTitleWraps | src/legohdl/block.py:319-331 | with dist above index the start counts back from the end of (M, L, N), from 0 once it passes the front: getTitle(0, 1) and getTitle(1, 2) give (), getTitle(2, 3) gives (N,) and getTitle(2, 4) gives (L, N) |
| Title.StripChainFull | src/legohdl/block.py:172-175 | cutting the partial versions from a getFull identifier gives the identifier with only '@V' (also block.py:2568-2579) |
| Title.SortedFree | src/legohdl/block.py:2573 | sorting the versions brings in no '(' or '@' |
| Title.StripShape | src/legohdl/block.py:172-175 | on `base(pre@v)`, the cut keeps `base(@v)` |
| Title.ChainPrefix | src/legohdl/block.py:2571-2575 | the version chain is some prefix free of '(' and '@' followed by '@V' |
| Title.LastAt | src/legohdl/block.py:173 | rfind('@') finds the '@' placed before a version free of '@' |
| Title.SnapTitle | src/legohdl/block.py:2316-2360 | defines snapTitle's split of a title into vendor, library, name, version label and entity; what it gives back is stated by Title.SnapFull, Title.SnapFullVersion, Title.SnapEntity and Title.SnapTitleMany |
| Title.GetFull | src/legohdl/block.py:2551-2580 | defines getFull with and without the version chain; Title.SnapFull and Title.SnapFullVersion state that snapTitle splits it back into its parts |
| Title.ValidTitle | src/legohdl/block.py:1571-1592 | defines validTitle; Title.ValidTitleFull states that every full title is valid |
| Title.GetTitle | src/legohdl/block.py:319-331 | defines getTitle's slice of (M, L, N); Title.GetTitleSpec and Title.GetTitleWraps state which parts it returns |
| Title.StripChain | src/legohdl/block.py:172-175 | defines the removal of partial versions from a requirement; Title.StripChainFull states that it turns a chained title into the plain versioned title |
| Version.VerLeTotal | src/legohdl/block.py:983-989 | the order cmpVer uses on (major, minor, patch) is total and antisymmetric |
| Version.VerLeTrans | src/legohdl/block.py:983-989 | that order is transitive |
| Version.StdVerShape | src/legohdl/block.py:948-956 | stdVer leaves no '_', and with add_v (and not rm_v) a non-empty result starts with 'v' |
| Version.StdVerFixed | src/legohdl/block.py:948-967 | stdVer without options leaves a version with no '_' and no trailing '.' unchanged |
| Version.FirstLastDot | src/legohdl/block.py:1044-1058 | for `a.b.c` with dot-free parts, the first and last dots split the string back into a, b and c |
| Version.DotsAt | src/legohdl/block.py:1044-1045 | the positions find and rfind give for the first and last dots of `a.b.c` |
| Version.ReadThree | src/legohdl/block.py:1044-1059 | for `a.b.c` the three parts are parsed with int() independently, each failing part giving 0 |
| Version.SepVerFormat | src/legohdl/block.py:1027-1059 | sepVer reads back the (major, minor, patch) that the `vM.m.p` format writes |
| Version.SepVerEmpty | src/legohdl/block.py:1039-1040 | sepVer of the empty string is (0, 0, 0) |
| Version.SepVerNull | src/legohdl/block.py:367 | sepVer of the starting value 'v0.0.0' is (0, 0, 0) |
| Version.CmpVer | src/legohdl/block.py:971-989 | cmpVer returns rver exactly when lver is at most rver, so a tie goes to rver |
| Version.CmpVerRight | src/legohdl/block.py:981-989 | cmpVer returns rver if and only if sepVer(lver) <= sepVer(rver) |
| Version.CmpVerLeft | src/legohdl/block.py:981-989 | cmpVer returns lver if and only if lver is strictly higher or both arguments are the same string |
| Version.ValidVerFormat | src/legohdl/block.py:993-1023 | every `vM.m.p` with non-negative parts is a valid 3-place version |
| Version.SepStdThree | src/legohdl/block.py:1038-1059 | a standardised `p0.p1.p2` with decimal parts separates into those numbers, after dropping a leading 'v' |
| Version.ValidVerParts | src/legohdl/block.py:1005-1011 | a valid 3-place version standardises to exactly three dot-free parts |
| Version.ValidVerSepVer | src/legohdl/block.py:993-1059 | for a valid version that does not start with 'V', sepVer gives the decimal values of the three parts |
| Version.ValidVerUpperV | src/legohdl/block.py:1014-1048 | validVer accepts a leading 'V', but sepVer then cannot read the major part and gives 0 |
| Version.MergePerm | src/legohdl/block.py:839-853 | the merge of two lists is a permutation of their concatenation |
| Version.MergeProps | src/legohdl/block.py:839-853 | merging two lists sorted highest-first gives a permutation that is also sorted highest-first |
| Version.MergeSortSorted | src/legohdl/block.py:833-864 | sortVersions returns a permutation of its input, sorted from highest to lowest |
| Version.MergeSortPerm | src/legohdl/block.py:856-864 | the recursive split and merge keeps every element and its multiplicity |
| Version.MergeSortOrder | src/legohdl/block.py:856-864 | the recursive split and merge gives a list sorted highest-first |
| Version.MergeStepBy | src/legohdl/block.py:844-848 | one pop of the merge loop keeps its invariant, on whichever side is taken |
| Version.MergeStep | src/legohdl/block.py:844-848 | the same step, taking the side cmpVer picks |
| Version.MergeDone | src/legohdl/block.py:849-853 | appending what is left of either list after the loop gives the merge |
| Version.MergeLists | src/legohdl/block.py:839-853 | the inner mergeSort's while loop computes the merge of its two lists |
| Version.SortVersions | src/legohdl/block.py:833-864 | sortVersions returns the merge sort of its input, a highest-first permutation of it |
| Version.HighestStepBy | src/legohdl/block.py:368-370 | one step of the loop keeps the highest-so-far invariant |
| Version.HighestStep | src/legohdl/block.py:368-370 | the same step, with the comparison cmpVer makes |
| Version.HighestTaggedVersion | src/legohdl/block.py:356-371 | the result is at least every tag; it is one of the tags, the last of the highest value, or else it is 'v0.0.0' and every tag is below 0.0.0 |
| Version.ReleaseVersionsSound | src/legohdl/block.py:921-927 | every version kept comes from a tag that ends in TAG_ID and is a valid version once the suffix is cut |
| Version.ReleaseVersionsComplete | src/legohdl/block.py:921-927 | every tag that qualifies gives its version to the list |
| Version.TagOfVersion | src/legohdl/block.py:922-926 | a valid version with no '-' followed by TAG_ID is read back as that version |
| Version.TaggedVersions | src/legohdl/block.py:898-931 | getTaggedVersions splits the tag listing at newlines and keeps the qualifying versions in order, each of them valid |
| Version.StdVer | src/legohdl/block.py:935-967 | defines stdVer; Version.StdVerShape and Version.StdVerFixed state the shape of its result |
| Version.SepVer | src/legohdl/block.py:1027-1059 | defines sepVer; Version.SepVerFormat, Version.SepVerEmpty, Version.SepVerNull and Version.ValidVerSepVer state the numbers it reads back |
| Version.ValidVer | src/legohdl/block.py:993-1023 | defines validVer; Version.ValidVerFormat, Version.ValidVerParts and Version.ValidVerUpperV state which texts it accepts |
| Version.MergeSort | src/legohdl/block.py:833-864 | defines sortVersions' merge sort; Version.MergeSortSorted, Version.MergeSortPerm and Version.MergeSortOrder state that it sorts highest first and permutes its input |
| Version.TagVersion | src/legohdl/block.py:921-927 | defines the reading of one git tag as a release version; Version.TagOfVersion, Version.ReleaseVersionsSound and Version.ReleaseVersionsComplete state which tags it keeps |
| Release.Normalise | src/legohdl/block.py:570-572 | the stored release point is lower-case and starts with 'v' |
| Release.NormaliseFormat | src/legohdl/block.py:538-572 | a computed `vM.m.p` is stored unchanged |
| Release.BumpWords | src/legohdl/block.py:534-551 | 'major' gives (M+1, 0, 0), 'minor' gives (M, m+1, 0), 'patch' gives (M, m, p+1) from the highest tag, matched case-blind; any other word is refused (also block.py:481-483) |
| Release.BumpFormat | src/legohdl/block.py:534-551 | a bump word's release point is the formatted incremented version |
| Release.ExplicitVersion | src/legohdl/block.py:484-533 | an explicit 3-part version is refused exactly when it is not higher than the highest tag; otherwise it is the release point, normalised |
| Release.NextVersionHigher | src/legohdl/block.py:527-551 | every accepted release point is strictly higher than the highest tag |
| Release.ComparedHigher | src/legohdl/block.py:531 | passing the cmpVer test means being strictly higher |
| Release.IncrementHigher | src/legohdl/block.py:536-547 | the bumped version, formatted and normalised, is strictly higher than the highest tag |
| Release.IncrementAbove | src/legohdl/block.py:536-547 | each bump gives a strictly higher version |
| Release.UpperVRefused | src/legohdl/block.py:484 | as written, an explicit version with a capital 'V' reads as major 0 and is refused whenever the highest tag has a non-zero major (also block.py:531 and block.py:1041-1048) |
| Release.UpperForm | src/legohdl/block.py:1014 | the capital-'V' spelling of a version, which validVer accepts |
| Release.UpperVDisagree | src/legohdl/block.py:530-572 | for a version higher than the highest tag, the written rule refuses its 'V' spelling while the corrected rule accepts it as the lower-cased version |
| Release.NormaliseUpper | src/legohdl/block.py:570-572 | normalising the 'V' spelling gives the ordinary `vM.m.p` |
| Release.UpperFormValid | src/legohdl/block.py:993-1023 | the 'V' spelling is a valid 3-place version |
| Release.NextVersion | src/legohdl/block.py:527-551 | defines the corrected release point; Release.NextVersionHigher states that an accepted point is higher than the highest tag |
| Release.NextVersionAsWritten | src/legohdl/block.py:527-531 | defines the release point as written; Release.UpperVRefused and Release.UpperVDisagree exhibit the input it refuses |
| Inventory.Targets | src/legohdl/block.py:171-175 | each requirement's target is the requirement with its partial versions cut out |
| Inventory.StoredSpec | src/legohdl/block.py:156-164 | an admitted block of level below 3 fills its own slot, no other slot changes, and a refused block or a level of 3 or more changes nothing |
| Inventory.StoredRejectsSecond | src/legohdl/block.py:158-161 | after a block is stored, a second block of the same level is refused |
| Inventory.ClearedReadmits | src/legohdl/block.py:279-281 | after delete clears the slot, the block can be added again (also block.py:156-164) |
| Inventory.SoleCopyAsks | src/legohdl/block.py:266-268 | deleting a block that exists at no other level asks for confirmation |
| Inventory.FullSlotsDoNotAsk | src/legohdl/block.py:266-271 | with all three slots filled, only a prompted delete of a download asks |
| Inventory.EdgesWellFormed | src/legohdl/block.py:171-178 | adding the requirement edges keeps the hierarchy well formed |
| Inventory.EdgesVertices | src/legohdl/block.py:171-178 | the vertices after adding the edges are the old ones and every target |
| Inventory.EdgesExact | src/legohdl/block.py:171-178 | the block's own dependencies become its old ones plus every target, nothing else |
| Inventory.AddEdgeFrom | src/legohdl/block.py:178 | one addEdge adds exactly the one target to the block's list |
| Inventory.EdgesOthers | src/legohdl/block.py:171-178 | the lists of other vertices are untouched |
| Inventory.TargetsAppend | src/legohdl/block.py:171-175 | the targets of one more requirement are the old targets and its cut identifier |
| Inventory.WiredSpec | src/legohdl/block.py:166-179 | a block without requirements leaves the hierarchy alone; otherwise its vertex exists, its neighbours become its old ones plus the targets, and every other vertex keeps its neighbours |
| Inventory.WiredEdges | src/legohdl/block.py:169-178 | the vertex and its edges together give the neighbour set of WiredSpec |
| Inventory.Store.constructor | src/legohdl/block.py:148-155 | the inventory starts empty over a valid hierarchy graph |
| Inventory.Store.AddToInventory | src/legohdl/block.py:137-181 | the result is whether the slot was free; only the block's key changes, its slots becoming Stored; the hierarchy is wired only when the block was added; an added block is what getLvlBlock returns |
| Inventory.Store.Wire | src/legohdl/block.py:166-179 | the hierarchy becomes Wired of the old hierarchy |
| Inventory.Store.Require | src/legohdl/block.py:171-178 | the loop adds an edge from the block's vertex to every target |
| Inventory.Store.Delete | src/legohdl/block.py:250-302 | the block's slot is cleared exactly when no confirmation is needed or it is given; otherwise nothing changes |
| Inventory.PartialCode | src/legohdl/block.py:1654-1657 | a specific-version block reports the name of its folder |
| Inventory.CodesDiffer | src/legohdl/block.py:1648-1659 | getRequiresCode is 'unstable' exactly for a download, 'latest' exactly for an install, and a 'v' version for an available block |
| Inventory.IsCorrupt | src/legohdl/block.py:1703-1740 | the loop over the required keys computes the Corrupt predicate: invalid, a missing key, an empty name or library, or a version that does not match |
| Inventory.TaggedNotCorrupt | src/legohdl/block.py:1716-1735 | a complete metadata is not corrupt for 'v' followed by its version, and is corrupt for any version that does not match |
| Inventory.PinKeeps | src/legohdl/block.py:1954-1972 | the pin is kept exactly when it exists and the new version is not higher, replaced exactly when the new version is higher, and created exactly when none exists |
| Inventory.SubVerFormat | src/legohdl/block.py:1954-1955 | the first 1, 2 and 3 dot-parts of `vM.m.p` are `vM`, `vM.m` and the whole version |
| Inventory.ExtOf | src/legohdl/block.py:1992 | the extension splitext gives for `stem.ext` |
| Inventory.MarkerExt | src/legohdl/block.py:1992-1999 | the marker file's lower-cased extension is '.lock' |
| Inventory.LockNotSource | src/legohdl/block.py:1999 | '*.lock' is not a source-code pattern |
| Inventory.PartialDropsMarker | src/legohdl/block.py:1995-2013 | as written a partial install deletes the marker file Block.lock, which makes the new block corrupt; the corrected filter keeps it |
| Inventory.KeepSource | src/legohdl/block.py:1998-2000 | a file with a supported source extension is kept by both filters |
| Inventory.SourceExt | src/legohdl/block.py:1999 | the pattern looked up is '*' followed by the lower-cased extension |
| Inventory.SelectionSpec | src/legohdl/block.py:2089-2102 | the selection holds exactly the installed versions that agree with every given part |
| Inventory.MatchesLonger | src/legohdl/block.py:2093-2097 | a version whose leading parts equal the given parts is selected |
| Inventory.Skips | src/legohdl/block.py:2092-2097 | the inner loop skips a version exactly when it does not match |
| Inventory.Uninstall | src/legohdl/block.py:2063-2136 | not installed fails; no version selects all installs plus 'latest'; a version selects the matching installs and fails when none match; the result also needs the confirmation |
| Inventory.Pin | src/legohdl/block.py:1954-1972 | defines the pin decision; Inventory.PinKeeps states that a pin at least as high is kept |
| Inventory.SubVer | src/legohdl/block.py:1954-1955 | defines the partial-version key; Inventory.SubVerFormat states its form |
| Inventory.RequiresCode | src/legohdl/block.py:1648-1659 | defines getRequiresCode; Inventory.CodesDiffer and Inventory.PartialCode state which code each installation gets |
| Inventory.Corrupt | src/legohdl/block.py:1703-1740 | defines isCorrupt's test; Inventory.IsCorrupt decides it and Inventory.TaggedNotCorrupt states that a well-formed release passes |
| Inventory.KeepFile | src/legohdl/block.py:1987-2000 | defines the corrected choice of kept files: hidden files, which the glob never lists, the marker and the HDL sources; Inventory.KeepSource and Inventory.HiddenKept state that they stay (also block.py:2013) |
| Inventory.HiddenKept | src/legohdl/block.py:1987-2000 | a file whose name starts with '.', such as .gitignore, is not matched by the glob and so stays in a partial version under both filters |
| Inventory.KeepFileAsWritten | src/legohdl/block.py:1987-2000 | defines the choice of kept files as written: hidden files, 'Block.cfg' and the HDL sources; Inventory.PartialDropsMarker exhibits the marker it drops (also block.py:2013) |
| Inventory.Wired | src/legohdl/block.py:166-179 | defines the hierarchy after addToInventory; Inventory.WiredSpec and Inventory.WiredEdges state its vertices and edges |
| Inventory.Selection | src/legohdl/block.py:2089-2102 | defines the installations uninstall selects; Inventory.SelectionSpec states which |
| Stability.ScanReqs | src/legohdl/block.py:734-747 | the first loop fails exactly when some requirement's version mentions 'unstable'; otherwise it returns the lower-cased specific identifiers and, in order, those of the requirements using 'latest' |
| Stability.ScanStep | src/legohdl/block.py:735-746 | one requirement keeps the loop's state: one more identifier, and one more 'latest' entry when it asks for the latest |
| Stability.SpecsStep | src/legohdl/block.py:740-743 | the identifiers of one more requirement are the old ones and its own |
| Stability.LatestStep | src/legohdl/block.py:745-746 | the 'latest' list grows by the requirement's identifier exactly when its version mentions 'latest' |
| Stability.ScanFails | src/legohdl/block.py:737-738 | one unstable requirement makes the whole list unstable |
| Stability.LookupTitled | src/legohdl/block.py:771-789 | the requirements found in the cache are titles |
| Stability.FilterIn | src/legohdl/block.py:754 | the corrected filter keeps only neighbours from the list (also block.py:823) |
| Stability.FilterInAsWritten | src/legohdl/block.py:754 | the filter as written keeps only neighbours that literally appear in the lower-cased identifiers (also block.py:823) |
| Stability.NeighborsBelow | src/legohdl/block.py:752 | on a ranked hierarchy every neighbour has a lower rank (also block.py:821) |
| Stability.SumWorkTotal | src/legohdl/block.py:758-826 | the two forms of the work measure agree |
| Stability.FilterLess | src/legohdl/block.py:754 | filtering the neighbours never increases the remaining work (also block.py:823) |
| Stability.NextLess | src/legohdl/block.py:821-825 | the work of a block's filtered neighbours is below the block's own work, which makes the while loop terminate |
| Stability.MeasureLast | src/legohdl/block.py:761 | popping the last pending entry takes its work out of the measure |
| Stability.PopLast | src/legohdl/block.py:758-763 | popping the worklist sets up the inner loop with an answer equal to every pending entry passing |
| Stability.AllPassLast | src/legohdl/block.py:761 | the worklist passes exactly when its front passes and its last entry's blocks all pass |
| Stability.WalkStep | src/legohdl/block.py:763-825 | visiting one block found in the cache pushes its filtered neighbours onto the front of the worklist and keeps the invariant |
| Stability.AllPassCons | src/legohdl/block.py:825 | a worklist with a new head passes exactly when the head and the rest both pass |
| Stability.WalkFails | src/legohdl/block.py:772-809 | a block that is missing from the cache or has an unstable requirement makes the answer False |
| Stability.NextTitled | src/legohdl/block.py:821-823 | the neighbours pushed are titles |
| Stability.StepFound | src/legohdl/block.py:771-818 | the step taken for a block: fail when not found or unstable, otherwise its identifiers and its 'latest' list |
| Stability.WlPop | src/legohdl/block.py:761 | a popped entry holds titles, and so does the rest of the worklist |
| Stability.WlPush | src/legohdl/block.py:825 | pushing titles keeps the worklist made of titles |
| Stability.StableStart | src/legohdl/block.py:749-757 | after a stable first scan, stability is the passing of the initial worklist of filtered neighbours |
| Stability.CheckStability | src/legohdl/block.py:718-830 | on an acyclic hierarchy, the walk with the corrected case-blind filter returns True exactly when the recursive stability definition holds: no requirement, direct or reached through the filtered hierarchy, is unstable, missing from the cache, or asks for an uninstalled version |
| Stability.StableEmpty | src/legohdl/block.py:729-830 | a block with no requirements is stable |
| Stability.FilterNothing | src/legohdl/block.py:754 | nothing is kept when there are no requirements |
| Stability.UnstableDirect | src/legohdl/block.py:737-738 | a direct requirement that mentions 'unstable' makes the block unstable |
| Stability.UnstableBelow | src/legohdl/block.py:821-825 | a visited neighbour that fails makes its parent fail, so failures propagate up the hierarchy |
| Stability.UnstableAt | src/legohdl/block.py:803-809 | a block in the cache with an unstable requirement fails |
| Stability.SpecVStrip | src/legohdl/block.py:740-742 | the identifier kept for a requirement is the lower-cased requirement with its partial versions cut out |
| Stability.SpecsLower | src/legohdl/block.py:742 | every kept identifier is already lower-case |
| Stability.FilterKeeps | src/legohdl/block.py:754 | the corrected filter keeps a neighbour whose lower-cased form is required |
| Stability.RequirementFollowed | src/legohdl/block.py:754 | with the corrected filter, the hierarchy edge of every requirement is followed (also block.py:823) |
| Stability.MixedCaseDropped | src/legohdl/block.py:754 | as written, the edge of a requirement whose title has an upper-case letter is never followed, because the neighbour is compared with the lower-cased list (also block.py:823) |
| Stability.MixedCaseNone | src/legohdl/block.py:754 | as written, no neighbour whose title has an upper-case letter passes the filter, because every listed identifier is lower-case (also block.py:823) |
| Stability.MixedCaseMissed | src/legohdl/block.py:718-830 | as written, a block whose requirements are all titled with an upper-case letter is judged stable from its own list alone, although one requirement has an unstable requirement of its own; the corrected walk judges the same block unstable |
| Stability.Stable | src/legohdl/block.py:718-830 | defines what checkStability answers; Stability.CheckStability is the walk proved to compute it, and Stability.StableEmpty, Stability.StableStart and Stability.UnstableDirect state its cases |
| Stability.Lookup | src/legohdl/block.py:771-789 | defines the requirement list the walk reads for a block; Stability.LookupTitled and Stability.StepFound state when it is found |
| Requires.Values | src/legohdl/block.py:2283 | every value listed is the value of one of the keys |
| Requires.TitlesOrdered | src/legohdl/block.py:2231-2240 | block_titles keeps its keys once each, in insertion order |
| Requires.TitlesSpec | src/legohdl/block.py:2231-2240 | each group of block_titles holds the first block filed under its key, which is not the block itself, and the codes of every block filed under that key, in order |
| Requires.TitlesNone | src/legohdl/block.py:2237-2239 | a key without an entry has no codes |
| Requires.TitlesKeys | src/legohdl/block.py:2231-2239 | every required block other than the block itself gets an entry |
| Requires.TitlesFrom | src/legohdl/block.py:2231-2239 | every entry comes from a required block other than the block itself |
| Requires.TitlesStep | src/legohdl/block.py:2231-2240 | one more block either starts a group or adds its code to the group of its key; the block itself is skipped |
| Requires.IdsOrdered | src/legohdl/block.py:2243-2247 | block_ids keeps its keys once each, in insertion order |
| Requires.IdsHas | src/legohdl/block.py:2244-2247 | every group's identifier is in block_ids |
| Requires.IdsFrom | src/legohdl/block.py:2244-2247 | every identifier in block_ids is that of a group |
| Requires.ListedOrdered | src/legohdl/block.py:2226-2228 | block_requires keeps its keys once each, in order |
| Requires.ListedKeys | src/legohdl/block.py:2226-2228 | block_requires holds exactly the lower-cased listed requirements |
| Requires.ChangedSpec | src/legohdl/block.py:2249-2265 | the update test detects exactly a difference between the two key sets |
| Requires.AnyMissing | src/legohdl/block.py:2256-2265 | each of the two loops finds exactly a key missing from the other map |
| Requires.UpdateRequires | src/legohdl/block.py:2193-2283 | the identifiers returned are the values of block_ids built from the first-seen owners, and update holds exactly when the listed requirements differ from them |
| Requires.CollectReqs | src/legohdl/block.py:2218-2221 | block_reqs holds each owner once, in first-seen order |
| Requires.CollectListed | src/legohdl/block.py:2226-2228 | the loop builds block_requires |
| Requires.CollectTitles | src/legohdl/block.py:2230-2240 | the loop builds block_titles |
| Requires.CollectIds | src/legohdl/block.py:2242-2247 | the loop builds block_ids |
| Requires.UpdateSpec | src/legohdl/block.py:2249-2265 | update holds exactly when the set of listed requirements differs, case-blind, from the set of computed identifiers |
| Requires.RequirementListed | src/legohdl/block.py:2219-2247 | every required block other than the block itself is filed with its code, and its group's identifier is written |
| Requires.CodesHas | src/legohdl/block.py:2239 | a block's code is among the codes of its key |
| Requires.CodesFrom | src/legohdl/block.py:2239 | every code filed under a key comes from a block with that key |
| Requires.Changed | src/legohdl/block.py:2249-2265 | defines updateRequires' change test; Requires.ChangedSpec states when it holds |
| Requires.Listed | src/legohdl/block.py:2226-2228 | defines block_requires; Requires.ListedOrdered and Requires.ListedKeys state its keys |
| Requires.IdsOf | src/legohdl/block.py:2244-2247 | defines block_ids; Requires.IdsOrdered, Requires.IdsHas and Requires.IdsFrom state its keys |
| Installs.ChainShape | src/legohdl/block.py:2571-2575 | the version chain getFull builds is the versions reversed, joined by '-', then '-' and '@V' |
| Installs.ChainRefs | src/legohdl/block.py:1766-1768 | installReqs reads back from a chain the version after '@' and, as references, the chained versions (also block.py:2571-2575) |
| Installs.AtSplit | src/legohdl/block.py:1766-1768 | the text before the '-' ahead of the first '@' is the chain head, and the text after the '@' is the version |
| Installs.ReadBack | src/legohdl/block.py:1764-1769 | reading an identifier that updateRequires wrote gives its title M.L.N, its own version and its codes in reverse sorted order (also block.py:2244-2247) |
| Installs.RefsHere | src/legohdl/block.py:1791-1804 | all references are satisfied exactly when every code is 'latest' or an installed version |
| Installs.DoneGrows | src/legohdl/block.py:1755-1811 | later tracking, installations and main installs keep the walked titles finished |
| Installs.DoneJoin | src/legohdl/block.py:1755-1811 | the titles walked in two stretches are finished together |
| Installs.CheckRefs | src/legohdl/block.py:1791-1804 | the loop over the references computes AllHere |
| Installs.TrackStep | src/legohdl/block.py:1757-1760 | tracking a new lower-cased title keeps the tracking list duplicate-free and in step with the walked titles |
| Installs.SoundWalk | src/legohdl/block.py:1755-1811 | walking further keeps every installation justified |
| Installs.SoundStep | src/legohdl/block.py:1783-1808 | an installation a walked title asks for keeps every installation justified |
| Installs.MainsSpecific | src/legohdl/block.py:1806-1808 | a specific-version install keeps the main installs as they were |
| Installs.MainsMain | src/legohdl/block.py:1783-1786 | a main install happens only for a block that had none, and once |
| Installs.Installer.constructor | src/legohdl/block.py:1743-1753 | a walk starts with nothing tracked and nothing installed, reading titles with snapTitle |
| Installs.Installer.InstallReqs | src/legohdl/block.py:1743-1812 | afterwards every requirement is tracked once, lower-cased; nothing tracked before is lost; every title this call tracked has its block's requirements tracked and an installation, plus its specific version when a reference is missing; every installation is justified |
| Installs.Installer.Take | src/legohdl/block.py:1755-1811 | one requirement: an already tracked title changes nothing; otherwise it ends tracked and finished |
| Installs.Installer.Visit | src/legohdl/block.py:1764-1811 | a tracked title's block, if found, has its requirements installed recursively and is then served |
| Installs.Installer.Serve | src/legohdl/block.py:1782-1808 | the block gets a main install when it had none, and a specific install when a reference is missing |
| Installs.Installer.Walk | src/legohdl/block.py:1760 | tracking a title appends it lower-cased |
| Installs.Installer.Record | src/legohdl/block.py:1786-1808 | recording an installation appends it, and a main install adds the block to those installed |
| CfgFile.PutGet | src/legohdl/cfgfile.py:47-52 | after storing a key, reading it gives the stored value and every other key reads as before |
| CfgFile.PutKeys | src/legohdl/cfgfile.py:47-52 | storing keeps the dictionary's key order and appends a new key at the end |
| CfgFile.TunnelSpec | src/legohdl/cfgfile.py:39-53 | tunnel succeeds exactly when every scope key leads to a dictionary; the key under the scope then holds the data, or a new empty dictionary, and no other top-level key changes |
| CfgFile.CastBoolText | src/legohdl/cfgfile.py:288-296 | castBool ignores case, reads each bool back from the text written for it, and passes bools through unchanged |
| CfgFile.LowerBool | src/legohdl/cfgfile.py:294 | the lower-cased words of the two bools |
| CfgFile.CastNoneSpec | src/legohdl/cfgfile.py:299-306 | castNone is None exactly for '' and returns every other string unchanged |
| CfgFile.CastIntText | src/legohdl/cfgfile.py:309-322 | castInt reads back every written integer, negative ones included |
| CfgFile.CastIntOther | src/legohdl/cfgfile.py:315-322 | text that is neither digits nor '-' followed by digits gives 0 |
| CfgFile.TrimAtSpec | src/legohdl/cfgfile.py:82-89 | a comment marker is trimmed only outside a quote, at its first occurrence, and only when no quote comes before it |
| CfgFile.LeadFromSpec | src/legohdl/cfgfile.py:96-103 | the indentation loop stops at the first character that is not a space or tab |
| CfgFile.LevelTabs | src/legohdl/cfgfile.py:95-105 | a line indented by d tabs is at level d |
| CfgFile.TabsCount | src/legohdl/cfgfile.py:202 | d tabs hold d tabs and no space |
| CfgFile.Indent | src/legohdl/cfgfile.py:95-105 | the loop's level is the number of spaces divided by 4, plus the number of tabs |
| CfgFile.Drop | src/legohdl/cfgfile.py:61 | removing a bracket character leaves none |
| CfgFile.DropChars | src/legohdl/cfgfile.py:61 | removing a character keeps exactly the other characters |
| CfgFile.ReplaceDrop | src/legohdl/cfgfile.py:61 | replace(c, '') is that removal |
| CfgFile.CollectList | src/legohdl/cfgfile.py:55-66 | the bracket count changes by the number of '[' less the number of ']', and the items between commas are appended, non-empty ones only |
| CfgFile.NonEmptyStep | src/legohdl/cfgfile.py:63-65 | one more item is kept exactly when it is not empty |
| CfgFile.NonEmptyConcat | src/legohdl/cfgfile.py:63-65 | dropping empty items loses no text, keeps only non-empty items, and keeps them from the list |
| CfgFile.SplitConcat | src/legohdl/cfgfile.py:62 | splitting at commas loses only the commas |
| CfgFile.SplitChars | src/legohdl/cfgfile.py:62 | no item holds a comma, and each item's characters come from the value |
| CfgFile.CollectedItems | src/legohdl/cfgfile.py:60-66 | the items collected from a value are its text without brackets and commas, each item non-empty and free of those characters; they are not otherwise trimmed |
| CfgFile.RunStuck | src/legohdl/cfgfile.py:174 | after a syntax error or a failed scope, no later line changes the result |
| CfgFile.NonBlankLine | src/legohdl/cfgfile.py:92-99 | a line that is not blank has a character that is not a space or tab, so the indentation loop stays in the line |
| CfgFile.RunNext | src/legohdl/cfgfile.py:78-174 | reading one more line is one step of the loop, unless the reader already failed |
| CfgFile.StepIs | src/legohdl/cfgfile.py:79-174 | one line: trim comments, skip blanks, then a header, an assignment, a list line, a continuation or a syntax error, in that order |
| CfgFile.DispatchIs | src/legohdl/cfgfile.py:92-174 | how a trimmed line is classified, in the source's order |
| CfgFile.ReadHeader | src/legohdl/cfgfile.py:108-122 | the header branch computes HeaderStep |
| CfgFile.ReadAssign | src/legohdl/cfgfile.py:125-151 | the assignment branch computes AssignStep |
| CfgFile.ReadListLine | src/legohdl/cfgfile.py:153-163 | the list-continuation branch computes ListStep |
| CfgFile.ReadContinuation | src/legohdl/cfgfile.py:165-172 | the continuation branch computes ContinueStep |
| CfgFile.ReadLine | src/legohdl/cfgfile.py:95-174 | the body of the loop for a non-blank line computes Dispatch |
| CfgFile.LoadLine | src/legohdl/cfgfile.py:79-174 | the body of the loop computes Step |
| CfgFile.Load | src/legohdl/cfgfile.py:27-176 | load returns the dictionary that running every line builds, or the syntax error |
| CfgFile.BlankLine | src/legohdl/cfgfile.py:92-93 | a blank line only counts as a line |
| CfgFile.HeaderLine | src/legohdl/cfgfile.py:108-122 | a header at level lvl cuts the scope to lvl, which must lead to dictionaries; a new empty dictionary is nested there and the header is pushed on the scope |
| CfgFile.AssignLine | src/legohdl/cfgfile.py:125-151 | `key = value` cuts the scope to the line's level and stores the stripped value under the key; this becomes the last variable |
| CfgFile.AssignText | src/legohdl/cfgfile.py:137-151 | a value that does not start with '[' is stored as text at the cut scope |
| CfgFile.ListLine | src/legohdl/cfgfile.py:153-163 | inside a list a line adds its items; the list is stored exactly when the bracket count returns to 0 |
| CfgFile.ContinuationLine | src/legohdl/cfgfile.py:165-172 | a line without '=' after an assignment is appended to the last value with one separating space, and stored again |
| CfgFile.StrayLine | src/legohdl/cfgfile.py:173-174 | a line without '=' and no earlier assignment is a syntax error at its line number |
| CfgFile.WriteWords | src/legohdl/cfgfile.py:256-273 | the word loop writes Wrap of the words |
| CfgFile.WrapWord | src/legohdl/cfgfile.py:261-273 | one word: the text written, the new cursor and whether it overflowed |
| CfgFile.WrapStep | src/legohdl/cfgfile.py:260-273 | one iteration writes the word's piece before what the rest writes |
| CfgFile.WriteItems | src/legohdl/cfgfile.py:229-246 | a non-empty list is written one item per line, each followed by ',', between bracket lines; an empty list is written as '[]' |
| CfgFile.WriteScalar | src/legohdl/cfgfile.py:227-281 | the value branch writes WriteValue, with the corrected line ending of a string value |
| CfgFile.WriteDictionary | src/legohdl/cfgfile.py:199-225 | write_dictionary over a dictionary writes WriteTable, with the corrected line ending of a string value |
| CfgFile.TableNext | src/legohdl/cfgfile.py:207-225 | the text written so far and the next entry's text make up the dictionary's text |
| CfgFile.TableStep | src/legohdl/cfgfile.py:207-225 | a dictionary's text is its first entry's text followed by the rest |
| CfgFile.WriteKey | src/legohdl/cfgfile.py:208-225 | one key: its comment, then a '[key]' header and the nested dictionary, or `key = ` and the value with its line always ended (corrected) |
| CfgFile.Save | src/legohdl/cfgfile.py:179-285 | save writes the whole dictionary from level 0, with no header written yet, and with the corrected line ending of a string value |
| CfgFile.WordsBlanks | src/legohdl/cfgfile.py:259 | leading blanks do not change the words |
| CfgFile.WordsWord | src/legohdl/cfgfile.py:259-262 | a word followed by a space splits off as the first word |
| CfgFile.PieceWords | src/legohdl/cfgfile.py:261-271 | whatever line break a piece holds, its words are the one word |
| CfgFile.WrapWords | src/legohdl/cfgfile.py:259-273 | the wrapped text splits back into exactly the words written |
| CfgFile.WriteTextWords | src/legohdl/cfgfile.py:249-278 | the words of the written value are the words of the value: wrapping only changes whitespace |
| CfgFile.WrapBroke | src/legohdl/cfgfile.py:265-269 | a non-empty wrap whose cursor ends at 0 has overflowed the line length at some word |
| CfgFile.TextEnded | src/legohdl/cfgfile.py:275-278 | the corrected writer always ends the value's line |
| CfgFile.OneWord | src/legohdl/cfgfile.py:249-278 | a one-word value that fits on its line is written as the word, one space and the line end |
| CfgFile.SaveFlat | src/legohdl/cfgfile.py:199-225 | a flat dictionary of one-word strings is written as one `key = word` line per entry, in key order |
| CfgFile.PutNew | src/legohdl/cfgfile.py:46-49 | storing a key the dictionary does not hold adds it after the others |
| CfgFile.AssignmentParts | src/legohdl/cfgfile.py:124-129 | the reader cuts a written assignment line into its key and its word, at level 0, with nothing trimmed as a comment (also cfgfile.py:82-99) |
| CfgFile.ReadAssignment | src/legohdl/cfgfile.py:124-151 | reading the written line of a new key at the top level appends that key with its word, and leaves the reader at the top level, outside quotes and lists |
| CfgFile.RunFlat | src/legohdl/cfgfile.py:77-176 | reading the first i written lines of a flat dictionary gives its first i entries |
| CfgFile.SaveLoad | src/legohdl/cfgfile.py:179-285 | save, then load: for a flat dictionary of one-word strings with unique keys, save writes one line per entry, each ended by its only line break (the lines readlines gives back), and load reads those lines back into the same dictionary (also cfgfile.py:27-176) |
| CfgFile.OpenLine | src/legohdl/cfgfile.py:259-276 | as written a non-empty value of only blanks writes nothing, leaving `key = ` unended, so the next key lands on the same line; the corrected writer ends the line |
| CfgFile.FieldSearch | src/legohdl/cfgfile.py:334-340 | fieldSearch appends the leaf keys of the dictionary, depth first in order, to the fields given |
| CfgFile.FieldStep | src/legohdl/cfgfile.py:335-339 | one key adds its nested fields or itself |
| CfgFile.GetAllFields | src/legohdl/cfgfile.py:325-342 | getAllFields returns the leaf keys, depth first |
| CfgFile.FieldsIndex | src/legohdl/cfgfile.py:335-339 | every leaf key, and every field of a nested dictionary, is listed |
| CfgFile.FieldsComplete | src/legohdl/cfgfile.py:334-340 | every key that holds a value at some path is listed |
| CfgFile.FieldsSound | src/legohdl/cfgfile.py:334-340 | in a dictionary without repeated keys at any level, every listed field holds a value at some path |
| CfgFile.Tunnel | src/legohdl/cfgfile.py:39-53 | defines tunnel; CfgFile.TunnelSpec states where it stores the value and what it leaves alone |
| CfgFile.CastBool | src/legohdl/cfgfile.py:288-296 | defines castBool; CfgFile.CastBoolText states its answer on text |
| CfgFile.CastNone | src/legohdl/cfgfile.py:299-306 | defines castNone; CfgFile.CastNoneSpec states that only the empty text stands for None |
| CfgFile.CastInt | src/legohdl/cfgfile.py:309-322 | defines castInt; CfgFile.CastIntText and CfgFile.CastIntOther state its answer on numerals and on other text |
| CfgFile.TrimComments | src/legohdl/cfgfile.py:81-90 | defines the cutting of comments outside quotes; CfgFile.AssignLine, CfgFile.HeaderLine, CfgFile.ListLine and CfgFile.ContinuationLine state what the reader does with the trimmed line |
| CfgFile.Run | src/legohdl/cfgfile.py:78-174 | defines the reader over many lines; CfgFile.RunNext and CfgFile.RunStuck state how one more line extends it |
| CfgFile.LoadAll | src/legohdl/cfgfile.py:27-176 | defines what load returns; CfgFile.Load is the loop proved to compute it |
| CfgFile.WriteText | src/legohdl/cfgfile.py:249-278 | defines the corrected writing of a string value; CfgFile.TextEnded and CfgFile.WriteTextWords state that it ends its line and keeps the words |
| CfgFile.WriteTextAsWritten | src/legohdl/cfgfile.py:249-278 | defines the writing of a string value as written; CfgFile.OpenLine exhibits the value whose line it leaves open |
| CfgFile.WriteList | src/legohdl/cfgfile.py:229-246 | defines the writing of a list; CfgFile.WriteItems is the loop proved to compute it |
| Units.InitializedSpec | src/legohdl/unit.py:807-817 | a signal has a default value exactly when one of its value tokens is non-empty |
| Units.GluedEmpty | src/legohdl/unit.py:812-814 | the joined value is empty exactly when every token is empty |
| Units.ReplaceSplit | src/legohdl/unit.py:790-794 | replacing a character everywhere is splitting at it and joining with the replacement |
| Units.GetNameSpec | src/legohdl/unit.py:790-794 | getName puts the identifier at every '*' of the pattern: a pattern without '*' is returned as it is, and '*' alone gives the identifier |
| Units.RouteOf | src/legohdl/unit.py:883-891 | a direction word never reads as a buffer or linkage route |
| Units.CastRoute | src/legohdl/unit.py:937-950 | with even spacing an input and an output keyword have the same width, in both languages |
| Units.VhdlModes | src/legohdl/unit.py:883-891 | the VHDL keywords in, out and inout are read into a route and written back as they were, in lower case (also unit.py:937-950) |
| Units.VerilogModes | src/legohdl/unit.py:883-891 | the Verilog keywords input, output and inout are read into a route and written back as they were, in lower case (also unit.py:937-950) |
| Units.InoutAsWritten | src/legohdl/unit.py:943-944 | as written a Verilog inout port is declared 'inoutput'; the corrected writer gives 'inout' |
| Units.UnitTitleRead | src/legohdl/unit.py:541-545 | the unit's title reads back through snapTitle into its vendor, library, name and entity |
| Units.StoredHere | src/legohdl/unit.py:99-111 | registering a unit files it under its vendor, library, name and entity, case-blind, and jarExists then holds for its block (also unit.py:403-408) |
| Units.StoredElsewhere | src/legohdl/unit.py:99-111 | every other block's drawer, and whether jarExists holds for it, is unchanged (also unit.py:403-408) |
| Units.StoredRefuses | src/legohdl/unit.py:109-111 | after registering, an entity of the same title in any letter case is found, and it is the registered unit |
| Units.BottleOrder | src/legohdl/unit.py:120-127 | the bottle's bin for a library and entity holds, in registration order, exactly the units registered with that library and entity |
| Units.BinAdded | src/legohdl/unit.py:120-127 | registering appends the unit to its own bin only |
| Units.BottledFiled | src/legohdl/unit.py:120-127 | every unit stays in the bin of its own library and entity |
| Units.ArgMaxFromSpec | src/legohdl/unit.py:515-527 | the selection loop ends at a highest score, with every earlier score strictly lower |
| Units.FirstMaxSpec | src/legohdl/unit.py:515-530 | the selected index holds the first highest score |
| Units.RecognisedNone | src/legohdl/unit.py:451-458 | ICR gives None exactly when no candidate remains, and otherwise one of the candidates |
| Units.RecognisedBest | src/legohdl/unit.py:460-530 | among several candidates ICR picks the first whose score is highest |
| Units.OfLanguageSpec | src/legohdl/unit.py:447-448 | without mixed languages exactly the candidates in the unit's language remain |
| Units.GatheredSpec | src/legohdl/unit.py:435-440 | without a library a candidate is any unit filed under the entity name in any library |
| Units.CandidatesNamed | src/legohdl/unit.py:435-444 | every candidate has the entity's name, and the given library when one is given |
| Units.PortPassSpec | src/legohdl/unit.py:476-488 | the port count is the number of named ports, or 0 once an input that is neither named nor initialised is found |
| Units.GenPassSpec | src/legohdl/unit.py:497-508 | the generic count adds the named generics to the port score, or is 0 once a generic that is neither named nor initialised is found |
| Units.ScoreSpec | src/legohdl/unit.py:470-508 | a candidate's score with named connections, and with positional generics the length score, which overrides the port score |
| Units.Registry.constructor | src/legohdl/unit.py:297-301 | the jar and the bottle start empty |
| Units.Registry.Register | src/legohdl/unit.py:99-127 | a unit is registered exactly when no entity of its title is filed yet; then it is filed in the jar and appended to its bin, and otherwise nothing changes |
| Units.Registry.Gather | src/legohdl/unit.py:435-440 | the search of every library for the entity name computes Gathered |
| Units.Registry.ICR | src/legohdl/unit.py:412-534 | ICR returns the recognised unit among the candidates of the library or of every library, filtered by language |
| Units.ScoreOf | src/legohdl/unit.py:467-508 | the scoring loops compute Score |
| Units.PortPoints | src/legohdl/unit.py:476-488 | the port loop computes the port count |
| Units.GenPoints | src/legohdl/unit.py:497-508 | the generic loop computes the generic count |
| Units.BestIndex | src/legohdl/unit.py:515-527 | the selection loop returns the first index of the highest score |
| Units.Set3Spec | src/legohdl/unit.py:241-250 | a configuration is stored only where none is stored yet, and no other entry changes |
| Units.ConfiguredSpec | src/legohdl/unit.py:228-250 | linkConfig keeps an existing configuration for the architecture, identifier and instance, case-blind, stores the new one otherwise, and changes no other entry |
| Units.CheckedSpec | src/legohdl/unit.py:253-271 | checking a unit puts it in the hierarchy and unchecking takes it out; the graph stays well formed and other vertices keep their lists |
| Units.CheckedRoundTrip | src/legohdl/unit.py:266-270 | checking and then unchecking a unit not in the hierarchy restores the hierarchy |
| Units.ReqListed | src/legohdl/unit.py:570-605 | after addReq the requirement's title is among the unit's requirements, and the unit's title among the requirement's users |
| Units.Unit.constructor | src/legohdl/unit.py:49-94 | a new unit is unchecked and has no configuration |
| Units.Unit.SetChecked | src/legohdl/unit.py:253-271 | setChecked updates the hierarchy as Checked says and records the flag |
| Units.Unit.AddReq | src/legohdl/unit.py:570-584 | addReq adds an edge to a given requirement and ignores None |
| Units.Unit.GetReqNames | src/legohdl/unit.py:586-605 | getReqs with names gives the titles of the neighbours in the chosen direction |
| Units.Unit.LinkConfig | src/legohdl/unit.py:228-250 | linkConfig stores the configuration as Configured says and changes nothing else |
| Units.GetName | src/legohdl/unit.py:790-794 | defines Signal.getName; Units.GetNameSpec states its result with and without a pattern |
| Units.IsInitialized | src/legohdl/unit.py:807-809 | defines Signal.isInitialized; Units.InitializedSpec states when it holds |
| Units.UnitTitle | src/legohdl/unit.py:541-545 | defines Unit.getTitle; Units.UnitTitleRead states that snapTitle reads it back |
| Units.JarExists | src/legohdl/unit.py:403-409 | defines jarExists; Units.StoredHere and Units.StoredElsewhere state that a stored unit makes it hold |
| Units.CastRouteAsWritten | src/legohdl/unit.py:937-950 | defines castRoute as written; Units.InoutAsWritten exhibits the mode it spells wrongly |
| Units.Stored | src/legohdl/unit.py:99-111 | defines the Jar after a unit is stored; Units.StoredHere, Units.StoredElsewhere and Units.StoredRefuses state what changes |
| Units.Bottled | src/legohdl/unit.py:120-127 | defines the Bottle after a unit is added; Units.BottledFiled states where it goes |
| Units.Score | src/legohdl/unit.py:467-508 | defines the ICR score; Units.ScoreSpec states it and Units.ScoreOf is the loop proved to compute it |
| Units.Recognised | src/legohdl/unit.py:451-530 | defines ICR's choice; Units.RecognisedNone and Units.RecognisedBest state that it is none or a unit of highest score |
| Units.Checked | src/legohdl/unit.py:253-271 | defines setChecked on the hierarchy; Units.CheckedSpec and Units.CheckedRoundTrip state how it changes it |
| Units.Configured | src/legohdl/unit.py:228-250 | defines linkConfig; Units.ConfiguredSpec states which entry it sets and that the first replacement stays |
| Apparatus.Fs | src/legohdl/apparatus.py:584-599 | fs returns None exactly for None |
| Apparatus.FsTrailingSlash | src/legohdl/apparatus.py:595-598 | when the last '/' of the result comes after its last '.', the result ends in '/' |
| Apparatus.FsNoBackslash | src/legohdl/apparatus.py:587-593 | no back-slash is left in the result of fs |
| Apparatus.IsSubPathIrreflexive | src/legohdl/apparatus.py:176-183 | no path is a sub-path of itself |
| Apparatus.IsSubPathCaseBlind | src/legohdl/apparatus.py:179-181 | off Linux the sub-path test gives the same answer on lower-cased arguments |
| Apparatus.MergePrecedence | src/legohdl/apparatus.py:601-615 | merge keeps every library of either place; a project of place2 wins, one of place1 only is kept, and nothing else appears |
| Apparatus.MergeIdentity | src/legohdl/apparatus.py:603-615 | merging with an empty map on either side returns the other map |
| Apparatus.Overlay | src/legohdl/apparatus.py:607-608 | the inner loop writes place2's projects over place1's library |
| Apparatus.OverlayShared | src/legohdl/apparatus.py:604-608 | after the first loop every library of place1 holds its merged value |
| Apparatus.CopyMissing | src/legohdl/apparatus.py:610-614 | after the second loop the libraries are those of both places, each with its merged value |
| Apparatus.Merge | src/legohdl/apparatus.py:603-615 | merge returns MergedLibs(place1, place2) |
| Apparatus.DefaultOf | src/legohdl/apparatus.py:107-112 | the default generateDefault gives has the requested type |
| Apparatus.ClampRate | src/legohdl/apparatus.py:147-150 | an int refresh rate ends within [MIN_RATE, MAX_RATE], a rate already in range or a bool is unchanged |
| Apparatus.ClampRateNearest | src/legohdl/apparatus.py:147-150 | a rate above MAX_RATE becomes MAX_RATE and one below MIN_RATE becomes MIN_RATE |
| Apparatus.Settings.constructor | src/legohdl/apparatus.py:121-122 | the settings hold the loaded dictionary |
| Apparatus.Settings.GenerateDefault | src/legohdl/apparatus.py:104-112 | each named option not of the type becomes the type's default; nothing else changes |
| Apparatus.Settings.FixLabel | src/legohdl/apparatus.py:128-136 | the label section becomes a dict with dict-valued 'recursive' and 'shallow', keeping its other entries; a label of another type is the crash (nothing changes) |
| Apparatus.Settings.FillOptions | src/legohdl/apparatus.py:124-136 | every option not in the file is added as None and the label section is repaired; other values are kept |
| Apparatus.Settings.Defaults | src/legohdl/apparatus.py:143-150 | the dict and bool options have their types and the refresh rate is ready, other values unchanged |
| Apparatus.Settings.Repair | src/legohdl/apparatus.py:115-150 | after the repair part of load all options exist, the typed ones have their types, the label section is ready, and every other value is kept; it fails only on a label that is neither None nor a dict |
| Apparatus.IsSubPath | src/legohdl/apparatus.py:176-183 | defines isSubPath; Apparatus.IsSubPathIrreflexive and Apparatus.IsSubPathCaseBlind state its properties |
| Apparatus.MergedLibs | src/legohdl/apparatus.py:603-615 | defines merge's result; Apparatus.Merge is the loop proved to compute it, and Apparatus.MergePrecedence and Apparatus.MergeIdentity state what it keeps |
| Workspaces.AdmittedSpec | src/legohdl/workspace.py:43-79 | a new workspace enters the Jar exactly when its name is free, case-blind, and its path is set; it is then stored under its name, last in order, and the Jar stays ordered |
| Workspaces.KnownMarketsSpec | src/legohdl/workspace.py:69-76 | a workspace links exactly the listed markets that are known; unknown ones are skipped |
| Workspaces.KnownHas | src/legohdl/workspace.py:71-73 | every known listed market is linked |
| Workspaces.KnownFrom | src/legohdl/workspace.py:71-75 | every linked market was listed and is known |
| Workspaces.RenamedSpec | src/legohdl/workspace.py:128-147 | renaming to a free name enters the workspace under the new name, last in order, drops its own old entry, and keeps every entry of another workspace |
| Workspaces.RenameDropsOther | src/legohdl/workspace.py:133-134 | as written, renaming a workspace that was refused for a taken name deletes the workspace holding that name; the corrected rename keeps it |
| Workspaces.LinkUnlink | src/legohdl/workspace.py:167-210 | unlinking a market just linked gives back the market list |
| Workspaces.LinkedSpec | src/legohdl/workspace.py:176-187 | linking keeps the list free of repeats and adds exactly the market, when it is known |
| Workspaces.UnlinkedSpec | src/legohdl/workspace.py:199-210 | unlinking keeps the list free of repeats, removes the market when it is known, and keeps every other market |
| Workspaces.Registry.constructor | src/legohdl/workspace.py:17-21 | the Jar starts empty with no active workspace |
| Workspaces.Registry.SetActiveWorkspace | src/legohdl/workspace.py:348-375 | a named workspace in the Jar becomes active; otherwise the first workspace does when none is active yet; otherwise nothing changes and the result is false |
| Workspaces.Workspace.constructor | src/legohdl/workspace.py:32-80 | a workspace is entered in the Jar as Admitted says for the path setPath stores; when entered it holds fs of its path and its known markets |
| Workspaces.Workspace.SetPath | src/legohdl/workspace.py:83-112 | the path changes exactly when it is not empty and exists or may be created, and then it becomes fs of the given path; nothing else changes |
| Workspaces.Workspace.SetName | src/legohdl/workspace.py:115-147 | a rename succeeds exactly when the new name is not empty and free in the Jar, case-blind; the Jar is then Renamed, the corrected rename, and otherwise unchanged |
| Workspaces.Workspace.LinkMarket | src/legohdl/workspace.py:167-187 | linking succeeds exactly when the market is known and not yet linked, and the list becomes Linked |
| Workspaces.Workspace.UnlinkMarket | src/legohdl/workspace.py:190-210 | unlinking succeeds exactly when the market is known and linked, and the list becomes Unlinked |
| Workspaces.Workspace.IsLinked | src/legohdl/workspace.py:378-379 | isLinked is non-zero exactly when some market is linked |
| Workspaces.Admitted | src/legohdl/workspace.py:43-79 | defines the Jar after a new workspace; Workspaces.AdmittedSpec states when it is entered |
| Workspaces.Renamed | src/legohdl/workspace.py:128-147 | defines the corrected rename; Workspaces.RenamedSpec states what it keeps |
| Workspaces.RenamedAsWritten | src/legohdl/workspace.py:133-134 | defines the rename as written; Workspaces.RenameDropsOther exhibits the entry it deletes |
| Workspaces.Linked | src/legohdl/workspace.py:176-187 | defines the markets after linkMarket; Workspaces.LinkedSpec states what it adds |
| Workspaces.Unlinked | src/legohdl/workspace.py:199-210 | defines the markets after unlinkMarket; Workspaces.UnlinkedSpec states what it removes |
| Workspaces.KnownMarkets | src/legohdl/workspace.py:69-76 | defines the markets a new workspace links; Workspaces.KnownMarketsSpec states which |
| Workspaces.StoredPath | src/legohdl/workspace.py:49-55 | a new workspace keeps a path only when setPath accepted it, and then it keeps fs of it, so a path fs turns into '' is refused too |

## Left out

- Files, folders, git, logging and the console are not modelled. A question to the user (`apt.confirmation`) is a boolean parameter, and so is whether a path exists or may be created.
- `Map` is modelled as a map on lower-cased keys in the inventory, units and workspaces. Only ASCII letters are lower-cased; Unicode case folding is not modelled.
- Graph.Graph.AddVertex, Graph.Graph.AddEdge, Graph.Graph.RemoveVertex, Graph.Graph.RemoveEdge, Graph.Graph.GetNeighbors and Graph.Graph.TopologicalSort: graph.py keeps its adjacency lists and dependency counts in the case-insensitive `Map` (src/legohdl/graph.py:24-33, 130); the model's `Adj` compares keys exactly, so two vertices differing only in letter case are one vertex in the source and two here.
- Inventory: files inside a hidden folder are not listed by the glob either; the model decides on file names only, so it treats only names that start with '.' as hidden.
- Python's `int()`, `isdecimal()` and `isdigit()` are modelled on ASCII digits only, with optional surrounding blanks and sign for `int()`.
- The HDL lexer, `Cfg`, `Git` and `Market` are outside this model. A unit's ports and generics, a block's metadata, the git tags and the known market names are given as values.
- Graph.Graph.TopologicalSort: requires an acyclic graph whose lists name only vertices, since the source's while loop never ends on a cycle, nor when a list names a vertex that is not in the graph (its count never reaches zero). The fatal exit on an empty result is modelled as `ok == false` with an empty block order.
- Stability.CheckStability: requires an acyclic hierarchy, since the source's worklist never empties on a cycle. It also requires every title it reads to split under `snapTitle`; the source raises `IndexError` on a title that does not.
- Installs.Installer.InstallReqs: the titles the walk can meet are bounded by a given finite set, which is what makes the recursion end. The installed versions are read once before the walk, so an install made during the walk is not seen by a later check. The shared mutable default of `tracking` is not modelled; each walk starts from the tracking list it is given. What `install()` does beyond recording the request is not modelled.
- Installs.Installer.InstallReqs: a title that `snapTitle` cannot split is skipped, where the source raises. The workspace lookup is an exact lookup on the vendor, library and name.
- Requires.UpdateRequires: the dry run and the save are represented by the `update` result; writing the metadata is not modelled.
- Units.Registry.Register: a duplicate entity makes the source log an error and exit. The model returns false and leaves the registry unchanged.
- Units.Registry.ICR: the verbose score report and its percentages are console output and are not modelled.
- The code writers of `unit.py` (`writeConnections`, `writeInstance`, `writeDeclaration`, `castDatatype`) and `Graph.output` produce presentation text and are not modelled. `Unit.isTb` is the predicate `Units.IsTb` and carries no further contract.
- Workspaces.Registry.SetActiveWorkspace: the log messages are not modelled. The source builds them with `ws` and the active workspace's name, so it raises when `ws` is None or no workspace is active; the model returns as the branch it takes says.
- Workspaces.Workspace.constructor: creating the hidden workspace folder and its refresh log is not modelled.
- Apparatus: `os.path.expanduser` is modelled only for `~` and `~/…`, with the home folder given. With an empty home folder, `~` becomes `""` here (so Workspaces.StoredPath refuses it), where Python's expanduser gives `/`.
- The `Strings`, `Lists` and `Dict` modules model Python built-ins; they state what the rest needs and have no rows of their own.
- `getHighestAvailVersion`, block creation, download, release's git work and the time-based refresh logic are outside this model.

- CfgFile.WriteScalar: states the corrected line ending of a string value (see Findings, cfgfile.py:275). For a value of only blanks, such as `"  "`, the source writes `key = ` and no newline, so the next key lands on the same line; the model ends the line. CfgFile.WriteTextAsWritten and CfgFile.OpenLine model the source as written.
- CfgFile.WriteDictionary: states the corrected line ending of a string value, as CfgFile.WriteScalar does; a dictionary holding the value `"  "` differs from the source there.
- CfgFile.WriteKey: states the corrected line ending of a string value, as CfgFile.WriteScalar does; a key whose value is `"  "` differs from the source there.
- CfgFile.Save: states the corrected line ending of a string value, as CfgFile.WriteScalar does; a file holding the value `"  "` differs from the source there.
- CfgFile.SaveLoad: the round trip of save and load is proved only for flat dictionaries of one-word strings short enough to stay on one line. Headers, lists, values of several words, wrapped values and values holding comment markers, quotes or '=' are not covered by it.
- Workspaces.Workspace.SetName: states the corrected rename (see Findings, workspace.py:133-134). When this workspace was refused by the constructor and another workspace holds its old name, the source deletes that other entry; the model keeps it. Workspaces.RenamedAsWritten and Workspaces.RenameDropsOther model the source as written.
- Stability.CheckStability: states the walk with the corrected case-blind filter (see Findings, block.py:754). For a listed requirement such as `lab.Adder(@v1.0.0)` the source never visits that vertex, so it can return True where the model returns False. Stability.FilterInAsWritten and Stability.MixedCaseDropped model the filter as written, and Stability.MixedCaseMissed the whole walk as written.
- `apt.ENTITY_DELIM`, `apt.listToStr` and `apt.getMixedLanguage` are used by the core but not defined in the files of this model. The entity delimiter is taken to be `':'` (`Title.ENTITY_DELIM`); `listToStr(tokens, delim='')` is taken to run the tokens together (`Units.Glued`); the mixed-language setting is the `mixed` parameter of `Units.Registry.ICR`.
- Python's `str.strip()` and `str.split()` are modelled with ASCII whitespace only (`Strings.IsSpace`). Other Unicode whitespace, such as U+0085, U+00A0, U+2000 to U+200A and U+3000, is kept by `Strings.Strip`, `Strings.Words` and the configuration reader and writer; for example `Strip("\u00a0x")` is `"\u00a0x"` where Python gives `"x"`.

## Findings

| source | as written | input that shows it | evidently intended | confidence | as-written member | corrected member |
|---|---|---|---|---|---|---|
| src/legohdl/graph.py:103-107 | `removeEdge` removes `integral` from `derivative`'s forward list | `addEdge(a, b)` then `removeEdge(a, b)`: `a` stays among `b`'s upstream neighbours | remove `integral` from `derivative`'s reverse list, so the two lists stay mirrored | not executed | Graph.RemoveEdgeAsWritten, Graph.RemoveEdgeAsWrittenStale | Graph.RemoveEdgeFrom, Graph.RemoveEdgeSpec, Graph.Graph.RemoveEdge |
| src/legohdl/block.py:754, 823 | the filter `a in spec_vers` compares the neighbour, in its own case, against lower-cased identifiers | a listed requirement `lab.Adder(@v1.0.0)`: its vertex is never visited, so an unstable requirement of that block goes unnoticed | compare the lower-cased neighbour, so every listed requirement is followed | not executed | Stability.FilterInAsWritten, Stability.MixedCaseDropped, Stability.MixedCaseMissed | Stability.FilterIn, Stability.RequirementFollowed |
| src/legohdl/block.py:1996, 2013 | a partial version keeps the file `Block.cfg`, but the marker file is `Block.lock` (src/legohdl/apparatus.py:16) | any install at a partial version such as `v1`: the marker is deleted and the new block is rejected as corrupt | keep the marker file `apt.MARKER` | not executed | Inventory.KeepFileAsWritten, Inventory.PartialDropsMarker | Inventory.KeepFile, Inventory.KeepSource |
| src/legohdl/block.py:527-531, 570-572 | an explicit version is compared with the highest tag before it is lower-cased; `validVer` accepts `V`, but `sepVer` strips only a lower-case `v` | `release V2.0.0` with highest tag `v1.0.0`: refused as not higher | lower-case the version before comparing it, so `V2.0.0` is released as `v2.0.0` | not executed | Release.NextVersionAsWritten, Release.UpperVRefused, Release.UpperVDisagree | Release.NextVersion, Release.NextVersionHigher |
| src/legohdl/cfgfile.py:275 | the line of a value is ended only when the cursor moved or the value is empty | a value of only blanks, such as `"  "`: `key = ` is written without a newline, and the next key lands on the same line | end the line whenever no word was written | not executed | CfgFile.WriteTextAsWritten, CfgFile.OpenLine | CfgFile.WriteText, CfgFile.TextEnded, CfgFile.WriteTextWords |
| src/legohdl/unit.py:943-944 | Verilog appends `put` to every route name | a port of mode `inout` is declared `inoutput` | declare it `inout` | not executed | Units.CastRouteAsWritten, Units.InoutAsWritten | Units.CastRoute, Units.VerilogModes |
| src/legohdl/workspace.py:133-134 | `setName` deletes the Jar entry under its old name, whichever workspace it holds | workspace w0 is `a`; w1, also named `a`, was refused by the constructor; renaming w1 to `b` deletes w0 | delete the old entry only when it is this workspace | not executed | Workspaces.RenamedAsWritten, Workspaces.RenameDropsOther | Workspaces.Renamed, Workspaces.RenamedSpec |
