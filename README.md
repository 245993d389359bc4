# OS filesystem visualizer, modelled in Dafny

`OS_VISUALIZATION.py` walks a directory tree and builds one metadata record per
readable file. The record holds the path, basename, dirname, size, lower-cased
extension and a "system file" flag. The script then turns the records into an
undirected `networkx` graph, with one node per path prefix and an edge from
each prefix to its one-longer extension. It colours each node from its size, or
from the summed size of its "descendants", and writes a summary of counts.
This project models that core and proves what each step computes.

Modules, in dependency order:

- `Wrappers`: `Option`.
- `SeqFacts`: small facts about sequence concatenation and slicing.
- `Sums`: `SumOver`, the sum of a `map<K, nat>` over a set of keys, and its
  algebra.
- `PathNames`: the POSIX `os.path.join`, `basename`, `dirname`, `splitext`,
  ASCII `str.lower` and `PurePosixPath(...).parts`. Proved: how they behave on
  a joined path.
- `SystemFiles`: `is_system_file`, a substring test against nine fixed
  fragments.
- `Metadata`: `get_file_metadata` and the record it builds. A record stores
  the path and the size. The filename, directory, extension and system-flag
  columns are member functions of the record, computed from its path the way
  `get_file_metadata` computes them.
- `TreeWalk`: `collect_filesystem_metadata`.
  - The filesystem is an input value: a tree of `Dir`s. Each `Dir` carries the
    parent's read-access probe (`accessible`) and whether listing it succeeds
    (`listable`).
  - The walk is a method over the explicit stack that `os.walk(topdown=True)`
    keeps. It is proved equal to a recursive pre-order definition, `WalkDir`.
  - Lemmas characterise exactly which files `WalkDir` reports.
- `HierarchyGraph`: the node and edge construction of `create_directory_graph`,
  as a `Graph` class whose `AddNode`/`AddEdge` methods update its fields.
  - `BuildGraph` is the outer loop over the records and `AddRecord` the inner
    loop over one record's parts. Together they are proved equal to
    `NodesOf`, `EdgesOf` and `SizesOf` of the records' `Row`s: each `Row` is
    what the loop reads from a record, its `Path(...).parts` and its size.
  - Lemmas characterise those three functions.
- `NodeWeights`: `max_size`, the per-node size or `dir_size` that the colour is
  computed from, and the two exceptions the function can raise before drawing.
  - `nx.descendants` on the undirected graph is proved to be the whole
    connected component. The colour weights use that sum, as line 147 does.
  - The subtree sum the design intends is defined beside it, `SubtreeSize`,
    and proved to count exactly the files below a node (see Findings).
- `Report`: the `df.empty` guard, the caught visualization failure, and the
  counted fields of `summary.json`.

Where the code and the design intent differ, the model follows the code:

- `G.add_node` on an existing node overwrites its `size`. A node's size is the
  value written by the last record that passes through it: 0 when that visit
  was a proper prefix, the file's size when it was the full path. It is not
  the first value written.
- `is_system_file` tests whether a fragment occurs anywhere in the path, not
  only at its start. For example, `/home/me/bin/tool` is classified as a
  system file.
- `dir_size` sums over `nx.descendants` of an undirected graph. That is every
  other node of the same top-level component, not the subtree below the node.
- The empty-input guard only covers an empty record list. When every size is
  0, `max_size` is 0, and the first node's ratio raises `ZeroDivisionError`.
  The `except` at line 191 catches it, so no figure is drawn, but the summary
  is still written.

## Model

| member | source | states |
|---|---|---|
| PathNames.Join | OS_VISUALIZATION.py:98 | `os.path.join(a, b)` ends with `b` |
| PathNames.Basename | OS_VISUALIZATION.py:36 | the basename is the slash-free tail of the path, preceded by a `/` when shorter |
| PathNames.Dirname | OS_VISUALIZATION.py:37 | the dirname is a prefix of the path; it is empty iff there is no `/`; trailing slashes are stripped unless it is all slashes; it ends where the basename's slashes begin |
| PathNames.Extension | OS_VISUALIZATION.py:40 | `splitext(p)[1]` is "" or a suffix of the basename that starts with its one last `.`, is shorter than the basename, and has no other `.` or `/` |
| PathNames.Lower | OS_VISUALIZATION.py:40 | same length; ASCII upper-case letters are mapped to lower case, other characters are kept |
| PathNames.LowerIdempotent | OS_VISUALIZATION.py:40 | lower-casing twice gives the same as lower-casing once |
| PathNames.FileExtension | OS_VISUALIZATION.py:40 | the recorded extension is "" or starts with `.`, has no `/` and no upper-case letter, and is as long as the raw extension |
| PathNames.Split | OS_VISUALIZATION.py:124 | splitting on `/` gives at least one piece, and no piece contains `/` |
| PathNames.SplitRoundTrip | OS_VISUALIZATION.py:124 | joining the pieces with `/` gives back the original string |
| PathNames.Components | OS_VISUALIZATION.py:124 | the kept pieces are exactly the input pieces that are non-empty and not `.`, and there are never more of them than input pieces |
| PathNames.Parts | OS_VISUALIZATION.py:124 | `Path(p).parts` starts with the anchor when there is one, followed by the non-empty, non-`.` pieces |
| PathNames.PartsOfJoin | OS_VISUALIZATION.py:98 | the parts of `join(root, name)` are the parts of `root` followed by `name` |
| PathNames.PartsOfName | OS_VISUALIZATION.py:124 | a plain name has itself as its only part |
| PathNames.BasenameOfJoin | OS_VISUALIZATION.py:36 | the basename of `join(root, name)` is `name` |
| PathNames.DirnameOfJoin | OS_VISUALIZATION.py:37 | the dirname of `join(root, name)` is `root` when `root` is all slashes (the empty root included) or has no trailing slash |
| SystemFiles.IsSubstring | OS_VISUALIZATION.py:55 | `f in s` holds iff `f` occurs in `s` at some offset |
| SystemFiles.AnyFragment | OS_VISUALIZATION.py:55 | `any(...)` holds iff some fragment of the list occurs in the path |
| SystemFiles.IsSystemFile | OS_VISUALIZATION.py:50-55 | true iff one of the nine fixed fragments occurs in the path |
| SystemFiles.FragmentAnywhere | OS_VISUALIZATION.py:50-55 | a fragment in the middle of the path counts: `/home/me/bin/tool` is a system file |
| Metadata.GetFileMetadata | OS_VISUALIZATION.py:22-46 | a record is produced iff the file is readable, its stat succeeds and its ctime converts; the record holds that path and the stat size, and its other columns are computed from the path |
| Metadata.FileRecord.Filename | OS_VISUALIZATION.py:36 | the `filename` column is a slash-free tail of the path |
| Metadata.FileRecord.Directory | OS_VISUALIZATION.py:37 | the `directory` column is a prefix of the path, empty iff the path has no `/` |
| Metadata.RecordOfJoinedPath | OS_VISUALIZATION.py:34-37 | for a file found at `join(root, name)`, the record's filename is `name`, its directory is `root`, and its parts are `root`'s parts plus `name` |
| Metadata.TotalSize | OS_VISUALIZATION.py:102 | the running byte total is at least each record's size |
| Metadata.TotalSizeAppend | OS_VISUALIZATION.py:101-102 | the byte total of two record lists appended is the sum of their totals |
| TreeWalk.ExcludeList | OS_VISUALIZATION.py:63-64 | the caller's list is used when given; otherwise the four default names |
| TreeWalk.WithoutExcluded | OS_VISUALIZATION.py:83 | the first `dirs[:]` rewrite keeps exactly the subdirectories whose names are not excluded, and never adds any |
| TreeWalk.Accessible | OS_VISUALIZATION.py:84-95 | the access filter keeps exactly the subdirectories whose probe succeeds |
| TreeWalk.KeptDirs | OS_VISUALIZATION.py:83-95 | the walk descends into exactly the subdirectories that are readable and not excluded |
| TreeWalk.TwoFiltersKeep | OS_VISUALIZATION.py:83-95 | the two `dirs[:]` rewrites together keep exactly the kept subdirectories, in order |
| TreeWalk.WalkKeptDirs | OS_VISUALIZATION.py:83-95 | walking only the kept subdirectories gives the same records |
| TreeWalk.AccessibleDirs | OS_VISUALIZATION.py:84-95 | the access-probe loop returns the readable directories in order |
| TreeWalk.RecordFor | OS_VISUALIZATION.py:97-102 | one file gives at most one record |
| TreeWalk.FileRecords | OS_VISUALIZATION.py:97-102 | a directory's files give at most one record each |
| TreeWalk.CollectFiles | OS_VISUALIZATION.py:97-103 | the files loop appends exactly the records of the directory's files, in order, and keeps `total_size` equal to the byte total |
| TreeWalk.FileRecordsAppend | OS_VISUALIZATION.py:97-102 | the records of two file lists appended are their records appended |
| TreeWalk.FileRecordsSound | OS_VISUALIZATION.py:97-102 | every record comes from one of the directory's files |
| TreeWalk.FileRecordsComplete | OS_VISUALIZATION.py:97-102 | every file that yields metadata has its record in the result |
| TreeWalk.PushSubdirs | OS_VISUALIZATION.py:82-83 | pushing the subdirectories in reverse makes the pending stack start with their walks, in order |
| TreeWalk.WalkStep | OS_VISUALIZATION.py:82-103 | one iteration keeps "collected so far + still pending" unchanged, keeps the running total, and shrinks the stack's measure |
| TreeWalk.CollectFilesystemMetadata | OS_VISUALIZATION.py:62-106 | a missing start path is an error; otherwise it returns the pre-order walk `WalkDir` of the start directory with the chosen exclusions, and its byte total |
| TreeWalk.WalkDir | OS_VISUALIZATION.py:82-103 | the pre-order walk below a directory: nothing when its listing fails; otherwise its own files' records come first (`topdown=True`), followed by its kept subdirectories' walks |
| TreeWalk.WalkChildrenSound | OS_VISUALIZATION.py:82-95 | a record from the subdirectories comes from a kept one |
| TreeWalk.WalkChildrenComplete | OS_VISUALIZATION.py:82-95 | every record of a kept subdirectory's walk is reported |
| TreeWalk.WalkDirSound | OS_VISUALIZATION.py:82-103 | every reported record is the metadata of a file reached by a route through kept, listable directories: pruning happens at every depth |
| TreeWalk.WalkDirComplete | OS_VISUALIZATION.py:82-103 | every file reached that way and yielding metadata is reported |
| TreeWalk.WalkIgnoresStartEntry | OS_VISUALIZATION.py:82-95 | the start directory's own name and access bit do not affect the walk: it is never tested against the exclusions |
| TreeWalk.WalkRecordParts | OS_VISUALIZATION.py:98 | a reported record's parts extend the start path's parts and end with its filename |
| HierarchyGraph.Parent | OS_VISUALIZATION.py:132 | the parent node is the prefix one part shorter |
| HierarchyGraph.Graph.constructor | OS_VISUALIZATION.py:118 | a new graph has no nodes, sizes or edges |
| HierarchyGraph.Graph.AddNode | OS_VISUALIZATION.py:129 | adds the node and overwrites its size; the edges are unchanged |
| HierarchyGraph.Graph.AddEdge | OS_VISUALIZATION.py:133 | adds both ends and the undirected edge; sizes are unchanged |
| HierarchyGraph.Rows | OS_VISUALIZATION.py:123-124 | one row per record, in order, holding the record's parts and size |
| HierarchyGraph.RowsTotalIsTotal | OS_VISUALIZATION.py:124-129 | the rows carry the records' sizes: their total is the records' byte total |
| HierarchyGraph.BuildGraph | OS_VISUALIZATION.py:122-134 | the loops produce exactly `NodesOf`, `EdgesOf` and `SizesOf` of the records' rows |
| HierarchyGraph.AddRecord | OS_VISUALIZATION.py:127-133 | the inner loop adds exactly one record's prefixes and parent edges, and leaves the sizes as its writes in order make them |
| HierarchyGraph.PrefixesExact | OS_VISUALIZATION.py:127-128 | one record contributes exactly the non-empty prefixes of its parts |
| HierarchyGraph.ParentEdgesSound | OS_VISUALIZATION.py:131-133 | every edge of one record joins a prefix of length at least 2 to its parent |
| HierarchyGraph.ParentEdgesComplete | OS_VISUALIZATION.py:131-133 | every such prefix is joined to its parent |
| HierarchyGraph.NodesExact | OS_VISUALIZATION.py:123-129 | a node exists iff it is a non-empty prefix of some record's parts |
| HierarchyGraph.NodesNonEmpty | OS_VISUALIZATION.py:127-129 | no node is empty |
| HierarchyGraph.NodesPrefixClosed | OS_VISUALIZATION.py:127-129 | every non-empty prefix of a node is a node |
| HierarchyGraph.EdgeSound | OS_VISUALIZATION.py:131-133 | every edge joins a node of length at least 2 to its parent |
| HierarchyGraph.EdgeComplete | OS_VISUALIZATION.py:131-133 | every node of length at least 2 is joined to its parent |
| HierarchyGraph.EdgesExact | OS_VISUALIZATION.py:131-133 | `{u, v}` is an edge iff one end is a node and the other is its parent, in either order |
| HierarchyGraph.SizesKeys | OS_VISUALIZATION.py:129 | every node, and nothing else, has a size |
| HierarchyGraph.LastWriter | OS_VISUALIZATION.py:123-129 | the index of a record passing through the node, or -1 |
| HierarchyGraph.LastWriterIsLast | OS_VISUALIZATION.py:123-129 | no later record passes through the node |
| HierarchyGraph.SizeIsLastWrite | OS_VISUALIZATION.py:123-129 | a node's size is the last write: the last passing record's size if the node is its full parts, otherwise 0 |
| HierarchyGraph.InnerNodeSize | OS_VISUALIZATION.py:129 | a node that is no record's full parts has size 0 |
| HierarchyGraph.LeafNodeSize | OS_VISUALIZATION.py:129 | a record's full-path node has the record's size unless a later record passes through it |
| HierarchyGraph.BuiltGraphIsHierarchy | OS_VISUALIZATION.py:118-134 | the built graph is a hierarchy: nodes are non-empty, each longer node is joined to its parent, and every edge is such a join |
| NodeWeights.ReachableSym | OS_VISUALIZATION.py:118 | the graph is undirected, so reachability is symmetric |
| NodeWeights.ReachesTop | OS_VISUALIZATION.py:127-133 | when each deeper node is joined to its parent, every node reaches its top-level node |
| NodeWeights.PathKeepsTop | OS_VISUALIZATION.py:131-133 | when every edge joins a node to its parent, a walk never leaves its top-level component |
| NodeWeights.Descendants | OS_VISUALIZATION.py:147 | `nx.descendants(G, n)`: other nodes only, never `n` itself |
| NodeWeights.DescendantsAreComponent | OS_VISUALIZATION.py:147 | `nx.descendants(G, n)` on the built graph is every other node with the same top-level part: the whole component |
| NodeWeights.DirSizeAsWritten | OS_VISUALIZATION.py:147 | line 147's `dir_size`; on a hierarchy it is the sum over the other nodes of the node's component |
| NodeWeights.SubtreeWithinDescendants | OS_VISUALIZATION.py:147 | the nodes below are among the descendants, so the intended sum is at most the one the code computes |
| NodeWeights.DirSizeCountsSiblings | OS_VISUALIZATION.py:147 | for `root/a/f1` (100 bytes) and `root/b/f2` (300 bytes), `root/a` gets 400 as written, while the sum below it is 100 |
| NodeWeights.SubtreeSizeCountsFilesBelow | OS_VISUALIZATION.py:147 | when no row's parts are a prefix of another's, the sum below a node is the total size of exactly the rows strictly below it |
| NodeWeights.MaxNodeSize | OS_VISUALIZATION.py:139 | `max` fails exactly on no sizes; otherwise the result bounds every size and is attained |
| NodeWeights.SumSizes | OS_VISUALIZATION.py:147 | the loop equals the sum of the sizes over the set |
| NodeWeights.ColourWeights | OS_VISUALIZATION.py:141-150 | every node gets a weight: its own size when positive, otherwise line 147's sum over `nx.descendants` |
| NodeWeights.CreateDirectoryGraph | OS_VISUALIZATION.py:115-150 | raises "no sizes" iff there are no nodes and "divide by zero" iff every size is 0; otherwise it draws the built graph with the true maximum and every node's weight, the `dir_size` of line 147 as written for a size-0 node |
| Report.Count | OS_VISUALIZATION.py:201 | an occurrence count is at most the length, and 0 iff the value is absent |
| Report.ValueCounts | OS_VISUALIZATION.py:201 | `value_counts` has exactly the values that occur as keys |
| Report.ValueCountsAreCounts | OS_VISUALIZATION.py:201 | each value's entry is its number of occurrences, which is positive |
| Report.Extensions | OS_VISUALIZATION.py:201 | the extension column lists each record's extension, in order |
| Report.ValueCountsTotal | OS_VISUALIZATION.py:201 | the counts add up to the number of values |
| Report.SystemCount | OS_VISUALIZATION.py:202 | `system_files_count` is at most the number of records, and 0 iff no record is a system file |
| Report.UserCount | OS_VISUALIZATION.py:203 | `user_files_count` is at most the number of records, and 0 iff every record is a system file |
| Report.MakeSummary | OS_VISUALIZATION.py:198-203 | `total_files` is the record count; `total_size_bytes` is the byte total; system plus user is the total; `file_types` has exactly the extensions that occur |
| Report.SystemPlusUser | OS_VISUALIZATION.py:202-203 | the system and user counts add up to the number of records |
| Report.FileTypesSumToTotal | OS_VISUALIZATION.py:199-201 | the `file_types` histogram sums to `total_files` |
| Report.SaveMetadataAndVisualizations | OS_VISUALIZATION.py:173-218 | nothing is saved iff there are no records; otherwise the summary is saved, and a figure is drawn iff some node size is positive |
| Report.ScanRecordsGiveNodes | OS_VISUALIZATION.py:139 | behind the empty guard, a scan's records always give graph nodes, so `max` always has values |
| Report.SummaryTotalIsScanTotal | OS_VISUALIZATION.py:200 | the summary's byte total equals the running total the walk returns |

## Left out

- Filesystem access is not performed. `os.path.exists`, `os.access`,
  `os.stat` and `os.walk`'s directory listing become fields of the input tree.
  Symbolic links and `followlinks` are not modelled, and neither is a tree
  that changes during the walk.
- The counting pass and the `tqdm` progress bars (lines 73-80 and 103) have no
  effect on the results, so they are not modelled.
- Every `print` diagnostic and `handle_walk_error` are not modelled. A listing
  that fails just yields nothing.
- `creation_time` is reduced to one bit: whether `fromtimestamp` succeeds. No
  date string is computed.
- `size_to_color`, the float ratio and the HSV conversion (lines 109-112 and
  145-149) are not modelled. The model keeps the integer each ratio is
  computed from, and the division-by-zero case.
- The layout, the drawing, `savefig`, the CSV and JSON output, and
  `os.makedirs` (lines 152-171, 175, 186-196 and 212-214) are not modelled.
- `scan_time` and `system_info` (lines 204-209) are not modelled: they read
  the clock and the platform.
- `main` (lines 220-236) is not modelled: it only fixes two paths and an
  exclusion list.
- PathNames.Lower: maps only the ASCII capitals, where `str.lower` handles all of Unicode.
- Paths are POSIX only: `os.path` is modelled as `posixpath`.
- The integers are unbounded. The int64 overflow of a pandas sum is not
  modelled.
- NodeWeights.ColourWeights: returns the weights as a map keyed by node. The source's
  colour list follows `G.nodes()` insertion order, and that order is not
  modelled.
- HierarchyGraph.NodesOf: keys nodes by their parts prefix instead of by the
  string `os.path.join(*parts[:i+1])`. Whether that join is one-to-one on
  pathlib parts is not proved.
- NodeWeights.SubtreeSizeCountsFilesBelow: assumes that no record's parts are a proper
  prefix of another record's, and that no two records share their parts. It
  does not derive this from the walk; a tree with unique entry names would
  give it.

## Findings

| source | as written | input that shows it | evidently intended | confidence | as-written member | corrected member |
|---|---|---|---|---|---|---|
| OS_VISUALIZATION.py:147 | `dir_size` sums over `nx.descendants(G, node)`. `G` is an undirected `nx.Graph`, so this is the node's whole connected component. | records `root/a/f1` (100 bytes) and `root/b/f2` (300 bytes): node `root/a` gets 400 | the sum of the sizes of the nodes below `root/a`, which is 100 | not executed | NodeWeights.DirSizeCountsSiblings | NodeWeights.SubtreeSizeCountsFilesBelow |
