# ELFI's lazy materialisation engine, in Dafny

ELFI (Engine for Likelihood-Free Inference) describes a model as a directed
acyclic graph of operations: priors, simulators, summaries, discrepancies.
Samples are produced lazily. Each node keeps an append-only cache of
*delayed outputs*, one per generated batch of sample indices. A request for
a range of indices extends the caches of the node and of its ancestors
forward, and never recomputes a range that is already present. Resetting a
node forgets its outputs, moves it to a new version (and so a new output
key) and, by default, resets everything below it.

The project has two layers.

* **The graph** (`graph.dfy`, module `Graph`).
  * The class `Graph.Graph` holds the registry `nodes` (name to node) and, per node id, the node's name and its ordered `parents` and `children` lists.
  * Its methods are the operations of `Graph` and `Node`:
    * `add_node`, `remove_node`, `Node.__init__`;
    * `add_parent`, `add_parents`, `remove_parent`, `remove`, `change_to`;
    * `is_root`, `is_leaf`, `ancestors`, `descendants`, `component`.
  * Every method keeps the class invariant `Valid()`:
    * the two lists mirror each other;
    * no list holds a node twice;
    * a ghost ranking of the nodes witnesses that the graph is acyclic.
* **The engine** (`elfi/core.py`).
  * `cache.dfy` (module `Cache`): the `DelayedOutputCache` as a class, with its read path. The ranges of the outputs tile `[0, len)`.
  * `operations.dfy` (module `Operations`): the `Operation` engine: `get_slice`, `_create_input_dict`, `_create_delayed_output`, `generate`, `acquire`, `reset`, `id`/`version`. The class `InferenceTask` owns the graph and, per node, the cache state, the generate index and the reset count. The recursive walks are methods over these values.
  * `store.dfy` (module `Store`): `prepare_store`.
  * `shapes.dfy` (module `Shapes`): `normalize_data` and the shape checks of the leaf operations, at the level of numpy shapes.
  * `utils.dfy` (module `Utils`): the slice and key helpers from `elfi.utils`, used as half-open integer ranges.
  * `base.dfy` (module `Base`): small list helpers.

A delayed output is modelled by its key: the node id (inference task name, node name, version) and the range it covers. It also carries whether its data came from `with_values`. The dask computation behind it is not modelled.

## Model

| member | source | states |
|---|---|---|
| Graph.Graph.constructor | elfi/graph.py:9-19 | A new graph has the given name, an empty registry and no nodes. |
| Graph.Graph.AddNode | elfi/graph.py:21-38 | An unregistered node is registered under its name. A previous occupant of that name keeps its place under `FreshFrom(keys, name)`, and that name was not a key before. Registering a node that is already registered changes nothing. No edge changes. |
| Graph.FreshFromFacts | elfi/graph.py:30-34 | The name the `_old` loop produces is not a key yet. It is the old name followed by one or more `_old` when the old name is taken. |
| Graph.FreshFrom | elfi/graph.py:30-33 | The `_old` loop: the name it ends with is not a key, and it starts with the name it began from. |
| Graph.Graph.RemoveNode | elfi/graph.py:40-44 | Only the registry entry under the node's name is removed. The error `NodeNotFound` (the `IndexError`) comes back exactly when the name was absent. |
| Graph.Graph.AttachNode | elfi/graph.py:57-61 | A new node id is appended with the given name. Its parents are the given list with duplicates dropped. It is appended to the children of each of them. |
| Graph.Graph.NewNode | elfi/graph.py:57-66 | `Node.__init__`: as `AttachNode`, and then, when a graph is given, registered as `AddNode` does, including the `_old` renaming of a previous occupant. |
| Graph.Graph.IsRoot | elfi/graph.py:132-133 | A node has no parents exactly when it has no ancestors. |
| Graph.Graph.IsLeaf | elfi/graph.py:135-136 | A node has no children exactly when it has no descendants. |
| Graph.Graph.Ancestors | elfi/graph.py:208-215 | The result starts with the parents list. It holds no node twice. It holds exactly the nodes reachable along parent edges. |
| Graph.Graph.Descendants | elfi/graph.py:217-224 | The result starts with the children list. It holds no node twice. It holds exactly the nodes reachable along child edges. |
| Graph.Graph.Component | elfi/graph.py:226-228 | The result starts with the node itself and holds no node twice. It holds exactly the node, its ancestors and its descendants. |
| Graph.Graph.AddParent | elfi/graph.py:90-124 | The outcome equals `AddParentFixed` on the old lists, so a cycle error comes exactly when the new parent is a descendant or the node itself, an out-of-range `index` or `index_child` raises `IndexOutOfBounds`, and on success the parent lands at `index`. No change happens on any error. The set of descendants never changes. `None` as the node does nothing. |
| Graph.AddParentAsWritten | elfi/graph.py:102-124 | As written: the parents list is changed before `index_child` is checked. A cycle error leaves both lists as they were. |
| Graph.AddParentFixed | elfi/graph.py:102-124 | Corrected `add_parent`. It reports a cycle error iff the parent is a descendant or the node itself. Otherwise a parent already present changes nothing. Else `IndexOutOfBounds` is raised exactly when `index` lies outside `[0, len(parents)]` or `index_child` outside `[0, len(children)]` (a missing one meaning the end). Any error leaves the lists unchanged. On success the parent sits at position `index` of the parents list and the node at `index_child` of the parent's children, and the lists stay well formed. |
| Graph.AddParentFixedEdges | elfi/graph.py:107-124 | On success exactly the edge parent to node is new. No other parent or child relation appears or disappears. |
| Graph.AddParentAgrees | elfi/graph.py:102-124 | Away from a self-parent and an out-of-range `index_child`, the as-written and corrected versions give the same lists and the same error. |
| Graph.AddEdgeWellFormed | elfi/graph.py:107-124 | Inserting the mirrored edge at any valid positions keeps the lists mirrored and free of duplicates. |
| Graph.AddEdgeRanked | elfi/graph.py:105-114 | Adding the edge from a node that is neither the child nor below it yields a new ranking, so the graph stays acyclic. |
| Graph.Graph.InsertEdge | elfi/graph.py:107-124 | The successful end of `add_parent`: the parent sits at position `index` of the parents list, the child at position `index_child` of the parent's children, and nothing else changes. |
| Graph.Graph.AddParents | elfi/graph.py:80-88 | The nodes before the first one that would close a cycle are appended in order, skipping those already present, and mirrored in their children lists. That first cyclic node raises and stops the loop. |
| Graph.Graph.AddListedParent | elfi/graph.py:87-88 | One turn of the `add_parents` loop: it either extends both lists by the next node or raises at `FirstCyclic` without a change. |
| Graph.FirstCyclic | elfi/graph.py:87-88 | The position of the first node that is the node itself or one of its descendants. No earlier node is. |
| Graph.LinkStep | elfi/graph.py:87-88 | One `add_parent` without positions appends the parent (unless present) and appends the node to the parent's children (unless present). |
| Graph.Graph.RemoveParent | elfi/graph.py:153-174 | By node: the first occurrence is removed from both sides and its position comes back; a node that is not a parent raises `ParentNotFound` with no change. By index: Python indexing, negative positions included; an index out of range raises with no change; otherwise the index comes back as given. The ghost ranking is unchanged. |
| Graph.PyIndex | elfi/graph.py:171-172 | Python list indexing: positions `-n..n-1` are valid, and negative ones count from the end. |
| Graph.Graph.DropEdge | elfi/graph.py:171-173 | `del self.parents[i]` with `parent.children.remove(self)`: exactly these two list updates. |
| Graph.Graph.DetachParents | elfi/graph.py:146-148 | After the `remove_parent(0)` loop the node has no parents, and no list of children holds it. |
| Graph.Graph.DetachChildren | elfi/graph.py:149-151 | After every child removed the node as a parent, it has no children and no parents list holds it. |
| Graph.Graph.DropFirstParent | elfi/graph.py:147-148 | One turn of the first loop of `remove`: the head parent leaves both sides. |
| Graph.Graph.DropChild | elfi/graph.py:150-151 | One turn of the second loop of `remove`: the next child leaves both sides. |
| Graph.Graph.Remove | elfi/graph.py:139-151 | With default flags, the node's own parents and children lists end empty and no other list holds it. A kept side stays as it was. |
| Graph.Without | elfi/graph.py:139-151 | The list with every occurrence of the node left out. |
| Graph.RemoveFirstIsWithout | elfi/graph.py:173 | In a list without duplicates, `list.remove` removes every occurrence. |
| Graph.Graph.ReleaseParents | elfi/graph.py:193-196 | Every former parent released: the node has none left, and none of them lists it as a child. |
| Graph.Graph.MoveParents | elfi/graph.py:193-197 | `ParentsMoved`: the node is left without parents, and no child list holds it. The new node takes the former parents in order, up to the first one that is the new node or lies below it once the edges into the old node are gone (`DescReleased`). That one raises a cycle error, and none after it is taken. |
| Graph.Graph.MoveChild | elfi/graph.py:201-203 | One child of `change_to`. It either takes the new node at the position the old one held, or raises a cycle error having lost the old node on both sides. After a successful move the child lies apart from both nodes, and its descendants are those it had before. |
| Graph.ReplaceOrDropFacts | elfi/graph.py:202-203 | The child's parents list swaps the old node for the new one. When the new node is not already a parent it lands at the old node's index; the list stays free of duplicates. |
| Graph.TransferStep | elfi/graph.py:201-203 | `remove_parent(self)` followed by a successful `add_parent(node, index)` moves one more child in the `Transferred` state. |
| Graph.FailedStep | elfi/graph.py:201-203 | When `add_parent` raises, the state is the `TransferFailed` state. |
| Graph.TransferredDone | elfi/graph.py:199-204 | After all children moved: the old node has no children and keeps its parents. Every moved child has the new node, and not the old one, as a parent. |
| Graph.Graph.TransferChildren | elfi/graph.py:199-204 | `ChildrenMoved`: the moved children are a prefix of the old children list. On success all of them moved, each with the new node at the old node's position. On a cycle error the state is exactly `TransferFailed`: the first child that would close a cycle has lost the old node and not gained the new one. |
| Graph.Graph.ChangeTo | elfi/graph.py:176-206 | `ChangedTo` states the whole outcome. The parents half runs when asked for, as `ParentsMoved`. When it raises, nothing more happens and no child moves. Otherwise the children half runs from what it left, as `ChildrenMoved`. Without the child transfer, the lists are exactly those of the parents half. The only error is a cycle error. |
| Graph.PathsPositive | elfi/graph.py:217-224 | There is a child path from `v` to `u` exactly when `u` is `v` or a descendant of `v`. |
| Graph.DescClosed | elfi/graph.py:217-224 | A child of `v` or of a descendant of `v` is a descendant of `v`. |
| Graph.PathsSame | elfi/graph.py:217-224 | Two child-list graphs that agree on every node below `v` have the same child paths from `v`. |
| Graph.ApartKept | elfi/graph.py:199-204 | Changing only the child lists of `v` and `x` keeps the descendants of, and every path from, a node that lies apart from both. |
| Graph.DropEdgeKeepsDesc | elfi/graph.py:201-202 | Dropping the edge from `p` to its child `c` leaves the descendants of `c` as they were, and `p` is not one of them. |
| Graph.MoveFrame | elfi/graph.py:201-203 | Moving one child, whether it succeeds or raises, changes no child list except those of the old and the new node. |
| Graph.DetachedRanked | elfi/graph.py:194-196 | Removing a node from every child list keeps the graph acyclic under the same ranking. |
| Graph.LinkChildren | elfi/graph.py:87-88 | Giving `v` the parents `qs` changes only the child lists of the nodes of `qs`. |
| Graph.AppendMissing | elfi/graph.py:211-214 | The inner loop of `ancestors` and `descendants` returns `Merge(acc, xs)`: `acc` followed, in order, by each element of `xs` it does not hold yet. |
| Graph.SelfParentAccepted | elfi/graph.py:105-114 | As written, a lone node is accepted as its own parent, and the resulting lists admit no ranking. |
| Graph.BadChildIndexLeavesHalfEdge | elfi/graph.py:107-124 | As written, a bad `index_child` raises after the parent was inserted. This leaves a one-sided edge, so the lists are not well formed. |
| Cache.CacheLength | elfi/core.py:72-76 | The summing loop returns `Total`, the summed lengths of the output ranges. |
| Cache.DelayedOutputCache.constructor | elfi/core.py:57-70 | A new cache has no outputs and no flags, and is bound to the given id and store. |
| Cache.DelayedOutputCache.Length | elfi/core.py:72-76 | `len(cache)` is the summed lengths of the output ranges. |
| Cache.DelayedOutputCache.Append | elfi/core.py:78-88 | An output is accepted exactly when its range starts at the current length. It then adds one output and one `False` flag and keeps the tiling. Otherwise `NonMatchingSlice` is raised and nothing changes. |
| Cache.AppendTiled | elfi/core.py:78-86 | Appending at the current length keeps the outputs tiled and grows the length by the new range's length. |
| Cache.TilingCovers | elfi/core.py:72-86 | Every index below the length lies in some output. |
| Cache.TilingDisjoint | elfi/core.py:72-86 | No index lies in two outputs. |
| Cache.DelayedOutputCache.Reset | elfi/core.py:90-95 | Outputs and flags are emptied, the new id is taken, and the store is kept. |
| Cache.Cleared | elfi/core.py:90-95 | A reset cache is sound, has length 0, and holds the new id and the same store. |
| Cache.Appended | elfi/core.py:84-85 | An accepted append keeps the cache sound, with one output and one `False` flag more. |
| Cache.ReadDatalist | elfi/core.py:115-134 | The loop builds `Datalist`: in order, the piece of every output whose range meets the slice. |
| Cache.Datalist | elfi/core.py:115-134 | At most one piece per output. Every piece is non-empty and lies within the slice. |
| Cache.PieceOf | elfi/core.py:118-133 | A piece covers the intersection of the output's range with the slice. It is sub-sliced, relative to the output's start, exactly when that intersection is smaller than the output. It comes from the store exactly when the output is flagged stored. |
| Cache.HitsExact | elfi/core.py:115-134 | The outputs a read uses are in range order, and they are exactly those whose range meets the slice. |
| Cache.DatalistPieces | elfi/core.py:115-134 | The read has one piece per output that meets the slice, in that order. |
| Cache.DatalistCovers | elfi/core.py:115-134 | On a tiled cache the pieces cover exactly the part of the slice below the length. |
| Cache.ReadView | elfi/core.py:97-113 | The result is nothing, the single piece, or the pieces stacked under the slice, as there are 0, 1 or more pieces. On a tiled cache the pieces of the view cover exactly the part of the slice below the length. |
| Cache.ViewOf | elfi/core.py:105-112 | Empty exactly for no pieces; the piece itself for one; stacked under the slice for more. `Pieces` gives back exactly the pieces the view was built from. |
| Cache.DelayedOutputCache.GetItem | elfi/core.py:97-113 | `__getitem__(sl)`: the view of the pieces of a read of `sl`. Its pieces cover exactly the part of `sl` below the cache's length. |
| Cache.DelayedOutputCache.SetStored | elfi/core.py:136-152 | When exactly one output has the key, its flag, and no other, becomes `True`. Otherwise `KeyNotFound` is raised and nothing changes. The outputs never change. |
| Cache.MatchesExact | elfi/core.py:146 | The listed positions are increasing and are exactly the outputs with the key. |
| Cache.Matches | elfi/core.py:146 | Every listed position holds an output with the key. |
| Cache.KeysDistinct | elfi/core.py:146-152 | In a tiled cache the key of a non-empty output matches only that output, so its completion callback flags exactly it. |
| Operations.StaleKeyMatchesNothing | elfi/core.py:146-152 | A key of another version matches no output of a node's cache, so a completion for an output from before a reset flags nothing. |
| Operations.InferenceTask.constructor | elfi/core.py:259-289 | A new inference task has an empty graph under its name and no operations. |
| Operations.InferenceTask.AddOperation | elfi/core.py:259-289 | The new node is registered under its name, and the previous occupant of that name is renamed to `FreshFrom(keys, name)`. It has the given parents, and it is appended to each of their child lists (`LinkChildren`). Its cache is empty and bound to version 0 of its id, with the prepared store. Its generate index and reset count are 0. |
| Operations.AllOkGrow | elfi/core.py:284-289 | A fresh empty cache of version 0 keeps the per-node invariant of the engine. |
| Operations.InferenceTask.Id | elfi/core.py:381-392 | The id of a node is `IdOf`: the inference task name, its name and its version, the number of resets. The id of the node's cache has the same version. |
| Operations.IdOf | elfi/core.py:381-383 | `make_key_id(task name, node name, version)`: the id carries the task name, the node name and the version. |
| Operations.DelayedOutput | elfi/core.py:421-444 | The new output is keyed by `make_key(id, sl)`, so its key gives back the node's id and the slice. It takes the given values exactly when the node is named in `with_values`. |
| Operations.InferenceTask.Read | elfi/core.py:346-348 | `__getitem__` reads the slice from the node's cache. The pieces read cover exactly the part of the slice below the cache's length. |
| Operations.GetSliceIn | elfi/core.py:354-379 | See `SliceServed`. If the cache reaches `sl.stop`, nothing changes. Otherwise exactly one output over `[len, sl.stop)` is appended, keyed by the node's id, and every parent reaches `sl.stop` first. Caches only grow. Only the node and its ancestors change. The generate indices are untouched. |
| Operations.ExtendServed | elfi/core.py:372-378 | Once the parents were served, appending the one output over `[len, sl.stop)` of the node serves the slice and keeps the per-node invariant. |
| Operations.InferenceTask.GetSlice | elfi/core.py:354-379 | `SliceServed` on the inference task's own fields. Generate indices and reset counts are unchanged. |
| Operations.CreateInputDictIn | elfi/core.py:412-419 | Every parent's cache reaches the slice's stop. `data` holds, in parent order, each parent's view of the slice. `n` is the slice length and `index` its start. Only the ancestors change, and a cache that already reached the stop does not change. |
| Operations.ParentRequest | elfi/core.py:414 | One `get_slice` on the next parent keeps the loop invariant `InputLoop`. |
| Operations.InputLoopNext | elfi/core.py:414 | A parent request that leaves only that parent and its ancestors changed extends `InputLoop` by one parent. |
| Operations.InputLoopDone | elfi/core.py:412-419 | After the last parent, only ancestors changed and every parent reaches the stop. |
| Operations.ExtendFrame | elfi/core.py:375-378 | The append after the parents were served leaves unchanged every cache that already reached the stop and every node that is neither `v` nor an ancestor. |
| Operations.ParentFrame | elfi/core.py:414 | Frames compose across parent requests: the nodes changed are among the ancestors reached so far. |
| Operations.NotOwnAncestor | elfi/core.py:354-379 | In an acyclic graph a node is not its own ancestor, so the append to its own cache is not disturbed by its parents' requests. |
| Operations.AppendOk | elfi/core.py:375-378 | Appending a non-empty output of the current version at the current length keeps a cache sound, tiled and of one version. |
| Operations.EffectiveBatch | elfi/core.py:329 | `batch_size or n`: positive whenever `n` is, and otherwise `n` itself for a missing `batch_size`. |
| Operations.GenerateTurn | elfi/core.py:334-341 | One turn of the `generate` loop: the length grows as `GenerateTurnAsWritten` says. Only the node and its ancestors change, and the new output covers at most one batch. |
| Operations.GenerateLoop | elfi/core.py:334-341 | The loop ends with the node's length at the larger of its old length and `b`. A cache already there leaves every cache alone. Only the node and its ancestors change. |
| Operations.NegativeBatchNeverEnds | elfi/core.py:329-341 | As written, with a negative `batch_size` no turn of the loop adds anything, so after any number of turns the length is still below `b`. |
| Operations.BatchTurnProgress | elfi/core.py:334-341 | With a non-negative `batch_size`, every turn from a length below `a + n` grows it and stays within `a + n`. |
| Operations.BatchTurnsEnd | elfi/core.py:334-341 | With a non-negative `batch_size` the loop reaches `a + n` within `n` turns. |
| Operations.GenerateIn | elfi/core.py:312-344 | The generate index becomes old plus `n`. The length becomes the larger of the old length and that index; when the cache already reached it nothing changes. Every new output of the node is at most `batch_size or n` long, carries the node's current id, and is marked given exactly when the node is named in `with_values`. Only the node and its ancestors change. The view is the read of `[a, a + n)`. |
| Operations.InferenceTask.Generate | elfi/core.py:312-344 | `GenerateIn` on the inference task's fields. Reset counts are unchanged. |
| Operations.AcquireIn | elfi/core.py:291-310 | The generate index becomes the larger of its old value and `starting + n`. The cache then reaches `starting + n`. When the cache already reached it, no cache changes at all, so no range is generated twice. Only the node and its ancestors change. The view is the read of `[starting, starting + n)`. |
| Operations.InferenceTask.Acquire | elfi/core.py:291-310 | `AcquireIn` on the inference task's fields. |
| Operations.ResetIn | elfi/core.py:394-410 | Every node's reset count grows by the number of child paths from the reset node to it (once, for the node itself, without propagation). A node reached is cleared, gets generate index 0 and a cache bound to its new id. Every other node is untouched. |
| Operations.ResetReach | elfi/core.py:394-410 | A reset reaches exactly the node and, when propagating, its descendants. |
| Operations.NoSelfPath | elfi/core.py:404-406 | No child path leads back to the reset node, so it is counted once. |
| Operations.ResetInOk | elfi/core.py:394-410 | The per-node invariant survives a reset, and every node ends either untouched or cleared at a higher version. |
| Operations.ResetOrKeptOk | elfi/core.py:407-410 | A cleared node at the new version still satisfies the per-node invariant. |
| Operations.InferenceTask.Reset | elfi/core.py:394-410 | The version of each node grows by its path count from `v`. It grows exactly for `v` and, with `propagate`, its descendants. Each such node is cleared with generate index 0 and its cache bound to `(inference task, name, new version)`. All others are untouched. |
| Operations.AllResetOrKeptTrans | elfi/core.py:394-410 | Reset effects compose, and reset counts never decrease. |
| Operations.InferenceTask.MoveChildAndReset | elfi/graph.py:201-204 | One child of `change_to` on an operation, moved as in the graph. A raising move is not followed by a reset: the state is `TransferFailed`, and caches, generate indices and reset counts are unchanged. A successful one is followed by one propagating reset of the child (`ResetOnce`): each count grows by the number of paths from the child. The running count `ResetsSince` grows by one moved child. |
| Operations.InferenceTask.MoveChildrenAndReset | elfi/graph.py:199-204 | The moved children are a prefix of the old children. The graph state is `ChildrenMoved`: `Transferred` on success, `TransferFailed` at the first cyclic child. Since the start, each count grew by the number of paths from the moved children (`ResetsSince`), and every node was untouched or reset. |
| Operations.InferenceTask.ChildrenToAndReset | elfi/graph.py:199-204 | The graph state is `ChildrenMoved`. On success all children moved to the new node, and the old node keeps its parents. `ResetsByMove`: each count grew by the number of paths from the moved children. So the nodes reset are exactly the moved children and the nodes below them, and each moved child at least once. Every node is untouched or cleared at a higher version. |
| Operations.InferenceTask.ChangeTo | elfi/graph.py:176-206 | The edge outcome is `ChangedTo`, as for `Graph.Graph.ChangeTo`. The moved children are a prefix of the old children. `ResetsByMove` gives the reset count and the exact set of nodes reset. Without a child transfer the engine state is untouched. Every node is untouched or cleared at a higher version. |
| Operations.MovedResetsPositive | elfi/graph.py:204 | After resetting each moved child with propagation, a node was reset exactly when it is a moved child or lies below one. |
| Operations.MovedResetsSame | elfi/graph.py:199-204 | Later moves change only the child lists of the old and the new node, so the reset counts owed to children already moved, which lie apart from both, stay the same. |
| Operations.ResetsSinceMoved | elfi/graph.py:201-203 | The running reset count survives the move of the next child. |
| Operations.ResetsSinceNext | elfi/graph.py:204 | The reset of the child just moved adds its paths to the running count. |
| Operations.ResetsSinceReach | elfi/graph.py:199-204 | From the running count: the nodes reset are exactly the moved children and the nodes below them, and every moved child was reset. |
| Operations.NoneMoved | elfi/graph.py:193-204 | When no child moves, nothing is reset. |
| Store.PrepareStore | elfi/core.py:17-51 | The only failure is a string other than "cache" in any case, reported with that string. `None` gives no store. A store instance is used as given, and a sliceable object becomes a local store over it. |
| Store.CacheIdentifier | elfi/core.py:47-49 | The identifier `"cache"` is accepted in every mix of upper and lower case, and no other string is. It gives a memory store. |
| Store.Lower | elfi/core.py:48 | Lower-casing keeps the length and maps each character through the ASCII rule. |
| Shapes.NormalizeShape | elfi/core.py:165-248 | Corrected `normalize_data`: for `n >= 1` the result has at least two axes, and the first is `n`. |
| Shapes.NormalizeCases | elfi/core.py:179-192 | The docstring's table: a plain value or 0-d array gives `(n, 1)`. 1-D data of length `n` gives `(n, 1)`, and of another length `(n, len)`. Data with more axes is kept if its first axis is `n`, else gets `n` prepended. |
| Shapes.NormalizeDoctests | elfi/core.py:194-227 | The shapes of the docstring's examples. |
| Shapes.NormalizeIdempotent | elfi/core.py:165-248 | Normalising normalised data for the same `n` leaves it unchanged. |
| Shapes.NormalizeAgrees | elfi/core.py:229-247 | Away from strings, the as-written and corrected versions agree. |
| Shapes.TextShapeAsWritten | elfi/core.py:229-231 | As written, a string with `n = 2` gets shape `(2, 1, 1)`, where a plain value gets `(2, 1)`. |
| Shapes.NormalizeShapeAsWritten | elfi/core.py:229-247 | As written: for `n >= 1` the result has at least two axes, the first `n`; a string with `n > 1` gets `(n, 1, 1)`. |
| Shapes.SimulatorCheck | elfi/core.py:588-594 | Accepted exactly when the output is an array with at least two axes whose first is `n_sim`. Any non-array is a type error. |
| Shapes.SummaryCheck | elfi/core.py:634-645 | Accepted exactly when the output is an array with at least two axes whose first is the batch length. Any non-array is a type error. |
| Shapes.DiscrepancyCheck | elfi/core.py:675-686 | Accepted exactly when the output has shape `(n, 1)`. Any non-array is a type error. |
| Shapes.FirstBad | elfi/core.py:543-557 | The first sample whose output is not an array, or does not broadcast into the first output's shape. Every earlier one is an array that does. |
| Shapes.Vectorized | elfi/core.py:543-557 | Succeeds exactly when every output is an array that broadcasts into the first output's shape. It gives nothing exactly when there are no samples, and `(n_sim,) +` the first shape otherwise. A failure is a type error at a non-array or a broadcast error at an array. |
| Shapes.VectorizeSimulator | elfi/core.py:543-557 | Returns `Vectorized`. It fails at the first bad sample, as a type error for a non-array and a broadcast error otherwise. With no samples it returns nothing. Otherwise it returns shape `(n_sim,) +` the first output's shape. |
| Shapes.VectorizedPassesCheck | elfi/core.py:609-613 | A vectorized sequential simulator passes `simulator_operation`'s check exactly when each sample's output has at least one axis. |
| Utils.SLen | elfi/core.py:74-75 | `slen`: positive exactly for a non-empty range, and the start plus the length is the end of the range. |
| Utils.Intersect | elfi/core.py:119 | `slice_intersect`: an index is in the result exactly when it is in both slices. |
| Utils.Offset | elfi/core.py:131 | `slice_intersect(s, offset=o)`: the same length, shifted down by `o`. |

## Left out

- `elfi/utils.py` is not part of this model. `slen`, `slice_intersect`, `make_key_id`, `make_key` and `get_key_slice` are defined in `utils.dfy` from the way `elfi/core.py` uses them. A reversed slice has length 0.
- The stores (`ElfiStore`, `MemoryStore`, `LocalDataStore` in `elfi/storage.py`) are not part of this model. They appear only as which kind of store `prepare_store` returns. `store.write` with its completion callback in `append`, `store.reset` in `reset`, and `store.read_data` in the read path are not modelled. The read path records only that a stored piece comes from the store.
- Cache.DelayedOutputCache.Append: the write of the new output to the store is not modelled.
- Cache.DelayedOutputCache.Reset: the reset of the store's copy under the old id is not modelled.
- Operations.GetSliceIn: the stored flags in the engine's caches are never flipped. Completion callbacks arrive from the store's worker and are modelled only by `Cache.DelayedOutputCache.SetStored`.
- Dask task construction (`delayed`, `vstack`, `getitem`) is not modelled. A delayed output is its key plus whether its data was given; a read returns which pieces would be stacked.
- The values in `with_values` are not modelled, only the node names they are given for. `normalize_data_dict` and the per-batch slicing of `with_values` in `generate` are therefore not modelled, and neither is `to_output_dict`.
- Operations.GenerateIn: `batch_size` is a natural number. A `batch_size` of 0, like a missing one, means `n` (`batch_size or n`). A negative `batch_size`, on which the loop never ends (see Findings), is excluded by the type; `Operations.NegativeBatchNeverEnds` covers it on the loop's turn function.
- Operations.InferenceTask.AddOperation takes a store that `prepare_store` has already accepted. A `prepare_store` error raised after the node has joined the graph is not modelled.
- In-place updates of Python objects and aliasing between them are not modelled for the engine. The per-node state of every operation lives in the inference task's sequences, and the walks of `get_slice`, `_create_input_dict` and `reset` transform these values.
- Graph.Graph.ChangeTo and Operations.InferenceTask.ChangeTo require the new node to differ from `v`; `change_to(self)` is not modelled.
- `Node._ensure_node`, `_convert_to_node` and `node_list` are not modelled: every argument is already a node id. `Node.rename`, `label`, `neighbours`, `__str__` and `__repr__` are not modelled either.
- Nodes are created with explicit names. The uuid naming of unnamed nodes is not modelled.
- `get_substream_state`, `RandomStateMixin` and `substreams` depend on numpy's random generator and are not modelled.
- `ObservedMixin`, `Constant` and `threshold_operation` call user functions and compare floats, and are not modelled.
- `vectorize_summary` and `vectorize_discrepancy` are not modelled. Only `vectorize_simulator`'s loop is.
- `elfi/methods.py`, `abcpy/methods.py` and `elfi/inference_task.py` are not part of this model: statistics, a dask client and futures. The inference task is modelled only as the graph that owns the operations.
- Shapes: element values, dtypes and numpy's object arrays are not modelled, only shapes.

## Findings

| source | as written | input that shows it | evidently intended | confidence | as-written member | corrected member |
|---|---|---|---|---|---|---|
| elfi/graph.py:105-106 | The cycle check tests only `node in self.descendants`, so a node can be added as its own parent. | A single node `a`: `a.add_parent(a)` inserts `a` into its own parents and children. | A node is never its own parent; the graph stays acyclic. | not executed | Graph.SelfParentAccepted | Graph.AddParentFixed |
| elfi/graph.py:107-124 | `index` is checked and the parent inserted before `_add_child` checks `index_child`. | Two nodes `a`, `b`: `a.add_parent(b, index_child=5)` raises with `b` in `a.parents` but `a` not in `b.children`. | Both positions are checked before anything changes; the lists stay mirrored. | not executed | Graph.BadChildIndexLeavesHalfEdge | Graph.AddParentFixed |
| elfi/core.py:229-231 | A string is wrapped as a 1x1 object array, so it takes the many-axes branch. | `normalize_data("x", n=2)` has shape `(2, 1, 1)`. | Shape `(n, 1)`, as the docstring states for every value that is not a list, tuple or array. | not executed | Shapes.TextShapeAsWritten | Shapes.NormalizeShape |
| elfi/core.py:329-341 | `batch_size or n` keeps a negative `batch_size`. `n_batch = min(b - l, batch_size)` is then negative, `get_slice` of `[l, l + n_batch)` appends nothing, and the `while` loop never ends. | `generate(1, batch_size=-1)` on a fresh node. | A positive batch length, or an error for a negative `batch_size`. | not executed | Operations.NegativeBatchNeverEnds | Operations.BatchTurnsEnd |
