# Full-component stores and WSPD pair chains (OGDF), modelled in Dafny

This project models two data structures of the Open Graph Drawing Framework
(OGDF) and proves properties of them.

**Full-component stores**, from the Steiner-tree approximations
(`include/ogdf/internal/steinertree/FullComponentStore.h`). A
full-component store keeps a collection of *full components*: trees of the
original Steiner instance whose leaves are exactly their terminals. All
components share one graph, `m_graph`. Each terminal has one permanent node
in it, made by the constructor. Every component copies its Steiner nodes and
edges into that graph. A component's record (`Metadata`) holds:

- a start entry, which sits at a terminal;
- its terminals, sorted by index;
- its cost;
- optionally an extra payload.

The model covers:

- `insert` and `remove`;
- the queries;
- the stack walk `foreachAdjEntry` and the reports built on it: `foreachNode`
  in both variants and `foreachEdge`;
- the extra payload of `FullComponentWithExtraStore`;
- the loss computation of `FullComponentWithLossStore`: `computeAllLosses`,
  `findLossTerminal`, `loss`, `lossBridges` and `lossTerminal`.

**Well-separated pairs**, from the energy-based layouts
(`include/ogdf/internal/energybased/WSPD.h`). `WSPD` stores pairs of quadtree
nodes in an array of pair records. For every node, an array of node records
threads those pairs into a linked chain. `addWSP` appends a pair and hangs it
at the end of both nodes' chains. The queries follow the chains.

## Structure

| file | module | what it holds |
|---|---|---|
| graphs.dfy | `Graphs` | `EdgeWeightedGraph` as a value. Nodes and edge ids are numbers. The adjacency list of a node is derived from its incident edges in increasing id order, as `newEdge` appends and ids are never reused. It also holds `newNode`, `newEdge`, `delEdge`, `delNode` and `cyclicSucc`. |
| copies.dfy | `ComponentCopies` | The `EdgeWeightedGraphCopy` handed to `insert`: the originals of its nodes, its edges and their weights. |
| weights.dfy | `Weights` | Sums of edge weights. |
| shapes.dfy | `Shapes` | The ghost shape of a component: a rooted tree of entries hung from its start entry, and what a stack walk over a forest of such trees emits. |
| invariants.dfy, insert_steps.dfy | `StoreInvariants`, `InsertSteps` | The store invariant, and the proof that `insert` keeps it. |
| remove_steps.dfy | `RemoveSteps` | The deletion walk of `remove`, swap-and-pop, and the proof that `remove` keeps the invariant. |
| visits.dfy | `Walks` | What a `foreachAdjEntry` walk visits. |
| paths.dfy, reports.dfy | `ShortestPaths`, `Reports` | Predecessor-matrix walks, and the loops of `foreachNode` and `foreachEdge`. |
| arrays.dfy | `ArrayOps` | The `Array` operations insert and `isTerminal(id, t)` use: sorting by index and linear search. |
| store.dfy | `FullComponents` | The class `FullComponentStore`. |
| loss_steps.dfy, loss.dfy | `LossSteps`, `LossStores` | The class `FullComponentWithLossStore` and the facts about losses. |
| wspd.dfy | `WellSeparatedPairs` | The class `WSPD` over two arrays of records, with a ghost log of the pairs added. |

`FullComponentStore` is a class. Its fields are the ones the source updates:

- `graph` (`m_graph`);
- `nodeCopy` and `nodeOrig` (`m_nodeCopy` and `m_nodeOrig`, as maps in which a missing key stands for `nullptr`);
- `components` (`m_components`);
- a ghost `shapes`, which holds each component's tree.

Its invariant `Valid()` says:

- the terminals own nodes 0 to k-1;
- every record's start entry sits at a terminal;
- every record's tree is a full component of the graph whose leaves are terminal nodes;
- every record's terminals are, each once, the originals of its tree's start node and leaves;
- distinct components share no edge and no Steiner node.

## Model

| member | source | states |
|---|---|---|
| FullComponents.FullComponentStore.constructor | include/ogdf/internal/steinertree/FullComponentStore.h:88-100 | The store starts with no components and no edges. Its nodes are exactly 0 to k-1, one per terminal: the i-th terminal gets node i, and nodeCopy and nodeOrig are inverse on them. |
| FullComponents.FullComponentStore.Insert | include/ogdf/internal/steinertree/FullComponentStore.h:102-149 | Exactly one record is appended; the earlier ones are kept. Its start is the copy of the witness tree's root entry, its terminals are comp's terminals sorted by index, and its cost is the sum of comp's weights. nodeCopy is left as before, and old nodes keep their originals. The new nodes have fresh ids, and every node of comp gets a store node with the same original. The store stays valid. |
| FullComponents.FullComponentStore.Inserted | include/ogdf/internal/steinertree/FullComponentStore.h:144-148 | Once the copy is in the graph, the store with the new record appended satisfies the invariant, and the set of terminal nodes is unchanged. |
| FullComponents.FullComponentStore.CopyIn | include/ogdf/internal/steinertree/FullComponentStore.h:107-146 | The three loops of insert together with the sort. The graph grows by a copy of comp, and nodeCopy ends as it started. The new nodes stand for Steiner nodes. It returns the new record's start, sorted terminals and cost. |
| FullComponents.FullComponentStore.AddNodes | include/ogdf/internal/steinertree/FullComponentStore.h:113-123 | Each Steiner node of comp gets a fresh node, recorded both ways and in tempUse. A terminal reuses its permanent node and is collected in order. |
| FullComponents.FullComponentStore.AddEdges | include/ogdf/internal/steinertree/FullComponentStore.h:129-141 | Edge j of comp becomes a new edge, with the next id, between the copies of its ends. cost is the sum of the weights. start is the entry at the terminal end of the last edge that has one, the source end winning. |
| FullComponents.FullComponentStore.ClearCopies | include/ogdf/internal/steinertree/FullComponentStore.h:143-146 | The temporary copies are forgotten: nodeCopy keeps exactly the terminals, and nothing else changes. |
| FullComponents.FullComponentStore.Remove | include/ogdf/internal/steinertree/FullComponentStore.h:151-178 | Exactly the component's edges and Steiner nodes leave the graph, and nothing else does. The records and the shapes are swap-popped at id. The store stays valid. |
| FullComponents.FullComponentStore.DeleteComponent | include/ogdf/internal/steinertree/FullComponentStore.h:159-170 | The stack walk of remove for three or more terminals deletes exactly that component. Every push stays within the stack's capacity of 2k-3. |
| FullComponents.FullComponentStore.PushFars | include/ogdf/internal/steinertree/FullComponentStore.h:165-167 | It pushes the far ends of v's entries, in adjacency order. The capacity is respected. |
| RemoveSteps.DeleteEdgeOnly | include/ogdf/internal/steinertree/FullComponentStore.h:156-157 | A two-terminal component is its start edge alone, so deleting that edge removes the component. |
| RemoveSteps.PopTerminal | include/ogdf/internal/steinertree/FullComponentStore.h:163-164 | Popping a terminal changes nothing but the stack, and the walk's measure falls. |
| RemoveSteps.PopSteiner | include/ogdf/internal/steinertree/FullComponentStore.h:163-169 | Popping a Steiner node v: the nodes pushed are the roots of v's subtrees, and after delNode(v) those subtrees are what is still pending. The walk's measure falls. |
| RemoveSteps.DeleteDone | include/ogdf/internal/steinertree/FullComponentStore.h:162-170 | Once the stack is empty, exactly the component's edges and Steiner nodes are gone. |
| RemoveSteps.SwapPop | include/ogdf/internal/steinertree/FullComponentStore.h:173-177 | remove leaves one record fewer. |
| RemoveSteps.SwapPopAt | include/ogdf/internal/steinertree/FullComponentStore.h:173-177 | Slot id receives the last record, every other slot below the last keeps its record, and no slot receives the removed one. |
| RemoveSteps.SwapPopMultiset | include/ogdf/internal/steinertree/FullComponentStore.h:173-177 | Swap-and-pop removes exactly the record at id and keeps all the others. |
| RemoveSteps.CompSurvives | include/ogdf/internal/steinertree/FullComponentStore.h:151-171 | A component that shares nothing with the removed one stays intact, with the same Steiner nodes. |
| RemoveSteps.RemoveValid | include/ogdf/internal/steinertree/FullComponentStore.h:151-178 | A valid store minus component id, swap-popped, is a valid store. |
| RemoveSteps.Survivors | include/ogdf/internal/steinertree/FullComponentStore.h:151-171 | Every other record still describes its tree after the removal: same shape, same Steiner nodes, same terminals. |
| StoreInvariants.InsertValid | include/ogdf/internal/steinertree/FullComponentStore.h:102-149 | When the copy of comp is added, the store with the appended record satisfies the invariant, and the terminal nodes are unchanged. |
| StoreInvariants.InsertTerminals | include/ogdf/internal/steinertree/FullComponentStore.h:110-125 | After insert, the stored records keep their terminals, and the new record's terminals are those of the copied tree. |
| StoreInvariants.NewTerminals | include/ogdf/internal/steinertree/FullComponentStore.h:110-125 | The terminals insert collects and sorts are, each once, the originals of the copied tree's start node and leaves. |
| StoreInvariants.TerminalsKept | include/ogdf/internal/steinertree/FullComponentStore.h:102-149 | A record's terminals stay right while its tree's terminal nodes and their originals stay the same. |
| StoreInvariants.CompTermsIn | include/ogdf/internal/steinertree/FullComponentStore.h:61-62 | The start node and the leaves of a stored tree are terminal nodes. |
| StoreInvariants.TerminalsMeaning | include/ogdf/internal/steinertree/FullComponentStore.h:193-206 | In a valid store, a record's terminals have no repeats. A terminal is among them exactly when its node is the tree's start node or one of its leaves. |
| ComponentCopies.TerminalsOfNoDup | include/ogdf/internal/steinertree/FullComponentStore.h:113-122 | Distinct originals give distinct collected terminals. |
| Shapes.ShiftCompTerms | include/ogdf/internal/steinertree/FullComponentStore.h:113-141 | The start node and the leaves of the copied tree are the copies of those of comp's tree. |
| Shapes.LeafNodesIn | include/ogdf/internal/steinertree/FullComponentStore.h:104-105 | The leaves of a full-component tree are terminal nodes. |
| StoreInvariants.NewComponentOk | include/ogdf/internal/steinertree/FullComponentStore.h:129-148 | The record appended by insert describes a full component of the store graph. Its Steiner nodes are the copies of comp's, and its edges are comp's with shifted ids. |
| StoreInvariants.NewCost | include/ogdf/internal/steinertree/FullComponentStore.h:132-134 | The copied tree weighs what comp's edges weigh. |
| StoreInvariants.TermsKept | include/ogdf/internal/steinertree/FullComponentStore.h:113-123 | Every node insert adds is a Steiner node, so the set of terminal nodes is unchanged. |
| InsertSteps.NodesAddedSteiner | include/ogdf/internal/steinertree/FullComponentStore.h:115-119 | A node without a copy is a Steiner node. It gets a fresh node recorded in nodeCopy, in nodeOrig and in tempUse, and the loop invariant holds one node further. |
| InsertSteps.NodesAddedTerminal | include/ogdf/internal/steinertree/FullComponentStore.h:120-122 | A node that already has a copy is a terminal. It joins terminals, and the loop invariant holds one node further. |
| InsertSteps.EdgesAddedStep | include/ogdf/internal/steinertree/FullComponentStore.h:130-140 | After one round, edge j is copied between the copies of its ends and its weight is added to cost. start moves to the terminal end, if it has one. |
| InsertSteps.LoopsDone | include/ogdf/internal/steinertree/FullComponentStore.h:113-146 | After both loops, start is the copy of the witness root entry. The terminals are comp's terminals, and cost is comp's cost. The cleanup leaves nodeCopy as it was before insert. |
| InsertSteps.InsertCopied | include/ogdf/internal/steinertree/FullComponentStore.h:113-141 | After the node loop and the edge loop, the store graph holds a copy of comp: an embedding that preserves the edges and weights of comp, sends terminals to their nodes and is injective. |
| ComponentCopies.StartUpTo | include/ogdf/internal/steinertree/FullComponentStore.h:135-140 | The start found after the first n edges is an entry of one of them, at a terminal. |
| ArrayOps.SortByIndex | include/ogdf/internal/steinertree/FullComponentStore.h:124-125 | The result is sorted and is a permutation of the input. |
| ArrayOps.InsertSorted | include/ogdf/internal/steinertree/FullComponentStore.h:124-125 | Inserting into a sorted sequence keeps it sorted and adds exactly the one element. |
| ArrayOps.LinearSearch | include/ogdf/internal/steinertree/FullComponentStore.h:205 | It returns -1 exactly when x is absent. Otherwise it returns a position that holds x; the model takes the first one. |
| FullComponents.FullComponentStore.Size | include/ogdf/internal/steinertree/FullComponentStore.h:181-184 | The number of records. |
| FullComponents.FullComponentStore.IsEmpty | include/ogdf/internal/steinertree/FullComponentStore.h:187-190 | True exactly when the size is 0. |
| FullComponents.FullComponentStore.Terminals | include/ogdf/internal/steinertree/FullComponentStore.h:193-198 | It returns the record's terminals. In a valid store they are sorted by index, without repeats, at least two, and one more than the tree's leaves. A terminal is among them exactly when its node is the node the component starts at or one of the tree's leaves. |
| FullComponents.FullComponentStore.IsComponentTerminal | include/ogdf/internal/steinertree/FullComponentStore.h:201-206 | True exactly when t is among the record's terminals. In a valid store, that is exactly when t is a terminal whose node is the start node or a leaf of the component's tree. |
| FullComponents.FullComponentStore.IsTerminalNode | include/ogdf/internal/steinertree/FullComponentStore.h:208-211 | In a valid store, true exactly when v is the permanent node of some terminal. |
| FullComponents.FullComponentStore.Cost | include/ogdf/internal/steinertree/FullComponentStore.h:214-219 | The recorded cost is the sum of the weights of the component's edges in the store graph. |
| FullComponents.FullComponentStore.Start | include/ogdf/internal/steinertree/FullComponentStore.h:221-226 | The start entry is the root of the component's tree. It is live and sits at a terminal node. |
| FullComponents.FullComponentStore.Original | include/ogdf/internal/steinertree/FullComponentStore.h:233-237 | The original of a terminal node is the terminal whose copy it is. |
| FullComponents.FullComponentStore.Extra | include/ogdf/internal/steinertree/FullComponentStore.h:322-336 | The payload stored with component i. |
| FullComponents.FullComponentStore.SetExtra | include/ogdf/internal/steinertree/FullComponentStore.h:323-328 | A write through the reference that extra(i) returns: only record i's payload changes, and the store stays valid. |
| FullComponents.FullComponentStore.ForeachAdjEntry | include/ogdf/internal/steinertree/FullComponentStore.h:239-260 | The entries visited are exactly the stack walk over the component's tree. For k == 2 that is the twin of start alone. For k >= 3, terminals are never expanded and the stack never exceeds 2k-2. |
| FullComponents.FullComponentStore.PopOnce | include/ogdf/internal/steinertree/FullComponentStore.h:251-258 | One round: the entry emitted is the twin of the top tree's root. The stack becomes the forest with that tree replaced by its children, and stays within capacity. |
| FullComponents.FullComponentStore.PushOthers | include/ogdf/internal/steinertree/FullComponentStore.h:255-257 | The cyclicSucc loop pushes the node's other entries in cyclic order from back, each once, and stops at back. |
| FullComponents.PopCount | include/ogdf/internal/steinertree/FullComponentStore.h:251-259 | A pop emits the top tree's twin first. The forest's size falls, so the walk ends, and the leaves bound the stack. |
| Shapes.VisitsAreTwins | include/ogdf/internal/steinertree/FullComponentStore.h:249-259 | The walk emits the twin of every entry of the forest, each exactly once. |
| Walks.VisitsCover | include/ogdf/internal/steinertree/FullComponentStore.h:239-260 | Every visited entry is live and sits at a Steiner node of the component or at a terminal. Every Steiner node is the node of some visited entry. |
| Walks.VisitEdges | include/ogdf/internal/steinertree/FullComponentStore.h:239-260 | The walk meets every edge of the component exactly once. |
| FullComponents.FullComponentStore.ForeachNode | include/ogdf/internal/steinertree/FullComponentStore.h:263-270 | The nodes reported are the original of start's node, then the originals of the visited entries' nodes. Every one is a terminal or the original of a Steiner node, and every Steiner node is reported. |
| Reports.NodesMet | include/ogdf/internal/steinertree/FullComponentStore.h:267-269 | The originals along a walk are terminals or originals of Steiner nodes of the component, and every Steiner node's original is among them. |
| Reports.OriginalsAlong | include/ogdf/internal/steinertree/FullComponentStore.h:267-269 | The loop yields original(back->theNode()) for each visited entry, in order. |
| FullComponents.FullComponentStore.ForeachEdge | include/ogdf/internal/steinertree/FullComponentStore.h:273-282 | For every visited entry, in order, the original edges of the predecessor chain from its node towards its twin's node. |
| Reports.EdgesAlong | include/ogdf/internal/steinertree/FullComponentStore.h:276-281 | The callback loop concatenates the predecessor chains of the entries. |
| ShortestPaths.WalkEdges | include/ogdf/internal/steinertree/FullComponentStore.h:278-280 | The for-loop over pred[u][v] ends, and it returns the chain's edges. |
| ShortestPaths.ChainWalk | include/ogdf/internal/steinertree/FullComponentStore.h:278-280 | The chain is a walk: it starts at v, every edge is incident to the node the loop holds and leads to the next one, and it ends at a node without a predecessor. |
| FullComponents.FullComponentStore.ForeachNodeAlongPaths | include/ogdf/internal/steinertree/FullComponentStore.h:285-310 | For three terminals: the centre c, then for each entry at c, in adjacency order, the path from c to its far end's original. Otherwise: start's original, then the nodes of the predecessor chains of the visited entries. |
| Reports.NodesAlong | include/ogdf/internal/steinertree/FullComponentStore.h:304-309 | The callback loop concatenates the chains' nodes. |
| ShortestPaths.WalkNodes | include/ogdf/internal/steinertree/FullComponentStore.h:306-308 | The loop reports the nodes of the chain from v while a predecessor exists. |
| Reports.PathsToAll | include/ogdf/internal/steinertree/FullComponentStore.h:293-300 | The loop over c's entries concatenates the paths from c to each far end. |
| ShortestPaths.WalkTo | include/ogdf/internal/steinertree/FullComponentStore.h:295-299 | The while-loop ends, and it reports the path from v to u. |
| ShortestPaths.PathToEnds | include/ogdf/internal/steinertree/FullComponentStore.h:295-299 | The path ends at u, meets u nowhere earlier, and is empty exactly when v == u. |
| ShortestPaths.ChainMeetsPath | include/ogdf/internal/steinertree/FullComponentStore.h:288-309 | Where u has no predecessor of its own, both variants of foreachNode walk the same nodes from v to u. |
| LossStores.FullComponentWithLossStore.constructor | include/ogdf/internal/steinertree/FullComponentStore.h:339-348 | The store is empty, and a fresh record carries loss 0 and no bridges. m_lossTerminal is not initialised yet. |
| LossStores.FullComponentWithLossStore.FindLossTerminal | include/ogdf/internal/steinertree/FullComponentStore.h:365-373 | The result is the first terminal on the predecessor walk from u, or nullptr. The memo stays right, and it grows only by nodes on that walk. |
| LossSteps.PredStep | include/ogdf/internal/steinertree/FullComponentStore.h:369 | A predecessor step from a non-terminal moves to a node of smaller rank, so the recursion ends. |
| LossStores.FullComponentWithLossStore.ComputeAllLosses | include/ogdf/internal/steinertree/FullComponentStore.h:379-419 | Afterwards the graph equals the old graph, with only k-1 edge ids used up. Every record's loss gains the weight of the loss edges among its visited edges, and its bridges gain the other edges in walk order. The ends of every bridge are resolved in m_lossTerminal. |
| LossStores.FullComponentWithLossStore.PrepareLosses | include/ogdf/internal/steinertree/FullComponentStore.h:381-404 | m_lossTerminal maps each terminal's node to the terminal. The zero-cost edges come and go again, leaving the graph as it was apart from the ids used up. |
| LossStores.FullComponentWithLossStore.Prepared | include/ogdf/internal/steinertree/FullComponentStore.h:381-404 | The state after the zero-cost round satisfies the loop invariant with no component done. |
| LossStores.AddZeroEdges | include/ogdf/internal/steinertree/FullComponentStore.h:385-394 | Each terminal's node holds its terminal. Zero-weight edges with consecutive new ids join the first terminal's node to each other terminal's node, and the old edges are kept. |
| LossStores.DeleteEdges | include/ogdf/internal/steinertree/FullComponentStore.h:402-404 | Exactly the listed edges are gone, and nothing else changes. |
| LossStores.ZeroEdgesBack | include/ogdf/internal/steinertree/FullComponentStore.h:385-404 | Deleting the zero-cost edges gives back the graph they were added to, with their ids used up. |
| LossStores.ZeroEdgeRound | include/ogdf/internal/steinertree/FullComponentStore.h:381-404 | The add-then-delete round leaves the graph unchanged except for k-1 used-up ids, and the memo is the terminal map. |
| LossSteps.IdsUsedUp | include/ogdf/internal/steinertree/FullComponentStore.h:401-404 | Using up edge ids keeps the store invariant and the predecessor ranking. |
| LossSteps.RecordsIdsUsedUp | include/ogdf/internal/steinertree/FullComponentStore.h:401-404 | Using up edge ids keeps every record right, terminals included. |
| LossSteps.TerminalMemoHolds | include/ogdf/internal/steinertree/FullComponentStore.h:386-394 | The initial memo holds the node of every terminal, mapped to the terminal whose node it is. |
| LossSteps.TerminalMemoOk | include/ogdf/internal/steinertree/FullComponentStore.h:381-394 | The initial memo is right: each key maps to the nearest terminal of that key. |
| LossStores.FullComponentWithLossStore.LossLoop | include/ogdf/internal/steinertree/FullComponentStore.h:407-418 | The loop over ids gives every component its loss and bridges, and leaves the graph unchanged. |
| LossStores.FullComponentWithLossStore.LossStep | include/ogdf/internal/steinertree/FullComponentStore.h:407-418 | One round of the loop keeps the invariant with one more component done. |
| LossStores.FullComponentWithLossStore.ComponentLosses | include/ogdf/internal/steinertree/FullComponentStore.h:408-417 | Only record id changes: it gains the losses and bridges of its visited edges. The memo stays right and grows, and the new bridges' ends are resolved. |
| LossStores.FullComponentWithLossStore.AddLosses | include/ogdf/internal/steinertree/FullComponentStore.h:408-417 | Over the visited entries, the loss gains the weight of the loss edges, and the bridges gain the non-loss edges in order. Every bridge's two ends are resolved. |
| LossStores.Tally | include/ogdf/internal/steinertree/FullComponentStore.h:410-416 | One visited edge is either appended to the bridges or adds its weight to the loss, never both. |
| LossStores.FullComponentWithLossStore.ResolveBridge | include/ogdf/internal/steinertree/FullComponentStore.h:411-413 | After a new bridge, its ends are resolved, the earlier bridges stay resolved, and the memo stays right. |
| LossStores.FullComponentWithLossStore.ResolveEnds | include/ogdf/internal/steinertree/FullComponentStore.h:412-413 | Each end that has a nearest terminal is now a key of the memo, and the memo stays correct, so the key maps to that terminal. |
| LossSteps.EndsResolvedAdd | include/ogdf/internal/steinertree/FullComponentStore.h:411-413 | A bridge with both ends resolved keeps the list of bridges resolved. |
| LossSteps.FilterStep | include/ogdf/internal/steinertree/FullComponentStore.h:410-416 | One more edge goes to exactly one side; its weight goes to the loss only when it is a loss edge. |
| LossSteps.BridgeAdded | include/ogdf/internal/steinertree/FullComponentStore.h:410-413 | A non-loss edge is appended to the bridges and adds nothing to the loss. |
| LossSteps.LossAdded | include/ogdf/internal/steinertree/FullComponentStore.h:414-416 | A loss edge adds its weight to the loss and leaves the bridges alone. |
| LossSteps.Sides | include/ogdf/internal/steinertree/FullComponentStore.h:410-416 | Bridges are visited non-loss edges, and loss edges are visited loss edges. |
| LossSteps.Partition | include/ogdf/internal/steinertree/FullComponentStore.h:410-416 | Together, the bridges and the loss edges are the visited edges, each exactly once. |
| LossSteps.ComponentPartition | include/ogdf/internal/steinertree/FullComponentStore.h:407-418 | Over a component's walk, bridges and loss edges are its edges, each once. The loss plus the weight of the bridges is the component's cost. |
| LossSteps.FreshLosses | include/ogdf/internal/steinertree/FullComponentStore.h:339-348 | For a record that started at loss 0 with no bridges, loss plus bridge weight equals cost. The bridges are edges of the component and not loss edges. |
| LossStores.FullComponentWithLossStore.Loss | include/ogdf/internal/steinertree/FullComponentStore.h:422-425 | It returns the loss stored in record id. |
| LossStores.FullComponentWithLossStore.LossBridges | include/ogdf/internal/steinertree/FullComponentStore.h:428-431 | It returns the bridges stored in record id. |
| LossStores.FullComponentWithLossStore.LossTerminal | include/ogdf/internal/steinertree/FullComponentStore.h:439-443 | It returns the recorded terminal of v, or nullptr when none is recorded. It requires m_lossTerminal to be initialised. |
| Weights.SumWeightsPerm | include/ogdf/internal/steinertree/FullComponentStore.h:134 | A sum of weights does not depend on the order of the edges. |
| Graphs.NewNode | include/ogdf/internal/steinertree/FullComponentStore.h:96 | A fresh node with the next id; nothing else changes. |
| Graphs.NewEdge | include/ogdf/internal/steinertree/FullComponentStore.h:133 | A fresh edge with the next id, between the given nodes and of the given weight; nothing else changes. |
| Graphs.DelEdge | include/ogdf/internal/steinertree/FullComponentStore.h:157 | The edge disappears, and nothing else changes. |
| Graphs.DelNode | include/ogdf/internal/steinertree/FullComponentStore.h:168 | The node disappears with exactly its incident edges. |
| Graphs.CyclicNext | include/ogdf/internal/steinertree/FullComponentStore.h:255 | cyclicSucc steps through the node's other entries in order and returns to back after the last. |
| WellSeparatedPairs.WSPD.constructor | include/ogdf/internal/energybased/WSPD.h:63-64 | There are no pairs, and every node's chain is empty. Both record arrays are newly allocated, so the caller may go on to addWSP. |
| WellSeparatedPairs.WSPD.AddWSP | include/ogdf/internal/energybased/WSPD.h:97-150 | The pair count grows by one and the log gains (a, b). The records are the field-by-field result of the additions, and the chain invariant still holds. |
| WellSeparatedPairs.WSPD.LinkBehindTail | include/ogdf/internal/energybased/WSPD.h:113-127 | If v has pairs, the link slot of v in v's last pair points to e. Otherwise v's chain starts at e. |
| WellSeparatedPairs.WSPD.EndChainAt | include/ogdf/internal/energybased/WSPD.h:144-149 | v's chain ends at e and counts one more pair. |
| WellSeparatedPairs.AddEffects | include/ogdf/internal/energybased/WSPD.h:97-150 | addWSP stores (a, b) in the new record. Both nodes count one more pair and end their chains at it. A node with no pair starts its chain there; otherwise its old tail links to it. Every other record is unchanged. |
| WellSeparatedPairs.ConsistentAfterAdd | include/ogdf/internal/energybased/WSPD.h:97-150 | addWSP keeps the pair and node records consistent with the log of pairs added. |
| WellSeparatedPairs.ChainsAfterAdd | include/ogdf/internal/energybased/WSPD.h:113-149 | Every node's chain stays consistent across addWSP. |
| WellSeparatedPairs.HoldsAfterAdd | include/ogdf/internal/energybased/WSPD.h:100-107 | The new pair is stored with its two nodes, and the earlier pairs keep theirs. |
| WellSeparatedPairs.LinkAfterAdd | include/ogdf/internal/energybased/WSPD.h:117-122 | A logged pair's link for one of its nodes is redirected to the new pair exactly when that pair was the node's tail. |
| WellSeparatedPairs.TailFacts | include/ogdf/internal/energybased/WSPD.h:114-117 | In a consistent chain, the count is bounded and lastEntry is the node's last pair. |
| WellSeparatedPairs.ChainListsPairs | include/ogdf/internal/energybased/WSPD.h:164-186 | Starting at the first pair and following nextPair numWSNodes times lists exactly the pairs containing v, in the order they were added. |
| WellSeparatedPairs.PairsOfSpec | include/ogdf/internal/energybased/WSPD.h:41-43 | The chain specification lists only pairs containing v, in increasing order. |
| WellSeparatedPairs.PairsOfComplete | include/ogdf/internal/energybased/WSPD.h:41-43 | Every pair containing v is listed. |
| WellSeparatedPairs.WSPD.NumWSNodes | include/ogdf/internal/energybased/WSPD.h:75-79 | In a valid store, the number of pairs containing a. |
| WellSeparatedPairs.WSPD.NumPairs | include/ogdf/internal/energybased/WSPD.h:81-85 | In a valid store, the number of pairs added. |
| WellSeparatedPairs.WSPD.FirstPairEntry | include/ogdf/internal/energybased/WSPD.h:182-186 | In a valid store, the first pair added that contains v, when there is one. |
| WellSeparatedPairs.WSPD.NextPair | include/ogdf/internal/energybased/WSPD.h:164-171 | It returns the link of a's slot. In a valid store, that is the pair after the current one in a's chain. |
| WellSeparatedPairs.WSPD.WsNodeOfPair | include/ogdf/internal/energybased/WSPD.h:173-180 | For a pair containing a, the other node of the pair, which differs from a. |

## Left out

- Weights are mathematical integers. OGDF's `T` may be `double`; floating-point rounding in `cost` and `loss` is not modelled.
- `isTree(comp)` and the precondition that comp is not empty (the asserts of `insert`) are stated as requirements. `insert` takes a ghost witness, a rooted tree of comp's entries hung from the start entry that insert will pick. That tree must be a full component: its leaves are the terminals, and its Steiner nodes have at least two children. Its start node and its leaves are exactly comp's terminal nodes.
- FullComponents.FullComponentStore.Insert: it demands a full component, because `remove` and `foreachAdjEntry` rely on that shape; the source asserts only that comp is a tree.
- `computeMinST` is foreign code. Its results `pred` and `isLossEdge` are parameters of ComputeAllLosses. The predecessors must be ranked, so every step from a non-terminal moves closer to a terminal (a ghost rank stands for the distances).
- LossStores.FullComponentWithLossStore.ComputeAllLosses: it does not state that the loss edges form a minimum spanning tree. That is a promise of `computeMinST`, which is not part of this model.
- The callbacks `f` of `foreachAdjEntry`, `foreachNode` and `foreachEdge` become returned sequences of what `f` is called on.
- The predecessor matrix `NodeArray<NodeArray<edge>>` is a ghost-ranked map over original node pairs, so that its walks end.
- `graph()` (lines 228-231) hands out the store graph; the model exposes it as the field `graph`.
- `FullComponentWithExtraStore` and `FullComponentWithLossStore` derive from the store in OGDF. Here the extra payload is a type parameter of `FullComponentStore`, and the loss store holds a store.
- AddLosses: record `id` is updated once per component with the result, where OGDF updates `extra(id)` in place for each edge; the final record is the same.
- LossStores.FullComponentWithLossStore.ComputeAllLosses: called twice, it adds to the losses and bridges already there, as OGDF does; its ensures describes that accumulation.
- `m_lossTerminal.init(m_graph, nullptr)` is an empty map, which is then filled with the terminals.
- `data.terminals.quicksort(IndexComparer)` is modelled by its result: a sorted permutation of the collected terminals, built by insertion sort. The quicksort itself is not modelled.
- `Array::linearSearch` is specified by its result, not by its loop.
- ArrayOps.LinearSearch: it returns the first position of x. `Array.h` is not part of this model, so the model does not say from which end OGDF searches. Only whether the result is -1 is used (line 205), and in a valid store a record holds each terminal once, so there is only one position to find.
- FullComponents.FullComponentStore.SetGraph: it stands for the writes the loss store makes to the inherited `m_graph`: the `newEdge` and `delEdge` calls of `computeAllLosses` (lines 385-404). It sets the graph and nothing else. PrepareLosses, its only caller, shows that the store is valid again afterwards.
- `OGDF_FULLCOMPONENTSTORE_REMOVE_IN_GRAPH_REPRESENTATION_ALSO` (line 43) is taken as defined, so `remove` always deletes from the graph.
- `BoundedStack` capacity checks become bounds that PushFars and PushOthers require, and that DeleteComponent and ForeachAdjEntry prove are met.
- The comment of `foreachNode(id, f)` (line 262) speaks of nodes of degree at least 3. The code also reports start's terminal and every visited entry's node, including terminals. The model follows the code.
- The original graph `m_originalGraph` and the terminal list are kept only as what the store reads: the terminal list and the incidence set `isTerminal`.
- The `WSPD` constructor allocating memory, `clear`, `allocate`, `deallocate`, the destructor and `sizeInBytes` are not modelled. Their bodies are not part of this model. The model's constructor stands for a cleared store.
- WellSeparatedPairs.WSPD.AddWSP: it requires a != b, and room for one more pair. The source checks neither. With a == b the two node references alias.
- WSPD: `maxNumNodes()` and `maxNumPairs()` are the fields with those names. `pairInfo` and `nodeInfo` are the array reads.
- Quadtree node ids (`LinearQuadtree::NodeID`) and all 32-bit counters are `u32`, and no addition wraps. The requirements rule out overflow.
