# NeuroDB, modelled in Dafny

NeuroDB stores traced neural structures as a graph of 3-D points: **nodes**
(nid, coordinate, creator, type, checked, status, date) joined by undirected
**edges** (a pair of nids stored smaller id first, with creator and date), plus
the traced **segments** (sid, polyline, sampled points) they come from. It keeps
them in one of two stores: an embedded SQLite file (`sqliteDBIO`) or a managed
DataJoint schema (`datajointDBIO`). The `NeuroDB` facade keeps a networkx graph
that mirrors the store. It patches that graph after every write and analyses
it for annotation progress.

The model has eleven modules:

- `Records`: the row and argument values, and canonical edge order.
- `Tables`: the three tables as maps, and the effect of every write on them as
  a function with its lemmas.
- `Segments`: how segment ingestion numbers segments, nodes and chain edges.
- `SqliteIO` and `DataJointIO`: one class per store. The tables are fields,
  and each method is proved to leave them equal to a `Tables` function of the
  old tables.
- `Binding`: the SQL statement of the embedded `update_nodes`, over rows of
  SQL values, with its `?` placeholders bound to the parameters in the order
  the code lists them, and in placeholder order.
- `Migration`: the one-time schema upgrade of an embedded file, as a class over
  the file's column sets and rows.
- `Graphs`: the undirected graph (node-attribute map plus adjacency map),
  reachability, and the breadth-first connected-component search.
- `Mirror`: what it means for the graph to agree with the tables, and the graph
  side of each facade write.
- `Annotation`: the pieces of `get_annotation_info`.
- `NeuroDb`: the facade class over the embedded store, with a `const` store and
  a `var` graph.

Clock readings (`datetime.now()`) are parameters named `now`. A DataJoint
library error caught by the source is a `fault` parameter. The Euclidean length
of a component is an abstract `length` function parameter.

## Model

| member | source | states |
|---|---|---|
| Records.Canon | neurodb/src/sqliteDBIO.py:128-130 | the stored pair has src <= dst and is the given pair or its swap |
| Records.CanonSymmetric | neurodb/src/sqliteDBIO.py:196-198 | (a, b) and (b, a) name the same stored edge; an ordered pair is stored as given |
| Records.CheckedOnly | neurodb/src/sqliteDBIO.py:248-252 | check and uncheck supply `checked` only |
| Tables.InsertNodesSpec | neurodb/src/sqliteDBIO.py:95-118 | the node insert succeeds iff the batch's nids are distinct and new; it then adds exactly one row per entry, dated with the entry's own date or else the one call-time date, and keeps every old row |
| Tables.InsertOrIgnoreSpec | neurodb/src/sqliteDBIO.py:120-137 | INSERT OR IGNORE adds exactly the batch's canonical pairs; every stored row keeps its creator and date; a new pair gets the columns of the first entry naming it |
| Tables.ReinsertIsNoOp | neurodb/src/sqliteDBIO.py:127-134 | re-adding pairs that are already stored, in either orientation, leaves the edges table unchanged |
| Tables.InsertEdgesStrictSpec | neurodb/src/datajointDBIO.py:78-93 | the managed edge insert succeeds iff every pair is new, named once and joins two stored nodes; it then adds one canonical row per entry and keeps the rest |
| Tables.StrictInsertableCons | neurodb/src/datajointDBIO.py:78-93 | a batch is insertable into the managed edges table iff its first pair is new with stored endpoints and the rest is insertable once that pair is stored |
| Tables.ReinsertEmbeddedVsManaged | neurodb/src/datajointDBIO.py:78-93 | re-adding a stored pair is a no-op in the embedded store and a rejected insert in the managed one |
| Tables.AddThenDeleteEdges | neurodb/src/sqliteDBIO.py:193-201 | deleting the pairs of newly added edges, even written reversed, restores the previous edges table |
| Tables.EmbeddedUpdateChangeOnly | neurodb/src/sqliteDBIO.py:203-246 | no change when no field is supplied or the list is empty; otherwise only listed rows with a supplied column NULL or different change, each then holds every supplied value and the new date, and every other row (date included) is unchanged |
| Tables.EmbeddedUpdateIdempotent | neurodb/src/sqliteDBIO.py:212-241 | repeating an embedded update with the same fields changes nothing, whatever the new date |
| Tables.ManagedUpdateDatesEveryListedRow | neurodb/src/datajointDBIO.py:141-164 | with no field supplied the managed update still redates every listed row, where the embedded one changes nothing |
| Tables.ManagedUpdateIdempotent | neurodb/src/datajointDBIO.py:141-164 | with a field supplied, repeating the managed update changes nothing |
| Tables.FilterShapesDiffer | neurodb/src/datajointDBIO.py:142-155 | a row matching one supplied field and differing in another is rewritten by the embedded OR filter and skipped by the managed AND filter |
| Tables.MaxOrZero | neurodb/src/sqliteDBIO.py:254-262 | `MAX(key) or 0`: the largest key, or 0 for an empty table |
| Tables.MaxOrZeroUnique | neurodb/src/sqliteDBIO.py:258-259 | the maximum-or-zero of a key set is a single value |
| Tables.MaxKey | neurodb/src/sqliteDBIO.py:258-259 | one pass over the keys yields the largest key, or 0 |
| Tables.RoiBounds | neurodb/src/datajointDBIO.py:179-188 | a coordinate is in the managed box iff each axis lies in offset .. offset+size-1, and in the embedded box iff each lies in offset .. offset+size; the managed box lies inside the embedded one; an axis with size >= 0 admits exactly `size` integers in the managed box and `size + 1` in the embedded one, and a negative size admits none in the managed box |
| Segments.NumberedSpec | neurodb/src/sqliteDBIO.py:286-291 | the k new segments get sids max_sid+1 .. max_sid+k, in batch order |
| Segments.SegNodesNumbering | neurodb/src/sqliteDBIO.py:295-310 | one node per sampled point, nids base+1, base+2, ... in order, creator 'seger', type 0, checked 0, status 1 |
| Segments.SegNodeAt | neurodb/src/sqliteDBIO.py:299-310 | the j-th sampled point of segment k becomes node Start(k)+j+1 with that coordinate |
| Segments.ChainEdgesMember | neurodb/src/sqliteDBIO.py:311-312 | a chain of k links holds exactly the edges src -> src+1 for the first k point nodes |
| Segments.SegEdgesSpec | neurodb/src/sqliteDBIO.py:299-312 | a segment of n points gives n-1 edges; an edge exists iff it joins consecutive points of one segment, so none crosses segments |
| Segments.SegEdgeSound | neurodb/src/sqliteDBIO.py:309-310 | every generated edge links two consecutive points of one segment |
| Segments.SegEdgeComplete | neurodb/src/sqliteDBIO.py:309-310 | every link between consecutive points of one segment is generated |
| Segments.SegNidsFresh | neurodb/src/sqliteDBIO.py:295-315 | every generated nid lies above the largest stored one, so the node insert cannot clash |
| Segments.SegEdgesIncreasing | neurodb/src/sqliteDBIO.py:299-312 | each chain edge joins src to src+1 and sources strictly increase along the list |
| Segments.SegEdgesInsertable | neurodb/src/datajointDBIO.py:207-227 | once the chain's nodes are stored, the managed store accepts all chain edges |
| Segments.SegLists | neurodb/src/sqliteDBIO.py:295-312 | the nested loop builds exactly SegNodes and SegEdges |
| Segments.NumberSegs | neurodb/src/sqliteDBIO.py:286-291 | the segment loop builds exactly the numbered rows |
| SqliteIO.SortedRows | neurodb/src/sqliteDBIO.py:143-156 | every node row once, in strictly increasing nid order, with its stored values |
| SqliteIO.SelectedRows | neurodb/src/sqliteDBIO.py:164-179 | each edge row that passes the creator filter, exactly once, with its stored values |
| SqliteIO.SqliteStore.constructor | neurodb/src/sqliteDBIO.py:48-93 | a fresh file holds the three empty tables the DDL is meant to create (the DDL as written raises; see Left out) |
| SqliteIO.SqliteStore.AddNodes | neurodb/src/sqliteDBIO.py:95-118 | the nodes table becomes InsertNodes of the batch, or is unchanged when that fails; other tables unchanged |
| SqliteIO.SqliteStore.AddEdges | neurodb/src/sqliteDBIO.py:120-137 | the edges table becomes InsertOrIgnore of the batch and stays canonical |
| SqliteIO.SqliteStore.ReadNodes | neurodb/src/sqliteDBIO.py:139-158 | every stored node exactly once, ordered by nid |
| SqliteIO.SqliteStore.ReadEdges | neurodb/src/sqliteDBIO.py:160-181 | exactly the edges whose creator matches a non-empty filter, or all edges |
| SqliteIO.SqliteStore.DeleteNodes | neurodb/src/sqliteDBIO.py:183-191 | exactly the listed nodes and every edge touching one are removed; the rest is unchanged |
| SqliteIO.SqliteStore.DeleteEdges | neurodb/src/sqliteDBIO.py:193-201 | exactly the canonicalised pairs are removed, so (b, a) deletes stored (a, b) |
| SqliteIO.SqliteStore.UpdateNodes | neurodb/src/sqliteDBIO.py:203-246 | intended update (parameters in placeholder order): the nodes table becomes EmbeddedUpdate with the given or call-time date; the statement as written is Binding.UpdateAsWritten |
| SqliteIO.SqliteStore.CheckNode | neurodb/src/sqliteDBIO.py:248-249 | intended update: the node is checked (1); a node already checked keeps its row and date; no other row changes |
| SqliteIO.SqliteStore.UncheckNodes | neurodb/src/sqliteDBIO.py:251-252 | intended update: every listed node is unchecked (-1); unlisted rows unchanged |
| Binding.Supplied | neurodb/src/sqliteDBIO.py:204-230 | the supplied columns are exactly the non-None fields, in the code's order; none supplied iff the early return applies |
| Binding.InListValues | neurodb/src/sqliteDBIO.py:236-242 | binding n values to the n placeholders of `nid IN (...)` matches exactly those values |
| Binding.WhereInOrder | neurodb/src/sqliteDBIO.py:214-240 | with the WHERE placeholders bound to the supplied values, the condition holds iff some supplied column is NULL or differs |
| Binding.SetsInOrder | neurodb/src/sqliteDBIO.py:217-230 | with the SET placeholders bound to the supplied values, exactly the supplied columns take them |
| Binding.InOrderIsIntended | neurodb/src/sqliteDBIO.py:203-246 | binding values, date, nids, values in placeholder order gives exactly EmbeddedUpdate, on every table, nid list, field set and date |
| Binding.OneFieldAsWritten | neurodb/src/sqliteDBIO.py:214-244 | as written, with one field supplied: only nids before the last can change; such a row changes iff its column is NULL or differs from the last nid, and it then gets the value in that column and in `date` |
| Binding.OneNidChangesNothing | neurodb/src/sqliteDBIO.py:214-244 | as written, one nid and one field: no row changes (the nid placeholder is bound to the date) |
| Binding.CheckNodeMatchesNothing | neurodb/src/sqliteDBIO.py:214-250 | as written, check_node changes no row; the intended update would check a stored unchecked node |
| Binding.UncheckPairAsWritten | neurodb/src/sqliteDBIO.py:214-253 | as written, uncheck_nodes([a, b]) changes only a, and only if a's checked is NULL or differs from b, setting its checked and its date to -1 |
| Binding.TwoFieldsWriteAnotherRow | neurodb/src/sqliteDBIO.py:214-244 | as written, update_nodes([n], type=kv, checked=cv) leaves n alone and writes row cv: type and checked become kv, date becomes cv |
| SqliteIO.SqliteStore.GetMaxNid | neurodb/src/sqliteDBIO.py:254-262 | the largest nid, or 0 for an empty table |
| SqliteIO.SqliteStore.ReadNidWithinRoi | neurodb/src/sqliteDBIO.py:264-279 | exactly the nids with offset <= coord <= offset+size on all three axes, each once |
| SqliteIO.SqliteStore.Segs2Db | neurodb/src/sqliteDBIO.py:281-317 | intended effect: segments numbered after max sid, point nodes after max nid (insert cannot fail), chain edges inserted or ignored |
| SqliteIO.SqliteStore.InsertSegRows | neurodb/src/sqliteDBIO.py:286-291 | the segs table gains the batch under sids max sid + 1, max sid + 2, ...; nodes and edges are untouched |
| SqliteIO.SqliteStore.Segs2DbAsWritten | neurodb/src/sqliteDBIO.py:281-317 | as written: no table changes, and the call completes iff the batch has no sampled point |
| DataJointIO.DataJointStore.constructor | neurodb/src/datajointDBIO.py:13-54 | an empty schema holds three empty tables |
| DataJointIO.DataJointStore.AddNodes | neurodb/src/datajointDBIO.py:56-76 | succeeds iff InsertNodes does, and the nodes table becomes its result; else unchanged |
| DataJointIO.DataJointStore.AddEdges | neurodb/src/datajointDBIO.py:78-93 | succeeds iff the strict insert does (new, once, both nodes stored); the edges table stays canonical and its endpoints stored |
| DataJointIO.DataJointStore.DeleteEdges | neurodb/src/datajointDBIO.py:128-139 | returns true and removes exactly the canonicalised pairs, or returns false and changes nothing on a library error |
| DataJointIO.DataJointStore.UpdateNodes | neurodb/src/datajointDBIO.py:141-164 | the nodes table becomes ManagedUpdate (no early return, date always written); false and unchanged on error |
| DataJointIO.DataJointStore.CheckNode | neurodb/src/datajointDBIO.py:166-167 | update with checked = 1; a node whose checked is NULL is left alone (SQL `!=`); returns update's result |
| DataJointIO.DataJointStore.UncheckNode | neurodb/src/datajointDBIO.py:169-170 | update with checked = -1 on the listed nodes with a non-NULL checked; returns update's result |
| DataJointIO.DataJointStore.GetMaxNid | neurodb/src/datajointDBIO.py:172-177 | the largest nid, or 0 for an empty table or on a library error |
| DataJointIO.DataJointStore.ReadNidWithinRoi | neurodb/src/datajointDBIO.py:179-188 | exactly the nids with offset <= coord <= offset+size-1 on all three axes, each once |
| DataJointIO.DataJointStore.Segs2Db | neurodb/src/datajointDBIO.py:190-227 | sids numbered after max sid (after 0 on error), nodes after max nid; succeeds iff the sids and nids are free, and then all chain edges go in; always succeeds without errors |
| DataJointIO.ChainGoesIn | neurodb/src/datajointDBIO.py:207-227 | after the chain's nodes are inserted the strict edge insert of the chain succeeds |
| Migration.UpgradedRows | neurodb/src/sqliteDBIO.py:348-362 | one insert entry per decoded legacy node row, in order |
| Migration.UpgradedEdges | neurodb/src/sqliteDBIO.py:393-401 | one insert entry per legacy edge row, `des` as dst, own date kept |
| Migration.CopyNodeRowsIsInsert | neurodb/src/sqliteDBIO.py:344-362 | the node copy succeeds only when every coord decodes, and is then the plain insert of the decoded rows |
| Migration.NodeStepKeepsRows | neurodb/src/sqliteDBIO.py:348-362 | the node step succeeds iff every coord decodes and nids are distinct; each row then keeps nid, creator, type, checked, status, date with x, y, z split out |
| Migration.EdgeStepCollapses | neurodb/src/sqliteDBIO.py:391-401 | the new edges table is canonical and holds exactly the legacy pairs, duplicates in either order collapsed |
| Migration.EdgeStepKeepsFirst | neurodb/src/sqliteDBIO.py:393-401 | a collapsed pair keeps the creator and date of its first legacy row |
| Migration.CopyNodes | neurodb/src/sqliteDBIO.py:348-362 | the copy loop computes CopyNodeRows |
| Migration.CopyEdges | neurodb/src/sqliteDBIO.py:393-401 | the copy loop computes the INSERT OR IGNORE of the canonicalised legacy rows |
| Migration.SqliteFile.Upgrade | neurodb/src/sqliteDBIO.py:320-422 | each step runs only under its guard; a failing node step rolls back and returns false; a committed node step survives a failing edge step; success leaves neither guard true, and a run with no guard true changes nothing, so a second run is a no-op |
| Graphs.AddNode | neurodb/src/neurodb.py:45-53 | `add_node` merges the attributes into the node's dictionary and touches no other node |
| Graphs.AddEdge | neurodb/src/neurodb.py:62-63 | `add_edge` adds missing endpoints bare and keeps every node dictionary |
| Graphs.AddEdgeSpec | neurodb/src/neurodb.py:62-63 | adding an edge adds exactly {u, v} in both directions with its data |
| Graphs.AddEdgeWellFormed | neurodb/src/neurodb.py:34-35 | adding an edge keeps the graph symmetric |
| Graphs.RemoveNodeSpec | neurodb/src/neurodb.py:67 | removing a node removes it and exactly its incident edges |
| Graphs.RemoveEdgeSpec | neurodb/src/neurodb.py:71-72 | `remove_edge` succeeds iff the edge exists, and removes exactly it |
| Graphs.ReachSymmetric | neurodb/src/neurodb.py:107 | reachability in the undirected graph is symmetric |
| Graphs.SameOrDisjoint | neurodb/src/neurodb.py:107 | two components are equal or disjoint |
| Graphs.ClosedContainsReach | neurodb/src/neurodb.py:107 | a node set with no leaving edge contains the component of each member |
| Graphs.Component | neurodb/src/neurodb.py:107 | the search from s returns exactly the nodes reachable from s |
| Graphs.SearchDone | neurodb/src/neurodb.py:107 | a finished search (nothing left to expand) has found exactly the nodes reachable from its start |
| Graphs.Components | neurodb/src/neurodb.py:107 | `connected_components`: each entry is the component of a node, entries are pairwise disjoint, every node is in one |
| Mirror.RowAttrs | neurodb/src/neurodb.py:25-33 | the node dictionary has exactly the six attribute names |
| Mirror.RowAttrsInjective | neurodb/src/neurodb.py:24-33 | a node's dictionary determines its row |
| Mirror.AddNodeMirrors | neurodb/src/neurodb.py:44-53 | adding a node with its row's attributes keeps graph and tables in agreement |
| Mirror.AddEdgeMirrors | neurodb/src/neurodb.py:62-63 | adding an edge keeps the graph's edge set equal to the stored pairs |
| Mirror.AddEdgeExact | neurodb/src/neurodb.py:34-35 | adding a stored edge with its row keeps the exact mirror, edge data included |
| Mirror.RemoveNodeMirrors | neurodb/src/neurodb.py:65-67 | removing one node on both sides keeps the agreement |
| Mirror.RemoveEdgeMirrors | neurodb/src/neurodb.py:69-72 | removing a present edge on both sides keeps the agreement |
| Mirror.AddNodesKeepMirror | neurodb/src/neurodb.py:37-53 | a successful add_nodes keeps graph and tables in agreement |
| Mirror.AddEdgesKeepMirror | neurodb/src/neurodb.py:55-63 | add_edges keeps the graph's edges equal to the stored pairs |
| Mirror.ReaddedEdgeDiverges | neurodb/src/neurodb.py:61-63 | re-adding a stored edge under another creator leaves the table unchanged but overwrites the graph's edge data |
| Mirror.RemoveNodesKeepMirror | neurodb/src/neurodb.py:65-67 | delete_nodes removes the same nodes and incident edges on both sides |
| Mirror.RemoveEdgesMirror | neurodb/src/neurodb.py:69-72 | the graph loop completes iff every pair is stored and named once; it then agrees with the store's delete |
| Mirror.MirrorUpdateFrame | neurodb/src/neurodb.py:87-91 | update_nodes' graph loop keeps the node set and the edges |
| Mirror.SetIfChangedOnRow | neurodb/src/neurodb.py:81-84 | one intended attribute call on a node that carries its row gives the row's new dictionary |
| Mirror.UpdateOneOnRow | neurodb/src/neurodb.py:87-91 | the four calls for one stored nid move its dictionary to the store's new row |
| Mirror.UpdateOneOffRow | neurodb/src/neurodb.py:81-84 | on a node absent or bare the first supplied value raises and nothing changes |
| Mirror.UpdateOneNoneSupplied | neurodb/src/neurodb.py:81-84 | with no value supplied the four calls change nothing |
| Mirror.UpdateOneMirrors | neurodb/src/neurodb.py:87-91 | one stored nid, intended update: completes and keeps the agreement |
| Mirror.UpdateKeepsMirror | neurodb/src/neurodb.py:80-91 | the intended graph update completes iff no value is supplied or every listed nid is stored, and then agrees with EmbeddedUpdate |
| Mirror.ZeroNotMirrored | neurodb/src/neurodb.py:82 | as written, status = 0 reaches the store but not the graph, which then disagrees with the table |
| Mirror.MirrorSetChecked | neurodb/src/neurodb.py:102-104 | the check loop completes iff every nid is in the graph; it keeps nodes and edges |
| Mirror.SetCheckedMirrors | neurodb/src/neurodb.py:93-97 | checking one stored node on both sides keeps the agreement unless it only redates |
| Mirror.SetCheckedKeepsMirror | neurodb/src/neurodb.py:99-104 | checking or unchecking stored nodes completes and keeps the agreement |
| Mirror.RecheckRedates | neurodb/src/neurodb.py:93-97 | re-checking a checked node on another date leaves the store unchanged but redates the graph node |
| Annotation.ReachSetClosed | neurodb/src/neurodb.py:107 | no edge leaves a component |
| Annotation.ReachSetOfMember | neurodb/src/neurodb.py:107 | each node of a component has that component as its own |
| Annotation.ClosedSubDegree | neurodb/src/neurodb.py:121-126 | in a component, `sub_G.degree` equals the graph degree |
| Annotation.CheckComponent | neurodb/src/neurodb.py:112-116 | when the scan completes, valid iff no node is -1 and no degree-1 node is 0; when it raises, some node lacks `checked`; when every node carries `checked`, it completes |
| Annotation.Listed | neurodb/src/neurodb.py:128 | `list(cc)` lists each node of the component exactly once |
| Annotation.WithDegree | neurodb/src/neurodb.py:125-126 | exactly the listed nodes whose subgraph degree passes the test, each once |
| Annotation.EdgeEndsHaveCoords | neurodb/src/neurodb.py:123-124 | the length loop completes iff every node of the component that lies on an edge carries `coord` |
| Annotation.Describe | neurodb/src/neurodb.py:120-132 | raises iff a node of the component on an edge lacks `coord`; otherwise the entry lists the component's nodes, its degree > 2 nodes and its degree-1 nodes, and its length |
| Annotation.SelectKept | neurodb/src/neurodb.py:108-118 | keeps, in order, exactly the components of at least the threshold with no flagged node; raises only on a large-enough component with a node lacking `checked`, and completes when every node carries `checked` |
| Annotation.DescribeAll | neurodb/src/neurodb.py:119-132 | raises iff some kept component has a node on an edge lacking `coord`; otherwise one describing entry per kept component, in order |
| Annotation.KeptAmongKept | neurodb/src/neurodb.py:108-118 | every kept component of the graph is one of the kept list |
| Annotation.KeptCoords | neurodb/src/neurodb.py:119-124 | the length loops over the kept list all complete iff every kept component of the graph has `coord` on each node that lies on an edge |
| Annotation.SortedEntriesReported | neurodb/src/neurodb.py:119-133 | every entry of the sorted result describes a kept component |
| Annotation.KeptComponentListed | neurodb/src/neurodb.py:109-133 | a kept component reached from one of the components has an entry |
| Annotation.KeptComponentsListed | neurodb/src/neurodb.py:106-134 | every kept component of the graph has an entry |
| Annotation.KeptDisjoint | neurodb/src/neurodb.py:119-132 | the entries' node sets are pairwise disjoint |
| Annotation.SortByLength | neurodb/src/neurodb.py:133 | the result is sorted by length, descending, and is a permutation of the input |
| Annotation.RearrangedDisjoint | neurodb/src/neurodb.py:133 | sorting keeps the entries pairwise disjoint |
| NeuroDb.StampNodes | neurodb/src/neurodb.py:39-42 | each entry gets the call-time date unless it has one |
| NeuroDb.StampEdges | neurodb/src/neurodb.py:57-60 | each edge entry gets the call-time date unless it has one |
| NeuroDb.StampedNodesIgnoreClock | neurodb/src/neurodb.py:39-43 | once stamped, the store's own later clock reading does not change what it stores |
| NeuroDb.StampedNodesGraph | neurodb/src/neurodb.py:39-53 | the graph receives the same dates as the store |
| NeuroDb.StampedEdgesIgnoreClock | neurodb/src/neurodb.py:57-61 | once stamped, the store's later clock reading does not change the stored edges |
| NeuroDb.StampedEdgesGraph | neurodb/src/neurodb.py:57-63 | the graph's edges receive the same dates as the store |
| NeuroDb.EmptyExact | neurodb/src/neurodb.py:18 | the empty graph mirrors empty tables |
| NeuroDb.RemoveNodesWellFormed | neurodb/src/neurodb.py:67 | `remove_nodes_from` keeps the graph symmetric |
| NeuroDb.NeuroDB.constructor | neurodb/src/neurodb.py:9-19 | on a `.db` store the facade starts with a graph that exactly mirrors the tables |
| NeuroDb.NeuroDB.InitGraph | neurodb/src/neurodb.py:21-35 | the graph's nodes carry exactly the stored rows and its edges are exactly the stored pairs with their rows |
| NeuroDb.NeuroDB.AddNodes | neurodb/src/neurodb.py:37-53 | the store inserts the stamped batch; on success the graph gets the same nodes and dates, on failure nothing changes; agreement kept |
| NeuroDb.NeuroDB.AddEdges | neurodb/src/neurodb.py:55-63 | the store inserts or ignores the stamped pairs, the graph adds them; the graph's edges stay equal to the stored pairs |
| NeuroDb.StampNodeDates | neurodb/src/neurodb.py:39-42 | every entry without a date gets the call time; entries with one keep it |
| NeuroDb.StampEdgeDates | neurodb/src/neurodb.py:57-60 | every edge entry without a date gets the call time; entries with one keep it |
| NeuroDb.AddNodesToGraph | neurodb/src/neurodb.py:44-53 | the graph after one `add_node` per stamped entry, with that entry's row values |
| NeuroDb.AddEdgesToGraph | neurodb/src/neurodb.py:62-63 | the graph after one `add_edge` per stamped entry; it stays well formed |
| NeuroDb.NeuroDB.DeleteNodes | neurodb/src/neurodb.py:65-67 | both sides drop the nodes and their incident edges; agreement kept |
| NeuroDb.NeuroDB.DeleteEdges | neurodb/src/neurodb.py:69-72 | the store drops the pairs; the graph loop completes iff every pair is present and named once, and then agreement is kept |
| NeuroDb.NeuroDB.UpdateGraph | neurodb/src/neurodb.py:87-91 | the graph loop computes MirrorUpdate, stopping where it raises |
| NeuroDb.NeuroDB.UpdateNodes | neurodb/src/neurodb.py:80-91 | intended update: store as EmbeddedUpdate; completes iff nothing is supplied or every nid is stored, then agreement kept |
| NeuroDb.NeuroDB.UpdateNodesAsWritten | neurodb/src/neurodb.py:80-91 | graph side as written (acts only on truthy values); store side the intended EmbeddedUpdate |
| NeuroDb.NeuroDB.CheckNode | neurodb/src/neurodb.py:93-97 | intended store update checks the node; graph sets checked = 1 and the date; agreement kept for a stored node unless it only redates |
| NeuroDb.NeuroDB.UncheckNode | neurodb/src/neurodb.py:99-104 | intended: store unchecks the nodes; graph sets -1 and the date on each; agreement kept for stored nodes |
| NeuroDb.NeuroDB.UncheckGraph | neurodb/src/neurodb.py:102-104 | the graph loop computes MirrorSetChecked with -1 |
| NeuroDb.NeuroDB.UncheckNodeAsWritten | neurodb/src/neurodb.py:99-104 | as written: the call fails and neither store nor graph changes |
| NeuroDb.NeuroDB.GetAnnotationInfo | neurodb/src/neurodb.py:106-134 | when it completes, the entries describe kept components, every kept component has one, node sets are disjoint, entries are sorted by length descending, and every kept component has `coord` on its edge endpoints; it raises only when a large-enough component has a node lacking `checked` or a kept component has an edge endpoint lacking `coord`; it completes when every node carries `checked` and every node on an edge carries `coord` |

## Left out

- SQL text, connections, commits and `inspect_database` (print-only): the tables are maps, and each store method is one step.
- SqliteIO.SqliteStore.constructor: on a fresh file the source raises. `init_db`'s nodes DDL ends its column list with a comma before `)` (neurodb/src/sqliteDBIO.py:71-72), which SQLite rejects as a syntax error, and that table also has no `creator` column. The model starts from the three empty tables the DDL is meant to create.
- The legacy `coord` text decoded by `eval` and the segment point lists encoded as text blobs: both are given already decoded.
- DataJoint itself (schema declaration, the `Edges.make` hook, `dj.config`): the `in`, `between` and `!=` restrictions are read as their SQL conditions. Library errors are a `fault` parameter.
- DataJoint `read_nodes`, `read_edges` and `delete_nodes`: the facade only uses the embedded store in this model.
- `NeuroDB.read_nodes` and `NeuroDB.read_edges`: plain passthroughs to the store. `SqliteStore.ReadNodes`/`ReadEdges` model them.
- NeuroDb.NeuroDB.constructor: covers only the `.db` branch. A facade over the managed store is not modelled.
- NeuroDb.NeuroDB.InitGraph: requires the fresh graph, because the source calls `init_graph` only from the constructor.
- NeuroDb.NeuroDB.AddNodes: the caller's dictionaries that gain a `date` key are returned as `stamped`, not mutated in place.
- Annotation.Describe: the Euclidean length (floating point, `int()` truncation) is the abstract `length` parameter.
- Annotation.Listed: the order of `list(cc)`, `branch_nid` and `end_nid` follows networkx's set order. The model states them as sets of distinct nodes.
- Graphs.Components: the order of the components is not stated.
- Annotation.SortByLength: does not state that entries of equal length keep their order, although Python's sort does.
- Mirror.Mirrors: compares node attributes and the edge set, not edge data. Re-adding a stored edge diverges on edge data (Mirror.ReaddedEdgeDiverges).
- Dates are integers. Values read back from SQLite as text and dates given as `datetime` objects are not told apart.
- SqliteIO.SqliteStore.UpdateNodes: the wrapping of a single non-list nid into a list is not modelled; nids are always a sequence.
- SqliteIO.SqliteStore.UpdateNodes: carries the intended update, not the statement as written. As written the statement can store values a typed row cannot hold (an int in `date`, a nid in `type`), so it is modelled in Binding over SQL-valued rows, outside the class.
- SqliteIO.SqliteStore.CheckNode: carries the intended update; as written check_node changes no row (Binding.CheckNodeMatchesNothing).
- SqliteIO.SqliteStore.UncheckNodes: carries the intended update; as written only nids before the last can change (Binding.UncheckPairAsWritten).
- Binding.UpdateAsWritten: SQLite's column affinity, which stores a numeric text such as '5' as 5 in an INTEGER column, is not modelled. Bound values compare by kind and value, and a datetime binds as a stamp that equals no integer.
- SqliteIO.SqliteStore.ReadNidWithinRoi: requires at least three ROI values. A shorter ROI raises IndexError in the source, and that path is not modelled. The DataJoint version has the same requirement.
- Migration.SqliteFile.Upgrade: the `nodes_new`/`edges_new` tables that a failed step leaves behind are not modelled. The file is treated as restored, and a left-over `nodes_new` would make a later run fail.
- NeuroDb.NeuroDB.CheckNode: the store side is the intended update. With it, graph and store stay in sync only when the node is not already checked or the date does not change. Re-checking a checked node on a new date leaves the store's row as it is, because the update only writes changed values, while the graph node is redated anyway (neurodb/src/neurodb.py:96-97); Mirror.RecheckRedates proves this divergence. With the store as written, check_node changes no row at all (Binding.CheckNodeMatchesNothing), so graph and store diverge on every check of a stored unchecked node.
- Embedded add_nodes is modelled as all-or-nothing: a failing `executemany` never reaches `commit` (neurodb/src/sqliteDBIO.py:113-116), and the uncommitted rows are discarded with the connection.
- The managed store's `delete_edges` and `update_nodes` catch library errors and return False rather than re-raising. The model follows the code.
- `transfer.py` and the dashboard: callers outside the core.

## Findings

| source | as written | input that shows it | evidently intended | confidence | as-written member | corrected member |
|---|---|---|---|---|---|---|
| neurodb/src/sqliteDBIO.py:283-292 | segs2db inserts the segs rows on a connection it never commits or closes. That connection's open write transaction then blocks add_nodes' own insert. | any batch with at least one sampled point: add_nodes fails with "database is locked" and no row is stored; a batch with no sampled points stores nothing in segs | the segs rows are committed, and the nodes and chain edges are stored after them | medium, not executed | SqliteIO.SqliteStore.Segs2DbAsWritten | SqliteIO.SqliteStore.Segs2Db |
| neurodb/src/neurodb.py:101 | uncheck_node calls `self.DB.uncheck_node`, which the SQLite store does not have (it defines `uncheck_nodes`) | `uncheck_node([n])` on a `.db` facade raises AttributeError; neither store nor graph changes | the store's uncheck is called, then the graph is updated | high, not executed | NeuroDb.NeuroDB.UncheckNodeAsWritten | NeuroDb.NeuroDB.UncheckNode |
| neurodb/src/neurodb.py:82 | the graph update runs only for a truthy value | `update_nodes([n], status=0)` on a shown node: the intended store update hides it (status 0), the graph keeps status 1. With the store as written, `update_nodes([a, b], status=0)` on shown nodes with b != 1 gives a status 0 in the store (Binding.OneFieldAsWritten) while the graph keeps status 1 on a | every supplied (non-None) value reaches the graph, as it reaches the store | high, not executed | Mirror.ZeroNotMirrored | Mirror.UpdateKeepsMirror |
| neurodb/src/sqliteDBIO.py:214-244 | the parameters are built as each supplied value twice, then the date, then the nids; the placeholders run SET values, date, IN list, WHERE values | `check_node(5)` changes no row (5's IN slot holds the date); `uncheck_nodes([a, b])` changes only a (checked and date become -1, and only if a's checked is not b); `update_nodes([n], type=kv, checked=cv)` writes row cv, not n | the listed rows where a supplied column is NULL or differs take the supplied values and the date | high, not executed | Binding.CheckNodeMatchesNothing | Binding.InOrderIsIntended |
