/**
 * Pasting clipboard contents onto the canvas. Text becomes a `Constant` node
 * and a table a `DataTable` node at the paste position. Copied graph elements
 * are re-created: every copied node gets a fresh id and lands at the paste
 * position plus its stored offset, and a copied edge is re-created between
 * the new ids only when both of its ends were pasted in the same batch.
 */
module Paste {

  import opened Wrappers
  import opened GraphTypes
  import JsObject
  import AddNode
  import Seqs

  /** A copied element: a node snapshot (it has a position) or an edge snapshot. */
  datatype ClipElement =
    | NodeSnapshot(id: NodeId, nodeType: string, position: Position, sources: map<string, Value>)
    | EdgeSnapshot(from: Endpoint, to: Endpoint)

  /** A copied element with its offset from the mouse cursor at copy time. */
  datatype ClipEntry = ClipEntry(element: ClipElement, xOffset: real, yOffset: real)

  /** What reading the clipboard produced; a table is already converted to its cell value. */
  datatype ClipboardResult = TextClip(text: string) | TableClip(table: Value) | NodesClip(entries: seq<ClipEntry>)

  /** `clipboardElement.element.position` is set: only node snapshots carry one. */
  predicate HasPosition(e: ClipEntry) {
    e.element.NodeSnapshot?
  }

  /** `clipboardElements.filter(hasPosition)`: the copied nodes, in clipboard order. */
  function ClipNodes(entries: seq<ClipEntry>): (r: seq<ClipEntry>)
    ensures |r| <= |entries| && AllNodes(r)
    ensures forall e :: e in r <==> e in entries && HasPosition(e)
  {
    if entries == [] then []
    else (if HasPosition(entries[0]) then [entries[0]] else []) + ClipNodes(entries[1..])
  }

  /** `clipboardElements.filter(!hasPosition)`: everything else, treated as edges. */
  function ClipEdges(entries: seq<ClipEntry>): (r: seq<ClipEntry>)
    ensures |r| <= |entries|
    ensures forall e :: e in r <==> e in entries && !HasPosition(e)
  {
    if entries == [] then []
    else (if !HasPosition(entries[0]) then [entries[0]] else []) + ClipEdges(entries[1..])
  }

  /** Every clipboard entry is pasted either as a node or as an edge, never both. */
  lemma {:induction false} ClipSplitIsPartition(entries: seq<ClipEntry>)
    ensures |ClipNodes(entries)| + |ClipEdges(entries)| == |entries|
  {
    if entries != [] {
      ClipSplitIsPartition(entries[1..]);
    }
  }

  /** Where a copied node lands: the paste position plus its stored offset. */
  function Landing(e: ClipEntry, at: Position): Position {
    Position(at.x + e.xOffset, at.y + e.yOffset)
  }

  /** All entries are node snapshots. */
  predicate AllNodes(nodes: seq<ClipEntry>) {
    forall i :: 0 <= i < |nodes| ==> HasPosition(nodes[i])
  }

  /** The record the engine stores for the `i`-th pasted node. */
  predicate PastedAs(n: NodeRecord, e: ClipEntry, at: Position, id: NodeId)
    requires HasPosition(e)
  {
    n == NodeRecord(id, e.element.nodeType, Landing(e, at), e.element.sources)
  }

  /**
   * `clipboardNodes.map(... proGraph.addNode(...))`: one new node per copied
   * node, in order, the `i`-th under the `i`-th fresh id, at the paste
   * position plus its offset, with the copied type and sources.
   */
  function AddPastedNodes(doc: Doc, nodes: seq<ClipEntry>, at: Position, newIds: seq<NodeId>): (r: Doc)
    requires AllNodes(nodes) && |newIds| >= |nodes|
    ensures r.edges == doc.edges
    ensures |r.nodes| == |doc.nodes| + |nodes| && r.nodes[..|doc.nodes|] == doc.nodes
    ensures forall i :: 0 <= i < |nodes| ==> PastedAs(r.nodes[|doc.nodes| + i], nodes[i], at, newIds[i])
    decreases |nodes|
  {
    if nodes == [] then doc
    else
      var e := nodes[0];
      var doc' := doc.AddNode(NodeRecord(newIds[0], e.element.nodeType, Landing(e, at), e.element.sources));
      var r := AddPastedNodes(doc', nodes[1..], at, newIds[1..]);
      assert r.nodes[..|doc.nodes|] == doc'.nodes[..|doc.nodes|];
      r
  }

  /** `new Map(newNodes.map((newNodeId, i) => [clipboardNodes[i].element.id, newNodeId]))`: old id to new id. */
  function IdTable(nodes: seq<ClipEntry>, newIds: seq<NodeId>): (t: map<NodeId, NodeId>)
    requires AllNodes(nodes) && |newIds| >= |nodes|
    ensures forall k :: k in t <==> exists i :: 0 <= i < |nodes| && nodes[i].element.id == k
    ensures forall k :: k in t ==> t[k] in newIds[..|nodes|]
    ensures forall i :: LastCopy(nodes, i) ==> t[nodes[i].element.id] == newIds[i]
  {
    var entries := seq(|nodes|, i requires 0 <= i < |nodes| => (nodes[i].element.id, newIds[i]));
    JsObject.FromEntriesPairs(entries);
    assert forall i :: 0 <= i < |nodes| ==> entries[i] == (nodes[i].element.id, newIds[i]);
    assert forall i :: LastCopy(nodes, i) ==> JsObject.LastWithKey(entries, i);
    assert forall k, v :: (k, v) in entries ==> v in newIds[..|nodes|];
    assert forall k :: (exists i :: 0 <= i < |nodes| && nodes[i].element.id == k) ==> JsObject.HasKey(entries, k);
    JsObject.FromEntries(entries)
  }

  /** No later copied node carries the id of the `i`-th one, so the `i`-th entry of the table survives. */
  predicate LastCopy(nodes: seq<ClipEntry>, i: int)
    requires AllNodes(nodes)
  {
    0 <= i < |nodes| && forall j :: i < j < |nodes| ==> nodes[j].element.id != nodes[i].element.id
  }

  /** `newNodesMap.get(id)` is truthy: the id was pasted and its new id is not the empty string. */
  predicate Mapped(t: map<NodeId, NodeId>, id: NodeId) {
    id in t && t[id] != []
  }

  /** A copied edge both of whose ends were pasted in this batch. */
  predicate Recreated(t: map<NodeId, NodeId>, e: ClipEntry) {
    e.element.EdgeSnapshot? && Mapped(t, e.element.to.nodeId) && Mapped(t, e.element.from.nodeId)
  }

  /** The re-created edge: both ends moved to the new ids, bus keys kept. */
  function Remap(t: map<NodeId, NodeId>, e: ClipEntry): (r: EdgeRecord)
    requires Recreated(t, e)
    ensures r.from.busKey == e.element.from.busKey && r.to.busKey == e.element.to.busKey
    ensures r.from.nodeId == t[e.element.from.nodeId] && r.to.nodeId == t[e.element.to.nodeId]
  {
    EdgeRecord(Endpoint(t[e.element.from.nodeId], e.element.from.busKey),
               Endpoint(t[e.element.to.nodeId], e.element.to.busKey))
  }

  /** Edge record `x` is the re-creation of some copied edge of `edges`. */
  ghost predicate FromCopiedEdge(x: EdgeRecord, edges: seq<ClipEntry>, t: map<NodeId, NodeId>) {
    exists e :: e in edges && Recreated(t, e) && x == Remap(t, e)
  }

  /** The copied edges that survive the paste, those with both ends in the table (in clipboard order, as `RecreatableEdgesInOrder` states). */
  function RecreatableEdges(edges: seq<ClipEntry>, t: map<NodeId, NodeId>): (r: seq<ClipEntry>)
    ensures |r| <= |edges|
    ensures forall k :: 0 <= k < |r| ==> Recreated(t, r[k])
    ensures forall e :: e in r <==> e in edges && Recreated(t, e)
  {
    if edges == [] then []
    else (if Recreated(t, edges[0]) then [edges[0]] else []) + RecreatableEdges(edges[1..], t)
  }

  /**
   * `idx` lists, in increasing order, the positions of `edges` that `r`
   * takes, and every position of a surviving edge is among them: `r` is the
   * surviving edges, each once, in clipboard order.
   */
  ghost predicate PicksSurvivors(edges: seq<ClipEntry>, t: map<NodeId, NodeId>, r: seq<ClipEntry>, idx: seq<int>) {
    && |idx| == |r|
    && (forall k :: 0 <= k < |idx| ==> 0 <= idx[k] < |edges| && r[k] == edges[idx[k]])
    && (forall k, l :: 0 <= k < l < |idx| ==> idx[k] < idx[l])
    && (forall i :: 0 <= i < |edges| && Recreated(t, edges[i]) ==> i in idx)
  }

  /** The surviving copied edges are taken from the clipboard in order, each once, and none is skipped. */
  lemma RecreatableEdgesInOrder(edges: seq<ClipEntry>, t: map<NodeId, NodeId>)
    ensures exists idx :: PicksSurvivors(edges, t, RecreatableEdges(edges, t), idx)
  {
    var idx := SurvivorIndices(edges, t);
  }

  /** The positions `RecreatableEdges` takes its edges from. */
  lemma {:induction false} SurvivorIndices(edges: seq<ClipEntry>, t: map<NodeId, NodeId>) returns (idx: seq<int>)
    ensures PicksSurvivors(edges, t, RecreatableEdges(edges, t), idx)
  {
    if edges == [] {
      idx := [];
    } else {
      var rest := SurvivorIndices(edges[1..], t);
      var r' := RecreatableEdges(edges[1..], t);
      var shifted := ShiftedPicks(edges, t, r', rest);
      if Recreated(t, edges[0]) {
        idx := [0] + shifted;
        assert RecreatableEdges(edges, t) == [edges[0]] + r';
        PickFirst(edges, t, r', shifted);
      } else {
        idx := shifted;
        assert RecreatableEdges(edges, t) == r';
      }
    }
  }

  /**
   * `shifted` lists, in increasing order, positions of `edges` after the
   * first that `r` takes, and every later position of a surviving edge is
   * among them.
   */
  ghost predicate PicksFromTail(edges: seq<ClipEntry>, t: map<NodeId, NodeId>, r: seq<ClipEntry>, shifted: seq<int>) {
    && |shifted| == |r|
    && (forall k :: 0 <= k < |shifted| ==> 1 <= shifted[k] < |edges| && r[k] == edges[shifted[k]])
    && (forall k, l :: 0 <= k < l < |shifted| ==> shifted[k] < shifted[l])
    && (forall i :: 1 <= i < |edges| && Recreated(t, edges[i]) ==> i in shifted)
  }

  /** The positions picked from the tail of the clipboard, counted in the whole clipboard. */
  lemma ShiftedPicks(edges: seq<ClipEntry>, t: map<NodeId, NodeId>, r: seq<ClipEntry>, rest: seq<int>) returns (shifted: seq<int>)
    requires edges != [] && PicksSurvivors(edges[1..], t, r, rest)
    ensures PicksFromTail(edges, t, r, shifted)
  {
    shifted := seq(|rest|, k requires 0 <= k < |rest| => rest[k] + 1);
    forall k | 0 <= k < |shifted|
      ensures 1 <= shifted[k] < |edges| && r[k] == edges[shifted[k]]
    {
      assert edges[1..][rest[k]] == edges[rest[k] + 1];
    }
    forall i | 1 <= i < |edges| && Recreated(t, edges[i])
      ensures i in shifted
    {
      assert edges[1..][i - 1] == edges[i];
      var k :| 0 <= k < |rest| && rest[k] == i - 1;
      assert shifted[k] == i;
    }
  }

  /** A surviving first edge is taken first, from position 0, before the picks from the tail. */
  lemma PickFirst(edges: seq<ClipEntry>, t: map<NodeId, NodeId>, r: seq<ClipEntry>, shifted: seq<int>)
    requires edges != [] && Recreated(t, edges[0]) && PicksFromTail(edges, t, r, shifted)
    ensures PicksSurvivors(edges, t, [edges[0]] + r, [0] + shifted)
  {
    var all, idx := [edges[0]] + r, [0] + shifted;
    forall k | 0 < k < |idx|
      ensures idx[k] == shifted[k - 1] && all[k] == r[k - 1]
    {
    }
    forall i | 0 < i < |edges| && Recreated(t, edges[i])
      ensures i in idx
    {
      var k :| 0 <= k < |shifted| && shifted[k] == i;
      assert idx[k + 1] == i;
    }
  }

  /**
   * The loop over the copied edges: an edge is added, remapped, exactly when
   * both of its ends are in the table; the others are dropped. The added
   * edges are the surviving copied edges, one each, in clipboard order.
   */
  function AddPastedEdges(doc: Doc, edges: seq<ClipEntry>, t: map<NodeId, NodeId>): (r: Doc)
    ensures r.nodes == doc.nodes
    ensures |doc.edges| <= |r.edges| <= |doc.edges| + |edges| && r.edges[..|doc.edges|] == doc.edges
    ensures forall x :: x in r.edges[|doc.edges|..] <==> FromCopiedEdge(x, edges, t)
    ensures r.edges == doc.edges + Remapped(RecreatableEdges(edges, t), t)
    decreases |edges|
  {
    if edges == [] then doc
    else
      var e := edges[0];
      var doc' := if Recreated(t, e) then doc.AddEdge(Remap(t, e)) else doc;
      var r := AddPastedEdges(doc', edges[1..], t);
      PastedEdgesStep(doc, edges, t, doc', r);
      PastedEdgesShape(doc.edges, r.edges, edges, t);
      r
  }

  /** One turn of the loop over the copied edges keeps the edges added so far equal to the remapped survivors. */
  lemma PastedEdgesStep(doc: Doc, edges: seq<ClipEntry>, t: map<NodeId, NodeId>, doc': Doc, r: Doc)
    requires edges != []
    requires doc' == if Recreated(t, edges[0]) then doc.AddEdge(Remap(t, edges[0])) else doc
    requires r.edges == doc'.edges + Remapped(RecreatableEdges(edges[1..], t), t)
    ensures r.edges == doc.edges + Remapped(RecreatableEdges(edges, t), t)
  {
    var first := if Recreated(t, edges[0]) then [Remap(t, edges[0])] else [];
    RemappedStep(edges, t);
    assert doc'.edges == doc.edges + first;
    Seqs.AppendAssoc(doc.edges, first, Remapped(RecreatableEdges(edges[1..], t), t));
  }

  /** Remapping the surviving edges of a clipboard peels off its first edge's re-creation, if it survives. */
  lemma RemappedStep(edges: seq<ClipEntry>, t: map<NodeId, NodeId>)
    requires edges != []
    ensures Remapped(RecreatableEdges(edges, t), t)
         == (if Recreated(t, edges[0]) then [Remap(t, edges[0])] else []) + Remapped(RecreatableEdges(edges[1..], t), t)
  {
    var rest := RecreatableEdges(edges[1..], t);
    if Recreated(t, edges[0]) {
      assert RecreatableEdges(edges, t) == [edges[0]] + rest;
      RemappedCons(edges[0], rest, t);
    } else {
      assert RecreatableEdges(edges, t) == [] + rest;
    }
  }

  /** Edges that extend `before` by the remapped survivors keep `before`, add at most one edge per copied edge, and add exactly the re-created ones. */
  lemma PastedEdgesShape(before: seq<EdgeRecord>, after: seq<EdgeRecord>, edges: seq<ClipEntry>, t: map<NodeId, NodeId>)
    requires after == before + Remapped(RecreatableEdges(edges, t), t)
    ensures |before| <= |after| <= |before| + |edges| && after[..|before|] == before
    ensures forall x :: x in after[|before|..] <==> FromCopiedEdge(x, edges, t)
  {
    var tail := Remapped(RecreatableEdges(edges, t), t);
    assert after[..|before|] == before && after[|before|..] == tail;
    KeptEdgesAreCopied(tail, edges, t);
  }

  /** The surviving copied edges, each moved onto the new ids, in order. */
  function Remapped(kept: seq<ClipEntry>, t: map<NodeId, NodeId>): (rs: seq<EdgeRecord>)
    requires forall k :: 0 <= k < |kept| ==> Recreated(t, kept[k])
    ensures |rs| == |kept|
    ensures forall k :: 0 <= k < |kept| ==> rs[k] == Remap(t, kept[k])
  {
    seq(|kept|, k requires 0 <= k < |kept| => Remap(t, kept[k]))
  }

  /** Remapping a surviving edge in front of others puts its re-creation in front of theirs. */
  lemma RemappedCons(e: ClipEntry, kept: seq<ClipEntry>, t: map<NodeId, NodeId>)
    requires Recreated(t, e) && forall k :: 0 <= k < |kept| ==> Recreated(t, kept[k])
    ensures Remapped([e] + kept, t) == [Remap(t, e)] + Remapped(kept, t)
  {
    var l, r := Remapped([e] + kept, t), [Remap(t, e)] + Remapped(kept, t);
    forall k | 0 <= k < |l|
      ensures l[k] == r[k]
    {
      if k > 0 {
        assert ([e] + kept)[k] == kept[k - 1];
      }
    }
  }

  /** Edges that are the surviving copied edges, remapped one by one, are exactly the re-creations of copied edges. */
  lemma KeptEdgesAreCopied(added: seq<EdgeRecord>, edges: seq<ClipEntry>, t: map<NodeId, NodeId>)
    requires |added| == |RecreatableEdges(edges, t)|
    requires forall k :: 0 <= k < |added| ==> added[k] == Remap(t, RecreatableEdges(edges, t)[k])
    ensures forall x :: x in added <==> FromCopiedEdge(x, edges, t)
  {
    var kept := RecreatableEdges(edges, t);
    forall x
      ensures x in added <==> FromCopiedEdge(x, edges, t)
    {
      if x in added {
        var k :| 0 <= k < |added| && added[k] == x;
        assert kept[k] in kept;
      }
      if FromCopiedEdge(x, edges, t) {
        var e :| e in edges && Recreated(t, e) && x == Remap(t, e);
        assert e in kept;
        var k :| 0 <= k < |kept| && kept[k] == e;
        assert added[k] == x;
      }
    }
  }

  /** The `"nodes"` branch: all copied nodes are added first, then the copied edges between them. */
  function PasteElements(doc: Doc, entries: seq<ClipEntry>, at: Position, newIds: seq<NodeId>): (r: Doc)
    requires |newIds| >= |ClipNodes(entries)|
    ensures |r.nodes| == |doc.nodes| + |ClipNodes(entries)| && r.nodes[..|doc.nodes|] == doc.nodes
    ensures forall i :: 0 <= i < |ClipNodes(entries)| ==>
              PastedAs(r.nodes[|doc.nodes| + i], ClipNodes(entries)[i], at, newIds[i])
    ensures |doc.edges| <= |r.edges| <= |doc.edges| + |ClipEdges(entries)| && r.edges[..|doc.edges|] == doc.edges
    ensures forall x :: x in r.edges[|doc.edges|..] <==>
              FromCopiedEdge(x, ClipEdges(entries), IdTable(ClipNodes(entries), newIds))
    ensures r.edges == doc.edges + Remapped(RecreatableEdges(ClipEdges(entries), IdTable(ClipNodes(entries), newIds)),
                                            IdTable(ClipNodes(entries), newIds))
  {
    var nodes := ClipNodes(entries);
    var withNodes := AddPastedNodes(doc, nodes, at, newIds);
    var r := AddPastedEdges(withNodes, ClipEdges(entries), IdTable(nodes, newIds));
    assert r.edges[..|doc.edges|] == withNodes.edges[..|doc.edges|];
    r
  }

  /** How many fresh ids pasting `clip` consumes. */
  function FreshNeeded(clip: ClipboardResult): nat {
    match clip
    case NodesClip(entries) => |ClipNodes(entries)|
    case _ => 1
  }

  /**
   * `pasteData`: text becomes a `Constant` node holding it, a table a
   * `DataTable` node holding it, both at the paste position (and failing when
   * that type is not registered); copied elements are re-created.
   */
  function PasteData(registry: map<string, NodeClass>, doc: Doc, clip: ClipboardResult, at: Position,
                     newIds: seq<NodeId>): (r: Result<Doc, AddNode.AddNodeError>)
    requires |newIds| >= FreshNeeded(clip)
    ensures clip.TextClip? ==> (r.Err? <==> "Constant" !in registry)
    ensures clip.TableClip? ==> (r.Err? <==> "DataTable" !in registry)
    ensures clip.TextClip? && r.Ok? ==>
              r.value == doc.AddNode(NodeRecord(newIds[0], "Constant", at, map["value" := Text(clip.text)]))
    ensures clip.TableClip? && r.Ok? ==>
              r.value == doc.AddNode(NodeRecord(newIds[0], "DataTable", at, map["table" := clip.table]))
    ensures clip.NodesClip? ==> r == Ok(PasteElements(doc, clip.entries, at, newIds))
  {
    match clip
    case TextClip(text) =>
      AddNode.AddNode(registry, doc, newIds[0], "Constant", Some(map["value" := Text(text)]), at)
    case TableClip(table) =>
      AddNode.AddNode(registry, doc, newIds[0], "DataTable", Some(map["table" := table]), at)
    case NodesClip(entries) =>
      Ok(PasteElements(doc, entries, at, newIds))
  }

  /**
   * With non-empty fresh ids, a copied edge is re-created exactly when both
   * of its ends are among the copied nodes, and it then links the new ids of
   * those nodes, never an id from outside the batch.
   */
  lemma PastedEdgesStayInBatch(doc: Doc, entries: seq<ClipEntry>, at: Position, newIds: seq<NodeId>)
    requires |newIds| >= |ClipNodes(entries)|
    requires forall i :: 0 <= i < |newIds| ==> newIds[i] != []
    ensures var r := PasteElements(doc, entries, at, newIds);
            var t := IdTable(ClipNodes(entries), newIds);
            && (forall e :: e in ClipEdges(entries) ==>
                  (Recreated(t, e) <==> InBatch(entries, e.element.from.nodeId) && InBatch(entries, e.element.to.nodeId)))
            && (forall x :: x in r.edges[|doc.edges|..] ==>
                  x.from.nodeId in newIds[..|ClipNodes(entries)|] && x.to.nodeId in newIds[..|ClipNodes(entries)|])
  {
    var nodes := ClipNodes(entries);
    var t := IdTable(nodes, newIds);
    IdTableIsBatch(entries, newIds);
    var r := PasteElements(doc, entries, at, newIds);
    forall x | x in r.edges[|doc.edges|..]
      ensures x.from.nodeId in newIds[..|nodes|] && x.to.nodeId in newIds[..|nodes|]
    {
      assert FromCopiedEdge(x, ClipEdges(entries), t);
      var e :| e in ClipEdges(entries) && Recreated(t, e) && x == Remap(t, e);
    }
  }

  /** With non-empty fresh ids, the id table maps exactly the copied node ids, each to a truthy new id. */
  lemma IdTableIsBatch(entries: seq<ClipEntry>, newIds: seq<NodeId>)
    requires |newIds| >= |ClipNodes(entries)|
    requires forall i :: 0 <= i < |newIds| ==> newIds[i] != []
    ensures var t := IdTable(ClipNodes(entries), newIds);
            forall k :: Mapped(t, k) <==> InBatch(entries, k)
  {
    var nodes := ClipNodes(entries);
    var t := IdTable(nodes, newIds);
    forall k
      ensures Mapped(t, k) <==> InBatch(entries, k)
    {
      if k in t {
        var j :| 0 <= j < |nodes| && newIds[j] == t[k];
        var i :| 0 <= i < |nodes| && nodes[i].element.id == k;
        assert nodes[i] in nodes;
      }
      if InBatch(entries, k) {
        var e :| e in entries && HasPosition(e) && e.element.id == k;
        var i :| 0 <= i < |nodes| && nodes[i] == e;
      }
    }
  }

  /** Node `id` is among the copied nodes of the clipboard. */
  predicate InBatch(entries: seq<ClipEntry>, id: NodeId) {
    exists e :: e in entries && HasPosition(e) && e.element.id == id
  }

  /** The clipboard `[a, b, ab]` splits into the nodes `[a, b]` and the edge `[ab]`. */
  lemma TwoNodesOneEdgeSplit(a: ClipEntry, b: ClipEntry, ab: ClipEntry)
    requires HasPosition(a) && HasPosition(b) && !HasPosition(ab)
    ensures ClipNodes([a, b, ab]) == [a, b] && ClipEdges([a, b, ab]) == [ab]
  {
    assert [ab][1..] == [];
    assert [b, ab][1..] == [ab];
    assert [a, b, ab][1..] == [b, ab];
    assert ClipNodes([ab]) == [] && ClipEdges([ab]) == [ab];
    assert ClipNodes([b, ab]) == [b] && ClipEdges([b, ab]) == [ab];
  }

  /** A clipboard whose copied nodes are `a` then `b` adds exactly those two nodes, in order, under the two new ids. */
  lemma PasteTwoNodes(doc: Doc, entries: seq<ClipEntry>, a: ClipEntry, b: ClipEntry, at: Position, idA: NodeId, idB: NodeId)
    requires HasPosition(a) && HasPosition(b) && ClipNodes(entries) == [a, b]
    ensures PasteElements(doc, entries, at, [idA, idB]).nodes
         == doc.nodes + [NodeRecord(idA, a.element.nodeType, Landing(a, at), a.element.sources),
                         NodeRecord(idB, b.element.nodeType, Landing(b, at), b.element.sources)]
  {
    var r := PasteElements(doc, entries, at, [idA, idB]);
    var k := |doc.nodes|;
    PastedNodeAt(doc, entries, at, [idA, idB], 0);
    PastedNodeAt(doc, entries, at, [idA, idB], 1);
    Seqs.ExtendedByTwo(r.nodes, doc.nodes, r.nodes[k], r.nodes[k + 1]);
  }

  /** The `i`-th node a paste adds is the `i`-th copied node under the `i`-th fresh id. */
  lemma PastedNodeAt(doc: Doc, entries: seq<ClipEntry>, at: Position, newIds: seq<NodeId>, i: nat)
    requires |newIds| >= |ClipNodes(entries)| && i < |ClipNodes(entries)|
    ensures PasteElements(doc, entries, at, newIds).nodes[|doc.nodes| + i]
         == NodeRecord(newIds[i], ClipNodes(entries)[i].element.nodeType, Landing(ClipNodes(entries)[i], at),
                       ClipNodes(entries)[i].element.sources)
  {
    var r := PasteElements(doc, entries, at, newIds);
    assert PastedAs(r.nodes[|doc.nodes| + i], ClipNodes(entries)[i], at, newIds[i]);
  }

  /**
   * A clipboard whose copied nodes are `a` then `b` and whose one edge `ab`
   * runs between them adds exactly that edge, moved onto the two new ids.
   */
  lemma PasteTheirEdge(doc: Doc, entries: seq<ClipEntry>, a: ClipEntry, b: ClipEntry, ab: ClipEntry, at: Position,
                       idA: NodeId, idB: NodeId)
    requires HasPosition(a) && HasPosition(b) && a.element.id != b.element.id
    requires ClipNodes(entries) == [a, b] && ClipEdges(entries) == [ab]
    requires ab.element == EdgeSnapshot(Endpoint(a.element.id, "out"), Endpoint(b.element.id, "in"))
    requires idA != [] && idB != []
    ensures PasteElements(doc, entries, at, [idA, idB]).edges
         == doc.edges + [EdgeRecord(Endpoint(idA, "out"), Endpoint(idB, "in"))]
  {
    var t := IdTable([a, b], [idA, idB]);
    TwoNodeTable(a, b, idA, idB);
    var x := EdgeRecord(Endpoint(idA, "out"), Endpoint(idB, "in"));
    assert Recreated(t, ab) && Remap(t, ab) == x;
    assert FromCopiedEdge(x, [ab], t);
    var r := PasteElements(doc, entries, at, [idA, idB]);
    Seqs.ExtendedByOne(r.edges, doc.edges, x);
  }

  /**
   * Copying two nodes and the edge between them and pasting the result adds
   * two nodes at the paste position plus their offsets and exactly one edge,
   * between the two new ids.
   */
  lemma CopyTwoNodesAndTheirEdge(doc: Doc, a: ClipEntry, b: ClipEntry, ab: ClipEntry, at: Position, idA: NodeId, idB: NodeId)
    requires a.element.NodeSnapshot? && b.element.NodeSnapshot? && a.element.id != b.element.id
    requires ab.element == EdgeSnapshot(Endpoint(a.element.id, "out"), Endpoint(b.element.id, "in"))
    requires idA != [] && idB != []
    ensures |ClipNodes([a, b, ab])| == 2
    ensures PasteElements(doc, [a, b, ab], at, [idA, idB]).nodes
         == doc.nodes + [NodeRecord(idA, a.element.nodeType, Landing(a, at), a.element.sources),
                         NodeRecord(idB, b.element.nodeType, Landing(b, at), b.element.sources)]
    ensures PasteElements(doc, [a, b, ab], at, [idA, idB]).edges
         == doc.edges + [EdgeRecord(Endpoint(idA, "out"), Endpoint(idB, "in"))]
  {
    TwoNodesOneEdgeSplit(a, b, ab);
    PasteTwoNodes(doc, [a, b, ab], a, b, at, idA, idB);
    PasteTheirEdge(doc, [a, b, ab], a, b, ab, at, idA, idB);
  }

  /** The id table of two differently named copied nodes sends each to its own new id. */
  lemma TwoNodeTable(a: ClipEntry, b: ClipEntry, idA: NodeId, idB: NodeId)
    requires HasPosition(a) && HasPosition(b) && a.element.id != b.element.id
    ensures var t := IdTable([a, b], [idA, idB]);
            a.element.id in t && b.element.id in t && t[a.element.id] == idA && t[b.element.id] == idB
  {
    assert LastCopy([a, b], 0) && LastCopy([a, b], 1);
  }
}
