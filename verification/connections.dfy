/**
 * Validation of a re-routed connection on the canvas: an input handle
 * accepts at most one committed incoming edge, while suggested edges never
 * count against that limit. The editor runs this check only when an existing
 * edge is dragged to a new handle; new connections reach the engine unchecked.
 */
module Connections {

  import opened Wrappers
  import opened GraphTypes

  /** `els.find(({id}) => id === target)`: the first element with that id, if any. */
  function FindById(els: seq<Element>, target: Option<string>): (r: Option<Element>)
    ensures r.Some? <==> exists i :: 0 <= i < |els| && Some(els[i].id) == target
    ensures r.Some? ==> r.value in els && Some(r.value.id) == target
  {
    if els == [] then None
    else if Some(els[0].id) == target then Some(els[0])
    else FindById(els[1..], target)
  }

  /** `els.filter(isEdge)`: the edges of the element list, in order. */
  function EdgesOf(els: seq<Element>): (r: seq<Element>)
    ensures forall e :: e in r <==> e in els && e.FlowEdge?
  {
    if els == [] then []
    else (if els[0].FlowEdge? then [els[0]] else []) + EdgesOf(els[1..])
  }

  /**
   * `getConnectedEdges([node], edges)` of the canvas library: the edges that
   * leave or enter the node.
   */
  function ConnectedEdges(nodeId: string, edges: seq<Element>): (r: seq<Element>)
    ensures forall e :: e in r <==> e in edges && e.FlowEdge? && (e.source == nodeId || e.target == nodeId)
  {
    if edges == [] then []
    else
      var e := edges[0];
      (if e.FlowEdge? && (e.source == nodeId || e.target == nodeId) then [e] else []) + ConnectedEdges(nodeId, edges[1..])
  }

  /** The edges of `edges` that end at `nodeId` on `handle`. */
  function OnHandle(edges: seq<Element>, nodeId: string, handle: Option<string>): (r: seq<Element>)
    ensures forall e :: e in r <==> e in edges && e.FlowEdge? && e.target == nodeId && e.targetHandle == handle
  {
    if edges == [] then []
    else
      var e := edges[0];
      (if e.FlowEdge? && e.target == nodeId && e.targetHandle == handle then [e] else []) + OnHandle(edges[1..], nodeId, handle)
  }

  /** `handleEdges.some((edge) => !edge.data.isSuggested)`. */
  function SomeCommitted(edges: seq<Element>): (b: bool)
    ensures b <==> exists e :: e in edges && e.FlowEdge? && !e.suggested
  {
    if edges == [] then false
    else (edges[0].FlowEdge? && !edges[0].suggested) || SomeCommitted(edges[1..])
  }

  /** A committed (not suggested) edge already ends at `target` on `handle`. */
  ghost predicate HandleTaken(els: seq<Element>, target: string, handle: Option<string>) {
    exists e :: e in els && e.FlowEdge? && e.target == target && e.targetHandle == handle && !e.suggested
  }

  /** Some element of `els` has the connection's target as its id. */
  ghost predicate TargetPresent(els: seq<Element>, conn: Connection) {
    exists i :: 0 <= i < |els| && Some(els[i].id) == conn.target
  }

  /**
   * `validateConnection`: invalid when no element carries the target id;
   * otherwise invalid exactly when a committed edge already ends at the
   * target on the same handle.
   */
  function ValidateConnection(conn: Connection, els: seq<Element>): (valid: bool)
    ensures !TargetPresent(els, conn) ==> !valid
    ensures TargetPresent(els, conn) ==> (valid <==> !HandleTaken(els, conn.target.value, conn.targetHandle))
  {
    match FindById(els, conn.target)
    case None => false
    case Some(target) =>
      var handleEdges := OnHandle(ConnectedEdges(target.id, EdgesOf(els)), target.id, conn.targetHandle);
      !(|handleEdges| >= 1 && SomeCommitted(handleEdges))
  }

  /** `${handle}` in a template string: the handle, or `"null"` when there is none. */
  function HandleText(h: Option<string>): string {
    match h
    case Some(s) => s
    case None => "null"
  }

  /** The canvas library's id for the edge of a connection: `reactflow__edge-${source}${sourceHandle}-${target}${targetHandle}`. */
  function EdgeId(conn: Connection): string
    requires conn.source.Some? && conn.target.Some?
  {
    "reactflow__edge-" + conn.source.value + HandleText(conn.sourceHandle) + "-" + conn.target.value + HandleText(conn.targetHandle)
  }

  /** Some edge of `els` carries `id`. */
  predicate HasEdgeWithId(els: seq<Element>, id: string) {
    exists i :: 0 <= i < |els| && els[i].FlowEdge? && els[i].id == id
  }

  /** `els.filter((e) => e.id !== id)`. */
  function Without(els: seq<Element>, id: string): (r: seq<Element>)
    ensures forall e :: e in r <==> e in els && e.id != id
  {
    if els == [] then []
    else (if els[0].id != id then [els[0]] else []) + Without(els[1..], id)
  }

  /** The old edge, with its other properties kept, re-attached to the connection's ends and renamed after them. */
  function Rerouted(oldEdge: Element, conn: Connection): (e: Element)
    requires oldEdge.FlowEdge? && conn.source.Some? && conn.target.Some?
    ensures e.FlowEdge? && e.suggested == oldEdge.suggested
    ensures e.source == conn.source.value && e.sourceHandle == conn.sourceHandle
    ensures e.target == conn.target.value && e.targetHandle == conn.targetHandle
  {
    FlowEdge(EdgeId(conn), conn.source.value, conn.sourceHandle, conn.target.value, conn.targetHandle, oldEdge.suggested)
  }

  /**
   * `updateEdge(oldEdge, newConnection, els)` of the canvas library: without
   * a source or a target, or when no edge carries the old edge's id, the
   * elements come back as they are; otherwise every element with that id is
   * removed and the re-routed edge is appended.
   */
  function UpdateEdge(oldEdge: Element, conn: Connection, els: seq<Element>): (r: seq<Element>)
    requires oldEdge.FlowEdge?
    ensures conn.source.None? || conn.target.None? || !HasEdgeWithId(els, oldEdge.id) ==> r == els
    ensures conn.source.Some? && conn.target.Some? && HasEdgeWithId(els, oldEdge.id) ==>
              && |r| >= 1 && r[|r| - 1] == Rerouted(oldEdge, conn)
              && forall e :: e in r[..|r| - 1] <==> e in els && e.id != oldEdge.id
  {
    if conn.source.None? || conn.target.None? || !HasEdgeWithId(els, oldEdge.id) then els
    else
      var r := Without(els, oldEdge.id) + [Rerouted(oldEdge, conn)];
      assert r[..|r| - 1] == Without(els, oldEdge.id);
      r
  }

  /**
   * `onEdgeUpdate` as the editor evidently intends it: a re-routed edge that
   * fails validation leaves the element list as it was; a valid one is
   * re-routed by `updateEdge`.
   */
  function OnEdgeUpdate(oldEdge: Element, conn: Connection, els: seq<Element>): (r: seq<Element>)
    requires oldEdge.FlowEdge?
    ensures !TargetPresent(els, conn) ==> r == els
    ensures TargetPresent(els, conn) && HandleTaken(els, conn.target.value, conn.targetHandle) ==> r == els
    ensures TargetPresent(els, conn) && !HandleTaken(els, conn.target.value, conn.targetHandle) ==>
              r == UpdateEdge(oldEdge, conn, els)
  {
    if !ValidateConnection(conn, els) then els else UpdateEdge(oldEdge, conn, els)
  }

  /**
   * After a valid update, the only committed edge ending at the connection's
   * target handle is the re-routed edge: an update never gives a handle a
   * second committed edge.
   */
  lemma ValidUpdateLeavesOneEdgeOnHandle(oldEdge: Element, conn: Connection, els: seq<Element>)
    requires oldEdge.FlowEdge?
    requires ValidateConnection(conn, els)
    ensures conn.target.Some?
    ensures forall e :: e in OnEdgeUpdate(oldEdge, conn, els) && e.FlowEdge? && !e.suggested
                        && e.target == conn.target.value && e.targetHandle == conn.targetHandle ==>
              conn.source.Some? && e == Rerouted(oldEdge, conn)
  {
    assert TargetPresent(els, conn) && !HandleTaken(els, conn.target.value, conn.targetHandle);
  }

  /** The field names of the `data` the editor builds for a graph node: `{inputs, sources, outputs}`. */
  const GraphNodeFields: set<string> := {"inputs", "sources", "outputs"}

  /** The field names of the `data` of a collaborator's cursor node: `{label}`. */
  const CursorNodeFields: set<string> := {"label"}

  /** Why the editor's edge-update handler fails: the `TypeError` of reading `data.sinks` of a node that has none. */
  datatype EdgeUpdateError = SinksUnreadable(nodeId: string)

  /** `sourceNode!.data.sinks[...]` can be read: the element with id `source` is a node whose data has a `sinks` field. */
  predicate SinksReadable(source: string, els: seq<Element>) {
    match FindById(els, Some(source))
    case Some(n) => n.FlowNode? && "sinks" in n.dataFields
    case None => false
  }

  /**
   * `onEdgeUpdate` as written: after validation it calls `onEdgeDisconnect`
   * on the old edge and `onEdgeConnect` on the connection, and both read
   * `data.sinks` of the source node (`getEdgeStreams`); when that throws, the
   * update is lost. Only this first failure point is modelled: when the
   * reads succeed, the result is the intended one.
   */
  function OnEdgeUpdateAsWritten(oldEdge: Element, conn: Connection, els: seq<Element>): (r: Result<seq<Element>, EdgeUpdateError>)
    requires oldEdge.FlowEdge?
    ensures !ValidateConnection(conn, els) ==> r == Ok(els)
    ensures ValidateConnection(conn, els) && !SinksReadable(oldEdge.source, els) ==> r == Err(SinksUnreadable(oldEdge.source))
    ensures r.Ok? ==> r.value == OnEdgeUpdate(oldEdge, conn, els)
  {
    if !ValidateConnection(conn, els) then Ok(els)
    else if !SinksReadable(oldEdge.source, els) then Err(SinksUnreadable(oldEdge.source))
    else if conn.source.None? || !SinksReadable(conn.source.value, els) then Err(SinksUnreadable(conn.source.Or("")))
    else Ok(UpdateEdge(oldEdge, conn, els))
  }

  /**
   * On the canvas the editor builds, where every node is a graph node or a
   * cursor, every valid edge update fails: no node's data has `sinks`.
   */
  lemma CanvasEdgeUpdateThrows(oldEdge: Element, conn: Connection, els: seq<Element>)
    requires oldEdge.FlowEdge?
    requires forall e :: e in els && e.FlowNode? ==> e.dataFields == GraphNodeFields || e.dataFields == CursorNodeFields
    requires ValidateConnection(conn, els)
    ensures OnEdgeUpdateAsWritten(oldEdge, conn, els).Err?
  {
    match FindById(els, Some(oldEdge.source))
    case None =>
    case Some(n) =>
      assert n in els;
  }

  /** Two graph nodes `a` and `b` and a committed edge `e` from `a.out` to `b.in`. */
  function ExampleCanvas(): seq<Element> {
    [FlowNode("a", GraphNodeFields), FlowNode("b", GraphNodeFields), FlowEdge("e", "a", Some("out"), "b", Some("in"), false)]
  }

  /** Moving `e` onto the free handle `b.in2` is a valid connection. */
  lemma ExampleMoveIsValid()
    ensures ValidateConnection(Connection(Some("a"), Some("out"), Some("b"), Some("in2")), ExampleCanvas())
  {
    var els := ExampleCanvas();
    var conn := Connection(Some("a"), Some("out"), Some("b"), Some("in2"));
    assert els[1..][1..] == [els[2]] && els[1..][1..][1..] == [];
    assert FindById(els, conn.target) == Some(els[1]);
    assert TargetPresent(els, conn) by {
      assert Some(els[1].id) == conn.target;
    }
    assert !HandleTaken(els, "b", Some("in2"));
  }

  /** In the example, the old edge's source `a` is a graph node, whose data has no `sinks`. */
  lemma ExampleSinksUnreadable()
    ensures !SinksReadable("a", ExampleCanvas())
  {
    var els := ExampleCanvas();
    assert FindById(els, Some("a")) == Some(els[0]);
    assert "sinks" != "inputs" && "sinks" != "sources" && "sinks" != "outputs";
  }

  /** In the example, removing the old edge leaves the two nodes. */
  lemma ExampleWithoutEdge()
    ensures HasEdgeWithId(ExampleCanvas(), "e")
    ensures Without(ExampleCanvas(), "e") == ExampleCanvas()[..2]
  {
    var els := ExampleCanvas();
    assert els[2].FlowEdge? && els[2].id == "e";
    assert els[1..] == [els[1], els[2]] && els[1..][1..] == [els[2]] && els[1..][1..][1..] == [];
    assert Without([els[2]], "e") == [];
    assert els[1].id != "e" && els[0].id != "e";
  }

  /**
   * Moving edge `a.out -> b.in` to `a.out -> b.in2` between two graph nodes
   * is valid and should re-route the edge, but the editor's handler fails.
   */
  lemma RerouteExample()
    ensures var conn := Connection(Some("a"), Some("out"), Some("b"), Some("in2"));
            && OnEdgeUpdateAsWritten(ExampleCanvas()[2], conn, ExampleCanvas()) == Err(SinksUnreadable("a"))
            && OnEdgeUpdate(ExampleCanvas()[2], conn, ExampleCanvas())
               == ExampleCanvas()[..2] + [FlowEdge(EdgeId(conn), "a", Some("out"), "b", Some("in2"), false)]
  {
    ExampleMoveIsValid();
    ExampleSinksUnreadable();
    ExampleWithoutEdge();
  }

  /**
   * Suggested edges never block: adding any number of suggested edges to an
   * element list that already holds the target leaves every verdict unchanged.
   */
  lemma SuggestedEdgesNeverBlock(conn: Connection, els: seq<Element>, suggested: seq<Element>)
    requires TargetPresent(els, conn)
    requires forall e :: e in suggested ==> e.FlowEdge? && e.suggested
    ensures ValidateConnection(conn, els + suggested) == ValidateConnection(conn, els)
  {
    var t := conn.target.value;
    var i :| 0 <= i < |els| && Some(els[i].id) == conn.target;
    assert (els + suggested)[i] == els[i];
    assert HandleTaken(els + suggested, t, conn.targetHandle) ==> HandleTaken(els, t, conn.targetHandle);
  }

  /** A second committed edge onto a handle that already has one is refused. */
  lemma SecondEdgeRefused(els: seq<Element>, existing: Element, conn: Connection)
    requires existing in els && existing.FlowEdge? && !existing.suggested
    requires conn.target == Some(existing.target) && conn.targetHandle == existing.targetHandle
    ensures !ValidateConnection(conn, els)
  {
  }
}
