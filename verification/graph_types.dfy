/**
 * The records the editor passes around: graph-engine node and edge records,
 * node-type declarations, and the element list the canvas is given.
 */
module GraphTypes {

  import opened Wrappers

  /** Node and graph identifiers are opaque strings handed out by the engine. */
  type NodeId = string

  /** The value types a node port can declare (`ValueTypes` of the node-type manager). */
  datatype ValueType = STRING | NUMBER | TABLE | FUNCTION | ANY | BOOLEAN

  /** A value held in a node's source port. Table contents are kept opaque. */
  datatype Value = Null | Text(text: string) | Number(number: real) | TableData(cells: seq<seq<string>>)

  /** A canvas position. */
  datatype Position = Position(x: real, y: real)

  /** One end of an edge: a node and the port ("bus") on it. */
  datatype Endpoint = Endpoint(nodeId: NodeId, busKey: string)

  /** An edge record of the engine, from an output port to an input port. */
  datatype EdgeRecord = EdgeRecord(from: Endpoint, to: Endpoint)

  /** A node record of the engine. */
  datatype NodeRecord = NodeRecord(id: NodeId, nodeType: string, position: Position, sources: map<string, Value>)

  /**
   * The engine's document as far as this model needs it: the node records and
   * edge records in the order they were added. Adding a node takes the id the
   * engine returns for it from the caller; adding an edge appends its record.
   */
  datatype Doc = Doc(nodes: seq<NodeRecord>, edges: seq<EdgeRecord>) {

    /** The engine's `addNode`: the new record joins the document under the id it was given. */
    function AddNode(n: NodeRecord): Doc {
      Doc(nodes + [n], edges)
    }

    /** The engine's `addEdge`: the record is appended. */
    function AddEdge(e: EdgeRecord): Doc {
      Doc(nodes, edges + [e])
    }
  }

  /** A named, typed port declaration of a node type. */
  datatype PortDecl = PortDecl(name: string, valueType: ValueType)

  /**
   * A registered node type: its input, source and output port declarations in
   * key order. An absent declaration object is an empty list here.
   */
  datatype NodeClass = NodeClass(inputs: seq<PortDecl>, sources: seq<PortDecl>, outputs: seq<PortDecl>)

  /** The keys of a declaration object, in order (`Object.keys`). */
  function PortNames(ports: seq<PortDecl>): (names: seq<string>)
    ensures |names| == |ports|
    ensures forall i :: 0 <= i < |ports| ==> names[i] == ports[i].name
  {
    seq(|ports|, i requires 0 <= i < |ports| => ports[i].name)
  }

  /**
   * An element of the canvas: a node (graph node or a collaborator's cursor),
   * with the top-level field names of its `data` object, or an edge;
   * `suggested` is the `data.isSuggested` flag.
   */
  datatype Element =
    | FlowNode(id: string, dataFields: set<string>)
    | FlowEdge(id: string, source: string, sourceHandle: Option<string>,
               target: string, targetHandle: Option<string>, suggested: bool)

  /** A connection the canvas proposes; any part may be `null`. */
  datatype Connection = Connection(source: Option<string>, sourceHandle: Option<string>,
                                   target: Option<string>, targetHandle: Option<string>)

}
