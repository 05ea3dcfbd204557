/**
 * Adding a node of a registered type. Unless the caller supplies the node's
 * data, every output and source port of the type is seeded with `null`; the
 * engine then stores the node under a fresh id.
 */
module AddNode {

  import opened Wrappers
  import opened GraphTypes
  import JsObject

  /** Why adding a node fails: the type tag is not registered, so reading its declaration throws. */
  datatype AddNodeError = UnknownNodeType(nodeType: string)

  /** The port keys seeded by default: the output keys followed by the source keys. */
  function SeedKeys(nc: NodeClass): seq<string> {
    PortNames(nc.outputs) + PortNames(nc.sources)
  }

  /** `Object.fromEntries(keys.map((key) => [key, null]))`: `null` under each key. */
  function NullTable(keys: seq<string>): (t: map<string, Value>)
    ensures forall k :: k in t <==> k in keys
    ensures forall k :: k in t ==> t[k] == Null
  {
    var entries := seq(|keys|, i requires 0 <= i < |keys| => (keys[i], Null));
    assert forall i :: 0 <= i < |entries| ==> entries[i].0 == keys[i];
    JsObject.FromEntriesPairs(entries);
    assert forall k :: k in keys ==> JsObject.HasKey(entries, k);
    JsObject.FromEntries(entries)
  }

  /** A key is seeded exactly when it names an output or a source port. */
  lemma SeedKeysAreThePorts(nc: NodeClass, k: string)
    ensures k in SeedKeys(nc) <==> (exists p :: p in nc.outputs && p.name == k) || (exists p :: p in nc.sources && p.name == k)
  {
    var keys := SeedKeys(nc);
    if k in keys {
      var i :| 0 <= i < |keys| && keys[i] == k;
      if i < |nc.outputs| {
        assert nc.outputs[i] in nc.outputs;
      } else {
        assert nc.sources[i - |nc.outputs|] in nc.sources;
      }
    }
    if exists p :: p in nc.outputs && p.name == k {
      var p :| p in nc.outputs && p.name == k;
      var i :| 0 <= i < |nc.outputs| && nc.outputs[i] == p;
      assert keys[i] == k;
    } else if exists p :: p in nc.sources && p.name == k {
      var p :| p in nc.sources && p.name == k;
      var i :| 0 <= i < |nc.sources| && nc.sources[i] == p;
      assert keys[|nc.outputs| + i] == k;
    }
  }

  /**
   * `data || Object.fromEntries([...outputKeys, ...sourceKeys].map((key) => [key, null]))`:
   * the supplied data as it is, or else `null` under every output and source key.
   */
  function SeedSources(nc: NodeClass, data: Option<map<string, Value>>): (values: map<string, Value>)
    ensures data.Some? ==> values == data.value
    ensures data.None? ==> forall k :: k in values <==>
              (exists p :: p in nc.outputs && p.name == k) || (exists p :: p in nc.sources && p.name == k)
    ensures data.None? ==> forall k :: k in values ==> values[k] == Null
  {
    match data
    case Some(d) => d
    case None =>
      assert forall k :: k in SeedKeys(nc) <==>
        (exists p :: p in nc.outputs && p.name == k) || (exists p :: p in nc.sources && p.name == k) by {
        forall k {
          SeedKeysAreThePorts(nc, k);
        }
      }
      NullTable(SeedKeys(nc))
  }

  /**
   * The names every plain object inherits from `Object.prototype`. The
   * registry is a plain object, so looking one of these up finds a function
   * (or the prototype itself) that declares no outputs and no sources.
   */
  const InheritedNames: set<string> := {
    "constructor", "__defineGetter__", "__defineSetter__", "hasOwnProperty", "__lookupGetter__",
    "__lookupSetter__", "isPrototypeOf", "propertyIsEnumerable", "toString", "valueOf", "__proto__",
    "toLocaleString"
  }

  /** `GraphNodes[type]`: the registered declaration, an empty one for an inherited name, or nothing. */
  function Lookup(registry: map<string, NodeClass>, nodeType: string): (r: Option<NodeClass>)
    ensures r.None? <==> nodeType !in registry && nodeType !in InheritedNames
    ensures nodeType in registry ==> r == Some(registry[nodeType])
    ensures r.Some? && nodeType !in registry ==> r.value.outputs == [] && r.value.sources == []
  {
    if nodeType in registry then Some(registry[nodeType])
    else if nodeType in InheritedNames then Some(NodeClass([], [], []))
    else None
  }

  /**
   * `addNode({type, data, position})`: fails when the type names nothing in
   * the registry object; otherwise the document gains exactly one node, under
   * the fresh id, with the given type and position and the seeded sources,
   * and nothing else changes.
   */
  function AddNode(registry: map<string, NodeClass>, doc: Doc, freshId: NodeId,
                   nodeType: string, data: Option<map<string, Value>>, position: Position): (r: Result<Doc, AddNodeError>)
    ensures r.Err? <==> nodeType !in registry && nodeType !in InheritedNames
    ensures r.Err? ==> r.error == UnknownNodeType(nodeType)
    ensures r.Ok? ==> |r.value.nodes| == |doc.nodes| + 1 && r.value.nodes[..|doc.nodes|] == doc.nodes
    ensures r.Ok? ==> r.value.edges == doc.edges
    ensures r.Ok? ==> var n := r.value.nodes[|doc.nodes|];
              n.id == freshId && n.nodeType == nodeType && n.position == position
              && n.sources == SeedSources(Lookup(registry, nodeType).value, data)
    ensures r.Ok? && nodeType in registry ==> r.value.nodes[|doc.nodes|].sources == SeedSources(registry[nodeType], data)
  {
    match Lookup(registry, nodeType)
    case None => Err(UnknownNodeType(nodeType))
    case Some(nc) => Ok(doc.AddNode(NodeRecord(freshId, nodeType, position, SeedSources(nc, data))))
  }

  /**
   * A type name the registry object only inherits is still added: with the
   * caller's data as given, and without data as a node with no sources at all.
   */
  lemma InheritedNameAddsBareNode(registry: map<string, NodeClass>, doc: Doc, freshId: NodeId,
                                  nodeType: string, data: Option<map<string, Value>>, position: Position)
    requires nodeType !in registry && nodeType in InheritedNames
    ensures var r := AddNode(registry, doc, freshId, nodeType, data, position);
            && r.Ok?
            && r.value.nodes[|doc.nodes|].sources == (if data.Some? then data.value else map[])
  {
    var sources := SeedSources(NodeClass([], [], []), data);
    if data.None? {
      assert forall k :: k !in sources;
    }
  }

  /** Without data, a node starts with a `null` value on each output and source port and on nothing else. */
  lemma DefaultSeedIsNullPerPort(registry: map<string, NodeClass>, doc: Doc, freshId: NodeId, nodeType: string, position: Position)
    requires nodeType in registry
    ensures var r := AddNode(registry, doc, freshId, nodeType, None, position);
            && r.Ok?
            && var nc := registry[nodeType];
            && var sources := r.value.nodes[|doc.nodes|].sources;
            && (forall p :: p in nc.outputs ==> p.name in sources && sources[p.name] == Null)
            && (forall p :: p in nc.sources ==> p.name in sources && sources[p.name] == Null)
  {
  }
}
