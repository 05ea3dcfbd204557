/**
 * The node-type registry. The module of all node types is a tree of nested
 * namespaces; a value that carries a `Component` is a node type, any other
 * value is a namespace searched recursively. Flattening it yields the
 * `(key, node type)` pairs from which the key-indexed registry is built.
 */
module Registry {

  import opened GraphTypes
  import JsObject

  /** A value of the node module tree. */
  datatype RegistryValue =
    | Component(nodeClass: NodeClass)
    | Namespace(entries: seq<(string, RegistryValue)>)

  /** Node type `c` sits under key `k` somewhere in `entries`, at any depth. */
  ghost predicate Occurs(entries: seq<(string, RegistryValue)>, k: string, c: NodeClass)
    decreases entries, 1
  {
    exists i :: 0 <= i < |entries| && OccursIn(entries[i], k, c)
  }

  /** Node type `c` sits under key `k` in `entry` itself or below it. */
  ghost predicate OccursIn(entry: (string, RegistryValue), k: string, c: NodeClass)
    decreases entry, 0
  {
    match entry.1
    case Component(c') => entry.0 == k && c' == c
    case Namespace(es) => Occurs(es, k, c)
  }

  /** Some node type sits under key `k` somewhere in `entries`. */
  ghost predicate HasNodeType(entries: seq<(string, RegistryValue)>, k: string) {
    exists c :: Occurs(entries, k, c)
  }

  /** `flattenNodes`: every node type of the tree, keyed by its own key, in depth-first entry order. */
  function Flatten(entries: seq<(string, RegistryValue)>): (r: seq<(string, NodeClass)>)
    ensures forall k, c :: (k, c) in r <==> Occurs(entries, k, c)
    decreases entries, 1
  {
    if entries == [] then []
    else
      var here := FlattenEntry(entries[0]);
      var rest := Flatten(entries[1..]);
      FlattenStep(entries, here, rest);
      here + rest
  }

  /** The node types one entry contributes: itself when it is a node type, else everything below it. */
  function FlattenEntry(entry: (string, RegistryValue)): (r: seq<(string, NodeClass)>)
    ensures forall k, c :: (k, c) in r <==> OccursIn(entry, k, c)
    decreases entry, 0
  {
    match entry.1
    case Component(c) => [(entry.0, c)]
    case Namespace(es) => Flatten(es)
  }

  /** The flattened list of a non-empty entry list is its head's contribution followed by its tail's. */
  lemma FlattenStep(entries: seq<(string, RegistryValue)>, here: seq<(string, NodeClass)>, rest: seq<(string, NodeClass)>)
    requires entries != []
    requires forall k, c :: (k, c) in here <==> OccursIn(entries[0], k, c)
    requires forall k, c :: (k, c) in rest <==> Occurs(entries[1..], k, c)
    ensures forall k, c :: (k, c) in here + rest <==> Occurs(entries, k, c)
  {
    forall k, c
      ensures (k, c) in here + rest <==> Occurs(entries, k, c)
    {
      if Occurs(entries, k, c) {
        var i :| 0 <= i < |entries| && OccursIn(entries[i], k, c);
        if i > 0 {
          assert entries[1..][i - 1] == entries[i];
        }
      }
      if Occurs(entries[1..], k, c) {
        var i :| 0 <= i < |entries[1..]| && OccursIn(entries[1..][i], k, c);
        assert entries[i + 1] == entries[1..][i];
      }
    }
  }

  /**
   * The key-indexed registry, `Object.fromEntries(flattenNodes(AllNodes))`:
   * a type tag is registered exactly when a node type sits under that key
   * somewhere in the tree, and the registered node type is one found there.
   */
  function BuildRegistry(allNodes: seq<(string, RegistryValue)>): (reg: map<string, NodeClass>)
    ensures forall t :: t in reg <==> HasNodeType(allNodes, t)
    ensures forall t :: t in reg ==> Occurs(allNodes, t, reg[t])
  {
    var flat := Flatten(allNodes);
    RegistryFromFlat(allNodes, flat);
    JsObject.FromEntries(flat)
  }

  /** The table built from a complete flattening registers exactly the keys of the tree. */
  lemma RegistryFromFlat(allNodes: seq<(string, RegistryValue)>, flat: seq<(string, NodeClass)>)
    requires forall k, c :: (k, c) in flat <==> Occurs(allNodes, k, c)
    ensures forall t :: t in JsObject.FromEntries(flat) <==> HasNodeType(allNodes, t)
    ensures forall t :: t in JsObject.FromEntries(flat) ==> Occurs(allNodes, t, JsObject.FromEntries(flat)[t])
  {
    var reg := JsObject.FromEntries(flat);
    forall t | t in reg
      ensures Occurs(allNodes, t, reg[t])
      ensures HasNodeType(allNodes, t)
    {
      RegisteredOccurs(allNodes, flat, t);
    }
    forall t, c | Occurs(allNodes, t, c)
      ensures t in reg
    {
      OccursRegistered(allNodes, flat, t, c);
    }
  }

  /** A registered key's node type is one found under that key. */
  lemma RegisteredOccurs(allNodes: seq<(string, RegistryValue)>, flat: seq<(string, NodeClass)>, t: string)
    requires forall k, c :: (k, c) in flat <==> Occurs(allNodes, k, c)
    requires t in JsObject.FromEntries(flat)
    ensures Occurs(allNodes, t, JsObject.FromEntries(flat)[t])
  {
    JsObject.FromEntriesPairs(flat);
  }

  /** A key under which a node type sits is registered. */
  lemma OccursRegistered(allNodes: seq<(string, RegistryValue)>, flat: seq<(string, NodeClass)>, t: string, c: NodeClass)
    requires forall k, c :: (k, c) in flat <==> Occurs(allNodes, k, c)
    requires Occurs(allNodes, t, c)
    ensures t in JsObject.FromEntries(flat)
  {
    JsObject.FromEntriesPairs(flat);
    assert (t, c) in flat;
  }
}
