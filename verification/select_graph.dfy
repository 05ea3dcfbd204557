/**
 * The "Open a workspace" dialog: the stored graphs become a list of
 * `{id, name}` entries, each linking to the graph's route.
 */
module SelectGraph {

  import opened Wrappers
  import GraphPath
  import JsString

  /** The stored metadata of one graph, as far as the dialog reads it: its "name" entry, if set. */
  datatype GraphMeta = GraphMeta(name: Option<string>)

  /** One entry of the workspace list. */
  datatype GraphEntry = GraphEntry(id: string, name: string)

  /** `graph.getMap().get("name") || ""`: the stored name, or "" when it is absent or empty. */
  function DisplayName(meta: GraphMeta): (name: string)
    ensures name == [] <==> meta.name.None? || meta.name.value == []
    ensures name != [] ==> meta.name == Some(name)
  {
    meta.name.Or("")
  }

  /** `Object.entries(graphObj).map(...)`: one entry per stored graph, in key order. */
  function GraphList(graphs: seq<(string, GraphMeta)>): (list: seq<GraphEntry>)
    ensures |list| == |graphs|
    ensures forall i :: 0 <= i < |graphs| ==> list[i] == GraphEntry(graphs[i].0, DisplayName(graphs[i].1))
  {
    if graphs == [] then []
    else [GraphEntry(graphs[0].0, DisplayName(graphs[0].1))] + GraphList(graphs[1..])
  }

  /** The keys of the graphs object, as a set. */
  function Keys(graphs: seq<(string, GraphMeta)>): set<string> {
    set i | 0 <= i < |graphs| :: graphs[i].0
  }

  /**
   * The list has exactly one entry per stored graph: its ids are the keys of
   * the graphs object, and distinct keys give distinct entries.
   */
  lemma OneEntryPerGraph(graphs: seq<(string, GraphMeta)>)
    ensures (set e | e in GraphList(graphs) :: e.id) == Keys(graphs)
    ensures (forall i, j :: 0 <= i < j < |graphs| ==> graphs[i].0 != graphs[j].0) ==>
              forall i, j :: 0 <= i < j < |graphs| ==> GraphList(graphs)[i].id != GraphList(graphs)[j].id
  {
    var list := GraphList(graphs);
    forall id | id in Keys(graphs)
      ensures exists e :: e in list && e.id == id
    {
      var i :| 0 <= i < |graphs| && graphs[i].0 == id;
      assert list[i] in list;
    }
  }

  /** The link of an entry: the graph's route. */
  function LinkPath(entry: GraphEntry): (path: string)
    ensures |path| == |entry.name| + |entry.id| + 2 && path[0] == '/'
    ensures path[|path| - |entry.id|..] == entry.id
    ensures |entry.id| == GraphPath.IdLength ==> GraphPath.DecodeId(Some(path[1..])) == Some(entry.id)
  {
    GraphPath.Route(entry.name, entry.id)
  }

  /**
   * Following the link of a stored graph with a full-length id opens that
   * graph under its stored name, provided the name has no hyphen and no
   * whitespace at either end.
   */
  lemma LinkOpensGraph(graphs: seq<(string, GraphMeta)>, i: nat)
    requires i < |graphs| && |graphs[i].0| == GraphPath.IdLength
    requires '-' !in DisplayName(graphs[i].1)
    requires JsString.Trimmed(DisplayName(graphs[i].1))
    ensures GraphPath.DecodeId(Some(LinkPath(GraphList(graphs)[i])[1..])) == Some(graphs[i].0)
    ensures GraphPath.DecodeName(Some(LinkPath(GraphList(graphs)[i])[1..])) == Some(DisplayName(graphs[i].1))
  {
    var e := GraphList(graphs)[i];
    assert LinkPath(e)[1..] == GraphPath.Encode(e.name, e.id);
    GraphPath.RoundTrip(e.name, e.id);
  }
}
