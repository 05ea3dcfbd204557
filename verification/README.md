# flow-sheets editor core, in Dafny

flow-sheets is a spreadsheet-like dataflow editor. Nodes are computations wired
together through named buses (ports), and graphs are shared documents opened
by route. This project models the pure decision logic of the editor
(`src/flow-graph.tsx`) and two of its components, and proves what that logic
promises:

- **Node-type registry** (`Registry`): the nested module of node types is
  flattened depth-first into `(key, node type)` pairs. The key-indexed
  registry is built from those pairs with `Object.fromEntries`, where the
  last duplicate wins (`JsObject`).
- **Graph routes** (`GraphPath`, `SelectGraph`): a graph is opened at
  `/<name with spaces as hyphens>-<id>`. The editor reads the id back as the
  last 21 characters and the name as the rest, with hyphens read as spaces,
  then trimmed. The workspace dialog lists one `{id, name}` entry per stored
  graph and links each to that route.
- **Connection validation** (`Connections`): the validator refuses a
  connection onto a handle that already has a committed incoming edge.
  Suggested edges never count against that limit.
  - The editor runs the validator only when an existing edge is dragged to a
    new handle (`onEdgeUpdate`, `src/flow-graph.tsx:473`).
  - A new connection (`onConnect`, `src/flow-graph.tsx:446-457`) and an
    accepted suggestion (`src/flow-graph.tsx:934-935`) go to the engine
    unchecked, although the comment at `src/flow-graph.tsx:401` says
    connections are checked too. The editor does not check these paths;
    whether the engine refuses a duplicate edge is not modelled.
  - The validator sees only the committed graph elements. The suggested edges
    are joined in only for drawing (`src/flow-graph.tsx:807-810`).
  - An invalid edge update leaves the element list unchanged. A valid one
    throws as written (see Findings); the model proves the re-routing that is
    evidently intended.
- **Adding nodes** (`AddNode`): the type must name something on the registry
  object. Without data, each output and source port starts as `null`. The
  registry is a plain object, so names it only inherits (`toString`,
  `constructor`, …) are found too, and add a node with no seeded ports.
- **Suggested edges** (`Suggestions`): they are shown only for a
  single-element selection, and only those touching the selected element,
  flagged as suggested.
- **Paste** (`Paste`):
  - text becomes a `Constant` node and a table a `DataTable` node;
  - copied nodes get fresh ids and land at the paste position plus their
    stored offset;
  - a copied edge is re-created between the new ids only when both of its
    ends were pasted in the same batch.
- **Omnibar filter** (`Omnibar`): case-insensitive, either an exact match or
  a substring match.
- **Handle layout** (`BaseNode`): handle `i` of `n` sits at `(100i+50)/n`
  percent. The component computes the node's minimum width as 32 times its
  larger port count.

The JavaScript library behaviour the logic depends on is stated in `JsString`:
`split`/`join` on one character, `trim`, `toLowerCase`, `indexOf` and the
string quoting of `JSON.stringify`.

The collaborative engine is abstracted as a `Doc`, an append-only list of
node records and edge records. Adding a node appends a record under the id
the engine returns for it, which the caller supplies. Adding an edge appends
an edge record.

Two facts about the source shape the model:

- The node-type items of the omnibar carry `data: {}` (`src/flow-graph.tsx:108-112`). An empty object is
  truthy, so the `null` seeding applies only when no data is given at all;
  `AddNode.SeedSources` takes the data as an `Option`.
- The paste branch tests `newNodesMap.get(id)` for truthiness. An edge is
  therefore re-created only if both new ids are non-empty strings
  (`Paste.Mapped`).

## Model

| member | source | states |
|---|---|---|
| JsString.Replace | src/flow-graph.tsx:276-277 | the result has the input's length, every `a` becomes `b`, and every other character stays in place |
| JsString.Split | src/flow-graph.tsx:277 | a split on one character gives at least one piece, and no piece contains the separator |
| JsString.Join | src/flow-graph.tsx:842 | joining puts the first piece first, the separator after it when there are several pieces, and the last piece last; `[].join` is empty |
| JsString.SplitJoinIsReplace | src/flow-graph.tsx:276-277 | `s.split(a).join(b)`, the idiom used to turn spaces into hyphens and back, equals replacing every `a` by `b` and leaving every other character in place |
| JsString.TrimStart | src/flow-graph.tsx:277 | the first half of `trim`: a suffix of the input that does not start with whitespace, with only whitespace cut away |
| JsString.TrimEnd | src/flow-graph.tsx:277 | the second half of `trim`: a prefix of the input that does not end with whitespace, with only whitespace cut away |
| JsString.Trim | src/flow-graph.tsx:277 | `trim` returns a contiguous piece of the input with no whitespace at either end, and everything cut away is whitespace |
| JsString.TrimAppendWhitespace | src/flow-graph.tsx:277 | trailing whitespace (the space that the separating hyphen becomes) does not change the trimmed name |
| JsString.IndexOf | src/flow-graph.tsx:803 | `indexOf` is non-negative exactly when the query occurs in the string, and it is then the first occurrence |
| JsString.ToLower | src/flow-graph.tsx:797-798 | lower-casing keeps the length and lower-cases each character where it stands |
| JsString.JsonQuoteUnique | src/flow-graph.tsx:629 | a `JSON.stringify`-quoted string is self-delimiting: two quoted strings that start the same text quote the same string and leave the same rest |
| JsString.ToLowerIdempotent | src/flow-graph.tsx:797-798 | lower-casing twice is lower-casing once |
| JsObject.FromEntries | src/flow-graph.tsx:87 | `Object.fromEntries` has exactly the keys of its entries, and a repeated key takes the value of its last entry |
| JsObject.FromEntriesPairs | src/flow-graph.tsx:87 | every key of the table comes with a value that one of its entries carries under that key |
| Registry.Flatten | src/flow-graph.tsx:81-85 | `flattenNodes` lists a `(key, node type)` pair exactly when that node type sits under that key somewhere in the nested module tree |
| Registry.BuildRegistry | src/flow-graph.tsx:87 | a type tag is registered exactly when some node type sits under that key in the tree, and the registered type is one found there |
| GraphPath.Encode | src/flow-graph.tsx:842 | the route segment is the name with each space turned into a hyphen, then a hyphen, then the id |
| GraphPath.Route | src/flow-graph.tsx:842 | a new graph's route starts with `/`, ends with its id, and a 21-character id is read back from it |
| GraphPath.DecodeId | src/flow-graph.tsx:270-273 | `graphId` is null exactly for a missing or empty segment; otherwise it is the segment's last 21 characters (all of a shorter segment) |
| GraphPath.DecodeName | src/flow-graph.tsx:275-279 | `graphName` is null exactly for a missing or empty segment; otherwise it is everything before the id with hyphens read as spaces, then trimmed, so it has no hyphen and no whitespace at either end |
| GraphPath.DecodeEncodeId | src/flow-graph.tsx:270-273 | a segment built for a 21-character id gives that id back |
| GraphPath.DecodeEncodeName | src/flow-graph.tsx:275-279 | a segment built for a name gives back the name with hyphens as spaces, trimmed |
| GraphPath.RoundTrip | src/flow-graph.tsx:270-279 | a name without hyphens and without whitespace at either end, with a 21-character id, decodes to exactly that id and name |
| GraphPath.HyphenReadAsSpace | src/flow-graph.tsx:275-279 | a hyphen in a graph name is not preserved: `a-b` is opened as `a b` |
| SelectGraph.DisplayName | src/components/select-graph-dialog.tsx:24 | the listed name is empty exactly when the stored name is absent or empty, and is the stored name otherwise |
| SelectGraph.GraphList | src/components/select-graph-dialog.tsx:21-26 | one entry per stored graph, in key order, with the graph's key as id and its display name |
| SelectGraph.OneEntryPerGraph | src/components/select-graph-dialog.tsx:21-26 | the ids in the list are exactly the keys of the stored graphs, and distinct keys give distinct entries |
| SelectGraph.LinkPath | src/components/select-graph-dialog.tsx:59 | an entry links to a route that starts with `/` and ends with its id, and a 21-character id is read back from it |
| SelectGraph.LinkOpensGraph | src/components/select-graph-dialog.tsx:59 | following the link of a stored graph opens that graph's id, and its name when the name has no hyphen and no outer whitespace |
| Connections.FindById | src/flow-graph.tsx:405 | an element is found exactly when some element carries the target id, and what is found is such an element |
| Connections.EdgesOf | src/flow-graph.tsx:407 | the edges kept are exactly the edges of the element list |
| Connections.ConnectedEdges | src/flow-graph.tsx:408 | the connected edges of a node are exactly the edges that leave or enter it |
| Connections.OnHandle | src/flow-graph.tsx:408-412 | the handle edges are exactly the given edges that end at that node on that handle |
| Connections.SomeCommitted | src/flow-graph.tsx:416 | true exactly when some edge in the list is not suggested |
| Connections.ValidateConnection | src/flow-graph.tsx:391-423 | a connection is invalid when its target is absent; otherwise it is invalid exactly when a committed, non-suggested edge already ends at that target on the same handle |
| Connections.Without | src/flow-graph.tsx:476 | the filter inside the library's `updateEdge` keeps exactly the elements whose id differs from the old edge's |
| Connections.UpdateEdge | src/flow-graph.tsx:476 | without both ends, or when no edge has the old id, nothing changes; otherwise the elements with the old id are removed, nothing else is, and the re-routed edge comes last, keeping its suggested flag and taking the connection's ends |
| Connections.OnEdgeUpdate | src/flow-graph.tsx:471-477 | the intended update: a connection with an absent target or onto a taken handle leaves the element list unchanged; a valid one re-routes the edge |
| Connections.ValidUpdateLeavesOneEdgeOnHandle | src/flow-graph.tsx:471-477 | after a valid update the only committed edge on the target handle is the re-routed edge |
| Connections.OnEdgeUpdateAsWritten | src/flow-graph.tsx:471-477 | as written: an invalid update leaves the list unchanged; a valid one fails when the old edge's source node has no `sinks` in its data, and any result it does return is the intended one |
| Connections.CanvasEdgeUpdateThrows | src/flow-graph.tsx:425-432 | on a canvas whose nodes carry the data the editor builds (`{inputs, sources, outputs}`, or a cursor's `{label}`), every valid edge update fails |
| Connections.RerouteExample | src/flow-graph.tsx:471-477 | moving edge `a.out → b.in` onto the free handle `b.in2` fails as written, and the intended update gives the two nodes followed by the re-routed edge |
| Connections.SuggestedEdgesNeverBlock | src/flow-graph.tsx:414-421 | adding any number of suggested edges never changes whether a connection is valid |
| Connections.SecondEdgeRefused | src/flow-graph.tsx:408-421 | the validator refuses a second edge onto a handle that already has a committed edge |
| AddNode.NullTable | src/flow-graph.tsx:485-492 | the table has exactly the given keys, each holding `null` |
| AddNode.Lookup | src/flow-graph.tsx:482 | a type name finds a declaration exactly when it is registered or inherited from `Object.prototype`; an inherited name finds one with no outputs and no sources |
| AddNode.SeedSources | src/flow-graph.tsx:482-492 | supplied data is used as it is; without data the values hold exactly the output and source port names, each `null` |
| AddNode.AddNode | src/flow-graph.tsx:480-495 | a type that is neither registered nor inherited fails; otherwise exactly one node is added under the fresh id with the type, position and seeded values, and the edges do not change |
| AddNode.InheritedNameAddsBareNode | src/flow-graph.tsx:482-494 | a type name the registry only inherits still adds a node: with the given data, or with no values at all |
| AddNode.DefaultSeedIsNullPerPort | src/flow-graph.tsx:484-492 | without data, every output and every source port of the new node starts as `null` |
| Suggestions.EndpointJsonUnique | src/flow-graph.tsx:629 | the `JSON.stringify` text of an endpoint determines the endpoint and where the text after it begins |
| Suggestions.SuggestionKeyInjective | src/flow-graph.tsx:629 | two suggestions get the same edge id `JSON.stringify(conn)` exactly when they are the same suggestion |
| Suggestions.ToElement | src/flow-graph.tsx:628-640 | a suggestion is drawn as an edge flagged suggested, from its source node and bus to its target node and bus |
| Suggestions.TouchingEdges | src/flow-graph.tsx:623-640 | the edges drawn are exactly the drawings of the suggestions that touch the node, and there are no more of them than suggestions |
| Suggestions.SuggestedEdges | src/flow-graph.tsx:615-643 | no suggested edges unless exactly one element is selected; then the shown edges are exactly the drawings of the suggestions touching the selected element, each flagged suggested |
| Suggestions.ShownSuggestionsNeverBlock | src/flow-graph.tsx:615-643 | joining the drawn suggested edges to the elements never changes whether a connection is valid; the editor validates the committed elements only, so this holds whichever list it is given |
| Paste.ClipNodes | src/flow-graph.tsx:690-692 | the copied nodes are exactly the clipboard entries with a position |
| Paste.ClipEdges | src/flow-graph.tsx:693-695 | the copied edges are exactly the clipboard entries without a position |
| Paste.ClipSplitIsPartition | src/flow-graph.tsx:690-695 | every clipboard entry is pasted either as a node or as an edge |
| Paste.AddPastedNodes | src/flow-graph.tsx:697-706 | one new node per copied node, in order, under its fresh id, at the paste position plus its offset, with the copied type and values; edges unchanged |
| Paste.IdTable | src/flow-graph.tsx:708-713 | the old-to-new id map has exactly the copied node ids as keys; each value is one of the fresh ids, and the last copy of an id wins |
| Paste.Remap | src/flow-graph.tsx:720-729 | the re-created edge runs between the new ids of the copied edge's ends, with its bus keys kept |
| Paste.RecreatableEdges | src/flow-graph.tsx:715-719 | the copied edges that survive are exactly those whose two ends are mapped |
| Paste.RecreatableEdgesInOrder | src/flow-graph.tsx:715-719 | the surviving copied edges are taken at strictly increasing clipboard positions, each once, and no surviving position is skipped: clipboard order |
| Paste.Remapped | src/flow-graph.tsx:720-729 | the `k`-th added edge is the re-creation of the `k`-th surviving copied edge, and there are as many of them as survivors |
| Paste.AddPastedEdges | src/flow-graph.tsx:715-731 | the edges added are the surviving copied edges, one each, remapped, in clipboard order, after the existing edges; nodes unchanged |
| Paste.PasteElements | src/flow-graph.tsx:686-732 | pasting copied elements adds the copied nodes in order and then the surviving copied edges in order, remapped through the id table, keeping everything already there |
| Paste.PastedEdgesStayInBatch | src/flow-graph.tsx:715-731 | with non-empty fresh ids, a copied edge is re-created exactly when both ends were copied nodes, and every new edge links fresh ids of the batch only |
| Paste.CopyTwoNodesAndTheirEdge | src/flow-graph.tsx:686-732 | copying two nodes and the edge between them and pasting adds the two nodes at the paste position plus their offsets and exactly one edge, between the new ids |
| Paste.PasteData | src/flow-graph.tsx:660-733 | text adds exactly one `Constant` node holding it under `value`, a table one `DataTable` node holding it under `table`, both at the paste position and failing only when that type is not registered; copied elements always paste, as `PasteElements` states |
| Omnibar.FilterNodeTypes | src/flow-graph.tsx:791-805 | an empty query keeps every item; exact search keeps items whose lower-cased label equals the lower-cased query; fuzzy search keeps those whose lower-cased label contains it |
| Omnibar.QueryCaseIgnored | src/flow-graph.tsx:797-798 | the letter case of the query makes no difference |
| Omnibar.ExactMatchIsAlsoFuzzy | src/flow-graph.tsx:799-803 | an item kept by exact search is also kept by fuzzy search |
| Omnibar.TypingNarrowsFuzzySearch | src/flow-graph.tsx:803 | typing one more character into a fuzzy query can only remove items |
| BaseNode.Offset | src/components/base-node.tsx:43 | handle `i` of `n` lies strictly inside the node and strictly inside its own `i`-th slice of the width |
| BaseNode.OffsetIsSlotMidpoint | src/components/base-node.tsx:43 | each handle sits exactly in the middle of its slice |
| BaseNode.OffsetSpacing | src/components/base-node.tsx:43 | neighbouring handles are exactly `100/n` percent apart |
| BaseNode.OffsetSymmetric | src/components/base-node.tsx:43 | the layout is mirror-symmetric: offset(i) + offset(n-1-i) = 100 |
| BaseNode.Handles | src/components/base-node.tsx:32-89 | one handle per key, in key order, with the key as id, handle `i` of `n` at offset `(100i+50)/n`, all inside the node and strictly left to right |
| BaseNode.Layout | src/components/base-node.tsx:32-89 | a target handle for every input key and a source handle for every output key, and no others |
| BaseNode.MinWidth | src/components/base-node.tsx:93-94 | the computed minimum width is 32 times the larger of the two port counts |
| BaseNode.MinWidthSpacesHandles | src/components/base-node.tsx:93-94 | at the minimum width, neighbouring handles on either side are at least 32 units apart |

## Left out

- The collaborative engine (documents, rxjs streams, presence, `loadGraph`, stream evaluation) is abstracted to an append-only node and edge list. The engine is not part of this model, so the ids it returns for added nodes are parameters. The paste branch hands it each copied node's old id along with the snapshot (`src/flow-graph.tsx:700`); what the engine does with that id is not modelled.
- Rendering, dialogs, hotkeys, mouse tracking and `graphToReactFlow` are not modelled: they have no decision logic beyond what is modelled here.
- `onEdgeConnect` subscribes the target's input stream to the source's output stream (`src/flow-graph.tsx:434-439`), and `onEdgeDisconnect` only looks the streams up (`src/flow-graph.tsx:441-444`). Their stream effects are left out with the engine. Only their shared first step, reading `data.sinks` of the source node, is modelled, in `Connections.OnEdgeUpdateAsWritten`.
- Connections.OnEdgeUpdateAsWritten: models only the first failure point, reading `data.sinks` of the old edge's source node (`src/flow-graph.tsx:428`; a missing source node throws there too). The later throw points are not modelled:
  - `data.sources` is read on the target node at `src/flow-graph.tsx:429`. A missing target node throws there, and so does a target whose `data` has no `sources`, such as a cursor's `{label}`.
  - A `sinks` object that lacks the edge's handle does not throw in `getEdgeStreams`; it only yields `undefined`. `onEdgeDisconnect` never uses the stream (`src/flow-graph.tsx:441-444`), so the throw comes only for the new connection, at `sourceOutput.subscribe` in `onEdgeConnect` (`src/flow-graph.tsx:436`).
- Connections.UpdateEdge: the canvas library's `updateEdge` is not part of this model; the member follows its documented behaviour. The library refuses a missing source or target by truthiness; the model refuses only a missing one, not an empty id.
- `onConnect` and accepting a suggestion add an edge to the engine without validation; adding an edge is `Doc.AddEdge`, and no member claims those paths respect the one-edge-per-handle rule.
- The library's `getConnectedEdges` is not part of this model. `Connections.ConnectedEdges` follows its documented behaviour: the edges whose source or target is the node.
- Clipboard parsing, `jsonToTable` and file import are not modelled; a pasted table arrives already converted to its cell value.
- Omnibar.OmnibarItem: an item holds only its type and caption. Its `data` payload plays no part in filtering and is left out.
- The omnibar's item list (the `Number: …` and `Text: …` entries, `src/flow-graph.tsx:363-386`) is not modelled: it rests on `Number(...)` float parsing.
- `node-type-manager.ts`, `types.ts`, the table node, `App.js` and `home.tsx` are not part of this model.
- Strings are sequences of code points, not UTF-16 code units. `slice(-21)` on text with characters outside the Basic Multilingual Plane can therefore differ.
- JsString.LowerChar: lower-cases ASCII letters only, because full Unicode case mapping is out of scope. `Omnibar.FilterNodeTypes` inherits this.
- Positions and handle offsets are exact reals; floating-point rounding is left out.
- `null` and `undefined` handles are both `None`. A stored graph name that is not a string is not modelled (`SelectGraph.GraphMeta` holds an optional string).
- Values of the node module tree are node types or namespaces. Primitive values are not modelled. On a primitive, `flattenNodes` does not simply walk an object: a non-empty string recurses without end (`Object.entries("a")` yields `["0", "a"]` again), and `null` or `undefined` throws when `val.Component` is read (`src/flow-graph.tsx:83`).
- GraphPath.DecodeId, GraphPath.DecodeName: the segment is taken to reach the editor exactly as `history.push` built it. The router's own parsing of the path is not part of this model, so names containing `/`, `?`, `#` or `%` (which would split, cut or percent-decode the segment) are outside the round-trip lemmas.
- AddNode.Lookup: the inherited names are those of `Object.prototype` in current engines; names inherited through a modified prototype are not modelled.
- Suggestions.SuggestionKey: the id follows `JSON.stringify` for the key order `from`, `to`, `nodeId`, `busKey`; other key orders of engine objects are not modelled.
- Paste.ClipNodes: every node snapshot is taken to carry a position object, which is always truthy; nodes without one would be pasted as edges in the source.
- Paste.PastedEdgesStayInBatch: stated only for non-empty fresh ids, because an empty id is falsy and drops the edge in the source.

## Findings

| source | as written | input that shows it | evidently intended | confidence | as-written member | corrected member |
|---|---|---|---|---|---|---|
| src/flow-graph.tsx:471-477 | after validation, `onEdgeUpdate` calls `onEdgeDisconnect`, whose `getEdgeStreams` reads `sourceNode!.data.sinks[...]` (`src/flow-graph.tsx:428`). The canvas nodes carry `data` built as `{inputs, sources, outputs}` (`src/flow-graph.tsx:174-178`, `188`, `328`), so `data.sinks` is `undefined` and the read throws. The updater never returns and the edge is not moved | two graph nodes `a`, `b` and an edge `a.out → b.in`, dragged onto the free handle `b.in2`: the connection is valid, and the update throws | a valid update re-routes the edge with `updateEdge`, and the handle keeps at most one committed edge | high; not executed | Connections.OnEdgeUpdateAsWritten (Connections.CanvasEdgeUpdateThrows, Connections.RerouteExample) | Connections.OnEdgeUpdate (Connections.ValidUpdateLeavesOneEdgeOnHandle, Connections.RerouteExample) |
