/**
 * Suggested edges on the canvas. When exactly one element is selected, the
 * engine's suggested connections that touch it are shown as edges flagged
 * `isSuggested`; otherwise none are shown.
 */
module Suggestions {

  import opened Wrappers
  import opened GraphTypes
  import JsString
  import Connections
  import Seqs

  /** A connection the engine proposes. */
  datatype SuggestedConnection = SuggestedConnection(from: Endpoint, to: Endpoint)

  /** `JSON.stringify` of an endpoint. */
  function EndpointJson(p: Endpoint): string {
    "{\"nodeId\":" + JsString.JsonQuote(p.nodeId) + ",\"busKey\":" + JsString.JsonQuote(p.busKey) + "}"
  }

  /** `JSON.stringify(conn)`: the id of a suggestion's canvas edge. */
  function SuggestionKey(c: SuggestedConnection): string {
    "{\"from\":" + EndpointJson(c.from) + ",\"to\":" + EndpointJson(c.to) + "}"
  }

  /** The text of an endpoint can be read back: it determines the endpoint and where the text after it begins. */
  lemma EndpointJsonUnique(p: Endpoint, q: Endpoint, x: string, y: string)
    requires EndpointJson(p) + x == EndpointJson(q) + y
    ensures p == q && x == y
  {
    var open, sep, close: string := "{\"nodeId\":", ",\"busKey\":", "}";
    var np, bp := JsString.JsonQuote(p.nodeId), JsString.JsonQuote(p.busKey);
    var nq, bq := JsString.JsonQuote(q.nodeId), JsString.JsonQuote(q.busKey);
    assert EndpointJson(p) == open + np + sep + bp + close && EndpointJson(q) == open + nq + sep + bq + close;
    Seqs.RightNested(open, np, sep, bp, close, x);
    Seqs.RightNested(open, nq, sep, bq, close, y);
    Seqs.PrefixCancel(open, np + (sep + (bp + (close + x))), nq + (sep + (bq + (close + y))));
    JsString.JsonQuoteUnique(p.nodeId, q.nodeId, sep + (bp + (close + x)), sep + (bq + (close + y)));
    Seqs.PrefixCancel(sep, bp + (close + x), bq + (close + y));
    JsString.JsonQuoteUnique(p.busKey, q.busKey, close + x, close + y);
    Seqs.PrefixCancel(close, x, y);
  }

  /** Distinct suggestions get distinct canvas edge ids: `JSON.stringify(conn)` loses nothing. */
  lemma SuggestionKeyInjective(c: SuggestedConnection, d: SuggestedConnection)
    ensures SuggestionKey(c) == SuggestionKey(d) <==> c == d
  {
    if SuggestionKey(c) == SuggestionKey(d) {
      var open, sep, close: string := "{\"from\":", ",\"to\":", "}";
      var fc, tc, fd, td := EndpointJson(c.from), EndpointJson(c.to), EndpointJson(d.from), EndpointJson(d.to);
      assert SuggestionKey(c) + [] == open + fc + sep + tc + close + [];
      assert SuggestionKey(d) + [] == open + fd + sep + td + close + [];
      Seqs.RightNested(open, fc, sep, tc, close, []);
      Seqs.RightNested(open, fd, sep, td, close, []);
      Seqs.PrefixCancel(open, fc + (sep + (tc + (close + []))), fd + (sep + (td + (close + []))));
      EndpointJsonUnique(c.from, d.from, sep + (tc + (close + [])), sep + (td + (close + [])));
      Seqs.PrefixCancel(sep, tc + (close + []), td + (close + []));
      EndpointJsonUnique(c.to, d.to, close + [], close + []);
    }
  }

  /** The canvas edge showing a suggestion: from its source port to its target port, flagged as suggested. */
  function ToElement(c: SuggestedConnection): (e: Element)
    ensures e.FlowEdge? && e.suggested
    ensures e.source == c.from.nodeId && e.sourceHandle == Some(c.from.busKey)
    ensures e.target == c.to.nodeId && e.targetHandle == Some(c.to.busKey)
  {
    FlowEdge(SuggestionKey(c), c.from.nodeId, Some(c.from.busKey), c.to.nodeId, Some(c.to.busKey), true)
  }

  /** The suggestion starts or ends at node `id`. */
  predicate Touches(c: SuggestedConnection, id: string) {
    c.from.nodeId == id || c.to.nodeId == id
  }

  /** The canvas edges of the suggestions touching `id`, in the engine's order. */
  function TouchingEdges(suggestions: seq<SuggestedConnection>, id: string): (r: seq<Element>)
    ensures |r| <= |suggestions|
    ensures forall e :: e in r <==> exists c :: c in suggestions && Touches(c, id) && e == ToElement(c)
  {
    if suggestions == [] then []
    else
      var c := suggestions[0];
      var rest := TouchingEdges(suggestions[1..], id);
      assert forall c' :: c' in suggestions <==> c' == c || c' in suggestions[1..];
      (if Touches(c, id) then [ToElement(c)] else []) + rest
  }

  /**
   * The suggested edges shown for a selection: none unless exactly one
   * element is selected; then one flagged edge per suggestion touching it.
   */
  function SuggestedEdges(selected: seq<Element>, suggestions: seq<SuggestedConnection>): (r: seq<Element>)
    ensures |selected| != 1 ==> r == []
    ensures |r| <= |suggestions|
    ensures forall e :: e in r ==>
              && e.FlowEdge? && e.suggested && |selected| == 1
              && (e.source == selected[0].id || e.target == selected[0].id)
    ensures |selected| == 1 ==>
              forall e :: e in r <==> exists c :: c in suggestions && Touches(c, selected[0].id) && e == ToElement(c)
  {
    if |selected| != 1 then [] else TouchingEdges(suggestions, selected[0].id)
  }

  /**
   * Joining the shown suggested edges to the elements never changes whether a
   * connection is valid: a handle that only suggested edges end at stays free.
   */
  lemma ShownSuggestionsNeverBlock(conn: Connection, els: seq<Element>, selected: seq<Element>,
                                   suggestions: seq<SuggestedConnection>)
    requires Connections.TargetPresent(els, conn)
    ensures Connections.ValidateConnection(conn, els + SuggestedEdges(selected, suggestions))
            == Connections.ValidateConnection(conn, els)
  {
    Connections.SuggestedEdgesNeverBlock(conn, els, SuggestedEdges(selected, suggestions));
  }
}
