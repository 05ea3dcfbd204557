/**
 * The route segment that names a graph. A graph is opened at
 * `/<name with spaces as hyphens>-<id>`; the editor reads the id back as the
 * last 21 characters of the segment and the display name as the rest, with
 * hyphens turned back into spaces and the ends trimmed.
 */
module GraphPath {

  import opened Wrappers
  import opened JsString

  /** The length of a graph id: the part of the segment that `slice(-21)` keeps. */
  const IdLength: nat := 21

  /** `name.split(" ").join("-") + "-" + id`: the segment for graph `id` named `name`. */
  function Encode(name: string, id: string): (path: string)
    ensures |path| == |name| + 1 + |id|
    ensures forall i :: 0 <= i < |name| ==> path[i] == (if name[i] == ' ' then '-' else name[i])
    ensures path[|name|] == '-'
    ensures path[|name| + 1..] == id
  {
    SplitJoinIsReplace(name, ' ', '-');
    Join(Split(name, ' '), '-') + "-" + id
  }

  /**
   * The route of a graph, `/` followed by its segment: where a new graph is
   * opened and where the workspace list links to. Its segment ends with the
   * id, and a full-length id is read back from it.
   */
  function Route(name: string, id: string): (route: string)
    ensures |route| == |name| + |id| + 2 && route[0] == '/'
    ensures route[|route| - |id|..] == id
    ensures |id| == IdLength ==> DecodeId(Some(route[1..])) == Some(id)
  {
    var route := "/" + Encode(name, id);
    assert route[1..] == Encode(name, id);
    assert |id| == IdLength ==> DecodeId(Some(route[1..])) == Some(id) by {
      if |id| == IdLength {
        DecodeEncodeId(name, id);
      }
    }
    route
  }

  /** Where `slice(-21)` starts (and `slice(0, -21)` ends) in a string of length `n`. */
  function IdStart(n: nat): (k: nat)
    ensures k <= n
    ensures n >= IdLength ==> n - k == IdLength
    ensures n < IdLength ==> k == 0
  {
    if n > IdLength then n - IdLength else 0
  }

  /**
   * `graphId`: nothing without a non-empty segment, otherwise its last 21
   * characters (the whole segment when it is shorter).
   */
  function DecodeId(graphPath: Option<string>): (r: Option<string>)
    ensures r.None? <==> graphPath.None? || graphPath.value == []
    ensures r.Some? ==> |r.value| == (if |graphPath.value| < IdLength then |graphPath.value| else IdLength)
    ensures r.Some? ==> graphPath.value == graphPath.value[..|graphPath.value| - |r.value|] + r.value
  {
    match graphPath
    case None => None
    case Some(p) =>
      if p == [] then None
      else
        var k := IdStart(|p|);
        assert p == p[..k] + p[k..];
        Some(p[k..])
  }

  /**
   * `graphName`: nothing without a non-empty segment, otherwise everything
   * before the id with every hyphen read as a space, then trimmed.
   */
  function DecodeName(graphPath: Option<string>): (r: Option<string>)
    ensures r.None? <==> graphPath.None? || graphPath.value == []
    ensures r.Some? ==> Trimmed(r.value) && '-' !in r.value
    ensures r.Some? ==> r.value == Trim(Replace(graphPath.value[..IdStart(|graphPath.value|)], '-', ' '))
  {
    match graphPath
    case None => None
    case Some(p) =>
      if p == [] then None
      else
        var prefix := p[..IdStart(|p|)];
        SplitJoinIsReplace(prefix, '-', ' ');
        var name := Trim(Join(Split(prefix, '-'), ' '));
        assert forall c :: c in name ==> c in Replace(prefix, '-', ' ');
        Some(name)
  }

  /** The segment of a graph with a full-length id gives that id back. */
  lemma DecodeEncodeId(name: string, id: string)
    requires |id| == IdLength
    ensures DecodeId(Some(Encode(name, id))) == Some(id)
  {
  }

  /**
   * The segment of a graph with a full-length id gives back the name with
   * hyphens read as spaces and the ends trimmed.
   */
  lemma DecodeEncodeName(name: string, id: string)
    requires |id| == IdLength
    ensures DecodeName(Some(Encode(name, id))) == Some(Trim(Replace(name, '-', ' ')))
  {
    EncodedPrefix(name, id);
    HyphensBackToSpaces(name);
    TrimAppendWhitespace(Replace(name, '-', ' '), ' ');
  }

  /** Reading the hyphens of a hyphenated name and its separator as spaces gives the name with hyphens as spaces, then a space. */
  lemma HyphensBackToSpaces(name: string)
    ensures Replace(Replace(name, ' ', '-') + "-", '-', ' ') == Replace(name, '-', ' ') + " "
  {
    var spaced, want := Replace(Replace(name, ' ', '-') + "-", '-', ' '), Replace(name, '-', ' ') + " ";
    assert |spaced| == |want|;
    forall i | 0 <= i < |spaced|
      ensures spaced[i] == want[i]
    {
      if i < |name| {
        assert (Replace(name, ' ', '-') + "-")[i] == Replace(name, ' ', '-')[i];
      }
    }
  }

  /** Everything before the id in a segment is the hyphenated name and the separating hyphen. */
  lemma EncodedPrefix(name: string, id: string)
    requires |id| == IdLength
    ensures Encode(name, id)[..IdStart(|Encode(name, id)|)] == Replace(name, ' ', '-') + "-"
  {
    var path := Encode(name, id);
    assert IdStart(|path|) == |name| + 1;
    var prefix := path[..|name| + 1];
    var want := Replace(name, ' ', '-') + "-";
    assert |prefix| == |want|;
    assert forall i :: 0 <= i < |name| ==> prefix[i] == want[i];
    assert prefix[|name|] == want[|name|];
  }

  /**
   * Round trip: a graph whose name has no hyphen and no whitespace at either
   * end, and whose id is 21 characters long, is decoded to exactly its id and name.
   */
  lemma RoundTrip(name: string, id: string)
    requires |id| == IdLength
    requires '-' !in name && Trimmed(name)
    ensures DecodeId(Some(Encode(name, id))) == Some(id)
    ensures DecodeName(Some(Encode(name, id))) == Some(name)
  {
    DecodeEncodeId(name, id);
    DecodeEncodeName(name, id);
    NoHyphenUnchanged(name);
    TrimTrimmed(name);
  }

  /** Reading hyphens as spaces leaves a name without hyphens as it is. */
  lemma NoHyphenUnchanged(name: string)
    requires '-' !in name
    ensures Replace(name, '-', ' ') == name
  {
    assert forall i :: 0 <= i < |name| ==> Replace(name, '-', ' ')[i] == name[i];
  }

  /** A hyphen in a graph name comes back as a space: the segment does not keep it. */
  lemma HyphenReadAsSpace(a: string, b: string, id: string)
    requires |id| == IdLength
    requires '-' !in a && '-' !in b
    requires Trimmed(a + " " + b)
    ensures DecodeName(Some(Encode(a + "-" + b, id))) == Some(a + " " + b)
  {
    DecodeEncodeName(a + "-" + b, id);
    HyphenJoinReadAsSpace(a, b);
    TrimTrimmed(a + " " + b);
  }

  /** Reading the hyphens of `a-b` as spaces gives `a b` when neither part has a hyphen of its own. */
  lemma HyphenJoinReadAsSpace(a: string, b: string)
    requires '-' !in a && '-' !in b
    ensures Replace(a + "-" + b, '-', ' ') == a + " " + b
  {
    var name, spaced, want := a + "-" + b, Replace(a + "-" + b, '-', ' '), a + " " + b;
    forall i | 0 <= i < |spaced|
      ensures spaced[i] == want[i]
    {
      if i < |a| {
        assert name[i] == a[i] && want[i] == a[i];
      } else if i > |a| {
        assert name[i] == b[i - |a| - 1] && want[i] == b[i - |a| - 1];
      }
    }
  }
}
