/**
 * Where a node draws its connection handles. Every input bus gets a target
 * handle along the top edge and every output bus a source handle along the
 * bottom edge, one per key in key order, each centred in its own equal slice
 * of the node's width; the node is made wide enough for 32 units per handle
 * on its more crowded side.
 */
module BaseNode {

  /** Top-edge handles receive edges (`type="target"`), bottom-edge handles start them (`type="source"`). */
  datatype HandleKind = Target | Source

  /** A rendered handle: its kind, its id (the bus key) and its horizontal offset in percent of the node's width. */
  datatype Handle = Handle(kind: HandleKind, id: string, left: real)

  /** `(100 * i + 50) / keys.length`: the offset, in percent, of handle `i` of `n`. */
  function Offset(i: nat, n: nat): (pct: real)
    requires i < n
    ensures 0.0 < pct < 100.0
    ensures 100.0 * i as real / n as real < pct < 100.0 * (i + 1) as real / n as real
  {
    (100.0 * i as real + 50.0) / n as real
  }

  /** Handle `i` sits exactly in the middle of the `i`-th of `n` equal slots. */
  lemma OffsetIsSlotMidpoint(i: nat, n: nat)
    requires i < n
    ensures Offset(i, n) == (100.0 * i as real / n as real + 100.0 * (i + 1) as real / n as real) / 2.0
  {
  }

  /** Neighbouring handles are exactly one slot, `100 / n` percent, apart. */
  lemma OffsetSpacing(i: nat, n: nat)
    requires i + 1 < n
    ensures Offset(i + 1, n) - Offset(i, n) == 100.0 / n as real
  {
  }

  /** The layout is mirror-symmetric: handle `i` and handle `n - 1 - i` are equally far from the two sides. */
  lemma OffsetSymmetric(i: nat, n: nat)
    requires i < n
    ensures Offset(i, n) + Offset(n - 1 - i, n) == 100.0
  {
  }

  /**
   * `Object.keys(ports).map(...)`: one handle of the given kind per key, in
   * key order, named after its key, placed left to right inside the node.
   */
  function Handles(keys: seq<string>, kind: HandleKind): (hs: seq<Handle>)
    ensures |hs| == |keys|
    ensures forall i :: 0 <= i < |hs| ==> hs[i].kind == kind && hs[i].id == keys[i]
    ensures forall i :: 0 <= i < |hs| ==> hs[i].left == Offset(i, |keys|)
    ensures forall i :: 0 <= i < |hs| ==> 0.0 < hs[i].left < 100.0
    ensures forall i, j :: 0 <= i < j < |hs| ==> hs[i].left < hs[j].left
  {
    var hs := seq(|keys|, i requires 0 <= i < |keys| => Handle(kind, keys[i], Offset(i, |keys|)));
    forall i, j | 0 <= i < j < |hs|
      ensures hs[i].left < hs[j].left
    {
      OffsetMonotonic(i, j, |keys|);
    }
    hs
  }

  /** Offsets grow with the handle index. */
  lemma OffsetMonotonic(i: nat, j: nat, n: nat)
    requires i < j < n
    ensures Offset(i, n) < Offset(j, n)
  {
    var d := 100.0 * (j - i) as real / n as real;
    assert Offset(j, n) == Offset(i, n) + d;
  }

  /** The handles of a node: targets for its input buses on top, sources for its output buses below. */
  datatype NodeHandles = NodeHandles(targets: seq<Handle>, sources: seq<Handle>)

  /**
   * `BaseNode`'s handles: one target handle per input key and one source
   * handle per output key, so an edge can be attached by bus key.
   */
  function Layout(sourceKeys: seq<string>, sinkKeys: seq<string>): (h: NodeHandles)
    ensures |h.targets| == |sourceKeys| && |h.sources| == |sinkKeys|
    ensures forall k :: k in sourceKeys <==> exists i :: 0 <= i < |h.targets| && h.targets[i].id == k
    ensures forall k :: k in sinkKeys <==> exists i :: 0 <= i < |h.sources| && h.sources[i].id == k
    ensures forall i :: 0 <= i < |h.targets| ==> h.targets[i].kind == Target
    ensures forall i :: 0 <= i < |h.sources| ==> h.sources[i].kind == Source
  {
    var h := NodeHandles(Handles(sourceKeys, Target), Handles(sinkKeys, Source));
    assert forall i :: 0 <= i < |sourceKeys| ==> h.targets[i].id == sourceKeys[i];
    assert forall i :: 0 <= i < |sinkKeys| ==> h.sources[i].id == sinkKeys[i];
    h
  }

  /** `Math.max(#sources, #sinks) * 32`: the node's minimum width. */
  function MinWidth(sourceCount: nat, sinkCount: nat): (w: nat)
    ensures w >= 32 * sourceCount && w >= 32 * sinkCount
    ensures w == 32 * sourceCount || w == 32 * sinkCount
  {
    (if sourceCount >= sinkCount then sourceCount else sinkCount) * 32
  }

  /**
   * At the minimum width, neighbouring handles on either side are at least
   * 32 units apart, so their drop zones do not overlap.
   */
  lemma MinWidthSpacesHandles(sourceCount: nat, sinkCount: nat, n: nat)
    requires n == sourceCount || n == sinkCount
    requires n > 0
    ensures MinWidth(sourceCount, sinkCount) as real * (100.0 / n as real) / 100.0 >= 32.0
  {
    var w := MinWidth(sourceCount, sinkCount) as real;
    assert w * (100.0 / n as real) / 100.0 == w / n as real;
    assert w >= 32.0 * n as real;
  }
}
