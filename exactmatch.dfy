/**
 * The coordinate-keyed filter of the two exact-match scripts.
 *
 * `lessdecimals.py` and `other/rmvdup.py` share the text of
 * `filter_duplicates`: turn the node pairs into a set, then keep, in order,
 * each record whose (trilat, trilong) pair is not in it. They differ only in
 * the coordinates they feed it: rounded to five decimals (`C = int`, see
 * `LessDecimals`) or exactly as parsed (`C = real`, see `RmvDup`).
 */
module ExactMatch {
  import opened Records
  import KeyFilter

  /** `set(overpass_nodes)`. */
  function NodeSet<C(==)>(nodes: seq<(C, C)>): (nodeSet: set<(C, C)>)
  {
    set n | n in nodes
  }

  /** The records the script writes out. */
  function Novel<C(==)>(data: seq<Record<C>>, nodes: seq<(C, C)>): (written: seq<Record<C>>)
  {
    KeyFilter.Keep(data, CoordsOf, NodeSet(nodes))
  }

  /** `filter_duplicates`: keep, in order, the entries whose coordinate pair
      is not a node's. */
  method FilterDuplicates<C(==)>(data: seq<Record<C>>, overpassNodes: seq<(C, C)>)
    returns (filtered: seq<Record<C>>)
    ensures filtered == Novel(data, overpassNodes)
    ensures forall k :: 0 <= k < |filtered| ==> (filtered[k].trilat, filtered[k].trilong) !in overpassNodes
  {
    filtered := [];
    var overpassSet := NodeSet(overpassNodes);
    var i := 0;
    while i < |data|
      invariant 0 <= i <= |data|
      invariant filtered == KeyFilter.Keep(data[..i], CoordsOf, overpassSet)
    {
      var entry := data[i];
      assert data[..i + 1][..i] == data[..i];
      if (entry.trilat, entry.trilong) !in overpassSet {
        filtered := filtered + [entry];
      }
      i := i + 1;
    }
    assert data[..i] == data;
    assert forall k :: 0 <= k < |filtered| ==> CoordsOf(filtered[k]) == (filtered[k].trilat, filtered[k].trilong);
  }

  /** Exactness: an entry is written out iff it is an input entry whose pair is
      no node's; an entry with an absent pair is never dropped. */
  lemma NovelIff<C>(data: seq<Record<C>>, nodes: seq<(C, C)>, e: Record<C>)
    ensures e in Novel(data, nodes) <==> e in data && (e.trilat, e.trilong) !in nodes
  {
    KeyFilter.KeepMembership(data, CoordsOf, NodeSet(nodes), e);
  }

  /** Only the set of nodes matters: reordering or repeating nodes changes nothing. */
  lemma NodeOrderIrrelevant<C>(data: seq<Record<C>>, nodes1: seq<(C, C)>, nodes2: seq<(C, C)>)
    requires forall n :: n in nodes1 <==> n in nodes2
    ensures Novel(data, nodes1) == Novel(data, nodes2)
  {
    assert NodeSet(nodes1) == NodeSet(nodes2);
  }

  /** With no nodes the input is written out unchanged. */
  lemma NoNodesKeepsAll<C>(data: seq<Record<C>>)
    ensures Novel(data, []) == data
  {
    assert NodeSet<C>([]) == {};
    KeyFilter.KeepNothingFlagged(data, CoordsOf);
  }

  /** Filtering twice against the same nodes is filtering once. */
  lemma NovelIdempotent<C>(data: seq<Record<C>>, nodes: seq<(C, C)>)
    ensures Novel(Novel(data, nodes), nodes) == Novel(data, nodes)
  {
    KeyFilter.KeepIdempotent(data, CoordsOf, NodeSet(nodes));
  }
}
