/**
 * The rounding variant of the deduplicator.
 *
 * Both the imported records and the OpenStreetMap nodes have their
 * coordinates rounded to five decimals when they are parsed; a record is a
 * duplicate when its rounded coordinate pair equals some node's rounded pair
 * (the filter itself is `ExactMatch`). A rounded coordinate is represented
 * exactly, as an integer count of 1e-5 degrees.
 */
module LessDecimals {
  import opened Records
  import ExactMatch

  /** Units of 1e-5 degree per degree. */
  const Scale: real := 100000.0

  /** Python's `round(x, 5)` on the exact value of `x`, as a count of 1e-5
      degrees: the nearest unit, and on a tie the even one. */
  function Round5(x: real): (n: int)
    ensures -0.5 <= n as real - x * Scale <= 0.5
    ensures (n as real - x * Scale == 0.5 || x * Scale - n as real == 0.5) ==> n % 2 == 0
  {
    var s := x * Scale;
    var f := s.Floor;
    var frac := s - f as real;
    if frac < 0.5 then f
    else if frac > 0.5 then f + 1
    else if f % 2 == 0 then f
    else f + 1
  }

  /** A coordinate already on the 1e-5 grid rounds to itself. */
  lemma Round5OnGrid(k: int)
    ensures Round5(k as real / Scale) == k
  {
    assert (k as real / Scale) * Scale == k as real;
  }

  /** The record as the rounding reader builds it from a raw row: both
      coordinates rounded, every other column as is. */
  function RoundRecord(raw: Record<real>): (r: Record<int>)
    ensures r.name == raw.name && r.fields == raw.fields
    ensures -0.5 <= r.trilat as real - raw.trilat * Scale <= 0.5
    ensures -0.5 <= r.trilong as real - raw.trilong * Scale <= 0.5
  {
    Record(Round5(raw.trilat), Round5(raw.trilong), raw.name, raw.fields)
  }

  /** The node pair as the rounding response parser builds it. */
  function RoundNode(node: (real, real)): (rounded: (int, int))
  {
    (Round5(node.0), Round5(node.1))
  }

  /** Every row of the log, as the rounding reader returns them, in order. */
  function ReadRounded(raw: seq<Record<real>>): (data: seq<Record<int>>)
    ensures |data| == |raw|
    ensures forall k :: 0 <= k < |raw| ==> data[k] == RoundRecord(raw[k])
  {
    seq(|raw|, k requires 0 <= k < |raw| => RoundRecord(raw[k]))
  }

  /** Every node of the response, as the rounding parser returns them, in order. */
  function ParseRounded(rawNodes: seq<(real, real)>): (nodes: seq<(int, int)>)
    ensures |nodes| == |rawNodes|
    ensures forall k :: 0 <= k < |rawNodes| ==> nodes[k] == RoundNode(rawNodes[k])
  {
    seq(|rawNodes|, k requires 0 <= k < |rawNodes| => RoundNode(rawNodes[k]))
  }

  /** The records the rounding script writes out, from the raw rows and nodes. */
  function Deduplicated(raw: seq<Record<real>>, rawNodes: seq<(real, real)>): (written: seq<Record<int>>)
  {
    ExactMatch.Novel(ReadRounded(raw), ParseRounded(rawNodes))
  }

  /** A raw row whose coordinates round to those of some raw node is dropped,
      whatever its other columns; so is every other row rounding to the same pair. */
  lemma RoundedMatchIsDropped(raw: seq<Record<real>>, rawNodes: seq<(real, real)>, e: Record<real>, q: nat)
    requires q < |rawNodes|
    requires Round5(e.trilat) == Round5(rawNodes[q].0) && Round5(e.trilong) == Round5(rawNodes[q].1)
    ensures RoundRecord(e) !in Deduplicated(raw, rawNodes)
  {
    var nodes := ParseRounded(rawNodes);
    assert nodes[q] == (RoundRecord(e).trilat, RoundRecord(e).trilong);
    ExactMatch.NovelIff(ReadRounded(raw), nodes, RoundRecord(e));
  }

  /** The converse: a raw row is written out (rounded) iff its rounded pair
      differs from the rounded pair of every raw node. */
  lemma RoundedKeptIff(raw: seq<Record<real>>, rawNodes: seq<(real, real)>, e: Record<real>)
    requires e in raw
    ensures RoundRecord(e) in Deduplicated(raw, rawNodes) <==>
            forall q :: 0 <= q < |rawNodes| ==> RoundNode(rawNodes[q]) != (Round5(e.trilat), Round5(e.trilong))
  {
    var data, nodes := ReadRounded(raw), ParseRounded(rawNodes);
    var k :| 0 <= k < |raw| && raw[k] == e;
    assert data[k] == RoundRecord(e);
    ExactMatch.NovelIff(data, nodes, RoundRecord(e));
  }

  /** Only the set of raw nodes matters: reordering or repeating nodes of the
      response leaves the written records unchanged. */
  lemma RawNodeOrderIrrelevant(raw: seq<Record<real>>, rawNodes1: seq<(real, real)>, rawNodes2: seq<(real, real)>)
    requires forall n :: n in rawNodes1 <==> n in rawNodes2
    ensures Deduplicated(raw, rawNodes1) == Deduplicated(raw, rawNodes2)
  {
    var nodes1, nodes2 := ParseRounded(rawNodes1), ParseRounded(rawNodes2);
    forall m | m in nodes1 ensures m in nodes2 {
      var q :| 0 <= q < |nodes1| && nodes1[q] == m;
      assert rawNodes1[q] in rawNodes2;
      var q2 :| 0 <= q2 < |rawNodes2| && rawNodes2[q2] == rawNodes1[q];
      assert nodes2[q2] == m;
    }
    forall m | m in nodes2 ensures m in nodes1 {
      var q :| 0 <= q < |nodes2| && nodes2[q] == m;
      assert rawNodes2[q] in rawNodes1;
      var q1 :| 0 <= q1 < |rawNodes1| && rawNodes1[q1] == rawNodes2[q];
      assert nodes1[q1] == m;
    }
    ExactMatch.NodeOrderIrrelevant(ReadRounded(raw), nodes1, nodes2);
  }

  /** A record at the same position as a node is dropped, and nothing is left. */
  lemma SamePositionLeavesNothing(f: Fields)
    ensures Deduplicated([Record(40.0, -74.0, "A", f)], [(40.0, -74.0)]) == []
  {
    var e := Record(40.0, -74.0, "A", f);
    RoundedMatchIsDropped([e], [(40.0, -74.0)], e, 0);
    ExactMatch.NovelIff(ReadRounded([e]), ParseRounded([(40.0, -74.0)]), RoundRecord(e));
    assert ReadRounded([e]) == [RoundRecord(e)];
  }
}
