/**
 * The unrounded variant of the deduplicator.
 *
 * Coordinates are kept as parsed, with no rounding on either side, and the
 * filter is `ExactMatch` on `real` pairs: a record is a duplicate only when
 * its coordinate pair equals some node's pair exactly. This module relates it
 * to the rounding variant.
 */
module RmvDup {
  import opened Records
  import ExactMatch
  import LessDecimals

  /** The records the unrounded script writes out. */
  function Deduplicated(raw: seq<Record<real>>, rawNodes: seq<(real, real)>): (written: seq<Record<real>>)
  {
    ExactMatch.Novel(raw, rawNodes)
  }

  /** Rounding only ever drops more: a row the rounding script keeps is also
      kept by the unrounded script. */
  lemma RoundingDropsMore(raw: seq<Record<real>>, rawNodes: seq<(real, real)>, e: Record<real>)
    requires e in raw
    requires LessDecimals.RoundRecord(e) in LessDecimals.Deduplicated(raw, rawNodes)
    ensures e in Deduplicated(raw, rawNodes)
  {
    var nodes := LessDecimals.ParseRounded(rawNodes);
    var g := LessDecimals.RoundRecord(e);
    ExactMatch.NovelIff(LessDecimals.ReadRounded(raw), nodes, g);
    ExactMatch.NovelIff(raw, rawNodes, e);
  }

  /** The converse fails: a record 1e-6 degrees from a node survives the
      unrounded filter but is dropped by the rounded one. */
  lemma ExactVersusRounded(f: Fields)
    ensures Deduplicated([Record(40.000001, -74.0, "C", f)], [(40.0, -74.0)]) == [Record(40.000001, -74.0, "C", f)]
    ensures LessDecimals.Deduplicated([Record(40.000001, -74.0, "C", f)], [(40.0, -74.0)]) == []
  {
    var e := Record(40.000001, -74.0, "C", f);
    ExactMatch.NovelIff([e], [(40.0, -74.0)], e);
    assert ExactMatch.Novel([e], [(40.0, -74.0)]) == [e] by {
      assert [e][..0] == [];
      assert CoordsOf(e) !in ExactMatch.NodeSet([(40.0, -74.0)]);
    }
    assert LessDecimals.Round5(40.000001) == 4000000;
    assert LessDecimals.Round5(40.0) == 4000000;
    LessDecimals.RoundedMatchIsDropped([e], [(40.0, -74.0)], e, 0);
    var g := LessDecimals.RoundRecord(e);
    assert LessDecimals.ReadRounded([e]) == [g];
    ExactMatch.NovelIff([g], LessDecimals.ParseRounded([(40.0, -74.0)]), g);
  }
}
