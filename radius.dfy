/**
 * The radius variant of the deduplicator.
 *
 * It computes the bounding box of the imported records, asks OpenStreetMap
 * for the ALPR nodes inside it, flags every (record, node) pair that lies
 * closer than `radius` degrees on BOTH axes, and drops every record whose
 * name was flagged. The request result is a parameter here (`alprs`); when
 * the request fails the script carries on with an empty list.
 */
module Radius {
  import opened Records
  import KeyFilter

  /** An ALPR node as returned by the query: its OSM id and position. */
  datatype Alpr = Alpr(id: int, lat: real, lon: real)

  /** The box in the order the script returns it: (min_lat, min_lon, max_lat, max_lon). */
  datatype BoundingBox = BoundingBox(minLat: real, minLon: real, maxLat: real, maxLon: real)

  /** The starting values of the fold: an empty, inverted box. */
  const Sentinel: BoundingBox := BoundingBox(90.0, 180.0, -90.0, -180.0)

  /** Python's `min(a, b)`: `b` only when it is strictly smaller. */
  function Min(a: real, b: real): (m: real)
    ensures m <= a && m <= b && (m == a || m == b)
  {
    if b < a then b else a
  }

  /** Python's `max(a, b)`: `b` only when it is strictly larger. */
  function Max(a: real, b: real): (m: real)
    ensures m >= a && m >= b && (m == a || m == b)
  {
    if b > a then b else a
  }

  function Abs(x: real): (y: real)
  {
    if x < 0.0 then -x else x
  }

  /** One step of the fold: widen the box to take in record `r`. */
  function Widen(box: BoundingBox, r: Record<real>): (wider: BoundingBox)
  {
    BoundingBox(Min(box.minLat, r.trilat), Min(box.minLon, r.trilong),
                Max(box.maxLat, r.trilat), Max(box.maxLon, r.trilong))
  }

  /** The box the loop has built after visiting all of `nodes`, in order. */
  function BoxOf(nodes: seq<Record<real>>): (box: BoundingBox)
  {
    if nodes == [] then Sentinel else Widen(BoxOf(nodes[..|nodes| - 1]), nodes[|nodes| - 1])
  }

  ghost predicate Encloses(box: BoundingBox, r: Record<real>)
  {
    box.minLat <= r.trilat <= box.maxLat && box.minLon <= r.trilong <= box.maxLon
  }

  /** `get_bounding_box_for_nodes`: every record lies inside the box; an empty
      list gives the sentinel box. */
  method GetBoundingBox(nodes: seq<Record<real>>) returns (box: BoundingBox)
    ensures box == BoxOf(nodes)
    ensures forall k :: 0 <= k < |nodes| ==> Encloses(box, nodes[k])
    ensures nodes == [] ==> box == Sentinel
  {
    var minLat, maxLat, minLon, maxLon := 90.0, -90.0, 180.0, -180.0;
    var i := 0;
    while i < |nodes|
      invariant 0 <= i <= |nodes|
      invariant BoundingBox(minLat, minLon, maxLat, maxLon) == BoxOf(nodes[..i])
      invariant forall k :: 0 <= k < i ==>
                  Encloses(BoundingBox(minLat, minLon, maxLat, maxLon), nodes[k])
    {
      var node := nodes[i];
      assert nodes[..i + 1][..i] == nodes[..i];
      minLat := Min(minLat, node.trilat);
      maxLat := Max(maxLat, node.trilat);
      minLon := Min(minLon, node.trilong);
      maxLon := Max(maxLon, node.trilong);
      i := i + 1;
    }
    assert nodes[..i] == nodes;
    box := BoundingBox(minLat, minLon, maxLat, maxLon);
  }

  /** All coordinates are valid degrees. */
  ghost predicate InRange(nodes: seq<Record<real>>)
  {
    forall k :: 0 <= k < |nodes| ==>
      -90.0 <= nodes[k].trilat <= 90.0 && -180.0 <= nodes[k].trilong <= 180.0
  }

  /** Each side of the box is the coordinate of some record. */
  ghost predicate Attained(box: BoundingBox, nodes: seq<Record<real>>)
  {
    && (exists k :: 0 <= k < |nodes| && nodes[k].trilat == box.minLat)
    && (exists k :: 0 <= k < |nodes| && nodes[k].trilat == box.maxLat)
    && (exists k :: 0 <= k < |nodes| && nodes[k].trilong == box.minLon)
    && (exists k :: 0 <= k < |nodes| && nodes[k].trilong == box.maxLon)
  }

  /** For a non-empty list of valid coordinates, the sentinels never survive:
      each bound is attained by a record. */
  lemma {:induction false} BoxAttained(nodes: seq<Record<real>>)
    requires nodes != [] && InRange(nodes)
    ensures Attained(BoxOf(nodes), nodes)
    decreases |nodes|
  {
    var p, last := nodes[..|nodes| - 1], nodes[|nodes| - 1];
    var n := |nodes| - 1;
    if p == [] {
      assert nodes[0] == last && BoxOf(p) == Sentinel;
      assert -90.0 <= nodes[0].trilat <= 90.0 && -180.0 <= nodes[0].trilong <= 180.0;
    } else {
      assert InRange(p) by {
        forall k | 0 <= k < |p| ensures -90.0 <= p[k].trilat <= 90.0 && -180.0 <= p[k].trilong <= 180.0 {
          assert p[k] == nodes[k];
        }
      }
      BoxAttained(p);
      var b := BoxOf(p);
      forall k | 0 <= k < |p| ensures p[k] == nodes[k] { }
      assert nodes[n] == last;
      if Min(b.minLat, last.trilat) == last.trilat { assert nodes[n].trilat == BoxOf(nodes).minLat; }
      if Max(b.maxLat, last.trilat) == last.trilat { assert nodes[n].trilat == BoxOf(nodes).maxLat; }
      if Min(b.minLon, last.trilong) == last.trilong { assert nodes[n].trilong == BoxOf(nodes).minLon; }
      if Max(b.maxLon, last.trilong) == last.trilong { assert nodes[n].trilong == BoxOf(nodes).maxLon; }
    }
  }

  /** The script's proximity test: strictly closer than `radius` on both axes. */
  predicate Near(n: Record<real>, a: Alpr, radius: real)
  {
    Abs(n.trilat - a.lat) < radius && Abs(n.trilong - a.lon) < radius
  }

  /** The ids of the nodes in `alprs` that are near record `n`. */
  function NearIds(n: Record<real>, alprs: seq<Alpr>, radius: real): (ids: set<int>)
  {
    if alprs == [] then {}
    else
      var a := alprs[|alprs| - 1];
      NearIds(n, alprs[..|alprs| - 1], radius) + (if Near(n, a, radius) then {a.id} else {})
  }

  /** `conflicting_node_ids` after the nested loop has visited all of `nodes`. */
  function ConflictIds(nodes: seq<Record<real>>, alprs: seq<Alpr>, radius: real): (ids: set<int>)
  {
    if nodes == [] then {}
    else ConflictIds(nodes[..|nodes| - 1], alprs, radius) + NearIds(nodes[|nodes| - 1], alprs, radius)
  }

  /** The names contributed by record `n`: its name if some node is near it. */
  function NameIfNear(n: Record<real>, alprs: seq<Alpr>, radius: real): (names: set<string>)
  {
    if NearIds(n, alprs, radius) != {} then {n.name} else {}
  }

  /** `conflicting_imported_names` after the nested loop has visited all of `nodes`. */
  function ConflictNames(nodes: seq<Record<real>>, alprs: seq<Alpr>, radius: real): (names: set<string>)
  {
    if nodes == [] then {}
    else ConflictNames(nodes[..|nodes| - 1], alprs, radius) + NameIfNear(nodes[|nodes| - 1], alprs, radius)
  }

  /** An id is near `n` iff some node with that id lies within the radius of `n`. */
  lemma {:induction false} NearIdsIff(n: Record<real>, alprs: seq<Alpr>, radius: real, id: int)
    ensures id in NearIds(n, alprs, radius) <==>
            exists q :: 0 <= q < |alprs| && alprs[q].id == id && Near(n, alprs[q], radius)
    decreases |alprs|
  {
    if alprs != [] {
      var p := alprs[..|alprs| - 1];
      NearIdsIff(n, p, radius, id);
      assert forall q :: 0 <= q < |p| ==> p[q] == alprs[q];
    }
  }

  /** An id is flagged iff that node lies within the radius of some record. */
  lemma {:induction false} ConflictIdsIff(nodes: seq<Record<real>>, alprs: seq<Alpr>, radius: real, id: int)
    ensures id in ConflictIds(nodes, alprs, radius) <==>
            exists p, q :: 0 <= p < |nodes| && 0 <= q < |alprs| &&
                           alprs[q].id == id && Near(nodes[p], alprs[q], radius)
    decreases |nodes|
  {
    if nodes != [] {
      var pre, last := nodes[..|nodes| - 1], nodes[|nodes| - 1];
      ConflictIdsIff(pre, alprs, radius, id);
      NearIdsIff(last, alprs, radius, id);
      assert forall p :: 0 <= p < |pre| ==> pre[p] == nodes[p];
      assert last == nodes[|nodes| - 1];
    }
  }

  /** A name is flagged iff some record carrying it lies within the radius of some node. */
  lemma {:induction false} ConflictNamesIff(nodes: seq<Record<real>>, alprs: seq<Alpr>, radius: real, name: string)
    ensures name in ConflictNames(nodes, alprs, radius) <==>
            exists p, q :: 0 <= p < |nodes| && 0 <= q < |alprs| &&
                           nodes[p].name == name && Near(nodes[p], alprs[q], radius)
    decreases |nodes|
  {
    if nodes != [] {
      var pre, last := nodes[..|nodes| - 1], nodes[|nodes| - 1];
      ConflictNamesIff(pre, alprs, radius, name);
      assert forall p :: 0 <= p < |pre| ==> pre[p] == nodes[p];
      assert last == nodes[|nodes| - 1];
      if name == last.name {
        if q :| 0 <= q < |alprs| && Near(last, alprs[q], radius) {
          NearIdsIff(last, alprs, radius, alprs[q].id);
        } else {
          forall id ensures id !in NearIds(last, alprs, radius) {
            NearIdsIff(last, alprs, radius, id);
          }
        }
      }
    }
  }

  /** The matching loop of `detect_duplicates`, with the fetched node list as a
      parameter. It returns the flagged node ids and the flagged record names. */
  method DetectDuplicates(nodes: seq<Record<real>>, alprs: seq<Alpr>, radius: real)
    returns (conflictingNodeIds: set<int>, conflictingNames: set<string>)
    ensures conflictingNodeIds == ConflictIds(nodes, alprs, radius)
    ensures conflictingNames == ConflictNames(nodes, alprs, radius)
    ensures forall id :: id in conflictingNodeIds <==>
              exists p, q :: 0 <= p < |nodes| && 0 <= q < |alprs| &&
                             alprs[q].id == id && Near(nodes[p], alprs[q], radius)
    ensures forall name :: name in conflictingNames <==>
              exists p, q :: 0 <= p < |nodes| && 0 <= q < |alprs| &&
                             nodes[p].name == name && Near(nodes[p], alprs[q], radius)
  {
    conflictingNodeIds, conflictingNames := {}, {};
    var i := 0;
    while i < |nodes|
      invariant 0 <= i <= |nodes|
      invariant conflictingNodeIds == ConflictIds(nodes[..i], alprs, radius)
      invariant conflictingNames == ConflictNames(nodes[..i], alprs, radius)
    {
      var node := nodes[i];
      var j := 0;
      while j < |alprs|
        invariant 0 <= j <= |alprs|
        invariant conflictingNodeIds == ConflictIds(nodes[..i], alprs, radius) + NearIds(node, alprs[..j], radius)
        invariant conflictingNames == ConflictNames(nodes[..i], alprs, radius) + NameIfNear(node, alprs[..j], radius)
      {
        var alpr := alprs[j];
        assert alprs[..j + 1][..j] == alprs[..j];
        if Abs(node.trilat - alpr.lat) < radius && Abs(node.trilong - alpr.lon) < radius {
          conflictingNodeIds := conflictingNodeIds + {alpr.id};
          conflictingNames := conflictingNames + {node.name};
        }
        j := j + 1;
      }
      assert alprs[..j] == alprs;
      assert nodes[..i + 1][..i] == nodes[..i];
      i := i + 1;
    }
    assert nodes[..i] == nodes;
    forall id ensures id in conflictingNodeIds <==>
        exists p, q :: 0 <= p < |nodes| && 0 <= q < |alprs| &&
                       alprs[q].id == id && Near(nodes[p], alprs[q], radius) {
      ConflictIdsIff(nodes, alprs, radius, id);
    }
    forall name ensures name in conflictingNames <==>
        exists p, q :: 0 <= p < |nodes| && 0 <= q < |alprs| &&
                       nodes[p].name == name && Near(nodes[p], alprs[q], radius) {
      ConflictNamesIff(nodes, alprs, radius, name);
    }
  }

  /** Fail-open: an empty node list (what a failed request yields) flags nothing. */
  lemma {:induction false} NoAlprsNoConflicts(nodes: seq<Record<real>>, radius: real)
    ensures ConflictIds(nodes, [], radius) == {}
    ensures ConflictNames(nodes, [], radius) == {}
    decreases |nodes|
  {
    if nodes != [] {
      NoAlprsNoConflicts(nodes[..|nodes| - 1], radius);
    }
  }

  /** The threshold is strict: a node at exactly `radius` on one axis, or
      farther on one axis, is not a conflict, however close on the other. */
  lemma BoundaryIsNoConflict(n: Record<real>, a: Alpr, radius: real)
    requires Abs(n.trilat - a.lat) >= radius || Abs(n.trilong - a.lon) >= radius
    ensures ConflictIds([n], [a], radius) == {}
    ensures ConflictNames([n], [a], radius) == {}
  {
    assert [n][..0] == [] && [a][..0] == [];
    assert NearIds(n, [a], radius) == {};
  }

  /** A node strictly inside the radius on both axes is a conflict. */
  lemma InsideIsConflict(n: Record<real>, a: Alpr, radius: real)
    requires Abs(n.trilat - a.lat) < radius && Abs(n.trilong - a.lon) < radius
    ensures ConflictIds([n], [a], radius) == {a.id}
    ensures ConflictNames([n], [a], radius) == {n.name}
  {
    assert [n][..0] == [] && [a][..0] == [];
    assert NearIds(n, [a], radius) == {a.id};
  }

  /** `filter_duplicates` of the radius script: keep, in order, the entries
      whose name was not flagged. */
  method FilterDuplicates(data: seq<Record<real>>, conflictingNames: set<string>)
    returns (filtered: seq<Record<real>>)
    ensures filtered == KeyFilter.Keep(data, NameOf, conflictingNames)
    ensures forall k :: 0 <= k < |filtered| ==> filtered[k].name !in conflictingNames
  {
    filtered := [];
    var i := 0;
    while i < |data|
      invariant 0 <= i <= |data|
      invariant filtered == KeyFilter.Keep(data[..i], NameOf, conflictingNames)
    {
      var entry := data[i];
      assert data[..i + 1][..i] == data[..i];
      if entry.name !in conflictingNames {
        filtered := filtered + [entry];
      }
      i := i + 1;
    }
    assert data[..i] == data;
    assert forall k :: 0 <= k < |filtered| ==> NameOf(filtered[k]) == filtered[k].name;
  }

  /** The records the radius script writes out. */
  function Deduplicated(data: seq<Record<real>>, alprs: seq<Alpr>, radius: real): (written: seq<Record<real>>)
  {
    KeyFilter.Keep(data, NameOf, ConflictNames(data, alprs, radius))
  }

  /** An entry is written out iff no record with the same name (itself
      included) lies within the radius of any node. */
  lemma KeptIff(data: seq<Record<real>>, alprs: seq<Alpr>, radius: real, e: Record<real>)
    ensures e in Deduplicated(data, alprs, radius) <==>
            e in data &&
            forall p, q :: 0 <= p < |data| && 0 <= q < |alprs| && data[p].name == e.name ==>
                           !Near(data[p], alprs[q], radius)
  {
    KeyFilter.KeepMembership(data, NameOf, ConflictNames(data, alprs, radius), e);
    ConflictNamesIff(data, alprs, radius, e.name);
  }

  /** Name collisions: an entry far from every node is still dropped when
      another entry with the same name is near a node. */
  lemma SharedNameIsDropped(data: seq<Record<real>>, alprs: seq<Alpr>, radius: real, e: Record<real>, p: nat, q: nat)
    requires p < |data| && q < |alprs|
    requires data[p].name == e.name && Near(data[p], alprs[q], radius)
    ensures e !in Deduplicated(data, alprs, radius)
  {
    KeptIff(data, alprs, radius, e);
  }

  /** Fail-open end to end: with no nodes the input is written out unchanged. */
  lemma FailOpenKeepsAll(data: seq<Record<real>>, radius: real)
    ensures Deduplicated(data, [], radius) == data
  {
    NoAlprsNoConflicts(data, radius);
    KeyFilter.KeepNothingFlagged(data, NameOf);
  }

  /** Filtering the output again with the same flagged names changes nothing. */
  lemma DeduplicatedIsStable(data: seq<Record<real>>, alprs: seq<Alpr>, radius: real)
    ensures KeyFilter.Keep(Deduplicated(data, alprs, radius), NameOf, ConflictNames(data, alprs, radius))
            == Deduplicated(data, alprs, radius)
  {
    KeyFilter.KeepIdempotent(data, NameOf, ConflictNames(data, alprs, radius));
  }

  /** A record 0.0002 degrees north of a node is not a duplicate at radius
      0.0001, and it is written out. */
  lemma FarNorthIsKept(f: Fields)
    ensures Deduplicated([Record(40.0, -74.0, "B", f)], [Alpr(2, 40.0002, -74.0)], 0.0001)
            == [Record(40.0, -74.0, "B", f)]
  {
    var r := Record(40.0, -74.0, "B", f);
    BoundaryIsNoConflict(r, Alpr(2, 40.0002, -74.0), 0.0001);
    KeyFilter.KeepNothingFlagged([r], NameOf);
  }
}
