# Deduplicating Bluetooth scan records against OpenStreetMap ALPR nodes

The repository holds three small scripts. Each one reads a log of Bluetooth
scan records, fetches the automated licence-plate-reader (ALPR) nodes that
OpenStreetMap already knows from the Overpass API, drops the records that
duplicate a known node, and writes the rest back out. This project models the
in-memory part of that pipeline and proves what it computes:

- `Records`: the 21-column scan record. The coordinate type is a parameter.
  `trilat`, `trilong` and `name` are explicit, and the other eighteen columns
  are carried unchanged in `Fields`.
- `KeyFilter`: the order-preserving filter that all three `filter_duplicates`
  functions perform. It keeps each entry whose identity key is not flagged.
  `Keep` is its reference definition. Lemmas prove that the result is a
  subsequence of the input, that it keeps every occurrence of each unflagged
  record and none of a flagged one, that filtering twice equals filtering
  once, and that nothing flagged means nothing removed.
- `Radius` (`radius/radius.py`): the bounding-box fold, the nested loop that
  flags (record, node) pairs closer than `radius` on both axes, and the filter
  that drops flagged names.
- `ExactMatch`: the coordinate-keyed `filter_duplicates` that
  `lessdecimals.py:59-65` and `other/rmvdup.py:54-60` share word for word. It is generic
  in the coordinate type.
- `LessDecimals` (`lessdecimals.py`): rounding to five decimals at parse time,
  on both the records and the nodes, composed with `ExactMatch` on `int`
  coordinates.
- `RmvDup` (`other/rmvdup.py`): `ExactMatch` on unrounded `real` coordinates,
  and how its output relates to the rounding variant's.

The loops of `get_bounding_box_for_nodes`, `detect_duplicates` and the three
`filter_duplicates` are methods with `while` loops. Each method is proved
equal to a specification function defined on the prefix it has visited. The
properties are lemmas about those functions. The rounding done by the reader
and the response parser of `lessdecimals.py` is applied element by element as
sequence comprehensions (`LessDecimals.ReadRounded`,
`LessDecimals.ParseRounded`). The composition each `main` performs (read,
detect or fetch, filter) is `Radius.Deduplicated` (`radius/radius.py:157-160`),
`LessDecimals.Deduplicated` (`lessdecimals.py:86-88`) and
`RmvDup.Deduplicated` (`other/rmvdup.py:81-83`).

Modelling choices:

- Coordinates are exact `real`s. A rounded coordinate of `lessdecimals.py` is
  an `int` count of 1e-5 degrees. Python's `round(x, 5)` is modelled as
  rounding the exact value to the nearest unit, with ties to the even unit.
- The Overpass response is a parameter. For the radius script it is `alprs`.
  For the two exact-match scripts it is the node pair list. The radius script
  catches request errors and returns an empty list (`radius/radius.py:76-80`),
  so a failed request is the case `alprs == []`.
- In the radius script, a record is not dropped because a node is near it.
  The code collects the names of such records and drops every record carrying
  one of those names (`radius/radius.py:107`, `:123`). `Radius.KeptIff` and
  `Radius.SharedNameIsDropped` state the consequence.

## Model

| member | source | states |
|---|---|---|
| `KeyFilter.Keep` | radius/radius.py:120-125 | the filtered list is no longer than the input and no kept entry has a flagged key |
| `KeyFilter.KeepEmbeds` | radius/radius.py:121-124 | the kept positions strictly increase, and each output entry is the unchanged input entry at its position whose key is unflagged |
| `KeyFilter.KeepIsSubsequence` | radius/radius.py:121-124 | the output is a subsequence of the input |
| `KeyFilter.KeepCount` | radius/radius.py:122-124 | every value with an unflagged key keeps all of its occurrences, and every value with a flagged key loses all of them |
| `KeyFilter.KeepMembership` | radius/radius.py:123 | a value is in the output iff it is in the input and its key is not flagged |
| `KeyFilter.KeepUnflagged` | radius/radius.py:120-125 | when no input entry has a flagged key, the output is the input |
| `KeyFilter.KeepNothingFlagged` | radius/radius.py:120-125 | with an empty flagged set, the output is the input |
| `KeyFilter.KeepIdempotent` | radius/radius.py:120-125 | filtering the output again with the same keys changes nothing |
| `Radius.Min` | radius/radius.py:60 | the minimum is at most both arguments and is one of them |
| `Radius.Max` | radius/radius.py:61 | the maximum is at least both arguments and is one of them |
| `Radius.GetBoundingBox` | radius/radius.py:53-65 | the box is the fold over the records in order, in the order (min_lat, min_lon, max_lat, max_lon); every record lies inside it; an empty list gives the sentinel box (90, 180, -90, -180) |
| `Radius.BoxAttained` | radius/radius.py:59-63 | for a non-empty list of valid coordinates, each of the four bounds is the coordinate of some record |
| `Radius.NearIdsIff` | radius/radius.py:101-106 | an id is collected for a record iff some node with that id is strictly within the radius on both axes |
| `Radius.ConflictIdsIff` | radius/radius.py:100-106 | an id is flagged iff its node is strictly within the radius of some record on both axes |
| `Radius.ConflictNamesIff` | radius/radius.py:100-107 | a name is flagged iff some record with that name is strictly within the radius of some node on both axes |
| `Radius.DetectDuplicates` | radius/radius.py:93-117 | the nested loop returns exactly the flagged ids and flagged names, stated both as the prefix specifications and as the two if-and-only-if characterisations |
| `Radius.NoAlprsNoConflicts` | radius/radius.py:94-107 | with an empty node list, which is what a failed request returns, both conflict sets are empty |
| `Radius.BoundaryIsNoConflict` | radius/radius.py:102-105 | a node at exactly the radius, or farther, on either axis flags nothing |
| `Radius.InsideIsConflict` | radius/radius.py:102-107 | a node strictly inside the radius on both axes flags its id and the record's name |
| `Radius.FilterDuplicates` | radius/radius.py:120-125 | the loop returns exactly the entries, in input order, whose name is not flagged |
| `Radius.KeptIff` | radius/radius.py:100-125 | an entry is written out iff it is an input entry and no record with its name is near any node |
| `Radius.SharedNameIsDropped` | radius/radius.py:107-123 | an entry is dropped when another record with the same name is near a node, even if the entry itself is far from every node |
| `Radius.FailOpenKeepsAll` | radius/radius.py:76-80 | when the request fails and yields no nodes, the whole input is written out unchanged |
| `Radius.DeduplicatedIsStable` | radius/radius.py:120-125 | filtering the written records again with the same flagged names changes nothing |
| `Radius.FarNorthIsKept` | radius/radius.py:102-105 | a record 0.0002 degrees from a node is kept at radius 0.0001 |
| `LessDecimals.Round5` | lessdecimals.py:12-13 | the rounded value is within half a unit of 1e-5 degrees of the input, and on a tie it is the even unit |
| `LessDecimals.Round5OnGrid` | lessdecimals.py:53-54 | a coordinate that already has five decimals rounds to itself |
| `LessDecimals.RoundRecord` | lessdecimals.py:11-33 | the reader rounds both coordinates to within half a unit and keeps the name and the other columns unchanged |
| `LessDecimals.RoundedKeptIff` | lessdecimals.py:10-34 | a raw row is written out, rounded, iff its rounded pair differs from the rounded pair of every raw node |
| `LessDecimals.RawNodeOrderIrrelevant` | lessdecimals.py:51-56 | reordering or repeating the nodes of the response leaves the written records unchanged |
| `LessDecimals.RoundedMatchIsDropped` | lessdecimals.py:53-55 | a raw row whose coordinates round to those of some raw node is dropped, whatever its other columns |
| `LessDecimals.SamePositionLeavesNothing` | lessdecimals.py:59-65 | a single record at a node's position is removed and the output is empty |
| `ExactMatch.FilterDuplicates` | lessdecimals.py:59-65 | the loop returns exactly the entries, in input order, whose coordinate pair is not in the node set, and no kept pair is a node |
| `ExactMatch.NovelIff` | other/rmvdup.py:57-59 | an entry is written out iff it is an input entry whose pair is not a node, so no entry with an absent pair is dropped |
| `ExactMatch.NodeOrderIrrelevant` | other/rmvdup.py:56 | two node lists with the same members give the same output, whatever their order and repetitions |
| `ExactMatch.NoNodesKeepsAll` | lessdecimals.py:59-65 | with no nodes the output is the input |
| `ExactMatch.NovelIdempotent` | other/rmvdup.py:54-60 | filtering twice against the same nodes equals filtering once |
| `RmvDup.RoundingDropsMore` | other/rmvdup.py:48-58 | every row that the rounding script keeps is also kept by the unrounded script |
| `RmvDup.ExactVersusRounded` | other/rmvdup.py:48-49 | a record 1e-6 degrees from a node survives the unrounded filter, and the rounding script drops it |

## Left out

- CSV reading and writing (`read_bluetooth_csv`, `save_filtered_data` in all three scripts) is file I/O through the `csv` library. That includes `float()`/`int()` parsing and its failures. The model starts from parsed records and ends at the filtered sequence.
- The HTTP requests and response parsing (`overpass_request`, `get_alprs_in_bounding_box`, `fetch_overpass_data`) are network calls plus JSON/XML decoding, and `lessdecimals.py` also saves the response to a file. Their result is taken as an input list. The model therefore does not require the nodes to lie inside the bounding box that was sent.
- `get_overpass_turbo_link` is URL templating through `urllib.parse.quote`, a foreign library.
- The console report, the `input()` prompt and `webbrowser.open` in `detect_duplicates` are user-interface side effects.
- Argument parsing and the hard-coded configuration in each `main` (file names, bounding-box literals, the default radius) are left out. The composition `main` performs is modelled, by the three `Deduplicated` functions; only the final `save_filtered_data` call is not.
- IEEE floating point is left out. The model does not cover the binary representation of decimal coordinates, the rounding error of the subtraction inside `abs(...)`, or NaN.
- LessDecimals.Round5: does not model that CPython rounds the nearest binary double rather than the decimal text, so a tie in decimal may round differently there.
