/**
 * The JSON documents `fetch_sensors.py` writes, as values: the snapshots
 * `latest.json` and `drivers_latest.json`, the manifests listing the history
 * file of every identifier, and the combined `latest_all.json` built by
 * `build_latest_all`. Serialisation is not modelled.
 */
module Documents {
  import opened Extraction
  import opened Pagination
  import opened History

  /** `{"timestamp_utc": ..., "sensors"/"drivers": [...]}`. */
  datatype Snapshot = Snapshot(timestamp: string, readings: seq<Reading>)

  /** One entry of a manifest's `files` list. */
  datatype ManifestEntry = ManifestEntry(item: string, labelText: string, units: string, file: string)

  datatype Manifest = Manifest(timestamp: string, files: seq<ManifestEntry>)

  /** `latest_all.json`. */
  datatype LatestAll = LatestAll(timestamp: string, sensors: seq<Reading>, drivers: seq<Reading>, items: seq<Reading>)

  function Entry(r: Reading, prefix: string): ManifestEntry {
    ManifestEntry(r.item, r.labelText, r.units, HistoryFile(prefix, r.item))
  }

  /** The manifest comprehension of `main`: one entry per record, in order,
      naming the record's history file. */
  function ManifestOf(timestamp: string, readings: seq<Reading>, prefix: string): (m: Manifest)
    ensures m.timestamp == timestamp && |m.files| == |readings|
    ensures forall i :: 0 <= i < |readings| ==>
              m.files[i].item == readings[i].item && m.files[i].labelText == readings[i].labelText
              && m.files[i].units == readings[i].units
              && m.files[i].file == HistoryFile(prefix, readings[i].item)
  {
    Manifest(timestamp, seq(|readings|, i requires 0 <= i < |readings| => Entry(readings[i], prefix)))
  }

  /** The manifest names exactly the history files the recording loop writes. */
  lemma ManifestNamesRecordedFiles(timestamp: string, readings: seq<Reading>, prefix: string, path: string)
    ensures Touches(readings, prefix, path) <==>
            exists i :: 0 <= i < |readings| && ManifestOf(timestamp, readings, prefix).files[i].file == path
  {
    var m := ManifestOf(timestamp, readings, prefix);
    if Touches(readings, prefix, path) {
      var i :| 0 <= i < |readings| && HistoryFile(prefix, readings[i].item) == path;
      assert m.files[i].file == path;
    }
    if exists i :: 0 <= i < |readings| && m.files[i].file == path {
      var i :| 0 <= i < |readings| && m.files[i].file == path;
      assert HistoryFile(prefix, readings[i].item) == path;
    }
  }

  /** With one record per identifier, no two manifest entries share a file. */
  lemma ManifestFilesDistinct(timestamp: string, readings: seq<Reading>, prefix: string)
    requires forall a, b :: 0 <= a < b < |readings| ==> readings[a].item != readings[b].item
    ensures var m := ManifestOf(timestamp, readings, prefix);
            forall a, b :: 0 <= a < b < |m.files| ==> m.files[a].file != m.files[b].file
  {
    var m := ManifestOf(timestamp, readings, prefix);
    forall a, b | 0 <= a < b < |m.files| ensures m.files[a].file != m.files[b].file {
      if m.files[a].file == m.files[b].file {
        HistoryFileInjective(prefix, readings[a].item, readings[b].item);
      }
    }
  }

  /** `build_latest_all`: the sensors' timestamp unless it is empty, then the
      drivers'; `items` lists the sensors and then the drivers. Every record
      carries the four keys, so the per-driver projection is the record itself. */
  function BuildLatestAll(latestS: Snapshot, latestD: Snapshot): (r: LatestAll)
    ensures latestS.timestamp != "" ==> r.timestamp == latestS.timestamp
    ensures latestS.timestamp == "" ==> r.timestamp == latestD.timestamp
    ensures r.sensors == latestS.readings && r.drivers == latestD.readings
    ensures |r.items| == |latestS.readings| + |latestD.readings|
    ensures r.items[..|latestS.readings|] == latestS.readings
    ensures r.items[|latestS.readings|..] == latestD.readings
  {
    var drvItems := seq(|latestD.readings|, i requires 0 <= i < |latestD.readings| =>
      var d := latestD.readings[i];
      Reading(d.item, d.labelText, d.value, d.units));
    assert drvItems == latestD.readings;
    LatestAll(if latestS.timestamp != "" then latestS.timestamp else latestD.timestamp,
              latestS.readings, latestD.readings, latestS.readings + drvItems)
  }

  /** The sensors and the drivers can be recovered from `items` by their
      identifiers' kind, so the combined document loses nothing. */
  lemma LatestAllSplits(latestS: Snapshot, latestD: Snapshot)
    requires forall i :: 0 <= i < |latestS.readings| ==> IsIdentOf('S', latestS.readings[i].item)
    requires forall i :: 0 <= i < |latestD.readings| ==> IsIdentOf('D', latestD.readings[i].item)
    ensures OfKind(BuildLatestAll(latestS, latestD).items, 'S') == latestS.readings
    ensures OfKind(BuildLatestAll(latestS, latestD).items, 'D') == latestD.readings
  {
    var s, d := latestS.readings, latestD.readings;
    var items := BuildLatestAll(latestS, latestD).items;
    assert items == s + d;
    OfKindConcat(s, d, 'S');
    OfKindConcat(s, d, 'D');
    OfKindAll(s, 'S');
    OfKindAll(d, 'D');
    OfKindNone(s, 'D');
    OfKindNone(d, 'S');
  }
}
