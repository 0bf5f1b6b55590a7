/**
 * One run of `main` in `fetch_sensors.py`: walk the sensor pages, de-duplicate,
 * record the history files and build the sensor documents; then the same for
 * the drivers; then the combined document. The clock reading, the fetches and
 * the re-encoding repair are inputs.
 */
module Poll {
  import opened Extraction
  import opened Pagination
  import opened Dedup
  import opened History
  import opened Documents

  /** The documents one run writes. */
  datatype Outputs = Outputs(
    latest: Snapshot,
    sensorsManifest: Manifest,
    driversLatest: Snapshot,
    driversManifest: Manifest,
    latestAll: LatestAll)

  /** The history files after a run that found `sensors` and `drivers`. */
  function PollFiles(files: Files, sensors: seq<Reading>, drivers: seq<Reading>, timestamp: string): Files {
    Recorded(Recorded(files, sensors, timestamp, SensorPrefix), drivers, timestamp, DriverPrefix)
  }

  lemma WalkIdentifiers(fetches: seq<Fetch>, kind: char, repair: Repair)
    requires |fetches| == |Starts| && (kind == 'S' || kind == 'D')
    ensures AllIdentifiers(Walk(Starts, fetches, kind, repair))
  {
    WalkOfKind(Starts, fetches, kind, repair);
  }

  /** The pagination, de-duplication and history steps for one kind of record. */
  method Collect(store: HistoryStore, timestamp: string, fetches: seq<Fetch>, kind: char, prefix: string, repair: Repair)
    returns (records: seq<Reading>)
    requires |fetches| == |Starts| && (kind == 'S' || kind == 'D')
    modifies store
    ensures IsDedupOf(Walk(Starts, fetches, kind, repair), records)
    ensures store.files == Recorded(old(store.files), records, timestamp, prefix)
  {
    var found := Paginate(Starts, fetches, kind, repair);
    WalkIdentifiers(fetches, kind, repair);
    records := Deduplicate(found);
    store.RecordAll(records, timestamp, prefix);
  }

  /** `main`: sensors first, then drivers, then `latest_all.json`. */
  method RunPoll(store: HistoryStore, timestamp: string, sensorFetches: seq<Fetch>, driverFetches: seq<Fetch>, repair: Repair)
    returns (out: Outputs)
    requires |sensorFetches| == |Starts| && |driverFetches| == |Starts|
    modifies store
    ensures IsDedupOf(Walk(Starts, sensorFetches, 'S', repair), out.latest.readings)
    ensures IsDedupOf(Walk(Starts, driverFetches, 'D', repair), out.driversLatest.readings)
    ensures out.latest.timestamp == timestamp && out.driversLatest.timestamp == timestamp
    ensures out.sensorsManifest == ManifestOf(timestamp, out.latest.readings, SensorPrefix)
    ensures out.driversManifest == ManifestOf(timestamp, out.driversLatest.readings, DriverPrefix)
    ensures out.latestAll == BuildLatestAll(out.latest, out.driversLatest)
    ensures store.files == PollFiles(old(store.files), out.latest.readings, out.driversLatest.readings, timestamp)
  {
    var sensors := Collect(store, timestamp, sensorFetches, 'S', SensorPrefix, repair);
    var latestS := Snapshot(timestamp, sensors);
    var sensorsManifest := ManifestOf(timestamp, sensors, SensorPrefix);
    var drivers := Collect(store, timestamp, driverFetches, 'D', DriverPrefix, repair);
    var latestD := Snapshot(timestamp, drivers);
    var driversManifest := ManifestOf(timestamp, drivers, DriverPrefix);
    out := Outputs(latestS, sensorsManifest, latestD, driversManifest, BuildLatestAll(latestS, latestD));
  }

  /** After a run, the history file of every record it found ends with a line
      carrying the run's timestamp. */
  lemma PollStampsAllFiles(files: Files, sensors: seq<Reading>, drivers: seq<Reading>, timestamp: string, path: string)
    requires Touches(sensors, SensorPrefix, path) || Touches(drivers, DriverPrefix, path)
    ensures StampedWith(LogOf(PollFiles(files, sensors, drivers, timestamp), path), timestamp)
  {
    var mid := Recorded(files, sensors, timestamp, SensorPrefix);
    RecordedStamps(files, sensors, timestamp, SensorPrefix, path);
    RecordedStamps(mid, drivers, timestamp, DriverPrefix, path);
  }

  /** Running the history step of a poll twice with the same timestamp and the
      same records leaves every file as the first run left it. */
  lemma PollFilesIdempotent(files: Files, sensors: seq<Reading>, drivers: seq<Reading>, timestamp: string)
    ensures PollFiles(PollFiles(files, sensors, drivers, timestamp), sensors, drivers, timestamp)
            == PollFiles(files, sensors, drivers, timestamp)
  {
    var once := PollFiles(files, sensors, drivers, timestamp);
    forall i | 0 <= i < |sensors|
      ensures StampedWith(LogOf(once, HistoryFile(SensorPrefix, sensors[i].item)), timestamp)
    {
      PollStampsAllFiles(files, sensors, drivers, timestamp, HistoryFile(SensorPrefix, sensors[i].item));
    }
    RecordedNoop(once, sensors, timestamp, SensorPrefix);
    forall i | 0 <= i < |drivers|
      ensures StampedWith(LogOf(once, HistoryFile(DriverPrefix, drivers[i].item)), timestamp)
    {
      PollStampsAllFiles(files, sensors, drivers, timestamp, HistoryFile(DriverPrefix, drivers[i].item));
    }
    RecordedNoop(once, drivers, timestamp, DriverPrefix);
  }

  /** A second run within the same timestamp that fetches the same pages finds
      the same records (the de-duplication is unique), so it adds no history line. */
  lemma RepeatedPollAddsNothing(files: Files, timestamp: string, sensorFetches: seq<Fetch>, driverFetches: seq<Fetch>,
                                repair: Repair, first: Outputs, second: Outputs)
    requires |sensorFetches| == |Starts| && |driverFetches| == |Starts|
    requires IsDedupOf(Walk(Starts, sensorFetches, 'S', repair), first.latest.readings)
    requires IsDedupOf(Walk(Starts, driverFetches, 'D', repair), first.driversLatest.readings)
    requires IsDedupOf(Walk(Starts, sensorFetches, 'S', repair), second.latest.readings)
    requires IsDedupOf(Walk(Starts, driverFetches, 'D', repair), second.driversLatest.readings)
    ensures var once := PollFiles(files, first.latest.readings, first.driversLatest.readings, timestamp);
            PollFiles(once, second.latest.readings, second.driversLatest.readings, timestamp) == once
  {
    DedupUnique(Walk(Starts, sensorFetches, 'S', repair), first.latest.readings, second.latest.readings);
    DedupUnique(Walk(Starts, driverFetches, 'D', repair), first.driversLatest.readings, second.driversLatest.readings);
    PollFilesIdempotent(files, first.latest.readings, first.driversLatest.readings, timestamp);
  }

  /** Every file a manifest lists ends, after the run, with the run's timestamp. */
  lemma ManifestFilesStamped(files: Files, sensors: seq<Reading>, drivers: seq<Reading>, timestamp: string, e: ManifestEntry)
    requires e in ManifestOf(timestamp, sensors, SensorPrefix).files || e in ManifestOf(timestamp, drivers, DriverPrefix).files
    ensures StampedWith(LogOf(PollFiles(files, sensors, drivers, timestamp), e.file), timestamp)
  {
    if e in ManifestOf(timestamp, sensors, SensorPrefix).files {
      var i :| 0 <= i < |sensors| && ManifestOf(timestamp, sensors, SensorPrefix).files[i] == e;
      ManifestNamesRecordedFiles(timestamp, sensors, SensorPrefix, e.file);
    } else {
      var i :| 0 <= i < |drivers| && ManifestOf(timestamp, drivers, DriverPrefix).files[i] == e;
      ManifestNamesRecordedFiles(timestamp, drivers, DriverPrefix, e.file);
    }
    PollStampsAllFiles(files, sensors, drivers, timestamp, e.file);
  }
}
