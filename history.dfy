/**
 * The per-identifier history files of `fetch_sensors.py`: `append_history`
 * adds a line `timestamp;value` to a file unless the file's last line already
 * carries that timestamp, and `main` calls it once per de-duplicated record.
 *
 * A file is modelled as the sequence of its lines, the data directory as a
 * map from file name to lines; a missing file and an empty file both read as
 * no lines.
 */
module History {
  import opened Text
  import opened Extraction

  /** The line written for one reading (without its newline). */
  function Line(timestamp: string, value: string): string {
    timestamp + ";" + value
  }

  /** `last.startswith(timestamp + ";")` on the file's last line. */
  predicate StampedWith(log: seq<string>, timestamp: string) {
    log != [] && StartsWith(log[|log| - 1], timestamp + ";")
  }

  /** The lines of the file after `append_history(path, timestamp, value)`. */
  function Appended(log: seq<string>, timestamp: string, value: string): (r: seq<string>)
    ensures |log| <= |r| <= |log| + 1 && r[..|log|] == log
    ensures StampedWith(r, timestamp)
    ensures StampedWith(log, timestamp) <==> r == log
    ensures r != log ==> r[|log|] == Line(timestamp, value)
  {
    if StampedWith(log, timestamp) then log
    else
      assert (log + [Line(timestamp, value)])[|log|] == Line(timestamp, value);
      assert Line(timestamp, value)[..|timestamp + ";"|] == timestamp + ";";
      log + [Line(timestamp, value)]
  }

  /** A second append with the same timestamp adds nothing, whatever its value. */
  lemma AppendedIdempotent(log: seq<string>, timestamp: string, v1: string, v2: string)
    ensures Appended(Appended(log, timestamp, v1), timestamp, v2) == Appended(log, timestamp, v1)
  {
  }

  /** The file name `main` uses for an identifier: `S9.txt` for sensors
      (prefix `""`), `drv_D9.txt` for drivers (prefix `"drv_"`). */
  function HistoryFile(prefix: string, item: string): string {
    prefix + item + ".txt"
  }

  const SensorPrefix: string := ""
  const DriverPrefix: string := "drv_"

  /** Distinct identifiers write to distinct files. */
  lemma HistoryFileInjective(prefix: string, a: string, b: string)
    requires HistoryFile(prefix, a) == HistoryFile(prefix, b)
    ensures a == b
  {
    var fa, fb := HistoryFile(prefix, a), HistoryFile(prefix, b);
    assert |a| == |b|;
    assert a == fa[|prefix|..|prefix| + |a|];
    assert b == fb[|prefix|..|prefix| + |b|];
  }

  /** A sensor's file and a driver's file never coincide. */
  lemma SensorAndDriverFilesDiffer(a: string, b: string)
    requires IsIdentOf('S', a) && IsIdentOf('D', b)
    ensures HistoryFile(SensorPrefix, a) != HistoryFile(DriverPrefix, b)
  {
    assert HistoryFile(SensorPrefix, a)[0] == 'S';
    assert HistoryFile(DriverPrefix, b)[0] == 'd';
  }

  /** Two timestamps without `;` stamp the same line only if they are equal. */
  lemma StampsDistinguish(line: string, t1: string, t2: string)
    requires ';' !in t1 && ';' !in t2
    requires StartsWith(line, t1 + ";") && StartsWith(line, t2 + ";")
    ensures t1 == t2
  {
    assert line[|t1|] == ';' && line[|t2|] == ';';
    assert forall k :: 0 <= k < |t1| ==> line[k] == t1[k];
    assert forall k :: 0 <= k < |t2| ==> line[k] == t2[k];
    assert |t1| == |t2|;
    assert t1 == line[..|t1|] && t2 == line[..|t2|];
  }

  /** Successive polls with different timestamps (as produced by a clock, so
      free of `;`) each add exactly one line. */
  lemma NewTimestampAddsLine(log: seq<string>, t1: string, v1: string, t2: string, v2: string)
    requires ';' !in t1 && ';' !in t2 && t1 != t2
    ensures Appended(Appended(log, t1, v1), t2, v2) == Appended(log, t1, v1) + [Line(t2, v2)]
  {
    var l1 := Appended(log, t1, v1);
    if StampedWith(l1, t2) {
      StampsDistinguish(l1[|l1| - 1], t1, t2);
    }
  }

  /** The data directory: file name to lines. */
  type Files = map<string, seq<string>>

  function LogOf(files: Files, path: string): seq<string> {
    if path in files then files[path] else []
  }

  /** The data directory after `for s in readings: append_history(<file of s>, ts, s["value"])`. */
  function Recorded(files: Files, readings: seq<Reading>, timestamp: string, prefix: string): Files {
    if readings == [] then files
    else
      var before := Recorded(files, readings[..|readings| - 1], timestamp, prefix);
      var r := readings[|readings| - 1];
      var path := HistoryFile(prefix, r.item);
      before[path := Appended(LogOf(before, path), timestamp, r.value)]
  }

  /** One more reading changes its own file and no other. */
  lemma RecordedLast(files: Files, readings: seq<Reading>, timestamp: string, prefix: string, path: string)
    requires readings != []
    ensures var n := |readings| - 1;
            var before := LogOf(Recorded(files, readings[..n], timestamp, prefix), path);
            LogOf(Recorded(files, readings, timestamp, prefix), path) ==
              if HistoryFile(prefix, readings[n].item) == path then Appended(before, timestamp, readings[n].value) else before
  {
  }

  /** The files recording touches. */
  predicate Touches(readings: seq<Reading>, prefix: string, path: string) {
    exists i :: 0 <= i < |readings| && HistoryFile(prefix, readings[i].item) == path
  }

  /** Recording leaves every other file as it was, keeps every file stamped with
      `timestamp` stamped, and stamps every file it touches. */
  lemma {:induction false} RecordedStamps(files: Files, readings: seq<Reading>, timestamp: string, prefix: string, path: string)
    ensures !Touches(readings, prefix, path) ==> LogOf(Recorded(files, readings, timestamp, prefix), path) == LogOf(files, path)
    ensures StampedWith(LogOf(files, path), timestamp) ==> LogOf(Recorded(files, readings, timestamp, prefix), path) == LogOf(files, path)
    ensures Touches(readings, prefix, path) ==> StampedWith(LogOf(Recorded(files, readings, timestamp, prefix), path), timestamp)
  {
    if readings != [] {
      var n := |readings| - 1;
      RecordedStamps(files, readings[..n], timestamp, prefix, path);
      RecordedLast(files, readings, timestamp, prefix, path);
      if Touches(readings, prefix, path) && HistoryFile(prefix, readings[n].item) != path {
        var i :| 0 <= i < |readings| && HistoryFile(prefix, readings[i].item) == path;
        assert readings[..n][i] == readings[i];
      }
      if Touches(readings[..n], prefix, path) {
        var i :| 0 <= i < n && HistoryFile(prefix, readings[..n][i].item) == path;
        assert readings[i] == readings[..n][i];
      }
    }
  }

  /** Recording a whole poll a second time with the same timestamp changes no file. */
  lemma {:induction false} RecordedIdempotent(files: Files, readings: seq<Reading>, timestamp: string, prefix: string)
    ensures Recorded(Recorded(files, readings, timestamp, prefix), readings, timestamp, prefix) == Recorded(files, readings, timestamp, prefix)
  {
    var once := Recorded(files, readings, timestamp, prefix);
    forall i | 0 <= i < |readings| ensures StampedWith(LogOf(once, HistoryFile(prefix, readings[i].item)), timestamp) {
      RecordedStamps(files, readings, timestamp, prefix, HistoryFile(prefix, readings[i].item));
    }
    RecordedNoop(once, readings, timestamp, prefix);
  }

  /** Recording changes nothing when every file it would touch is already stamped. */
  lemma {:induction false} RecordedNoop(files: Files, readings: seq<Reading>, timestamp: string, prefix: string)
    requires forall i :: 0 <= i < |readings| ==> StampedWith(LogOf(files, HistoryFile(prefix, readings[i].item)), timestamp)
    ensures Recorded(files, readings, timestamp, prefix) == files
  {
    if readings != [] {
      var n := |readings| - 1;
      RecordedNoop(files, readings[..n], timestamp, prefix);
      var path := HistoryFile(prefix, readings[n].item);
      assert StampedWith(LogOf(files, path), timestamp);
      assert path in files;
    }
  }

  /** With one reading per identifier, each reading's file gains exactly its
      own `timestamp;value` line, unless already stamped. */
  lemma {:induction false} RecordedValues(files: Files, readings: seq<Reading>, timestamp: string, prefix: string, j: nat)
    requires forall a, b :: 0 <= a < b < |readings| ==> readings[a].item != readings[b].item
    requires j < |readings|
    ensures LogOf(Recorded(files, readings, timestamp, prefix), HistoryFile(prefix, readings[j].item))
            == Appended(LogOf(files, HistoryFile(prefix, readings[j].item)), timestamp, readings[j].value)
  {
    var n := |readings| - 1;
    var path := HistoryFile(prefix, readings[j].item);
    RecordedLast(files, readings, timestamp, prefix, path);
    if j == n {
      RecordedStamps(files, readings[..n], timestamp, prefix, path);
      if Touches(readings[..n], prefix, path) {
        var i :| 0 <= i < n && HistoryFile(prefix, readings[..n][i].item) == path;
        HistoryFileInjective(prefix, readings[i].item, readings[j].item);
      }
    } else {
      assert readings[..n][j] == readings[j];
      RecordedValues(files, readings[..n], timestamp, prefix, j);
      if HistoryFile(prefix, readings[n].item) == path {
        HistoryFileInjective(prefix, readings[n].item, readings[j].item);
      }
    }
  }

  /** The data directory, whose files `append_history` extends in place. */
  class HistoryStore {
    var files: Files

    constructor (initial: Files)
      ensures files == initial
    {
      files := initial;
    }

    function Log(path: string): seq<string>
      reads this
    {
      LogOf(files, path)
    }

    /** `append_history(path, timestamp, value)`: read the last line (none
        when the file is missing or empty), and append `timestamp;value`
        unless that line starts with `timestamp;`. */
    method AppendHistory(path: string, timestamp: string, value: string)
      modifies this
      ensures files == old(files)[path := Appended(old(Log(path)), timestamp, value)]
    {
      var log := Log(path);
      if log != [] && StartsWith(log[|log| - 1], timestamp + ";") {
        assert path in files && files[path := log] == files;
        return;
      }
      files := files[path := log + [Line(timestamp, value)]];
    }

    /** The history loop of `main`: one `append_history` per reading, in order. */
    method RecordAll(readings: seq<Reading>, timestamp: string, prefix: string)
      modifies this
      ensures files == Recorded(old(files), readings, timestamp, prefix)
    {
      ghost var initial := files;
      for i := 0 to |readings|
        invariant files == Recorded(initial, readings[..i], timestamp, prefix)
      {
        assert readings[..i + 1][..i] == readings[..i];
        AppendHistory(HistoryFile(prefix, readings[i].item), timestamp, readings[i].value);
      }
      assert readings[..|readings|] == readings;
    }
  }
}
