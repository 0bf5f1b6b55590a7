/**
 * The extraction half of `fetch_sensors.py`: the cell-text cleaner
 * (`safe_text`), the keyword scorer that picks the data table of a page and
 * the row extractor (`parse_table_rows`).
 *
 * The HTML parser is not modelled: a page is the sequence of its tables, a
 * table carries the text its parser would report plus its rows, and a row is
 * the raw text of its `td`/`th` cells.
 */
module Extraction {
  import opened Wrappers
  import opened Text

  /** One telemetry record, as the scraper emits it. */
  datatype Reading = Reading(item: string, labelText: string, value: string, units: string)

  type Row = seq<string>

  /** `text` is the table's whole text as the parser reports it; `rows` its `tr` rows. */
  datatype Table = Table(text: string, rows: seq<Row>)

  /** The latin1-to-utf-8 re-decoding of `safe_text` is not modelled; it is this parameter. */
  type Repair = string -> string

  // ---------------------------------------------------------------------------
  // Identifiers
  // ---------------------------------------------------------------------------

  /** `re.match(r"^<kind>\d+$", s)` with ASCII digits. */
  predicate IsIdentOf(kind: char, s: string) {
    |s| >= 2 && s[0] == kind && AllDigits(s[1..])
  }

  /** `re.match(r"^(S\d+|D\d+)$", s)`. */
  predicate IsIdentifier(s: string) {
    IsIdentOf('S', s) || IsIdentOf('D', s)
  }

  /** `int(item[1:])`, the sort key of an identifier. */
  function Ordinal(item: string): nat
    requires IsIdentifier(item)
  {
    DecimalValue(item[1..])
  }

  // ---------------------------------------------------------------------------
  // safe_text
  // ---------------------------------------------------------------------------

  function Max(a: int, b: int): int {
    if a < b then b else a
  }

  /** The acceptance rule for a re-decoded string `s2` of the cleaned text `s`. */
  predicate RepairAccepted(s: string, s2: string) {
    s2 != [] && 'Â' !in s2 && |s2| >= Max(1, |s| / 2)
  }

  /** `safe_text`: `None` gives the empty string; otherwise the cleaned text,
      or its re-decoding when that is accepted. Total: it never fails. */
  function SafeText(x: Option<string>, repair: Repair): string {
    match x
    case None => []
    case Some(raw) =>
      var s := Clean(raw);
      var s2 := repair(s);
      if RepairAccepted(s, s2) then s2 else s
  }

  /** The result is the cleaned text unless the re-decoding is accepted; an
      accepted re-decoding is non-empty, free of 'Â' and at least half as long. */
  lemma SafeTextSpec(x: Option<string>, repair: Repair)
    ensures x.None? ==> SafeText(x, repair) == []
    ensures x.Some? ==> SafeText(x, repair) == Clean(x.value) || SafeText(x, repair) == repair(Clean(x.value))
    ensures x.Some? && SafeText(x, repair) != Clean(x.value) ==>
              var r := SafeText(x, repair);
              r != [] && 'Â' !in r && 2 * |r| + 1 >= |Clean(x.value)|
    ensures x.Some? && RepairAccepted(Clean(x.value), repair(Clean(x.value))) ==> SafeText(x, repair) == repair(Clean(x.value))
  {
  }

  /** The cleaner never turns text that has visible characters into an empty string. */
  lemma SafeTextKeepsContent(raw: string, repair: Repair)
    requires Visible(raw) != []
    ensures SafeText(Some(raw), repair) != []
  {
    CleanEmptyIffBlank(raw);
  }

  /** When the re-decoding is refused, the result is the whitespace-normalised text. */
  lemma SafeTextRejected(raw: string, repair: Repair)
    requires !RepairAccepted(Clean(raw), repair(Clean(raw)))
    ensures Normalized(SafeText(Some(raw), repair))
    ensures Visible(SafeText(Some(raw), repair)) == Visible(raw)
  {
  }

  /** The text of a single cell, as `safe_text(td.get_text(...))` gives it. */
  function Cell(row: Row, i: nat, repair: Repair): string
    requires i < |row|
  {
    SafeText(Some(row[i]), repair)
  }

  // ---------------------------------------------------------------------------
  // Table scoring and choice
  // ---------------------------------------------------------------------------

  function KeywordPoints(txt: string, kw: string): (r: nat)
    ensures r == 0 || r == 2
  {
    if Contains(txt, kw) then 2 else 0
  }

  /** 2 for each of "item", "label", "value", "units" found in `txt`. */
  function KeywordScore(txt: string): (r: nat)
    ensures r <= 8
  {
    KeywordPoints(txt, "item") + KeywordPoints(txt, "label") + KeywordPoints(txt, "value")
      + KeywordPoints(txt, "units")
  }

  /** The score of a table: the keyword points of its lower-cased cleaned
      text, plus one point per five rows. */
  function Score(t: Table, repair: Repair): (r: nat)
    ensures |t.rows| / 5 <= r <= 8 + |t.rows| / 5
  {
    KeywordScore(Lower(SafeText(Some(t.text), repair))) + |t.rows| / 5
  }

  function Scores(tables: seq<Table>, repair: Repair): (r: seq<nat>)
    ensures |r| == |tables|
    ensures forall i :: 0 <= i < |tables| ==> r[i] == Score(tables[i], repair)
  {
    seq(|tables|, i requires 0 <= i < |tables| => Score(tables[i], repair))
  }

  /** What the scan chooses: nothing when every score is 0 (or there are no
      tables); otherwise the FIRST index of maximal, positive score. */
  predicate IsFirstBest(scores: seq<nat>, choice: Option<nat>) {
    match choice
    case None => forall i :: 0 <= i < |scores| ==> scores[i] == 0
    case Some(b) =>
      && b < |scores|
      && scores[b] > 0
      && (forall i :: 0 <= i < |scores| ==> scores[i] <= scores[b])
      && (forall i :: 0 <= i < b ==> scores[i] < scores[b])
  }

  /** One step of the scan: looking at index `k` keeps the rule true. */
  lemma FirstBestStep(scores: seq<nat>, k: nat, best: Option<nat>)
    requires k < |scores| && IsFirstBest(scores[..k], best)
    ensures var b := if best.Some? then scores[best.value] else 0;
            IsFirstBest(scores[..k + 1], if scores[k] > b then Some(k) else best)
  {
    var pre, cur := scores[..k], scores[..k + 1];
    assert forall i :: 0 <= i < k ==> cur[i] == pre[i];
    assert cur[k] == scores[k];
  }

  /** The table the strict `>` scan keeps, computed from the front of the list. */
  function Choose(scores: seq<nat>): (r: Option<nat>)
    ensures IsFirstBest(scores, r)
  {
    if scores == [] then None
    else
      var n := |scores| - 1;
      var prev := Choose(scores[..n]);
      var best := if prev.Some? then scores[prev.value] else 0;
      FirstBestStep(scores, n, prev);
      assert scores[..n + 1] == scores;
      if scores[n] > best then Some(n) else prev
  }

  /** At most one choice satisfies the rule, so the scan's result is determined by the scores. */
  lemma FirstBestUnique(scores: seq<nat>, c1: Option<nat>, c2: Option<nat>)
    requires IsFirstBest(scores, c1) && IsFirstBest(scores, c2)
    ensures c1 == c2
  {
    if c1.Some? && c2.Some? {
      assert scores[c1.value] == scores[c2.value];
    }
  }

  // ---------------------------------------------------------------------------
  // Row extraction
  // ---------------------------------------------------------------------------

  /** `f` applied to each element, in order. */
  function MapSeq<A, B>(f: A -> B, xs: seq<A>): (r: seq<B>)
    ensures |r| == |xs|
    ensures forall j :: 0 <= j < |xs| ==> r[j] == f(xs[j])
  {
    seq(|xs|, j requires 0 <= j < |xs| => f(xs[j]))
  }

  lemma MapSeqConcat<A, B>(f: A -> B, a: seq<A>, b: seq<A>)
    ensures MapSeq(f, a + b) == MapSeq(f, a) + MapSeq(f, b)
  {
    var ab, ra, rb := MapSeq(f, a + b), MapSeq(f, a), MapSeq(f, b);
    forall j | 0 <= j < |a + b| ensures ab[j] == (ra + rb)[j] {
      if j < |a| {
        assert (a + b)[j] == a[j];
      } else {
        assert (a + b)[j] == b[j - |a|];
      }
    }
  }

  function CellOf(repair: Repair): string -> string {
    x => SafeText(Some(x), repair)
  }

  /** `cols`: every cell of the row through `safe_text`. */
  function Cols(row: Row, repair: Repair): (r: seq<string>)
    ensures |r| == |row|
    ensures forall i :: 0 <= i < |row| ==> r[i] == Cell(row, i, repair)
  {
    MapSeq(CellOf(repair), row)
  }

  /** The record the cleaned cells give: none unless the first is an identifier;
      label, value and units from the next three, units empty when missing. */
  function RecordOfCols(cols: seq<string>): Option<Reading>
    requires |cols| >= 3
  {
    if !IsIdentifier(cols[0]) then None
    else
      var units := if |cols| >= 4 then cols[3] else "";
      Some(Reading(cols[0], cols[1], cols[2], units))
  }

  /** The record a row contributes, if any: rows of fewer than three cells are skipped. */
  function RowRecord(row: Row, repair: Repair): (r: Option<Reading>)
    ensures |row| < 3 ==> r.None?
    ensures r.Some? ==> IsIdentifier(r.value.item) && r.value.item == Cell(row, 0, repair)
    ensures |row| >= 3 && IsIdentifier(Cell(row, 0, repair)) ==> r.Some?
  {
    if |row| < 3 then None else RecordOfCols(Cols(row, repair))
  }

  /** Label, value and units are cells 1, 2 and 3; a three-cell row has empty units. */
  lemma RowRecordColumns(row: Row, repair: Repair)
    requires |row| >= 3 && IsIdentifier(Cell(row, 0, repair))
    ensures RowRecord(row, repair).value.labelText == Cell(row, 1, repair)
    ensures RowRecord(row, repair).value.value == Cell(row, 2, repair)
    ensures RowRecord(row, repair).value.units == if |row| == 3 then "" else Cell(row, 3, repair)
  {
  }

  lemma ColsConcat(row: Row, extra: Row, repair: Repair)
    ensures Cols(row + extra, repair) == Cols(row, repair) + Cols(extra, repair)
  {
    MapSeqConcat(CellOf(repair), row, extra);
  }

  lemma RecordOfColsPrefix(cols: seq<string>, extra: seq<string>)
    requires |cols| >= 4
    ensures RecordOfCols(cols + extra) == RecordOfCols(cols)
  {
    var ce := cols + extra;
    assert ce[0] == cols[0] && ce[1] == cols[1] && ce[2] == cols[2] && ce[3] == cols[3];
  }

  /** Cells after the fourth play no part. */
  lemma RowRecordIgnoresExtra(row: Row, extra: Row, repair: Repair)
    requires |row| >= 4
    ensures RowRecord(row + extra, repair) == RowRecord(row, repair)
  {
    ColsConcat(row, extra, repair);
    RecordOfColsPrefix(Cols(row, repair), Cols(extra, repair));
  }

  /** The values of the present entries of `xs`, in order. */
  function Present<T>(xs: seq<Option<T>>): (r: seq<T>)
    ensures |r| <= |xs|
  {
    if xs == [] then []
    else
      var n := |xs| - 1;
      if xs[n].Some? then Present(xs[..n]) + [xs[n].value] else Present(xs[..n])
  }

  lemma {:induction false} PresentConcat<T>(a: seq<Option<T>>, b: seq<Option<T>>)
    ensures Present(a + b) == Present(a) + Present(b)
    decreases |b|
  {
    if b == [] {
      assert a + b == a;
    } else {
      var n := |b| - 1;
      var ab := a + b;
      assert ab[..|ab| - 1] == a + b[..n];
      assert ab[|ab| - 1] == b[n];
      PresentConcat(a, b[..n]);
    }
  }

  lemma {:induction false} PresentSound<T>(xs: seq<Option<T>>)
    ensures forall k :: 0 <= k < |Present(xs)| ==> exists j :: 0 <= j < |xs| && xs[j] == Some(Present(xs)[k])
  {
    if xs != [] {
      var n := |xs| - 1;
      PresentSound(xs[..n]);
      var prefix := Present(xs[..n]);
      forall k | 0 <= k < |Present(xs)|
        ensures exists j :: 0 <= j < |xs| && xs[j] == Some(Present(xs)[k])
      {
        if k < |prefix| {
          var j :| 0 <= j < |xs[..n]| && xs[..n][j] == Some(prefix[k]);
          assert xs[j] == xs[..n][j];
          assert Present(xs)[k] == prefix[k];
        } else {
          assert xs[n] == Some(Present(xs)[k]);
        }
      }
    } else {
      assert Present(xs) == [];
    }
  }

  lemma PresentComplete<T>(xs: seq<Option<T>>, j: nat)
    requires j < |xs| && xs[j].Some?
    ensures xs[j].value in Present(xs)
  {
    assert xs == xs[..j] + [xs[j]] + xs[j + 1..];
    PresentConcat(xs[..j] + [xs[j]], xs[j + 1..]);
    PresentConcat(xs[..j], [xs[j]]);
    assert [xs[j]][..0] == [];
  }

  function RowRecordOf(repair: Repair): Row -> Option<Reading> {
    row => RowRecord(row, repair)
  }

  /** What each row contributes, row by row. */
  function RowRecords(rows: seq<Row>, repair: Repair): (r: seq<Option<Reading>>)
    ensures |r| == |rows|
    ensures forall j :: 0 <= j < |rows| ==> r[j] == RowRecord(rows[j], repair)
  {
    MapSeq(RowRecordOf(repair), rows)
  }

  /** The records of a list of rows, in row order. */
  function Extract(rows: seq<Row>, repair: Repair): seq<Reading> {
    Present(RowRecords(rows, repair))
  }

  /** Extraction distributes over concatenation: output order follows row order. */
  lemma ExtractConcat(a: seq<Row>, b: seq<Row>, repair: Repair)
    ensures Extract(a + b, repair) == Extract(a, repair) + Extract(b, repair)
  {
    RowRecordsConcat(a, b, repair);
    PresentConcat(RowRecords(a, repair), RowRecords(b, repair));
  }

  lemma RowRecordsConcat(a: seq<Row>, b: seq<Row>, repair: Repair)
    ensures RowRecords(a + b, repair) == RowRecords(a, repair) + RowRecords(b, repair)
  {
    MapSeqConcat(RowRecordOf(repair), a, b);
  }

  /** Some row of at least three cells yields `rec`. */
  ghost predicate ProducedBy(rows: seq<Row>, rec: Reading, repair: Repair) {
    exists j :: 0 <= j < |rows| && |rows[j]| >= 3 && RowRecord(rows[j], repair) == Some(rec)
  }

  /** Every extracted record is well formed and is what some row of at least
      three cells produces. */
  lemma ExtractSound(rows: seq<Row>, repair: Repair)
    ensures forall k :: 0 <= k < |Extract(rows, repair)| ==> IsIdentifier(Extract(rows, repair)[k].item)
    ensures forall k :: 0 <= k < |Extract(rows, repair)| ==> ProducedBy(rows, Extract(rows, repair)[k], repair)
  {
    var recs := RowRecords(rows, repair);
    var out := Extract(rows, repair);
    assert out == Present(recs);
    PresentSound(recs);
    forall k | 0 <= k < |Extract(rows, repair)|
      ensures IsIdentifier(Extract(rows, repair)[k].item)
      ensures ProducedBy(rows, Extract(rows, repair)[k], repair)
    {
      var j :| 0 <= j < |recs| && recs[j] == Some(out[k]);
      assert RowRecord(rows[j], repair) == recs[j];
      assert |rows[j]| >= 3;
    }
  }

  /** Every row of at least three cells whose first cell is an identifier contributes. */
  lemma ExtractComplete(rows: seq<Row>, j: nat, repair: Repair)
    requires j < |rows| && |rows[j]| >= 3 && IsIdentifier(Cell(rows[j], 0, repair))
    ensures RowRecord(rows[j], repair).value in Extract(rows, repair)
  {
    PresentComplete(RowRecords(rows, repair), j);
  }

  /** `parse_table_rows` on a page already split into tables. */
  function ParseRows(tables: seq<Table>, repair: Repair): seq<Reading> {
    match Choose(Scores(tables, repair))
    case None => []
    case Some(b) => Extract(tables[b].rows, repair)
  }

  /** The first loop of `parse_table_rows`, on the tables' scores: keep a
      table only when its score is strictly greater than the best so far,
      starting from 0. */
  method ChooseBest(scores: seq<nat>) returns (best: Option<nat>)
    ensures IsFirstBest(scores, best)
  {
    best := None;
    var bestScore: nat := 0;
    for k := 0 to |scores|
      invariant IsFirstBest(scores[..k], best)
      invariant bestScore == if best.Some? then scores[best.value] else 0
    {
      FirstBestStep(scores, k, best);
      if scores[k] > bestScore {
        bestScore := scores[k];
        best := Some(k);
      }
    }
    assert scores[..|scores|] == scores;
  }

  /** The second loop of `parse_table_rows`: one record per accepted row, in row order. */
  method RowsToRecords(rows: seq<Row>, repair: Repair) returns (out: seq<Reading>)
    ensures out == Extract(rows, repair)
  {
    ghost var recs := RowRecords(rows, repair);
    out := [];
    for k := 0 to |rows|
      invariant out == Present(recs[..k])
    {
      assert recs[..k + 1][..k] == recs[..k];
      var rec := RowRecord(rows[k], repair);
      if rec.Some? {
        out := out + [rec.value];
      }
    }
    assert recs[..|rows|] == recs;
  }

  /** `parse_table_rows`: no tables, or no table scoring above 0, gives no
      records; otherwise the records of the first best-scoring table. */
  method ParseTableRows(tables: seq<Table>, repair: Repair) returns (out: seq<Reading>)
    ensures out == ParseRows(tables, repair)
  {
    if |tables| == 0 {
      return [];
    }
    var scores := Scores(tables, repair);
    var best := ChooseBest(scores);
    FirstBestUnique(scores, best, Choose(scores));
    if best.None? {
      return [];
    }
    out := RowsToRecords(tables[best.value].rows, repair);
  }
}
