/**
 * The page walk of `main` in `fetch_sensors.py`: fetch each fixed start offset
 * in turn, keep the records of the wanted kind, skip a page whose fetch
 * failed, and stop after the first page at a non-zero start that yields
 * nothing of that kind.
 *
 * The HTTP fetch is not modelled: the outcome of fetching each start is an
 * input.
 */
module Pagination {
  import opened Wrappers
  import opened Extraction

  /** What fetching one page gave: its tables, or a failure (timeout, non-2xx, connection error). */
  datatype Fetch = Failed | Fetched(tables: seq<Table>)

  /** The offsets `main` visits, for sensors and for drivers alike. */
  const Starts: seq<int> := [0, 12, 27, 40, 60, 80]

  /** `[x for x in chunk if re.match(r"^<kind>\d+$", x["item"])]`. */
  function OfKind(chunk: seq<Reading>, kind: char): (r: seq<Reading>)
    ensures |r| <= |chunk|
    ensures forall k :: 0 <= k < |r| ==> IsIdentOf(kind, r[k].item)
    ensures forall x :: x in r <==> x in chunk && IsIdentOf(kind, x.item)
  {
    if chunk == [] then []
    else if IsIdentOf(kind, chunk[0].item) then [chunk[0]] + OfKind(chunk[1..], kind)
    else OfKind(chunk[1..], kind)
  }

  /** The filter keeps the records' order. */
  lemma {:induction false} OfKindConcat(a: seq<Reading>, b: seq<Reading>, kind: char)
    ensures OfKind(a + b, kind) == OfKind(a, kind) + OfKind(b, kind)
  {
    if a == [] {
      assert a + b == b;
    } else {
      assert (a + b)[1..] == a[1..] + b;
      OfKindConcat(a[1..], b, kind);
    }
  }

  lemma {:induction false} OfKindAll(a: seq<Reading>, kind: char)
    requires forall i :: 0 <= i < |a| ==> IsIdentOf(kind, a[i].item)
    ensures OfKind(a, kind) == a
  {
    if a != [] {
      OfKindAll(a[1..], kind);
    }
  }

  lemma {:induction false} OfKindNone(a: seq<Reading>, kind: char)
    requires forall i :: 0 <= i < |a| ==> !IsIdentOf(kind, a[i].item)
    ensures OfKind(a, kind) == []
  {
    if a != [] {
      OfKindNone(a[1..], kind);
    }
  }

  /** The records one successfully fetched page contributes. */
  function PageChunk(tables: seq<Table>, kind: char, repair: Repair): seq<Reading> {
    OfKind(ParseRows(tables, repair), kind)
  }

  /** What the loop makes of one page: `None` for a failed fetch, otherwise the
      page's records of the wanted kind. */
  function Outcome(f: Fetch, kind: char, repair: Repair): Option<seq<Reading>> {
    match f
    case Failed => None
    case Fetched(tables) => Some(PageChunk(tables, kind, repair))
  }

  /** `Outcome` of each fetch, in order. */
  function Outcomes(fetches: seq<Fetch>, kind: char, repair: Repair): (r: seq<Option<seq<Reading>>>)
    ensures |r| == |fetches|
  {
    if fetches == [] then [] else [Outcome(fetches[0], kind, repair)] + Outcomes(fetches[1..], kind, repair)
  }

  lemma {:induction false} OutcomesConcat(a: seq<Fetch>, b: seq<Fetch>, kind: char, repair: Repair)
    ensures Outcomes(a + b, kind, repair) == Outcomes(a, kind, repair) + Outcomes(b, kind, repair)
  {
    if a == [] {
      assert a + b == b;
    } else {
      assert (a + b)[1..] == a[1..] + b;
      OutcomesConcat(a[1..], b, kind, repair);
    }
  }

  /** The outcomes of a prefix and of the rest are the two slices of the outcomes. */
  lemma OutcomesSlices(fetches: seq<Fetch>, n: nat, kind: char, repair: Repair)
    requires n <= |fetches|
    ensures Outcomes(fetches[..n], kind, repair) == Outcomes(fetches, kind, repair)[..n]
    ensures Outcomes(fetches[n..], kind, repair) == Outcomes(fetches, kind, repair)[n..]
  {
    assert fetches[..n] + fetches[n..] == fetches;
    OutcomesConcat(fetches[..n], fetches[n..], kind, repair);
  }

  lemma {:induction false} OutcomesAt(fetches: seq<Fetch>, j: nat, kind: char, repair: Repair)
    requires j < |fetches|
    ensures Outcomes(fetches, kind, repair)[j] == Outcome(fetches[j], kind, repair)
  {
    if j > 0 {
      OutcomesAt(fetches[1..], j - 1, kind, repair);
    }
  }

  /** The loop over the pages' outcomes: skip a `None`, stop at an empty page
      at a non-zero start, otherwise append the page's records. */
  function WalkPages(starts: seq<int>, pages: seq<Option<seq<Reading>>>): seq<Reading>
    requires |pages| == |starts|
  {
    if starts == [] then []
    else match pages[0]
      case None => WalkPages(starts[1..], pages[1..])
      case Some(chunk) =>
        if starts[0] != 0 && chunk == [] then []
        else chunk + WalkPages(starts[1..], pages[1..])
  }

  /** The accumulated records of the walk over `starts`, `fetches[i]` being the
      outcome of fetching `starts[i]`. */
  function Walk(starts: seq<int>, fetches: seq<Fetch>, kind: char, repair: Repair): seq<Reading>
    requires |fetches| == |starts|
  {
    WalkPages(starts, Outcomes(fetches, kind, repair))
  }

  // ---------------------------------------------------------------------------
  // The loop over page outcomes
  // ---------------------------------------------------------------------------

  /** The page at index `j` ends the loop. */
  predicate Stops(starts: seq<int>, pages: seq<Option<seq<Reading>>>, j: nat)
    requires |pages| == |starts| && j < |starts|
  {
    starts[j] != 0 && pages[j] == Some([])
  }

  lemma {:induction false} WalkPagesOfKind(starts: seq<int>, pages: seq<Option<seq<Reading>>>, kind: char)
    requires |pages| == |starts|
    requires forall j, k :: 0 <= j < |pages| && pages[j].Some? && 0 <= k < |pages[j].value| ==> IsIdentOf(kind, pages[j].value[k].item)
    ensures forall k :: 0 <= k < |WalkPages(starts, pages)| ==> IsIdentOf(kind, WalkPages(starts, pages)[k].item)
  {
    if starts != [] {
      var p1 := pages[1..];
      assert forall j :: 0 <= j < |p1| ==> p1[j] == pages[j + 1];
      WalkPagesOfKind(starts[1..], p1, kind);
    }
  }

  lemma {:induction false} WalkPagesAllNone(starts: seq<int>, pages: seq<Option<seq<Reading>>>)
    requires |pages| == |starts|
    requires forall j :: 0 <= j < |pages| ==> pages[j].None?
    ensures WalkPages(starts, pages) == []
  {
    if starts != [] {
      WalkPagesAllNone(starts[1..], pages[1..]);
    }
  }

  lemma {:induction false} WalkPagesStops(starts: seq<int>, pages: seq<Option<seq<Reading>>>, others: seq<Option<seq<Reading>>>, i: nat)
    requires |pages| == |starts| == |others|
    requires i < |starts| && Stops(starts, pages, i)
    requires pages[..i + 1] == others[..i + 1]
    ensures WalkPages(starts, pages) == WalkPages(starts, others)
  {
    assert pages[0] == others[0];
    if i > 0 {
      assert pages[1..][..i] == others[1..][..i];
      WalkPagesStops(starts[1..], pages[1..], others[1..], i - 1);
    }
  }

  lemma {:induction false} WalkPagesSplit(starts: seq<int>, pages: seq<Option<seq<Reading>>>, i: nat)
    requires |pages| == |starts| && i <= |starts|
    requires forall j :: 0 <= j < i ==> !Stops(starts, pages, j)
    ensures WalkPages(starts, pages) == WalkPages(starts[..i], pages[..i]) + WalkPages(starts[i..], pages[i..])
    decreases i
  {
    if i == 0 {
      assert starts[..0] == [] && starts[0..] == starts && pages[0..] == pages;
    } else {
      var s1, p1 := starts[1..], pages[1..];
      forall j | 0 <= j < i - 1 ensures !Stops(s1, p1, j) {
        assert !Stops(starts, pages, j + 1);
      }
      WalkPagesSplit(s1, p1, i - 1);
      assert starts[..i][1..] == s1[..i - 1] && pages[..i][1..] == p1[..i - 1];
      assert s1[i - 1..] == starts[i..] && p1[i - 1..] == pages[i..];
      assert !Stops(starts, pages, 0);
    }
  }

  lemma {:induction false} WalkPagesSkipsNone(starts: seq<int>, pages: seq<Option<seq<Reading>>>, i: nat)
    requires |pages| == |starts| && i < |starts| && pages[i].None?
    ensures WalkPages(starts, pages) == WalkPages(starts[..i] + starts[i + 1..], pages[..i] + pages[i + 1..])
    decreases i
  {
    var s2, p2 := starts[..i] + starts[i + 1..], pages[..i] + pages[i + 1..];
    if i == 0 {
      assert s2 == starts[1..] && p2 == pages[1..];
    } else {
      var s1, p1 := starts[1..], pages[1..];
      assert s2[0] == starts[0] && p2[0] == pages[0];
      assert s2[1..] == s1[..i - 1] + s1[i..] && p2[1..] == p1[..i - 1] + p1[i..];
      WalkPagesSkipsNone(s1, p1, i - 1);
    }
  }

  // ---------------------------------------------------------------------------
  // The walk over fetches
  // ---------------------------------------------------------------------------

  /** Every accumulated record carries an identifier of the wanted kind. */
  lemma WalkOfKind(starts: seq<int>, fetches: seq<Fetch>, kind: char, repair: Repair)
    requires |fetches| == |starts|
    ensures forall k :: 0 <= k < |Walk(starts, fetches, kind, repair)| ==> IsIdentOf(kind, Walk(starts, fetches, kind, repair)[k].item)
  {
    var pages := Outcomes(fetches, kind, repair);
    forall j, k | 0 <= j < |pages| && pages[j].Some? && 0 <= k < |pages[j].value|
      ensures IsIdentOf(kind, pages[j].value[k].item)
    {
      OutcomesAt(fetches, j, kind, repair);
    }
    WalkPagesOfKind(starts, pages, kind);
  }

  /** When every fetch fails the walk collects nothing (and never stops early). */
  lemma WalkAllFailed(starts: seq<int>, fetches: seq<Fetch>, kind: char, repair: Repair)
    requires |fetches| == |starts|
    requires forall i :: 0 <= i < |fetches| ==> fetches[i].Failed?
    ensures Walk(starts, fetches, kind, repair) == []
  {
    var pages := Outcomes(fetches, kind, repair);
    forall j | 0 <= j < |pages| ensures pages[j].None? {
      OutcomesAt(fetches, j, kind, repair);
    }
    WalkPagesAllNone(starts, pages);
  }

  /** Fetching `starts[j]` gave a page with nothing of the kind at a non-zero start: the loop breaks there. */
  predicate StopsAt(starts: seq<int>, fetches: seq<Fetch>, j: nat, kind: char, repair: Repair)
    requires |fetches| == |starts| && j < |starts|
  {
    fetches[j].Fetched? && starts[j] != 0 && PageChunk(fetches[j].tables, kind, repair) == []
  }

  /** The loop breaks at a fetch exactly when it breaks at that fetch's outcome. */
  lemma StopsAtOutcome(starts: seq<int>, fetches: seq<Fetch>, j: nat, kind: char, repair: Repair)
    requires |fetches| == |starts| && j < |starts|
    ensures StopsAt(starts, fetches, j, kind, repair) <==> Stops(starts, Outcomes(fetches, kind, repair), j)
  {
    OutcomesAt(fetches, j, kind, repair);
  }

  /** After the first page at a non-zero start that yields nothing, the walk
      stops: what later fetches return makes no difference. */
  lemma WalkStopsAtEmptyPage(starts: seq<int>, fetches: seq<Fetch>, other: seq<Fetch>, i: nat, kind: char, repair: Repair)
    requires |fetches| == |starts| == |other|
    requires i < |starts| && StopsAt(starts, fetches, i, kind, repair)
    requires fetches[..i + 1] == other[..i + 1]
    ensures Walk(starts, fetches, kind, repair) == Walk(starts, other, kind, repair)
  {
    OutcomesSlices(fetches, i + 1, kind, repair);
    OutcomesSlices(other, i + 1, kind, repair);
    StopsAtOutcome(starts, fetches, i, kind, repair);
    WalkPagesStops(starts, Outcomes(fetches, kind, repair), Outcomes(other, kind, repair), i);
  }

  /** Up to the first page where the loop breaks, the walk is the pages' records
      in page order: splitting the pages at any such point splits the walk. */
  lemma WalkSplit(starts: seq<int>, fetches: seq<Fetch>, i: nat, kind: char, repair: Repair)
    requires |fetches| == |starts| && i <= |starts|
    requires forall j :: 0 <= j < i ==> !StopsAt(starts, fetches, j, kind, repair)
    ensures Walk(starts, fetches, kind, repair)
            == Walk(starts[..i], fetches[..i], kind, repair) + Walk(starts[i..], fetches[i..], kind, repair)
  {
    var pages := Outcomes(fetches, kind, repair);
    forall j | 0 <= j < i ensures !Stops(starts, pages, j) {
      StopsAtOutcome(starts, fetches, j, kind, repair);
    }
    OutcomesSlices(fetches, i, kind, repair);
    WalkPagesSplit(starts, pages, i);
  }

  /** A page whose fetch failed is skipped: removing it leaves the walk unchanged. */
  lemma WalkSkipsFailed(starts: seq<int>, fetches: seq<Fetch>, i: nat, kind: char, repair: Repair)
    requires |fetches| == |starts| && i < |starts| && fetches[i].Failed?
    ensures Walk(starts, fetches, kind, repair)
            == Walk(starts[..i] + starts[i + 1..], fetches[..i] + fetches[i + 1..], kind, repair)
  {
    OutcomesSlices(fetches, i, kind, repair);
    OutcomesSlices(fetches, i + 1, kind, repair);
    OutcomesConcat(fetches[..i], fetches[i + 1..], kind, repair);
    OutcomesAt(fetches, i, kind, repair);
    WalkPagesSkipsNone(starts, Outcomes(fetches, kind, repair), i);
  }

  /** The page loop: `continue` on a failed fetch, extend by the page's records
      of the wanted kind, `break` on an empty page at a non-zero start. */
  method Paginate(starts: seq<int>, fetches: seq<Fetch>, kind: char, repair: Repair) returns (acc: seq<Reading>)
    requires |fetches| == |starts|
    ensures acc == Walk(starts, fetches, kind, repair)
  {
    acc := [];
    var i := 0;
    assert starts[0..] == starts && fetches[0..] == fetches;
    while i < |starts|
      invariant 0 <= i <= |starts|
      invariant acc + Walk(starts[i..], fetches[i..], kind, repair) == Walk(starts, fetches, kind, repair)
    {
      if fetches[i].Failed? {
        WalkFromFailed(starts, fetches, i, kind, repair);
        i := i + 1;
        continue;
      }
      var chunk := ParseTableRows(fetches[i].tables, repair);
      chunk := OfKind(chunk, kind);
      assert chunk == PageChunk(fetches[i].tables, kind, repair);
      if starts[i] != 0 && |chunk| == 0 {
        WalkFromStop(starts, fetches, i, kind, repair);
        assert acc + chunk == acc;
        acc := acc + chunk;
        break;
      }
      WalkFromPage(starts, fetches, i, kind, repair);
      assert acc + chunk + Walk(starts[i + 1..], fetches[i + 1..], kind, repair)
             == acc + (chunk + Walk(starts[i + 1..], fetches[i + 1..], kind, repair));
      acc := acc + chunk;
      i := i + 1;
    }
  }

  /** The walk from index `i`, opened at `i`: the outcome there and the walk from `i + 1`. */
  lemma WalkFrom(starts: seq<int>, fetches: seq<Fetch>, i: nat, kind: char, repair: Repair)
    requires |fetches| == |starts| && i < |starts|
    ensures Outcomes(fetches[i..], kind, repair)[0] == Outcome(fetches[i], kind, repair)
    ensures Walk(starts[i..], fetches[i..], kind, repair)
            == WalkPages(starts[i..], [Outcome(fetches[i], kind, repair)] + Outcomes(fetches[i + 1..], kind, repair))
  {
    assert fetches[i..][1..] == fetches[i + 1..];
  }

  /** From a page whose fetch failed, the walk is the walk from the next page. */
  lemma WalkFromFailed(starts: seq<int>, fetches: seq<Fetch>, i: nat, kind: char, repair: Repair)
    requires |fetches| == |starts| && i < |starts| && fetches[i].Failed?
    ensures Walk(starts[i..], fetches[i..], kind, repair) == Walk(starts[i + 1..], fetches[i + 1..], kind, repair)
  {
    WalkFrom(starts, fetches, i, kind, repair);
    assert starts[i..][1..] == starts[i + 1..];
  }

  /** From a page where the loop breaks, the walk adds nothing. */
  lemma WalkFromStop(starts: seq<int>, fetches: seq<Fetch>, i: nat, kind: char, repair: Repair)
    requires |fetches| == |starts| && i < |starts| && StopsAt(starts, fetches, i, kind, repair)
    ensures Walk(starts[i..], fetches[i..], kind, repair) == []
  {
    WalkFrom(starts, fetches, i, kind, repair);
  }

  /** From any other page, the walk is that page's records followed by the walk from the next page. */
  lemma WalkFromPage(starts: seq<int>, fetches: seq<Fetch>, i: nat, kind: char, repair: Repair)
    requires |fetches| == |starts| && i < |starts| && fetches[i].Fetched? && !StopsAt(starts, fetches, i, kind, repair)
    ensures Walk(starts[i..], fetches[i..], kind, repair)
            == PageChunk(fetches[i].tables, kind, repair) + Walk(starts[i + 1..], fetches[i + 1..], kind, repair)
  {
    WalkFrom(starts, fetches, i, kind, repair);
    assert starts[i..][1..] == starts[i + 1..];
  }
}
