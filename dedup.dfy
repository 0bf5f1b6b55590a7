/**
 * De-duplication of the records gathered over all pages, lifted out of `main`
 * in `fetch_sensors.py`: a dictionary keyed by identifier is filled in scan
 * order (the last record of an identifier wins), then its keys are sorted by
 * `int(item[1:])` with Python's stable `sorted`, so identifiers with equal
 * ordinals (`S01`, `S1`) keep the dictionary's insertion order, which is the
 * order of their first occurrence.
 */
module Dedup {
  import opened Extraction

  /** The identifiers that occur in `x`. */
  function Items(x: seq<Reading>): set<string> {
    set i | 0 <= i < |x| :: x[i].item
  }

  predicate AllIdentifiers(x: seq<Reading>) {
    forall i :: 0 <= i < |x| ==> IsIdentifier(x[i].item)
  }

  /** The position of the first record of `item`. */
  ghost function FirstIndex(x: seq<Reading>, item: string): (j: nat)
    requires item in Items(x)
    ensures j < |x| && x[j].item == item
    ensures forall k :: 0 <= k < j ==> x[k].item != item
  {
    if x[0].item == item then 0
    else
      var i :| 0 <= i < |x| && x[i].item == item;
      assert x[1..][i - 1].item == item;
      1 + FirstIndex(x[1..], item)
  }

  /** The position of the last record of `item`. */
  ghost function LastIndex(x: seq<Reading>, item: string): (j: nat)
    requires item in Items(x)
    ensures j < |x| && x[j].item == item
    ensures forall k :: j < k < |x| ==> x[k].item != item
  {
    var n := |x| - 1;
    if x[n].item == item then n
    else
      var i :| 0 <= i < |x| && x[i].item == item;
      assert x[..n][i].item == item;
      LastIndex(x[..n], item)
  }

  /** The sort key `int(item[1:])`; every item reaching the de-duplication is
      an identifier, so the fallback value is never used. */
  function SortKey(item: string): int {
    if IsIdentifier(item) then Ordinal(item) else -1
  }

  /** The order of the output: by ordinal, and by first occurrence in `x` among equal ordinals. */
  ghost predicate KeyBefore(x: seq<Reading>, a: string, b: string)
    requires a in Items(x) && b in Items(x)
  {
    SortKey(a) < SortKey(b) || (SortKey(a) == SortKey(b) && FirstIndex(x, a) < FirstIndex(x, b))
  }

  /** Every record of `o` is the last record in `x` of its identifier, and `o`
      is strictly increasing in the output order. */
  ghost predicate SortedLastRecords(x: seq<Reading>, o: seq<Reading>) {
    && (forall p :: 0 <= p < |o| ==> o[p].item in Items(x) && o[p] == x[LastIndex(x, o[p].item)])
    && (forall p, q :: 0 <= p < q < |o| ==> KeyBefore(x, o[p].item, o[q].item))
  }

  /** `o` is the de-duplication of `x`: one record per identifier of `x`, the
      last one scanned, in ascending ordinal order. */
  ghost predicate IsDedupOf(x: seq<Reading>, o: seq<Reading>) {
    SortedLastRecords(x, o) && Items(o) == Items(x)
  }

  // ---------------------------------------------------------------------------
  // The method
  // ---------------------------------------------------------------------------

  /** `s` lists identifiers of `x` in strictly increasing output order. */
  ghost predicate SortedBy(x: seq<Reading>, s: seq<string>)
    requires forall c :: c in s ==> c in Items(x)
  {
    forall p, q :: 0 <= p < q < |s| ==> KeyBefore(x, s[p], s[q])
  }

  lemma InsertAt<T>(s: seq<T>, k: T, p: nat)
    requires p <= |s|
    ensures |s[..p] + [k] + s[p..]| == |s| + 1
    ensures (s[..p] + [k] + s[p..])[p] == k
    ensures forall a :: 0 <= a < p ==> (s[..p] + [k] + s[p..])[a] == s[a]
    ensures forall a :: p < a <= |s| ==> (s[..p] + [k] + s[p..])[a] == s[a - 1]
  {
  }

  /** Inserting `k` after every element whose key is not larger keeps `s`
      sorted, given that `k` occurs first in `x` after everything in `s` does. */
  lemma InsertKeepsSorted(x: seq<Reading>, s: seq<string>, k: string, p: nat)
    requires k in Items(x)
    requires forall c :: c in s ==> c in Items(x) && FirstIndex(x, c) < FirstIndex(x, k)
    requires SortedBy(x, s)
    requires p <= |s|
    requires forall q :: 0 <= q < p ==> SortKey(s[q]) <= SortKey(k)
    requires p < |s| ==> SortKey(s[p]) > SortKey(k)
    ensures SortedBy(x, s[..p] + [k] + s[p..])
  {
    var t := s[..p] + [k] + s[p..];
    InsertAt(s, k, p);
    forall a, b | 0 <= a < b < |t| ensures KeyBefore(x, t[a], t[b]) {
      if a == p && b - 1 > p {
        assert KeyBefore(x, s[p], s[b - 1]);
      } else if a < p && b > p {
        assert KeyBefore(x, s[a], k);
      } else if a > p {
        assert KeyBefore(x, s[a - 1], s[b - 1]);
      }
    }
  }

  /** The position after every element of `s` whose key is not larger than `k`'s. */
  method InsertionPoint(s: seq<string>, k: string) returns (p: nat)
    requires forall a, b :: 0 <= a < b < |s| ==> SortKey(s[a]) <= SortKey(s[b])
    ensures p <= |s|
    ensures forall q :: 0 <= q < p ==> SortKey(s[q]) <= SortKey(k)
    ensures forall q :: p <= q < |s| ==> SortKey(s[q]) > SortKey(k)
  {
    p := 0;
    while p < |s| && SortKey(s[p]) <= SortKey(k)
      invariant p <= |s|
      invariant forall q :: 0 <= q < p ==> SortKey(s[q]) <= SortKey(k)
    {
      p := p + 1;
    }
  }

  /** Sorted by `KeyBefore` means in particular ascending keys. */
  lemma SortedKeys(x: seq<Reading>, s: seq<string>)
    requires forall c :: c in s ==> c in Items(x)
    requires SortedBy(x, s)
    ensures forall a, b :: 0 <= a < b < |s| ==> SortKey(s[a]) <= SortKey(s[b])
  {
  }

  /** Inserting the next key keeps the sorted list a permutation of the keys seen so far. */
  lemma InsertPermutes(keys: seq<string>, i: nat, s: seq<string>, p: nat)
    requires i < |keys| && p <= |s|
    requires multiset(s) == multiset(keys[..i])
    ensures multiset(s[..p] + [keys[i]] + s[p..]) == multiset(keys[..i + 1])
  {
    assert s == s[..p] + s[p..];
    assert keys[..i + 1] == keys[..i] + [keys[i]];
  }

  /** Everything in the list after inserting `keys[i]` occurs first before `keys[i + 1]`. */
  lemma InsertBounded(x: seq<Reading>, keys: seq<string>, i: nat, s: seq<string>, p: nat)
    requires i < |keys| && p <= |s|
    requires forall c :: c in keys ==> c in Items(x)
    requires forall a, b :: 0 <= a < b < |keys| ==> FirstIndex(x, keys[a]) < FirstIndex(x, keys[b])
    requires forall c :: c in s ==> c in Items(x) && FirstIndex(x, c) < FirstIndex(x, keys[i])
    ensures forall c :: c in s[..p] + [keys[i]] + s[p..] ==>
              c in Items(x) && (i + 1 < |keys| ==> FirstIndex(x, c) < FirstIndex(x, keys[i + 1]))
  {
    var t := s[..p] + [keys[i]] + s[p..];
    forall c | c in t ensures c in Items(x) && (i + 1 < |keys| ==> FirstIndex(x, c) < FirstIndex(x, keys[i + 1])) {
      assert c in s[..p] || c == keys[i] || c in s[p..];
      assert c in s[..p] ==> c in s;
      assert c in s[p..] ==> c in s;
    }
  }

  /** Python's `sorted(keys, key=lambda x: int(x[1:]))`, a stable sort, on keys
      listed in order of first occurrence in `x`. */
  method SortByOrdinal(x: seq<Reading>, keys: seq<string>) returns (s: seq<string>)
    requires forall c :: c in keys ==> c in Items(x)
    requires forall a, b :: 0 <= a < b < |keys| ==> FirstIndex(x, keys[a]) < FirstIndex(x, keys[b])
    ensures multiset(s) == multiset(keys)
    ensures forall c :: c in s ==> c in Items(x)
    ensures SortedBy(x, s)
  {
    s := [];
    for i := 0 to |keys|
      invariant multiset(s) == multiset(keys[..i])
      invariant forall c :: c in s ==> c in Items(x) && (i < |keys| ==> FirstIndex(x, c) < FirstIndex(x, keys[i]))
      invariant SortedBy(x, s)
    {
      SortedKeys(x, s);
      var p := InsertionPoint(s, keys[i]);
      InsertKeepsSorted(x, s, keys[i], p);
      InsertPermutes(keys, i, s, p);
      InsertBounded(x, keys, i, s, p);
      s := s[..p] + [keys[i]] + s[p..];
    }
    assert keys[..|keys|] == keys;
  }

  /** The dictionary `by_item` after the loop `for s in x: by_item[s["item"]] = s`. */
  function ByItem(x: seq<Reading>): map<string, Reading> {
    if x == [] then map[]
    else ByItem(x[..|x| - 1])[x[|x| - 1].item := x[|x| - 1]]
  }

  /** The keys of that dictionary in its (insertion) iteration order. */
  function InsertionOrder(x: seq<Reading>): seq<string> {
    if x == [] then []
    else
      var keys := InsertionOrder(x[..|x| - 1]);
      if x[|x| - 1].item in keys then keys else keys + [x[|x| - 1].item]
  }

  lemma ItemsSnoc(x: seq<Reading>)
    requires x != []
    ensures Items(x) == Items(x[..|x| - 1]) + {x[|x| - 1].item}
  {
    var n := |x| - 1;
    forall c | c in Items(x[..n]) ensures c in Items(x) {
      var j :| 0 <= j < n && x[..n][j].item == c;
      assert x[j].item == c;
    }
    forall c | c in Items(x) && c != x[n].item ensures c in Items(x[..n]) {
      var j :| 0 <= j < |x| && x[j].item == c;
      assert x[..n][j].item == c;
    }
  }

  lemma PrefixItems(x: seq<Reading>, n: nat)
    requires n <= |x|
    ensures forall j :: 0 <= j < n ==> x[j].item in Items(x[..n])
  {
    forall j | 0 <= j < n ensures x[j].item in Items(x[..n]) {
      assert x[..n][j] == x[j];
    }
  }

  /** Adding a record at the end keeps the first index of every identifier
      already present, and gives a new identifier its own index. */
  lemma FirstIndexSnoc(x: seq<Reading>, k: string)
    requires x != [] && k in Items(x)
    ensures k in Items(x[..|x| - 1]) ==> FirstIndex(x, k) == FirstIndex(x[..|x| - 1], k)
    ensures k !in Items(x[..|x| - 1]) ==> FirstIndex(x, k) == |x| - 1
  {
    var n := |x| - 1;
    var g := FirstIndex(x, k);
    if k in Items(x[..n]) {
      var f := FirstIndex(x[..n], k);
      assert x[f].item == k && x[g].item == k;
      assert g <= f;
      assert g < n ==> x[..n][g].item == k;
    } else {
      PrefixItems(x, n);
    }
  }

  /** `by_item` maps exactly the identifiers of `x`, each to its last record. */
  lemma {:induction false} ByItemSpec(x: seq<Reading>)
    ensures ByItem(x).Keys == Items(x)
    ensures forall k :: k in ByItem(x) ==> ByItem(x)[k] == x[LastIndex(x, k)]
  {
    if x == [] {
      ItemsEmpty(x);
    } else {
      var n := |x| - 1;
      ByItemSpec(x[..n]);
      ItemsSnoc(x);
      forall k | k in ByItem(x) ensures ByItem(x)[k] == x[LastIndex(x, k)] {
        if k != x[n].item {
          assert LastIndex(x, k) == LastIndex(x[..n], k);
        }
      }
    }
  }

  /** The insertion order lists the identifiers of `x` by increasing first occurrence. */
  lemma {:induction false} InsertionOrderSpec(x: seq<Reading>)
    ensures forall k :: k in InsertionOrder(x) <==> k in Items(x)
    ensures forall k :: k in InsertionOrder(x) ==> k in Items(x)
    ensures forall a, b :: 0 <= a < b < |InsertionOrder(x)| ==>
              FirstIndex(x, InsertionOrder(x)[a]) < FirstIndex(x, InsertionOrder(x)[b])
  {
    if x == [] {
      ItemsEmpty(x);
    } else {
      var n := |x| - 1;
      var keys := InsertionOrder(x[..n]);
      InsertionOrderSpec(x[..n]);
      ItemsSnoc(x);
      forall a | 0 <= a < |keys| ensures FirstIndex(x, keys[a]) == FirstIndex(x[..n], keys[a]) {
        FirstIndexSnoc(x, keys[a]);
      }
      if x[n].item !in keys {
        FirstIndexSnoc(x, x[n].item);
        assert InsertionOrder(x) == keys + [x[n].item];
      }
    }
  }

  /** The loop `for s in records: by_item[s["item"]] = s`, with the
      dictionary's insertion order kept explicitly in `keys`. */
  method IndexByItem(records: seq<Reading>) returns (byItem: map<string, Reading>, keys: seq<string>)
    ensures byItem == ByItem(records)
    ensures keys == InsertionOrder(records)
  {
    byItem, keys := map[], [];
    for i := 0 to |records|
      invariant byItem == ByItem(records[..i])
      invariant keys == InsertionOrder(records[..i])
    {
      assert records[..i + 1][..i] == records[..i];
      if records[i].item !in keys {
        keys := keys + [records[i].item];
      }
      byItem := byItem[records[i].item := records[i]];
    }
    assert records[..|records|] == records;
  }

  /** The de-duplication: fill `by_item` in scan order, then list its values in
      the stable ordinal order of its keys. */
  method Deduplicate(records: seq<Reading>) returns (out: seq<Reading>)
    requires AllIdentifiers(records)
    ensures IsDedupOf(records, out)
  {
    var byItem, keys := IndexByItem(records);
    InsertionOrderSpec(records);
    var sorted := SortByOrdinal(records, keys);
    SortedKeysInDict(records, sorted);
    out := seq(|sorted|, p requires 0 <= p < |sorted| => byItem[sorted[p]]);
    DedupAssemble(records, sorted, out);
  }

  /** Sorting loses no key, so every sorted key is in `by_item`. */
  lemma SortedKeysInDict(records: seq<Reading>, sorted: seq<string>)
    requires multiset(sorted) == multiset(InsertionOrder(records))
    ensures forall p :: 0 <= p < |sorted| ==> sorted[p] in ByItem(records)
  {
    ByItemSpec(records);
    InsertionOrderSpec(records);
    forall p | 0 <= p < |sorted| ensures sorted[p] in ByItem(records) {
      assert sorted[p] in multiset(sorted);
    }
  }

  /** Listing the last records in the sorted order of the insertion-ordered keys
      gives the de-duplication. */
  lemma DedupAssemble(records: seq<Reading>, sorted: seq<string>, out: seq<Reading>)
    requires multiset(sorted) == multiset(InsertionOrder(records))
    requires forall c :: c in sorted ==> c in Items(records)
    requires SortedBy(records, sorted)
    requires |out| == |sorted|
    requires forall p :: 0 <= p < |sorted| ==> sorted[p] in ByItem(records) && out[p] == ByItem(records)[sorted[p]]
    ensures IsDedupOf(records, out)
  {
    ByItemSpec(records);
    InsertionOrderSpec(records);
    AssembleLast(records, sorted, out);
    AssembleCovers(records, sorted, out);
    DedupOrdered(records, sorted, out);
  }

  /** Every value of `by_item` listed in the sorted key order is the last record of its key. */
  lemma AssembleLast(records: seq<Reading>, sorted: seq<string>, out: seq<Reading>)
    requires ByItem(records).Keys == Items(records)
    requires forall k :: k in ByItem(records) ==> ByItem(records)[k] == records[LastIndex(records, k)]
    requires forall c :: c in sorted ==> c in Items(records)
    requires |out| == |sorted|
    requires forall p :: 0 <= p < |sorted| ==> sorted[p] in ByItem(records) && out[p] == ByItem(records)[sorted[p]]
    ensures forall p :: 0 <= p < |out| ==> out[p].item == sorted[p]
    ensures forall p :: 0 <= p < |out| ==> out[p].item in Items(records) && out[p] == records[LastIndex(records, out[p].item)]
  {
    forall p | 0 <= p < |out|
      ensures out[p].item == sorted[p]
      ensures out[p].item in Items(records) && out[p] == records[LastIndex(records, out[p].item)]
    {
      assert sorted[p] in sorted;
    }
  }

  /** The output inherits the order of the sorted keys. */
  lemma DedupOrdered(records: seq<Reading>, sorted: seq<string>, out: seq<Reading>)
    requires |out| == |sorted|
    requires forall p :: 0 <= p < |out| ==> out[p].item == sorted[p] && sorted[p] in Items(records)
    requires SortedBy(records, sorted)
    ensures forall p, q :: 0 <= p < q < |out| ==> KeyBefore(records, out[p].item, out[q].item)
  {
  }

  /** Sorting the keys loses none of them, so every identifier reaches the output. */
  lemma AssembleCovers(records: seq<Reading>, sorted: seq<string>, out: seq<Reading>)
    requires forall k :: k in InsertionOrder(records) <==> k in Items(records)
    requires multiset(sorted) == multiset(InsertionOrder(records))
    requires |out| == |sorted|
    requires forall p :: 0 <= p < |out| ==> out[p].item == sorted[p]
    ensures Items(out) == Items(records)
  {
    forall c | c in Items(records) ensures c in Items(out) {
      assert c in multiset(sorted);
      var p :| 0 <= p < |sorted| && sorted[p] == c;
      assert out[p].item == c;
    }
    forall c | c in Items(out) ensures c in Items(records) {
      var p :| 0 <= p < |out| && out[p].item == c;
      assert c in multiset(InsertionOrder(records));
    }
  }

  // ---------------------------------------------------------------------------
  // Properties of the de-duplication
  // ---------------------------------------------------------------------------

  /** The output order is a strict order: no identifier comes before itself,
      and two identifiers are never each before the other. */
  lemma KeyBeforeAsymmetric(x: seq<Reading>, a: string, b: string)
    requires a in Items(x) && b in Items(x)
    requires KeyBefore(x, a, b)
    ensures a != b && !KeyBefore(x, b, a)
  {
  }

  /** One record per identifier. */
  lemma DedupDistinct(x: seq<Reading>, o: seq<Reading>)
    requires IsDedupOf(x, o)
    ensures forall p, q :: 0 <= p < q < |o| ==> o[p].item != o[q].item
  {
    forall p, q | 0 <= p < q < |o| ensures o[p].item != o[q].item {
      KeyBeforeAsymmetric(x, o[p].item, o[q].item);
    }
  }

  /** The output holds identifiers only, in ascending order of their ordinals. */
  lemma DedupAscending(x: seq<Reading>, o: seq<Reading>)
    requires AllIdentifiers(x) && IsDedupOf(x, o)
    ensures forall p :: 0 <= p < |o| ==> IsIdentifier(o[p].item)
    ensures forall p, q :: 0 <= p < q < |o| ==> Ordinal(o[p].item) <= Ordinal(o[q].item)
  {
    forall p | 0 <= p < |o| ensures IsIdentifier(o[p].item) {
      assert o[p] == x[LastIndex(x, o[p].item)];
    }
  }

  /** Last write wins: a record not followed by another of its identifier is in the output. */
  lemma DedupLastWins(x: seq<Reading>, o: seq<Reading>, j: nat)
    requires IsDedupOf(x, o)
    requires j < |x| && forall k :: j < k < |x| ==> x[k].item != x[j].item
    ensures x[j] in o
  {
    assert x[j].item in Items(o);
    var p :| 0 <= p < |o| && o[p].item == x[j].item;
    assert LastIndex(x, x[j].item) == j;
  }

  lemma ItemsEmpty(o: seq<Reading>)
    ensures Items(o) == {} <==> o == []
  {
    if o != [] {
      assert o[0].item in Items(o);
    }
  }

  lemma ItemsTail(o: seq<Reading>)
    requires |o| > 0
    requires forall p :: 0 < p < |o| ==> o[p].item != o[0].item
    ensures Items(o[1..]) == Items(o) - {o[0].item}
  {
    forall c | c in Items(o) - {o[0].item} ensures c in Items(o[1..]) {
      var p :| 0 <= p < |o| && o[p].item == c;
      assert o[1..][p - 1].item == c;
    }
  }

  /** Two non-empty sequences of last records with the same identifiers start alike. */
  lemma SortedLastRecordsHead(x: seq<Reading>, o1: seq<Reading>, o2: seq<Reading>)
    requires SortedLastRecords(x, o1) && SortedLastRecords(x, o2)
    requires Items(o1) == Items(o2) && o1 != [] && o2 != []
    ensures o1[0] == o2[0]
  {
    assert o1[0].item in Items(o2) && o2[0].item in Items(o1);
    var a, b := o1[0].item, o2[0].item;
    var q :| 0 <= q < |o2| && o2[q].item == a;
    var p :| 0 <= p < |o1| && o1[p].item == b;
    if a != b {
      assert KeyBefore(x, b, a) && KeyBefore(x, a, b);
      KeyBeforeAsymmetric(x, a, b);
    }
  }

  /** Dropping the first record keeps a sequence of sorted last records, and drops exactly its identifier. */
  lemma SortedLastRecordsTail(x: seq<Reading>, o: seq<Reading>)
    requires SortedLastRecords(x, o) && o != []
    ensures SortedLastRecords(x, o[1..])
    ensures Items(o[1..]) == Items(o) - {o[0].item}
  {
    forall r | 0 < r < |o| ensures o[r].item != o[0].item {
      KeyBeforeAsymmetric(x, o[0].item, o[r].item);
    }
    ItemsTail(o);
  }

  /** Two sequences of last records, both strictly increasing in the output
      order, with the same identifiers, are equal. */
  lemma {:induction false} SortedLastRecordsUnique(x: seq<Reading>, o1: seq<Reading>, o2: seq<Reading>)
    requires SortedLastRecords(x, o1) && SortedLastRecords(x, o2)
    requires Items(o1) == Items(o2)
    ensures o1 == o2
    decreases |o1|
  {
    ItemsEmpty(o1);
    ItemsEmpty(o2);
    if o1 != [] {
      SortedLastRecordsHead(x, o1, o2);
      SortedLastRecordsTail(x, o1);
      SortedLastRecordsTail(x, o2);
      SortedLastRecordsUnique(x, o1[1..], o2[1..]);
      assert o1 == [o1[0]] + o1[1..] && o2 == [o2[0]] + o2[1..];
    }
  }

  /** The de-duplication of a list is unique. */
  lemma DedupUnique(x: seq<Reading>, o1: seq<Reading>, o2: seq<Reading>)
    requires IsDedupOf(x, o1) && IsDedupOf(x, o2)
    ensures o1 == o2
  {
    SortedLastRecordsUnique(x, o1, o2);
  }

  /** De-duplicating an output again changes nothing. */
  lemma DedupIdempotent(x: seq<Reading>, o: seq<Reading>, o2: seq<Reading>)
    requires IsDedupOf(x, o)
    requires IsDedupOf(o, o2)
    ensures o2 == o
  {
    DedupDistinct(x, o);
    forall p | 0 <= p < |o|
      ensures o[p].item in Items(o) && FirstIndex(o, o[p].item) == p && LastIndex(o, o[p].item) == p
    {
      var f, l := FirstIndex(o, o[p].item), LastIndex(o, o[p].item);
      assert !(f < p) && !(p < l);
    }
    forall p, q | 0 <= p < q < |o| ensures KeyBefore(o, o[p].item, o[q].item) {
      assert KeyBefore(x, o[p].item, o[q].item);
    }
    assert IsDedupOf(o, o);
    DedupUnique(o, o, o2);
  }
}
