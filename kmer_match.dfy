/**
 * The merge-join of compare2kmertables: a query k-mer table, sorted by
 * k-mer, is scanned against the decoded target index, and every query entry
 * whose k-mer the index holds receives that index entry's target id in
 * `targetSequenceID`. Both cursors only move forward.
 */
module KmerMatch {
  import opened KmerRecords
  import opened DeltaStream

  datatype Option<T> = None | Some(value: T)

  /** The id of the first index entry that holds k-mer `k`, if any does. */
  function Lookup(index: seq<Entry>, k: nat): (r: Option<u32>)
    ensures r.None? <==> forall e :: e in index ==> e.kmer != k
    ensures r.Some? ==> Entry(k, r.value) in index
  {
    if index == [] then None
    else if index[0].kmer == k then Some(index[0].id)
    else Lookup(index[1..], k)
  }

  lemma {:induction false} LookupSkipsAbsentPrefix(a: seq<Entry>, b: seq<Entry>, k: nat)
    requires forall e :: e in a ==> e.kmer != k
    ensures Lookup(a + b, k) == Lookup(b, k)
  {
    if a != [] {
      assert a[0] in a && (a + b)[0] == a[0];
      assert (a + b)[1..] == a[1..] + b;
      assert Lookup(a + b, k) == Lookup(a[1..] + b, k);
      LookupSkipsAbsentPrefix(a[1..], b, k);
    } else {
      assert a + b == b;
    }
  }

  /** With strictly increasing index k-mers, the entry holding `k` is the one found. */
  lemma {:induction false} LookupFindsUnique(index: seq<Entry>, j: nat)
    requires StrictlyIncreasing(index)
    requires j < |index|
    ensures Lookup(index, index[j].kmer) == Some(index[j].id)
  {
    if j > 0 {
      assert index[0].kmer < index[j].kmer;
      assert StrictlyIncreasing(index[1..]);
      assert index[1..][j - 1] == index[j];
      LookupFindsUnique(index[1..], j - 1);
    }
  }

  /** A query entry after the scan: only its target id may have changed. */
  function Annotated(e: QueryEntry, index: seq<Entry>): (r: QueryEntry)
    ensures r == e.(targetSequenceId := r.targetSequenceId)
    ensures (forall x :: x in index ==> x.kmer != e.kmer) ==> r == e
  {
    match Lookup(index, e.kmer)
    case Some(id) => e.(targetSequenceId := id)
    case None => e
  }

  /**
   * Completeness of the join: when the index k-mers strictly increase, a
   * query entry whose k-mer equals that of index entry j gets exactly that
   * entry's id.
   */
  lemma MatchIsIndexEntry(e: QueryEntry, index: seq<Entry>, j: nat)
    requires StrictlyIncreasing(index)
    requires j < |index| && index[j].kmer == e.kmer
    ensures Annotated(e, index) == e.(targetSequenceId := index[j].id)
  {
    LookupFindsUnique(index, j);
  }

  ghost predicate SortedByKmer(q: seq<QueryEntry>) {
    forall i, j :: 0 <= i < j < |q| ==> q[i].kmer <= q[j].kmer
  }

  /**
   * The index cursor state of the scan: `passed` holds the entries already
   * behind the cursor, `cur` is the k-mer of the entry under it (position
   * `tp` holds its terminating value), and the rest of the stream follows.
   */
  ghost predicate IndexAt(index: seq<Entry>, passed: seq<Entry>, deltas: seq<u16>, ids: seq<u32>, tp: nat, cur: nat) {
    && tp <= |deltas| <= |ids|
    && (tp < |deltas| ==> index == passed + [Entry(cur, ids[tp])] + DecodeRun(deltas[tp + 1..], ids[tp + 1..], cur))
    && (tp == |deltas| ==> index == passed)
  }

  /** The query cursor state: entries before `qp` are final, the rest untouched. */
  ghost predicate AnnotatedUpTo(q: seq<QueryEntry>, q0: seq<QueryEntry>, index: seq<Entry>, qp: nat) {
    && |q| == |q0| && qp <= |q|
    && (forall i :: 0 <= i < qp ==> q[i] == Annotated(q0[i], index))
    && (forall i :: qp <= i < |q| ==> q[i] == q0[i])
  }

  /** Moving the index cursor past the entry under it. */
  lemma IndexAdvance(index: seq<Entry>, passed: seq<Entry>, deltas: seq<u16>, ids: seq<u32>,
                     tp: nat, cur: nat, tp': nat, cur': nat)
    requires IndexAt(index, passed, deltas, ids, tp, cur) && tp < |deltas|
    requires tp + 1 <= tp' <= |deltas|
    requires tp' < |deltas| ==>
      DecodeRun(deltas[tp + 1..], ids[tp + 1..], cur)
        == [Entry(cur', ids[tp'])] + DecodeRun(deltas[tp' + 1..], ids[tp' + 1..], cur')
    requires tp' == |deltas| ==> DecodeRun(deltas[tp + 1..], ids[tp + 1..], cur) == []
    ensures IndexAt(index, passed + [Entry(cur, ids[tp])], deltas, ids, tp', cur')
  {
    var here := Entry(cur, ids[tp]);
    if tp' < |deltas| {
      assert index == (passed + [here]) + [Entry(cur', ids[tp'])] + DecodeRun(deltas[tp' + 1..], ids[tp' + 1..], cur');
    } else {
      assert index == passed + [here] + [];
    }
  }

  /** No entry at or after the cursor holds a k-mer below `cur`. */
  lemma IndexRestAbove(index: seq<Entry>, passed: seq<Entry>, deltas: seq<u16>, ids: seq<u32>, tp: nat, cur: nat, k: nat)
    requires IndexAt(index, passed, deltas, ids, tp, cur)
    requires forall e :: e in passed ==> e.kmer < k
    ensures tp < |deltas| && k < cur ==> Lookup(index, k).None?
    ensures tp < |deltas| && k == cur ==> Lookup(index, k) == Some(ids[tp])
    ensures tp == |deltas| ==> Lookup(index, k).None?
  {
    if tp < |deltas| {
      var rest := [Entry(cur, ids[tp])] + DecodeRun(deltas[tp + 1..], ids[tp + 1..], cur);
      DecodeRunAbove(deltas[tp + 1..], ids[tp + 1..], cur);
      assert index == passed + rest;
      LookupSkipsAbsentPrefix(passed, rest, k);
    }
  }

  ghost predicate AllBelow(es: seq<Entry>, k: nat) {
    forall e :: e in es ==> e.kmer < k
  }

  /** Everything the scan keeps true between its steps. */
  ghost predicate ScanState(q: seq<QueryEntry>, q0: seq<QueryEntry>, index: seq<Entry>, passed: seq<Entry>,
                            deltas: seq<u16>, ids: seq<u32>, qp: nat, tp: nat, cur: nat) {
    && SortedByKmer(q0)
    && IndexAt(index, passed, deltas, ids, tp, cur)
    && AnnotatedUpTo(q, q0, index, qp)
    && (qp < |q0| ==> AllBelow(passed, q0[qp].kmer))
  }

  /** Passing over one query entry below the index cursor keeps the scan state. */
  lemma SkipOneQuery(q: seq<QueryEntry>, q0: seq<QueryEntry>, index: seq<Entry>, passed: seq<Entry>,
                     deltas: seq<u16>, ids: seq<u32>, qp: nat, tp: nat, cur: nat)
    requires ScanState(q, q0, index, passed, deltas, ids, qp, tp, cur)
    requires qp < |q| && (tp < |deltas| ==> q[qp].kmer < cur)
    ensures ScanState(q, q0, index, passed, deltas, ids, qp + 1, tp, cur)
  {
    IndexRestAbove(index, passed, deltas, ids, tp, cur, q0[qp].kmer);
    if qp + 1 < |q0| {
      assert q0[qp].kmer <= q0[qp + 1].kmer;
    }
  }

  /** Once either cursor has reached its end, every query entry is final. */
  lemma ScanFinished(q: seq<QueryEntry>, q0: seq<QueryEntry>, index: seq<Entry>, passed: seq<Entry>,
                     deltas: seq<u16>, ids: seq<u32>, qp: nat, tp: nat, cur: nat)
    requires ScanState(q, q0, index, passed, deltas, ids, qp, tp, cur)
    requires tp == |deltas| || qp == |q|
    ensures forall i :: 0 <= i < |q| ==> q[i] == Annotated(q0[i], index)
    decreases |q| - qp
  {
    if qp < |q| {
      SkipOneQuery(q, q0, index, passed, deltas, ids, qp, tp, cur);
      ScanFinished(q, q0, index, passed, deltas, ids, qp + 1, tp, cur);
    }
  }

  /**
   * The equal-k-mer step: the query entry under the cursor and every one
   * after it with the same k-mer take the id under the index cursor, then
   * the index cursor moves to the next entry.
   */
  method MatchEqualRun(q: array<QueryEntry>, deltas: seq<u16>, ids: seq<u32>,
                       qp: nat, tp: nat, ip: nat, cur: nat,
                       ghost q0: seq<QueryEntry>, ghost index: seq<Entry>, ghost passed: seq<Entry>)
    returns (qp': nat, tp': nat, ip': nat, cur': nat, ghost passed': seq<Entry>)
    requires ScanState(q[..], q0, index, passed, deltas, ids, qp, tp, cur) && ip == tp
    requires tp < |deltas| && qp < q.Length && q[qp].kmer == cur
    modifies q
    ensures ScanState(q[..], q0, index, passed', deltas, ids, qp', tp', cur') && ip' == tp'
    ensures qp < qp' && tp < tp'
  {
    IndexRestAbove(index, passed, deltas, ids, tp, cur, cur);
    var id := ids[ip];
    q[qp] := q[qp].(targetSequenceId := id);
    qp' := qp + 1;
    while qp' < q.Length && q[qp'].kmer == cur
      invariant qp < qp' <= q.Length
      invariant AnnotatedUpTo(q[..], q0, index, qp')
      invariant q0[qp' - 1].kmer == cur
    {
      q[qp'] := q[qp'].(targetSequenceId := id);
      qp' := qp' + 1;
    }
    tp', ip', cur' := SkipEscapes(deltas, ids, tp + 1, ip + 1, cur);
    IndexAdvance(index, passed, deltas, ids, tp, cur, tp', cur');
    passed' := passed + [Entry(cur, ids[tp])];
  }

  /**
   * The query-behind step: query entries whose k-mer is below the index
   * cursor's have no partner in the index and are passed over unchanged.
   */
  method SkipQueriesBelow(q: array<QueryEntry>, deltas: seq<u16>, ids: seq<u32>, qp: nat, tp: nat, cur: nat,
                          ghost q0: seq<QueryEntry>, ghost index: seq<Entry>, ghost passed: seq<Entry>)
    returns (qp': nat)
    requires ScanState(q[..], q0, index, passed, deltas, ids, qp, tp, cur)
    ensures ScanState(q[..], q0, index, passed, deltas, ids, qp', tp, cur)
    ensures qp <= qp' && (qp' < q.Length ==> cur <= q[qp'].kmer)
  {
    qp' := qp;
    while qp' < q.Length && q[qp'].kmer < cur
      invariant ScanState(q[..], q0, index, passed, deltas, ids, qp', tp, cur)
      invariant qp <= qp'
    {
      SkipOneQuery(q[..], q0, index, passed, deltas, ids, qp', tp, cur);
      qp' := qp' + 1;
    }
  }

  /**
   * The index-behind step: the index cursor moves, through both streams
   * together, until its k-mer reaches that of the query entry under the
   * query cursor.
   */
  method SkipIndexBelow(q: array<QueryEntry>, deltas: seq<u16>, ids: seq<u32>,
                        qp: nat, tp: nat, ip: nat, cur: nat,
                        ghost q0: seq<QueryEntry>, ghost index: seq<Entry>, ghost passed: seq<Entry>)
    returns (tp': nat, ip': nat, cur': nat, ghost passed': seq<Entry>)
    requires ScanState(q[..], q0, index, passed, deltas, ids, qp, tp, cur) && ip == tp
    requires qp < q.Length
    ensures ScanState(q[..], q0, index, passed', deltas, ids, qp, tp', cur') && ip' == tp'
    ensures tp <= tp' && (tp' == tp ==> cur' == cur)
    ensures tp' < |deltas| ==> q[qp].kmer <= cur'
  {
    tp', ip', cur', passed' := tp, ip, cur, passed;
    while tp' < |deltas| && cur' < q[qp].kmer
      invariant ScanState(q[..], q0, index, passed', deltas, ids, qp, tp', cur') && ip' == tp'
      invariant tp <= tp' && (tp' == tp ==> cur' == cur)
      decreases |deltas| - tp'
    {
      var tn, inext, cn := SkipEscapes(deltas, ids, tp' + 1, ip' + 1, cur');
      IndexAdvance(index, passed', deltas, ids, tp', cur', tn, cn);
      passed' := passed' + [Entry(cur', ids[tp'])];
      tp', ip', cur' := tn, inext, cn;
    }
  }

  /**
   * The scan of compare2kmertables. The query table is updated in place; the
   * delta and id streams are read with one cursor each, advanced together.
   * Unlike the source, every read is guarded by the end of its stream and
   * the scan also stops at the end of the query table.
   */
  method Compare2KmerTables(q: array<QueryEntry>, deltas: seq<u16>, ids: seq<u32>)
    requires |deltas| <= |ids|
    requires SortedByKmer(q[..])
    modifies q
    ensures forall i :: 0 <= i < q.Length ==> q[i] == Annotated(old(q[i]), Decode(deltas, ids))
  {
    ghost var q0 := q[..];
    ghost var index := Decode(deltas, ids);
    ghost var passed: seq<Entry> := [];
    var n, m := q.Length, |deltas|;
    var qp := 0;
    // a first entry above maxshort starts with escapes
    var tp: nat, ip: nat, cur: nat := SkipEscapes(deltas, ids, 0, 0, 0);
    assert deltas[0..] == deltas && ids[0..] == ids;
    assert ScanState(q[..], q0, index, passed, deltas, ids, qp, tp, cur);

    while tp < m && qp < n
      invariant ScanState(q[..], q0, index, passed, deltas, ids, qp, tp, cur) && ip == tp
      decreases m - tp + n - qp
    {
      ghost var tp0, qp0 := tp, qp;
      if cur == q[qp].kmer {
        qp, tp, ip, cur, passed := MatchEqualRun(q, deltas, ids, qp, tp, ip, cur, q0, index, passed);
      }
      qp := SkipQueriesBelow(q, deltas, ids, qp, tp, cur, q0, index, passed);
      if qp < n {
        tp, ip, cur, passed := SkipIndexBelow(q, deltas, ids, qp, tp, ip, cur, q0, index, passed);
      }
      assert tp0 < tp || qp0 < qp;
    }
    ScanFinished(q[..], q0, index, passed, deltas, ids, qp, tp, cur);
  }
}
