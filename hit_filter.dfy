/**
 * The result side of compare2kmertables: the two comparators used to re-sort
 * the annotated query table, the filter that drops (query, target) pairs
 * with too few k-mer hits, and the splitting of the filtered table into one
 * output record per target.
 */
module HitFilter {
  import opened KmerRecords

  // ---------------------------------------------------------------------
  // Comparators

  function ResultKey(e: QueryEntry): (nat, nat, nat, nat) {
    (e.querySequenceId, e.targetSequenceId, e.kmerPosInQuery, e.kmer)
  }

  function TruncatedKey(e: QueryEntry): (nat, nat, nat, nat) {
    (e.targetSequenceId, e.querySequenceId, e.kmerPosInQuery, e.kmer)
  }

  /** resultTableSort: the cascade of field comparisons, query id first. */
  predicate ResultLess(first: QueryEntry, second: QueryEntry)
    ensures ResultLess(first, second) <==> KeyLess(ResultKey(first), ResultKey(second))
  {
    if first.querySequenceId < second.querySequenceId then true
    else if second.querySequenceId < first.querySequenceId then false
    else if first.targetSequenceId < second.targetSequenceId then true
    else if second.targetSequenceId < first.targetSequenceId then false
    else if first.kmerPosInQuery < second.kmerPosInQuery then true
    else if second.kmerPosInQuery < first.kmerPosInQuery then false
    else if first.kmer < second.kmer then true
    else false
  }

  /** truncatedResultTableSort: the same cascade, target id first. */
  predicate TruncatedLess(first: QueryEntry, second: QueryEntry)
    ensures TruncatedLess(first, second) <==> KeyLess(TruncatedKey(first), TruncatedKey(second))
  {
    if first.targetSequenceId < second.targetSequenceId then true
    else if second.targetSequenceId < first.targetSequenceId then false
    else if first.querySequenceId < second.querySequenceId then true
    else if second.querySequenceId < first.querySequenceId then false
    else if first.kmerPosInQuery < second.kmerPosInQuery then true
    else if second.kmerPosInQuery < first.kmerPosInQuery then false
    else if first.kmer < second.kmer then true
    else false
  }

  /**
   * Both comparators are strict weak orders, and two records neither of
   * which is less than the other are the same record: the key covers every
   * field, so the order is total.
   */
  lemma ComparatorsAreStrictWeakOrders()
    ensures StrictWeakOrder(ResultLess) && StrictWeakOrder(TruncatedLess)
    ensures forall a, b :: !ResultLess(a, b) && !ResultLess(b, a) ==> a == b
    ensures forall a, b :: !TruncatedLess(a, b) && !TruncatedLess(b, a) ==> a == b
  {
  }

  // ---------------------------------------------------------------------
  // removeNotHittedSequences

  /** The (query, target) pair a record belongs to. */
  function PairOf(e: QueryEntry): (nat, nat) {
    (e.querySequenceId, e.targetSequenceId)
  }

  function TargetOf(e: QueryEntry): nat {
    e.targetSequenceId
  }

  /** The two groupings the source walks: by (query, target) pair and by target. */
  datatype Grouping = ByPair | ByTarget

  function GroupKey(g: Grouping, e: QueryEntry): (nat, nat) {
    match g
    case ByPair => PairOf(e)
    case ByTarget => (TargetOf(e), 0)
  }

  /**
   * End (exclusive) of the run of `s` that starts at `start`: the block of
   * records with the group key of `s[start]`, as the cursor loop walks it
   * while the next record's key equals the current one's.
   */
  function RunEnd(s: seq<QueryEntry>, g: Grouping, start: nat): (r: nat)
    requires start < |s|
    ensures start < r <= |s|
    decreases |s| - start
  {
    if start + 1 == |s| || GroupKey(g, s[start + 1]) != GroupKey(g, s[start]) then start + 1
    else RunEnd(s, g, start + 1)
  }

  /** The run is uniform and maximal. */
  lemma {:induction false} RunEndSpec(s: seq<QueryEntry>, g: Grouping, start: nat)
    requires start < |s|
    ensures forall i :: start <= i < RunEnd(s, g, start) ==> GroupKey(g, s[i]) == GroupKey(g, s[start])
    ensures RunEnd(s, g, start) < |s| ==> GroupKey(g, s[RunEnd(s, g, start)]) != GroupKey(g, s[start])
    decreases |s| - start
  {
    if !(start + 1 == |s| || GroupKey(g, s[start + 1]) != GroupKey(g, s[start])) {
      RunEndSpec(s, g, start + 1);
    }
  }

  /** The run end is the only position with the two properties above. */
  lemma {:induction false} RunEndIs(s: seq<QueryEntry>, g: Grouping, start: nat, end: nat)
    requires start < end <= |s|
    requires forall i :: start <= i < end ==> GroupKey(g, s[i]) == GroupKey(g, s[start])
    requires end < |s| ==> GroupKey(g, s[end]) != GroupKey(g, s[start])
    ensures RunEnd(s, g, start) == end
    decreases |s| - start
  {
    if start + 1 < end {
      RunEndIs(s, g, start + 1, end);
    }
  }

  /**
   * What the filter keeps from position `start` on: a maximal run of L
   * records of one pair counts L - 1 repetitions; when that count exceeds 1
   * the first L - 1 records of the run are kept, otherwise the run is dropped.
   */
  function KeptFrom(s: seq<QueryEntry>, start: nat): (r: seq<QueryEntry>)
    requires start <= |s|
    ensures |r| <= |s| - start
    decreases |s| - start
  {
    if start == |s| then []
    else
      var end := RunEnd(s, ByPair, start);
      if end - start - 1 > 1 then s[start..end - 1] + KeptFrom(s, end) else KeptFrom(s, end)
  }

  function KeptHits(s: seq<QueryEntry>): seq<QueryEntry> {
    KeptFrom(s, 0)
  }

  /** One run of the filter: the records of [start, last] share a pair and `last + 1` starts another. */
  lemma KeptStep(s: seq<QueryEntry>, start: nat, last: nat)
    requires start <= last < |s|
    requires forall i :: start <= i <= last ==> GroupKey(ByPair, s[i]) == GroupKey(ByPair, s[start])
    requires last + 1 < |s| ==> GroupKey(ByPair, s[last + 1]) != GroupKey(ByPair, s[start])
    ensures last - start > 1 ==> KeptFrom(s, start) == s[start..last] + KeptFrom(s, last + 1)
    ensures last - start <= 1 ==> KeptFrom(s, start) == KeptFrom(s, last + 1)
  {
    RunEndIs(s, ByPair, start, last + 1);
  }

  /**
   * removeNotHittedSequences(startPos, endPos, resultTable): copies the kept
   * records into `resultTable` and returns the number written (the source
   * returns the write cursor). Unlike the source, the look-ahead at the next
   * record is guarded by the end of the table.
   */
  method RemoveNotHitSequences(table: array<QueryEntry>, resultTable: array<QueryEntry>) returns (written: nat)
    requires table.Length <= resultTable.Length && table != resultTable
    modifies resultTable
    ensures written <= table.Length
    ensures resultTable[..written] == KeptHits(table[..])
    ensures resultTable[written..] == old(resultTable[written..])
  {
    ghost var s := table[..];
    ghost var out: seq<QueryEntry> := [];
    var readPos := 0;
    written := 0;
    while readPos < table.Length
      invariant readPos <= table.Length && written <= readPos
      invariant table[..] == s
      invariant resultTable[..written] == out
      invariant KeptSoFar(s, out, readPos)
      invariant forall k :: written <= k < resultTable.Length ==> resultTable[k] == old(resultTable[k])
      decreases table.Length - readPos
    {
      readPos, written, out := FilterRun(table, resultTable, readPos, written, s, out);
    }
  }

  /**
   * One pass of the outer loop of removeNotHittedSequences: skips the run of
   * the pair at `readPos` and copies its first L - 1 records when L - 1 > 1.
   */
  method FilterRun(table: array<QueryEntry>, resultTable: array<QueryEntry>, readPos: nat, written: nat,
                   ghost s: seq<QueryEntry>, ghost out: seq<QueryEntry>)
    returns (next: nat, written': nat, ghost out': seq<QueryEntry>)
    requires table.Length <= resultTable.Length && table != resultTable
    requires readPos < table.Length && written <= readPos
    requires table[..] == s
    requires resultTable[..written] == out && KeptSoFar(s, out, readPos)
    modifies resultTable
    ensures readPos < next <= table.Length && written <= written' <= next
    ensures resultTable[..written'] == out' && KeptSoFar(s, out', next)
    ensures forall k :: written' <= k < resultTable.Length ==> resultTable[k] == old(resultTable[k])
  {
    var last, count := SkipPairRun(table, readPos);
    KeptAdvance(s, out, readPos, last);
    if count > 1 {
      assert table[readPos..readPos + count] == s[readPos..last];
      MemCopy(resultTable, written, table, readPos, count);
      written', out' := written + count, out + s[readPos..last];
    } else {
      written', out' := written, out;
    }
    next := last + 1;
  }

  /** `out` is what the filter keeps before position `pos`. */
  ghost predicate KeptSoFar(s: seq<QueryEntry>, out: seq<QueryEntry>, pos: nat) {
    pos <= |s| && out + KeptFrom(s, pos) == KeptHits(s)
  }

  /** The outer loop's invariant carried over one run of one pair. */
  lemma KeptAdvance(s: seq<QueryEntry>, out: seq<QueryEntry>, start: nat, last: nat)
    requires start <= last < |s|
    requires forall i :: start <= i <= last ==> GroupKey(ByPair, s[i]) == GroupKey(ByPair, s[start])
    requires last + 1 < |s| ==> GroupKey(ByPair, s[last + 1]) != GroupKey(ByPair, s[start])
    requires KeptSoFar(s, out, start)
    ensures last - start > 1 ==> KeptSoFar(s, out + s[start..last], last + 1)
    ensures last - start <= 1 ==> KeptSoFar(s, out, last + 1)
  {
    KeptStep(s, start, last);
    if last - start > 1 {
      AppendAssoc(out, s[start..last], KeptFrom(s, last + 1));
    }
  }

  /**
   * The inner loop of removeNotHittedSequences: advances over the records
   * that repeat the pair at `start` and returns the last of them together
   * with the number of repetitions.
   */
  method SkipPairRun(table: array<QueryEntry>, start: nat) returns (last: nat, count: nat)
    requires start < table.Length
    ensures start + count == last < table.Length
    ensures forall i :: start <= i <= last ==> GroupKey(ByPair, table[i]) == GroupKey(ByPair, table[start])
    ensures last + 1 < table.Length ==> GroupKey(ByPair, table[last + 1]) != GroupKey(ByPair, table[start])
  {
    last, count := start, 0;
    while last + 1 < table.Length
          && table[last + 1].targetSequenceId == table[last].targetSequenceId
          && table[last].querySequenceId == table[last + 1].querySequenceId
      invariant start + count == last < table.Length
      invariant forall i :: start <= i <= last ==> GroupKey(ByPair, table[i]) == GroupKey(ByPair, table[start])
    {
      count := count + 1;
      last := last + 1;
    }
  }

  /** memcpy of `count` records from `src[from..]` to `dst[at..]`. */
  method MemCopy(dst: array<QueryEntry>, at: nat, src: array<QueryEntry>, from: nat, count: nat)
    requires dst != src && at + count <= dst.Length && from + count <= src.Length
    modifies dst
    ensures dst[..at + count] == old(dst[..at]) + old(src[from..from + count])
    ensures forall k :: at + count <= k < dst.Length ==> dst[k] == old(dst[k])
  {
    forall k | 0 <= k < count {
      dst[at + k] := src[from + k];
    }
    assert forall k :: 0 <= k < at ==> dst[k] == old(dst[k]);
    assert forall k :: at <= k < at + count ==> dst[k] == src[from + k - at];
  }

  /** The kept records appear in the input, in the same order. */
  lemma KeptHitsIsSubsequence(s: seq<QueryEntry>)
    ensures IsSubsequence(KeptHits(s), s)
  {
    KeptFromIsSubsequence(s, 0);
    assert s[0..] == s;
  }

  lemma {:induction false} KeptFromIsSubsequence(s: seq<QueryEntry>, start: nat)
    requires start <= |s|
    ensures IsSubsequence(KeptFrom(s, start), s[start..])
    decreases |s| - start
  {
    if start < |s| {
      var end := RunEnd(s, ByPair, start);
      KeptFromIsSubsequence(s, end);
      var run := s[start..end];
      assert run + s[end..] == s[start..];
      if end - start - 1 > 1 {
        PrefixIsSubsequence(run, end - start - 1);
        assert run[..end - start - 1] == s[start..end - 1];
        SubsequenceAppend(s[start..end - 1], run, KeptFrom(s, end), s[end..]);
      } else {
        PrefixIsSubsequence(run, 0);
        SubsequenceAppend([], run, KeptFrom(s, end), s[end..]);
        assert [] + KeptFrom(s, end) == KeptFrom(s, end);
      }
    }
  }

  /** Number of records of one (query, target) pair. */
  function CountPair(s: seq<QueryEntry>, pair: (nat, nat)): (r: nat)
    ensures r <= |s|
  {
    if s == [] then 0
    else (if PairOf(s[0]) == pair then 1 else 0) + CountPair(s[1..], pair)
  }

  lemma {:induction false} CountPairAppend(a: seq<QueryEntry>, b: seq<QueryEntry>, pair: (nat, nat))
    ensures CountPair(a + b, pair) == CountPair(a, pair) + CountPair(b, pair)
    decreases |a|
  {
    if a != [] {
      assert (a + b)[1..] == a[1..] + b;
      CountPairAppend(a[1..], b, pair);
    } else {
      assert a + b == b;
    }
  }

  /** Every record of `s` belongs to the pair, or none does. */
  lemma {:induction false} CountPairUniform(s: seq<QueryEntry>, pair: (nat, nat))
    ensures (forall i :: 0 <= i < |s| ==> PairOf(s[i]) == pair) ==> CountPair(s, pair) == |s|
    ensures (forall i :: 0 <= i < |s| ==> PairOf(s[i]) != pair) ==> CountPair(s, pair) == 0
    decreases |s|
  {
    if s != [] {
      assert forall i :: 0 <= i < |s| - 1 ==> s[1..][i] == s[i + 1];
      CountPairUniform(s[1..], pair);
    }
  }

  /** The records of each pair lie side by side, as they do after sorting. */
  ghost predicate GroupedByPair(s: seq<QueryEntry>) {
    forall i, j, k :: 0 <= i < j < k < |s| && PairOf(s[i]) == PairOf(s[k]) ==> PairOf(s[j]) == PairOf(s[i])
  }

  lemma SortedIsGrouped(s: seq<QueryEntry>)
    requires SortedBy(s, ResultLess)
    ensures GroupedByPair(s)
  {
    forall i, j, k | 0 <= i < j < k < |s| && PairOf(s[i]) == PairOf(s[k])
      ensures PairOf(s[j]) == PairOf(s[i])
    {
      assert !ResultLess(s[j], s[i]) && !ResultLess(s[k], s[j]);
    }
  }

  /**
   * The filter per pair, for input whose pairs are contiguous (as after
   * sorting by resultTableSort): a pair with c records keeps c - 1 of them
   * when c >= 3 and none otherwise.
   */
  lemma KeptHitsPerPair(s: seq<QueryEntry>, pair: (nat, nat))
    requires GroupedByPair(s)
    ensures var c := CountPair(s, pair);
            CountPair(KeptHits(s), pair) == if c >= 3 then c - 1 else 0
  {
    KeptFromPerPair(s, 0, pair);
    assert s[0..] == s;
  }

  lemma {:induction false} KeptFromPerPair(s: seq<QueryEntry>, start: nat, pair: (nat, nat))
    requires GroupedByPair(s) && start <= |s|
    ensures var c := CountPair(s[start..], pair);
            CountPair(KeptFrom(s, start), pair) == if c >= 3 then c - 1 else 0
    decreases |s| - start
  {
    if start < |s| {
      var end := RunEnd(s, ByPair, start);
      RunEndSpec(s, ByPair, start);
      KeptFromPerPair(s, end, pair);
      CountSplit(s, start, end, pair);
      CountRun(s, start, end, pair);
      if end - start - 1 > 1 {
        CountRun(s, start, end - 1, pair);
        CountPairAppend(s[start..end - 1], KeptFrom(s, end), pair);
      }
      if PairOf(s[start]) == pair {
        CountAfterGroup(s, start, end, pair);
      }
    }
  }

  /** Counting over [start, |s|) splits at `end`. */
  lemma CountSplit(s: seq<QueryEntry>, start: nat, end: nat, pair: (nat, nat))
    requires start <= end <= |s|
    ensures CountPair(s[start..], pair) == CountPair(s[start..end], pair) + CountPair(s[end..], pair)
  {
    assert s[start..] == s[start..end] + s[end..];
    CountPairAppend(s[start..end], s[end..], pair);
  }

  /** A block of records of one pair counts its length for that pair and nothing for any other. */
  lemma CountRun(s: seq<QueryEntry>, start: nat, end: nat, pair: (nat, nat))
    requires start < end <= |s|
    requires forall i :: start <= i < end ==> GroupKey(ByPair, s[i]) == GroupKey(ByPair, s[start])
    ensures CountPair(s[start..end], pair) == if PairOf(s[start]) == pair then end - start else 0
  {
    var run := s[start..end];
    assert forall i :: 0 <= i < |run| ==> PairOf(run[i]) == PairOf(s[start]) by {
      forall i | 0 <= i < |run|
        ensures PairOf(run[i]) == PairOf(s[start])
      {
        assert run[i] == s[start + i];
        assert GroupKey(ByPair, s[start + i]) == GroupKey(ByPair, s[start]);
      }
    }
    CountPairUniform(run, pair);
  }

  /** In grouped input, a pair that ends its block at `end` does not occur after it. */
  lemma CountAfterGroup(s: seq<QueryEntry>, start: nat, end: nat, pair: (nat, nat))
    requires GroupedByPair(s) && start < end <= |s|
    requires PairOf(s[start]) == pair
    requires end < |s| ==> GroupKey(ByPair, s[end]) != GroupKey(ByPair, s[start])
    ensures CountPair(s[end..], pair) == 0
  {
    var rest := s[end..];
    forall j | 0 <= j < |rest|
      ensures PairOf(rest[j]) != pair
    {
      assert rest[j] == s[end + j];
      if j > 0 {
        var first, next := s[start], s[end];
        assert PairOf(s[end + j]) == pair ==> PairOf(next) == PairOf(first);
      }
    }
    CountPairUniform(rest, pair);
  }

  // ---------------------------------------------------------------------
  // writeResultTable

  /** One call of the output writer: the record key and the records written. */
  datatype Write = Write(key: nat, entries: seq<QueryEntry>)

  /**
   * The writes of writeResultTable from position `start` on: one per
   * maximal block of records of one target, keyed by that target and
   * holding all but the block's last record.
   */
  function WritesFrom(s: seq<QueryEntry>, start: nat): (r: seq<Write>)
    requires start <= |s|
    ensures |r| <= |s| - start
    decreases |s| - start
  {
    if start == |s| then []
    else
      var end := RunEnd(s, ByTarget, start);
      [Write(s[end - 1].targetSequenceId, s[start..end - 1])] + WritesFrom(s, end)
  }

  function ResultWrites(s: seq<QueryEntry>): seq<Write> {
    WritesFrom(s, 0)
  }

  /** One block of the writer: the records of [start, last] share a target and `last + 1` starts another. */
  lemma WritesStep(s: seq<QueryEntry>, start: nat, last: nat)
    requires start <= last < |s|
    requires forall i :: start <= i <= last ==> GroupKey(ByTarget, s[i]) == GroupKey(ByTarget, s[start])
    requires last + 1 < |s| ==> GroupKey(ByTarget, s[last + 1]) != GroupKey(ByTarget, s[start])
    ensures WritesFrom(s, start) == [Write(s[last].targetSequenceId, s[start..last])] + WritesFrom(s, last + 1)
  {
    RunEndIs(s, ByTarget, start, last + 1);
  }

  /** `writes` are the writes made before position `pos`. */
  ghost predicate WrittenSoFar(s: seq<QueryEntry>, writes: seq<Write>, pos: nat) {
    pos <= |s| && writes + WritesFrom(s, pos) == ResultWrites(s)
  }

  /** The writer's loop invariant carried over one block. */
  lemma WritesAdvance(s: seq<QueryEntry>, writes: seq<Write>, start: nat, last: nat)
    requires start <= last < |s|
    requires forall i :: start <= i <= last ==> GroupKey(ByTarget, s[i]) == GroupKey(ByTarget, s[start])
    requires last + 1 < |s| ==> GroupKey(ByTarget, s[last + 1]) != GroupKey(ByTarget, s[start])
    requires WrittenSoFar(s, writes, start)
    ensures WrittenSoFar(s, writes + [Write(s[last].targetSequenceId, s[start..last])], last + 1)
  {
    WritesStep(s, start, last);
    AppendAssoc(writes, [Write(s[last].targetSequenceId, s[start..last])], WritesFrom(s, last + 1));
  }

  /**
   * writeResultTable: walks the table block by block. Unlike the source, the
   * look-ahead at the next record is guarded by the end of the table.
   */
  method WriteResultTable(table: array<QueryEntry>) returns (writes: seq<Write>)
    ensures writes == ResultWrites(table[..])
  {
    ghost var s := table[..];
    writes := [];
    var pos := 0;
    while pos < table.Length
      invariant WrittenSoFar(s, writes, pos)
    {
      var last, blocksize := SkipTargetRun(table, pos);
      WritesAdvance(s, writes, pos, last);
      writes := writes + [Write(table[last].targetSequenceId, table[last - blocksize..last])];
      pos := last + 1;
    }
  }

  /**
   * The inner loop of writeResultTable: advances over the records that share
   * the target at `start` and returns the last of them together with the
   * block size counter (one less than the number of records).
   */
  method SkipTargetRun(table: array<QueryEntry>, start: nat) returns (last: nat, blocksize: nat)
    requires start < table.Length
    ensures start + blocksize == last < table.Length
    ensures forall i :: start <= i <= last ==> GroupKey(ByTarget, table[i]) == GroupKey(ByTarget, table[start])
    ensures last + 1 < table.Length ==> GroupKey(ByTarget, table[last + 1]) != GroupKey(ByTarget, table[start])
  {
    last, blocksize := start, 0;
    while last + 1 < table.Length && table[last].targetSequenceId == table[last + 1].targetSequenceId
      invariant start + blocksize == last < table.Length
      invariant forall i :: start <= i <= last ==> GroupKey(ByTarget, table[i]) == GroupKey(ByTarget, table[start])
    {
      blocksize := blocksize + 1;
      last := last + 1;
    }
  }

  /** Total number of records over all writes. */
  function WrittenCount(ws: seq<Write>): nat {
    if ws == [] then 0 else |ws[0].entries| + WrittenCount(ws[1..])
  }

  /**
   * The shape of the output: every write holds only records of its key's
   * target, consecutive writes have different keys, and exactly one record
   * per block (its last) is not written.
   */
  lemma ResultWritesShape(s: seq<QueryEntry>)
    ensures forall w :: w in ResultWrites(s) ==> forall e :: e in w.entries ==> e.targetSequenceId == w.key
    ensures forall i :: 0 < i < |ResultWrites(s)| ==> ResultWrites(s)[i - 1].key != ResultWrites(s)[i].key
    ensures WrittenCount(ResultWrites(s)) == |s| - |ResultWrites(s)|
  {
    WritesFromShape(s, 0);
  }

  lemma {:induction false} WritesFromShape(s: seq<QueryEntry>, start: nat)
    requires start <= |s|
    ensures forall w :: w in WritesFrom(s, start) ==> forall e :: e in w.entries ==> e.targetSequenceId == w.key
    ensures forall i :: 0 < i < |WritesFrom(s, start)| ==> WritesFrom(s, start)[i - 1].key != WritesFrom(s, start)[i].key
    ensures start < |s| ==> WritesFrom(s, start)[0].key == s[start].targetSequenceId
    ensures WrittenCount(WritesFrom(s, start)) == |s| - start - |WritesFrom(s, start)|
    decreases |s| - start
  {
    if start < |s| {
      var end := RunEnd(s, ByTarget, start);
      RunEndSpec(s, ByTarget, start);
      WritesFromShape(s, end);
      var ws := WritesFrom(s, start);
      var first := Write(s[end - 1].targetSequenceId, s[start..end - 1]);
      assert ws == [first] + WritesFrom(s, end);
      assert ws[1..] == WritesFrom(s, end);
      assert forall e :: e in first.entries ==> e.targetSequenceId == first.key by {
        forall e | e in first.entries
          ensures e.targetSequenceId == first.key
        {
          var i :| 0 <= i < |first.entries| && first.entries[i] == e;
          assert e == s[start + i];
        }
      }
    }
  }

  /**
   * With the table sorted by truncatedResultTableSort the keys strictly
   * increase, so each target is written once.
   */
  lemma WriteKeysIncrease(s: seq<QueryEntry>)
    requires SortedBy(s, TruncatedLess)
    ensures forall i, j :: 0 <= i < j < |ResultWrites(s)| ==> ResultWrites(s)[i].key < ResultWrites(s)[j].key
  {
    WriteKeysFrom(s, 0);
  }

  lemma {:induction false} WriteKeysFrom(s: seq<QueryEntry>, start: nat)
    requires SortedBy(s, TruncatedLess) && start <= |s|
    ensures forall w :: w in WritesFrom(s, start) ==> s[start].targetSequenceId <= w.key
    ensures forall i, j :: 0 <= i < j < |WritesFrom(s, start)| ==> WritesFrom(s, start)[i].key < WritesFrom(s, start)[j].key
    decreases |s| - start
  {
    if start < |s| {
      var end := RunEnd(s, ByTarget, start);
      RunEndSpec(s, ByTarget, start);
      var ws := WritesFrom(s, start);
      assert ws == [Write(s[end - 1].targetSequenceId, s[start..end - 1])] + WritesFrom(s, end);
      WriteKeysFrom(s, end);
      if end < |s| {
        assert !TruncatedLess(s[end], s[start]);
        assert s[start].targetSequenceId < s[end].targetSequenceId;
      }
      assert ws[1..] == WritesFrom(s, end);
    }
  }
}
