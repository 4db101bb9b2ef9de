/**
 * The two sort orders of createkmertable and the target table writer: after
 * the target table is sorted, writeTargetTables walks it once and writes one
 * (k-mer, sequence id) pair per run of equal k-mers, choosing the record of
 * the longest sequence in the run; the k-mers go to one file and the ids to
 * another, in lockstep.
 */
module TargetWriter {
  import opened KmerRecords
  import KmerMatch

  // ---------------------------------------------------------------------
  // Sort orders

  /**
   * targetTableSort: k-mer ascending, then sequence length descending, then
   * sequence id ascending. The descending field is compared with its two
   * sides exchanged.
   */
  predicate TargetLess(first: TargetEntry, second: TargetEntry)
    ensures TargetLess(first, second) <==>
      KeyLess((first.kmer, second.sequenceLength, first.sequenceId, 0),
              (second.kmer, first.sequenceLength, second.sequenceId, 0))
  {
    if first.kmer < second.kmer then true
    else if second.kmer < first.kmer then false
    else if first.sequenceLength > second.sequenceLength then true
    else if second.sequenceLength > first.sequenceLength then false
    else if first.sequenceId < second.sequenceId then true
    else false
  }

  /**
   * querryTableSort: k-mer ascending, then query id descending, then window
   * number ascending; the target id is not compared.
   */
  predicate QueryTableLess(first: QueryEntry, second: QueryEntry)
    ensures QueryTableLess(first, second) <==>
      KeyLess((first.kmer, second.querySequenceId, first.kmerPosInQuery, 0),
              (second.kmer, first.querySequenceId, second.kmerPosInQuery, 0))
  {
    if first.kmer < second.kmer then true
    else if second.kmer < first.kmer then false
    else if first.querySequenceId > second.querySequenceId then true
    else if second.querySequenceId > first.querySequenceId then false
    else if first.kmerPosInQuery < second.kmerPosInQuery then true
    else false
  }

  /**
   * Both comparators are strict weak orders. The target order compares every
   * field, so records it cannot tell apart are equal; the query order leaves
   * the target id out, so it ties exactly the records that agree on k-mer,
   * query id and window number.
   */
  lemma SortOrdersAreStrictWeakOrders()
    ensures StrictWeakOrder(TargetLess) && StrictWeakOrder(QueryTableLess)
    ensures forall a, b :: !TargetLess(a, b) && !TargetLess(b, a) ==> a == b
    ensures forall a, b :: !QueryTableLess(a, b) && !QueryTableLess(b, a) <==>
              a.kmer == b.kmer && a.querySequenceId == b.querySequenceId && a.kmerPosInQuery == b.kmerPosInQuery
  {
  }

  /** A query table in querryTableSort order is in the k-mer order the matcher asks for. */
  lemma QuerySortFeedsMatcher(q: seq<QueryEntry>)
    requires SortedBy(q, QueryTableLess)
    ensures KmerMatch.SortedByKmer(q)
  {
    forall i, j | 0 <= i < j < |q|
      ensures q[i].kmer <= q[j].kmer
    {
      assert !QueryTableLess(q[j], q[i]);
    }
  }

  /** Target records sorted by k-mer, ties in any order. */
  ghost predicate KmerSorted(s: seq<TargetEntry>) {
    forall i, j :: 0 <= i < j < |s| ==> s[i].kmer <= s[j].kmer
  }

  /**
   * A table in targetTableSort order is sorted by k-mer, and within one
   * k-mer no record has a longer sequence than one before it.
   */
  lemma TargetSortOrder(s: seq<TargetEntry>)
    requires SortedBy(s, TargetLess)
    ensures KmerSorted(s)
    ensures forall i, j :: 0 <= i < j < |s| && s[i].kmer == s[j].kmer ==> s[j].sequenceLength <= s[i].sequenceLength
  {
    forall i, j | 0 <= i < j < |s|
      ensures s[i].kmer <= s[j].kmer
      ensures s[i].kmer == s[j].kmer ==> s[j].sequenceLength <= s[i].sequenceLength
    {
      assert !TargetLess(s[j], s[i]);
    }
  }

  // ---------------------------------------------------------------------
  // The runs and the record chosen from each

  /** End (exclusive) of the run of records with the k-mer of `s[start]`. */
  function RunEnd(s: seq<TargetEntry>, start: nat): (r: nat)
    requires start < |s|
    ensures start < r <= |s|
    decreases |s| - start
  {
    if start + 1 == |s| || s[start + 1].kmer != s[start].kmer then start + 1
    else RunEnd(s, start + 1)
  }

  /** The run is uniform and maximal. */
  lemma {:induction false} RunEndSpec(s: seq<TargetEntry>, start: nat)
    requires start < |s|
    ensures forall i :: start <= i < RunEnd(s, start) ==> s[i].kmer == s[start].kmer
    ensures RunEnd(s, start) < |s| ==> s[RunEnd(s, start)].kmer != s[start].kmer
    decreases |s| - start
  {
    if !(start + 1 == |s| || s[start + 1].kmer != s[start].kmer) {
      RunEndSpec(s, start + 1);
    }
  }

  /** The run end is the only position with the two properties above. */
  lemma {:induction false} RunEndIs(s: seq<TargetEntry>, start: nat, end: nat)
    requires start < end <= |s|
    requires forall i :: start <= i < end ==> s[i].kmer == s[start].kmer
    requires end < |s| ==> s[end].kmer != s[start].kmer
    ensures RunEnd(s, start) == end
    decreases |s| - start
  {
    if start + 1 < end {
      RunEndIs(s, start + 1, end);
    }
  }

  /**
   * The record the writer holds after looking at positions `start` up to
   * `i` of a run: it moves to a later record only when that one's sequence
   * is strictly longer.
   */
  function Best(s: seq<TargetEntry>, start: nat, i: nat): (b: nat)
    requires start < i <= |s|
    ensures start <= b < i
  {
    if i == start + 1 then start
    else
      var b := Best(s, start, i - 1);
      if s[i - 1].sequenceLength > s[b].sequenceLength then i - 1 else b
  }

  /** The held record is the first one of greatest sequence length in the range. */
  lemma {:induction false} BestIsFirstLongest(s: seq<TargetEntry>, start: nat, i: nat)
    requires start < i <= |s|
    ensures forall k :: start <= k < i ==> s[k].sequenceLength <= s[Best(s, start, i)].sequenceLength
    ensures forall k :: start <= k < Best(s, start, i) ==> s[k].sequenceLength < s[Best(s, start, i)].sequenceLength
  {
    if i > start + 1 {
      BestIsFirstLongest(s, start, i - 1);
    }
  }

  /** In targetTableSort order the head of each run is the record chosen from it. */
  lemma {:induction false} SortedRunHeadIsBest(s: seq<TargetEntry>, start: nat, i: nat)
    requires start < i <= |s|
    requires SortedBy(s, TargetLess)
    requires forall k :: start <= k < i ==> s[k].kmer == s[start].kmer
    ensures Best(s, start, i) == start
  {
    if i > start + 1 {
      SortedRunHeadIsBest(s, start, i - 1);
      assert !TargetLess(s[i - 1], s[start]);
    }
  }

  /** Positions of the records written from position `start` on: one per run. */
  function ChosenFrom(s: seq<TargetEntry>, start: nat): (r: seq<nat>)
    requires start <= |s|
    ensures forall j :: 0 <= j < |r| ==> start <= r[j] < |s|
    decreases |s| - start
  {
    if start == |s| then []
    else
      var end := RunEnd(s, start);
      [Best(s, start, end)] + ChosenFrom(s, end)
  }

  /** The k-mer column and the id column of the chosen records. */
  function KmerColumn(s: seq<TargetEntry>, chosen: seq<nat>): (r: seq<nat>)
    requires forall j :: 0 <= j < |chosen| ==> chosen[j] < |s|
    ensures |r| == |chosen|
  {
    if chosen == [] then []
    else KmerColumn(s, chosen[..|chosen| - 1]) + [s[chosen[|chosen| - 1]].kmer]
  }

  function IdColumn(s: seq<TargetEntry>, chosen: seq<nat>): (r: seq<nat>)
    requires forall j :: 0 <= j < |chosen| ==> chosen[j] < |s|
    ensures |r| == |chosen|
  {
    if chosen == [] then []
    else IdColumn(s, chosen[..|chosen| - 1]) + [s[chosen[|chosen| - 1]].sequenceId]
  }

  lemma {:induction false} ColumnsAt(s: seq<TargetEntry>, chosen: seq<nat>)
    requires forall j :: 0 <= j < |chosen| ==> chosen[j] < |s|
    ensures forall j :: 0 <= j < |chosen| ==>
              KmerColumn(s, chosen)[j] == s[chosen[j]].kmer && IdColumn(s, chosen)[j] == s[chosen[j]].sequenceId
  {
    if chosen != [] {
      ColumnsAt(s, chosen[..|chosen| - 1]);
    }
  }

  /** The positions chosen from `start` on: the chosen record of the first run, then the rest. */
  lemma ChosenUnfold(s: seq<TargetEntry>, start: nat)
    requires start < |s|
    ensures var end := RunEnd(s, start);
            var c, rest := ChosenFrom(s, start), ChosenFrom(s, end);
            && |c| == |rest| + 1 && c[0] == Best(s, start, end)
            && (forall j :: 0 < j < |c| ==> c[j] == rest[j - 1])
            && (forall i :: start <= i < end ==> s[i].kmer == s[start].kmer)
            && (end < |s| ==> s[end].kmer != s[start].kmer)
  {
    RunEndSpec(s, start);
  }

  /** On a table sorted by k-mer every record past the run of `s[start]` has a larger k-mer. */
  lemma PastRun(s: seq<TargetEntry>, start: nat, i: nat)
    requires KmerSorted(s) && start < |s| && RunEnd(s, start) <= i < |s|
    ensures s[start].kmer < s[i].kmer
  {
    RunEndSpec(s, start);
    var end := RunEnd(s, start);
    var first, here, last := s[start], s[end], s[i];
    assert first.kmer <= here.kmer <= last.kmer;
  }

  /** On a table sorted by k-mer the chosen records have strictly increasing k-mers. */
  lemma {:induction false} ChosenIncrease(s: seq<TargetEntry>, start: nat)
    requires KmerSorted(s) && start <= |s|
    ensures var c := ChosenFrom(s, start);
            forall j, j' :: 0 <= j < j' < |c| ==> s[c[j]].kmer < s[c[j']].kmer
    decreases |s| - start
  {
    if start < |s| {
      var end := RunEnd(s, start);
      ChosenUnfold(s, start);
      ChosenIncrease(s, end);
      var c, rest := ChosenFrom(s, start), ChosenFrom(s, end);
      forall j, j' | 0 <= j < j' < |c|
        ensures s[c[j]].kmer < s[c[j']].kmer
      {
        if j == 0 {
          PastRun(s, start, c[j']);
        } else {
          assert c[j] == rest[j - 1] && c[j'] == rest[j' - 1];
        }
      }
    }
  }

  /**
   * On a table sorted by k-mer each chosen record has the longest sequence
   * among all records with its k-mer, and every earlier record with that
   * k-mer has a strictly shorter one: ties go to the first.
   */
  lemma {:induction false} ChosenLongest(s: seq<TargetEntry>, start: nat)
    requires KmerSorted(s) && start <= |s|
    ensures var c := ChosenFrom(s, start);
            forall j, i :: 0 <= j < |c| && start <= i < |s| && s[i].kmer == s[c[j]].kmer ==>
              s[i].sequenceLength <= s[c[j]].sequenceLength && (i < c[j] ==> s[i].sequenceLength < s[c[j]].sequenceLength)
    decreases |s| - start
  {
    if start < |s| {
      var end := RunEnd(s, start);
      ChosenUnfold(s, start);
      BestIsFirstLongest(s, start, end);
      ChosenLongest(s, end);
      var c, rest := ChosenFrom(s, start), ChosenFrom(s, end);
      forall j, i | 0 <= j < |c| && start <= i < |s| && s[i].kmer == s[c[j]].kmer
        ensures s[i].sequenceLength <= s[c[j]].sequenceLength
        ensures i < c[j] ==> s[i].sequenceLength < s[c[j]].sequenceLength
      {
        if j == 0 && end <= i {
          PastRun(s, start, i);
          assert false;
        } else if j > 0 {
          assert c[j] == rest[j - 1];
          if i < end {
            PastRun(s, start, c[j]);
            assert false;
          }
        }
      }
    }
  }

  /** The distinct k-mers of the records from position `start` on. */
  ghost function KmersFrom(s: seq<TargetEntry>, start: nat): set<nat>
    decreases |s| - start
  {
    if start >= |s| then {} else {s[start].kmer} + KmersFrom(s, start + 1)
  }

  /** On a table sorted by k-mer no k-mer from position `p` on is below the one at `p`. */
  lemma {:induction false} KmersFromAtLeast(s: seq<TargetEntry>, p: nat)
    requires KmerSorted(s) && p < |s|
    ensures forall x :: x in KmersFrom(s, p) ==> s[p].kmer <= x
    decreases |s| - p
  {
    if p + 1 < |s| {
      KmersFromAtLeast(s, p + 1);
      var here, next := s[p], s[p + 1];
      assert here.kmer <= next.kmer;
    }
  }

  /** Skipping a run of equal k-mers drops only that k-mer. */
  lemma {:induction false} KmersFromRun(s: seq<TargetEntry>, start: nat, i: nat)
    requires start < i <= |s|
    requires forall k :: start <= k < i ==> s[k].kmer == s[start].kmer
    ensures KmersFrom(s, start) == {s[start].kmer} + KmersFrom(s, i)
    decreases i - start
  {
    if start + 1 < i {
      KmersFromRun(s, start + 1, i);
    }
  }

  /** On a table sorted by k-mer one record is chosen per distinct k-mer. */
  lemma {:induction false} ChosenCount(s: seq<TargetEntry>, start: nat)
    requires KmerSorted(s) && start <= |s|
    ensures |ChosenFrom(s, start)| == |KmersFrom(s, start)|
    decreases |s| - start
  {
    if start < |s| {
      var end := RunEnd(s, start);
      ChosenUnfold(s, start);
      ChosenCount(s, end);
      KmersFromRun(s, start, end);
      if end < |s| {
        KmersFromAtLeast(s, end);
        PastRun(s, start, end);
      }
      assert s[start].kmer !in KmersFrom(s, end);
    }
  }

  /**
   * What the two files hold when the table is in k-mer order: the written
   * k-mers strictly increase and are k-mers of the table, there are as many
   * as the table has distinct k-mers (`uniqueKmerCount` is their number), and
   * each written id is that of the first record of greatest sequence length
   * for its k-mer.
   */
  lemma WrittenPerDistinctKmer(s: seq<TargetEntry>)
    requires KmerSorted(s)
    ensures var c := ChosenFrom(s, 0);
            var kmers, ids := KmerColumn(s, c), IdColumn(s, c);
            && (forall j, j' :: 0 <= j < j' < |kmers| ==> kmers[j] < kmers[j'])
            && |kmers| == |KmersFrom(s, 0)|
            && forall j :: 0 <= j < |c| ==>
                 && kmers[j] == s[c[j]].kmer && ids[j] == s[c[j]].sequenceId
                 && forall i :: 0 <= i < |s| && s[i].kmer == kmers[j] ==>
                      s[i].sequenceLength <= s[c[j]].sequenceLength
                      && (i < c[j] ==> s[i].sequenceLength < s[c[j]].sequenceLength)
  {
    var c := ChosenFrom(s, 0);
    ColumnsAt(s, c);
    ChosenIncrease(s, 0);
    ChosenLongest(s, 0);
    ChosenCount(s, 0);
  }

  /**
   * In targetTableSort order the id written for each k-mer is that of its
   * first record, which the sort has made one of greatest sequence length.
   */
  lemma SortedWritesRunHeads(s: seq<TargetEntry>, start: nat)
    requires SortedBy(s, TargetLess) && start <= |s|
    ensures var c := ChosenFrom(s, start);
            forall j :: 0 <= j < |c| ==> c[j] == start || s[c[j] - 1].kmer != s[c[j]].kmer
  {
    forall p | start <= p < |s|
      ensures Best(s, p, RunEnd(s, p)) == p
    {
      RunEndSpec(s, p);
      SortedRunHeadIsBest(s, p, RunEnd(s, p));
    }
    HeadsChosenFrom(s, start);
  }

  /** When every run from `start` on keeps its first record, each chosen record opens a run. */
  lemma {:induction false} HeadsChosenFrom(s: seq<TargetEntry>, start: nat)
    requires start <= |s|
    requires forall p :: start <= p < |s| ==> Best(s, p, RunEnd(s, p)) == p
    ensures var c := ChosenFrom(s, start);
            forall j :: 0 <= j < |c| ==> c[j] == start || s[c[j] - 1].kmer != s[c[j]].kmer
    decreases |s| - start
  {
    if start < |s| {
      HeadsChosenFrom(s, RunEnd(s, start));
      HeadThenRunHeads(s, start);
    }
  }

  /** One step of `HeadsChosenFrom`: the first run contributes its head, the rest start a new run each. */
  lemma HeadThenRunHeads(s: seq<TargetEntry>, start: nat)
    requires start < |s| && Best(s, start, RunEnd(s, start)) == start
    requires var end, rest := RunEnd(s, start), ChosenFrom(s, RunEnd(s, start));
             forall j :: 0 <= j < |rest| ==> rest[j] == end || s[rest[j] - 1].kmer != s[rest[j]].kmer
    ensures var c := ChosenFrom(s, start);
            forall j :: 0 <= j < |c| ==> c[j] == start || s[c[j] - 1].kmer != s[c[j]].kmer
  {
    var end := RunEnd(s, start);
    ChosenUnfold(s, start);
    var c, rest := ChosenFrom(s, start), ChosenFrom(s, end);
    forall j | 0 < j < |c|
      ensures s[c[j] - 1].kmer != s[c[j]].kmer
    {
      assert c[j] == rest[j - 1];
      if c[j] == end {
        assert s[end - 1].kmer == s[start].kmer;
      }
    }
  }

  /**
   * Slots the extraction left unclaimed keep the all-zero record, are sorted
   * with the rest and are written like real ones: a sorted table holding
   * such a slot always writes k-mer 0 first, whether or not any window had
   * that value.
   */
  lemma ZeroSlotWritten(s: seq<TargetEntry>, z: nat)
    requires KmerSorted(s) && z < |s| && s[z] == ZeroTarget
    ensures var kmers := KmerColumn(s, ChosenFrom(s, 0));
            |kmers| > 0 && kmers[0] == 0
  {
    ChosenUnfold(s, 0);
    ColumnsAt(s, ChosenFrom(s, 0));
    var first, zero := s[0], s[z];
    assert first.kmer <= zero.kmer;
  }

  // ---------------------------------------------------------------------
  // writeTargetTables

  /** `chosen` are the positions written for the runs before position `runStart`. */
  ghost predicate ChosenSoFar(s: seq<TargetEntry>, chosen: seq<nat>, runStart: nat) {
    runStart <= |s| && chosen + ChosenFrom(s, runStart) == ChosenFrom(s, 0)
  }

  /** The writer's invariant carried over the end of the run `[start, end)`. */
  lemma ChosenAdvance(s: seq<TargetEntry>, chosen: seq<nat>, start: nat, end: nat)
    requires ChosenSoFar(s, chosen, start) && start < end <= |s|
    requires forall i :: start <= i < end ==> s[i].kmer == s[start].kmer
    requires end < |s| ==> s[end].kmer != s[start].kmer
    ensures ChosenSoFar(s, chosen + [Best(s, start, end)], end)
  {
    RunEndIs(s, start, end);
    AppendAssoc(chosen, [Best(s, start, end)], ChosenFrom(s, end));
  }

  /**
   * The writer holds `entryToWrite` for the run that began at `runStart`,
   * having looked at every record before position `i`.
   */
  ghost predicate Holding(s: seq<TargetEntry>, runStart: nat, i: nat, entryToWrite: nat) {
    && runStart <= i <= |s|
    && (i == 0 ==> runStart == 0 && entryToWrite == 0)
    && (i > 0 ==> runStart < i && entryToWrite == Best(s, runStart, i))
    && forall k :: runStart <= k < i ==> s[k].kmer == s[runStart].kmer
  }

  /** The two files hold the columns of the records at `chosen`. */
  ghost predicate Columns(s: seq<TargetEntry>, chosen: seq<nat>, kmers: seq<nat>, ids: seq<nat>) {
    && (forall j :: 0 <= j < |chosen| ==> chosen[j] < |s|)
    && kmers == KmerColumn(s, chosen) && ids == IdColumn(s, chosen)
  }

  lemma ColumnsAppend(s: seq<TargetEntry>, chosen: seq<nat>, kmers: seq<nat>, ids: seq<nat>, b: nat)
    requires Columns(s, chosen, kmers, ids) && b < |s|
    ensures Columns(s, chosen + [b], kmers + [s[b].kmer], ids + [s[b].sequenceId])
  {
    assert (chosen + [b])[..|chosen|] == chosen;
  }

  /** A record with the held k-mer: the writer moves to it only when its sequence is strictly longer. */
  lemma KeepHolding(s: seq<TargetEntry>, runStart: nat, i: nat, entryToWrite: nat)
    requires Holding(s, runStart, i, entryToWrite) && i < |s|
    requires s[i].kmer == s[entryToWrite].kmer
    ensures Holding(s, runStart, i + 1,
                    if s[i].sequenceLength > s[entryToWrite].sequenceLength then i else entryToWrite)
  {
  }

  /** A record with another k-mer closes the run: the held record is the one written for it. */
  lemma CloseRun(s: seq<TargetEntry>, chosen: seq<nat>, runStart: nat, i: nat, entryToWrite: nat)
    requires Holding(s, runStart, i, entryToWrite) && ChosenSoFar(s, chosen, runStart) && i < |s|
    requires s[i].kmer != s[entryToWrite].kmer
    ensures entryToWrite < |s|
    ensures ChosenSoFar(s, chosen + [entryToWrite], i) && Holding(s, i, i + 1, i)
  {
    ChosenAdvance(s, chosen, runStart, i);
  }

  /** At the end of the table the last run is closed and every run has been written. */
  lemma CloseLastRun(s: seq<TargetEntry>, chosen: seq<nat>, runStart: nat, entryToWrite: nat)
    requires Holding(s, runStart, |s|, entryToWrite) && ChosenSoFar(s, chosen, runStart) && |s| > 0
    ensures entryToWrite < |s| && chosen + [entryToWrite] == ChosenFrom(s, 0)
  {
    ChosenAdvance(s, chosen, runStart, |s|);
  }

  /**
   * writeTargetTables(targetTable, kmerCount, blockID) over the table of
   * `kmerCount + 1` slots. The k-mer file and the id file are the two
   * returned columns. With `kmerCount == 0` the loop does not run and the
   * final write still emits slot 0.
   */
  method WriteTargetTables(table: array<TargetEntry>, kmerCount: nat)
    returns (kmers: seq<nat>, ids: seq<nat>, uniqueKmerCount: nat)
    requires kmerCount < table.Length
    ensures kmerCount == 0 ==> kmers == [table[0].kmer] && ids == [table[0].sequenceId] && uniqueKmerCount == 1
    ensures kmerCount > 0 ==>
              var s := table[..kmerCount];
              kmers == KmerColumn(s, ChosenFrom(s, 0)) && ids == IdColumn(s, ChosenFrom(s, 0))
              && uniqueKmerCount == |ChosenFrom(s, 0)|
  {
    ghost var s := table[..kmerCount];
    kmers, ids, uniqueKmerCount := [], [], 0;
    var entryToWrite := 0;
    var i := 0;
    ghost var runStart := 0;
    ghost var chosen: seq<nat> := [];
    while i < kmerCount
      invariant Holding(s, runStart, i, entryToWrite) && ChosenSoFar(s, chosen, runStart)
      invariant Columns(s, chosen, kmers, ids) && uniqueKmerCount == |chosen|
    {
      if table[i].kmer == table[entryToWrite].kmer {
        KeepHolding(s, runStart, i, entryToWrite);
        if table[i].sequenceLength > table[entryToWrite].sequenceLength {
          entryToWrite := i;
        }
      } else {
        CloseRun(s, chosen, runStart, i, entryToWrite);
        ColumnsAppend(s, chosen, kmers, ids, entryToWrite);
        kmers := kmers + [table[entryToWrite].kmer];
        ids := ids + [table[entryToWrite].sequenceId];
        chosen := chosen + [entryToWrite];
        entryToWrite := i;
        runStart := i;
        uniqueKmerCount := uniqueKmerCount + 1;
      }
      i := i + 1;
    }
    if kmerCount > 0 {
      CloseLastRun(s, chosen, runStart, entryToWrite);
      ColumnsAppend(s, chosen, kmers, ids, entryToWrite);
    }
    kmers := kmers + [table[entryToWrite].kmer];
    ids := ids + [table[entryToWrite].sequenceId];
    uniqueKmerCount := uniqueKmerCount + 1;
  }
}
