/**
 * The k-mer table builder of createkmertable: the mixed-radix value of a
 * k-mer, the exact-capacity pre-count over the database's sequence lengths,
 * and the extraction loop that walks every window of every sequence, skips
 * windows holding the X residue and claims consecutive table slots.
 *
 * The k-mer iterator of the Sequence class is not part of this model; with
 * spaced k-mers switched off it is taken to yield every window
 * residues[j..j + k] for j = 0, 1, ..., L - k of a sequence of L residues.
 */
module KmerTable {
  import opened KmerRecords

  // ---------------------------------------------------------------------
  // kmer2long

  /** MathUtil::ipow. */
  function Pow(b: nat, e: nat): (r: nat)
    ensures b > 0 ==> r > 0
  {
    if e == 0 then 1 else b * Pow(b, e - 1)
  }

  /** The value of the first `n` digits, least significant first: the sum of digits[i] * radix^i. */
  function KmerSum(digits: seq<nat>, n: nat, radix: nat): nat
    requires n <= |digits|
  {
    if n == 0 then 0 else KmerSum(digits, n - 1, radix) + digits[n - 1] * Pow(radix, n - 1)
  }

  /** kmer2long(index, kmerSize, alphabetSize): the accumulator loop. */
  method Kmer2Long(index: seq<nat>, kmerSize: nat, alphabetSize: nat) returns (kmerAsLong: nat)
    requires kmerSize <= |index|
    ensures kmerAsLong == KmerSum(index, kmerSize, alphabetSize)
  {
    kmerAsLong := 0;
    var i := 0;
    while i < kmerSize
      invariant i <= kmerSize
      invariant kmerAsLong == KmerSum(index, i, alphabetSize)
    {
      kmerAsLong := kmerAsLong + index[i] * Pow(alphabetSize, i);
      i := i + 1;
    }
  }

  ghost predicate DigitsBelow(digits: seq<nat>, radix: nat) {
    forall i :: 0 <= i < |digits| ==> digits[i] < radix
  }

  lemma MulLeft(a: nat, b: nat, m: nat)
    requires a <= b
    ensures a * m <= b * m
  {
  }

  /** With every digit below the radix the value stays below radix^n. */
  lemma {:induction false} KmerSumBound(digits: seq<nat>, n: nat, radix: nat)
    requires n <= |digits| && DigitsBelow(digits, radix)
    ensures KmerSum(digits, n, radix) < Pow(radix, n)
  {
    if n > 0 {
      KmerSumBound(digits, n - 1, radix);
      MulLeft(digits[n - 1], radix - 1, Pow(radix, n - 1));
      assert (radix - 1) * Pow(radix, n - 1) + Pow(radix, n - 1) == Pow(radix, n);
    }
  }

  /** The digit written above a lower part smaller than the place value is recovered uniquely. */
  lemma PlaceValueUnique(q1: nat, r1: nat, q2: nat, r2: nat, m: nat)
    requires r1 < m && r2 < m
    requires q1 * m + r1 == q2 * m + r2
    ensures q1 == q2 && r1 == r2
  {
    if q1 < q2 {
      MulLeft(q1 + 1, q2, m);
      assert false;
    } else if q2 < q1 {
      MulLeft(q2 + 1, q1, m);
      assert false;
    }
  }

  /**
   * Distinct windows map to distinct values: with digits below the radix,
   * two k-mers have the same value exactly when they have the same digits.
   */
  lemma {:induction false} KmerSumInjective(a: seq<nat>, b: seq<nat>, n: nat, radix: nat)
    requires n <= |a| && n <= |b|
    requires DigitsBelow(a, radix) && DigitsBelow(b, radix)
    ensures KmerSum(a, n, radix) == KmerSum(b, n, radix) <==> a[..n] == b[..n]
  {
    if n > 0 {
      KmerSumInjective(a, b, n - 1, radix);
      assert a[..n] == a[..n - 1] + [a[n - 1]];
      assert b[..n] == b[..n - 1] + [b[n - 1]];
      if KmerSum(a, n, radix) == KmerSum(b, n, radix) {
        KmerSumBound(a, n - 1, radix);
        KmerSumBound(b, n - 1, radix);
        PlaceValueUnique(a[n - 1], KmerSum(a, n - 1, radix), b[n - 1], KmerSum(b, n - 1, radix), Pow(radix, n - 1));
      }
    }
  }

  // ---------------------------------------------------------------------
  // The pre-count

  /**
   * Windows of a sequence whose reader length is `seqLen`: the reader counts
   * two characters (newline and terminator) beyond the residues.
   */
  function WindowsOf(seqLen: nat, kmerSize: nat): nat
    requires seqLen >= 2
  {
    if seqLen - 2 >= kmerSize then seqLen - 2 - kmerSize + 1 else 0
  }

  /** The number of windows over the first `n` sequences. */
  function KmerCapacity(seqLens: seq<nat>, n: nat, kmerSize: nat): nat
    requires n <= |seqLens|
    requires forall i :: 0 <= i < |seqLens| ==> seqLens[i] >= 2
  {
    if n == 0 then 0 else KmerCapacity(seqLens, n - 1, kmerSize) + WindowsOf(seqLens[n - 1], kmerSize)
  }

  /** The counting loop that sizes the table. */
  method CountKmers(seqLens: seq<nat>, kmerSize: nat) returns (kmerCount: nat)
    requires forall i :: 0 <= i < |seqLens| ==> seqLens[i] >= 2
    ensures kmerCount == KmerCapacity(seqLens, |seqLens|, kmerSize)
  {
    kmerCount := 0;
    var i := 0;
    while i < |seqLens|
      invariant i <= |seqLens|
      invariant kmerCount == KmerCapacity(seqLens, i, kmerSize)
    {
      var currentSequenceLength := seqLens[i] - 2;
      kmerCount := kmerCount + if currentSequenceLength >= kmerSize then currentSequenceLength - kmerSize + 1 else 0;
      i := i + 1;
    }
  }

  // ---------------------------------------------------------------------
  // Extraction

  /** One database sequence: its key and its residues as alphabet indices. */
  datatype SeqInput = SeqInput(id: nat, residues: seq<nat>)

  /**
   * A window that goes into the table: its sequence, its digits, its 1-based
   * window number and the residue count of its sequence (the reader's
   * length less two).
   */
  datatype Window = Window(seqId: nat, digits: seq<nat>, pos: nat, length: nat)

  /** The number of X residues among the first `n` digits of a window. */
  function XCount(w: seq<nat>, n: nat, xIndex: nat): nat
    requires n <= |w|
  {
    if n == 0 then 0 else XCount(w, n - 1, xIndex) + if w[n - 1] == xIndex then 1 else 0
  }

  /** The count is positive exactly when the X residue occurs among those digits. */
  lemma {:induction false} XCountPositive(w: seq<nat>, n: nat, xIndex: nat)
    requires n <= |w|
    ensures XCount(w, n, xIndex) > 0 <==> exists i :: 0 <= i < n && w[i] == xIndex
    ensures XCount(w, n, xIndex) <= n
  {
    if n > 0 {
      XCountPositive(w, n - 1, xIndex);
      if w[n - 1] == xIndex {
        assert w[n - 1] == xIndex;
      }
    }
  }

  /** The windows of `sq` from window `j` on that hold no X residue. */
  function WindowsFrom(sq: SeqInput, kmerSize: nat, xIndex: nat, j: nat): (r: seq<Window>)
    decreases |sq.residues| - j
  {
    if j + kmerSize > |sq.residues| then []
    else
      var w := sq.residues[j..j + kmerSize];
      var rest := WindowsFrom(sq, kmerSize, xIndex, j + 1);
      if XCount(w, kmerSize, xIndex) > 0 then rest else [Window(sq.id, w, j + 1, |sq.residues|)] + rest
  }

  /** The windows of the first `n` sequences, in order. */
  function AllWindows(seqs: seq<SeqInput>, n: nat, kmerSize: nat, xIndex: nat): seq<Window>
    requires n <= |seqs|
  {
    if n == 0 then [] else AllWindows(seqs, n - 1, kmerSize, xIndex) + WindowsFrom(seqs[n - 1], kmerSize, xIndex, 0)
  }

  /** The target table record of a window: its value, its sequence and the residue count. */
  function TargetRecord(w: Window, radix: nat): (r: TargetEntry) {
    TargetEntry(KmerSum(w.digits, |w.digits|, radix), w.seqId, w.length)
  }

  /**
   * The query table record of a window (the branch `isQuery()` switches
   * off): the window number is kept in a 16-bit field.
   */
  function QueryRecord(w: Window, radix: nat): (r: QueryEntry)
    ensures r.kmerPosInQuery < 0x1_0000 && r.targetSequenceId == 0
    ensures r.kmer == KmerSum(w.digits, |w.digits|, radix)
  {
    QueryEntry(w.seqId, KmerSum(w.digits, |w.digits|, radix), w.pos % 0x1_0000, 0)
  }

  function TargetRecords(ws: seq<Window>, radix: nat): (r: seq<TargetEntry>)
    ensures |r| == |ws|
  {
    if ws == [] then [] else [TargetRecord(ws[0], radix)] + TargetRecords(ws[1..], radix)
  }

  /** Every window: the X residue is absent, the digits sit at its position, the length is the reader's. */
  lemma {:induction false} WindowsFromShape(sq: SeqInput, kmerSize: nat, xIndex: nat, j: nat)
    requires j + kmerSize <= |sq.residues| + 1
    ensures forall w :: w in WindowsFrom(sq, kmerSize, xIndex, j) ==>
              && w.seqId == sq.id && w.length == |sq.residues|
              && |w.digits| == kmerSize && XCount(w.digits, kmerSize, xIndex) == 0
              && j + 1 <= w.pos && w.pos - 1 + kmerSize <= |sq.residues|
              && w.digits == sq.residues[w.pos - 1..w.pos - 1 + kmerSize]
    ensures |WindowsFrom(sq, kmerSize, xIndex, j)| <= |sq.residues| + 1 - kmerSize - j
    decreases |sq.residues| + 1 - kmerSize - j
  {
    if j + kmerSize <= |sq.residues| {
      WindowsFromShape(sq, kmerSize, xIndex, j + 1);
    }
  }

  /** A window is left out exactly when it holds the X residue. */
  lemma {:induction false} WindowsFromComplete(sq: SeqInput, kmerSize: nat, xIndex: nat, j: nat, p: nat)
    requires j <= p && p + kmerSize <= |sq.residues|
    requires XCount(sq.residues[p..p + kmerSize], kmerSize, xIndex) == 0
    ensures Window(sq.id, sq.residues[p..p + kmerSize], p + 1, |sq.residues|) in WindowsFrom(sq, kmerSize, xIndex, j)
    decreases p - j
  {
    if j < p {
      WindowsFromComplete(sq, kmerSize, xIndex, j + 1, p);
    }
  }

  /** A sequence yields at most as many table records as the pre-count reserves for it. */
  lemma SeqWindowsFit(sq: SeqInput, kmerSize: nat, xIndex: nat)
    ensures |WindowsFrom(sq, kmerSize, xIndex, 0)| <= WindowsOf(|sq.residues| + 2, kmerSize)
  {
    if kmerSize <= |sq.residues| {
      WindowsFromShape(sq, kmerSize, xIndex, 0);
    }
  }

  function ReaderLengths(seqs: seq<SeqInput>): (r: seq<nat>)
    ensures |r| == |seqs|
    ensures forall i :: 0 <= i < |seqs| ==> r[i] == |seqs[i].residues| + 2
  {
    if seqs == [] then [] else [|seqs[0].residues| + 2] + ReaderLengths(seqs[1..])
  }

  /**
   * When the reader's lengths are those of the sequences, the extraction
   * never claims more slots than the pre-count reserved, so the fatal slot
   * check cannot fire.
   */
  lemma {:induction false} ExtractionFits(seqs: seq<SeqInput>, n: nat, kmerSize: nat, xIndex: nat)
    requires n <= |seqs|
    ensures |AllWindows(seqs, n, kmerSize, xIndex)| <= KmerCapacity(ReaderLengths(seqs), n, kmerSize)
  {
    if n > 0 {
      ExtractionFits(seqs, n - 1, kmerSize, xIndex);
      SeqWindowsFit(seqs[n - 1], kmerSize, xIndex);
    }
  }

  /** The X-count loop over one window. */
  method CountX(kmer: seq<nat>, kmerSize: nat, xIndex: nat) returns (xCount: nat)
    requires kmerSize <= |kmer|
    ensures xCount == XCount(kmer, kmerSize, xIndex)
  {
    xCount := 0;
    var pos := 0;
    while pos < kmerSize
      invariant pos <= kmerSize
      invariant xCount == XCount(kmer, pos, xIndex)
    {
      xCount := xCount + if kmer[pos] == xIndex then 1 else 0;
      pos := pos + 1;
    }
  }

  /**
   * The extraction over all sequences, filling the `calloc`ed target table
   * in place. The shared slot counter starts at 0; claiming a slot at or
   * beyond `kmerCount` is fatal and returns the offending index. `radix` is
   * the value handed to kmer2long, the alphabet size less one.
   */
  method ExtractTargetKmers(seqs: seq<SeqInput>, kmerSize: nat, radix: nat, xIndex: nat,
                            table: array<TargetEntry>, kmerCount: nat)
    returns (r: Result<nat, nat>)
    requires kmerCount < table.Length
    modifies table
    ensures var ws := AllWindows(seqs, |seqs|, kmerSize, xIndex);
            && (r.Ok? <==> |ws| <= kmerCount)
            && (r.Ok? ==> r.value == |ws| && table[..r.value] == TargetRecords(ws, radix)
                          && table[r.value..] == old(table[r.value..]))
            && (r.Err? ==> r.error == kmerCount)
  {
    var tableIndex := 0;
    var i := 0;
    while i < |seqs|
      invariant i <= |seqs|
      invariant tableIndex == |AllWindows(seqs, i, kmerSize, xIndex)| <= kmerCount
      invariant table[..tableIndex] == TargetRecords(AllWindows(seqs, i, kmerSize, xIndex), radix)
      invariant forall t :: tableIndex <= t < table.Length ==> table[t] == old(table[t])
    {
      var res := ExtractSequence(seqs[i], kmerSize, radix, xIndex, table, tableIndex, kmerCount);
      TargetRecordsAppend(AllWindows(seqs, i, kmerSize, xIndex), WindowsFrom(seqs[i], kmerSize, xIndex, 0), radix);
      if res.Err? {
        AllWindowsGrow(seqs, i + 1, |seqs|, kmerSize, xIndex);
        return Err(res.error);
      }
      tableIndex := res.value;
      i := i + 1;
    }
    assert table[tableIndex..] == old(table[tableIndex..]);
    return Ok(tableIndex);
  }

  /** `done` are the windows of `sq` before window `j`. */
  ghost predicate WindowsSoFar(sq: SeqInput, kmerSize: nat, xIndex: nat, done: seq<Window>, j: nat) {
    done + WindowsFrom(sq, kmerSize, xIndex, j) == WindowsFrom(sq, kmerSize, xIndex, 0)
  }

  /** Slots `from` up to `to` hold the records of `done`, in order. */
  ghost predicate SlotsHold(table: array<TargetEntry>, from: nat, to: nat, done: seq<Window>, radix: nat)
    reads table
  {
    from <= to <= table.Length && to - from == |done|
    && forall t :: from <= t < to ==> table[t] == TargetRecord(done[t - from], radix)
  }

  /**
   * The window loop of one sequence (`while (s.hasNextKmer())`): each window
   * without X claims the next slot and gets its record.
   */
  method ExtractSequence(sq: SeqInput, kmerSize: nat, radix: nat, xIndex: nat,
                         table: array<TargetEntry>, tableIndex: nat, kmerCount: nat)
    returns (r: Result<nat, nat>)
    requires tableIndex <= kmerCount < table.Length
    modifies table
    ensures var ws := WindowsFrom(sq, kmerSize, xIndex, 0);
            && (r.Ok? <==> tableIndex + |ws| <= kmerCount)
            && (r.Ok? ==> r.value == tableIndex + |ws|
                          && table[..r.value] == old(table[..tableIndex]) + TargetRecords(ws, radix)
                          && forall t :: r.value <= t < table.Length ==> table[t] == old(table[t]))
            && (r.Err? ==> r.error == kmerCount)
  {
    var next := tableIndex;
    var j := 0;
    ghost var done: seq<Window> := [];
    while j + kmerSize <= |sq.residues|
      invariant WindowsSoFar(sq, kmerSize, xIndex, done, j)
      invariant next == tableIndex + |done| <= kmerCount
      invariant SlotsHold(table, tableIndex, next, done, radix)
      invariant forall t :: 0 <= t < tableIndex || next <= t < table.Length ==> table[t] == old(table[t])
      decreases |sq.residues| - j
    {
      var res;
      res, done := ExtractWindow(sq, kmerSize, radix, xIndex, table, tableIndex, kmerCount, j, next, done);
      if res.Err? {
        return res;
      }
      next := res.value;
      j := j + 1;
    }
    assert done == WindowsFrom(sq, kmerSize, xIndex, 0) by {
      assert WindowsFrom(sq, kmerSize, xIndex, j) == [];
    }
    SlotsFilled(old(table[..]), table[..], tableIndex, next, done, radix);
    return Ok(next);
  }

  /**
   * One pass of the window loop: the X count of window `j`, and for a window
   * without X the claim of the next slot, the fatal bound check and the
   * record written there.
   */
  method ExtractWindow(sq: SeqInput, kmerSize: nat, radix: nat, xIndex: nat,
                       table: array<TargetEntry>, tableIndex: nat, kmerCount: nat,
                       j: nat, next: nat, ghost done: seq<Window>)
    returns (r: Result<nat, nat>, ghost done': seq<Window>)
    requires j + kmerSize <= |sq.residues|
    requires WindowsSoFar(sq, kmerSize, xIndex, done, j)
    requires next == tableIndex + |done| <= kmerCount < table.Length
    requires SlotsHold(table, tableIndex, next, done, radix)
    modifies table
    ensures r.Ok? ==> && WindowsSoFar(sq, kmerSize, xIndex, done', j + 1)
                      && r.value == tableIndex + |done'| <= kmerCount
                      && SlotsHold(table, tableIndex, r.value, done', radix)
                      && forall t :: 0 <= t < tableIndex || r.value <= t < table.Length ==> table[t] == old(table[t])
    ensures r.Err? ==> r.error == kmerCount && tableIndex + |WindowsFrom(sq, kmerSize, xIndex, 0)| > kmerCount
  {
    var kmer := sq.residues[j..j + kmerSize];
    var xCount := CountX(kmer, kmerSize, xIndex);
    WindowStep(sq, kmerSize, xIndex, done, j);
    if xCount != 0 {
      return Ok(next), done;
    }
    ghost var w := Window(sq.id, kmer, j + 1, |sq.residues|);
    var localTableIndex := next;
    if localTableIndex >= kmerCount {
      SoFarBound(sq, kmerSize, xIndex, done + [w], j + 1);
      return Err(localTableIndex), done;
    }
    var value := Kmer2Long(kmer, kmerSize, radix);
    table[localTableIndex] := TargetEntry(value, sq.id, |sq.residues|);
    done' := done + [w];
    r := Ok(next + 1);
  }

  /** Slot-by-slot facts about the table, restated on whole slices. */
  lemma SlotsFilled(before: seq<TargetEntry>, after: seq<TargetEntry>, from: nat, to: nat, done: seq<Window>, radix: nat)
    requires |before| == |after| && from <= to <= |after| && to - from == |done|
    requires forall t :: from <= t < to ==> after[t] == TargetRecord(done[t - from], radix)
    requires forall t :: 0 <= t < from || to <= t < |after| ==> after[t] == before[t]
    ensures after[..to] == before[..from] + TargetRecords(done, radix)
  {
    TargetRecordsAt(done, radix);
  }

  lemma {:induction false} TargetRecordsAt(ws: seq<Window>, radix: nat)
    ensures forall i :: 0 <= i < |ws| ==> TargetRecords(ws, radix)[i] == TargetRecord(ws[i], radix)
  {
    if ws != [] {
      TargetRecordsAt(ws[1..], radix);
    }
  }

  /** The window loop's invariant carried over window `j`. */
  lemma WindowStep(sq: SeqInput, kmerSize: nat, xIndex: nat, done: seq<Window>, j: nat)
    requires j + kmerSize <= |sq.residues|
    requires WindowsSoFar(sq, kmerSize, xIndex, done, j)
    ensures var w := sq.residues[j..j + kmerSize];
            && (XCount(w, kmerSize, xIndex) > 0 ==> WindowsSoFar(sq, kmerSize, xIndex, done, j + 1))
            && (XCount(w, kmerSize, xIndex) == 0 ==> WindowsSoFar(sq, kmerSize, xIndex, done + [Window(sq.id, w, j + 1, |sq.residues|)], j + 1))
  {
    var w := sq.residues[j..j + kmerSize];
    if XCount(w, kmerSize, xIndex) == 0 {
      AppendAssoc(done, [Window(sq.id, w, j + 1, |sq.residues|)], WindowsFrom(sq, kmerSize, xIndex, j + 1));
    }
  }

  /** Windows found so far never outnumber the windows of the sequence. */
  lemma SoFarBound(sq: SeqInput, kmerSize: nat, xIndex: nat, done: seq<Window>, j: nat)
    requires WindowsSoFar(sq, kmerSize, xIndex, done, j)
    ensures |done| <= |WindowsFrom(sq, kmerSize, xIndex, 0)|
  {
  }

  lemma {:induction false} AllWindowsGrow(seqs: seq<SeqInput>, n: nat, m: nat, kmerSize: nat, xIndex: nat)
    requires n <= m <= |seqs|
    ensures |AllWindows(seqs, n, kmerSize, xIndex)| <= |AllWindows(seqs, m, kmerSize, xIndex)|
    decreases m - n
  {
    if n < m {
      AllWindowsGrow(seqs, n, m - 1, kmerSize, xIndex);
    }
  }

  lemma {:induction false} TargetRecordsAppend(a: seq<Window>, b: seq<Window>, radix: nat)
    ensures TargetRecords(a + b, radix) == TargetRecords(a, radix) + TargetRecords(b, radix)
  {
    TargetRecordsAt(a + b, radix);
    TargetRecordsAt(a, radix);
    TargetRecordsAt(b, radix);
  }
}
