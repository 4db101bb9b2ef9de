/**
 * The text side of convertsraalignments: printing one row of a gapped
 * alignment from a backtrace, tallying a run-length encoded backtrace
 * (CIGAR string) into alignment length, matches and gap openings, and
 * joining the output columns of one result line.
 */
module SraAlignments {
  import opened KmerRecords

  // ---------------------------------------------------------------------
  // printAlnSeq

  /**
   * Whether a backtrace op takes the next residue of the printed sequence:
   * 'M' always does; 'I' does for the query row and 'D' for the target row
   * (`reverse` is set for the target).
   */
  predicate Consumes(op: char, reverse: bool) {
    op == 'M' || (op == 'I' && !reverse) || (op == 'D' && reverse)
  }

  /** Whether a backtrace op prints a gap in this row. */
  predicate IsGap(op: char, reverse: bool) {
    (op == 'I' && reverse) || (op == 'D' && !reverse)
  }

  /** Residues taken by the first `n` ops. */
  function Consumed(bt: seq<char>, n: nat, reverse: bool): (c: nat)
    requires n <= |bt|
    ensures c <= n
  {
    if n == 0 then 0 else Consumed(bt, n - 1, reverse) + if Consumes(bt[n - 1], reverse) then 1 else 0
  }

  lemma {:induction false} ConsumedGrows(bt: seq<char>, i: nat, n: nat, reverse: bool)
    requires i <= n <= |bt|
    ensures Consumed(bt, i, reverse) <= Consumed(bt, n, reverse)
    decreases n - i
  {
    if i < n {
      ConsumedGrows(bt, i, n - 1, reverse);
    }
  }

  /**
   * The first `count` residues read stay inside the sequence: forwards from
   * `offset`, or on the reverse strand backwards from `offset` down to 0.
   */
  predicate Fits(seqLen: nat, offset: nat, count: nat, isReverseStrand: bool) {
    if isReverseStrand then count == 0 || (offset < seqLen && count <= offset + 1)
    else offset + count <= seqLen
  }

  /** The `k`-th residue read: `seq[offset + k]`, or the complement of `seq[offset - k]` on the reverse strand. */
  function ResidueAt(sq: seq<char>, offset: nat, k: nat, isReverseStrand: bool, complement: char -> char): char
    requires Fits(|sq|, offset, k + 1, isReverseStrand)
  {
    if isReverseStrand then complement(sq[offset - k]) else sq[offset + k]
  }

  /** The text printed for the first `n` ops of the backtrace. */
  function AlnRow(sq: seq<char>, offset: nat, bt: seq<char>, n: nat, reverse: bool, isReverseStrand: bool,
                  complement: char -> char): seq<char>
    requires n <= |bt| && Fits(|sq|, offset, Consumed(bt, n, reverse), isReverseStrand)
  {
    if n == 0 then []
    else
      var k := Consumed(bt, n - 1, reverse);
      AlnRow(sq, offset, bt, n - 1, reverse, isReverseStrand, complement)
      + if Consumes(bt[n - 1], reverse) then [ResidueAt(sq, offset, k, isReverseStrand, complement)]
        else if IsGap(bt[n - 1], reverse) then ['-']
        else []
  }

  /**
   * printAlnSeq(out, seq, offset, bt, reverse, isReverseStrand): appends the
   * row to `out`. `Orf::complement` is the parameter `complement`.
   */
  method PrintAlnSeq(out: seq<char>, sq: seq<char>, offset: nat, bt: seq<char>, reverse: bool,
                     isReverseStrand: bool, complement: char -> char)
    returns (result: seq<char>)
    requires Fits(|sq|, offset, Consumed(bt, |bt|, reverse), isReverseStrand)
    ensures result == out + AlnRow(sq, offset, bt, |bt|, reverse, isReverseStrand, complement)
  {
    result := out;
    var seqPos := 0;
    for i := 0 to |bt|
      invariant seqPos == Consumed(bt, i, reverse)
      invariant Fits(|sq|, offset, seqPos, isReverseStrand)
      invariant result == out + AlnRow(sq, offset, bt, i, reverse, isReverseStrand, complement)
    {
      ConsumedGrows(bt, i + 1, |bt|, reverse);
      RowStep(sq, offset, bt, i, reverse, isReverseStrand, complement);
      ghost var row := AlnRow(sq, offset, bt, i, reverse, isReverseStrand, complement);
      var piece;
      match bt[i] {
        case 'M' =>
          piece := [if isReverseStrand then complement(sq[offset - seqPos]) else sq[offset + seqPos]];
          seqPos := seqPos + 1;
        case 'I' =>
          if reverse {
            piece := ['-'];
          } else {
            piece := [if isReverseStrand then complement(sq[offset - seqPos]) else sq[offset + seqPos]];
            seqPos := seqPos + 1;
          }
        case 'D' =>
          if reverse {
            piece := [if isReverseStrand then complement(sq[offset - seqPos]) else sq[offset + seqPos]];
            seqPos := seqPos + 1;
          } else {
            piece := ['-'];
          }
        case _ =>
          piece := [];
      }
      AppendAssoc(out, row, piece);
      result := result + piece;
    }
  }

  /** One op of the backtrace: what it adds to the row and to the residues taken. */
  lemma RowStep(sq: seq<char>, offset: nat, bt: seq<char>, i: nat, reverse: bool, isReverseStrand: bool,
                complement: char -> char)
    requires i < |bt| && Fits(|sq|, offset, Consumed(bt, i + 1, reverse), isReverseStrand)
    ensures var k := Consumed(bt, i, reverse);
            && Consumed(bt, i + 1, reverse) == k + (if Consumes(bt[i], reverse) then 1 else 0)
            && AlnRow(sq, offset, bt, i + 1, reverse, isReverseStrand, complement)
               == AlnRow(sq, offset, bt, i, reverse, isReverseStrand, complement)
                  + if Consumes(bt[i], reverse) then [ResidueAt(sq, offset, k, isReverseStrand, complement)]
                    else if IsGap(bt[i], reverse) then ['-']
                    else []
  {
  }

  /** The ops that print something. */
  function PrintedOps(bt: seq<char>, n: nat): nat
    requires n <= |bt|
  {
    if n == 0 then 0 else PrintedOps(bt, n - 1) + if (bt[n - 1] == 'M' || bt[n - 1] == 'I' || bt[n - 1] == 'D') then 1 else 0
  }

  /** One character per 'M', 'I' or 'D', nothing for any other op. */
  lemma {:induction false} AlnRowLength(sq: seq<char>, offset: nat, bt: seq<char>, n: nat, reverse: bool,
                                        isReverseStrand: bool, complement: char -> char)
    requires n <= |bt| && Fits(|sq|, offset, Consumed(bt, n, reverse), isReverseStrand)
    ensures |AlnRow(sq, offset, bt, n, reverse, isReverseStrand, complement)| == PrintedOps(bt, n)
  {
    if n > 0 {
      AlnRowLength(sq, offset, bt, n - 1, reverse, isReverseStrand, complement);
    }
  }

  /** A row with its gap characters removed. */
  function Ungapped(s: seq<char>): seq<char> {
    if s == [] then [] else Ungapped(s[..|s| - 1]) + if s[|s| - 1] == '-' then [] else [s[|s| - 1]]
  }

  lemma UngappedSnoc(s: seq<char>, c: char)
    ensures Ungapped(s + [c]) == Ungapped(s) + if c == '-' then [] else [c]
  {
    assert (s + [c])[..|s|] == s;
  }

  /** The first `count` residues read, in reading order. */
  function Residues(sq: seq<char>, offset: nat, count: nat, isReverseStrand: bool, complement: char -> char): (r: seq<char>)
    requires Fits(|sq|, offset, count, isReverseStrand)
    ensures |r| == count
  {
    if count == 0 then []
    else Residues(sq, offset, count - 1, isReverseStrand, complement) + [ResidueAt(sq, offset, count - 1, isReverseStrand, complement)]
  }

  /**
   * Removing the gaps from a row leaves the residues it read, in order
   * (with any '-' among those residues removed as well).
   */
  lemma {:induction false} UngappedRowIsResidues(sq: seq<char>, offset: nat, bt: seq<char>, n: nat, reverse: bool,
                                                 isReverseStrand: bool, complement: char -> char)
    requires n <= |bt| && Fits(|sq|, offset, Consumed(bt, n, reverse), isReverseStrand)
    ensures Ungapped(AlnRow(sq, offset, bt, n, reverse, isReverseStrand, complement))
            == Ungapped(Residues(sq, offset, Consumed(bt, n, reverse), isReverseStrand, complement))
  {
    if n > 0 {
      var prev := AlnRow(sq, offset, bt, n - 1, reverse, isReverseStrand, complement);
      var before := Residues(sq, offset, Consumed(bt, n - 1, reverse), isReverseStrand, complement);
      RowStep(sq, offset, bt, n - 1, reverse, isReverseStrand, complement);
      ResiduesStep(sq, offset, bt, n - 1, reverse, isReverseStrand, complement);
      UngappedRowIsResidues(sq, offset, bt, n - 1, reverse, isReverseStrand, complement);
      if Consumes(bt[n - 1], reverse) {
        var c := ResidueAt(sq, offset, Consumed(bt, n - 1, reverse), isReverseStrand, complement);
        UngappedSnoc(prev, c);
        UngappedSnoc(before, c);
      } else if IsGap(bt[n - 1], reverse) {
        UngappedSnoc(prev, '-');
        assert before + [] == before && Ungapped(prev) + [] == Ungapped(prev);
      } else {
        assert before + [] == before && prev + [] == prev;
      }
    }
  }

  /** One op of the backtrace: what it adds to the residues read. */
  lemma ResiduesStep(sq: seq<char>, offset: nat, bt: seq<char>, i: nat, reverse: bool, isReverseStrand: bool,
                     complement: char -> char)
    requires i < |bt| && Fits(|sq|, offset, Consumed(bt, i + 1, reverse), isReverseStrand)
    ensures var k := Consumed(bt, i, reverse);
            Residues(sq, offset, Consumed(bt, i + 1, reverse), isReverseStrand, complement)
            == Residues(sq, offset, k, isReverseStrand, complement)
               + if Consumes(bt[i], reverse) then [ResidueAt(sq, offset, k, isReverseStrand, complement)] else []
  {
    var k := Consumed(bt, i, reverse);
    if !Consumes(bt[i], reverse) {
      assert Residues(sq, offset, k, isReverseStrand, complement) + [] == Residues(sq, offset, k, isReverseStrand, complement);
    }
  }

  lemma {:induction false} UngappedKeeps(s: seq<char>)
    requires forall i :: 0 <= i < |s| ==> s[i] != '-'
    ensures Ungapped(s) == s
  {
    if s != [] {
      UngappedKeeps(s[..|s| - 1]);
    }
  }

  /** Forwards, the residues read are the slice of the sequence that starts at `offset`. */
  lemma {:induction false} ForwardResidues(sq: seq<char>, offset: nat, count: nat, complement: char -> char)
    requires Fits(|sq|, offset, count, false)
    ensures Residues(sq, offset, count, false, complement) == sq[offset..offset + count]
  {
    if count > 0 {
      ForwardResidues(sq, offset, count - 1, complement);
    }
  }

  /**
   * On the forward strand the row without its gaps is exactly the
   * `seq[offset .. offset + seqPos)` that the ops consumed.
   */
  lemma ForwardRowSpellsSequence(sq: seq<char>, offset: nat, bt: seq<char>, reverse: bool, complement: char -> char)
    requires Fits(|sq|, offset, Consumed(bt, |bt|, reverse), false)
    requires forall k :: offset <= k < offset + Consumed(bt, |bt|, reverse) ==> sq[k] != '-'
    ensures Ungapped(AlnRow(sq, offset, bt, |bt|, reverse, false, complement))
            == sq[offset..offset + Consumed(bt, |bt|, reverse)]
  {
    var c := Consumed(bt, |bt|, reverse);
    UngappedRowIsResidues(sq, offset, bt, |bt|, reverse, false, complement);
    ForwardResidues(sq, offset, c, complement);
    UngappedKeeps(sq[offset..offset + c]);
  }

  /** The backtrace with 'I' and 'D' exchanged. */
  function SwapGaps(bt: seq<char>): (r: seq<char>)
    ensures |r| == |bt|
  {
    if bt == [] then []
    else SwapGaps(bt[..|bt| - 1]) + [if bt[|bt| - 1] == 'I' then 'D' else if bt[|bt| - 1] == 'D' then 'I' else bt[|bt| - 1]]
  }

  lemma {:induction false} SwapGapsAt(bt: seq<char>, n: nat)
    requires n <= |bt|
    ensures SwapGaps(bt)[..n] == SwapGaps(bt[..n])
    decreases |bt|
  {
    if n < |bt| {
      SwapGapsAt(bt[..|bt| - 1], n);
      assert bt[..|bt| - 1][..n] == bt[..n];
      assert SwapGaps(bt)[..n] == SwapGaps(bt)[..|bt| - 1][..n];
    } else {
      assert bt[..n] == bt;
    }
  }

  /** Consumed count and row of the target (reverse) are those of the query row over the swapped backtrace. */
  lemma {:induction false} ReverseSwapsGaps(sq: seq<char>, offset: nat, bt: seq<char>, n: nat,
                                            isReverseStrand: bool, complement: char -> char)
    requires n <= |bt|
    ensures Consumed(bt, n, true) == Consumed(SwapGaps(bt), n, false)
    ensures Fits(|sq|, offset, Consumed(bt, n, true), isReverseStrand) ==>
              AlnRow(sq, offset, bt, n, true, isReverseStrand, complement)
              == AlnRow(sq, offset, SwapGaps(bt), n, false, isReverseStrand, complement)
  {
    if n > 0 {
      ReverseSwapsGaps(sq, offset, bt, n - 1, isReverseStrand, complement);
      SwapGapsAt(bt, n);
      var sw := SwapGaps(bt);
      assert sw[n - 1] == SwapGaps(bt[..n])[n - 1];
      assert SwapGaps(bt[..n])[n - 1] == (if bt[n - 1] == 'I' then 'D' else if bt[n - 1] == 'D' then 'I' else bt[n - 1]) by {
        assert bt[..n][..n - 1] == bt[..n - 1];
      }
    }
  }

  // ---------------------------------------------------------------------
  // The CIGAR tally

  predicate IsDigit(c: char) {
    '0' <= c <= '9'
  }

  function DigitValue(c: char): nat
    requires IsDigit(c)
  {
    (c as int) - ('0' as int)
  }

  /** The decimal value of a run of digits, as `Util::fast_atoi` reads it. */
  function DecimalValue(ds: seq<char>): nat
    requires forall i :: 0 <= i < |ds| ==> IsDigit(ds[i])
  {
    if ds == [] then 0 else DecimalValue(ds[..|ds| - 1]) * 10 + DigitValue(ds[|ds| - 1])
  }

  /** The length of the run of digits that starts `s`. */
  function LeadingDigits(s: seq<char>): (d: nat)
    ensures d <= |s|
    ensures forall i :: 0 <= i < d ==> IsDigit(s[i])
    ensures d < |s| ==> !IsDigit(s[d])
  {
    if s == [] || !IsDigit(s[0]) then 0 else 1 + LeadingDigits(s[1..])
  }

  lemma {:induction false} LeadingDigitsIs(s: seq<char>, d: nat)
    requires d <= |s|
    requires forall i :: 0 <= i < d ==> IsDigit(s[i])
    requires d < |s| ==> !IsDigit(s[d])
    ensures LeadingDigits(s) == d
  {
    if d > 0 {
      LeadingDigitsIs(s[1..], d - 1);
    }
  }

  /** One run of the backtrace: its count and its op ('\0' when digits end the string). */
  datatype CigarRun = CigarRun(count: nat, op: char)

  /**
   * The runs the tally loop reads: digits (none counts 0) followed by one op
   * character; digits at the very end are followed by the string's
   * terminating '\0'.
   */
  function ParseCigar(bt: seq<char>): seq<CigarRun>
    decreases |bt|
  {
    if bt == [] then []
    else
      var d := LeadingDigits(bt);
      var count := DecimalValue(bt[..d]);
      if d == |bt| then [CigarRun(count, '\0')]
      else [CigarRun(count, bt[d])] + ParseCigar(bt[d + 1..])
  }

  /** An op with no digits in front of it is a run of count 0. */
  lemma BareOpCountsZero(bt: seq<char>)
    requires bt != [] && !IsDigit(bt[0])
    ensures var r := ParseCigar(bt); |r| > 0 && r[0] == CigarRun(0, bt[0])
  {
    LeadingDigitsIs(bt, 0);
  }

  /** The sum of all run counts. */
  function TotalCount(runs: seq<CigarRun>): nat {
    if runs == [] then 0 else TotalCount(runs[..|runs| - 1]) + runs[|runs| - 1].count
  }

  /** The sum of the counts of 'M' runs. */
  function MatchCount(runs: seq<CigarRun>): nat {
    if runs == [] then 0
    else MatchCount(runs[..|runs| - 1]) + if runs[|runs| - 1].op == 'M' then runs[|runs| - 1].count else 0
  }

  /** A deletion or insertion run opens a gap. */
  predicate OpensGap(op: char) {
    op == 'D' || op == 'I'
  }

  /** The number of 'D' and 'I' runs, whatever their counts. */
  function GapOpens(runs: seq<CigarRun>): nat {
    if runs == [] then 0
    else GapOpens(runs[..|runs| - 1]) + if OpensGap(runs[|runs| - 1].op) then 1 else 0
  }

  /** What is left of the backtrace from `pos` on; the loop may step one past the end. */
  function Rest(bt: seq<char>, pos: nat): seq<char> {
    if pos <= |bt| then bt[pos..] else []
  }

  /** The loop's view of one run: its digits span `[start, end)` and its op sits at `end`. */
  lemma ParseStep(bt: seq<char>, start: nat, end: nat)
    requires start < |bt| && start <= end <= |bt|
    requires forall i :: start <= i < end ==> IsDigit(bt[i])
    requires end < |bt| ==> !IsDigit(bt[end])
    ensures ParseCigar(bt[start..])
            == [CigarRun(DecimalValue(bt[start..end]), if end < |bt| then bt[end] else '\0')] + ParseCigar(Rest(bt, end + 1))
  {
    var s := bt[start..];
    LeadingDigitsIs(s, end - start);
    assert s[..end - start] == bt[start..end];
    if end < |bt| {
      assert s[end - start + 1..] == bt[end + 1..];
    }
  }

  /** `done` are the runs before `pos`; the counters are their tallies. */
  ghost predicate TalliedSoFar(bt: seq<char>, done: seq<CigarRun>, pos: nat,
                               alnLen: nat, matchCount: nat, gapOpenCount: nat) {
    && pos <= |bt| + 1
    && done + ParseCigar(Rest(bt, pos)) == ParseCigar(bt)
    && alnLen == TotalCount(done) && matchCount == MatchCount(done) && gapOpenCount == GapOpens(done)
  }

  lemma TallyAdvance(bt: seq<char>, done: seq<CigarRun>, start: nat, end: nat, cnt: nat, op: char,
                     alnLen: nat, matchCount: nat, gapOpenCount: nat,
                     done': seq<CigarRun>, alnLen': nat, matchCount': nat, gapOpenCount': nat)
    requires TalliedSoFar(bt, done, start, alnLen, matchCount, gapOpenCount)
    requires start < |bt| && start <= end <= |bt|
    requires forall i :: start <= i < end ==> IsDigit(bt[i])
    requires end < |bt| ==> !IsDigit(bt[end])
    requires cnt == DecimalValue(bt[start..end]) && op == if end < |bt| then bt[end] else '\0'
    requires done' == done + [CigarRun(cnt, op)] && alnLen' == alnLen + cnt
    requires matchCount' == matchCount + (if op == 'M' then cnt else 0)
    requires gapOpenCount' == gapOpenCount + (if OpensGap(op) then 1 else 0)
    ensures TalliedSoFar(bt, done', end + 1, alnLen', matchCount', gapOpenCount')
  {
    ParseStep(bt, start, end);
    var run := CigarRun(cnt, op);
    var later := ParseCigar(Rest(bt, end + 1));
    assert Rest(bt, start) == bt[start..];
    AppendAssoc(done, [run], later);
    TallySnoc(done, run);
  }

  /** Appending one run adds its count, its matches and its gap opening. */
  lemma TallySnoc(done: seq<CigarRun>, run: CigarRun)
    ensures TotalCount(done + [run]) == TotalCount(done) + run.count
    ensures MatchCount(done + [run]) == MatchCount(done) + if run.op == 'M' then run.count else 0
    ensures GapOpens(done + [run]) == GapOpens(done) + if OpensGap(run.op) then 1 else 0
  {
    assert (done + [run])[..|done|] == done;
  }


  /**
   * The tally inside convertsraalignments. An empty backtrace keeps the
   * result's alignment length and counts no gap openings; otherwise the
   * length is recomputed from the runs.
   */
  method CigarTally(backtrace: seq<char>, alnLength: nat) returns (alnLen: nat, matchCount: nat, gapOpenCount: nat)
    ensures backtrace == [] ==> alnLen == alnLength && matchCount == 0 && gapOpenCount == 0
    ensures backtrace != [] ==>
              var runs := ParseCigar(backtrace);
              alnLen == TotalCount(runs) && matchCount == MatchCount(runs) && gapOpenCount == GapOpens(runs)
  {
    gapOpenCount := 0;
    alnLen := alnLength;
    matchCount := 0;
    if backtrace != [] {
      alnLen := 0;
      var pos := 0;
      ghost var done: seq<CigarRun> := [];
      while pos < |backtrace|
        invariant TalliedSoFar(backtrace, done, pos, alnLen, matchCount, gapOpenCount)
        decreases |backtrace| + 1 - pos
      {
        pos, done, alnLen, matchCount, gapOpenCount := TallyRun(backtrace, pos, done, alnLen, matchCount, gapOpenCount);
      }
      assert Rest(backtrace, pos) == [];
      assert done + [] == done;
    }
  }

  /** One pass of the tally loop: reads a run's count and op and adds them to the counters. */
  method TallyRun(bt: seq<char>, pos: nat, ghost done: seq<CigarRun>, alnLen: nat, matchCount: nat, gapOpenCount: nat)
    returns (pos': nat, ghost done': seq<CigarRun>, alnLen': nat, matchCount': nat, gapOpenCount': nat)
    requires pos < |bt| && TalliedSoFar(bt, done, pos, alnLen, matchCount, gapOpenCount)
    ensures pos < pos' && TalliedSoFar(bt, done', pos', alnLen', matchCount', gapOpenCount')
  {
    var end, cnt := ReadCount(bt, pos);
    var op := if end < |bt| then bt[end] else '\0';
    alnLen' := alnLen + cnt;
    matchCount' := matchCount;
    gapOpenCount' := gapOpenCount;
    if op == 'M' {
      matchCount' := matchCount + cnt;
    } else if op == 'D' || op == 'I' {
      gapOpenCount' := gapOpenCount + 1;
    }
    pos' := end + 1;
    done' := done + [CigarRun(cnt, op)];
    TallyAdvance(bt, done, pos, end, cnt, op, alnLen, matchCount, gapOpenCount, done', alnLen', matchCount', gapOpenCount');
  }

  /**
   * The count in front of an op: `fast_atoi` of the digits at `pos` and the
   * loop that steps over them; no digits count 0.
   */
  method ReadCount(bt: seq<char>, pos: nat) returns (end: nat, cnt: nat)
    requires pos < |bt|
    ensures pos <= end <= |bt|
    ensures forall i :: pos <= i < end ==> IsDigit(bt[i])
    ensures end < |bt| ==> !IsDigit(bt[end])
    ensures cnt == DecimalValue(bt[pos..end])
  {
    end := pos;
    cnt := 0;
    if IsDigit(bt[end]) {
      while end < |bt| && IsDigit(bt[end])
        invariant pos <= end <= |bt|
        invariant forall i :: pos <= i < end ==> IsDigit(bt[i])
      {
        end := end + 1;
      }
      cnt := DecimalValue(bt[pos..end]);
    }
  }

  /** The digits of `n` in decimal, most significant first. */
  function Digits(n: nat): (ds: seq<char>)
    ensures |ds| > 0 && forall i :: 0 <= i < |ds| ==> IsDigit(ds[i])
  {
    if n < 10 then [('0' as int + n) as char] else Digits(n / 10) + [('0' as int + n % 10) as char]
  }

  lemma {:induction false} DigitsValue(n: nat)
    ensures DecimalValue(Digits(n)) == n
  {
    if n >= 10 {
      DigitsValue(n / 10);
      var ds := Digits(n);
      assert ds[..|ds| - 1] == Digits(n / 10);
    }
  }

  /** A backtrace written as count-then-op runs. */
  function RenderCigar(runs: seq<CigarRun>): seq<char> {
    if runs == [] then [] else Digits(runs[0].count) + [runs[0].op] + RenderCigar(runs[1..])
  }

  /** Parsing a rendered backtrace gives its runs back, as long as no op is a digit. */
  lemma {:induction false} ParseRender(runs: seq<CigarRun>)
    requires forall i :: 0 <= i < |runs| ==> !IsDigit(runs[i].op)
    ensures ParseCigar(RenderCigar(runs)) == runs
  {
    if runs != [] {
      var ds := Digits(runs[0].count);
      var rest := RenderCigar(runs[1..]);
      var bt := ds + [runs[0].op] + rest;
      LeadingDigitsIs(bt, |ds|);
      assert bt[..|ds|] == ds;
      assert bt[|ds| + 1..] == rest;
      DigitsValue(runs[0].count);
      ParseRender(runs[1..]);
    }
  }

  // ---------------------------------------------------------------------
  // Output columns

  /** The line after `i` columns: each column but the last is followed by one tab. */
  function Line(fields: seq<seq<char>>, i: nat): seq<char>
    requires i <= |fields|
  {
    if i == 0 then [] else Line(fields, i - 1) + fields[i - 1] + if i < |fields| then ['\t'] else []
  }

  /**
   * The column loop of the tabular format: every column is appended and
   * followed by a tab unless it is the last, then the line ends in '\n'.
   * The rendered column texts are the parameter `fields`.
   */
  method AppendColumns(result: seq<char>, fields: seq<seq<char>>) returns (line: seq<char>)
    ensures line == result + Line(fields, |fields|) + ['\n']
  {
    line := result;
    for i := 0 to |fields|
      invariant line == result + Line(fields, i)
    {
      line := line + fields[i];
      if i < |fields| - 1 {
        line := line + ['\t'];
      }
    }
    line := line + ['\n'];
  }

  /** Splitting a text at its tabs. */
  function SplitTabs(s: seq<char>): (r: seq<seq<char>>)
    ensures |r| > 0
  {
    if s == [] then [[]]
    else
      var parts := SplitTabs(s[..|s| - 1]);
      if s[|s| - 1] == '\t' then parts + [[]]
      else parts[..|parts| - 1] + [parts[|parts| - 1] + [s[|s| - 1]]]
  }

  /** Appending text without a tab extends the last part. */
  lemma {:induction false} SplitAppend(a: seq<char>, b: seq<char>)
    requires forall i :: 0 <= i < |b| ==> b[i] != '\t'
    ensures var pa := SplitTabs(a);
            SplitTabs(a + b) == pa[..|pa| - 1] + [pa[|pa| - 1] + b]
    decreases |b|
  {
    var pa := SplitTabs(a);
    var k := |pa| - 1;
    if b == [] {
      assert a + b == a;
      assert pa[k] + b == pa[k];
      assert pa[..k] + [pa[k]] == pa;
    } else {
      var c, b' := b[|b| - 1], b[..|b| - 1];
      SplitAppend(a, b');
      var p' := SplitTabs(a + b');
      assert (a + b)[..|a + b| - 1] == a + b';
      assert (a + b)[|a + b| - 1] == c;
      assert p'[..|p'| - 1] == pa[..k];
      assert p'[|p'| - 1] == pa[k] + b';
      assert pa[k] + b' + [c] == pa[k] + b;
    }
  }

  /** No column holds a tab. */
  ghost predicate TabFree(fields: seq<seq<char>>) {
    forall k, i :: 0 <= k < |fields| && 0 <= i < |fields[k]| ==> fields[k][i] != '\t'
  }

  lemma SplitTab(a: seq<char>)
    ensures SplitTabs(a + ['\t']) == SplitTabs(a) + [[]]
  {
    assert (a + ['\t'])[..|a|] == a;
  }

  /** Up to the end of column `i`, the line splits into the first `i` columns. */
  lemma {:induction false} SplitColumns(fields: seq<seq<char>>, i: nat)
    requires 0 < i <= |fields| && TabFree(fields)
    ensures SplitTabs(Line(fields, i - 1) + fields[i - 1]) == fields[..i]
  {
    var prev, f := Line(fields, i - 1), fields[i - 1];
    SplitAppend(prev, f);
    var pa := SplitTabs(prev);
    if i == 1 {
      assert pa == [[]];
    } else {
      var body := Line(fields, i - 2) + fields[i - 2];
      assert prev == body + ['\t'];
      SplitColumns(fields, i - 1);
      SplitTab(body);
      assert pa == fields[..i - 1] + [[]];
    }
    assert pa[..|pa| - 1] == fields[..i - 1] && pa[|pa| - 1] + f == f;
    assert fields[..i - 1] + [f] == fields[..i];
  }

  /**
   * The separators are exactly the tabs between columns: when no column
   * holds a tab, splitting the line at its tabs gives the columns back.
   */
  lemma SplitLine(fields: seq<seq<char>>)
    requires |fields| > 0 && TabFree(fields)
    ensures SplitTabs(Line(fields, |fields|)) == fields
  {
    var n := |fields|;
    SplitColumns(fields, n);
    assert Line(fields, n) == Line(fields, n - 1) + fields[n - 1];
    assert fields[..n] == fields;
  }
}
