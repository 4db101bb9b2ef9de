/**
 * Records shared by the k-mer prefilter stages: the query and target k-mer
 * table entries, the fixed-width integer types of the on-disk streams, and
 * the ordering vocabulary used to state what the external sort delivers.
 */
module KmerRecords {

  /** Values of an `unsigned short`. */
  type u16 = x: int | 0 <= x < 0x1_0000

  /** Values of an `unsigned int`. */
  type u32 = x: int | 0 <= x < 0x1_0000_0000

  /** One k-mer occurrence of a query sequence (QueryTableEntry). */
  datatype QueryEntry = QueryEntry(
    querySequenceId: nat,
    kmer: nat,
    kmerPosInQuery: nat,
    targetSequenceId: nat)

  /** One k-mer occurrence of a target sequence (TargetTableEntry). */
  datatype TargetEntry = TargetEntry(
    kmer: nat,
    sequenceId: nat,
    sequenceLength: nat)

  /** The all-zero record that `calloc` leaves in a slot nobody claimed. */
  const ZeroTarget := TargetEntry(0, 0, 0)
  const ZeroQuery := QueryEntry(0, 0, 0, 0)

  /** `s` is ordered by the comparator `less`: no later element is less than an earlier one. */
  ghost predicate SortedBy<T>(s: seq<T>, less: (T, T) -> bool) {
    forall i, j :: 0 <= i < j < |s| ==> !less(s[j], s[i])
  }


  /** The requirement the standard sorting algorithms place on a comparator. */
  ghost predicate StrictWeakOrder<T(!new)>(less: (T, T) -> bool) {
    && (forall a :: !less(a, a))
    && (forall a, b, c :: less(a, b) && less(b, c) ==> less(a, c))
    && (forall a, b, c ::
          !less(a, b) && !less(b, a) && !less(b, c) && !less(c, b) ==> !less(a, c) && !less(c, a))
  }

  /** Lexicographic "less than" on key tuples of four naturals. */
  predicate KeyLess(a: (nat, nat, nat, nat), b: (nat, nat, nat, nat)) {
    || a.0 < b.0
    || (a.0 == b.0 && a.1 < b.1)
    || (a.0 == b.0 && a.1 == b.1 && a.2 < b.2)
    || (a.0 == b.0 && a.1 == b.1 && a.2 == b.2 && a.3 < b.3)
  }

  datatype Result<T, E> = Ok(value: T) | Err(error: E)

  lemma AppendAssoc<T>(a: seq<T>, b: seq<T>, c: seq<T>)
    ensures (a + b) + c == a + (b + c)
  {
  }

  /** An order-preserving subsequence: `a` is `b` with some elements dropped. */
  ghost predicate IsSubsequence<T>(a: seq<T>, b: seq<T>)
    decreases |b|
  {
    if a == [] then true
    else if b == [] then false
    else (a[0] == b[0] && IsSubsequence(a[1..], b[1..])) || IsSubsequence(a, b[1..])
  }

  lemma {:induction false} PrefixIsSubsequence<T>(b: seq<T>, k: nat)
    requires k <= |b|
    ensures IsSubsequence(b[..k], b)
    decreases k
  {
    if k > 0 {
      assert b[..k][1..] == b[1..][..k - 1];
      PrefixIsSubsequence(b[1..], k - 1);
    }
  }

  lemma {:induction false} SubsequenceAppend<T>(a1: seq<T>, b1: seq<T>, a2: seq<T>, b2: seq<T>)
    requires IsSubsequence(a1, b1) && IsSubsequence(a2, b2)
    ensures IsSubsequence(a1 + a2, b1 + b2)
    decreases |b1|
  {
    if b1 == [] {
      assert a1 == [];
      assert a1 + a2 == a2 && b1 + b2 == b2;
    } else if a1 != [] && a1[0] == b1[0] && IsSubsequence(a1[1..], b1[1..]) {
      SubsequenceAppend(a1[1..], b1[1..], a2, b2);
      assert (a1 + a2)[1..] == a1[1..] + a2 && (b1 + b2)[1..] == b1[1..] + b2;
    } else {
      if a1 != [] {
        assert IsSubsequence(a1, b1[1..]);
      }
      SubsequenceAppend(a1, b1[1..], a2, b2);
      assert (b1 + b2)[1..] == b1[1..] + b2;
    }
  }
}
