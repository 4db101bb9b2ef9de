/**
 * The encoded target index read by compare2kmertables: a stream of 16-bit
 * k-mer deltas and, position by position, a stream of 32-bit target ids.
 * The delta value `maxshort` (65534) is an escape: it adds 65534 to the
 * running k-mer and the entry continues at the next position. Any other
 * value ends an entry: the running k-mer after adding it is the entry's
 * k-mer, and the id at that same position is the entry's target id.
 */
module DeltaStream {
  import opened KmerRecords

  /** `maxshort`, the escape value of the delta stream. */
  const MaxShort: nat := 65534

  /** One decoded index entry: a target k-mer and the target it was kept for. */
  datatype Entry = Entry(kmer: nat, id: u32)

  /** Sum of a sequence of delta values. */
  function Sum(s: seq<u16>): nat {
    if s == [] then 0 else Sum(s[..|s| - 1]) + s[|s| - 1]
  }

  /**
   * Decodes a stream whose running k-mer starts at `base`. A trailing run of
   * escapes that no terminating value follows contributes no entry.
   */
  function DecodeRun(deltas: seq<u16>, ids: seq<u32>, base: nat): (r: seq<Entry>)
    requires |deltas| <= |ids|
    ensures |r| <= |deltas|
    decreases |deltas|
  {
    if deltas == [] then []
    else if deltas[0] == MaxShort then DecodeRun(deltas[1..], ids[1..], base + MaxShort)
    else [Entry(base + deltas[0], ids[0])] + DecodeRun(deltas[1..], ids[1..], base + deltas[0])
  }

  /** The entries a whole index stream holds. */
  function Decode(deltas: seq<u16>, ids: seq<u32>): seq<Entry>
    requires |deltas| <= |ids|
  {
    DecodeRun(deltas, ids, 0)
  }

  /** The k-mers of a decoded run never go below the base and never decrease. */
  lemma {:induction false} DecodeRunAbove(deltas: seq<u16>, ids: seq<u32>, base: nat)
    requires |deltas| <= |ids|
    ensures forall e :: e in DecodeRun(deltas, ids, base) ==> e.kmer >= base
    ensures NonDecreasing(DecodeRun(deltas, ids, base))
    decreases |deltas|
  {
    if deltas != [] {
      if deltas[0] == MaxShort {
        DecodeRunAbove(deltas[1..], ids[1..], base + MaxShort);
      } else {
        DecodeRunAbove(deltas[1..], ids[1..], base + deltas[0]);
      }
    }
  }

  ghost predicate NonDecreasing(es: seq<Entry>) {
    forall i, j :: 0 <= i < j < |es| ==> es[i].kmer <= es[j].kmer
  }

  ghost predicate StrictlyIncreasing(es: seq<Entry>) {
    forall i, j :: 0 <= i < j < |es| ==> es[i].kmer < es[j].kmer
  }

  // ---------------------------------------------------------------------
  // Reference reading: one entry per terminating position, its k-mer the
  // sum of every stream value up to and including that position.

  /** The entries that the first `n` stream positions complete. */
  function EntriesUpTo(deltas: seq<u16>, ids: seq<u32>, n: nat): seq<Entry>
    requires n <= |deltas| <= |ids|
  {
    if n == 0 then []
    else if deltas[n - 1] == MaxShort then EntriesUpTo(deltas, ids, n - 1)
    else EntriesUpTo(deltas, ids, n - 1) + [Entry(Sum(deltas[..n]), ids[n - 1])]
  }

  lemma {:induction false} DecodeFromPosition(deltas: seq<u16>, ids: seq<u32>, p: nat)
    requires p <= |deltas| <= |ids|
    ensures EntriesUpTo(deltas, ids, p) + DecodeRun(deltas[p..], ids[p..], Sum(deltas[..p]))
            == EntriesUpTo(deltas, ids, |deltas|)
    decreases |deltas| - p
  {
    if p < |deltas| {
      var s := Sum(deltas[..p]);
      assert deltas[..p + 1][..p] == deltas[..p];
      assert Sum(deltas[..p + 1]) == s + deltas[p];
      assert deltas[p..][1..] == deltas[p + 1..];
      assert ids[p..][1..] == ids[p + 1..];
      DecodeFromPosition(deltas, ids, p + 1);
      if deltas[p] != MaxShort {
        assert DecodeRun(deltas[p..], ids[p..], s)
            == [Entry(s + deltas[p], ids[p])] + DecodeRun(deltas[p + 1..], ids[p + 1..], s + deltas[p]);
      }
    }
  }

  /**
   * Decoding is the running-sum reading: the k-mer of each entry is the sum
   * of all stream values consumed up to its terminating value.
   */
  lemma DecodeIsPrefixSums(deltas: seq<u16>, ids: seq<u32>)
    requires |deltas| <= |ids|
    ensures Decode(deltas, ids) == EntriesUpTo(deltas, ids, |deltas|)
  {
    DecodeFromPosition(deltas, ids, 0);
    assert deltas[0..] == deltas && ids[0..] == ids;
  }

  // ---------------------------------------------------------------------
  // The encoder. The table writer of this system emits raw k-mers, not this
  // stream; the encoder below is the format's specification, used to state
  // what the decoder inverts.

  function Repeat<T>(x: T, n: nat): (r: seq<T>)
    ensures |r| == n && forall i :: 0 <= i < n ==> r[i] == x
  {
    if n == 0 then [] else [x] + Repeat(x, n - 1)
  }

  /** The placeholder id stored beside an escape value. */
  const PlaceholderId: u32 := 0

  ghost predicate AscendingFrom(es: seq<Entry>, prev: nat) {
    && (|es| > 0 ==> prev <= es[0].kmer)
    && (forall i :: 0 < i < |es| ==> es[i - 1].kmer <= es[i].kmer)
  }

  /**
   * Encodes entries whose k-mers do not decrease, starting from the k-mer
   * `prev`: a gap d becomes d / 65534 escapes and then d % 65534, which is
   * never the escape value itself.
   */
  ghost function Encode(es: seq<Entry>, prev: nat): (r: (seq<u16>, seq<u32>))
    requires AscendingFrom(es, prev)
    ensures |r.0| == |r.1|
    ensures forall i :: 0 <= i < |r.0| && r.0[i] != MaxShort ==> r.0[i] < MaxShort
  {
    if es == [] then ([], [])
    else
      var d: nat := es[0].kmer - prev;
      var rest := Encode(es[1..], es[0].kmer);
      (Repeat(MaxShort as u16, d / MaxShort) + [(d % MaxShort) as u16] + rest.0,
       Repeat(PlaceholderId, d / MaxShort) + [es[0].id] + rest.1)
  }

  lemma {:induction false} DecodeEscapes(n: nat, tail: seq<u16>, pids: seq<u32>, tailIds: seq<u32>, base: nat)
    requires |pids| == n && |tail| <= |tailIds|
    ensures DecodeRun(Repeat(MaxShort as u16, n) + tail, pids + tailIds, base)
         == DecodeRun(tail, tailIds, base + n * MaxShort)
  {
    if n > 0 {
      var ds := Repeat(MaxShort as u16, n) + tail;
      assert ds[1..] == Repeat(MaxShort as u16, n - 1) + tail;
      assert (pids + tailIds)[1..] == pids[1..] + tailIds;
      assert ds[0] == MaxShort;
      assert DecodeRun(ds, pids + tailIds, base)
          == DecodeRun(ds[1..], (pids + tailIds)[1..], base + MaxShort);
      DecodeEscapes(n - 1, tail, pids[1..], tailIds, base + MaxShort);
      assert base + MaxShort + (n - 1) * MaxShort == base + n * MaxShort;
    } else {
      assert Repeat(MaxShort as u16, n) + tail == tail && pids + tailIds == tailIds;
    }
  }

  /** Decoding an encoded stream gives back exactly the entries encoded. */
  lemma {:induction false} DecodeEncode(es: seq<Entry>, prev: nat)
    requires AscendingFrom(es, prev)
    ensures DecodeRun(Encode(es, prev).0, Encode(es, prev).1, prev) == es
  {
    if es != [] {
      var d := es[0].kmer - prev;
      var q, r := d / MaxShort, d % MaxShort;
      assert AscendingFrom(es[1..], es[0].kmer);
      var rest := Encode(es[1..], es[0].kmer);
      var tail := [r as u16] + rest.0;
      var tailIds := [es[0].id] + rest.1;
      assert Encode(es, prev).0 == Repeat(MaxShort as u16, q) + tail;
      assert Encode(es, prev).1 == Repeat(PlaceholderId, q) + tailIds;
      DecodeEscapes(q, tail, Repeat(PlaceholderId, q), tailIds, prev);
      assert tail[1..] == rest.0 && tailIds[1..] == rest.1;
      assert prev + q * MaxShort + r == es[0].kmer;
      DecodeEncode(es[1..], es[0].kmer);
      assert es == [es[0]] + es[1..];
    }
  }

  /** A gap of 2 * 65534 + 5 is written as two escapes and the value 5. */
  lemma OverflowExample(id1: u32, id2: u32)
    ensures Encode([Entry(7, id1), Entry(7 + 2 * MaxShort + 5, id2)], 0).0
         == [7, MaxShort as u16, MaxShort as u16, 5]
  {
    var es := [Entry(7, id1), Entry(7 + 2 * MaxShort + 5, id2)];
    assert AscendingFrom(es, 0);
    assert AscendingFrom(es[1..], 7);
    assert es[1..][1..] == [];
    assert es[1..] == [Entry(7 + 2 * MaxShort + 5, id2)];
    assert Encode(es[1..][1..], 7 + 2 * MaxShort + 5) == ([], []);
    var second := Encode(es[1..], 7);
    assert (7 + 2 * MaxShort + 5 - 7) / MaxShort == 2;
    assert (7 + 2 * MaxShort + 5 - 7) % MaxShort == 5;
    assert second.0 == Repeat(MaxShort as u16, 2) + [5 as u16] + [];
    assert Repeat(MaxShort as u16, 2) == [MaxShort as u16, MaxShort as u16];
    assert Encode(es, 0).0 == Repeat(MaxShort as u16, 0) + [7 as u16] + second.0;
  }

  // ---------------------------------------------------------------------
  // The scanning step of the matcher.

  /**
   * Starting at stream position `p` with running k-mer `acc`, consume escape
   * values and then the terminating value of the next entry, if the stream
   * holds one. The id cursor `ip` moves in lockstep with the delta cursor.
   * On return `p'` is the position of the terminating value, or the end of
   * the stream when only escapes were left.
   */
  method SkipEscapes(deltas: seq<u16>, ids: seq<u32>, p: nat, ip: nat, acc: nat)
    returns (p': nat, ip': nat, acc': nat)
    requires p <= |deltas| <= |ids|
    ensures p <= p' <= |deltas| && ip' - ip == p' - p
    ensures forall i :: p <= i < p' ==> deltas[i] == MaxShort
    ensures p' < |deltas| ==> deltas[p'] != MaxShort
    ensures p' < |deltas| ==> acc' == acc + Sum(deltas[p..p' + 1])
    ensures p' == |deltas| ==> acc' == acc + Sum(deltas[p..])
    ensures p' < |deltas| ==>
      DecodeRun(deltas[p..], ids[p..], acc)
        == [Entry(acc', ids[p'])] + DecodeRun(deltas[p' + 1..], ids[p' + 1..], acc')
    ensures p' == |deltas| ==> DecodeRun(deltas[p..], ids[p..], acc) == []
  {
    p', ip', acc' := p, ip, acc;
    while p' < |deltas| && deltas[p'] == MaxShort
      invariant p <= p' <= |deltas| && ip' - ip == p' - p
      invariant forall i :: p <= i < p' ==> deltas[i] == MaxShort
      invariant acc' == acc + Sum(deltas[p..p'])
      invariant DecodeRun(deltas[p..], ids[p..], acc) == DecodeRun(deltas[p'..], ids[p'..], acc')
    {
      SumExtend(deltas, p, p');
      DecodeStep(deltas, ids, p', acc');
      acc' := acc' + MaxShort;
      p' := p' + 1;
      ip' := ip' + 1;
    }
    if p' < |deltas| {
      SumExtend(deltas, p, p');
      DecodeStep(deltas, ids, p', acc');
      acc' := acc' + deltas[p'];
    } else {
      assert deltas[p..p'] == deltas[p..];
    }
  }

  lemma SumExtend(deltas: seq<u16>, p: nat, q: nat)
    requires p <= q < |deltas|
    ensures Sum(deltas[p..q + 1]) == Sum(deltas[p..q]) + deltas[q]
  {
    assert deltas[p..q + 1][..q - p] == deltas[p..q];
  }

  /** One position of the stream, decoded. */
  lemma DecodeStep(deltas: seq<u16>, ids: seq<u32>, p: nat, acc: nat)
    requires p < |deltas| <= |ids|
    ensures deltas[p] == MaxShort ==>
      DecodeRun(deltas[p..], ids[p..], acc) == DecodeRun(deltas[p + 1..], ids[p + 1..], acc + MaxShort)
    ensures deltas[p] != MaxShort ==>
      DecodeRun(deltas[p..], ids[p..], acc)
        == [Entry(acc + deltas[p], ids[p])] + DecodeRun(deltas[p + 1..], ids[p + 1..], acc + deltas[p])
  {
    assert deltas[p..][1..] == deltas[p + 1..] && ids[p..][1..] == ids[p + 1..];
  }
}
