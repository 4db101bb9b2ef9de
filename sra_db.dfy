/**
 * convert2sradb: each FASTA entry becomes one header record (name, the
 * comment after a blank, a newline) and one sequence record in which every
 * three residues are packed into a 16-bit word, five bits per residue, the
 * last word marked with the end flag of BitManipulateMacros.h.
 */
module SraDb {
  import opened BitMacros
  import opened KmerRecords

  // ---------------------------------------------------------------------
  // Five-bit groups

  /** The residues are the bytes of a C string. */
  type Byte = bv8

  const Newline: Byte := 0x0a

  /** GET_LAST_5_BITS: the low five bits of a character code. */
  function Low5(c: Byte): (g: bv16)
    ensures g < 32
  {
    (c & 0x1f) as bv16
  }

  /** The `j`-th five-bit group of a word, counting from the most significant of the three. */
  function Group(w: bv16, j: nat): bv16
    requires j < 3
  {
    if j == 0 then (w >> 10) & 0x1f else if j == 1 then (w >> 5) & 0x1f else w & 0x1f
  }

  /** Three five-bit groups side by side, the first one highest; bit 15 stays clear. */
  function Combine(g0: bv16, g1: bv16, g2: bv16): (w: bv16)
    requires g0 < 32 && g1 < 32 && g2 < 32
    ensures Group(w, 0) == g0 && Group(w, 1) == g1 && Group(w, 2) == g2
    ensures w & 0x8000 == 0
  {
    (g0 << 10) | (g1 << 5) | g2
  }

  /** PACK_TO_SHORT: the five-bit codes of three characters in one word. */
  function Pack(a: Byte, b: Byte, c: Byte): (w: bv16)
    ensures Group(w, 0) == Low5(a) && Group(w, 1) == Low5(b) && Group(w, 2) == Low5(c)
    ensures w & 0x8000 == 0
  {
    Combine(Low5(a), Low5(b), Low5(c))
  }

  /** Shifting the groups in one at a time, as the tail loop does, lays them out as `Combine` does. */
  lemma ShiftIn(g0: bv16, g1: bv16, g2: bv16)
    requires g0 < 32 && g1 < 32 && g2 < 32
    ensures ((0 as bv16) << 5) | g0 == g0
    ensures (((g0 << 5) | g1) << 5) | g2 == Combine(g0, g1, g2)
  {
  }

  /** IS_LAST_15_BITS on a word widened to `unsigned int` sees exactly bit 15. */
  lemma WordFlag(w: bv16)
    ensures IsLast15Bits(w as bv32) != 0 <==> w & 0x8000 != 0
  {
  }

  // ---------------------------------------------------------------------
  // Buffer layout

  /** The number of 16-bit words the packed sequence takes: `l / 3` plus one for a partial group. */
  function Words(l: nat): nat {
    l / 3 + if l % 3 == 0 then 0 else 1
  }

  /** How many residues the last word holds: the remainder, or three when there is none. */
  function Rem(l: nat): nat {
    if l % 3 == 0 then 3 else l % 3
  }

  /** Where the stride-3 loop stops: `i` starts at 0 and steps by 3 while `i < l - 3`. */
  function LoopEnd(l: nat): (i: nat)
    ensures i % 3 == 0
  {
    if l <= 3 then 0 else 3 * ((l - 1) / 3)
  }

  /** For a non-empty sequence the loop stops at the last word, which holds exactly `Rem(l)` residues. */
  lemma LayoutFits(l: nat)
    requires l > 0
    ensures LoopEnd(l) / 3 + 1 == Words(l)
    ensures LoopEnd(l) + Rem(l) == l
    ensures 1 <= Rem(l) <= 3
  {
  }

  /** The `j`-th group of the last word: a residue's five bits, or zero past the end or for a newline. */
  function TailGroup(s: seq<Byte>, i: nat, rem: nat, j: nat): (g: bv16)
    requires i + rem == |s| && rem <= 3 && j < 3
    ensures g < 32
  {
    if j < rem && s[i + j] != Newline then Low5(s[i + j]) else 0
  }

  /** The last word after `j` rounds of shifting in a group, before the end flag is set. */
  function TailSoFar(s: seq<Byte>, i: nat, rem: nat, j: nat): bv16
    requires i + rem == |s| && rem <= 3 && j <= 3
  {
    var g0, g1, g2 := TailGroup(s, i, rem, 0), TailGroup(s, i, rem, 1), TailGroup(s, i, rem, 2);
    if j == 0 then 0
    else if j == 1 then g0
    else if j == 2 then (g0 << 5) | g1
    else Combine(g0, g1, g2)
  }

  /** The last word: three groups and the end flag. */
  function TailWord(s: seq<Byte>, i: nat, rem: nat): (w: bv16)
    requires i + rem == |s| && rem <= 3
    ensures Group(w, 0) == TailGroup(s, i, rem, 0)
    ensures Group(w, 1) == TailGroup(s, i, rem, 1)
    ensures Group(w, 2) == TailGroup(s, i, rem, 2)
    ensures w & 0x8000 != 0
  {
    var w := Combine(TailGroup(s, i, rem, 0), TailGroup(s, i, rem, 1), TailGroup(s, i, rem, 2));
    GroupsKeepFlag(w);
    w | 0x8000
  }

  /** Setting bit 15 leaves the three groups as they were. */
  lemma GroupsKeepFlag(w: bv16)
    ensures Group(w | 0x8000, 0) == Group(w, 0) && Group(w | 0x8000, 1) == Group(w, 1)
    ensures Group(w | 0x8000, 2) == Group(w, 2)
  {
  }

  /** The tail loop's word after three rounds is the last word without its flag. */
  lemma TailSoFarDone(s: seq<Byte>, i: nat, rem: nat)
    requires i + rem == |s| && rem <= 3
    ensures TailSoFar(s, i, rem, 3) | 0x8000 == TailWord(s, i, rem)
  {
  }

  /** The full words: residues `3k`, `3k + 1`, `3k + 2` in word `k`. */
  function FullWords(s: seq<Byte>, n: nat): (ws: seq<bv16>)
    requires 3 * n <= |s|
    ensures |ws| == n
  {
    seq(n, k requires 0 <= k < n => Pack(s[3 * k], s[3 * k + 1], s[3 * k + 2]))
  }

  /**
   * The words written for a sequence: the full words and the flagged last
   * word; nothing at all for an empty sequence.
   */
  function Packed(s: seq<Byte>): (p: seq<bv16>)
  {
    if |s| == 0 then []
    else
      LayoutFits(|s|);
      var i := LoopEnd(|s|);
      FullWords(s, i / 3) + [TailWord(s, i, Rem(|s|))]
  }

  /** The buffer holds `ceil(l / 3)` words. */
  lemma PackedLength(s: seq<Byte>)
    ensures |Packed(s)| == Words(|s|)
    ensures |s| > 0 ==> |Packed(s)| == (|s| + 2) / 3
  {
    if |s| > 0 {
      LayoutFits(|s|);
    }
  }

  /** Only the last word carries the end flag, as IS_LAST_15_BITS reads it. */
  lemma PackedEndFlag(s: seq<Byte>, k: nat)
    requires k < |Packed(s)|
    ensures IsLast15Bits(Packed(s)[k] as bv32) != 0 <==> k == |Packed(s)| - 1
  {
    LayoutFits(|s|);
    var i := LoopEnd(|s|);
    var w := Packed(s)[k];
    WordFlag(w);
    if k < |Packed(s)| - 1 {
      assert w == FullWords(s, i / 3)[k];
    }
  }

  // ---------------------------------------------------------------------
  // Reading the groups back

  /** The five-bit codes of the residues. */
  function Codes(s: seq<Byte>): (cs: seq<bv16>)
    ensures |cs| == |s|
  {
    if s == [] then [] else Codes(s[..|s| - 1]) + [Low5(s[|s| - 1])]
  }

  /** All groups of a run of words, most significant first, word after word. */
  function Groups(ws: seq<bv16>): (gs: seq<bv16>)
    ensures |gs| == 3 * |ws|
  {
    if ws == [] then []
    else var w := ws[|ws| - 1]; Groups(ws[..|ws| - 1]) + [Group(w, 0), Group(w, 1), Group(w, 2)]
  }

  /** `n` zero groups. */
  function Zeros(n: nat): (z: seq<bv16>)
    ensures |z| == n
  {
    if n == 0 then [] else Zeros(n - 1) + [0]
  }

  lemma {:induction false} FullWordsGroups(s: seq<Byte>, n: nat)
    requires 3 * n <= |s|
    ensures Groups(FullWords(s, n)) == Codes(s[..3 * n])
  {
    if n > 0 {
      var ws := FullWords(s, n);
      var w := ws[n - 1];
      assert ws[..n - 1] == FullWords(s, n - 1);
      FullWordsGroups(s, n - 1);
      var a, b, c := s[3 * n - 3], s[3 * n - 2], s[3 * n - 1];
      assert s[..3 * n] == s[..3 * (n - 1)] + [a, b, c];
      CodesAppend(s[..3 * (n - 1)], [a, b, c]);
      CodesOfThree(a, b, c);
    }
  }

  lemma CodesOfThree(a: Byte, b: Byte, c: Byte)
    ensures Codes([a, b, c]) == [Low5(a), Low5(b), Low5(c)]
  {
    assert Codes([a]) == [Low5(a)] by { assert [a][..0] == []; }
    assert Codes([a, b]) == [Low5(a), Low5(b)] by { assert [a, b][..1] == [a]; }
    assert [a, b, c][..2] == [a, b];
  }

  lemma {:induction false} CodesAppend(a: seq<Byte>, b: seq<Byte>)
    ensures Codes(a + b) == Codes(a) + Codes(b)
    decreases |b|
  {
    if b != [] {
      assert (a + b)[..|a + b| - 1] == a + b[..|b| - 1];
      CodesAppend(a, b[..|b| - 1]);
    } else {
      assert a + b == a;
    }
  }

  lemma SplitJoin<T>(s: seq<T>, i: nat)
    requires i <= |s|
    ensures s[..i] + s[i..] == s
  {
  }


  lemma GroupsSnoc(ws: seq<bv16>, w: bv16)
    ensures Groups(ws + [w]) == Groups(ws) + [Group(w, 0), Group(w, 1), Group(w, 2)]
  {
    assert (ws + [w])[..|ws|] == ws;
  }

  /** The groups of the last word: the codes of the trailing residues, then zeros. */
  lemma TailCodes(s: seq<Byte>, i: nat, rem: nat)
    requires i + rem == |s| && 1 <= rem <= 3
    requires forall k :: i <= k < |s| ==> s[k] != Newline
    ensures var w := TailWord(s, i, rem);
            [Group(w, 0), Group(w, 1), Group(w, 2)] == Codes(s[i..]) + Zeros(3 - rem)
  {
    var t := s[i..];
    if rem == 1 {
      assert t == [s[i]];
      assert Codes(t) == [Low5(s[i])];
      assert Zeros(2) == [0, 0];
    } else if rem == 2 {
      assert t == [s[i], s[i + 1]] && t[..1] == [s[i]];
      assert Codes(t) == [Low5(s[i]), Low5(s[i + 1])];
      assert Zeros(1) == [0];
    } else {
      assert t == [s[i], s[i + 1], s[i + 2]];
      CodesOfThree(s[i], s[i + 1], s[i + 2]);
    }
  }

  /**
   * Decoding: the groups of the packed words are the codes of the residues,
   * then zeros filling the last word. Holds when the last word holds no
   * newline, which it would turn into a zero group.
   */
  lemma PackedGroups(s: seq<Byte>)
    requires |s| > 0
    requires forall k :: LoopEnd(|s|) <= k < |s| ==> s[k] != Newline
    ensures Groups(Packed(s)) == Codes(s) + Zeros(3 - Rem(|s|))
  {
    LayoutFits(|s|);
    var i, rem := LoopEnd(|s|), Rem(|s|);
    var full := FullWords(s, i / 3);
    var tail := TailWord(s, i, rem);
    calc {
      Groups(Packed(s));
      Groups(full + [tail]);
      { GroupsSnoc(full, tail); }
      Groups(full) + [Group(tail, 0), Group(tail, 1), Group(tail, 2)];
      { assert 3 * (i / 3) == i; FullWordsGroups(s, i / 3); TailCodes(s, i, rem); }
      Codes(s[..i]) + (Codes(s[i..]) + Zeros(3 - rem));
      { AppendAssoc(Codes(s[..i]), Codes(s[i..]), Zeros(3 - rem)); }
      (Codes(s[..i]) + Codes(s[i..])) + Zeros(3 - rem);
      { CodesAppend(s[..i], s[i..]); }
      Codes(s[..i] + s[i..]) + Zeros(3 - rem);
      { SplitJoin(s, i); }
      Codes(s) + Zeros(3 - rem);
    }
  }

  // ---------------------------------------------------------------------
  // Packing one sequence

  /** The full words the stride-3 loop has written before `i`. */
  ghost predicate FullSoFar(buffer: array<bv16>, s: seq<Byte>, i: nat)
    reads buffer
  {
    && 3 * (i / 3) <= |s| && i / 3 <= buffer.Length
    && buffer[..i / 3] == FullWords(s, i / 3)
  }

  /**
   * The packing in convert2sradb, in place on a zeroed buffer of
   * `Words(|s|)` words. The last word is only written for a non-empty
   * sequence: the source writes it for an empty one too, one word past
   * its empty buffer (see `EmptyTailOutOfBounds`).
   */
  method PackSequence(s: seq<Byte>) returns (buffer: array<bv16>)
    ensures fresh(buffer)
    ensures buffer[..] == Packed(s)
  {
    var rem := |s| % 3;
    var padding := if rem == 0 then 0 else 1;
    rem := if rem == 0 then 3 else rem;
    buffer := new bv16[|s| / 3 + padding](_ => 0);
    var i := 0;
    if |s| > 3 {
      while i < |s| - 3
        invariant i % 3 == 0 && i <= LoopEnd(|s|)
        invariant FullSoFar(buffer, s, i)
      {
        PackWord(buffer, s, i);
        i := i + 3;
      }
    }
    if |s| > 0 {
      LayoutFits(|s|);
      assert i == LoopEnd(|s|);
      WriteTail(buffer, s, i, rem);
    } else {
      assert buffer[..] == [];
    }
  }

  /** One round of the stride-3 loop: word `i / 3` packs residues `i`, `i + 1`, `i + 2`. */
  method PackWord(buffer: array<bv16>, s: seq<Byte>, i: nat)
    requires i % 3 == 0 && i + 3 <= |s| && i / 3 < buffer.Length
    requires FullSoFar(buffer, s, i)
    modifies buffer
    ensures FullSoFar(buffer, s, i + 3)
    ensures forall k :: i / 3 < k < buffer.Length ==> buffer[k] == old(buffer[k])
  {
    buffer[i / 3] := Pack(s[i], s[i + 1], s[i + 2]);
    assert (i + 3) / 3 == i / 3 + 1;
    assert buffer[..i / 3 + 1] == old(buffer[..i / 3]) + [Pack(s[i], s[i + 1], s[i + 2])];
  }

  /** The last word, shifted in group by group and then flagged. */
  method WriteTail(buffer: array<bv16>, s: seq<Byte>, i: nat, rem: nat)
    requires s != [] && i == LoopEnd(|s|) && rem == Rem(|s|)
    requires buffer.Length == Words(|s|) && FullSoFar(buffer, s, i)
    modifies buffer
    ensures buffer[..] == Packed(s)
  {
    LayoutFits(|s|);
    var slot := i / 3;
    ghost var full := buffer[..slot];
    buffer[slot] := 0;
    for j := 0 to 3
      invariant buffer[slot] == TailSoFar(s, i, rem, j)
      invariant buffer[..slot] == full
    {
      TailStep(s, i, rem, j);
      ShiftGroupIn(buffer, slot, s, i, rem, j);
    }
    TailSoFarDone(s, i, rem);
    buffer[slot] := buffer[slot] | 0x8000;
    assert buffer[..] == full + [TailWord(s, i, rem)];
  }

  /** One round of the tail loop: shift the word left by five bits, then or in the next residue. */
  method ShiftGroupIn(buffer: array<bv16>, slot: nat, s: seq<Byte>, i: nat, rem: nat, j: nat)
    requires slot < buffer.Length && i + rem == |s| && rem <= 3 && j < 3
    modifies buffer
    ensures buffer[slot] == (old(buffer[slot]) << 5) | TailGroup(s, i, rem, j)
    ensures forall k :: 0 <= k < buffer.Length && k != slot ==> buffer[k] == old(buffer[k])
  {
    ghost var g := TailGroup(s, i, rem, j);
    buffer[slot] := buffer[slot] << 5;
    if j < rem && s[i + j] != Newline {
      assert g == Low5(s[i + j]);
      buffer[slot] := buffer[slot] | Low5(s[i + j]);
    } else {
      assert g == 0;
      assert buffer[slot] | 0 == buffer[slot];
    }
  }

  /** What one round of the tail loop does to the word. */
  lemma TailStep(s: seq<Byte>, i: nat, rem: nat, j: nat)
    requires i + rem == |s| && rem <= 3 && j < 3
    ensures TailSoFar(s, i, rem, j + 1) == (TailSoFar(s, i, rem, j) << 5) | TailGroup(s, i, rem, j)
  {
    var g0, g1, g2 := TailGroup(s, i, rem, 0), TailGroup(s, i, rem, 1), TailGroup(s, i, rem, 2);
    ShiftIn(g0, g1, g2);
    if j == 0 {
      assert TailSoFar(s, i, rem, 1) == g0;
    } else if j == 1 {
      assert TailSoFar(s, i, rem, 2) == (g0 << 5) | g1;
    } else {
      assert TailSoFar(s, i, rem, 3) == Combine(g0, g1, g2);
    }
  }

  /**
   * As written, the source builds the last word at slot `LoopEnd(l) / 3`
   * whatever `l` is; for an empty sequence that slot is past the end of
   * the zero-word buffer it allocated.
   */
  lemma EmptyTailOutOfBounds()
    ensures Words(0) == 0 && LoopEnd(0) / 3 >= Words(0)
  {
  }

  /** With the guard on a non-empty sequence, the last word's slot is inside the buffer. */
  lemma TailSlotInBounds(l: nat)
    requires l > 0
    ensures LoopEnd(l) / 3 < Words(l)
  {
    LayoutFits(l);
  }

  // ---------------------------------------------------------------------
  // Headers

  /** One entry read from the input: its name, the comment after it, its residues. */
  datatype FastaEntry = FastaEntry(name: seq<char>, comment: seq<char>, sequence: seq<Byte>)

  /** Why the conversion stops: an entry (by number) without a name, or no entry at all. */
  datatype ConvertError = InvalidEntry(index: nat) | NoEntries

  /**
   * The header record, appended piece by piece: the name, a blank and the
   * comment when there is one, and a newline.
   */
  method BuildHeader(name: seq<char>, comment: seq<char>) returns (header: seq<char>)
    ensures header == HeaderText(name, comment)
  {
    header := [];
    header := header + name;
    if |comment| > 0 {
      header := header + [' '];
      header := header + comment;
    }
    header := header + ['\n'];
  }

  /** The header record of an entry. */
  function HeaderText(name: seq<char>, comment: seq<char>): seq<char> {
    name + (if |comment| > 0 then [' '] + comment else []) + ['\n']
  }

  /** The text before the first blank or newline. */
  function FirstWord(h: seq<char>): (w: seq<char>)
    ensures |w| <= |h| && w == h[..|w|]
  {
    if h == [] || h[0] == ' ' || h[0] == '\n' then [] else [h[0]] + FirstWord(h[1..])
  }

  /** The part after the first blank, up to the final newline. */
  function AfterBlank(h: seq<char>): seq<char> {
    var w := FirstWord(h);
    if |w| < |h| && h[|w|] == ' ' && h[|h| - 1] == '\n' then h[|w| + 1..|h| - 1] else []
  }

  predicate Plain(s: seq<char>) {
    forall k :: 0 <= k < |s| ==> s[k] != ' ' && s[k] != '\n'
  }

  lemma {:induction false} FirstWordOf(w: seq<char>, rest: seq<char>)
    requires Plain(w) && (rest == [] || rest[0] == ' ' || rest[0] == '\n')
    ensures FirstWord(w + rest) == w
  {
    if w != [] {
      assert (w + rest)[1..] == w[1..] + rest;
      FirstWordOf(w[1..], rest);
    } else {
      assert w + rest == rest;
    }
  }

  /**
   * A header splits back into its name and comment, provided the name has
   * no blank or newline: the record is exactly one line whose first word is
   * the name and whose remainder is the comment.
   */
  lemma HeaderSplits(name: seq<char>, comment: seq<char>)
    requires Plain(name)
    ensures var h := HeaderText(name, comment);
            && FirstWord(h) == name
            && AfterBlank(h) == comment
            && h[|h| - 1] == '\n'
  {
    var h := HeaderText(name, comment);
    var rest := (if |comment| > 0 then [' '] + comment else []) + ['\n'];
    assert h == name + rest;
    FirstWordOf(name, rest);
    if |comment| > 0 {
      assert h[|name| + 1..|h| - 1] == comment;
    }
  }

  // ---------------------------------------------------------------------
  // The entry loop

  /** The records of the entries: one header and one packed sequence each. */
  function Records(entries: seq<FastaEntry>): (r: (seq<seq<char>>, seq<seq<bv16>>))
    ensures |r.0| == |entries| && |r.1| == |entries|
  {
    if entries == [] then ([], [])
    else
      var prev := Records(entries[..|entries| - 1]);
      var e := entries[|entries| - 1];
      (prev.0 + [HeaderText(e.name, e.comment)], prev.1 + [Packed(e.sequence)])
  }

  /** Whether the first `n` entries all have a name. */
  predicate NamedUpTo(entries: seq<FastaEntry>, n: nat)
    requires n <= |entries|
  {
    forall k :: 0 <= k < n ==> |entries[k].name| > 0
  }

  /**
   * The entries of the input in reading order, converted one after the
   * other. An entry without a name stops the run with its number; an input
   * with no entry at all is an error too.
   */
  method Convert(entries: seq<FastaEntry>) returns (r: Result<(seq<seq<char>>, seq<seq<bv16>>), ConvertError>)
    ensures r.Ok? <==> |entries| > 0 && NamedUpTo(entries, |entries|)
    ensures r.Ok? ==> r.value == Records(entries)
    ensures r.Err? && r.error.InvalidEntry? ==>
              var k := r.error.index;
              k < |entries| && |entries[k].name| == 0 && NamedUpTo(entries, k)
    ensures r.Err? && r.error.NoEntries? ==> entries == []
  {
    var headers: seq<seq<char>> := [];
    var data: seq<seq<bv16>> := [];
    for n := 0 to |entries|
      invariant (headers, data) == Records(entries[..n])
      invariant NamedUpTo(entries, n)
    {
      var e := entries[n];
      if |e.name| == 0 {
        return Err(InvalidEntry(n));
      }
      var header := BuildHeader(e.name, e.comment);
      var buffer := PackSequence(e.sequence);
      assert entries[..n + 1][..n] == entries[..n];
      headers := headers + [header];
      data := data + [buffer[..]];
    }
    assert entries[..|entries|] == entries;
    if |entries| == 0 {
      return Err(NoEntries);
    }
    return Ok((headers, data));
  }
}
