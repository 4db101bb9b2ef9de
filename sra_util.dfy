/**
 * SRAUtil::strrev: copies a string of `len` characters into a second buffer
 * back to front and terminates it with '\0'. Both buffers are C character
 * arrays; the source string is `const`, so the two are distinct objects.
 */
module SraUtil {

  /** The reference reversal of a sequence. */
  function Reversed<T>(s: seq<T>): (r: seq<T>)
    ensures |r| == |s|
  {
    if s == [] then [] else Reversed(s[1..]) + [s[0]]
  }

  lemma {:induction false} ReversedAt<T>(s: seq<T>, i: nat)
    requires i < |s|
    ensures Reversed(s)[i] == s[|s| - 1 - i]
  {
    if i < |s| - 1 {
      ReversedAt(s[1..], i);
    }
  }

  lemma {:induction false} ReversedTwice<T>(s: seq<T>)
    ensures Reversed(Reversed(s)) == s
  {
    var r := Reversed(s);
    forall i | 0 <= i < |s|
      ensures Reversed(r)[i] == s[i]
    {
      ReversedAt(r, i);
      ReversedAt(s, |s| - 1 - i);
    }
  }

  /**
   * strrev(strRev, str, len). Two cursors walk towards each other; each step
   * writes the mirror pair of positions, and the middle position of an odd
   * length is written twice with the same character.
   */
  method StrRev(strRev: array<char>, str: array<char>, len: nat)
    requires len < strRev.Length && len <= str.Length
    requires strRev != str
    modifies strRev
    ensures strRev[..len] == Reversed(str[..len])
    ensures strRev[len] == '\0'
    ensures strRev[len + 1..] == old(strRev[len + 1..])
  {
    var start: int := 0;
    var end: int := len - 1;
    while start <= end
      invariant 0 <= start <= len && end == len - 1 - start
      invariant forall i :: 0 <= i < start ==> strRev[i] == str[len - 1 - i]
      invariant forall i :: end < i < len ==> strRev[i] == str[len - 1 - i]
      invariant forall i :: start <= i <= end ==> strRev[i] == old(strRev[i])
      invariant strRev[len..] == old(strRev[len..])
    {
      strRev[start] := str[end];
      strRev[end] := str[start];
      start := start + 1;
      end := end - 1;
    }
    strRev[len] := '\0';
    forall i | 0 <= i < len
      ensures strRev[..len][i] == Reversed(str[..len])[i]
    {
      ReversedAt(str[..len], i);
    }
  }
}
