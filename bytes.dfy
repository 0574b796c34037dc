/** Object representations as byte sequences, and the byte permutations the
    conversions are built from: full reversal and the exchange of the two
    halves ("words") of a representation. */
module Bytes {

  /** One byte of an object's representation in memory. */
  type byte = bv8

  /** The bytes of `s` in the opposite order. This is the reference every
      byte-swap strategy is proved against. */
  function Reverse(s: seq<byte>): (r: seq<byte>)
    ensures |r| == |s|
  {
    if |s| == 0 then [] else Reverse(s[1..]) + [s[0]]
  }

  /** Byte `k` of the reversal is byte `|s| - 1 - k` of the input. */
  lemma {:induction false} ReverseAt(s: seq<byte>, k: nat)
    requires k < |s|
    ensures Reverse(s)[k] == s[|s| - 1 - k]
  {
    if k < |s| - 1 {
      ReverseAt(s[1..], k);
    }
  }

  /** Reversal is an involution: reversing twice restores every byte. */
  lemma ReverseInvolutive(s: seq<byte>)
    ensures Reverse(Reverse(s)) == s
  {
    forall k | 0 <= k < |s|
      ensures Reverse(Reverse(s))[k] == s[k]
    {
      ReverseAt(Reverse(s), k);
      ReverseAt(s, |s| - 1 - k);
    }
  }

  /** Reversing a concatenation reverses each part and exchanges them. */
  lemma ReverseAppend(a: seq<byte>, b: seq<byte>)
    ensures Reverse(a + b) == Reverse(b) + Reverse(a)
  {
    var lhs, rhs := Reverse(a + b), Reverse(b) + Reverse(a);
    forall k | 0 <= k < |a| + |b|
      ensures lhs[k] == rhs[k]
    {
      ReverseAt(a + b, k);
      if k < |b| {
        ReverseAt(b, k);
      } else {
        ReverseAt(a, k - |b|);
      }
    }
  }

  /** The representation with its upper half moved in front of its lower
      half: what copying the second `WORD_SIZE` bytes to the start of a
      buffer and the first `WORD_SIZE` bytes after them produces. */
  function SwapWords(s: seq<byte>): (r: seq<byte>)
    ensures |r| == |s|
  {
    s[|s| / 2..] + s[..|s| / 2]
  }

  /** Each half reversed in place, the halves kept where they are. */
  function ReverseWithinWords(s: seq<byte>): (r: seq<byte>)
    ensures |r| == |s|
  {
    Reverse(s[..|s| / 2]) + Reverse(s[|s| / 2..])
  }

  /** Exchanging the halves of an even-length representation twice
      restores it. */
  lemma SwapWordsInvolutive(s: seq<byte>)
    requires |s| % 2 == 0
    ensures SwapWords(SwapWords(s)) == s
  {
    var h := |s| / 2;
    var t := SwapWords(s);
    assert t[..h] == s[h..];
    assert t[h..] == s[..h];
  }

  /** For even lengths, exchanging the halves commutes with reversal. */
  lemma SwapWordsReverseCommute(s: seq<byte>)
    requires |s| % 2 == 0
    ensures SwapWords(Reverse(s)) == Reverse(SwapWords(s))
  {
    var h := |s| / 2;
    var lo, hi := s[..h], s[h..];
    assert s == lo + hi;
    ReverseAppend(lo, hi);
    ReverseAppend(hi, lo);
    var r := Reverse(s);
    assert r[..h] == Reverse(hi) && r[h..] == Reverse(lo);
  }

  /** For even lengths, a full reversal followed by exchanging the halves
      reverses the bytes within each half and leaves the halves in place. */
  lemma SwapWordsOfReverse(s: seq<byte>)
    requires |s| % 2 == 0
    ensures SwapWords(Reverse(s)) == ReverseWithinWords(s)
  {
    var h := |s| / 2;
    var lo, hi := s[..h], s[h..];
    assert s == lo + hi;
    ReverseAppend(lo, hi);
    var r := Reverse(s);
    assert r[..h] == Reverse(hi) && r[h..] == Reverse(lo);
  }

  /** `memcpy(dst + dstOffset, src + srcOffset, n)`: copies `n` bytes
      verbatim and leaves the rest of `dst` alone. */
  method Memcpy(dst: array<byte>, dstOffset: nat, src: seq<byte>, srcOffset: nat, n: nat)
    requires dstOffset + n <= dst.Length && srcOffset + n <= |src|
    modifies dst
    ensures dst[..] == old(dst[..dstOffset]) + src[srcOffset..srcOffset + n] + old(dst[dstOffset + n..])
  {
    for i := 0 to n
      invariant forall j :: 0 <= j < dstOffset || dstOffset + n <= j < dst.Length ==> dst[j] == old(dst[j])
      invariant forall j :: dstOffset <= j < dstOffset + i ==> dst[j] == src[srcOffset + (j - dstOffset)]
    {
      dst[dstOffset + i] := src[srcOffset + i];
    }
  }
}
