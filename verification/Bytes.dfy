/** Bytes, 16-bit words and big-endian integers: the arithmetic both register decoders share. */
module Bytes {
  import opened Numbers

  type byte = b: int | 0 <= b < 256
  type word = w: int | 0 <= w < 65536

  function Pow2(n: nat): (r: nat)
    ensures r > 0
  {
    if n == 0 then 1 else 2 * Pow2(n - 1)
  }

  lemma {:induction false} Pow2Adds(a: nat, b: nat)
    ensures Pow2(a + b) == Pow2(a) * Pow2(b)
  {
    if a > 0 {
      Pow2Adds(a - 1, b);
      assert Pow2(a) == 2 * Pow2(a - 1) && Pow2(a + b) == 2 * Pow2(a - 1 + b);
      hide Pow2;
      DoubleFactor(Pow2(a - 1), Pow2(b));
    }
  }

  lemma DoubleFactor(x: nat, y: nat)
    ensures 2 * x * y == 2 * (x * y)
  {
  }

  function Pow256(n: nat): (r: nat)
    ensures r > 0
  {
    if n == 0 then 1 else 256 * Pow256(n - 1)
  }

  /** The value of a big-endian byte string. */
  function FromBytes(bs: seq<byte>): (v: nat)
    ensures v < Pow256(|bs|)
  {
    if bs == [] then 0
    else
      var high := FromBytes(bs[..|bs| - 1]);
      assert 256 * high + 255 < 256 * Pow256(|bs| - 1);
      256 * high + bs[|bs| - 1]
  }

  /** The two's-complement value of a big-endian byte string. */
  function FromBytesSigned(bs: seq<byte>): int {
    var v := FromBytes(bs);
    if 2 * v >= Pow256(|bs|) && bs != [] then v - Pow256(|bs|) else v
  }

  // ------------------------------------------------------------------
  // Words
  // ------------------------------------------------------------------

  function High(w: word): byte { w / 256 }

  function Low(w: word): byte { w % 256 }

  function BigEndian(w: word): seq<byte> { [High(w), Low(w)] }

  function LittleEndian(w: word): seq<byte> { [Low(w), High(w)] }

  /** The two bytes of a word exchanged. */
  function SwapBytes16(w: word): (r: word) {
    Low(w) * 256 + High(w)
  }

  function Reverse<T>(s: seq<T>): (r: seq<T>)
    ensures |r| == |s| && forall i | 0 <= i < |s| :: r[i] == s[|s| - 1 - i]
  {
    if s == [] then [] else Reverse(s[1..]) + [s[0]]
  }

  /** The wire image of a word sequence. */
  function Image(ws: seq<word>): (bs: seq<byte>)
    ensures |bs| == 2 * |ws|
  {
    if ws == [] then [] else Image(ws[..|ws| - 1]) + BigEndian(ws[|ws| - 1])
  }

  lemma {:induction false} ImageAt(ws: seq<word>, k: nat)
    requires k < |ws|
    ensures Image(ws)[2 * k] == High(ws[k]) && Image(ws)[2 * k + 1] == Low(ws[k])
  {
    if k < |ws| - 1 {
      ImageAt(ws[..|ws| - 1], k);
    }
  }

  function ImageSwapped(ws: seq<word>): (bs: seq<byte>)
    ensures |bs| == 2 * |ws|
  {
    if ws == [] then [] else ImageSwapped(ws[..|ws| - 1]) + LittleEndian(ws[|ws| - 1])
  }

  lemma {:induction false} ImageSwappedAt(ws: seq<word>, k: nat)
    requires k < |ws|
    ensures ImageSwapped(ws)[2 * k] == Low(ws[k]) && ImageSwapped(ws)[2 * k + 1] == High(ws[k])
  {
    if k < |ws| - 1 {
      ImageSwappedAt(ws[..|ws| - 1], k);
    }
  }

  /** A slice that is cut off at the end of the string. */
  function Clip<T>(s: seq<T>, lo: nat, hi: nat): (r: seq<T>)
    requires lo <= hi
    ensures hi <= |s| ==> r == s[lo..hi]
  {
    s[Min(lo, |s|)..Min(hi, |s|)]
  }

  /** The two bytes of every whole word exchanged; an odd last byte stays. */
  function SwapWords(bs: seq<byte>): (r: seq<byte>)
    ensures |r| == |bs|
  {
    seq(|bs|, i requires 0 <= i < |bs| =>
      if i % 2 == 1 then bs[i - 1] else if i + 1 < |bs| then bs[i + 1] else bs[i])
  }

  lemma SwapWordsAt(bs: seq<byte>, k: nat)
    requires 2 * k + 1 < |bs|
    ensures SwapWords(bs)[2 * k] == bs[2 * k + 1] && SwapWords(bs)[2 * k + 1] == bs[2 * k]
  {
  }

  /** The first `n` words of a byte string in reverse order. */
  function ReverseWords(bs: seq<byte>, n: nat): (r: seq<byte>)
    ensures 2 * n <= |bs| ==> |r| == 2 * n
  {
    if n == 0 then [] else Clip(bs, 2 * (n - 1), 2 * n) + ReverseWords(bs, n - 1)
  }

  lemma {:induction false} ReverseWordsAt(bs: seq<byte>, n: nat, k: nat, j: nat)
    requires k + j == n - 1 && 2 * n <= |bs|
    ensures ReverseWords(bs, n)[2 * k] == bs[2 * j] && ReverseWords(bs, n)[2 * k + 1] == bs[2 * j + 1]
  {
    if k > 0 {
      ReverseWordsAt(bs, n - 1, k - 1, j);
      assert ReverseWords(bs, n)[2..] == ReverseWords(bs, n - 1);
    }
  }

  /** Byte strings of whole words are equal when they agree word by word. */
  lemma EqualByWords(a: seq<byte>, b: seq<byte>, n: nat)
    requires |a| == |b| == 2 * n
    requires forall k | 0 <= k < n :: a[2 * k] == b[2 * k] && a[2 * k + 1] == b[2 * k + 1]
    ensures a == b
  {
    forall i | 0 <= i < |a| ensures a[i] == b[i] {
      var k := i / 2;
      assert i == 2 * k || i == 2 * k + 1;
    }
  }

  /** On whole words the two axes of a word order are independent, and applying both reads
      the string backwards. */
  lemma WordAndByteReversal(bs: seq<byte>, n: nat)
    requires |bs| == 2 * n
    ensures SwapWords(ReverseWords(bs, n)) == ReverseWords(SwapWords(bs), n) == Reverse(bs)
  {
    var a, b, r := SwapWords(ReverseWords(bs, n)), ReverseWords(SwapWords(bs), n), Reverse(bs);
    forall k | 0 <= k < n
      ensures a[2 * k] == r[2 * k] == b[2 * k] && a[2 * k + 1] == r[2 * k + 1] == b[2 * k + 1]
    {
      ReverseWordsAt(bs, n, k, n - 1 - k);
      SwapWordsAt(ReverseWords(bs, n), k);
      ReverseWordsAt(SwapWords(bs), n, k, n - 1 - k);
      SwapWordsAt(bs, n - 1 - k);
    }
    EqualByWords(a, r, n);
    EqualByWords(b, r, n);
  }

  /** Each axis undoes itself. */
  lemma ReversalsUndoThemselves(bs: seq<byte>, n: nat)
    requires |bs| == 2 * n
    ensures SwapWords(SwapWords(bs)) == bs && ReverseWords(ReverseWords(bs, n), n) == bs
  {
    var a, b := SwapWords(SwapWords(bs)), ReverseWords(ReverseWords(bs, n), n);
    forall k | 0 <= k < n
      ensures a[2 * k] == bs[2 * k] == b[2 * k] && a[2 * k + 1] == bs[2 * k + 1] == b[2 * k + 1]
    {
      SwapWordsAt(bs, k);
      SwapWordsAt(SwapWords(bs), k);
      ReverseWordsAt(bs, n, n - 1 - k, k);
      ReverseWordsAt(ReverseWords(bs, n), n, k, n - 1 - k);
    }
    EqualByWords(a, bs, n);
    EqualByWords(b, bs, n);
  }
}
