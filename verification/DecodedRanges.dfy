/** What the integer decoder can produce: every whole-register type takes exactly the values of
    its declared range, each from exactly one tuple of register words, in every word order. */
module DecodedRanges {
  import opened Options
  import opened Numbers
  import opened Bytes
  import opened Texts
  import opened RegisterMap
  import opened Decoding

  // ------------------------------------------------------------------
  // Words, most significant first
  // ------------------------------------------------------------------

  function WordSpace(n: nat): (r: nat)
    ensures r > 0
  {
    if n == 0 then 1 else 65536 * WordSpace(n - 1)
  }

  function WordsValue(ws: seq<word>): nat {
    if ws == [] then 0 else 65536 * WordsValue(ws[..|ws| - 1]) + ws[|ws| - 1]
  }

  function ToWords(v: nat, n: nat): (ws: seq<word>)
    ensures |ws| == n
  {
    if n == 0 then [] else ToWords(v / 65536, n - 1) + [v % 65536]
  }

  lemma {:induction false} WordsValueBound(ws: seq<word>)
    ensures WordsValue(ws) < WordSpace(|ws|)
  {
    if ws != [] {
      WordsValueBound(ws[..|ws| - 1]);
    }
  }

  lemma {:induction false} WordsOfValue(ws: seq<word>)
    ensures ToWords(WordsValue(ws), |ws|) == ws
  {
    if ws != [] {
      WordsOfValue(ws[..|ws| - 1]);
    }
  }

  lemma {:induction false} ValueOfWords(v: nat, n: nat)
    requires v < WordSpace(n)
    ensures WordsValue(ToWords(v, n)) == v
  {
    if n > 0 {
      ValueOfWords(v / 65536, n - 1);
      assert ToWords(v, n)[..n - 1] == ToWords(v / 65536, n - 1);
    }
  }

  lemma {:induction false} ImageValue(ws: seq<word>)
    ensures FromBytes(Image(ws)) == WordsValue(ws)
    ensures Pow256(2 * |ws|) == WordSpace(|ws|)
  {
    if ws != [] {
      var n := |ws| - 1;
      ImageValue(ws[..n]);
      assert ws == ws[..n] + [ws[n]];
      AppendWord(Image(ws[..n]), ws[n]);
      assert Pow256(2 * |ws|) == 256 * Pow256(2 * n + 1) == 256 * (256 * Pow256(2 * n));
    }
  }

  lemma AppendWord(bs: seq<byte>, w: word)
    ensures FromBytes(bs + BigEndian(w)) == 65536 * FromBytes(bs) + w
  {
    var all := bs + BigEndian(w);
    assert all[..|all| - 1] == bs + [High(w)];
    assert (bs + [High(w)])[..|bs|] == bs;
  }

  // ------------------------------------------------------------------
  // Word order
  // ------------------------------------------------------------------

  function SwapEach(ws: seq<word>): (r: seq<word>)
    ensures |r| == |ws| && forall i | 0 <= i < |ws| :: r[i] == SwapBytes16(ws[i])
  {
    seq(|ws|, i requires 0 <= i < |ws| => SwapBytes16(ws[i]))
  }

  /** Register words put most significant first, and back: the same function does both. */
  function InOrder(ws: seq<word>, wo: WordOrder): (r: seq<word>)
    ensures |r| == |ws|
  {
    var ordered := if wo.wordReversed then Reverse(ws) else ws;
    if wo.bytesReversed then SwapEach(ordered) else ordered
  }

  lemma SwapTwice(w: word)
    ensures SwapBytes16(SwapBytes16(w)) == w
  {
  }

  lemma SwapEachTwice(ws: seq<word>)
    ensures SwapEach(SwapEach(ws)) == ws
  {
    hide SwapBytes16;
    forall i | 0 <= i < |ws| ensures SwapEach(SwapEach(ws))[i] == ws[i] {
      SwapTwice(ws[i]);
    }
  }

  lemma SwapEachReverses(ws: seq<word>)
    ensures SwapEach(Reverse(ws)) == Reverse(SwapEach(ws))
  {
    hide SwapBytes16, Reverse;
  }

  lemma ReverseTwice(ws: seq<word>)
    ensures Reverse(Reverse(ws)) == ws
  {
    hide Reverse;
  }

  lemma InOrderUndoesItself(ws: seq<word>, wo: WordOrder)
    ensures InOrder(InOrder(ws, wo), wo) == ws
  {
    hide SwapEach, Reverse;
    SwapEachTwice(ws);
    SwapEachReverses(ws);
    SwapEachReverses(SwapEach(ws));
    ReverseTwice(ws);
  }

  lemma {:induction false} ImageOfSwapped(ws: seq<word>)
    ensures ImageSwapped(ws) == Image(SwapEach(ws))
  {
    if ws != [] {
      var n := |ws| - 1;
      ImageOfSwapped(ws[..n]);
      assert SwapEach(ws) == SwapEach(ws[..n]) + [SwapBytes16(ws[n])];
      ImageSnoc(SwapEach(ws[..n]), SwapBytes16(ws[n]));
      SwappedWord(ws[n]);
    }
  }

  lemma OrderedValue(ws: seq<word>, wo: WordOrder)
    ensures FromBytes(OrderedBytes(ws, wo)) == WordsValue(InOrder(ws, wo)) < WordSpace(|ws|)
    ensures Pow256(|OrderedBytes(ws, wo)|) == WordSpace(|ws|)
  {
    ImageOfSwapped(if wo.wordReversed then Reverse(ws) else ws);
    ImageValue(InOrder(ws, wo));
    WordsValueBound(InOrder(ws, wo));
  }

  // ------------------------------------------------------------------
  // Whole-register integers
  // ------------------------------------------------------------------

  predicate IsSigned(t: DataType) { t.Short? || t.Int? || t.Int64? }

  predicate IsWholeInteger(t: DataType) {
    IsSigned(t) || t.UShort? || t.UInt? || t.Acc32? || t.UInt64?
  }

  ghost predicate InRange(t: DataType, v: int)
    requires ValidType(t) && !t.Float32? && !t.Float64?
  {
    DefaultRange(t).0 <= v <= DefaultRange(t).1
  }

  /** The register words that hold a value of a whole-register type, in the order of their
      addresses. */
  function Encode(t: DataType, v: int, n: nat, wo: WordOrder): seq<word> {
    var raw := if v < 0 then v + WordSpace(n) else v;
    InOrder(ToWords(if raw < 0 then 0 else raw, n), wo)
  }

  /** The number a word sequence holds under a word order. */
  function NumberOf(t: DataType, ws: seq<word>, wo: WordOrder): int {
    var v := WordsValue(InOrder(ws, wo));
    if IsSigned(t) && 2 * v >= WordSpace(|ws|) then v - WordSpace(|ws|) else v
  }

  /** What fits in `n` words, two's-complement for the signed types. */
  predicate Fits(t: DataType, n: nat, v: int) {
    var m: int := WordSpace(n);
    if IsSigned(t) then -m <= 2 * v < m else 0 <= v < m
  }

  lemma Spaces()
    ensures WordSpace(1) == 0x1_0000 && WordSpace(2) == 0x1_0000_0000
    ensures WordSpace(4) == 0x1_0000_0000_0000_0000
  {
    assert WordSpace(0) == 1;
    assert WordSpace(1) == 0x1_0000;
    assert WordSpace(2) == 0x1_0000_0000;
    assert WordSpace(3) == 0x1_0000_0000_0000;
  }

  lemma RangeOfType(f: Field, v: int)
    requires IsWholeInteger(f.dataType)
    ensures InRange(f.dataType, v) <==> Fits(f.dataType, DecoderWords(f), v)
  {
    Spaces();
  }

  /** Decoding is one-to-one and onto the declared range: a snapshot decodes to `v` exactly when
      `v` is in the type's range and the registers hold the one encoding of `v`. */
  lemma DecodesToExactly(registry: map<int, int>, f: Field, wo: WordOrder, v: int)
    requires ValidField(f) && IsWholeInteger(f.dataType)
    ensures ProcessUshort(registry, f, wo) == Ok(Number(v))
       <==> InRange(f.dataType, v)
            && GatherWords(registry, f, DecoderWords(f)) == Some(Encode(f.dataType, v, DecoderWords(f), wo))
  {
    hide ProcessUshort, GatherWords, DecoderWords, InRange, Fits, NumberOf, Encode, IsWholeInteger, ValidField;
    var t, n := f.dataType, DecoderWords(f);
    RangeOfType(f, v);
    match GatherWords(registry, f, n)
    case None =>
      MissingWord(registry, f, wo);
    case Some(ws) =>
      WordsGathered(registry, f, n);
      DecodedNumber(registry, f, wo, ws);
      EncodeIsInverse(t, ws, v, wo);
  }

  lemma {:induction false} WordsGathered(registry: map<int, int>, f: Field, n: nat)
    requires GatherWords(registry, f, n).Some?
    ensures |GatherWords(registry, f, n).value| == n
  {
    if n > 0 {
      WordsGathered(registry, f, n - 1);
    }
  }

  lemma MissingWord(registry: map<int, int>, f: Field, wo: WordOrder)
    requires ValidField(f) && IsWholeInteger(f.dataType)
    requires GatherWords(registry, f, DecoderWords(f)).None?
    ensures !ProcessUshort(registry, f, wo).Ok?
  {
    if DecoderWords(f) == 1 {
      assert GatherWords(registry, f, 0) == Some([]);
    }
  }

  lemma DecodedNumber(registry: map<int, int>, f: Field, wo: WordOrder, ws: seq<word>)
    requires ValidField(f) && IsWholeInteger(f.dataType)
    requires GatherWords(registry, f, DecoderWords(f)) == Some(ws) && |ws| == DecoderWords(f)
    ensures ProcessUshort(registry, f, wo) == Ok(Number(NumberOf(f.dataType, ws, wo)))
  {
    if DecoderWords(f) == 1 {
      OneWordNumber(registry, f, wo, ws);
    } else {
      hide GatherWords, NumberOf, OrderedBytes, FromBytes, FromBytesSigned, DecodeWord, OneWord, FlagText, TextOf, StartBit;
      var bs := OrderedBytes(ws, wo);
      LongNumber(f.dataType, ws, wo);
      if IsSigned(f.dataType) {
        assert ProcessUshort(registry, f, wo) == Ok(Number(FromBytesSigned(bs)));
      } else {
        assert ProcessUshort(registry, f, wo) == Ok(Number(FromBytes(bs)));
      }
    }
  }

  lemma LongNumber(t: DataType, ws: seq<word>, wo: WordOrder)
    requires ws != []
    ensures var bs := OrderedBytes(ws, wo);
            NumberOf(t, ws, wo) == if IsSigned(t) then FromBytesSigned(bs) else FromBytes(bs)
  {
    OrderedValue(ws, wo);
    hide InOrder, WordsValue, WordSpace, OrderedBytes, FromBytes, Pow256;
  }

  lemma OneWordNumber(registry: map<int, int>, f: Field, wo: WordOrder, ws: seq<word>)
    requires ValidField(f) && IsWholeInteger(f.dataType)
    requires GatherWords(registry, f, 1) == Some(ws) && DecoderWords(f) == 1
    ensures |ws| == 1 && ProcessUshort(registry, f, wo) == Ok(Number(NumberOf(f.dataType, ws, wo)))
  {
    OneWordGathered(registry, f, ws);
    var w := ws[0];
    assert ws == [w];
    SingleNumber(f.dataType, w, wo);
    hide GatherWords, NumberOf, OneWord;
    assert ProcessUshort(registry, f, wo) == Ok(DecodeWord(OneWord(w, wo), f));
  }

  lemma OneWordGathered(registry: map<int, int>, f: Field, ws: seq<word>)
    requires ValidField(f) && GatherWords(registry, f, 1) == Some(ws)
    ensures f.register in registry && ws == [registry[f.register] % 65536]
  {
    assert GatherWords(registry, f, 0) == Some([]);
    assert AddressAt(f, 0) == f.register;
  }

  lemma SingleNumber(t: DataType, w: word, wo: WordOrder)
    ensures NumberOf(t, [w], wo)
         == var v := OneWord(w, wo); if IsSigned(t) && v >= 0x8000 then v - 0x1_0000 else v
  {
    SingleInOrder(w, wo);
    Spaces();
    hide InOrder, WordSpace, OneWord;
  }

  lemma SingleInOrder(w: word, wo: WordOrder)
    ensures InOrder([w], wo) == [OneWord(w, wo)] && WordsValue([OneWord(w, wo)]) == OneWord(w, wo)
  {
    assert Reverse([w]) == [w];
    assert SwapEach([w]) == [SwapBytes16(w)];
  }

  lemma EncodeIsInverse(t: DataType, ws: seq<word>, v: int, wo: WordOrder)
    requires |ws| > 0
    ensures NumberOf(t, ws, wo) == v <==> Fits(t, |ws|, v) && ws == Encode(t, v, |ws|, wo)
  {
    hide InOrder, WordsValue, ToWords, WordSpace;
    var n, m := |ws|, WordSpace(|ws|);
    WordsValueBound(InOrder(ws, wo));
    var raw := if v < 0 then v + m else v;
    if 0 <= raw < m {
      WordsHold(ws, raw, wo);
    }
  }

  /** Words hold a raw value exactly when they are its words. */
  lemma WordsHold(ws: seq<word>, raw: nat, wo: WordOrder)
    requires raw < WordSpace(|ws|)
    ensures WordsValue(InOrder(ws, wo)) == raw <==> ws == InOrder(ToWords(raw, |ws|), wo)
  {
    hide InOrder, WordsValue, ToWords, WordSpace;
    WordsOfValue(InOrder(ws, wo));
    InOrderUndoesItself(ws, wo);
    ValueOfWords(raw, |ws|);
    InOrderUndoesItself(ToWords(raw, |ws|), wo);
  }

  // ------------------------------------------------------------------
  // Bit fields
  // ------------------------------------------------------------------

  /** A bit field's value always lies in the range its type declares, whatever the register
      holds and wherever the field starts. */
  lemma BitFieldsStayInRange(registry: map<int, int>, f: Field, wo: WordOrder)
    requires ValidType(f.dataType) && (f.dataType.Bits? || f.dataType.SBits? || f.dataType.SmBits?)
    requires f.register in registry
    ensures var r := ProcessUshort(registry, f, wo);
            r.Ok? && r.value.Number? && InRange(f.dataType, r.value.n)
  {
    hide BitField, Bit, Pow2;
    var w, n := OneWord(registry[f.register] % 65536, wo), f.dataType.n;
    BitFieldBound(w, StartBit(f), n);
    BitFieldBound(w, StartBit(f) + 1, n - 1);
    Doubles(n);
  }

  lemma Doubles(n: nat)
    requires n > 0
    ensures Pow2(n) == 2 * Pow2(n - 1)
  {
  }

  // ------------------------------------------------------------------
  // Every value of a bit field's range occurs
  // ------------------------------------------------------------------

  /** The bits that hold a value of a bit-field type. */
  function FieldBits(t: DataType, v: int): int
    requires ValidType(t) && (t.Bits? || t.SBits? || t.SmBits?)
  {
    if t.SmBits? then (if v < 0 then 1 - 2 * v else 2 * v)
    else if v < 0 then v + Pow2(t.n)
    else v
  }

  lemma FieldBitsFit(t: DataType, v: int)
    requires ValidType(t) && (t.Bits? || t.SBits? || t.SmBits?) && InRange(t, v)
    ensures 0 <= FieldBits(t, v) < Pow2(t.n)
  {
    Doubles(t.n);
  }

  lemma ShiftedField(x: nat, s: nat, n: nat)
    requires x < Pow2(n)
    ensures x * Pow2(s) < Pow2(s + n) && x * Pow2(s) / Pow2(s) == x && BitField(x * Pow2(s), s, n) == x
  {
    Pow2Adds(s, n);
    MulMonotone(Pow2(s), x, Pow2(n) - 1);
    DivisionIsUnique(x * Pow2(s), Pow2(s), x, 0);
    DivisionIsUnique(x, Pow2(n), 0, x);
  }

  lemma {:induction false} Pow2Grows(a: nat, b: nat)
    requires a <= b
    ensures Pow2(a) <= Pow2(b)
  {
    if a < b {
      Pow2Grows(a, b - 1);
    }
  }

  lemma Pow2Of16()
    ensures Pow2(16) == 65536
  {
    assert Pow2(8) == 256 by {
      assert Pow2(4) == 16;
    }
    Pow2Adds(8, 8);
  }

  lemma FieldFitsAWord(x: nat, s: nat, n: nat)
    requires x < Pow2(n) && s + n <= 16
    ensures x * Pow2(s) < 65536
  {
    ShiftedField(x, s, n);
    Pow2Grows(s + n, 16);
    Pow2Of16();
  }

  /** The lowest bit of a shifted field, and the bits above it. */
  lemma UpperField(w: nat, x: nat, s: nat, n: nat)
    requires n >= 1 && x < Pow2(n) && w / Pow2(s) == x
    ensures Bit(w, s) == x % 2
    ensures BitField(w, s + 1, n - 1) == x / 2
  {
    Doubles(s + 1);
    Doubles(n);
    HalfField(w, x, Pow2(s), Pow2(n - 1));
    hide Pow2;
    assert Pow2(s + 1) == 2 * Pow2(s);
    assert BitField(w, s + 1, n - 1) == w / Pow2(s + 1) % Pow2(n - 1);
  }

  lemma HalfField(w: nat, x: nat, p: nat, q: nat)
    requires p > 0 && q > 0 && w / p == x && x < 2 * q
    ensures w / (2 * p) % q == x / 2
  {
    DivDiv(w, p, 2);
    DivisionIsUnique(x / 2, q, 0, x / 2);
  }

  lemma DecodesPlaced(f: Field, w: word, x: nat, v: int)
    requires ValidType(f.dataType) && (f.dataType.Bits? || f.dataType.SBits? || f.dataType.SmBits?)
    requires InRange(f.dataType, v) && x == FieldBits(f.dataType, v)
    requires BitField(w, StartBit(f), f.dataType.n) == x
    requires Bit(w, StartBit(f)) == x % 2 && BitField(w, StartBit(f) + 1, f.dataType.n - 1) == x / 2
    ensures DecodeWord(w, f) == Number(v)
  {
    hide Bit, BitField, Pow2, StartBit;
    Doubles(f.dataType.n);
    SignAndHalf(v);
  }

  lemma SignAndHalf(v: int)
    ensures v < 0 ==> (1 - 2 * v) % 2 == 1 && (1 - 2 * v) / 2 == -v
    ensures 2 * v % 2 == 0 && 2 * v / 2 == v
  {
  }

  /** A field wholly inside the register takes every value of its type's range: the register that
      holds only the bits of `v`, at the field's place, decodes to `v`. */
  lemma BitFieldsReachTheirRange(f: Field, v: int)
    requires ValidType(f.dataType) && (f.dataType.Bits? || f.dataType.SBits? || f.dataType.SmBits?)
    requires StartBit(f) + f.dataType.n <= 16 && InRange(f.dataType, v)
    ensures var w := FieldBits(f.dataType, v) * Pow2(StartBit(f));
            0 <= w < 65536 && DecodeWord(w, f) == Number(v)
  {
    hide DecodeWord, Bit, BitField, Pow2, InRange;
    FieldBitsFit(f.dataType, v);
    var x: nat, s, n := FieldBits(f.dataType, v), StartBit(f), f.dataType.n;
    FieldFitsAWord(x, s, n);
    ShiftedField(x, s, n);
    UpperField(x * Pow2(s), x, s, n);
    DecodesPlaced(f, x * Pow2(s), x, v);
  }

  /** Flags are listed bit by bit. */
  lemma {:induction false} FlagAt(v: nat, from: nat, n: nat, i: nat)
    requires i < n
    ensures |FlagText(v, from, n)| == n
    ensures FlagText(v, from, n)[i] == if Bit(v, from + i) == 1 then '1' else '0'
  {
    FlagCount(v, from, n - 1);
    if i < n - 1 {
      FlagAt(v, from, n - 1, i);
    }
  }

  lemma {:induction false} FlagCount(v: nat, from: nat, n: nat)
    ensures |FlagText(v, from, n)| == n
  {
    if n > 0 {
      FlagCount(v, from, n - 1);
    }
  }

  // ------------------------------------------------------------------
  // Text
  // ------------------------------------------------------------------

  /** Text a device can hold in `n` registers: printable, with no trailing space. */
  predicate IsDeviceText(s: string, n: nat) {
    && |s| <= 2 * n
    && (forall i | 0 <= i < |s| :: ' ' <= s[i] <= '~')
    && (s != "" ==> s[|s| - 1] != ' ')
  }

  function ByteAt(s: string, i: nat): byte {
    if i < |s| && ' ' <= s[i] <= '~' then s[i] as int else 0
  }

  /** The words of a text, two characters each, padded with NULs. */
  function TextWords(s: string, n: nat): (ws: seq<word>)
    ensures |ws| == n
  {
    seq(n, i requires 0 <= i < n => ByteAt(s, 2 * i) * 256 + ByteAt(s, 2 * i + 1))
  }

  function TextBytes(s: string, n: nat): (bs: seq<byte>)
    ensures |bs| == n
  {
    seq(n, i requires 0 <= i < n => ByteAt(s, i))
  }

  lemma TextImage(s: string, n: nat)
    ensures Image(TextWords(s, n)) == TextBytes(s, 2 * n)
  {
    hide Image, ByteAt;
    var a, b := Image(TextWords(s, n)), TextBytes(s, 2 * n);
    forall k: nat | k < n ensures a[2 * k] == b[2 * k] && a[2 * k + 1] == b[2 * k + 1] {
      ImageAt(TextWords(s, n), k);
      JoinBytes(ByteAt(s, 2 * k), ByteAt(s, 2 * k + 1));
    }
    EqualByWords(a, b, n);
  }

  lemma JoinBytes(a: byte, b: byte)
    ensures High(a * 256 + b) == a && Low(a * 256 + b) == b
  {
  }

  lemma {:induction false} PrintableText(s: string, n: nat)
    requires |s| <= n && forall i | 0 <= i < |s| :: ' ' <= s[i] <= '~'
    ensures Printable(TextBytes(s, n)) == s
  {
    if s != "" {
      var bs := TextBytes(s, n);
      assert bs[1..] == TextBytes(s[1..], n - 1) by {
        forall i | 0 <= i < n - 1 ensures ByteAt(s, i + 1) == ByteAt(s[1..], i) {
        }
      }
      PrintableText(s[1..], n - 1);
      assert bs[0] as char == s[0];
      assert s == [s[0]] + s[1..];
    }
  }

  /** Text is read back: a device that stores a text in the registers of a string entry, in the
      entry's word order, has it decoded as it is. */
  lemma TextIsReadBack(registry: map<int, int>, f: Field, wo: WordOrder, s: string)
    requires f.dataType.String? || f.dataType.String16? || f.dataType.String32?
    requires IsDeviceText(s, DecoderWords(f)) && (f.dataTypeSize > 0 ==> |s| <= f.dataTypeSize)
    requires GatherWords(registry, f, DecoderWords(f)) == Some(InOrder(TextWords(s, DecoderWords(f)), wo))
    ensures ProcessUshort(registry, f, wo) == Ok(Text(s))
  {
    hide GatherWords, InOrder, Image, ImageSwapped, OrderedBytes, Printable, TextWords, Reverse, SwapEach;
    var n := DecoderWords(f);
    var ws := InOrder(TextWords(s, n), wo);
    InOrderUndoesItself(TextWords(s, n), wo);
    OrderedIsImage(ws, wo);
    TextImage(s, n);
    var kept := if f.dataTypeSize > 0 then Min(f.dataTypeSize, 2 * n) else 2 * n;
    assert (if f.dataTypeSize > 0 then Clip(TextBytes(s, 2 * n), 0, f.dataTypeSize) else TextBytes(s, 2 * n)) == TextBytes(s, kept);
    PrintableText(s, kept);
  }

  lemma OrderedIsImage(ws: seq<word>, wo: WordOrder)
    ensures OrderedBytes(ws, wo) == Image(InOrder(ws, wo))
  {
    ImageOfSwapped(if wo.wordReversed then Reverse(ws) else ws);
  }
}
