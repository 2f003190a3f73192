/** What single fields decode to, and when decoding fails. */
module FieldLaws {
  import opened Options
  import opened Bytes
  import opened Texts
  import opened RegisterMap
  import opened Decoding
  import opened BatchingTheorems
  import opened DecodedRanges
  import opened TextFields

  // ------------------------------------------------------------------
  // Sizes
  // ------------------------------------------------------------------

  /** The bytes a value takes on the device; 0 where the entry must say it. */
  function BytesOf(t: DataType): nat {
    match t
    case UInt64 => 8
    case Int64 => 8
    case Float64 => 8
    case UInt => 4
    case Int => 4
    case Acc32 => 4
    case Float32 => 4
    case Flags32 => 4
    case String16 => 16
    case String32 => 32
    case String => 0
    case Ascii => 0
    case _ => 2
  }

  /** An entry occupies as many registers as it lists; else as many as its size or type takes, two bytes in
      each. */
  lemma WordsHoldTheBytes(f: Field)
    ensures var n := EntryWordCount(f);
            if f.registerList != [] then n == |f.registerList|
            else if f.concatenate && f.concatenateRegisters != [] then n == |f.concatenateRegisters|
            else if f.dataType.String? || f.dataType.Ascii? then
              if f.dataTypeSize > 0 then 2 * n - 2 < f.dataTypeSize <= 2 * n else n == 1
            else 2 * n == BytesOf(f.dataType)
  {
  }

  // ------------------------------------------------------------------
  // Flags, floats and hexadecimal registers
  // ------------------------------------------------------------------

  function FlagCountOf(t: DataType): nat {
    match t
    case Flags8 => 8
    case Flags16 => 16
    case Flags32 => 32
    case _ => 0
  }

  /** The text has one character per flag, and each is the bit of its number in the registers' value. */
  ghost predicate ShowsFlags(text: string, v: nat, from: nat, n: nat) {
    |text| == n && forall i: nat | i < n :: text[i] == if Bit(v, from + i) == 1 then '1' else '0'
  }

  lemma FlagTextShows(v: nat, from: nat, n: nat)
    ensures ShowsFlags(FlagText(v, from, n), v, from, n)
  {
    FlagCount(v, from, n);
    forall i: nat | i < n ensures FlagText(v, from, n)[i] == if Bit(v, from + i) == 1 then '1' else '0' {
      FlagAt(v, from, n, i);
    }
  }

  /** Flags of registers in any word order: the bits of their value from the entry's first bit on. */
  lemma FlagsAreBits(registry: map<int, int>, f: Field, wo: WordOrder, ws: seq<word>)
    requires FlagCountOf(f.dataType) > 0 && GatherWords(registry, f, DecoderWords(f)) == Some(InOrder(ws, wo))
    requires AddressAt(f, 0) == f.register
    ensures ProcessUshort(registry, f, wo).Ok? && ProcessUshort(registry, f, wo).value.Text?
    ensures ShowsFlags(ProcessUshort(registry, f, wo).value.s, WordsValue(ws), if f.registerBit >= 0 then f.registerBit else 0,
                       FlagCountOf(f.dataType))
  {
    FlagTextShows(WordsValue(ws), StartBit(f), FlagCountOf(f.dataType));
    if f.dataType.Flags32? {
      OrderedGivesValue(ws, wo);
      hide GatherWords, InOrder, OrderedBytes, FlagText, ShowsFlags, WordsValue, FromBytes;
    } else {
      OneWordInOrder(registry, f, wo, ws);
      hide GatherWords, InOrder, FlagText, ShowsFlags, WordsValue, OneWord;
    }
  }

  lemma OrderedGivesValue(ws: seq<word>, wo: WordOrder)
    ensures FromBytes(OrderedBytes(InOrder(ws, wo), wo)) == WordsValue(ws)
  {
    hide InOrder, OrderedBytes, FromBytes, WordsValue;
    InOrderUndoesItself(ws, wo);
    OrderedIsImage(InOrder(ws, wo), wo);
    ImageValue(ws);
  }

  lemma OneWordInOrder(registry: map<int, int>, f: Field, wo: WordOrder, ws: seq<word>)
    requires DecoderWords(f) == 1 && AddressAt(f, 0) == f.register
    requires GatherWords(registry, f, 1) == Some(InOrder(ws, wo))
    ensures f.register in registry && |ws| == 1 && OneWord(registry[f.register] % 65536, wo) == ws[0] == WordsValue(ws)
  {
    var x := InOrder(ws, wo);
    assert GatherWords(registry, f, 0) == Some([]);
    assert |x| == |ws|;
    assert x == [] + [registry[f.register] % 65536];
    assert Reverse(ws) == ws;
    SwapTwice(ws[0]);
    assert ws[..0] == [] && WordsValue([]) == 0;
  }

  /** A floating-point number keeps the bits of its registers, most significant byte first. */
  lemma FloatsKeepTheirBits(registry: map<int, int>, f: Field, wo: WordOrder, ws: seq<word>)
    requires f.dataType.Float32? || f.dataType.Float64?
    requires GatherWords(registry, f, DecoderWords(f)) == Some(InOrder(ws, wo))
    ensures ProcessUshort(registry, f, wo) == Ok(Float(WordBytes(ws)))
  {
    hide GatherWords, InOrder, OrderedBytes, WordBytes, Image;
    InOrderUndoesItself(ws, wo);
    OrderedIsImage(InOrder(ws, wo), wo);
    ImageIsWordBytes(ws);
  }

  /** The value of a hexadecimal digit, lower case. */
  predicate IsDigitOf(c: char, d: nat) {
    if d < 10 then c == '0' + d as char else d < 16 && c == 'a' + (d - 10) as char
  }

  /** A hexadecimal register is four digits, most significant first. */
  lemma HexIsFourDigits(registry: map<int, int>, f: Field)
    requires f.dataType.Hex? && f.register in registry
    ensures var r, w := ProcessUshort(registry, f, WordOrder(false, false)), registry[f.register] % 65536;
            && r.Ok? && r.value.Text? && |r.value.s| == 4
            && IsDigitOf(r.value.s[0], w / 4096) && IsDigitOf(r.value.s[1], w / 256 % 16)
            && IsDigitOf(r.value.s[2], w / 16 % 16) && IsDigitOf(r.value.s[3], w % 16)
  {
    var w: word := registry[f.register] % 65536;
    HexBytes(BigEndian(w));
    HexNibbles(w);
    hide GatherWords, HexText, HexDigit;
    HexDigitIs(w / 4096);
    HexDigitIs(w / 256 % 16);
    HexDigitIs(w / 16 % 16);
    HexDigitIs(w % 16);
  }

  lemma HexNibbles(w: word)
    ensures w / 256 / 16 == w / 4096 < 16 && w / 256 % 16 < 16 && w % 256 / 16 == w / 16 % 16 && w % 256 % 16 == w % 16
  {
    DivDiv(w, 256, 16);
    var q, x, y := w / 256, w % 256 / 16, w % 256 % 16;
    assert w == 16 * (16 * q + x) + y;
    DivisionIsUnique(w, 16, 16 * q + x, y);
    DivisionIsUnique(16 * q + x, 16, q, x);
  }

  lemma HexDigitIs(d: nat)
    requires d < 16
    ensures IsDigitOf(HexDigit(d), d)
  {
  }

  // ------------------------------------------------------------------
  // Failures
  // ------------------------------------------------------------------

  /** The types whose single register is looked up directly. */
  predicate IsSingle(t: DataType) {
    t.UShort? || t.Short? || t.Byte? || t.Hex? || t.Flags8? || t.Flags16? || t.Bits? || t.SBits? || t.SmBits?
  }

  /** A missing register raises where one register is read directly, and is a partial read elsewhere. */
  lemma MissingRegister(registry: map<int, int>, f: Field, wo: WordOrder)
    requires ValidField(f) && exists i: nat :: i < DecoderWords(f) && AddressAt(f, i) !in registry
    ensures ProcessUshort(registry, f, wo) == if IsSingle(f.dataType) then Raised(KeyError) else PartialRead
  {
    GatheredWhenPresent(registry, f, DecoderWords(f));
    assert AddressAt(f, 0) == f.register;
    hide GatherWords, OrderedBytes;
  }

  /** What is left of a payload behind the entry's byte offset, as many bytes as its size says. */
  function Payload(payload: seq<byte>, f: Field): seq<byte> {
    var behind := if f.registerByte <= 0 then payload else if f.registerByte <= |payload| then payload[f.registerByte..] else [];
    if 0 < f.dataTypeSize < |behind| then behind[..f.dataTypeSize] else behind
  }

  /** A byte offset and a size choose the bytes that are decoded, and nothing else. */
  lemma OffsetChoosesBytes(payload: seq<byte>, f: Field, wo: WordOrder)
    requires ValidType(f.dataType)
    ensures ProcessBytes(payload, f, wo) == ProcessBytes(Payload(payload, f), f.(registerByte := 0, dataTypeSize := -1), wo)
  {
    hide Payload, OrderPayload, FlagText, Printable, AsciiFragment, StripRight, HexText, FromBytes, FromBytesSigned, DecodeRegister, StartBit, Clip;
    PayloadIsClipped(payload, f);
    var g := f.(registerByte := 0, dataTypeSize := -1);
    SameBits(Payload(payload, f), f, g, wo);
    SameFragment(Payload(payload, f), f, g);
  }

  lemma SameFragment(bs: seq<byte>, f: Field, g: Field)
    requires f.concatenate == g.concatenate
    ensures AsciiFragment(bs, f) == AsciiFragment(bs, g)
  {
  }

  lemma PayloadIsClipped(payload: seq<byte>, f: Field)
    ensures var skipped := if f.registerByte > 0 then Clip(payload, f.registerByte, f.registerByte + |payload|) else payload;
            Payload(payload, f) == if f.dataTypeSize > 0 then Clip(skipped, 0, f.dataTypeSize) else skipped
  {
    var n := |payload|;
    assert payload[n..n] == [];
    assert 0 < f.registerByte <= n ==> payload[f.registerByte..n] == payload[f.registerByte..];
    var behind := if f.registerByte <= 0 then payload else if f.registerByte <= n then payload[f.registerByte..] else [];
    assert behind == if f.registerByte > 0 then Clip(payload, f.registerByte, f.registerByte + n) else payload;
    assert behind[0..|behind|] == behind;
    assert 0 < f.dataTypeSize <= |behind| ==> behind[0..f.dataTypeSize] == behind[..f.dataTypeSize];
  }

  lemma SameBits(raw: seq<byte>, f: Field, g: Field, wo: WordOrder)
    requires ValidType(f.dataType) && g == f.(registerByte := 0, dataTypeSize := -1)
    ensures DecodeRegister(raw, f, wo) == DecodeRegister(raw, g, wo) && StartBit(f) == StartBit(g)
  {
    hide OneRegister, BitField, Bit, ExtendedByOnes, FromBytes, FromBytesSigned;
  }

  /** The bytes decoder raises exactly for a payload too short for a floating-point number, for a register to
      be turned round, or for a byte; and for a bit field without an offset. */
  lemma BytesFailExactly(payload: seq<byte>, f: Field, wo: WordOrder)
    requires ValidType(f.dataType) && f.registerByte <= 0 && f.dataTypeSize <= 0
    ensures var r, n, t := ProcessBytes(payload, f, wo), |payload|, f.dataType;
            && !r.PartialRead?
            && (r == Raised(StructError) <==> (t.Float32? && n < 4) || (t.Float64? && n < 8))
            && (r == Raised(IndexError) <==>
                  IsSingle(t) && !t.Hex? && !t.Flags8? && !t.Flags16? && ((wo.bytesReversed && n < 2) || (t.Byte? && n == 0)))
            && (r == Raised(ValueError) <==>
                  (t.Bits? || t.SBits? || t.SmBits?) && f.registerBit < 0 && !(wo.bytesReversed && n < 2))
            && r != Raised(KeyError)
  {
    hide OrderPayload, FlagText, Printable, AsciiFragment, StripRight, HexText, FromBytes, FromBytesSigned, DecodeRegister;
    if IsSingle(f.dataType) && !f.dataType.Hex? && !f.dataType.Flags8? && !f.dataType.Flags16? {
      RegisterFailsExactly(payload, f, wo);
    } else {
      PayloadLength(payload, 2, wo);
      PayloadLength(payload, 4, wo);
    }
  }

  lemma RegisterFailsExactly(payload: seq<byte>, f: Field, wo: WordOrder)
    requires ValidType(f.dataType)
    ensures var r, n, t := DecodeRegister(payload, f, wo), |payload|, f.dataType;
            && !r.PartialRead?
            && (r == Raised(IndexError) <==> (wo.bytesReversed && n < 2) || (t.Byte? && n == 0))
            && (r == Raised(ValueError) <==>
                  (t.Bits? || t.SBits? || t.SmBits?) && f.registerBit < 0 && !(wo.bytesReversed && n < 2))
            && r != Raised(KeyError) && r != Raised(StructError)
  {
    OneRegisterLength(payload, wo);
    hide OneRegister, FromBytes, FromBytesSigned, BitField, Bit, ExtendedByOnes;
  }

  lemma OneRegisterLength(payload: seq<byte>, wo: WordOrder)
    ensures OneRegister(payload, wo).None? <==> wo.bytesReversed && |payload| < 2
    ensures OneRegister(payload, wo).Some? ==> (OneRegister(payload, wo).value == [] <==> |payload| == 0)
  {
  }

  lemma PayloadLength(payload: seq<byte>, words: nat, wo: WordOrder)
    requires words > 1
    ensures |OrderPayload(payload, words, wo)| == 2 * words <==> |payload| >= 2 * words
  {
    ReversedLength(Clip(payload, 0, 2 * words), words);
    hide ReverseWords;
  }

  lemma {:induction false} ReversedLength(bs: seq<byte>, n: nat)
    requires |bs| <= 2 * n
    ensures |ReverseWords(bs, n)| == |bs|
  {
    if n > 0 {
      if |bs| <= 2 * (n - 1) {
        ReversedLength(bs, n - 1);
      } else {
        ReverseWordsOfPrefix(bs[..2 * (n - 1)], bs[2 * (n - 1)..], n - 1);
        assert bs[..2 * (n - 1)] + bs[2 * (n - 1)..] == bs;
      }
    }
  }
}
