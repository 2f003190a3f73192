/** The two register decoders: one from integers per register, one from raw bytes. */
module Decoding {
  import opened Options
  import opened Bytes
  import opened Texts
  import opened RegisterMap

  /** Two independent axes: the word holding the low half comes first, and the bytes inside
      each word are exchanged. */
  datatype WordOrder = WordOrder(wordReversed: bool, bytesReversed: bool)

  /** A decoded raw value; a floating-point number is kept as its bit pattern. */
  datatype Value = Number(n: int) | Text(s: string) | Float(bits: seq<byte>)

  datatype Exception = KeyError | IndexError | ValueError | StructError

  /** A value, a partial read (nothing is returned), or the exception the decoder raises. */
  datatype Decoded = Ok(value: Value) | PartialRead | Raised(error: Exception)

  // ------------------------------------------------------------------
  // Shared pieces
  // ------------------------------------------------------------------

  function Bit(v: nat, i: nat): nat { v / Pow2(i) % 2 }

  /** The `n` bits of a number from bit `from` on. */
  function BitField(v: nat, from: nat, n: nat): nat { v / Pow2(from) % Pow2(n) }

  /** One character per bit, lowest bit first. */
  function FlagText(v: nat, from: nat, n: nat): string {
    if n == 0 then "" else FlagText(v, from, n - 1) + (if Bit(v, from + n - 1) == 1 then "1" else "0")
  }

  function StartBit(f: Field): nat { if f.registerBit >= 0 then f.registerBit else 0 }

  function HexDigit(d: nat): char
    requires d < 16
  {
    "0123456789abcdef"[d]
  }

  function HexText(bs: seq<byte>): string {
    if bs == [] then "" else [HexDigit(bs[0] / 16), HexDigit(bs[0] % 16)] + HexText(bs[1..])
  }

  /** Printable characters up to the first NUL. */
  function Printable(bs: seq<byte>): string {
    if bs == [] || bs[0] == 0 then ""
    else (if 0x20 <= bs[0] <= 0x7E then [bs[0] as char] else "") + Printable(bs[1..])
  }

  function WithoutNuls(bs: seq<byte>): seq<byte> {
    if bs == [] then [] else (if bs[0] == 0 then [] else [bs[0]]) + WithoutNuls(bs[1..])
  }

  function AsciiFragment(bs: seq<byte>, f: Field): seq<byte> {
    if f.concatenate then WithoutNuls(bs) else bs
  }

  // ------------------------------------------------------------------
  // From integers per register
  // ------------------------------------------------------------------

  /** The words an entry's decoder assembles, in listed order; none if one is missing. */
  function GatherWords(registry: map<int, int>, f: Field, n: nat): Option<seq<word>> {
    if n == 0 then Some([])
    else
      var init := GatherWords(registry, f, n - 1);
      if init.None? || AddressAt(f, n - 1) !in registry then None
      else Some(init.value + [registry[AddressAt(f, n - 1)] % 65536])
  }

  /** The bytes of a word sequence under a word order, most significant first. */
  function OrderedBytes(ws: seq<word>, wo: WordOrder): (bs: seq<byte>)
    ensures |bs| == 2 * |ws|
  {
    var ordered := if wo.wordReversed then Reverse(ws) else ws;
    if wo.bytesReversed then ImageSwapped(ordered) else Image(ordered)
  }

  /** The same computed the way the program does: collect, reverse in place, serialize. */
  method RegisterWordsToBytes(registry: map<int, int>, f: Field, wordCount: nat, wo: WordOrder) returns (r: Option<seq<byte>>)
    ensures r == match GatherWords(registry, f, wordCount)
                 case None => None
                 case Some(ws) => Some(OrderedBytes(ws, wo))
  {
    hide GatherWords, Image, ImageSwapped, Reverse;
    var words, complete := CollectWords(registry, f, wordCount);
    if !complete {
      return None;
    }
    if wo.wordReversed {
      ReverseInPlace(words);
    }
    var bs := Serialize(words, wo.bytesReversed);
    r := Some(bs);
  }

  method CollectWords(registry: map<int, int>, f: Field, wordCount: nat) returns (words: array<word>, complete: bool)
    ensures fresh(words)
    ensures GatherWords(registry, f, wordCount) == if complete then Some(words[..]) else None
  {
    words := new word[wordCount];
    for i := 0 to wordCount
      invariant GatherWords(registry, f, i) == Some(words[..i])
    {
      var address := if i < |f.registerList| then f.registerList[i] else f.register + i;
      if address !in registry {
        MissingStaysMissing(registry, f, i + 1, wordCount);
        return words, false;
      }
      ghost var before := words[..i];
      words[i] := registry[address] % 65536;
      assert words[..i + 1] == before + [words[i]];
    }
    assert words[..wordCount] == words[..];
    complete := true;
  }

  method Serialize(words: array<word>, bytesReversed: bool) returns (bs: seq<byte>)
    ensures bs == if bytesReversed then ImageSwapped(words[..]) else Image(words[..])
  {
    hide High, Low;
    bs := [];
    for i := 0 to words.Length
      invariant bs == if bytesReversed then ImageSwapped(words[..i]) else Image(words[..i])
    {
      assert words[..i + 1][..i] == words[..i];
      bs := bs + if bytesReversed then LittleEndian(words[i]) else BigEndian(words[i]);
    }
    assert words[..words.Length] == words[..];
  }

  method ReverseInPlace(a: array<word>)
    modifies a
    ensures a[..] == Reverse(old(a[..]))
  {
    var n, i := a.Length, 0;
    while i < n / 2
      invariant 0 <= i <= n / 2
      invariant forall k | 0 <= k < i :: a[k] == old(a[n - 1 - k]) && a[n - 1 - k] == old(a[k])
      invariant forall k | i <= k < n - i :: a[k] == old(a[k])
    {
      a[i], a[n - 1 - i] := a[n - 1 - i], a[i];
      i := i + 1;
    }
  }

  lemma {:induction false} MissingStaysMissing(registry: map<int, int>, f: Field, n: nat, m: nat)
    requires GatherWords(registry, f, n).None? && n <= m
    ensures GatherWords(registry, f, m).None?
    decreases m - n
  {
    if n < m {
      MissingStaysMissing(registry, f, n, m - 1);
    }
  }

  /** Decode the words of a multi-register value. */
  function FromWords(ws: Option<seq<word>>, wo: WordOrder, decode: seq<byte> -> Value): Decoded {
    if ws.None? then PartialRead else Ok(decode(OrderedBytes(ws.value, wo)))
  }

  /** The value of a single register, with its bytes exchanged where the order says so. */
  function OneWord(w: word, wo: WordOrder): word {
    if wo.bytesReversed then SwapBytes16(w) else w
  }

  function DecodeWord(w: word, f: Field): Value
    requires ValidType(f.dataType)
  {
    match f.dataType
    case Short => Number(if w >= 0x8000 then w - 0x1_0000 else w)
    case SmBits(n) =>
      var magnitude: int := BitField(w, StartBit(f) + 1, n - 1);
      Number(if Bit(w, StartBit(f)) == 1 then -magnitude else magnitude)
    case SBits(n) =>
      var raw := BitField(w, StartBit(f), n);
      Number(if raw >= Pow2(n - 1) then raw - Pow2(n) else raw)
    case Bits(n) => Number(BitField(w, StartBit(f), n))
    case Byte => Number(w % 256)
    case Hex => Text(HexText(BigEndian(w)))
    case Flags8 => Text(FlagText(w, StartBit(f), 8))
    case Flags16 => Text(FlagText(w, StartBit(f), 16))
    case _ => Number(w)
  }

  /** Decode an entry from a register snapshot of integers. */
  function ProcessUshort(registry: map<int, int>, f: Field, wo: WordOrder): Decoded
    requires ValidType(f.dataType)
  {
    var ws := GatherWords(registry, f, DecoderWords(f));
    match f.dataType
    case UInt => FromWords(ws, wo, bs => Number(FromBytes(bs)))
    case Acc32 => FromWords(ws, wo, bs => Number(FromBytes(bs)))
    case UInt64 => FromWords(ws, wo, bs => Number(FromBytes(bs)))
    case Int => FromWords(ws, wo, bs => Number(FromBytesSigned(bs)))
    case Int64 => FromWords(ws, wo, bs => Number(FromBytesSigned(bs)))
    case Float32 => FromWords(ws, wo, bs => Float(bs))
    case Float64 => FromWords(ws, wo, bs => Float(bs))
    case Flags32 => FromWords(ws, wo, bs => Text(FlagText(FromBytes(bs), StartBit(f), 32)))
    case Ascii =>
      FromWords(ws, wo, bs =>
        var kept := if f.dataTypeSize > 0 && !f.concatenate then Clip(bs, 0, f.dataTypeSize) else bs;
        Text(StripRight(Printable(AsciiFragment(kept, f)))))
    case String => FromWords(ws, wo, bs => TextOf(bs, f))
    case String16 => FromWords(ws, wo, bs => TextOf(bs, f))
    case String32 => FromWords(ws, wo, bs => TextOf(bs, f))
    case _ =>
      if f.register !in registry then Raised(KeyError)
      else Ok(DecodeWord(OneWord(registry[f.register] % 65536, wo), f))
  }

  function TextOf(bs: seq<byte>, f: Field): Value {
    Text(StripRight(Printable(if f.dataTypeSize > 0 then Clip(bs, 0, f.dataTypeSize) else bs)))
  }

  // ------------------------------------------------------------------
  // From raw bytes
  // ------------------------------------------------------------------

  /** The leading words of the payload put into most-significant-first order. */
  function OrderPayload(raw: seq<byte>, words: nat, wo: WordOrder): seq<byte> {
    var bs := Clip(raw, 0, 2 * words);
    var ordered := if wo.wordReversed && words > 1 then ReverseWords(bs, words) else bs;
    if wo.bytesReversed then SwapWords(ordered) else ordered
  }

  /** Exchanging the bytes of a single register needs both of them. */
  function OneRegister(raw: seq<byte>, wo: WordOrder): Option<seq<byte>> {
    var bs := Clip(raw, 0, 2);
    if !wo.bytesReversed then Some(bs)
    else if |bs| < 2 then None
    else Some([bs[1], bs[0]])
  }

  /** What sign-extending a field of `n` bits by OR-ing in 64 ones above it amounts to. */
  function ExtendedByOnes(v: nat, from: nat, n: nat): nat {
    BitField(v, from, n) + 0xFFFF_FFFF_FFFF_FFFF * Pow2(n)
  }

  function DecodeRegister(raw: seq<byte>, f: Field, wo: WordOrder): Decoded
    requires ValidType(f.dataType)
  {
    var bs := OneRegister(raw, wo);
    if bs.None? then Raised(IndexError)
    else
      var v := FromBytes(bs.value);
      match f.dataType
      case UShort => Ok(Number(v))
      case Short => Ok(Number(FromBytesSigned(bs.value)))
      case Byte => if bs.value == [] then Raised(IndexError) else Ok(Number(bs.value[0]))
      case SmBits(n) =>
        if f.registerBit < 0 then Raised(ValueError)
        else if Bit(v, f.registerBit) == 1 then Ok(Number(ExtendedByOnes(v, f.registerBit + 1, n)))
        else Ok(Number(BitField(v, f.registerBit + 1, n)))
      case SBits(n) =>
        if f.registerBit < 0 then Raised(ValueError)
        else if Bit(v, f.registerBit + n - 1) == 1 then Ok(Number(ExtendedByOnes(v, f.registerBit, n)))
        else Ok(Number(BitField(v, f.registerBit, n)))
      case Bits(n) =>
        if f.registerBit < 0 then Raised(ValueError) else Ok(Number(BitField(v, f.registerBit, n)))
      case _ => Ok(Number(v))
  }

  /** Decode an entry from the raw payload stored at its register. */
  function ProcessBytes(payload: seq<byte>, f: Field, wo: WordOrder): Decoded
    requires ValidType(f.dataType)
  {
    var skipped := if f.registerByte > 0 then Clip(payload, f.registerByte, f.registerByte + |payload|) else payload;
    var raw := if f.dataTypeSize > 0 then Clip(skipped, 0, f.dataTypeSize) else skipped;
    match f.dataType
    case UInt => Ok(Number(FromBytes(OrderPayload(raw, 2, wo))))
    case Acc32 => Ok(Number(FromBytes(OrderPayload(raw, 2, wo))))
    case Int => Ok(Number(FromBytesSigned(OrderPayload(raw, 2, wo))))
    case UInt64 => Ok(Number(FromBytes(OrderPayload(raw, 4, wo))))
    case Int64 => Ok(Number(FromBytesSigned(OrderPayload(raw, 4, wo))))
    case Float32 => if |OrderPayload(raw, 2, wo)| != 4 then Raised(StructError) else Ok(Float(OrderPayload(raw, 2, wo)))
    case Float64 => if |OrderPayload(raw, 4, wo)| != 8 then Raised(StructError) else Ok(Float(OrderPayload(raw, 4, wo)))
    case Flags8 => Ok(Text(FlagText(FromBytes(OrderPayload(raw, 1, wo)), StartBit(f), 8)))
    case Flags16 => Ok(Text(FlagText(FromBytes(OrderPayload(raw, 1, wo)), StartBit(f), 16)))
    case Flags32 => Ok(Text(FlagText(FromBytes(OrderPayload(raw, 2, wo)), StartBit(f), 32)))
    case Hex => Ok(Text(HexText(raw)))
    case Ascii => Ok(Text(StripRight(Printable(AsciiFragment(raw, f)))))
    case String => Ok(Text(StripRight(Printable(raw))))
    case String16 => Ok(Text(StripRight(Printable(raw))))
    case String32 => Ok(Text(StripRight(Printable(raw))))
    case _ => DecodeRegister(raw, f, wo)
  }

  // ------------------------------------------------------------------
  // The two decoders agree
  // ------------------------------------------------------------------

  /** `payload` begins with the wire image of the registers the integer decoder reads. */
  ghost predicate SameRegisters(registry: map<int, int>, payload: seq<byte>, f: Field) {
    && f.registerList == [] && f.registerByte <= 0 && f.dataTypeSize <= 0
    && (forall i: nat | i < DecoderWords(f) :: AddressAt(f, i) in registry)
    && f.register in registry
    && Image(RegisterWords(registry, f)) <= payload
  }

  function RegisterWords(registry: map<int, int>, f: Field): (ws: seq<word>)
    requires forall i: nat | i < DecoderWords(f) :: AddressAt(f, i) in registry
    ensures |ws| == DecoderWords(f)
  {
    seq(DecoderWords(f), i requires 0 <= i < DecoderWords(f) => registry[AddressAt(f, i)] % 65536)
  }

  lemma {:induction false} GatherRegisters(registry: map<int, int>, f: Field, n: nat)
    requires n <= DecoderWords(f)
    requires forall i: nat | i < DecoderWords(f) :: AddressAt(f, i) in registry
    ensures GatherWords(registry, f, n) == Some(RegisterWords(registry, f)[..n])
  {
    if n > 0 {
      GatherRegisters(registry, f, n - 1);
      var ws := RegisterWords(registry, f);
      assert ws[..n] == ws[..n - 1] + [ws[n - 1]];
    }
  }

  /** Assembling words and reordering their wire image come to the same byte string. */
  lemma OrdersAgree(ws: seq<word>, payload: seq<byte>, wo: WordOrder)
    requires Image(ws) <= payload && |ws| > 1
    ensures OrderPayload(payload, |ws|, wo) == OrderedBytes(ws, wo)
  {
    hide Image, ImageSwapped, SwapWords, ReverseWords, Reverse;
    assert Clip(payload, 0, 2 * |ws|) == Image(ws);
    ReversedImage(ws);
    SwappedImage(ws);
    SwappedImage(Reverse(ws));
  }

  lemma ImageSnoc(ws: seq<word>, x: word)
    ensures Image(ws + [x]) == Image(ws) + BigEndian(x)
  {
    assert (ws + [x])[..|ws|] == ws;
  }

  lemma {:induction false} ImageCons(x: word, ws: seq<word>)
    ensures Image([x] + ws) == BigEndian(x) + Image(ws)
  {
    if ws == [] {
      assert [x] + ws == [] + [x];
      ImageSnoc([], x);
    } else {
      var n := |ws| - 1;
      ImageCons(x, ws[..n]);
      ImageSnoc([x] + ws[..n], ws[n]);
      ImageSnoc(ws[..n], ws[n]);
      assert ws == ws[..n] + [ws[n]];
      assert [x] + ws == [x] + ws[..n] + [ws[n]];
    }
  }

  lemma ReverseSnoc(ws: seq<word>, x: word)
    ensures Reverse(ws + [x]) == [x] + Reverse(ws)
  {
  }

  lemma {:induction false} ReverseWordsOfPrefix(p: seq<byte>, q: seq<byte>, n: nat)
    requires 2 * n <= |p|
    ensures ReverseWords(p + q, n) == ReverseWords(p, n)
  {
    if n > 0 {
      ReverseWordsOfPrefix(p, q, n - 1);
      assert (p + q)[2 * (n - 1)..2 * n] == p[2 * (n - 1)..2 * n];
    }
  }

  lemma ReverseWordsSnoc(p: seq<byte>, q: seq<byte>, n: nat)
    requires 2 * n == |p| && |q| == 2
    ensures ReverseWords(p + q, n + 1) == q + ReverseWords(p, n)
  {
    ReverseWordsOfPrefix(p, q, n);
    assert (p + q)[2 * n..2 * n + 2] == q;
  }

  lemma {:induction false} ReversedImage(ws: seq<word>)
    ensures Image(Reverse(ws)) == ReverseWords(Image(ws), |ws|)
  {
    if ws != [] {
      hide *;
      var n := |ws| - 1;
      var init, x := ws[..n], ws[n];
      assert ws == init + [x];
      ReversedImage(init);
      ReverseSnoc(init, x);
      ImageCons(x, Reverse(init));
      ImageSnoc(init, x);
      BigEndianLength(x);
      ReverseWordsSnoc(Image(init), BigEndian(x), n);
    }
  }

  lemma BigEndianLength(x: word)
    ensures |BigEndian(x)| == 2
  {
  }

  lemma SwappedImage(ws: seq<word>)
    ensures ImageSwapped(ws) == SwapWords(Image(ws))
  {
    hide Image, ImageSwapped, SwapWords;
    var a, b := ImageSwapped(ws), SwapWords(Image(ws));
    forall k | 0 <= k < |ws| ensures a[2 * k] == b[2 * k] && a[2 * k + 1] == b[2 * k + 1] {
      SwapWordsAt(Image(ws), k);
      ImageAt(ws, k);
      ImageSwappedAt(ws, k);
    }
    EqualByWords(a, b, |ws|);
  }

  lemma SwapTwoBytes(a: byte, b: byte)
    ensures SwapWords([a, b]) == [b, a]
  {
    SwapWordsAt([a, b], 0);
  }

  lemma SwappedWord(w: word)
    ensures BigEndian(SwapBytes16(w)) == LittleEndian(w)
  {
  }

  /** A single register read from its two bytes. */
  lemma OneRegisterAgrees(w: word, payload: seq<byte>, wo: WordOrder)
    requires Image([w]) <= payload
    ensures OneRegister(payload, wo) == Some(BigEndian(OneWord(w, wo)))
    ensures OrderPayload(payload, 1, wo) == BigEndian(OneWord(w, wo))
  {
    hide SwapWords, SwapBytes16, High, Low, ReverseWords;
    assert Image([w]) == BigEndian(w);
    assert Clip(payload, 0, 2) == BigEndian(w);
    SwapTwoBytes(High(w), Low(w));
    SwappedWord(w);
  }

  lemma WordValue(w: word)
    ensures FromBytes(BigEndian(w)) == w
    ensures FromBytesSigned(BigEndian(w)) == if w >= 0x8000 then w - 0x1_0000 else w
  {
    var bs := BigEndian(w);
    assert bs[..1] == [w / 256] && bs[..1][..0] == [];
    assert FromBytes(bs[..1]) == w / 256;
    assert Pow256(1) == 256 && Pow256(2) == 65536;
  }

  /** When the two decoders give the same value: always, except for signed bit fields holding a
      negative value, a byte whose register has two different halves, and bit fields without
      a bit offset. */
  predicate AgreementCondition(f: Field, w: word, wo: WordOrder)
    requires ValidType(f.dataType)
  {
    var v := OneWord(w, wo);
    match f.dataType
    case Byte => w / 256 == w % 256
    case Bits(n) => f.registerBit >= 0
    case SBits(n) => f.registerBit >= 0 && Bit(v, f.registerBit + n - 1) == 0
    case SmBits(n) => f.registerBit >= 0 && Bit(v, f.registerBit) == 0 && Bit(v, f.registerBit + n) == 0
    case _ => true
  }

  predicate IsText(t: DataType) {
    t.Hex? || t.Ascii? || t.String? || t.String16? || t.String32?
  }

  /** Reading the same registers as integers or as raw bytes gives the same value, exactly when
      the condition above holds; it always does for whole-register numbers, floats and flags. */
  lemma DecodersAgree(registry: map<int, int>, payload: seq<byte>, f: Field, wo: WordOrder)
    requires ValidType(f.dataType) && !IsText(f.dataType)
    requires SameRegisters(registry, payload, f)
    ensures ProcessBytes(payload, f, wo) == ProcessUshort(registry, f, wo)
       <==> AgreementCondition(f, registry[f.register] % 65536, wo)
  {
    hide ProcessBytes, ProcessUshort, AgreementCondition, GatherWords, Image, OrderPayload, OrderedBytes;
    var n, ws := DecoderWords(f), RegisterWords(registry, f);
    GatherRegisters(registry, f, n);
    assert ws[..n] == ws;
    if n > 1 {
      OrdersAgree(ws, payload, wo);
      LongValuesAgree(registry, payload, f, wo, ws);
    } else {
      assert AddressAt(f, 0) == f.register;
      assert ws == [ws[0]];
      OneRegisterAgrees(ws[0], payload, wo);
      SingleRegistersAgree(registry, payload, f, wo, ws[0]);
    }
  }

  /** A four-bit signed field that holds -1 is a huge number to the bytes decoder. */
  lemma NegativeFieldIsHuge()
    ensures var f := Field(0, 0, 0, [], SBits(4), -1, false, []);
            && ProcessUshort(map[0 := 0x000F], f, WordOrder(false, false)) == Ok(Number(-1))
            && ProcessBytes([0x00, 0x0F], f, WordOrder(false, false)) == Ok(Number(0xF_FFFF_FFFF_FFFF_FFFF))
  {
    assert Pow2(0) == 1 && Pow2(1) == 2 && Pow2(2) == 4 && Pow2(3) == 8 && Pow2(4) == 16;
    hide Pow2, GatherWords;
    assert Bit(0x000F, 3) == 1 && BitField(0x000F, 0, 4) == 15;
    WordValue(0x000F);
    assert BigEndian(0x000F) == [0x00, 0x0F];
    hide Bit, BitField, FromBytes;
  }

  /** Of a register with two different halves it takes the high one as the byte. */
  lemma HighByteIsTaken()
    ensures var f := Field(0, -1, 0, [], Byte, -1, false, []);
            && ProcessUshort(map[0 := 0x0102], f, WordOrder(false, false)) == Ok(Number(2))
            && ProcessBytes([0x01, 0x02], f, WordOrder(false, false)) == Ok(Number(1))
  {
    hide GatherWords, FromBytes;
  }

  /** Without an offset it raises where the other decoder reads from bit 0. */
  lemma MissingOffsetRaises()
    ensures var f := Field(0, -1, 0, [], Bits(4), -1, false, []);
            && ProcessUshort(map[0 := 0x0102], f, WordOrder(false, false)) == Ok(Number(2))
            && ProcessBytes([0x01, 0x02], f, WordOrder(false, false)) == Raised(ValueError)
  {
    assert Pow2(0) == 1 && Pow2(1) == 2 && Pow2(2) == 4 && Pow2(3) == 8 && Pow2(4) == 16;
    hide Pow2, GatherWords, FromBytes;
  }

  /** A text whose payload is no longer than its registers is decoded alike when nothing is reordered:
      the bytes decoder leaves the order of text as it is. */
  lemma TextsAgree(registry: map<int, int>, payload: seq<byte>, f: Field, wo: WordOrder)
    requires ValidType(f.dataType) && IsText(f.dataType) && !wo.wordReversed && !wo.bytesReversed
    requires SameRegisters(registry, payload, f) && payload == Image(RegisterWords(registry, f))
    ensures ProcessBytes(payload, f, wo) == ProcessUshort(registry, f, wo)
  {
    hide GatherWords, Image, Printable, AsciiFragment, StripRight, HexText;
    var n, ws := DecoderWords(f), RegisterWords(registry, f);
    GatherRegisters(registry, f, n);
    assert ws[..n] == ws;
    if f.dataType.Hex? {
      HexImage(registry, f);
    }
  }

  lemma HexImage(registry: map<int, int>, f: Field)
    requires DecoderWords(f) == 1 && AddressAt(f, 0) in registry
    ensures Image(RegisterWords(registry, f)) == BigEndian(registry[AddressAt(f, 0)] % 65536)
  {
    var ws := RegisterWords(registry, f);
    assert ws == [] + [ws[0]];
    ImageSnoc([], ws[0]);
    assert Image([]) == [];
  }

  /** A hexadecimal register is decoded alike if and only if no bytes are exchanged, or exchanging them
      changes nothing. */
  lemma HexAgreesExactly(registry: map<int, int>, payload: seq<byte>, f: Field, wo: WordOrder)
    requires f.dataType.Hex? && SameRegisters(registry, payload, f) && |payload| == 2
    ensures ProcessBytes(payload, f, wo) == ProcessUshort(registry, f, wo)
       <==> !wo.bytesReversed || payload[0] == payload[1]
  {
    hide GatherWords, HexText, Image;
    var w: word := registry[f.register] % 65536;
    assert AddressAt(f, 0) == f.register;
    HexImage(registry, f);
    assert payload == BigEndian(w);
    SwappedWord(w);
    TwoHexBytes(BigEndian(w), BigEndian(OneWord(w, wo)));
  }

  lemma TwoHexBytes(a: seq<byte>, b: seq<byte>)
    requires |a| == |b| == 2
    ensures HexText(a) == HexText(b) <==> a == b
  {
    hide HexDigit;
    HexBytes(a);
    HexBytes(b);
    if HexText(a) == HexText(b) {
      assert forall k | 0 <= k < 4 :: HexText(a)[k] == HexText(b)[k];
      HexDigitsDiffer(a[0], b[0]);
      HexDigitsDiffer(a[1], b[1]);
    }
  }

  lemma HexBytes(a: seq<byte>)
    requires |a| == 2
    ensures HexText(a) == [HexDigit(a[0] / 16), HexDigit(a[0] % 16), HexDigit(a[1] / 16), HexDigit(a[1] % 16)]
  {
    hide HexDigit;
    assert a[1..] == [a[1]] && a[1..][1..] == [];
    assert HexText(a[1..]) == [HexDigit(a[1] / 16), HexDigit(a[1] % 16)] + HexText([]);
  }

  lemma HexDigitsDiffer(a: byte, b: byte)
    requires HexDigit(a / 16) == HexDigit(b / 16) && HexDigit(a % 16) == HexDigit(b % 16)
    ensures a == b
  {
    OneHexDigit(a / 16, b / 16);
    OneHexDigit(a % 16, b % 16);
  }

  lemma OneHexDigit(a: nat, b: nat)
    requires a < 16 && b < 16 && HexDigit(a) == HexDigit(b)
    ensures a == b
  {
    var digits := "0123456789abcdef";
    assert forall i, j | 0 <= i < j < 16 :: digits[i] != digits[j];
  }

  lemma LongValuesAgree(registry: map<int, int>, payload: seq<byte>, f: Field, wo: WordOrder, ws: seq<word>)
    requires ValidType(f.dataType) && !IsText(f.dataType) && DecoderWords(f) > 1
    requires f.registerByte <= 0 && f.dataTypeSize <= 0 && f.register in registry
    requires GatherWords(registry, f, DecoderWords(f)) == Some(ws) && |ws| == DecoderWords(f)
    requires OrderPayload(payload, |ws|, wo) == OrderedBytes(ws, wo)
    ensures ProcessBytes(payload, f, wo) == ProcessUshort(registry, f, wo)
    ensures AgreementCondition(f, registry[f.register] % 65536, wo)
  {
    hide GatherWords, OrderPayload, OrderedBytes, FromBytes, FromBytesSigned, FlagText, DecodeWord, DecodeRegister, OneWord;
  }

  lemma SingleRegistersAgree(registry: map<int, int>, payload: seq<byte>, f: Field, wo: WordOrder, w: word)
    requires ValidType(f.dataType) && !IsText(f.dataType) && DecoderWords(f) == 1
    requires f.registerByte <= 0 && f.dataTypeSize <= 0
    requires f.register in registry && w == registry[f.register] % 65536
    requires OneRegister(payload, wo) == Some(BigEndian(OneWord(w, wo)))
    requires OrderPayload(payload, 1, wo) == BigEndian(OneWord(w, wo))
    ensures ProcessBytes(payload, f, wo) == ProcessUshort(registry, f, wo) <==> AgreementCondition(f, w, wo)
  {
    var v := OneWord(w, wo);
    WordValue(v);
    if f.dataType.Flags8? || f.dataType.Flags16? {
      hide GatherWords, OrderPayload, FlagText, FromBytes, FromBytesSigned, OneWord, Bit, BitField, BigEndian;
      assert ProcessUshort(registry, f, wo) == Ok(DecodeWord(v, f));
    } else {
      RegisterValuesAgree(payload, f, wo, w);
      hide GatherWords, DecodeWord, DecodeRegister, OneWord, AgreementCondition;
      assert ProcessUshort(registry, f, wo) == Ok(DecodeWord(v, f));
      assert ProcessBytes(payload, f, wo) == DecodeRegister(payload, f, wo);
    }
  }

  lemma RegisterValuesAgree(payload: seq<byte>, f: Field, wo: WordOrder, w: word)
    requires ValidType(f.dataType) && !IsText(f.dataType) && DecoderWords(f) == 1
    requires !f.dataType.Flags8? && !f.dataType.Flags16?
    requires OneRegister(payload, wo) == Some(BigEndian(OneWord(w, wo)))
    ensures DecodeRegister(payload, f, wo) == Ok(DecodeWord(OneWord(w, wo), f)) <==> AgreementCondition(f, w, wo)
  {
    hide OneRegister, FlagText, Bit, BitField, Pow2, FromBytes, FromBytesSigned;
    var v := OneWord(w, wo);
    WordValue(v);
    if f.registerBit >= 0 {
      match f.dataType
      case SBits(n) => SignedFieldsAgree(v, f.registerBit, n);
      case SmBits(n) => MagnitudeFieldsAgree(v, f.registerBit, n);
      case _ =>
    }
  }

  lemma DivDiv(v: nat, a: nat, b: nat)
    requires a > 0 && b > 0
    ensures a * b > 0 && v / a / b == v / (a * b)
  {
    var q, r := v / a, v % a;
    var s, t := q / b, q % b;
    assert v == (a * b) * s + (a * t + r) by {
      assert v == a * q + r;
      assert a * q == a * (b * s) + a * t;
      assert a * (b * s) == (a * b) * s;
    }
    assert 0 <= a * t + r < a * b by {
      MulMonotone(a, t, b - 1);
      assert a * (b - 1) == a * b - a;
      assert a * t >= 0;
    }
    DivisionIsUnique(v, a * b, s, a * t + r);
  }

  lemma MulMonotone(d: nat, x: int, y: int)
    requires x <= y
    ensures d * x <= d * y
  {
  }

  lemma DivisionIsUnique(v: int, d: int, q: int, r: int)
    requires d > 0 && v == d * q + r && 0 <= r < d
    ensures v / d == q && v % d == r
  {
    var q', r' := v / d, v % d;
    assert v == d * q' + r';
    MulMonotone(d, q' + 1, if q > q' then q else q' + 1);
    MulMonotone(d, q + 1, if q < q' then q' else q + 1);
    assert d * (q' + 1) == d * q' + d && d * (q + 1) == d * q + d;
  }

  /** The low bits of a number, one bit more. */
  lemma OneBitMore(x: nat, m: nat)
    requires m > 0
    ensures x % (2 * m) == x % m + x / m % 2 * m
  {
    var q, r := x / m, x % m;
    assert x == 2 * m * (q / 2) + (q % 2 * m + r) by {
      assert q == 2 * (q / 2) + q % 2;
    }
    DivisionIsUnique(x, 2 * m, q / 2, q % 2 * m + r);
  }

  /** The `n` bits from bit `b` on, and the bit above them. */
  lemma FieldTop(v: nat, b: nat, n: nat)
    ensures BitField(v, b, n + 1) == BitField(v, b, n) + Bit(v, b + n) * Pow2(n)
  {
    var x, m := v / Pow2(b), Pow2(n);
    assert Pow2(n + 1) == 2 * m;
    OneBitMore(x, m);
    DivDiv(v, Pow2(b), m);
    Pow2Adds(b, n);
    hide Pow2;
    assert x / m == v / Pow2(b + n);
  }

  lemma SignedFieldsAgree(v: nat, b: nat, n: nat)
    requires n >= 1
    ensures var raw := BitField(v, b, n);
            var a := if raw >= Pow2(n - 1) then raw - Pow2(n) else raw;
            var c := if Bit(v, b + n - 1) == 1 then ExtendedByOnes(v, b, n) else raw;
            a == c <==> Bit(v, b + n - 1) == 0
  {
    FieldTop(v, b, n - 1);
    BitFieldBound(v, b, n - 1);
    assert Pow2(n) == 2 * Pow2(n - 1);
    hide BitField, Pow2;
  }

  lemma BitFieldBound(v: nat, from: nat, n: nat)
    ensures BitField(v, from, n) < Pow2(n)
  {
  }

  lemma MagnitudeFieldsAgree(v: nat, b: nat, n: nat)
    requires n >= 1
    ensures var magnitude: int := BitField(v, b + 1, n - 1);
            var a := if Bit(v, b) == 1 then -magnitude else magnitude;
            var c := if Bit(v, b) == 1 then ExtendedByOnes(v, b + 1, n) else BitField(v, b + 1, n);
            a == c <==> Bit(v, b) == 0 && Bit(v, b + n) == 0
  {
    FieldTop(v, b + 1, n - 1);
    hide BitField, Pow2;
  }
}
