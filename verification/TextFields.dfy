/** What text fields decode to, byte by byte: whole fields, and the single registers of ASCII ranges. */
module TextFields {
  import opened Options
  import opened Numbers
  import opened Bytes
  import opened Texts
  import opened RegisterMap
  import opened Decoding
  import opened DecodedRanges

  // ------------------------------------------------------------------
  // Whole fields
  // ------------------------------------------------------------------

  /** The bytes hold the text, ended by a NUL unless it fills them; what follows the NUL is no matter. */
  predicate HoldText(bs: seq<byte>, s: string) {
    && |s| <= |bs|
    && (forall i | 0 <= i < |s| :: ' ' <= s[i] <= '~' && bs[i] == s[i] as int)
    && (|s| < |bs| ==> bs[|s|] == 0)
    && (s != "" ==> s[|s| - 1] != ' ')
  }

  lemma {:induction false} PrintableUpToNul(bs: seq<byte>, s: string)
    requires |s| <= |bs| && (forall i | 0 <= i < |s| :: ' ' <= s[i] <= '~' && bs[i] == s[i] as int)
    requires |s| < |bs| ==> bs[|s|] == 0
    ensures Printable(bs) == s
  {
    if s != "" {
      forall i | 0 <= i < |s[1..]| ensures ' ' <= s[1..][i] <= '~' && bs[1..][i] == s[1..][i] as int {
        assert s[1..][i] == s[i + 1] && bs[1..][i] == bs[i + 1];
      }
      PrintableUpToNul(bs[1..], s[1..]);
      assert s == [bs[0] as char] + s[1..];
    }
  }

  lemma HeldTextIsDecoded(bs: seq<byte>, s: string)
    requires HoldText(bs, s)
    ensures StripRight(Printable(bs)) == s
  {
    PrintableUpToNul(bs, s);
    hide Printable;
  }

  /** A text entry that is no member of a concatenated range. */
  predicate IsWholeText(f: Field) {
    f.dataType.String? || f.dataType.String16? || f.dataType.String32? || (f.dataType.Ascii? && !f.concatenate)
  }

  /** As many bytes as the entry's size says, if it says any. */
  function Sized(f: Field, bs: seq<byte>): seq<byte> {
    if 0 < f.dataTypeSize < |bs| then bs[..f.dataTypeSize] else bs
  }

  /** The bytes of words, high byte first. */
  function WordBytes(ws: seq<word>): (bs: seq<byte>)
    ensures |bs| == 2 * |ws|
  {
    seq(2 * |ws|, i requires 0 <= i < 2 * |ws| => if i % 2 == 0 then ws[i / 2] / 256 else ws[i / 2] % 256)
  }

  lemma ImageIsWordBytes(ws: seq<word>)
    ensures Image(ws) == WordBytes(ws)
  {
    hide Image;
    var a, b := Image(ws), WordBytes(ws);
    forall k: nat | k < |ws| ensures a[2 * k] == b[2 * k] && a[2 * k + 1] == b[2 * k + 1] {
      ImageAt(ws, k);
    }
    EqualByWords(a, b, |ws|);
  }

  /** Registers that hold a text, in any word order, decode to it. */
  lemma RegistersGiveText(registry: map<int, int>, f: Field, wo: WordOrder, ws: seq<word>, s: string)
    requires ValidType(f.dataType) && IsWholeText(f)
    requires GatherWords(registry, f, DecoderWords(f)) == Some(InOrder(ws, wo))
    requires HoldText(Sized(f, WordBytes(ws)), s)
    ensures ProcessUshort(registry, f, wo) == Ok(Text(s))
  {
    hide GatherWords, InOrder, WordBytes, Printable, StripRight, HoldText, OrderedBytes, Image;
    InOrderUndoesItself(ws, wo);
    OrderedIsImage(InOrder(ws, wo), wo);
    ImageIsWordBytes(ws);
    var bs := WordBytes(ws);
    assert f.dataTypeSize > 0 ==> Clip(bs, 0, f.dataTypeSize) == Sized(f, bs);
    HeldTextIsDecoded(Sized(f, bs), s);
  }

  /** So do the raw bytes of such an entry. */
  lemma BytesGiveText(payload: seq<byte>, f: Field, wo: WordOrder, s: string)
    requires ValidType(f.dataType) && IsWholeText(f) && f.registerByte <= 0
    requires HoldText(Sized(f, payload), s)
    ensures ProcessBytes(payload, f, wo) == Ok(Text(s))
  {
    hide Printable, StripRight, HoldText;
    assert f.dataTypeSize > 0 ==> Clip(payload, 0, f.dataTypeSize) == Sized(f, payload);
    HeldTextIsDecoded(Sized(f, payload), s);
  }

  // ------------------------------------------------------------------
  // Registers of an ASCII range
  // ------------------------------------------------------------------

  predicate IsVisible(b: byte) { '!' as int <= b <= '~' as int }

  /** A printable byte is a character, any other is none. */
  function CharOf(b: byte): string { if b == ' ' as int || IsVisible(b) then [b as char] else "" }

  /** The text of two bytes: a NUL between or before characters does not end it, spaces at its end are
      dropped. */
  function PairText(a: byte, b: byte): string {
    if IsVisible(b) then CharOf(a) + [b as char]
    else if IsVisible(a) then [a as char]
    else ""
  }

  lemma PairIsDecoded(a: byte, b: byte)
    ensures StripRight(Printable(WithoutNuls([a, b]))) == PairText(a, b)
  {
    PairWithoutNuls(a, b);
    hide WithoutNuls, Printable, StripRight;
    if a == 0 && b == 0 {
      NoChar();
    } else if a == 0 {
      OneChar(b);
      assert [] + [b] == [b];
      assert CharOf(a) == "" && "" + [b as char] == [b as char];
    } else if b == 0 {
      OneChar(a);
      assert [a] + [] == [a];
    } else {
      assert [a] + [b] == [a, b];
      TwoChars(a, b);
    }
  }

  lemma NoChar()
    ensures StripRight(Printable([])) == ""
  {
  }

  lemma TwoChars(a: byte, b: byte)
    requires a != 0 && b != 0
    ensures StripRight(Printable([a, b])) == PairText(a, b)
  {
    assert [a, b][1..] == [b] && [b][1..] == [];
    assert Printable([b]) == CharOf(b) + Printable([]);
    assert Printable([a, b]) == CharOf(a) + CharOf(b);
    hide Printable;
    StripPair(CharOf(a), CharOf(b));
    StripPair("", CharOf(a));
    assert "" + CharOf(a) == CharOf(a);
    hide StripRight;
    NoStrip();
  }

  lemma NoStrip()
    ensures StripRight("") == ""
  {
  }

  lemma PairWithoutNuls(a: byte, b: byte)
    ensures WithoutNuls([a, b]) == (if a == 0 then [] else [a]) + (if b == 0 then [] else [b])
  {
    assert [a, b][1..] == [b] && [b][1..] == [];
    assert WithoutNuls([b]) == (if b == 0 then [] else [b]) + WithoutNuls([]);
  }

  lemma OneChar(a: byte)
    requires a != 0
    ensures StripRight(Printable([a])) == if IsVisible(a) then [a as char] else ""
  {
    assert [a][1..] == [];
    assert Printable([a]) == CharOf(a) + Printable([]);
    assert [a as char][..0] == "";
  }

  lemma StripPair(s: string, t: string)
    requires |s| <= 1 && |t| <= 1
    ensures StripRight(s + t) == if t != "" && !IsSpace(t[0]) then s + t else StripRight(s)
  {
    if t != "" {
      assert (s + t)[..|s + t| - 1] == s;
      assert (s + t)[|s + t| - 1] == t[0];
    } else {
      assert s + t == s;
    }
  }

  /** One register of an ASCII range, whatever the word order says about bytes. */
  lemma RangeRegisterGivesPair(registry: map<int, int>, f: Field, wo: WordOrder)
    requires f.dataType.Ascii? && f.concatenate && AddressAt(f, 0) in registry
    ensures var w: word := registry[AddressAt(f, 0)] % 65536;
            ProcessUshort(registry, f, wo)
            == Ok(Text(if wo.bytesReversed then PairText(w % 256, w / 256) else PairText(w / 256, w % 256)))
  {
    hide *;
    var w: word := registry[AddressAt(f, 0)] % 65536;
    OneAsciiWord(registry, f, wo);
    OneWordOrdered(w, wo);
    PairIsDecoded(w / 256, w % 256);
    PairIsDecoded(w % 256, w / 256);
  }

  lemma OneAsciiWord(registry: map<int, int>, f: Field, wo: WordOrder)
    requires f.dataType.Ascii? && f.concatenate && AddressAt(f, 0) in registry
    ensures ProcessUshort(registry, f, wo)
         == Ok(Text(StripRight(Printable(WithoutNuls(OrderedBytes([registry[AddressAt(f, 0)] % 65536], wo))))))
  {
    LoneWordGathered(registry, f);
    hide GatherWords, OrderedBytes, Printable, WithoutNuls, StripRight, AddressAt;
  }

  lemma LoneWordGathered(registry: map<int, int>, f: Field)
    requires AddressAt(f, 0) in registry
    ensures GatherWords(registry, f, 1) == Some([registry[AddressAt(f, 0)] % 65536])
  {
    hide AddressAt;
    var x: word := registry[AddressAt(f, 0)] % 65536;
    assert GatherWords(registry, f, 0) == Some([]);
    assert GatherWords(registry, f, 1) == Some([] + [x]);
    assert [] + [x] == [x];
  }

  lemma OneWordOrdered(w: word, wo: WordOrder)
    ensures OrderedBytes([w], wo) == if wo.bytesReversed then [w % 256, w / 256] else [w / 256, w % 256]
  {
    assert Reverse([w]) == [w];
    assert [w][..0] == [];
    assert Image([w]) == Image([]) + BigEndian(w) && ImageSwapped([w]) == ImageSwapped([]) + LittleEndian(w);
    hide Image, ImageSwapped, Reverse;
  }

  /** The raw bytes of such a register, as they came. */
  lemma RangeBytesGivePair(payload: seq<byte>, f: Field, wo: WordOrder)
    requires f.dataType.Ascii? && f.concatenate && |payload| == 2
    requires f.registerByte <= 0 && (f.dataTypeSize <= 0 || f.dataTypeSize >= 2)
    ensures ProcessBytes(payload, f, wo) == Ok(Text(PairText(payload[0], payload[1])))
  {
    hide Printable, WithoutNuls, StripRight, PairText;
    assert f.dataTypeSize > 0 ==> Clip(payload, 0, f.dataTypeSize) == payload;
    assert payload == [payload[0], payload[1]];
    PairIsDecoded(payload[0], payload[1]);
  }

  /** A visible character in one half of the register and a NUL in the other is that character, in every
      word order. */
  lemma LoneCharacterIsKept(registry: map<int, int>, f: Field, wo: WordOrder, c: byte)
    requires f.dataType.Ascii? && f.concatenate && AddressAt(f, 0) in registry && IsVisible(c)
    requires registry[AddressAt(f, 0)] % 65536 == c || registry[AddressAt(f, 0)] % 65536 == 256 * c
    ensures ProcessUshort(registry, f, wo) == Ok(Text([c as char]))
  {
    hide ProcessUshort, AddressAt;
    RangeRegisterGivesPair(registry, f, wo);
    HalvesOf(c);
    assert "" + [c as char] == [c as char];
    assert PairText(0, c) == [c as char] && PairText(c, 0) == [c as char];
  }

  lemma HalvesOf(c: byte)
    ensures c / 256 == 0 && c % 256 == c && 256 * c / 256 == c && 256 * c % 256 == 0
  {
  }
}
