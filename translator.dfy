/**
 * The code page of cp437_translator.py (lines 16-65) with its decoder
 * decode_cp437, its encoder encode_cp437 and the round-trip check
 * test_roundtrip. Unlike cp437_telnet.py, every control byte from 0x01 to
 * 0x1F is drawn as a graphic, BS, TAB, LF and CR included.
 */
module Translator {
  import opened Codepage
  import TelnetCodec

  /** Bytes drawn as graphics instead of the standard glyph. */
  const GRAPHICAL_LOW: map<byte, char> := map[
    0x01 := '\U{263A}',
    0x02 := '\U{263B}',
    0x03 := '\U{2665}',
    0x04 := '\U{2666}',
    0x05 := '\U{2663}',
    0x06 := '\U{2660}',
    0x07 := '\U{2022}',
    0x08 := '\U{25D8}',
    0x09 := '\U{25CB}',
    0x0A := '\U{25D9}',
    0x0B := '\U{2642}',
    0x0C := '\U{2640}',
    0x0D := '\U{266A}',
    0x0E := '\U{25BA}',
    0x0F := '\U{25C4}',
    0x10 := '\U{2195}',
    0x11 := '\U{203C}',
    0x12 := '\U{00B6}',
    0x13 := '\U{00A7}',
    0x14 := '\U{25AC}',
    0x15 := '\U{21A8}',
    0x16 := '\U{2191}',
    0x17 := '\U{2193}',
    0x18 := '\U{2192}',
    0x19 := '\U{2190}',
    0x1A := '\U{221F}',
    0x1B := '\U{2194}',
    0x1C := '\U{25B2}',
    0x1D := '\U{25BC}',
    0x1E := '\U{2320}',
    0x1F := '\U{2321}',
    0x7F := '\U{2302}'
  ]

  /** The glyph CP437_MAP gives byte b. */
  function Glyph(b: byte): char
  {
    Entry(GRAPHICAL_LOW, b)
  }

  /** CP437_MAP as the 256-entry table indexed by byte. */
  function Cp437Map(): seq<char>
  {
    TableOf(GRAPHICAL_LOW)
  }

  /** BS, TAB, LF and CR are the only bytes drawn differently from the telnet
      client's table. */
  predicate RedrawnControl(b: byte)
  {
    b == 0x08 || b == 0x09 || b == 0x0A || b == 0x0D
  }

  /** The table agrees with the telnet client's table on every other byte. */
  lemma SharedGlyphs()
    ensures forall b: byte :: !RedrawnControl(b) ==> Glyph(b) == TelnetCodec.Glyph(b)
  {
  }

  /** Every listed byte takes its glyph, 0x08, 0x09, 0x0A and 0x0D among them,
      and NUL and printable ASCII map to themselves. */
  lemma MapContents()
    ensures Cp437Map()[0x08] == '\U{25D8}' && Cp437Map()[0x09] == '\U{25CB}'
    ensures Cp437Map()[0x0A] == '\U{25D9}' && Cp437Map()[0x0D] == '\U{266A}'
    ensures forall b: byte :: b in GRAPHICAL_LOW <==> (0x01 <= b <= 0x1F || b == 0x7F)
    ensures forall b: byte :: b in GRAPHICAL_LOW ==> Cp437Map()[b] == GRAPHICAL_LOW[b]
    ensures forall b: byte :: (b == 0x00 || 0x20 <= b <= 0x7E) ==> Cp437Map()[b] as int == b as int
  {
  }

  /** The inverse of Cp437Map() on its image (proof device): the four redrawn
      controls, then as in the telnet client's table. */
  ghost function GlyphRank(c: char): int
  {
    match c as int
    case 0x25D8 => 0x08
    case 0x25CB => 0x09
    case 0x25D9 => 0x0A
    case 0x266A => 0x0D
    case _ => TelnetCodec.GlyphRank(c)
  }

  /** No glyph of the telnet client's table is one of the four redrawn
      control glyphs. */
  lemma RedrawnGlyphsAreNew()
    ensures forall b: byte ::
              TelnetCodec.Glyph(b) != '\U{25D8}' && TelnetCodec.Glyph(b) != '\U{25CB}' &&
              TelnetCodec.Glyph(b) != '\U{25D9}' && TelnetCodec.Glyph(b) != '\U{266A}'
  {
    RedrawnUnranked();
    TelnetCodec.RankOfAll();
  }

  // Proof plumbing: the telnet client's rank function knows none of the four
  // redrawn glyphs.
  lemma RedrawnUnranked()
    ensures TelnetCodec.GlyphRank('\U{25D8}') == -1 && TelnetCodec.GlyphRank('\U{25CB}') == -1
    ensures TelnetCodec.GlyphRank('\U{25D9}') == -1 && TelnetCodec.GlyphRank('\U{266A}') == -1
  {
    UpperByteOfAll();
  }

  lemma RankOfAll()
    ensures forall b: byte :: GlyphRank(Glyph(b)) == TelnetCodec.Canonical(b) as int
  {
    TelnetCodec.RankOfAll();
    RedrawnUnranked();
    forall b: byte
      ensures GlyphRank(Glyph(b)) == TelnetCodec.Canonical(b) as int
    {
      if !RedrawnControl(b) {
        assert Glyph(b) == TelnetCodec.Glyph(b);
        assert TelnetCodec.GlyphRank(Glyph(b)) >= 0;
      }
    }
  }

  /** 0xF4 and 0xF5 carry the same glyphs as 0x1E and 0x1F. */
  lemma IntegralHalvesCollide()
    ensures Cp437Map()[0xF4] == Cp437Map()[0x1E] == '\U{2320}'
    ensures Cp437Map()[0xF5] == Cp437Map()[0x1F] == '\U{2321}'
  {
    TelnetCodec.IntegralHalvesCollide();
    assert Glyph(0xF4) == TelnetCodec.Glyph(0xF4) && Glyph(0xF5) == TelnetCodec.Glyph(0xF5);
  }

  /** UNICODE_TO_CP437 keeps the lowest byte of every glyph: each byte's glyph
      leads back to the byte itself, except that 0xF4 and 0xF5 lead to 0x1E
      and 0x1F. */
  lemma LowestByteWins(b: byte)
    ensures FirstWriter(Cp437Map(), Cp437Map()[b]) == Some(TelnetCodec.Canonical(b))
  {
    RankOfAll();
    var canonical := seq(256, i requires 0 <= i < 256 => TelnetCodec.Canonical(i as byte));
    forall x, y | 0 <= x < 256 && 0 <= y < 256 && Cp437Map()[x] == Cp437Map()[y]
      ensures canonical[x] == canonical[y]
    {
      assert GlyphRank(Glyph(x as byte)) == TelnetCodec.Canonical(x as byte) as int;
      assert GlyphRank(Glyph(y as byte)) == TelnetCodec.Canonical(y as byte) as int;
    }
    IntegralHalvesCollide();
    FirstWriterIsCanonical(Cp437Map(), canonical, b);
  }

  /** In UNICODE_TO_CP437 the glyph of every byte leads back to that byte,
      except that the glyphs of 0xF4 and 0xF5 lead to 0x1E and 0x1F. */
  lemma InverseKeepsLowest(unicodeToCp437: map<char, byte>)
    requires IsFirstWriterInverse(Cp437Map(), unicodeToCp437)
    ensures forall b: byte :: unicodeToCp437[Cp437Map()[b]] == TelnetCodec.Canonical(b)
  {
    forall b: byte
      ensures unicodeToCp437[Cp437Map()[b]] == TelnetCodec.Canonical(b)
    {
      LowestByteWins(b);
    }
  }

  /** The two module-level dicts, CP437_MAP and UNICODE_TO_CP437. */
  method BuildTables() returns (cp437Map: seq<char>, unicodeToCp437: map<char, byte>)
    ensures cp437Map == Cp437Map()
    ensures IsFirstWriterInverse(Cp437Map(), unicodeToCp437)
    ensures forall b: byte :: unicodeToCp437[Cp437Map()[b]] == TelnetCodec.Canonical(b)
  {
    cp437Map := BuildMap(GRAPHICAL_LOW);
    assert forall i :: 0 <= i < 256 ==> cp437Map[i] == Cp437Map()[i];
    unicodeToCp437 := BuildInverse(cp437Map);
    InverseKeepsLowest(unicodeToCp437);
  }

  /** The argument of decode_cp437 and encode_cp437, which accept either
      bytes or a str. */
  datatype Value = Bytes(bytes: seq<byte>) | Str(text: string)

  /** decode_cp437: a str is returned as it is; bytes are decoded one glyph
      per byte, with no escape handling. The contract only spells out that
      mapping; what the decoder promises together with the encoder is stated
      by EncodeThenDecode, DecodeThenEncode and TestRoundtrip. */
  function DecodeCp437(data: Value): (r: string)
    ensures data.Str? ==> r == data.text
    ensures data.Bytes? ==> |r| == |data.bytes|
    ensures data.Bytes? ==> forall k :: 0 <= k < |r| ==> r[k] == Cp437Map()[data.bytes[k]]
  {
    match data
    case Str(text) => text
    case Bytes(bs) => seq(|bs|, k requires 0 <= k < |bs| => Cp437Map()[bs[k]])
  }

  /** What encode_cp437 returns for a str. */
  function Encoded(text: string): seq<byte>
  {
    seq(|text|, k requires 0 <= k < |text| => EncodeIn(Cp437Map(), text[k]))
  }

  /** encode_cp437: bytes are returned as they are; a str becomes one byte per
      character, by UNICODE_TO_CP437, else Latin-1, else '?'. */
  method EncodeCp437(unicodeToCp437: map<char, byte>, data: Value) returns (r: seq<byte>)
    requires IsFirstWriterInverse(Cp437Map(), unicodeToCp437)
    ensures data.Bytes? ==> r == data.bytes
    ensures data.Str? ==> r == Encoded(data.text)
  {
    if data.Bytes? {
      return data.bytes;
    }
    var text := data.text;
    r := [];
    for k := 0 to |text|
      invariant |r| == k
      invariant forall j :: 0 <= j < k ==> r[j] == EncodeWith(unicodeToCp437, text[j])
    {
      var c := text[k];
      if c in unicodeToCp437 {
        r := r + [unicodeToCp437[c]];
      } else if c as int <= 0xFF {
        r := r + [c as int as byte];
      } else {
        r := r + [0x3F];
      }
    }
    EncodeAllByDict(Cp437Map(), unicodeToCp437, text, r);
  }

  /** Decoding after encoding gives text back exactly when every character of
      text is a glyph of CP437_MAP. */
  lemma EncodeThenDecode(text: string)
    ensures DecodeCp437(Bytes(Encoded(text))) == text <==>
              forall k :: 0 <= k < |text| ==> text[k] in Cp437Map()
  {
    var d := DecodeCp437(Bytes(Encoded(text)));
    forall k | 0 <= k < |text|
      ensures d[k] == text[k] <==> text[k] in Cp437Map()
    {
      if text[k] !in Cp437Map() {
        assert d[k] in Cp437Map();
      }
    }
    if d == text {
      forall k | 0 <= k < |text|
        ensures text[k] in Cp437Map()
      {
        assert d[k] == text[k];
      }
    }
  }

  /** Encoding after decoding gives the bytes back, except that 0xF4 and 0xF5
      come back as 0x1E and 0x1F. */
  lemma DecodeThenEncode(bs: seq<byte>)
    ensures Encoded(DecodeCp437(Bytes(bs))) == seq(|bs|, k requires 0 <= k < |bs| => TelnetCodec.Canonical(bs[k]))
  {
    forall k | 0 <= k < |bs|
      ensures EncodeIn(Cp437Map(), Cp437Map()[bs[k]]) == TelnetCodec.Canonical(bs[k])
    {
      LowestByteWins(bs[k]);
    }
  }

  /** test_roundtrip: encode, decode and compare; it reports a match exactly
      when every character of text is a glyph of CP437_MAP. */
  method TestRoundtrip(unicodeToCp437: map<char, byte>, text: string) returns (matched: bool)
    requires IsFirstWriterInverse(Cp437Map(), unicodeToCp437)
    ensures matched <==> forall k :: 0 <= k < |text| ==> text[k] in Cp437Map()
  {
    var encoded := EncodeCp437(unicodeToCp437, Str(text));
    var decoded := DecodeCp437(Bytes(encoded));
    matched := text == decoded;
    EncodeThenDecode(text);
  }
}
