/**
 * The code page of cp437_telnet.py (lines 37-88) and its encoder
 * encode_to_cp437 (lines 218-229).
 */
module TelnetCodec {
  import opened Codepage

  /** Bytes drawn as graphics instead of the standard glyph. BS, TAB, LF and
      CR are not listed and so keep their control meaning. */
  const GRAPHICAL_LOW: map<byte, char> := map[
    0x01 := '\U{263A}',
    0x02 := '\U{263B}',
    0x03 := '\U{2665}',
    0x04 := '\U{2666}',
    0x05 := '\U{2663}',
    0x06 := '\U{2660}',
    0x07 := '\U{2022}',
    0x0B := '\U{2642}',
    0x0C := '\U{2640}',
    0x0E := '\U{25BA}',
    0x0F := '\U{25C4}',
    0x10 := '\U{2195}',
    0x11 := '\U{203C}',
    0x12 := '\U{00B6}',
    0x13 := '\U{00A7}',
    0x14 := '\U{25AC}',
    0x15 := '\U{21A8}',
    0x16 := '\U{2191}',
    0x17 := '\U{2193}',
    0x18 := '\U{2192}',
    0x19 := '\U{2190}',
    0x1A := '\U{221F}',
    0x1B := '\U{2194}',
    0x1C := '\U{25B2}',
    0x1D := '\U{25BC}',
    0x1E := '\U{2320}',
    0x1F := '\U{2321}',
    0x7F := '\U{2302}'
  ]

  /** The glyph CP437_MAP gives byte b. */
  function Glyph(b: byte): char
  {
    Entry(GRAPHICAL_LOW, b)
  }

  /** CP437_MAP as the 256-entry table indexed by byte. */
  function Cp437Map(): seq<char>
  {
    TableOf(GRAPHICAL_LOW)
  }

  /** The byte UNICODE_TO_CP437 keeps for the glyph of b: b itself, except for
      0xF4 and 0xF5, whose standard glyphs were already written by 0x1E and 0x1F. */
  function Canonical(b: byte): byte
  {
    if b == 0xF4 then 0x1E else if b == 0xF5 then 0x1F else b
  }

  /** The inverse of Cp437Map() on its image (proof device): code points below
      0x80 are their own byte, the upper half is looked up in the IBM table,
      and the graphical glyphs in GRAPHICAL_LOW. */
  ghost function GlyphRank(c: char): int
  {
    var code := c as int;
    var upper := UpperByteOf(code);
    if code < 0x80 then code
    else if 0x80 <= upper && upper != 0xF4 && upper != 0xF5 then upper
    else
      match code
      case 0x263A => 0x01
      case 0x263B => 0x02
      case 0x2665 => 0x03
      case 0x2666 => 0x04
      case 0x2663 => 0x05
      case 0x2660 => 0x06
      case 0x2022 => 0x07
      case 0x2642 => 0x0B
      case 0x2640 => 0x0C
      case 0x25BA => 0x0E
      case 0x25C4 => 0x0F
      case 0x2195 => 0x10
      case 0x203C => 0x11
      case 0x00B6 => 0x12
      case 0x00A7 => 0x13
      case 0x25AC => 0x14
      case 0x21A8 => 0x15
      case 0x2191 => 0x16
      case 0x2193 => 0x17
      case 0x2192 => 0x18
      case 0x2190 => 0x19
      case 0x221F => 0x1A
      case 0x2194 => 0x1B
      case 0x25B2 => 0x1C
      case 0x25BC => 0x1D
      case 0x2320 => 0x1E
      case 0x2321 => 0x1F
      case 0x2302 => 0x7F
      case _ => -1
  }

  // Proof plumbing, not part of the model: RankOf00 to RankOfF8 check the
  // literal table a block of bytes at a time, so that each obligation stays
  // small; RankOfAll joins them.
  lemma RankOf00()
    ensures forall b: byte :: 0x00 <= b < 0x08 ==> GlyphRank(Glyph(b)) == Canonical(b) as int
  {
  }

  lemma RankOf08()
    ensures forall b: byte :: 0x08 <= b < 0x10 ==> GlyphRank(Glyph(b)) == Canonical(b) as int
  {
  }

  lemma RankOf10()
    ensures forall b: byte :: 0x10 <= b < 0x18 ==> GlyphRank(Glyph(b)) == Canonical(b) as int
  {
  }

  lemma RankOf18()
    ensures forall b: byte :: 0x18 <= b < 0x20 ==> GlyphRank(Glyph(b)) == Canonical(b) as int
  {
  }

  lemma RankOf20()
    ensures forall b: byte :: 0x20 <= b < 0x40 ==> GlyphRank(Glyph(b)) == Canonical(b) as int
  {
  }

  lemma RankOf40()
    ensures forall b: byte :: 0x40 <= b < 0x60 ==> GlyphRank(Glyph(b)) == Canonical(b) as int
  {
  }

  lemma RankOf60()
    ensures forall b: byte :: 0x60 <= b < 0x80 ==> GlyphRank(Glyph(b)) == Canonical(b) as int
  {
  }

  lemma RankOf80()
    ensures forall b: byte :: 0x80 <= b < 0xA0 ==> GlyphRank(Glyph(b)) == Canonical(b) as int
  {
    UpperByteOfAll();
  }

  lemma RankOfA0()
    ensures forall b: byte :: 0xA0 <= b < 0xC0 ==> GlyphRank(Glyph(b)) == Canonical(b) as int
  {
    UpperByteOfAll();
  }

  lemma RankOfC0()
    ensures forall b: byte :: 0xC0 <= b < 0xE0 ==> GlyphRank(Glyph(b)) == Canonical(b) as int
  {
    UpperByteOfAll();
  }

  lemma RankOfE0()
    ensures forall b: byte :: 0xE0 <= b < 0xE8 ==> GlyphRank(Glyph(b)) == Canonical(b) as int
  {
    UpperByteOfAll();
  }

  lemma RankOfE8()
    ensures forall b: byte :: 0xE8 <= b < 0xF0 ==> GlyphRank(Glyph(b)) == Canonical(b) as int
  {
    UpperByteOfAll();
  }

  lemma RankOfF0()
    ensures forall b: byte :: 0xF0 <= b < 0xF8 ==> GlyphRank(Glyph(b)) == Canonical(b) as int
  {
    UpperByteOfAll();
  }

  lemma RankOfF8()
    ensures forall b: byte :: 0xF8 <= b ==> GlyphRank(Glyph(b)) == Canonical(b) as int
  {
    UpperByteOfAll();
  }

  lemma RankOfAll()
    ensures forall b: byte :: GlyphRank(Glyph(b)) == Canonical(b) as int
  {
    RankOf00(); RankOf08(); RankOf10(); RankOf18(); RankOf20(); RankOf40(); RankOf60();
    RankOf80(); RankOfA0(); RankOfC0(); RankOfE0(); RankOfE8(); RankOfF0(); RankOfF8();
  }

  /** The bytes listed in GRAPHICAL_LOW take their glyphs. */
  lemma ListedGlyphs()
    ensures forall b: byte :: b in GRAPHICAL_LOW ==> Cp437Map()[b] == GRAPHICAL_LOW[b]
  {
    forall b: byte | b in GRAPHICAL_LOW
      ensures Cp437Map()[b] == GRAPHICAL_LOW[b]
    {
      assert Cp437Map()[b] == Entry(GRAPHICAL_LOW, b);
    }
  }

  /** NUL, BS, TAB, LF, CR and printable ASCII are not listed and map to
      themselves. */
  lemma AsciiIdentity()
    ensures forall b: byte ::
              (b == 0x00 || b == 0x08 || b == 0x09 || b == 0x0A || b == 0x0D || 0x20 <= b <= 0x7E) ==>
                b !in GRAPHICAL_LOW && Cp437Map()[b] as int == b as int
  {
    forall b: byte | b == 0x00 || b == 0x08 || b == 0x09 || b == 0x0A || b == 0x0D || 0x20 <= b <= 0x7E
      ensures b !in GRAPHICAL_LOW && Cp437Map()[b] as int == b as int
    {
      assert b !in GRAPHICAL_LOW;
      assert Cp437Map()[b] == StandardGlyph(b);
    }
  }

  /** The bytes listed in GRAPHICAL_LOW take their glyphs, and NUL, BS, TAB,
      LF, CR and printable ASCII map to themselves. */
  lemma MapContents()
    ensures Cp437Map()[0x01] == '\U{263A}' && Cp437Map()[0x02] == '\U{263B}'
    ensures Cp437Map()[0x03] == '\U{2665}'
    ensures Cp437Map()[0x1B] == '\U{2194}' && Cp437Map()[0x7F] == '\U{2302}'
    ensures forall b: byte :: b in GRAPHICAL_LOW ==> Cp437Map()[b] == GRAPHICAL_LOW[b]
    ensures forall b: byte ::
              (b == 0x00 || b == 0x08 || b == 0x09 || b == 0x0A || b == 0x0D || 0x20 <= b <= 0x7E) ==>
                Cp437Map()[b] as int == b as int
  {
    ListedGlyphs();
    AsciiIdentity();
    assert GRAPHICAL_LOW[0x01] == '\U{263A}' && GRAPHICAL_LOW[0x02] == '\U{263B}';
    assert GRAPHICAL_LOW[0x03] == '\U{2665}';
    assert GRAPHICAL_LOW[0x1B] == '\U{2194}' && GRAPHICAL_LOW[0x7F] == '\U{2302}';
  }

  /** 0xF4 and 0xF5 carry the same glyphs as the overridden 0x1E and 0x1F. */
  lemma IntegralHalvesCollide()
    ensures Cp437Map()[0xF4] == Cp437Map()[0x1E] == '\U{2320}'
    ensures Cp437Map()[0xF5] == Cp437Map()[0x1F] == '\U{2321}'
  {
    assert 0xF4 !in GRAPHICAL_LOW && 0xF5 !in GRAPHICAL_LOW;
    assert StandardCode(0xF4) == 0x2320 && StandardCode(0xF5) == 0x2321;
    assert Cp437Map()[0xF4] == StandardGlyph(0xF4) && Cp437Map()[0xF5] == StandardGlyph(0xF5);
    assert Cp437Map()[0x1E] == GRAPHICAL_LOW[0x1E] && Cp437Map()[0x1F] == GRAPHICAL_LOW[0x1F];
  }

  /** UNICODE_TO_CP437 keeps the lowest byte of every glyph: each byte's glyph
      leads back to the byte itself, except that 0xF4 and 0xF5 lead to 0x1E and 0x1F. */
  lemma LowestByteWins(b: byte)
    ensures FirstWriter(Cp437Map(), Cp437Map()[b]) == Some(Canonical(b))
  {
    RankOfAll();
    var canonical := seq(256, i requires 0 <= i < 256 => Canonical(i as byte));
    forall x, y | 0 <= x < 256 && 0 <= y < 256 && Cp437Map()[x] == Cp437Map()[y]
      ensures canonical[x] == canonical[y]
    {
      assert GlyphRank(Glyph(x as byte)) == Canonical(x as byte) as int;
      assert GlyphRank(Glyph(y as byte)) == Canonical(y as byte) as int;
    }
    IntegralHalvesCollide();
    FirstWriterIsCanonical(Cp437Map(), canonical, b);
  }

  /** The two module-level dicts, CP437_MAP and UNICODE_TO_CP437. */
  method BuildTables() returns (cp437Map: seq<char>, unicodeToCp437: map<char, byte>)
    ensures cp437Map == Cp437Map()
    ensures IsFirstWriterInverse(Cp437Map(), unicodeToCp437)
    ensures forall b: byte :: unicodeToCp437[Cp437Map()[b]] == Canonical(b)
  {
    cp437Map := BuildMap(GRAPHICAL_LOW);
    assert forall i :: 0 <= i < 256 ==> cp437Map[i] == Cp437Map()[i];
    unicodeToCp437 := BuildInverse(cp437Map);
    InverseKeepsLowest(unicodeToCp437);
  }

  /** In UNICODE_TO_CP437 the glyph of every byte leads back to that byte,
      except that the glyphs of 0xF4 and 0xF5 lead to 0x1E and 0x1F. */
  lemma InverseKeepsLowest(unicodeToCp437: map<char, byte>)
    requires IsFirstWriterInverse(Cp437Map(), unicodeToCp437)
    ensures forall b: byte :: unicodeToCp437[Cp437Map()[b]] == Canonical(b)
  {
    forall b: byte
      ensures unicodeToCp437[Cp437Map()[b]] == Canonical(b)
    {
      LowestByteWins(b);
    }
  }

  /** The byte encode_to_cp437 writes for c: its UNICODE_TO_CP437 entry if it
      has one, else its Latin-1 byte if it has one, else '?'. */
  function EncodeChar(c: char): (r: byte)
    ensures c in Cp437Map() ==> Cp437Map()[r] == c
    ensures c !in Cp437Map() ==> r as int == if c as int <= 0xFF then c as int else 0x3F
  {
    EncodeIn(Cp437Map(), c)
  }

  /** What encode_to_cp437 returns for text. */
  function Encoded(text: string): seq<byte>
  {
    seq(|text|, k requires 0 <= k < |text| => EncodeChar(text[k]))
  }

  /** Every glyph of the table encodes to its lowest byte. */
  lemma EncodeGlyph(b: byte)
    ensures EncodeChar(Cp437Map()[b]) == Canonical(b)
  {
    LowestByteWins(b);
  }

  /** encode_to_cp437: one byte per character, never failing. */
  method EncodeToCp437(unicodeToCp437: map<char, byte>, text: string) returns (r: seq<byte>)
    requires IsFirstWriterInverse(Cp437Map(), unicodeToCp437)
    ensures |r| == |text|
    ensures forall k :: 0 <= k < |text| ==> r[k] == EncodeChar(text[k])
  {
    r := [];
    var k := 0;
    while k < |text|
      invariant 0 <= k <= |text| && |r| == k
      invariant forall j :: 0 <= j < k ==> r[j] == EncodeWith(unicodeToCp437, text[j])
    {
      var c := text[k];
      if c in unicodeToCp437 {
        r := r + [unicodeToCp437[c]];
      } else if c as int <= 0xFF {
        r := r + [c as int as byte];
      } else {
        r := r + [0x3F];
      }
      k := k + 1;
    }
    EncodeAllByDict(Cp437Map(), unicodeToCp437, text, r);
  }
}
