/**
 * The code-page machinery shared by cp437_telnet.py and cp437_translator.py:
 * bytes, the standard IBM code page 437 glyphs, the 256-entry byte-to-glyph
 * table both files build, and its "first writer wins" inverse.
 */
module Codepage {

  newtype byte = b: int | 0 <= b < 0x100

  datatype Option<+T> = None | Some(value: T)

  /** Code points of IBM code page 437 for bytes 0x80 + 8r .. 0x87 + 8r
      (Unicode mapping file VENDORS/MICSFT/PC/CP437.TXT). */
  function UpperRow(r: int): (row: seq<int>)
    ensures |row| == 8
    ensures forall k :: 0 <= k < 8 ==> 0xA0 <= row[k] < 0xD800
  {
    match r
    case 0  => [0x00C7, 0x00FC, 0x00E9, 0x00E2, 0x00E4, 0x00E0, 0x00E5, 0x00E7]  // 0x80-0x87
    case 1  => [0x00EA, 0x00EB, 0x00E8, 0x00EF, 0x00EE, 0x00EC, 0x00C4, 0x00C5]  // 0x88-0x8F
    case 2  => [0x00C9, 0x00E6, 0x00C6, 0x00F4, 0x00F6, 0x00F2, 0x00FB, 0x00F9]  // 0x90-0x97
    case 3  => [0x00FF, 0x00D6, 0x00DC, 0x00A2, 0x00A3, 0x00A5, 0x20A7, 0x0192]  // 0x98-0x9F
    case 4  => [0x00E1, 0x00ED, 0x00F3, 0x00FA, 0x00F1, 0x00D1, 0x00AA, 0x00BA]  // 0xA0-0xA7
    case 5  => [0x00BF, 0x2310, 0x00AC, 0x00BD, 0x00BC, 0x00A1, 0x00AB, 0x00BB]  // 0xA8-0xAF
    case 6  => [0x2591, 0x2592, 0x2593, 0x2502, 0x2524, 0x2561, 0x2562, 0x2556]  // 0xB0-0xB7
    case 7  => [0x2555, 0x2563, 0x2551, 0x2557, 0x255D, 0x255C, 0x255B, 0x2510]  // 0xB8-0xBF
    case 8  => [0x2514, 0x2534, 0x252C, 0x251C, 0x2500, 0x253C, 0x255E, 0x255F]  // 0xC0-0xC7
    case 9  => [0x255A, 0x2554, 0x2569, 0x2566, 0x2560, 0x2550, 0x256C, 0x2567]  // 0xC8-0xCF
    case 10 => [0x2568, 0x2564, 0x2565, 0x2559, 0x2558, 0x2552, 0x2553, 0x256B]  // 0xD0-0xD7
    case 11 => [0x256A, 0x2518, 0x250C, 0x2588, 0x2584, 0x258C, 0x2590, 0x2580]  // 0xD8-0xDF
    case 12 => [0x03B1, 0x00DF, 0x0393, 0x03C0, 0x03A3, 0x03C3, 0x00B5, 0x03C4]  // 0xE0-0xE7
    case 13 => [0x03A6, 0x0398, 0x03A9, 0x03B4, 0x221E, 0x03C6, 0x03B5, 0x2229]  // 0xE8-0xEF
    case 14 => [0x2261, 0x00B1, 0x2265, 0x2264, 0x2320, 0x2321, 0x00F7, 0x2248]  // 0xF0-0xF7
    case _  => [0x00B0, 0x2219, 0x00B7, 0x221A, 0x207F, 0x00B2, 0x25A0, 0x00A0]  // 0xF8-0xFF
  }

  /** The glyph the standard "cp437" codec gives byte b: ASCII (including the
      C0 controls and DEL) below 0x80, the IBM table above. */
  function StandardCode(b: byte): (code: int)
    ensures b < 0x80 ==> code == b as int
    ensures 0x80 <= b ==> 0xA0 <= code < 0xD800
  {
    if b < 0x80 then b as int else UpperRow((b as int - 0x80) / 8)[(b as int - 0x80) % 8]
  }

  function StandardGlyph(b: byte): char
  {
    StandardCode(b) as char
  }

  /** The inverse of the upper half: a search tree over its sorted code
      points, eight per leaf; -1 for a code point the upper half lacks. */
  ghost function UpperByteOf(code: int): int
  {
    if code < 0x03C4 then
      if code < 0x00E6 then
        if code < 0x00BD then
          if code < 0x00B0 then
            match code
            case 0x00A0 => 0xFF
            case 0x00A1 => 0xAD
            case 0x00A2 => 0x9B
            case 0x00A3 => 0x9C
            case 0x00A5 => 0x9D
            case 0x00AA => 0xA6
            case 0x00AB => 0xAE
            case 0x00AC => 0xAA
            case _ => -1
          else
            match code
            case 0x00B0 => 0xF8
            case 0x00B1 => 0xF1
            case 0x00B2 => 0xFD
            case 0x00B5 => 0xE6
            case 0x00B7 => 0xFA
            case 0x00BA => 0xA7
            case 0x00BB => 0xAF
            case 0x00BC => 0xAC
            case _ => -1
        else
          if code < 0x00D6 then
            match code
            case 0x00BD => 0xAB
            case 0x00BF => 0xA8
            case 0x00C4 => 0x8E
            case 0x00C5 => 0x8F
            case 0x00C6 => 0x92
            case 0x00C7 => 0x80
            case 0x00C9 => 0x90
            case 0x00D1 => 0xA5
            case _ => -1
          else
            match code
            case 0x00D6 => 0x99
            case 0x00DC => 0x9A
            case 0x00DF => 0xE1
            case 0x00E0 => 0x85
            case 0x00E1 => 0xA0
            case 0x00E2 => 0x83
            case 0x00E4 => 0x84
            case 0x00E5 => 0x86
            case _ => -1
      else
        if code < 0x00F9 then
          if code < 0x00EE then
            match code
            case 0x00E6 => 0x91
            case 0x00E7 => 0x87
            case 0x00E8 => 0x8A
            case 0x00E9 => 0x82
            case 0x00EA => 0x88
            case 0x00EB => 0x89
            case 0x00EC => 0x8D
            case 0x00ED => 0xA1
            case _ => -1
          else
            match code
            case 0x00EE => 0x8C
            case 0x00EF => 0x8B
            case 0x00F1 => 0xA4
            case 0x00F2 => 0x95
            case 0x00F3 => 0xA2
            case 0x00F4 => 0x93
            case 0x00F6 => 0x94
            case 0x00F7 => 0xF6
            case _ => -1
        else
          if code < 0x03A3 then
            match code
            case 0x00F9 => 0x97
            case 0x00FA => 0xA3
            case 0x00FB => 0x96
            case 0x00FC => 0x81
            case 0x00FF => 0x98
            case 0x0192 => 0x9F
            case 0x0393 => 0xE2
            case 0x0398 => 0xE9
            case _ => -1
          else
            match code
            case 0x03A3 => 0xE4
            case 0x03A6 => 0xE8
            case 0x03A9 => 0xEA
            case 0x03B1 => 0xE0
            case 0x03B4 => 0xEB
            case 0x03B5 => 0xEE
            case 0x03C0 => 0xE3
            case 0x03C3 => 0xE5
            case _ => -1
    else
      if code < 0x2556 then
        if code < 0x2502 then
          if code < 0x2248 then
            match code
            case 0x03C4 => 0xE7
            case 0x03C6 => 0xED
            case 0x207F => 0xFC
            case 0x20A7 => 0x9E
            case 0x2219 => 0xF9
            case 0x221A => 0xFB
            case 0x221E => 0xEC
            case 0x2229 => 0xEF
            case _ => -1
          else
            match code
            case 0x2248 => 0xF7
            case 0x2261 => 0xF0
            case 0x2264 => 0xF3
            case 0x2265 => 0xF2
            case 0x2310 => 0xA9
            case 0x2320 => 0xF4
            case 0x2321 => 0xF5
            case 0x2500 => 0xC4
            case _ => -1
        else
          if code < 0x2534 then
            match code
            case 0x2502 => 0xB3
            case 0x250C => 0xDA
            case 0x2510 => 0xBF
            case 0x2514 => 0xC0
            case 0x2518 => 0xD9
            case 0x251C => 0xC3
            case 0x2524 => 0xB4
            case 0x252C => 0xC2
            case _ => -1
          else
            match code
            case 0x2534 => 0xC1
            case 0x253C => 0xC5
            case 0x2550 => 0xCD
            case 0x2551 => 0xBA
            case 0x2552 => 0xD5
            case 0x2553 => 0xD6
            case 0x2554 => 0xC9
            case 0x2555 => 0xB8
            case _ => -1
      else
        if code < 0x2566 then
          if code < 0x255E then
            match code
            case 0x2556 => 0xB7
            case 0x2557 => 0xBB
            case 0x2558 => 0xD4
            case 0x2559 => 0xD3
            case 0x255A => 0xC8
            case 0x255B => 0xBE
            case 0x255C => 0xBD
            case 0x255D => 0xBC
            case _ => -1
          else
            match code
            case 0x255E => 0xC6
            case 0x255F => 0xC7
            case 0x2560 => 0xCC
            case 0x2561 => 0xB5
            case 0x2562 => 0xB6
            case 0x2563 => 0xB9
            case 0x2564 => 0xD1
            case 0x2565 => 0xD2
            case _ => -1
        else
          if code < 0x2584 then
            match code
            case 0x2566 => 0xCB
            case 0x2567 => 0xCF
            case 0x2568 => 0xD0
            case 0x2569 => 0xCA
            case 0x256A => 0xD8
            case 0x256B => 0xD7
            case 0x256C => 0xCE
            case 0x2580 => 0xDF
            case _ => -1
          else
            match code
            case 0x2584 => 0xDC
            case 0x2588 => 0xDB
            case 0x258C => 0xDD
            case 0x2590 => 0xDE
            case 0x2591 => 0xB0
            case 0x2592 => 0xB1
            case 0x2593 => 0xB2
            case 0x25A0 => 0xFE
            case _ => -1
  }

  // Proof plumbing, not part of the model: UpperByteOf80 to UpperByteOfE0
  // check the upper half of the code page 32 bytes at a time; UpperByteOfAll
  // joins them.
  lemma UpperByteOf80()
    ensures forall b: byte :: 0x80 <= b < 0xA0 ==> UpperByteOf(StandardCode(b)) == b as int
  {
  }

  lemma UpperByteOfA0()
    ensures forall b: byte :: 0xA0 <= b < 0xC0 ==> UpperByteOf(StandardCode(b)) == b as int
  {
  }

  lemma UpperByteOfC0()
    ensures forall b: byte :: 0xC0 <= b < 0xE0 ==> UpperByteOf(StandardCode(b)) == b as int
  {
  }

  lemma UpperByteOfE0()
    ensures forall b: byte :: 0xE0 <= b ==> UpperByteOf(StandardCode(b)) == b as int
  {
  }

  lemma UpperByteOfAll()
    ensures forall b: byte :: 0x80 <= b ==> UpperByteOf(StandardCode(b)) == b as int
  {
    UpperByteOf80();
    UpperByteOfA0();
    UpperByteOfC0();
    UpperByteOfE0();
  }

  /** Distinct bytes have distinct standard glyphs. */
  lemma StandardInjective(b1: byte, b2: byte)
    requires StandardGlyph(b1) == StandardGlyph(b2)
    ensures b1 == b2
  {
    UpperByteOfAll();
  }

  /** The lowest byte at or after k whose glyph in table is c, if any: the key
      that a "first match wins" pass over the table in byte order keeps for c. */
  function FirstWriterFrom(table: seq<char>, c: char, k: int): (r: Option<byte>)
    requires |table| == 256 && 0 <= k <= 256
    ensures r.Some? ==> k <= r.value as int && table[r.value] == c
    ensures r.Some? ==> forall j :: k <= j < r.value as int ==> table[j] != c
    ensures r.None? <==> forall j :: k <= j < 256 ==> table[j] != c
    decreases 256 - k
  {
    if k == 256 then None
    else if table[k] == c then Some(k as byte)
    else FirstWriterFrom(table, c, k + 1)
  }

  function FirstWriter(table: seq<char>, c: char): Option<byte>
    requires |table| == 256
  {
    FirstWriterFrom(table, c, 0)
  }

  /** The first writer of a glyph is the unique lowest byte carrying it. */
  lemma FirstWriterCharacterized(table: seq<char>, c: char, b: byte)
    requires |table| == 256
    ensures FirstWriter(table, c) == Some(b) <==> table[b] == c && forall j :: 0 <= j < b as int ==> table[j] != c
  {
  }

  function Entry(graphicalLow: map<byte, char>, b: byte): char
  {
    if b in graphicalLow then graphicalLow[b] else StandardGlyph(b)
  }

  /** The byte-to-glyph table with the glyphs of graphicalLow laid over the
      standard code page. */
  function TableOf(graphicalLow: map<byte, char>): seq<char>
  {
    seq(256, i requires 0 <= i < 256 => Entry(graphicalLow, i as byte))
  }

  /** Builds the byte-to-glyph dict in byte order: a byte listed in graphicalLow
      takes that glyph, every other byte its standard glyph. */
  method BuildMap(graphicalLow: map<byte, char>) returns (table: seq<char>)
    ensures |table| == 256
    ensures forall b: byte :: b in graphicalLow ==> table[b] == graphicalLow[b]
    ensures forall b: byte :: b !in graphicalLow ==> table[b] == StandardGlyph(b)
  {
    table := [];
    var i := 0;
    while i < 256
      invariant 0 <= i <= 256 && |table| == i
      invariant forall j :: 0 <= j < i ==> table[j] == Entry(graphicalLow, j as byte)
    {
      table := table + [Entry(graphicalLow, i as byte)];
      i := i + 1;
    }
  }

  /** A glyph-to-byte dict as a "first match wins" pass over table builds it:
      defined exactly on the glyphs of table, each taken to the first byte
      that carries it. */
  predicate IsFirstWriterInverse(table: seq<char>, inverse: map<char, byte>)
    requires |table| == 256
  {
    (forall c :: c in inverse <==> c in table) &&
    forall c :: c in inverse ==> FirstWriter(table, c) == Some(inverse[c])
  }

  /** Builds the glyph-to-byte dict by a pass over the table in byte order that
      keeps the first byte seen for each glyph. */
  method BuildInverse(table: seq<char>) returns (inverse: map<char, byte>)
    requires |table| == 256
    ensures IsFirstWriterInverse(table, inverse)
    ensures forall c :: c in inverse ==> table[inverse[c]] == c
  {
    inverse := map[];
    var k := 0;
    while k < 256
      invariant 0 <= k <= 256
      invariant forall c :: c in inverse <==> c in table[..k]
      invariant forall c :: c in inverse ==> FirstWriter(table, c) == Some(inverse[c])
    {
      var c := table[k];
      if c !in inverse {
        FirstWriterCharacterized(table, c, k as byte);
        inverse := inverse[c := k as byte];
      }
      k := k + 1;
    }
    assert table[..256] == table;
  }

  /** The byte both encoders write for c. A glyph of table takes the lowest
      byte carrying it, so the byte decodes back to c; any other character
      falls back to its Latin-1 byte if it has one, else to '?'. */
  function EncodeIn(table: seq<char>, c: char): (r: byte)
    requires |table| == 256
    ensures c in table ==> table[r] == c && forall j :: 0 <= j < r as int ==> table[j] != c
    ensures c !in table ==> r as int == if c as int <= 0xFF then c as int else 0x3F
  {
    var found := FirstWriter(table, c);
    if found.Some? then found.value
    else if c as int <= 0xFF then c as int as byte
    else 0x3F
  }

  /** The same choice made by looking c up in a glyph-to-byte dict. */
  function EncodeWith(inverse: map<char, byte>, c: char): byte
  {
    if c in inverse then inverse[c]
    else if c as int <= 0xFF then c as int as byte
    else 0x3F
  }

  /** With the dict a first-writer inverse of table, the lookup agrees with
      EncodeIn. */
  lemma EncodeByDict(table: seq<char>, inverse: map<char, byte>, c: char)
    requires |table| == 256 && IsFirstWriterInverse(table, inverse)
    ensures EncodeIn(table, c) == EncodeWith(inverse, c)
  {
    if c !in inverse {
      assert FirstWriter(table, c).None?;
    }
  }

  /** EncodeByDict character by character. */
  lemma EncodeAllByDict(table: seq<char>, inverse: map<char, byte>, text: string, r: seq<byte>)
    requires |table| == 256 && IsFirstWriterInverse(table, inverse)
    requires |r| == |text| && forall j :: 0 <= j < |text| ==> r[j] == EncodeWith(inverse, text[j])
    ensures forall j :: 0 <= j < |text| ==> r[j] == EncodeIn(table, text[j])
  {
    forall j | 0 <= j < |text|
      ensures r[j] == EncodeIn(table, text[j])
    {
      EncodeByDict(table, inverse, text[j]);
    }
  }

  /** When canonical[x] is a byte no later than x with x's glyph, and bytes
      sharing a glyph share their canonical byte, the first writer of b's glyph
      is canonical[b]. */
  lemma FirstWriterIsCanonical(table: seq<char>, canonical: seq<byte>, b: byte)
    requires |table| == 256 && |canonical| == 256
    requires forall x :: 0 <= x < 256 ==> canonical[x] as int <= x && table[canonical[x]] == table[x]
    requires forall x, y :: 0 <= x < 256 && 0 <= y < 256 && table[x] == table[y] ==> canonical[x] == canonical[y]
    ensures FirstWriter(table, table[b]) == Some(canonical[b])
  {
    var r := FirstWriter(table, table[b]);
    assert r.Some?;
    var f := r.value;
    assert canonical[f] == canonical[b];
  }
}
