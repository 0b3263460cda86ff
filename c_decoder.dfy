/**
 * The C decoder of cp437_decode.c (lines 10-137): cp437_to_utf8, which looks
 * a byte up in a 28-entry table of UTF-8 glyphs, and decode_cp437_graphical,
 * which decodes a byte buffer into a caller-sized output array, copying CSI
 * and OSC escape sequences through and NUL-terminating the result. fucktel.c
 * carries a copy of both functions (lines 26-63 and 117-205) that this
 * module models as well.
 *
 * Unlike the Python decoder there is no pending state and no scan bound: an
 * unterminated sequence is copied to the end of the input.
 */
module CDecoder {
  import opened Codepage
  import opened TelnetDecoder
  import TelnetCodec

  /** cp437_graphical_map without its NULL sentinel: each byte with the
      character its UTF-8 string literal encodes. */
  const GRAPHICAL_MAP: seq<(byte, char)> := [
    (0x01, '\U{263A}'), (0x02, '\U{263B}'), (0x03, '\U{2665}'), (0x04, '\U{2666}'),
    (0x05, '\U{2663}'), (0x06, '\U{2660}'), (0x07, '\U{2022}'), (0x0B, '\U{2642}'),
    (0x0C, '\U{2640}'), (0x0E, '\U{25BA}'), (0x0F, '\U{25C4}'), (0x10, '\U{2195}'),
    (0x11, '\U{203C}'), (0x12, '\U{00B6}'), (0x13, '\U{00A7}'), (0x14, '\U{25AC}'),
    (0x15, '\U{21A8}'), (0x16, '\U{2191}'), (0x17, '\U{2193}'), (0x18, '\U{2192}'),
    (0x19, '\U{2190}'), (0x1A, '\U{221F}'), (0x1B, '\U{2194}'), (0x1C, '\U{25B2}'),
    (0x1D, '\U{25BC}'), (0x1E, '\U{2320}'), (0x1F, '\U{2321}'), (0x7F, '\U{2302}')
  ]

  /** The UTF-8 encoding of a code point (section 3 of RFC 3629). */
  function Utf8(code: int): (r: seq<byte>)
    requires 0 <= code < 0x110000
    ensures |r| == if code < 0x80 then 1 else if code < 0x800 then 2 else if code < 0x10000 then 3 else 4
    ensures code < 0x80 ==> r[0] as int == code
    ensures code >= 0x80 ==> 0xC2 <= r[0] && forall k :: 1 <= k < |r| ==> 0x80 <= r[k] < 0xC0
  {
    if code < 0x80 then
      [code as byte]
    else if code < 0x800 then
      [(0xC0 + code / 0x40) as byte, (0x80 + code % 0x40) as byte]
    else if code < 0x10000 then
      [(0xE0 + code / 0x1000) as byte, (0x80 + code / 0x40 % 0x40) as byte, (0x80 + code % 0x40) as byte]
    else
      [(0xF0 + code / 0x40000) as byte, (0x80 + code / 0x1000 % 0x40) as byte,
       (0x80 + code / 0x40 % 0x40) as byte, (0x80 + code % 0x40) as byte]
  }

  /** The code point of a well-formed UTF-8 sequence of one to four bytes. */
  function Utf8Value(r: seq<byte>): int
    requires 1 <= |r| <= 4
  {
    if |r| == 1 then r[0] as int
    else if |r| == 2 then (r[0] as int - 0xC0) * 0x40 + (r[1] as int - 0x80)
    else if |r| == 3 then ((r[0] as int - 0xE0) * 0x40 + (r[1] as int - 0x80)) * 0x40 + (r[2] as int - 0x80)
    else (((r[0] as int - 0xF0) * 0x40 + (r[1] as int - 0x80)) * 0x40 + (r[2] as int - 0x80)) * 0x40 + (r[3] as int - 0x80)
  }

  /** Decoding the encoding of a code point gives the code point back. */
  lemma Utf8RoundTrip(code: int)
    requires 0 <= code < 0x110000
    ensures Utf8Value(Utf8(code)) == code
  {
    var low, mid := code % 0x40, code / 0x40;
    assert code == mid * 0x40 + low;
    if code >= 0x800 {
      var hi := mid / 0x40;
      assert mid == hi * 0x40 + mid % 0x40;
      assert code / 0x1000 == hi;
      assert code / 0x40 % 0x40 == mid % 0x40;
      if code >= 0x10000 {
        assert hi == hi / 0x40 * 0x40 + hi % 0x40;
        assert code / 0x40000 == hi / 0x40;
        assert code / 0x1000 % 0x40 == hi % 0x40;
      }
    }
  }

  /** The code of the first table entry at or after k whose byte is b: the
      search of cp437_to_utf8's loop from entry k on. */
  function TableCode(b: byte, k: nat): (r: Option<char>)
    requires k <= |GRAPHICAL_MAP|
    decreases |GRAPHICAL_MAP| - k
  {
    if k == |GRAPHICAL_MAP| then None
    else if GRAPHICAL_MAP[k].0 == b then Some(GRAPHICAL_MAP[k].1)
    else TableCode(b, k + 1)
  }

  /** The bytes of the string cp437_to_utf8 returns for b, up to its NUL:
      the table glyph if b has one, else b itself, which for NUL is the empty
      string. */
  function GlyphBytes(b: byte): (r: seq<byte>)
    ensures |r| <= 3
    ensures r == [] <==> b == 0
  {
    TableCodeInBmp(b);
    match TableCode(b, 0)
    case Some(glyph) => Utf8(glyph as int)
    case None => if b == 0 then [] else [b]
  }

  /** cp437_to_utf8: a scan of the table, then the byte itself. The static
      one-byte buffer the C code returns is returned here by value. */
  method Cp437ToUtf8(b: byte) returns (s: seq<byte>)
    ensures s == GlyphBytes(b)
  {
    var i := 0;
    while i < |GRAPHICAL_MAP|
      invariant 0 <= i <= |GRAPHICAL_MAP|
      invariant TableCode(b, i) == TableCode(b, 0)
    {
      if GRAPHICAL_MAP[i].0 == b {
        return Utf8(GRAPHICAL_MAP[i].1 as int);
      }
      i := i + 1;
    }
    if b == 0x08 || b == 0x09 || b == 0x0A || b == 0x0D || (0x20 <= b <= 0x7E) {
      return [b];
    }
    s := if b == 0 then [] else [b];
  }

  /** Proof device: where each byte of the telnet client's GRAPHICAL_LOW sits
      in the C table. */
  ghost function KeyIndex(b: byte): int
  {
    match b
    case 0x01 => 0 case 0x02 => 1 case 0x03 => 2 case 0x04 => 3
    case 0x05 => 4 case 0x06 => 5 case 0x07 => 6 case 0x0B => 7
    case 0x0C => 8 case 0x0E => 9 case 0x0F => 10 case 0x10 => 11
    case 0x11 => 12 case 0x12 => 13 case 0x13 => 14 case 0x14 => 15
    case 0x15 => 16 case 0x16 => 17 case 0x17 => 18 case 0x18 => 19
    case 0x19 => 20 case 0x1A => 21 case 0x1B => 22 case 0x1C => 23
    case 0x1D => 24 case 0x1E => 25 case 0x1F => 26 case 0x7F => 27
    case _ => -1
  }

  /** Entry j of the C table is the entry of the telnet client's table for
      the same byte, with a code point outside ASCII and inside the BMP. */
  ghost predicate ListedAt(j: int)
    requires 0 <= j < |GRAPHICAL_MAP|
  {
    var (b, glyph) := GRAPHICAL_MAP[j];
    b in TelnetCodec.GRAPHICAL_LOW && TelnetCodec.GRAPHICAL_LOW[b] == glyph &&
    KeyIndex(b) == j && 0x80 <= glyph as int < 0x10000
  }

  // Proof plumbing, not part of the model: ListedLow, ListedMid and
  // ListedHigh check the C table a third at a time.
  lemma ListedLow()
    ensures forall j :: 0 <= j < 10 ==> ListedAt(j)
  {
  }

  lemma ListedMid()
    ensures forall j :: 10 <= j < 19 ==> ListedAt(j)
  {
  }

  lemma ListedHigh()
    ensures forall j :: 19 <= j < |GRAPHICAL_MAP| ==> ListedAt(j)
  {
  }

  /** The entry KeyIndex(b) names holds byte b. */
  ghost predicate CoveredBy(b: byte)
  {
    0 <= KeyIndex(b) < |GRAPHICAL_MAP| && GRAPHICAL_MAP[KeyIndex(b)].0 == b
  }

  // Proof plumbing, not part of the model: KeysCovered00 to KeysCovered1C
  // check, a block of bytes at a time, that every byte of the telnet client's
  // GRAPHICAL_LOW has an entry in the C table.
  lemma KeysCovered00()
    ensures forall b :: b in TelnetCodec.GRAPHICAL_LOW && b < 0x08 ==> CoveredBy(b)
  {
  }

  lemma KeysCovered08()
    ensures forall b :: b in TelnetCodec.GRAPHICAL_LOW && 0x08 <= b < 0x14 ==> CoveredBy(b)
  {
  }

  lemma KeysCovered14()
    ensures forall b :: b in TelnetCodec.GRAPHICAL_LOW && 0x14 <= b < 0x1C ==> CoveredBy(b)
  {
  }

  lemma KeysCovered1C()
    ensures forall b :: b in TelnetCodec.GRAPHICAL_LOW && b >= 0x1C ==> CoveredBy(b)
  {
  }

  /** The search finds nothing when no entry from k on has byte b. */
  lemma {:induction false} TableCodeMisses(b: byte, k: nat)
    requires k <= |GRAPHICAL_MAP|
    requires forall j :: k <= j < |GRAPHICAL_MAP| ==> GRAPHICAL_MAP[j].0 != b
    ensures TableCode(b, k) == None
    decreases |GRAPHICAL_MAP| - k
  {
    if k < |GRAPHICAL_MAP| {
      TableCodeMisses(b, k + 1);
    }
  }

  /** The search finds entry j when it is the first from k on with byte b. */
  lemma {:induction false} TableCodeHits(b: byte, k: nat, j: nat)
    requires k <= j < |GRAPHICAL_MAP| && GRAPHICAL_MAP[j].0 == b
    requires forall i :: k <= i < j ==> GRAPHICAL_MAP[i].0 != b
    ensures TableCode(b, k) == Some(GRAPHICAL_MAP[j].1)
    decreases j - k
  {
    if k < j {
      TableCodeHits(b, k + 1, j);
    }
  }

  /** A byte of the telnet client's GRAPHICAL_LOW finds its entry. */
  lemma TableHitsListed(b: byte)
    requires b in TelnetCodec.GRAPHICAL_LOW
    ensures TableCode(b, 0) == Some(TelnetCodec.GRAPHICAL_LOW[b])
    ensures 0x80 <= TelnetCodec.GRAPHICAL_LOW[b] as int < 0x10000
  {
    ListedLow();
    ListedMid();
    ListedHigh();
    KeysCovered00();
    KeysCovered08();
    KeysCovered14();
    KeysCovered1C();
    assert CoveredBy(b);
    var j := KeyIndex(b);
    assert ListedAt(j);
    forall i | 0 <= i < j
      ensures GRAPHICAL_MAP[i].0 != b
    {
      assert ListedAt(i);
    }
    TableCodeHits(b, 0, j);
  }

  /** Any other byte finds no entry. */
  lemma TableMissesUnlisted(b: byte)
    requires b !in TelnetCodec.GRAPHICAL_LOW
    ensures TableCode(b, 0) == None
  {
    ListedLow();
    ListedMid();
    ListedHigh();
    TableCodeMisses(b, 0);
  }

  /** A byte the table lists is not NUL and has a glyph outside ASCII and
      inside the BMP, so its UTF-8 form is two or three bytes long. */
  lemma TableCodeInBmp(b: byte)
    ensures TableCode(b, 0).Some? ==> b != 0 && 0x80 <= TableCode(b, 0).value as int < 0x10000
  {
    if b in TelnetCodec.GRAPHICAL_LOW {
      TableHitsListed(b);
    } else {
      TableMissesUnlisted(b);
    }
  }

  /** cp437_to_utf8 agrees with the telnet client's table: the 28 graphical
      bytes (0x1B among them) yield the UTF-8 encoding of the same glyph, two
      or three bytes long, NUL yields the empty string, and every other byte
      yields itself. */
  lemma GlyphBytesMeaning(b: byte)
    ensures b in TelnetCodec.GRAPHICAL_LOW ==>
              GlyphBytes(b) == Utf8(TelnetCodec.GRAPHICAL_LOW[b] as int) && 2 <= |GlyphBytes(b)| <= 3
    ensures b !in TelnetCodec.GRAPHICAL_LOW && b != 0 ==> GlyphBytes(b) == [b]
    ensures b == 0 ==> GlyphBytes(b) == []
  {
    if b in TelnetCodec.GRAPHICAL_LOW {
      TableHitsListed(b);
    } else {
      TableMissesUnlisted(b);
    }
  }

  /** Below 0x80 the C decoder's glyphs are the UTF-8 encodings of the telnet
      client's CP437_MAP glyphs, NUL excepted; from 0x80 on it copies the raw
      byte instead of the standard CP437 glyph. */
  lemma AsciiGlyphsAgree(b: byte)
    requires 0x01 <= b < 0x80
    ensures GlyphBytes(b) == Utf8(TelnetCodec.Cp437Map()[b] as int)
  {
    GlyphBytesMeaning(b);
    TelnetCodec.MapContents();
    if b !in TelnetCodec.GRAPHICAL_LOW {
      assert StandardCode(b) == b as int;
    }
  }

  /** The input offset just past a CSI copied from offset k on: just after the
      first final byte (0x40-0x7E) at or after k, else the end of the input. */
  function CsiEnd(data: seq<byte>, k: nat): (e: nat)
    requires k <= |data|
    ensures k <= e <= |data|
    ensures forall j :: k <= j < e - 1 ==> !IsFinal(data[j])
    ensures e < |data| ==> k < e && IsFinal(data[e - 1])
    decreases |data| - k
  {
    if k == |data| then k
    else if IsFinal(data[k]) then k + 1
    else CsiEnd(data, k + 1)
  }

  /** An OSC terminator, BEL or ESC '\', starts at offset j. */
  predicate OscTerminatorAt(data: seq<byte>, j: nat)
  {
    j < |data| && (data[j] == BEL || (j + 1 < |data| && data[j] == ESC && data[j + 1] == BACKSLASH))
  }

  /** The input offset just past an OSC copied from offset k on: just after
      the first BEL or ESC '\' at or after k, else the end of the input. */
  function OscEnd(data: seq<byte>, k: nat): (e: nat)
    requires k <= |data|
    ensures k <= e <= |data|
    ensures forall j :: k <= j < e - 1 ==> data[j] != BEL
    ensures forall j :: k <= j && j + 2 < e ==> !(data[j] == ESC && data[j + 1] == BACKSLASH)
    ensures e < |data| ==>
              (k < e && data[e - 1] == BEL) || (k + 1 < e && data[e - 2] == ESC && data[e - 1] == BACKSLASH)
    ensures e == |data| && !(k < e && data[e - 1] == BEL) &&
            !(k + 1 < e && data[e - 2] == ESC && data[e - 1] == BACKSLASH) ==>
              forall j :: k <= j < |data| ==> !OscTerminatorAt(data, j)
    decreases |data| - k
  {
    if k == |data| then k
    else if data[k] == BEL then k + 1
    else if data[k] == ESC && k + 1 < |data| && data[k + 1] == BACKSLASH then k + 2
    else OscEnd(data, k + 1)
  }

  /** ESC '[' starts at offset i. */
  predicate CsiAt(data: seq<byte>, i: nat)
  {
    i + 1 < |data| && data[i] == ESC && data[i + 1] == LBRACKET
  }

  /** ESC ']' starts at offset i. */
  predicate OscAt(data: seq<byte>, i: nat)
  {
    i + 1 < |data| && data[i] == ESC && data[i + 1] == RBRACKET
  }

  /** What decode_cp437_graphical writes for data[i..] given unlimited room. */
  function DecodedFrom(data: seq<byte>, i: nat): seq<byte>
    requires i <= |data|
    decreases |data| - i
  {
    if i == |data| then []
    else if CsiAt(data, i) then
      data[i..CsiEnd(data, i + 2)] + DecodedFrom(data, CsiEnd(data, i + 2))
    else if OscAt(data, i) then
      data[i..OscEnd(data, i + 2)] + DecodedFrom(data, OscEnd(data, i + 2))
    else
      GlyphBytes(data[i]) + DecodedFrom(data, i + 1)
  }

  /** A CSI sequence is copied whole, up to its final byte. */
  lemma UnfoldCsi(data: seq<byte>, i: nat, e: nat)
    requires CsiAt(data, i) && e == CsiEnd(data, i + 2)
    ensures DecodedFrom(data, i) == data[i..e] + DecodedFrom(data, e)
  {
  }

  /** An OSC sequence is copied whole, up to its terminator. */
  lemma UnfoldOsc(data: seq<byte>, i: nat, e: nat)
    requires OscAt(data, i) && e == OscEnd(data, i + 2)
    ensures DecodedFrom(data, i) == data[i..e] + DecodedFrom(data, e)
  {
    assert !CsiAt(data, i);
  }

  /** What decode_cp437_graphical writes for data given unlimited room: never
      more than three bytes per input byte. */
  function CDecoded(data: seq<byte>): (r: seq<byte>)
    ensures |r| <= 3 * |data|
  {
    DecodedLength(data, 0);
    DecodedFrom(data, 0)
  }

  /** Copying one more byte of data extends the copied slice by it. */
  lemma Grow(before: seq<byte>, w: seq<byte>, data: seq<byte>, start: nat, i: nat)
    requires start <= i < |data| && w == before + data[start..i]
    ensures w + [data[i]] == before + data[start..i + 1]
  {
    assert data[start..i + 1] == data[start..i] + [data[i]];
  }

  /** The inner CSI loop of decode_cp437_graphical: copies ESC '[' and the
      bytes after it up to and including the first final byte, stopping early
      when the output reaches its last cell. */
  method CopyCsi(data: seq<byte>, start: nat, output: array<byte>, outStart: nat)
    returns (i: nat, outIdx: nat)
    requires CsiAt(data, start)
    requires outStart + 10 < output.Length
    modifies output
    ensures start + 2 <= i <= CsiEnd(data, start + 2)
    ensures outIdx == outStart + (i - start) && outIdx < output.Length
    ensures output[..outIdx] == old(output[..outStart]) + data[start..i]
    ensures i < CsiEnd(data, start + 2) ==> outIdx == output.Length - 1
  {
    ghost var before := output[..outStart];
    outIdx := outStart;
    output[outIdx] := ESC;
    outIdx := outIdx + 1;
    output[outIdx] := LBRACKET;
    outIdx := outIdx + 1;
    i := start + 2;
    ghost var end := CsiEnd(data, i);
    assert output[..outIdx] == before + data[start..i];
    while i < |data| && outIdx < output.Length - 1
      invariant start + 2 <= i <= end
      invariant CsiEnd(data, i) == end
      invariant outIdx == outStart + (i - start) && outIdx < output.Length
      invariant output[..outIdx] == before + data[start..i]
    {
      var c := data[i];
      CsiStep(data, i, end);
      ghost var w := output[..outIdx];
      output[outIdx] := c;
      assert output[..outIdx + 1] == w + [c];
      Grow(before, w, data, start, i);
      outIdx := outIdx + 1;
      i := i + 1;
      if IsFinal(c) {
        break;
      }
    }
  }

  /** How the search for the CSI final byte moves past the byte at k. */
  lemma CsiStep(data: seq<byte>, k: nat, end: nat)
    requires k < |data| && CsiEnd(data, k) == end
    ensures IsFinal(data[k]) ==> end == k + 1
    ensures !IsFinal(data[k]) ==> CsiEnd(data, k + 1) == end
  {
  }

  /** How the OSC terminator search moves past the byte at k. */
  lemma OscStep(data: seq<byte>, k: nat, end: nat)
    requires k < |data| && OscEnd(data, k) == end
    ensures data[k] == BEL ==> end == k + 1
    ensures data[k] == ESC && k + 1 < |data| && data[k + 1] == BACKSLASH ==> end == k + 2
    ensures data[k] != BEL && !(data[k] == ESC && k + 1 < |data| && data[k + 1] == BACKSLASH) ==>
              OscEnd(data, k + 1) == end
  {
  }

  /** The inner OSC loop of decode_cp437_graphical: copies ESC ']' and the
      bytes after it up to and including the first BEL or ESC '\', stopping
      early when the output reaches its last two cells. */
  method CopyOsc(data: seq<byte>, start: nat, output: array<byte>, outStart: nat)
    returns (i: nat, outIdx: nat)
    requires OscAt(data, start)
    requires outStart + 10 < output.Length
    modifies output
    ensures start + 2 <= i <= OscEnd(data, start + 2)
    ensures outIdx == outStart + (i - start) && outIdx < output.Length
    ensures output[..outIdx] == old(output[..outStart]) + data[start..i]
    ensures i < OscEnd(data, start + 2) ==> outIdx >= output.Length - 2
  {
    ghost var before := output[..outStart];
    outIdx := outStart;
    output[outIdx] := ESC;
    outIdx := outIdx + 1;
    output[outIdx] := RBRACKET;
    outIdx := outIdx + 1;
    i := start + 2;
    ghost var end := OscEnd(data, i);
    assert output[..outIdx] == before + data[start..i];
    while i < |data| && outIdx < output.Length - 2
      invariant start + 2 <= i <= end
      invariant OscEnd(data, i) == end
      invariant outIdx == outStart + (i - start) && outIdx < output.Length
      invariant output[..outIdx] == before + data[start..i]
    {
      var done;
      i, outIdx, done := OscTurn(data, start, i, output, outIdx, before, end);
      if done {
        break;
      }
    }
  }

  /** One turn of the OSC loop: copies data[i] and, when that is ESC and a
      backslash follows, the backslash too; done says the terminator has been
      copied. */
  method OscTurn(data: seq<byte>, start: nat, i: nat, output: array<byte>, outIdx: nat,
                 ghost before: seq<byte>, ghost end: nat)
    returns (next: nat, outNext: nat, done: bool)
    requires start <= i < |data| && OscEnd(data, i) == end
    requires outIdx < output.Length - 2 && output[..outIdx] == before + data[start..i]
    modifies output
    ensures i < next <= end && outNext == outIdx + (next - i) && outNext < output.Length
    ensures done ==> next == end
    ensures !done ==> OscEnd(data, next) == end
    ensures output[..outNext] == before + data[start..next]
  {
    var c := data[i];
    OscStep(data, i, end);
    ghost var w := output[..outIdx];
    output[outIdx] := c;
    assert output[..outIdx + 1] == w + [c];
    Grow(before, w, data, start, i);
    outNext := outIdx + 1;
    next := i + 1;
    done := c == BEL;
    if !done && c == ESC && next < |data| && data[next] == BACKSLASH {
      w := output[..outNext];
      output[outNext] := BACKSLASH;
      assert output[..outNext + 1] == w + [BACKSLASH];
      Grow(before, w, data, start, next);
      outNext := outNext + 1;
      next := next + 1;
      done := true;
    }
  }

  /** The regular branch of decode_cp437_graphical: the UTF-8 form of one
      byte is copied when it fits before the last cell, which it always does
      while ten cells are left. */
  method CopyGlyph(b: byte, output: array<byte>, outStart: nat) returns (outIdx: nat)
    requires outStart + 10 < output.Length
    modifies output
    ensures outIdx < output.Length
    ensures output[..outIdx] == old(output[..outStart]) + GlyphBytes(b)
  {
    var s := Cp437ToUtf8(b);
    GlyphBytesMeaning(b);
    outIdx := outStart;
    if outIdx + |s| < output.Length {
      forall j | 0 <= j < |s| {
        output[outIdx + j] := s[j];
      }
      outIdx := outIdx + |s|;
    }
    assert output[..outIdx] == old(output[..outStart]) + s;
  }

  /** written followed by the decoding of data[i..] is the decoding of data. */
  predicate WrittenSoFar(data: seq<byte>, written: seq<byte>, i: nat)
    requires i <= |data|
  {
    written + DecodedFrom(data, i) == CDecoded(data)
  }

  /** A sequence copied whole from start to end keeps WrittenSoFar. */
  lemma CopiedWhole(data: seq<byte>, written: seq<byte>, after: seq<byte>, start: nat, end: nat)
    requires start < end <= |data| && WrittenSoFar(data, written, start)
    requires DecodedFrom(data, start) == data[start..end] + DecodedFrom(data, end)
    requires after == written + data[start..end]
    ensures WrittenSoFar(data, after, end)
  {
  }

  /** Sequence fact behind CopiedPart: a prefix of the middle part of a
      concatenation still leaves a prefix of the whole. */
  lemma PrefixOfSplit(w: seq<byte>, part: seq<byte>, rest: seq<byte>, whole: seq<byte>, n: nat)
    requires w + (part + rest) == whole && n <= |part|
    ensures w + part[..n] <= whole
  {
    assert (w + part[..n]) == whole[..|w| + n];
  }

  /** A sequence copied from start only up to i < end leaves a prefix of the
      decoding of data. */
  lemma CopiedPart(data: seq<byte>, written: seq<byte>, after: seq<byte>, start: nat, i: nat, end: nat)
    requires start <= i <= end <= |data| && WrittenSoFar(data, written, start)
    requires DecodedFrom(data, start) == data[start..end] + DecodedFrom(data, end)
    requires after == written + data[start..i]
    ensures after <= CDecoded(data)
  {
    assert data[start..end][..i - start] == data[start..i];
    PrefixOfSplit(written, data[start..end], DecodedFrom(data, end), CDecoded(data), i - start);
  }

  /** A byte decoded as a glyph keeps WrittenSoFar. */
  lemma CopiedGlyph(data: seq<byte>, written: seq<byte>, after: seq<byte>, i: nat)
    requires i < |data| && WrittenSoFar(data, written, i)
    requires !CsiAt(data, i) && !OscAt(data, i)
    requires after == written + GlyphBytes(data[i])
    ensures WrittenSoFar(data, after, i + 1)
  {
  }

  /** One pass of the outer loop over an escape sequence (CSI when csi,
      else OSC) at start: either all of it is copied and the decoding
      continues after it, or the output filled up and what was written is a
      prefix of the decoding. */
  method StepSequence(data: seq<byte>, start: nat, output: array<byte>, outStart: nat, csi: bool)
    returns (i: nat, outIdx: nat, ghost cut: bool)
    requires if csi then CsiAt(data, start) else OscAt(data, start)
    requires outStart + 10 < output.Length && WrittenSoFar(data, output[..outStart], start)
    modifies output
    ensures start < i <= |data| && outIdx < output.Length
    ensures !cut ==> WrittenSoFar(data, output[..outIdx], i)
    ensures cut ==> output[..outIdx] <= CDecoded(data)
    ensures cut ==> outIdx >= output.Length - 10
  {
    ghost var before := output[..outStart];
    ghost var end: nat;
    if csi {
      end := CsiEnd(data, start + 2);
      UnfoldCsi(data, start, end);
      i, outIdx := CopyCsi(data, start, output, outStart);
    } else {
      end := OscEnd(data, start + 2);
      UnfoldOsc(data, start, end);
      i, outIdx := CopyOsc(data, start, output, outStart);
    }
    cut := i < end;
    if cut {
      CopiedPart(data, before, output[..outIdx], start, i, end);
    } else {
      assert i == end;
      CopiedWhole(data, before, output[..outIdx], start, i);
    }
  }

  /** One pass of the outer loop over a byte that starts no escape sequence. */
  method StepGlyph(data: seq<byte>, start: nat, output: array<byte>, outStart: nat)
    returns (outIdx: nat)
    requires start < |data| && !CsiAt(data, start) && !OscAt(data, start)
    requires outStart + 10 < output.Length && WrittenSoFar(data, output[..outStart], start)
    modifies output
    ensures outIdx < output.Length && WrittenSoFar(data, output[..outIdx], start + 1)
  {
    ghost var before := output[..outStart];
    outIdx := CopyGlyph(data[start], output, outStart);
    CopiedGlyph(data, before, output[..outIdx], start);
  }

  /** decode_cp437_graphical: decodes data into output and NUL-terminates it.
      Every write stays inside output; the text written is a prefix of the
      full decoding, and all of it once the output had room to spare. */
  method DecodeCp437Graphical(data: seq<byte>, output: array<byte>) returns (outLen: nat)
    requires output.Length >= 10
    modifies output
    ensures outLen < output.Length && output[outLen] == 0
    ensures output[..outLen] <= CDecoded(data)
    ensures outLen < output.Length - 10 ==> output[..outLen] == CDecoded(data)
  {
    var outIdx: nat := 0;
    var i: nat := 0;
    ghost var cut := false;
    while i < |data| && outIdx < output.Length - 10
      invariant i <= |data| && outIdx < output.Length
      invariant !cut ==> WrittenSoFar(data, output[..outIdx], i)
      invariant cut ==> outIdx >= output.Length - 10 && output[..outIdx] <= CDecoded(data)
      decreases |data| - i
    {
      var b := data[i];
      if b == ESC && i + 1 < |data| && data[i + 1] == LBRACKET {
        i, outIdx, cut := StepSequence(data, i, output, outIdx, true);
      } else if b == ESC && i + 1 < |data| && data[i + 1] == RBRACKET {
        i, outIdx, cut := StepSequence(data, i, output, outIdx, false);
      } else {
        outIdx := StepGlyph(data, i, output, outIdx);
        i := i + 1;
      }
    }
    output[outIdx] := 0;
    outLen := outIdx;
  }

  /** The UTF-8 form of a string, character by character. */
  function Utf8Of(s: string): seq<byte>
  {
    if |s| == 0 then [] else Utf8(s[0] as int) + Utf8Of(s[1..])
  }

  /** cp437_to_utf8 applied to every byte, the strings joined. */
  function GlyphsOf(bs: seq<byte>): seq<byte>
  {
    if |bs| == 0 then [] else GlyphBytes(bs[0]) + GlyphsOf(bs[1..])
  }

  /** Every input byte yields at most three output bytes: a glyph is at most
      three bytes of UTF-8 and a sequence is copied byte for byte. */
  lemma {:induction false} DecodedLength(data: seq<byte>, i: nat)
    requires i <= |data|
    ensures |DecodedFrom(data, i)| <= 3 * (|data| - i)
    decreases |data| - i
  {
    if i < |data| {
      if CsiAt(data, i) {
        var e := CsiEnd(data, i + 2);
        UnfoldCsi(data, i, e);
        DecodedLength(data, e);
      } else if OscAt(data, i) {
        var e := OscEnd(data, i + 2);
        UnfoldOsc(data, i, e);
        DecodedLength(data, e);
      } else {
        GlyphBytesMeaning(data[i]);
        assert DecodedFrom(data, i) == GlyphBytes(data[i]) + DecodedFrom(data, i + 1);
        DecodedLength(data, i + 1);
      }
    }
  }

  /** Without ESC, the output is each byte's cp437_to_utf8 string in turn. */
  lemma {:induction false} DecodePlainBytes(data: seq<byte>, i: nat)
    requires i <= |data|
    requires forall k :: i <= k < |data| ==> data[k] != ESC
    ensures DecodedFrom(data, i) == GlyphsOf(data[i..])
    decreases |data| - i
  {
    if i < |data| {
      DecodePlainBytes(data, i + 1);
      assert data[i..][1..] == data[i + 1..];
    }
  }

  /** On ASCII bytes, cp437_to_utf8 is the UTF-8 form of the telnet client's
      glyph. */
  lemma {:induction false} AsciiGlyphsOfAgree(bs: seq<byte>)
    requires forall k :: 0 <= k < |bs| ==> 0x01 <= bs[k] < 0x80
    ensures GlyphsOf(bs) == Utf8Of(Glyphs(bs))
    decreases |bs|
  {
    if |bs| > 0 {
      AsciiGlyphsAgree(bs[0]);
      AsciiGlyphsOfAgree(bs[1..]);
      assert Glyphs(bs)[1..] == Glyphs(bs[1..]);
    }
  }

  /** On ASCII text without ESC and NUL, the C decoder writes exactly the
      UTF-8 form of what the telnet client's decoder emits, and the latter
      keeps nothing back. */
  lemma AgreesWithTelnetDecoder(data: seq<byte>, policy: StPolicy)
    requires forall k :: 0 <= k < |data| ==> 0x01 <= data[k] < 0x80 && data[k] != ESC
    ensures Decode(data, policy).pending == []
    ensures CDecoded(data) == Utf8Of(Decode(data, policy).text)
  {
    DecodePlain(data, policy);
    DecodePlainBytes(data, 0);
    assert data[0..] == data;
    AsciiGlyphsOfAgree(data);
  }

  /** A CSI with no final byte yet is written out at once by the C decoder,
      where the telnet client's decoder keeps all of it back for the next
      chunk. */
  lemma UnterminatedCsi(data: seq<byte>, policy: StPolicy)
    requires CsiAt(data, 0) && |data| < CSI_LIMIT
    requires forall k :: 2 <= k < |data| ==> !IsFinal(data[k])
    ensures CDecoded(data) == data
    ensures Decode(data, policy) == Decoded([], data)
  {
    assert CsiEnd(data, 2) == |data|;
    assert DecodedFrom(data, |data|) == [];
    assert DecodedFrom(data, 0) == data[0..|data|] + [];
    assert data[0..|data|] == data;
    assert FindCsiFinal(data, 2).None?;
  }

  /** cp437_to_utf8 draws ESC as the arrow U+2194, E2 86 94 in UTF-8. */
  lemma EscGlyphBytes()
    ensures GlyphBytes(ESC) == [0xE2, 0x86, 0x94]
  {
    assert ESC in TelnetCodec.GRAPHICAL_LOW && TelnetCodec.GRAPHICAL_LOW[ESC] == '\U{2194}';
    TableHitsListed(ESC);
    assert Utf8(0x2194) == [0xE2, 0x86, 0x94];
  }

  /** An ESC that starts neither CSI nor OSC is drawn as that arrow, and
      decoding goes on with the next byte. */
  lemma LoneEscape(data: seq<byte>)
    requires |data| > 0 && data[0] == ESC
    requires |data| == 1 || (data[1] != LBRACKET && data[1] != RBRACKET)
    ensures CDecoded(data) == [0xE2, 0x86, 0x94] + DecodedFrom(data, 1)
  {
    EscGlyphBytes();
    assert !CsiAt(data, 0) && !OscAt(data, 0);
  }
}
