# CP437 translator: a Dafny model

This project models the translation core of a telnet client for BBS systems
that draw with IBM code page 437. The client decodes each CP437 byte into a
Unicode glyph. ANSI escape sequences pass through unchanged. Typed text is
encoded back into CP437.

The core exists in three versions, and each is modelled as written.

- `cp437_telnet.py` holds:
  - the byte-to-glyph table `CP437_MAP`, the standard code page with 28
    low bytes redrawn as graphics;
  - its first-writer-wins inverse `UNICODE_TO_CP437`;
  - the escape-aware buffered decoder `decode_cp437_graphical_buffered` and
    its text-only wrapper `decode_cp437_graphical`;
  - the encoder `encode_to_cp437`;
  - the clear-screen fix-up of the reader task;
  - `parse_macro_keys`.
- `cp437_translator.py` has its own table, which also redraws BS, TAB, LF and
  CR. It has a plain bytewise `decode_cp437`, `encode_cp437` and
  `test_roundtrip`.
- `cp437_decode.c` has `cp437_to_utf8` and `decode_cp437_graphical`. The
  latter writes UTF-8 into a caller-sized array. It has no buffering and no
  scan bound.
- `fucktel.c` carries a copy of both C functions. The copy is the same code
  as `cp437_decode.c` at 17-47 and 50-137, so the `CDecoder` module models
  both files. The rest of `fucktel.c` modelled here is:
  - the port check of `main`;
  - the Ctrl+] scan of `telnet_loop`;
  - how a received chunk reaches `printf("%s")`.

The modules are as follows.

- `Codepage`: the standard code page 437 upper half, written out as a table
  (Unicode mapping file VENDORS/MICSFT/PC/CP437.TXT). It also holds the
  generic table builder, the first-writer inverse and the three-step
  character encoder, shared by both Python files.
- `TelnetCodec`: the tables and the encoder of `cp437_telnet.py`.
- `TelnetDecoder`: the buffered decoder.
  - `StepAt` is one pass of the loop on the remaining window, and `Decode`
    iterates it.
  - `DecodeGraphicalBuffered` and `ScanAt` are the loops themselves, proved
    against `Decode`.
  - A policy parameter selects how an OSC string terminator (ST, section
    8.3.143 of ECMA-48) ending exactly at the 200-byte scan bound is treated.
    `AsWritten` is the code; `WithinBound` is the corrected rule (see
    Findings).
- `TelnetShell`: the clear-screen fix-up and `parse_macro_keys`.
- `Translator`: `cp437_translator.py`.
- `CDecoder`: the C decoder.
  - `DecodedFrom` is the decoding with unlimited room.
  - `DecodeCp437Graphical` works on a Dafny `array` exactly as the C code
    does on `output`.
- `Fucktel`: the rest of `fucktel.c`, with `class Session` for the `running`
  flag and the blocks sent.

Some quirks are modelled as the code has them.

- In the Python decoder, a malformed CSI, OSC or designation emits U+2194
  twice and drops the byte after the ESC. This happens because the
  fall-through at `cp437_telnet.py:194-204` runs again after the
  malformed-sequence branch.
- The `'?'` fallbacks at `cp437_telnet.py:146, 210-213` can never fire,
  because `CP437_MAP` has all 256 keys. The model's table is a total
  256-entry sequence, so the branch has no counterpart.

## Model

| member | source | states |
|---|---|---|
| Codepage.StandardCode | cp437_telnet.py:38-39 | the standard code page decodes bytes below 0x80 to themselves and the upper half to code points in 0xA0..0xD7FF |
| Codepage.StandardInjective | cp437_telnet.py:38-39 | no two bytes share a standard glyph |
| Codepage.FirstWriterCharacterized | cp437_telnet.py:84-88 | the byte a first-writer-wins inverse keeps for a glyph is the lowest byte carrying it |
| Codepage.BuildMap | cp437_telnet.py:77-82 | the dict-filling loop gives each listed byte its graphical glyph and every other byte its standard glyph |
| Codepage.BuildInverse | cp437_telnet.py:84-88 | the loop builds an inverse whose keys are exactly the glyphs of the table; each key maps to the lowest byte carrying it, and table[inverse[c]] == c |
| Codepage.EncodeIn | cp437_telnet.py:218-229 | a glyph of the table encodes to the lowest byte carrying it, which decodes back to it; any other character encodes to its code point when that is at most 0xFF, else to '?' (0x3F) |
| Codepage.EncodeByDict | cp437_telnet.py:218-229 | looking a character up in the inverse dict agrees with the first-writer encoding of it |
| Codepage.FirstWriterIsCanonical | cp437_telnet.py:84-88 | when every byte has a canonical earlier byte with the same glyph, the first writer of a byte's glyph is its canonical byte |
| TelnetCodec.MapContents | cp437_telnet.py:42-82 | the listed bytes take their glyphs (0x01 is U+263A, 0x1B is U+2194, 0x7F is U+2302), and NUL, BS, TAB, LF, CR and 0x20-0x7E map to themselves |
| TelnetCodec.RankOfAll | cp437_telnet.py:77-82 | the table is one-to-one except that 0xF4 and 0xF5 share glyphs with 0x1E and 0x1F: one left inverse maps every glyph back to its canonical byte |
| TelnetCodec.IntegralHalvesCollide | cp437_telnet.py:72-73 | 0xF4 and 0xF5 carry the same glyphs as 0x1E and 0x1F (U+2320, U+2321) |
| TelnetCodec.LowestByteWins | cp437_telnet.py:84-88 | the first writer of each byte's glyph is the byte itself, except 0xF4 and 0xF5, whose first writers are 0x1E and 0x1F |
| TelnetCodec.BuildTables | cp437_telnet.py:77-88 | the two module-level dicts: the table, and an inverse that sends every byte's glyph to its canonical byte |
| TelnetCodec.InverseKeepsLowest | cp437_telnet.py:84-88 | in any first-writer inverse, UNICODE_TO_CP437[CP437_MAP[b]] is b, or 0x1E and 0x1F for 0xF4 and 0xF5 |
| TelnetCodec.EncodeChar | cp437_telnet.py:221-228 | a character of CP437_MAP encodes to a byte that decodes back to it; any other character encodes to its Latin-1 byte if it has one, else '?' |
| TelnetCodec.EncodeGlyph | cp437_telnet.py:218-223 | each glyph encodes to its canonical byte |
| TelnetCodec.EncodeToCp437 | cp437_telnet.py:218-229 | the loop emits exactly one byte per character: the inverse-dict byte, else the code point up to 0xFF, else '?' |
| TelnetDecoder.FindCsiFinal | cp437_telnet.py:128-134 | the CSI scan returns the first final byte (0x40-0x7E) below offset 100, or reports that none exists in range |
| TelnetDecoder.FindOscEnd | cp437_telnet.py:155-170 | the OSC scan returns the first BEL or ESC '\' below offset 200, or reports that none exists in range |
| TelnetDecoder.StepAt | cp437_telnet.py:107-213 | every pass that does not stop consumes at least one byte and at most the window, so the loop terminates, and emits exactly one character per byte it consumes; a pass stops only on a window that starts with ESC and is shorter than 200 bytes |
| TelnetDecoder.ScanAt | cp437_telnet.py:108-213 | the loop body, flags and inner scans included, stops exactly when StepAt leaves the window pending; otherwise it emits StepAt's text and advance |
| TelnetDecoder.Decode | cp437_telnet.py:97-215 | no byte is lost: the text has one character per consumed byte, and the text and the pending bytes together are as long as the input |
| TelnetDecoder.DecodeGraphicalBuffered | cp437_telnet.py:97-215 | the returned text and incomplete bytes are exactly Decode of the input |
| TelnetDecoder.PendingIsBoundedSuffix | cp437_telnet.py:115-200 | pending is empty, or a suffix of the input that starts with ESC, is shorter than 200 bytes and is still undecidable |
| TelnetDecoder.PendingExactly | cp437_telnet.py:117-200 | a window stays pending exactly when it is one of four cases: a lone ESC; ESC [ with no final byte and under 100 bytes; ESC ] with no terminator and under 200 bytes; or ESC and a designator with nothing after |
| TelnetDecoder.DecodeRegularByte | cp437_telnet.py:206-209 | a byte other than ESC becomes its CP437_MAP glyph and decoding goes on after it |
| TelnetDecoder.DecodeCsi | cp437_telnet.py:125-141 | a CSI whose first final byte sits below offset 100 is copied through verbatim as Latin-1 |
| TelnetDecoder.DecodeOscBel | cp437_telnet.py:157-163 | an OSC ended by BEL below offset 200 is copied through verbatim, the BEL included |
| TelnetDecoder.DecodeOscSt | cp437_telnet.py:164-169 | an OSC ended by ESC '\' is copied through verbatim, both terminator bytes included |
| TelnetDecoder.DecodeCharset | cp437_telnet.py:183-187 | ESC ( ) * or + followed by 0 A B or U is copied through as three Latin-1 characters |
| TelnetDecoder.DecodeMalformed | cp437_telnet.py:142-204 | an unterminated CSI at 100 bytes, an unterminated OSC at 200, or a designation with a bad final byte gives U+2194 twice and drops the byte after the ESC |
| TelnetDecoder.DecodeOtherEscape | cp437_telnet.py:193-204 | ESC followed by any other byte gives one U+2194, and the next byte is decoded normally |
| TelnetDecoder.DecodePlain | cp437_telnet.py:206-209 | input without ESC decodes bytewise through CP437_MAP with nothing pending |
| TelnetDecoder.StepExtends | cp437_telnet.py:124-191 | under the corrected ST rule, a pass that has emitted emits the same when more bytes follow |
| TelnetDecoder.FragmentationInvariant | cp437_telnet.py:363-369 | under the corrected ST rule, take t1 and p from decoding A, then t2 and q from decoding p ++ B: t1 ++ t2 is the text of decoding A ++ B and q is its pending |
| TelnetDecoder.AsWrittenSplitChangesOutput | cp437_telnet.py:157-169 | as written, an OSC whose ESC '\' straddles offset 200 decodes differently whole and split at that offset |
| TelnetDecoder.DecodeGraphical | cp437_telnet.py:91-94 | the text is never longer than the input, and fewer than 200 bytes at its end are lost |
| TelnetDecoder.GraphicalLosesSplitCsi | cp437_telnet.py:248-250 | the incremental decoder, which calls decode_cp437_graphical, drops a pending ESC [ and prints the rest of the CSI as text |
| TelnetDecoder.GluedCsiPassesThrough | cp437_telnet.py:363-369 | with the pending ESC [ prepended, the next chunk completes the CSI, which passes through |
| TelnetDecoder.DecodesSmileys | cp437_telnet.py:43-45 | bytes 01 02 03 decode to smiley, inverse smiley and heart |
| TelnetDecoder.DecodesSaveCursorAsGlyph | cp437_telnet.py:193-204 | ESC 7 decodes to U+2194 followed by '7' |
| TelnetDecoder.EncodeThenDecode | cp437_telnet.py:218-229 | text made of table glyphs other than U+2194 survives encoding and then decoding |
| TelnetDecoder.DecodeThenEncode | cp437_telnet.py:206-229 | bytes without ESC, decoded and re-encoded, come back unchanged, except 0xF4 and 0xF5, which come back as 0x1E and 0x1F |
| TelnetShell.FindFrom | cp437_telnet.py:376-379 | the search returns the first occurrence of the pattern at or after the start, or reports that there is none |
| TelnetShell.FixClearScreen | cp437_telnet.py:376-379 | the fix-up either leaves the chunk as it is or inserts a single ESC[H into it |
| TelnetShell.FixClearScreenHomes | cp437_telnet.py:376-379 | after the fix-up, a chunk that clears the screen still clears it and now homes the cursor; a chunk without ESC[2J, or with ESC[H anywhere, is unchanged |
| TelnetShell.FixClearScreenInsertsOnce | cp437_telnet.py:376-379 | ESC[H is inserted right after the first ESC[2J only, and nothing else changes |
| TelnetShell.FixClearScreenIdempotent | cp437_telnet.py:376-379 | applying the fix-up twice equals applying it once |
| TelnetShell.MacroKey | cp437_telnet.py:302-314 | h, j, k and l become the three-character sequences ESC [ D, B, A, C; every other character is sent as itself |
| TelnetShell.ParseMacroKeys | cp437_telnet.py:291-316 | the loop returns one element per character: the key-map sequence for h, j, k and l, the character itself otherwise |
| TelnetShell.MacroKeyInjective | cp437_telnet.py:302-314 | different characters expand to different strings |
| Translator.SharedGlyphs | cp437_translator.py:19-59 | the table agrees with the telnet client's table on every byte except BS, TAB, LF and CR |
| Translator.MapContents | cp437_translator.py:19-59 | every byte from 0x01 to 0x1F and 0x7F is redrawn, 0x08 0x09 0x0A 0x0D included, and NUL and 0x20-0x7E map to themselves |
| Translator.RedrawnGlyphsAreNew | cp437_translator.py:27-32 | the four extra glyphs do not occur in the telnet client's table |
| Translator.RankOfAll | cp437_translator.py:54-59 | the table is one-to-one except for the 0xF4/0xF5 collision |
| Translator.IntegralHalvesCollide | cp437_translator.py:49-50 | 0xF4 and 0xF5 carry the same glyphs as 0x1E and 0x1F |
| Translator.LowestByteWins | cp437_translator.py:61-65 | the first writer of each byte's glyph is the byte itself, except 0xF4 and 0xF5 |
| Translator.InverseKeepsLowest | cp437_translator.py:61-65 | in any first-writer inverse, UNICODE_TO_CP437[CP437_MAP[b]] is the canonical byte of b |
| Translator.BuildTables | cp437_translator.py:54-65 | the two dicts: the table, and its first-writer inverse |
| Translator.DecodeCp437 | cp437_translator.py:68-72 | a str is returned unchanged; bytes give a string of the same length whose k-th character is CP437_MAP[data[k]] |
| Translator.EncodeCp437 | cp437_translator.py:75-88 | bytes are returned unchanged; a str gives one byte per character by the inverse-dict, Latin-1, '?' chain |
| Translator.EncodeThenDecode | cp437_translator.py:145-149 | decoding after encoding gives the text back if and only if every character of it is a glyph of CP437_MAP |
| Translator.DecodeThenEncode | cp437_translator.py:68-88 | encoding after decoding gives the bytes back, except that 0xF4 and 0xF5 become 0x1E and 0x1F |
| Translator.TestRoundtrip | cp437_translator.py:145-154 | the check reports a match if and only if every character of the text is a glyph of CP437_MAP |
| CDecoder.Utf8 | cp437_decode.c:17-47 | the UTF-8 form of a code point has one to four bytes by range, the first byte carries an ASCII code unchanged, and otherwise the bytes are a lead byte and continuation bytes |
| CDecoder.Utf8RoundTrip | cp437_decode.c:17-47 | reading the UTF-8 bytes of a code point back gives the code point |
| CDecoder.Cp437ToUtf8 | cp437_decode.c:50-72 | the table scan, then the single-byte fallback, returns the bytes of GlyphBytes(b) |
| CDecoder.GlyphBytes | cp437_decode.c:50-72 | the string cp437_to_utf8 returns is at most three bytes long, and it is empty only for NUL |
| CDecoder.GlyphBytesMeaning | cp437_decode.c:50-72 | the 28 table bytes give the 2- or 3-byte UTF-8 form of the telnet client's glyph; NUL gives the empty string; every other byte gives itself |
| CDecoder.TableHitsListed | cp437_decode.c:17-56 | the scan finds each byte of the telnet client's GRAPHICAL_LOW, with the same glyph |
| CDecoder.TableMissesUnlisted | cp437_decode.c:17-56 | the scan finds no other byte |
| CDecoder.AsciiGlyphsAgree | cp437_decode.c:50-66 | from 0x01 to 0x7F the C glyph is the UTF-8 form of the telnet client's CP437_MAP glyph |
| CDecoder.CDecoded | cp437_decode.c:75-137 | with unlimited room, the decoder writes at most three bytes per input byte |
| CDecoder.CsiEnd | cp437_decode.c:92-99 | the copy of a CSI ends just after its first final byte, or at the end of the input |
| CDecoder.OscEnd | cp437_decode.c:108-120 | the copy of an OSC ends just after its first BEL or ESC '\': no BEL and no ESC '\' comes before that terminator, and an end at the end of the input without a terminator there means the OSC has none |
| CDecoder.CopyCsi | cp437_decode.c:85-100 | the CSI loop writes the sequence bytes in order and stays inside the array; if it stops before the final byte, it has reached the last cell |
| CDecoder.CopyOsc | cp437_decode.c:101-121 | the OSC loop writes the sequence bytes in order and stays inside the array; if it stops before the terminator, it has reached the last two cells |
| CDecoder.OscTurn | cp437_decode.c:109-119 | one OSC iteration copies one byte, or two for ESC '\', and says whether the terminator has been copied |
| CDecoder.CopyGlyph | cp437_decode.c:125-132 | the regular branch appends the whole cp437_to_utf8 string, which always fits while ten cells remain |
| CDecoder.StepSequence | cp437_decode.c:83-122 | after one escape-sequence branch, the output is still the decoding so far, or a prefix of it with the array full |
| CDecoder.StepGlyph | cp437_decode.c:125-133 | after one regular byte, the output is still the decoding so far |
| CDecoder.DecodeCp437Graphical | cp437_decode.c:75-137 | every write is inside output; a NUL is written at out_idx < output_size; the text is a prefix of the full decoding, and all of it when ten cells were left over |
| CDecoder.DecodedLength | cp437_decode.c:79-133 | the full decoding is at most three bytes per input byte |
| CDecoder.DecodePlainBytes | cp437_decode.c:125-133 | input without ESC decodes to the cp437_to_utf8 strings of its bytes, joined |
| CDecoder.AsciiGlyphsOfAgree | cp437_decode.c:50-66 | on bytes 0x01-0x7F, the joined C glyphs are the UTF-8 form of the telnet client's glyphs |
| CDecoder.AgreesWithTelnetDecoder | cp437_decode.c:75-137 | on ASCII without ESC or NUL, the C decoder writes exactly the UTF-8 form of the Python decoder's text, and the Python decoder keeps nothing pending |
| CDecoder.UnterminatedCsi | cp437_decode.c:92-99 | a CSI with no final byte is written out whole by the C decoder, while the Python decoder keeps all of it pending |
| CDecoder.EscGlyphBytes | cp437_decode.c:40 | ESC is drawn as U+2194, E2 86 94 in UTF-8 |
| CDecoder.LoneEscape | cp437_decode.c:83-133 | an ESC that is last, or not followed by [ or ], is drawn as U+2194, and decoding goes on with the next byte |
| Fucktel.Atoi | fucktel.c:346 | a result other than 0 needs a digit in the argument, so an argument without digits reads as 0 |
| Fucktel.DecimalRoundTrip | fucktel.c:346 | reading a decimal numeral back gives its number |
| Fucktel.AtoiDecimal | fucktel.c:346 | atoi reads a numeral as its number and stops at the first non-digit |
| Fucktel.MainArguments | fucktel.c:334-351 | fewer than two arguments give the usage message; the port is 23 by default; an explicit port is accepted if and only if atoi gives 1..65535, and is otherwise reported as invalid |
| Fucktel.PortArgument | fucktel.c:345-350 | every port 1..65535 written in decimal is accepted as itself, and an argument without digits is refused |
| Fucktel.UpToNul | fucktel.c:288 | printf("%s") shows a NUL-free prefix that stops at the first NUL |
| Fucktel.ShowChunk | fucktel.c:284-289 | for a chunk of up to 4095 bytes, the 16384-byte buffer is never short: what is shown is the whole decoding up to its first NUL |
| Fucktel.NulInSequenceHidesRest | fucktel.c:286-288 | a NUL copied inside a CSI cuts off what printf shows |
| Fucktel.Session.constructor | fucktel.c:71 | the session starts running, with nothing sent |
| Fucktel.Session.HandleInput | fucktel.c:300-317 | running stays set if and only if the block has no 0x1D; the block is sent whole exactly then; no block with 0x1D is ever sent |

## Left out

- Sockets, telnetlib3, asyncio tasks, termios raw mode, signals, `select` and
  the stdin reading loops are left out. So are the TTYPE patch,
  `SessionLogger` and the console printing helpers. They are all I/O and
  foreign libraries.
- The codec registration classes are left out. `CP437IncrementalDecoder`
  calls `decode_cp437_graphical` and so drops pending bytes;
  `TelnetDecoder.GraphicalLosesSplitCsi` states the effect.
- Python's `cp437` codec is replaced by the literal table of the Unicode
  Consortium mapping file, written out in `Codepage.UpperRow`.
- Python strings are sequences of code points. The model's `char` excludes
  surrogates, so lone surrogate characters in a `str` are not modelled.
- CDecoder.DecodeCp437Graphical: requires `output_size >= 10`. Below that,
  `output_size - 10` wraps around as `size_t` in C, and the loop writes out of
  bounds.
- CDecoder.Cp437ToUtf8: the static `single_byte` buffer the C code returns is
  returned by value. Its aliasing between calls is not modelled.
- CDecoder.GlyphBytes: bytes from 0x80 up are copied raw, as the C code does.
  The model does not state that these bytes are not valid UTF-8.
- Fucktel.Atoi: models `atoi` over unbounded integers. Overflow of a very long
  numeral, which is undefined in C, is not modelled.
- Fucktel.Session.HandleInput: a failed `send`, and the signal handler that
  also clears `running`, are left out.
- Fucktel.ShowChunk: models `printf("%s")` as the bytes up to the first NUL.
  Terminal interpretation is not modelled.

## Findings

| source | as written | input that shows it | evidently intended | confidence | as-written member | corrected member |
|---|---|---|---|---|---|---|
| cp437_telnet.py:157-169 | The OSC scan stops at j < 200 but reads `remaining[j:j+2]`. An ESC at offset 199 with the backslash at offset 200 counts as a terminator only when the backslash is in the same chunk. So the result depends on where the chunks are cut, against the buffering contract of lines 98-101 and its use at 363-369. | `StraddlingOsc()` (ESC ] then 197 'x' then ESC) followed by '\'. Whole, it passes through as one OSC. Cut after byte 200, the first chunk is declared malformed and starts with U+2194. | An ST counts only when both of its bytes lie within the scan bound, so that decoding is the same however the input is chunked | not executed | TelnetDecoder.AsWrittenSplitChangesOutput | TelnetDecoder.FragmentationInvariant |
