/**
 * The escape-aware buffered decoder of cp437_telnet.py (lines 91-215).
 *
 * The decoder walks a byte window. A byte other than ESC goes through
 * CP437_MAP. An ESC opens a CSI (ESC '[' ... final byte 0x40-0x7E, section
 * 5.4 of ECMA-48), an OSC (ESC ']' ... BEL or ST = ESC '\', sections 8.3.89
 * and 8.3.143 of ECMA-48) or a character-set designation (ESC '(' ')' '*' '+'
 * then '0' 'A' 'B' 'U', as in ISO 2022); a complete one is copied through as
 * Latin-1 characters, an incomplete one is handed back as `pending`.
 *
 * The specification is a step function on the remaining window (StepAt) and
 * its iteration (Decode). The policy parameter selects how an ST that ends
 * exactly at the OSC scan bound is treated: AsWritten is the code, WithinBound
 * the corrected rule under which decoding is invariant under chunking.
 */
module TelnetDecoder {
  import opened Codepage
  import opened TelnetCodec

  const ESC: byte := 0x1B
  const BEL: byte := 0x07
  const LBRACKET: byte := 0x5B
  const RBRACKET: byte := 0x5D
  const BACKSLASH: byte := 0x5C

  /** How far from the ESC a CSI final byte is looked for. */
  const CSI_LIMIT: nat := 100
  /** How far from the ESC an OSC terminator is looked for. */
  const OSC_LIMIT: nat := 200

  /** Whether an ST whose backslash sits at offset OSC_LIMIT still counts. */
  datatype StPolicy = AsWritten | WithinBound

  /** CSI final byte, 0x40-0x7E. */
  predicate IsFinal(b: byte)
  {
    0x40 <= b <= 0x7E
  }

  /** The intermediate byte of a designation: '(' ')' '*' '+'. */
  predicate IsDesignator(b: byte)
  {
    0x28 <= b <= 0x2B
  }

  /** The final byte of an accepted designation: '0' 'A' 'B' 'U'. */
  predicate IsCharsetFinal(b: byte)
  {
    b == 0x30 || b == 0x41 || b == 0x42 || b == 0x55
  }

  /** bytes.decode('latin-1'): every byte becomes the character with its value. */
  function Latin1(bs: seq<byte>): (s: string)
    ensures |s| == |bs|
    ensures forall k :: 0 <= k < |bs| ==> s[k] as int == bs[k] as int
  {
    seq(|bs|, k requires 0 <= k < |bs| => bs[k] as int as char)
  }

  /** CP437_MAP applied to every byte. */
  function Glyphs(bs: seq<byte>): (s: string)
    ensures |s| == |bs|
    ensures forall k :: 0 <= k < |bs| ==> s[k] == Cp437Map()[bs[k]]
  {
    seq(|bs|, k requires 0 <= k < |bs| => Cp437Map()[bs[k]])
  }

  /** The glyph the decoder emits for an ESC it does not pass through. */
  function EscGlyph(): char
  {
    Cp437Map()[ESC]
  }

  /** An OSC ends at offset k with BEL. */
  predicate BelAt(w: seq<byte>, k: nat)
  {
    k < |w| && w[k] == BEL
  }

  /** An OSC ends at offsets k, k+1 with ST; AsWritten lets k+1 reach OSC_LIMIT. */
  predicate StAt(w: seq<byte>, k: nat, policy: StPolicy)
  {
    k + 1 < |w| && w[k] == ESC && w[k + 1] == BACKSLASH &&
    (policy == AsWritten || k + 1 < OSC_LIMIT)
  }

  predicate TerminatorAt(w: seq<byte>, k: nat, policy: StPolicy)
  {
    BelAt(w, k) || StAt(w, k, policy)
  }

  /** The CSI scan: the first final byte at an offset in [j, min(|w|, CSI_LIMIT)). */
  function FindCsiFinal(w: seq<byte>, j: nat): (r: Option<nat>)
    decreases |w| - j
    ensures r.Some? ==> j <= r.value < |w| && r.value < CSI_LIMIT && IsFinal(w[r.value])
    ensures r.Some? ==> forall k :: j <= k < r.value ==> !IsFinal(w[k])
    ensures r.None? <==> forall k :: j <= k < |w| && k < CSI_LIMIT ==> !IsFinal(w[k])
  {
    if j >= |w| || j >= CSI_LIMIT then None
    else if IsFinal(w[j]) then Some(j)
    else FindCsiFinal(w, j + 1)
  }

  /** The OSC scan: the first terminator at an offset in [j, min(|w|, OSC_LIMIT)). */
  function FindOscEnd(w: seq<byte>, j: nat, policy: StPolicy): (r: Option<nat>)
    decreases |w| - j
    ensures r.Some? ==> j <= r.value < |w| && r.value < OSC_LIMIT && TerminatorAt(w, r.value, policy)
    ensures r.Some? ==> forall k :: j <= k < r.value ==> !TerminatorAt(w, k, policy)
    ensures r.None? <==> forall k :: j <= k < |w| && k < OSC_LIMIT ==> !TerminatorAt(w, k, policy)
  {
    if j >= |w| || j >= OSC_LIMIT then None
    else if TerminatorAt(w, j, policy) then Some(j)
    else FindOscEnd(w, j + 1, policy)
  }

  /** What one pass of the loop does at the head of window w. */
  datatype Step = Emit(text: string, consumed: nat) | Pending

  /** One iteration of the decoder loop on the remaining window w. */
  function StepAt(w: seq<byte>, policy: StPolicy): (s: Step)
    requires |w| > 0
    ensures s.Emit? ==> 1 <= s.consumed <= |w| && |s.text| == s.consumed
    ensures s.Pending? ==> w[0] == ESC && |w| < OSC_LIMIT
  {
    if w[0] != ESC then Emit([Cp437Map()[w[0]]], 1)
    else if |w| < 2 then Pending
    else if w[1] == LBRACKET then
      var f := FindCsiFinal(w, 2);
      if f.Some? then Emit(Latin1(w[..f.value + 1]), f.value + 1)
      else if |w| >= CSI_LIMIT then Emit([EscGlyph(), EscGlyph()], 2)
      else Pending
    else if w[1] == RBRACKET then
      var e := FindOscEnd(w, 2, policy);
      if e.Some? then
        var n := if w[e.value] == BEL then e.value + 1 else e.value + 2;
        Emit(Latin1(w[..n]), n)
      else if |w| >= OSC_LIMIT then Emit([EscGlyph(), EscGlyph()], 2)
      else Pending
    else if IsDesignator(w[1]) then
      if |w| == 2 then Pending
      else if IsCharsetFinal(w[2]) then Emit(Latin1(w[..3]), 3)
      else Emit([EscGlyph(), EscGlyph()], 2)
    else Emit([EscGlyph()], 1)
  }

  /** The result of a buffered decode: text, and the unconsumed tail. */
  datatype Decoded = Decoded(text: string, pending: seq<byte>)

  /** decode_cp437_graphical_buffered as a function of its input. Every byte
      it consumes becomes exactly one character, and every other byte is kept
      back: no byte is lost. */
  function Decode(w: seq<byte>, policy: StPolicy): (d: Decoded)
    ensures |d.text| + |d.pending| == |w|
    decreases |w|
  {
    if |w| == 0 then Decoded([], [])
    else
      var s := StepAt(w, policy);
      if s.Pending? then Decoded([], w)
      else
        var rest := Decode(w[s.consumed..], policy);
        Decoded(s.text + rest.text, rest.pending)
  }

  /** decode_cp437_graphical_buffered: the outer loop. Each pass decodes the
      head of the remaining window (ScanAt) and either moves on or stops with
      the window as `incomplete`. */
  method DecodeGraphicalBuffered(data: seq<byte>, policy: StPolicy) returns (text: string, incomplete: seq<byte>)
    ensures Decoded(text, incomplete) == Decode(data, policy)
  {
    text := [];
    incomplete := [];
    var i: nat := 0;
    assert data[0..] == data;
    while i < |data|
      invariant 0 <= i <= |data| && incomplete == []
      invariant Decode(data, policy) == Resumed(data, policy, text, i)
      decreases |data| - i
    {
      var emitted, next, stop := Pass(data, i, policy, text);
      if stop {
        incomplete := data[i..];
        break;
      }
      text := text + emitted;
      i := next;
    }
  }

  /** One pass of the outer loop at offset i, with what it means for the
      decode of the whole input: either the decode ends here with data[i:]
      pending, or it goes on from offset `next` with `emitted` added. */
  method Pass(data: seq<byte>, i: nat, policy: StPolicy, ghost text: string)
    returns (emitted: string, next: nat, stop: bool)
    requires i < |data| && Decode(data, policy) == Resumed(data, policy, text, i)
    ensures stop ==> Decode(data, policy) == Decoded(text, data[i..])
    ensures !stop ==> i < next <= |data|
    ensures !stop ==> Decode(data, policy) == Resumed(data, policy, text + emitted, next)
  {
    var advance;
    emitted, advance, stop := ScanAt(data[i..], policy);
    next := i + advance;
    if stop {
      PendingStops(data, i, policy, text);
    } else {
      Advance(data, i, policy, text, emitted, advance, next);
    }
  }

  /** The text so far followed by the decode of data[i:]; the loop keeps it
      equal to the decode of data. */
  function Resumed(data: seq<byte>, policy: StPolicy, text: string, i: nat): Decoded
    requires i <= |data|
  {
    Decoded(text + Decode(data[i..], policy).text, Decode(data[i..], policy).pending)
  }

  /** One pass of the loop of decode_cp437_graphical_buffered on the window
      remaining = data[i:], with its found_sequence / found_terminator flags:
      `stop` is the loop's break on an incomplete sequence; otherwise the pass
      appends `emitted` to the result and advances i by `advance`. */
  method ScanAt(remaining: seq<byte>, policy: StPolicy) returns (emitted: string, advance: nat, stop: bool)
    requires |remaining| > 0
    ensures stop <==> StepAt(remaining, policy).Pending?
    ensures !stop ==> StepAt(remaining, policy) == Emit(emitted, advance)
  {
    emitted, advance, stop := [], 0, false;
    var b := remaining[0];
    if b == ESC {
      if |remaining| < 2 {
        stop := true;
        return;
      }
      var foundSequence := false;
      if remaining[1] == LBRACKET {
        var j := 2;
        var foundTerminator := false;
        while j < |remaining| && j < CSI_LIMIT
          invariant 2 <= j <= |remaining| && j <= CSI_LIMIT
          invariant forall k :: 2 <= k < j ==> !IsFinal(remaining[k])
          decreases |remaining| - j
        {
          if IsFinal(remaining[j]) {
            foundTerminator := true;
            break;
          }
          j := j + 1;
        }
        if foundTerminator {
          assert FindCsiFinal(remaining, 2) == Some(j);
          emitted := Latin1(remaining[..j + 1]);
          advance := j + 1;
          foundSequence := true;
        } else if j >= CSI_LIMIT {
          assert FindCsiFinal(remaining, 2).None?;
          emitted := [Cp437Map()[b]];
          advance := 1;
        } else {
          stop := true;
          return;
        }
      } else if remaining[1] == RBRACKET {
        var j := 2;
        var foundTerminator := false;
        while j < |remaining| && j < OSC_LIMIT
          invariant 2 <= j <= |remaining| && j <= OSC_LIMIT
          invariant forall k :: 2 <= k < j ==> !TerminatorAt(remaining, k, policy)
          invariant !foundSequence
          decreases |remaining| - j
        {
          if remaining[j] == BEL {
            assert TerminatorAt(remaining, j, policy);
            assert FindOscEnd(remaining, 2, policy) == Some(j);
            emitted := Latin1(remaining[..j + 1]);
            advance := j + 1;
            foundSequence := true;
            foundTerminator := true;
            break;
          } else if j + 1 < |remaining| && remaining[j] == ESC && remaining[j + 1] == BACKSLASH &&
                    (policy == AsWritten || j + 1 < OSC_LIMIT) {
            assert TerminatorAt(remaining, j, policy);
            assert FindOscEnd(remaining, 2, policy) == Some(j);
            emitted := Latin1(remaining[..j + 2]);
            advance := j + 2;
            foundSequence := true;
            foundTerminator := true;
            break;
          }
          j := j + 1;
        }
        if !foundTerminator {
          if j >= OSC_LIMIT {
            assert FindOscEnd(remaining, 2, policy).None?;
            emitted := [Cp437Map()[b]];
            advance := 1;
          } else {
            stop := true;
            return;
          }
        }
      } else if |remaining| > 2 && IsDesignator(remaining[1]) {
        if IsCharsetFinal(remaining[2]) {
          emitted := Latin1(remaining[..3]);
          advance := 3;
          foundSequence := true;
        } else {
          emitted := [Cp437Map()[b]];
          advance := 1;
        }
      }
      if !foundSequence {
        if IsDesignator(remaining[1]) || remaining[1] == LBRACKET {
          if |remaining| < 3 {
            stop := true;
            return;
          }
        }
        emitted := emitted + [Cp437Map()[b]];
        advance := advance + 1;
      }
      assert emitted == StepAt(remaining, policy).text;
    } else {
      emitted := [Cp437Map()[b]];
      advance := 1;
    }
  }

  /** A window the step function leaves pending ends the decode. */
  lemma PendingStops(data: seq<byte>, i: nat, policy: StPolicy, text: string)
    requires i < |data| && StepAt(data[i..], policy).Pending?
    requires Decode(data, policy) == Resumed(data, policy, text, i)
    ensures Decode(data, policy) == Decoded(text, data[i..])
  {
    assert text + [] == text;
  }

  /** The loop invariant survives one step that emits t and consumes n bytes. */
  lemma Advance(data: seq<byte>, i: nat, policy: StPolicy, text: string, t: string, n: nat, next: nat)
    requires i < |data| && StepAt(data[i..], policy) == Emit(t, n) && next == i + n
    requires Decode(data, policy) == Resumed(data, policy, text, i)
    ensures next <= |data| && Decode(data, policy) == Resumed(data, policy, text + t, next)
  {
    var w := data[i..];
    assert w[n..] == data[next..];
    DecodeEmits(w, policy);
    var rest := Decode(data[next..], policy);
    Regroup(Decode(data, policy), Decode(w, policy), rest, text, t);
    assert Resumed(data, policy, text + t, next) == Decoded(text + t + rest.text, rest.pending);
  }

  lemma DecodeEmits(w: seq<byte>, policy: StPolicy)
    requires |w| > 0 && StepAt(w, policy).Emit?
    ensures Decode(w, policy) ==
            Decoded(StepAt(w, policy).text + Decode(w[StepAt(w, policy).consumed..], policy).text,
                    Decode(w[StepAt(w, policy).consumed..], policy).pending)
  {
  }

  lemma Regroup(whole: Decoded, mid: Decoded, rest: Decoded, text: string, t: string)
    requires whole == Decoded(text + mid.text, mid.pending)
    requires mid == Decoded(t + rest.text, rest.pending)
    ensures whole == Decoded(text + t + rest.text, rest.pending)
  {
    assert text + (t + rest.text) == text + t + rest.text;
  }

  /** `pending` is empty or a suffix of the input that starts with ESC, is
      shorter than the OSC scan bound, and is a window the step function
      cannot decide yet. */
  lemma {:induction false} PendingIsBoundedSuffix(w: seq<byte>, policy: StPolicy)
    ensures var p := Decode(w, policy).pending;
            |p| <= |w| && p == w[|w| - |p|..] &&
            (p == [] || (p[0] == ESC && |p| < OSC_LIMIT && StepAt(p, policy).Pending?))
    decreases |w|
  {
    if |w| == 0 {
    } else if StepAt(w, policy).Pending? {
      assert Decode(w, policy).pending == w;
    } else {
      var n := StepAt(w, policy).consumed;
      PendingIsBoundedSuffix(w[n..], policy);
      DecodeEmits(w, policy);
      var p := Decode(w[n..], policy).pending;
      assert Decode(w, policy).pending == p;
      assert w[n..][|w[n..]| - |p|..] == w[|w| - |p|..];
    }
  }

  /** The step leaves a window pending exactly in the four listed situations:
      a lone ESC, an unfinished CSI shorter than its bound, an unterminated OSC
      shorter than its bound, and a designation missing its final byte. */
  lemma PendingExactly(w: seq<byte>, policy: StPolicy)
    requires |w| > 0
    ensures StepAt(w, policy).Pending? <==>
            w[0] == ESC &&
            (|w| < 2 ||
             (w[1] == LBRACKET && |w| < CSI_LIMIT && forall k :: 2 <= k < |w| ==> !IsFinal(w[k])) ||
             (w[1] == RBRACKET && |w| < OSC_LIMIT && forall k :: 2 <= k < |w| ==> !TerminatorAt(w, k, policy)) ||
             (IsDesignator(w[1]) && |w| == 2))
  {
  }

  /** Text t followed by the decode d. */
  function Then(t: string, d: Decoded): Decoded
  {
    Decoded(t + d.text, d.pending)
  }

  /** A byte other than ESC becomes its CP437_MAP glyph. */
  lemma DecodeRegularByte(w: seq<byte>, policy: StPolicy)
    requires |w| > 0 && w[0] != ESC
    ensures Decode(w, policy) == Then([Cp437Map()[w[0]]], Decode(w[1..], policy))
  {
  }

  /** A CSI whose first final byte sits at offset f < 100 is copied through. */
  lemma DecodeCsi(w: seq<byte>, f: nat, policy: StPolicy)
    requires |w| > 1 && w[0] == ESC && w[1] == LBRACKET
    requires 2 <= f < |w| && f < CSI_LIMIT && IsFinal(w[f])
    requires forall k :: 2 <= k < f ==> !IsFinal(w[k])
    ensures Decode(w, policy) == Then(Latin1(w[..f + 1]), Decode(w[f + 1..], policy))
  {
    assert FindCsiFinal(w, 2) == Some(f);
  }

  /** An OSC whose first terminator is a BEL at offset e < 200 is copied through. */
  lemma DecodeOscBel(w: seq<byte>, e: nat, policy: StPolicy)
    requires |w| > 1 && w[0] == ESC && w[1] == RBRACKET
    requires 2 <= e < |w| && e < OSC_LIMIT && w[e] == BEL
    requires forall k :: 2 <= k < e ==> !TerminatorAt(w, k, policy)
    ensures Decode(w, policy) == Then(Latin1(w[..e + 1]), Decode(w[e + 1..], policy))
  {
    assert TerminatorAt(w, e, policy);
    assert FindOscEnd(w, 2, policy) == Some(e);
    assert StepAt(w, policy) == Emit(Latin1(w[..e + 1]), e + 1);
    DecodeEmits(w, policy);
  }

  /** An OSC whose first terminator is an ST at offset e is copied through,
      the ST included. */
  lemma DecodeOscSt(w: seq<byte>, e: nat, policy: StPolicy)
    requires |w| > 1 && w[0] == ESC && w[1] == RBRACKET
    requires 2 <= e < OSC_LIMIT && StAt(w, e, policy)
    requires forall k :: 2 <= k < e ==> !TerminatorAt(w, k, policy)
    ensures Decode(w, policy) == Then(Latin1(w[..e + 2]), Decode(w[e + 2..], policy))
  {
    assert TerminatorAt(w, e, policy);
    assert FindOscEnd(w, 2, policy) == Some(e);
    assert StepAt(w, policy) == Emit(Latin1(w[..e + 2]), e + 2);
    DecodeEmits(w, policy);
  }

  /** ESC ( ) * or + followed by 0 A B or U is copied through. */
  lemma DecodeCharset(w: seq<byte>, policy: StPolicy)
    requires |w| > 2 && w[0] == ESC && IsDesignator(w[1]) && IsCharsetFinal(w[2])
    ensures Decode(w, policy) == Then(Latin1(w[..3]), Decode(w[3..], policy))
  {
  }

  /** A CSI with no final byte in its first 100 bytes, an OSC with no
      terminator in its first 200, or a designation with a bad final byte:
      two U+2194 glyphs, and the byte after the ESC is dropped. */
  lemma DecodeMalformed(w: seq<byte>, policy: StPolicy)
    requires |w| > 1 && w[0] == ESC
    requires (w[1] == LBRACKET && |w| >= CSI_LIMIT && forall k :: 2 <= k < CSI_LIMIT ==> !IsFinal(w[k])) ||
             (w[1] == RBRACKET && |w| >= OSC_LIMIT && forall k :: 2 <= k < OSC_LIMIT ==> !TerminatorAt(w, k, policy)) ||
             (|w| > 2 && IsDesignator(w[1]) && !IsCharsetFinal(w[2]))
    ensures Decode(w, policy) == Then(['\U{2194}', '\U{2194}'], Decode(w[2..], policy))
  {
    MapContents();
  }

  /** ESC followed by any other byte: one U+2194, and the next byte is decoded
      normally. */
  lemma DecodeOtherEscape(w: seq<byte>, policy: StPolicy)
    requires |w| > 1 && w[0] == ESC
    requires w[1] != LBRACKET && w[1] != RBRACKET && !IsDesignator(w[1])
    ensures Decode(w, policy) == Then(['\U{2194}'], Decode(w[1..], policy))
  {
    MapContents();
  }

  /** Input without ESC decodes bytewise through CP437_MAP, nothing pending. */
  lemma {:induction false} DecodePlain(w: seq<byte>, policy: StPolicy)
    requires forall k :: 0 <= k < |w| ==> w[k] != ESC
    ensures Decode(w, policy) == Decoded(Glyphs(w), [])
    decreases |w|
  {
    if |w| > 0 {
      DecodePlain(w[1..], policy);
      DecodeRegularByte(w, policy);
      assert Glyphs(w) == [Cp437Map()[w[0]]] + Glyphs(w[1..]);
    }
  }

  /** A CSI scan that found its final byte, or that covered the whole bound,
      gives the same answer on a longer window. */
  lemma CsiScanExtends(w: seq<byte>, x: seq<byte>)
    requires |w| >= 2 && (FindCsiFinal(w, 2).Some? || |w| >= CSI_LIMIT)
    ensures FindCsiFinal(w + x, 2) == FindCsiFinal(w, 2)
  {
    var v := w + x;
    var f := FindCsiFinal(w, 2);
    if f.Some? {
      assert IsFinal(v[f.value]);
    } else {
      assert forall k :: 2 <= k < |v| && k < CSI_LIMIT ==> v[k] == w[k];
    }
  }

  /** Under WithinBound, an OSC scan that found its terminator, or that covered
      the whole bound, gives the same answer on a longer window. */
  lemma OscScanExtends(w: seq<byte>, x: seq<byte>)
    requires |w| >= 2 && (FindOscEnd(w, 2, WithinBound).Some? || |w| >= OSC_LIMIT)
    ensures FindOscEnd(w + x, 2, WithinBound) == FindOscEnd(w, 2, WithinBound)
  {
    var v := w + x;
    var e := FindOscEnd(w, 2, WithinBound);
    if e.Some? {
      assert forall k :: 2 <= k < e.value ==> TerminatorAt(v, k, WithinBound) == TerminatorAt(w, k, WithinBound);
      assert TerminatorAt(v, e.value, WithinBound);
    } else {
      assert forall k :: 2 <= k < |v| && k < OSC_LIMIT ==> TerminatorAt(v, k, WithinBound) == TerminatorAt(w, k, WithinBound);
    }
  }

  /** Under WithinBound a step that has been decided stays decided when more
      bytes arrive. */
  lemma StepExtends(w: seq<byte>, x: seq<byte>)
    requires |w| > 0 && StepAt(w, WithinBound).Emit?
    ensures StepAt(w + x, WithinBound) == StepAt(w, WithinBound)
  {
    var v := w + x;
    assert v[0] == w[0];
    if w[0] == ESC {
      assert v[1] == w[1];
      if w[1] == LBRACKET {
        CsiScanExtends(w, x);
        var f := FindCsiFinal(w, 2);
        if f.Some? {
          assert v[..f.value + 1] == w[..f.value + 1];
        }
      } else if w[1] == RBRACKET {
        OscScanExtends(w, x);
        var e := FindOscEnd(w, 2, WithinBound);
        if e.Some? {
          assert v[e.value] == w[e.value];
          var n := if w[e.value] == BEL then e.value + 1 else e.value + 2;
          assert v[..n] == w[..n];
        }
      } else if IsDesignator(w[1]) {
        assert v[2] == w[2];
        assert v[..3] == w[..3];
      }
    }
  }

  /** Decoding A ++ B in one call gives the text of decoding A, then the text
      of decoding A's pending ++ B, and that call's pending: chunking does not
      change the output (under WithinBound). */
  lemma {:induction false} FragmentationInvariant(a: seq<byte>, b: seq<byte>)
    ensures Decode(a + b, WithinBound) ==
            Then(Decode(a, WithinBound).text, Decode(Decode(a, WithinBound).pending + b, WithinBound))
    decreases |a|
  {
    if |a| == 0 {
      assert a + b == b;
    } else if StepAt(a, WithinBound).Pending? {
      assert Decode(a, WithinBound) == Decoded([], a);
      assert [] + Decode(a + b, WithinBound).text == Decode(a + b, WithinBound).text;
    } else {
      var s := StepAt(a, WithinBound);
      var n := s.consumed;
      StepExtends(a, b);
      assert (a + b)[n..] == a[n..] + b;
      FragmentationInvariant(a[n..], b);
      DecodeEmits(a, WithinBound);
      DecodeEmits(a + b, WithinBound);
      var first := Decode(a[n..], WithinBound);
      var whole, mid, rest := Decode(a + b, WithinBound), Decode(a[n..] + b, WithinBound), Decode(first.pending + b, WithinBound);
      assert whole == Decoded(s.text + mid.text, mid.pending);
      assert mid == Decoded(first.text + rest.text, rest.pending);
      Regroup(whole, mid, rest, s.text, first.text);
      var da := Decode(a, WithinBound);
      assert da == Decoded(s.text + first.text, first.pending);
      assert Decode(da.pending + b, WithinBound) == rest;
      assert whole == Then(da.text, rest);
    }
  }

  /** ESC ] then 197 bytes 'x' then ESC: 200 bytes, one short of an OSC whose
      ST ends at offset 200. */
  function StraddlingOsc(): (a: seq<byte>)
    ensures |a| == OSC_LIMIT && a[0] == ESC && a[1] == RBRACKET && a[OSC_LIMIT - 1] == ESC
    ensures forall k :: 2 <= k < OSC_LIMIT - 1 ==> a[k] == 0x78
  {
    [ESC, RBRACKET] + seq(197, _ => 0x78) + [ESC]
  }

  /** As written, splitting StraddlingOsc() ++ '\' after its 200th byte changes
      the output: whole, it is an OSC passed through (first character ESC);
      split, the first chunk is declared malformed (first character U+2194). */
  lemma AsWrittenSplitChangesOutput(a: seq<byte>)
    requires a == StraddlingOsc()
    ensures var whole := Decode(a + [BACKSLASH], AsWritten);
            var split := Then(Decode(a, AsWritten).text, Decode(Decode(a, AsWritten).pending + [BACKSLASH], AsWritten));
            |whole.text| > 0 && |split.text| > 0 &&
            whole.text[0] as int == 0x1B && split.text[0] == '\U{2194}'
  {
    var v := a + [BACKSLASH];
    MapContents();
    assert forall k :: 2 <= k < OSC_LIMIT ==> !TerminatorAt(a, k, AsWritten);
    assert FindOscEnd(a, 2, AsWritten).None?;
    assert StepAt(a, AsWritten) == Emit([EscGlyph(), EscGlyph()], 2);
    DecodeEmits(a, AsWritten);
    assert Decode(a, AsWritten).text[0] == EscGlyph();
    assert TerminatorAt(v, OSC_LIMIT - 1, AsWritten);
    assert forall k :: 2 <= k < OSC_LIMIT - 1 ==> v[k] == 0x78;
    assert FindOscEnd(v, 2, AsWritten) == Some(OSC_LIMIT - 1);
    assert StepAt(v, AsWritten) == Emit(Latin1(v[..OSC_LIMIT + 1]), OSC_LIMIT + 1);
    DecodeEmits(v, AsWritten);
  }

  /** decode_cp437_graphical, which CP437IncrementalDecoder.decode also calls:
      the text of the buffered decoder, with the pending bytes dropped. */
  function DecodeGraphical(data: seq<byte>): (t: string)
    ensures |t| <= |data| && |data| - |t| < OSC_LIMIT
  {
    PendingIsBoundedSuffix(data, AsWritten);
    Decode(data, AsWritten).text
  }

  /** Printable ASCII decodes to itself. */
  lemma {:induction false} DecodePrintable(w: seq<byte>, policy: StPolicy)
    requires forall k :: 0 <= k < |w| ==> 0x20 <= w[k] <= 0x7E
    ensures Decode(w, policy) == Decoded(Latin1(w), [])
  {
    DecodePlain(w, policy);
    MapContents();
    assert Glyphs(w) == Latin1(w);
  }

  /** Chunk by chunk, decode_cp437_graphical loses an escape sequence split
      across chunks: the first chunk ESC '[' yields nothing (the buffered
      decoder keeps it pending) and the second chunk "31mRed" yields only
      itself. */
  lemma GraphicalLosesSplitCsi(head: seq<byte>, tail: seq<byte>)
    requires head == [ESC, LBRACKET]
    requires tail == [0x33, 0x31, 0x6D, 0x52, 0x65, 0x64]
    ensures DecodeGraphical(head) == []
    ensures Decode(head, AsWritten).pending == head
    ensures DecodeGraphical(tail) == "31mRed"
  {
    DecodePrintable(tail, AsWritten);
    assert Latin1(tail) == "31mRed";
  }

  /** Glued to the pending ESC '[', the second chunk completes the CSI and
      the whole sequence passes through. */
  lemma GluedCsiPassesThrough(w: seq<byte>)
    requires w == [ESC, LBRACKET, 0x33, 0x31, 0x6D, 0x52, 0x65, 0x64]
    ensures DecodeGraphical(w) == "\U{1B}[31mRed"
  {
    GluedCsiText(w);
    DecodeCsi(w, 4, AsWritten);
    DecodePrintable(w[5..], AsWritten);
  }

  /** The two pieces of GluedCsiPassesThrough as text. */
  lemma GluedCsiText(w: seq<byte>)
    requires w == [ESC, LBRACKET, 0x33, 0x31, 0x6D, 0x52, 0x65, 0x64]
    ensures Latin1(w[..5]) == "\U{1B}[31m" && Latin1(w[5..]) == "Red"
    ensures forall k :: 0 <= k < |w[5..]| ==> 0x20 <= w[5..][k] <= 0x7E
  {
    var csi, red := Latin1(w[..5]), Latin1(w[5..]);
    assert csi == "\U{1B}[31m" by {
      assert |csi| == 5 && csi[0] as int == 0x1B && csi[1] as int == 0x5B;
      assert csi[2] as int == 0x33 && csi[3] as int == 0x31 && csi[4] as int == 0x6D;
    }
    assert red == "Red" by {
      assert |red| == 3 && red[0] as int == 0x52 && red[1] as int == 0x65 && red[2] as int == 0x64;
    }
  }

  /** [0x01, 0x02, 0x03] decodes to smiley, inverse smiley, heart. */
  lemma DecodesSmileys(policy: StPolicy)
    ensures Decode([0x01, 0x02, 0x03], policy) == Decoded("\U{263A}\U{263B}\U{2665}", [])
  {
    var w: seq<byte> := [0x01, 0x02, 0x03];
    DecodePlain(w, policy);
    MapContents();
    assert Glyphs(w) == [Cp437Map()[0x01], Cp437Map()[0x02], Cp437Map()[0x03]];
  }

  /** ESC 7 (save cursor) is not a recognised sequence: "\U{2194}7". */
  lemma DecodesSaveCursorAsGlyph(w: seq<byte>, policy: StPolicy)
    requires w == [ESC, 0x37]
    ensures Decode(w, policy) == Decoded("\U{2194}7", [])
  {
    DecodeOtherEscape(w, policy);
    var rest := w[1..];
    DecodePrintable(rest, policy);
    assert Latin1(rest) == "7";
  }

  /** Text made only of table glyphs other than U+2194 survives encoding and
      then decoding. */
  lemma EncodeThenDecode(t: string, policy: StPolicy)
    requires forall k :: 0 <= k < |t| ==> t[k] in Cp437Map() && t[k] != EscGlyph()
    ensures Decode(Encoded(t), policy) == Decoded(t, [])
  {
    var e := Encoded(t);
    forall k | 0 <= k < |e|
      ensures Cp437Map()[e[k]] == t[k] && e[k] != ESC
    {
      assert e[k] == EncodeChar(t[k]);
    }
    DecodePlain(e, policy);
    assert Glyphs(e) == t;
  }

  /** Bytes without ESC, decoded and encoded again, come back unchanged except
      that 0xF4 and 0xF5 come back as 0x1E and 0x1F. */
  lemma DecodeThenEncode(bs: seq<byte>, policy: StPolicy)
    requires forall k :: 0 <= k < |bs| ==> bs[k] != ESC
    ensures Encoded(Decode(bs, policy).text) == seq(|bs|, k requires 0 <= k < |bs| => Canonical(bs[k]))
  {
    DecodePlain(bs, policy);
    forall k | 0 <= k < |bs|
      ensures EncodeChar(Cp437Map()[bs[k]]) == Canonical(bs[k])
    {
      EncodeGlyph(bs[k]);
    }
  }
}
