/**
  The two pieces of pure text handling in the interactive shell of
  cp437_telnet.py: the clear-screen fix-up applied to every decoded chunk
  before it is written to the terminal (lines 376-379) and parse_macro_keys,
  which expands the vim-style keys of the bell macro into arrow-key
  sequences (lines 291-316).
*/
module TelnetShell {
  import opened Codepage

  /** ESC [ 2 J, erase in page (clear screen). */
  const CLEAR: string := "\U{1B}[2J"
  /** ESC [ H, cursor position with default arguments (home). */
  const HOME: string := "\U{1B}[H"

  /** pat occurs in s starting at index i. */
  predicate OccursAt(s: string, pat: string, i: nat)
  {
    i + |pat| <= |s| && s[i..i + |pat|] == pat
  }

  /** Python's `pat in s`. */
  predicate Contains(s: string, pat: string)
  {
    exists i: nat | i <= |s| :: OccursAt(s, pat, i)
  }

  /** The index of the first occurrence of pat in s at or after from. */
  function FindFrom(s: string, pat: string, from: nat): (r: Option<nat>)
    ensures r.Some? ==> from <= r.value && OccursAt(s, pat, r.value)
    ensures r.Some? ==> forall i: nat :: from <= i < r.value ==> !OccursAt(s, pat, i)
    ensures r.None? ==> forall i: nat :: from <= i ==> !OccursAt(s, pat, i)
    decreases |s| - from
  {
    if from + |pat| > |s| then None
    else if s[from..from + |pat|] == pat then Some(from)
    else FindFrom(s, pat, from + 1)
  }

  /** Python's `s.replace(target, replacement, 1)`: the first occurrence of target, if any,
      is replaced by replacement. */
  function ReplaceFirst(s: string, target: string, replacement: string): string
  {
    match FindFrom(s, target, 0)
    case None => s
    case Some(i) => s[..i] + replacement + s[i + |target|..]
  }

  /** The fix-up of server_reader: a chunk that clears the screen but never
      homes the cursor gets ESC [ H right after its first ESC [ 2 J. */
  function FixClearScreen(decoded: string): (r: string)
    ensures r == decoded || exists i :: 0 <= i <= |decoded| && r == decoded[..i] + HOME + decoded[i..]
  {
    if Contains(decoded, CLEAR) && !Contains(decoded, HOME) then
      match FindFrom(decoded, CLEAR, 0)
      case None => decoded
      case Some(i) =>
        var r := ReplaceFirst(decoded, CLEAR, CLEAR + HOME);
        assert decoded[..i] + CLEAR == decoded[..i + |CLEAR|];
        assert r == decoded[..i + |CLEAR|] + HOME + decoded[i + |CLEAR|..];
        r
    else
      decoded
  }

  /** After the fix-up, a chunk that clears the screen also homes the cursor
      and still clears the screen; a chunk that does not clear the screen, or
      already homes the cursor somewhere, is left as it is. */
  lemma FixClearScreenHomes(decoded: string)
    ensures Contains(decoded, CLEAR) ==>
              Contains(FixClearScreen(decoded), CLEAR) && Contains(FixClearScreen(decoded), HOME)
    ensures !Contains(decoded, CLEAR) || Contains(decoded, HOME) ==> FixClearScreen(decoded) == decoded
  {
    if Contains(decoded, CLEAR) && !Contains(decoded, HOME) {
      var i := FindFrom(decoded, CLEAR, 0).value;
      var r := FixClearScreen(decoded);
      assert r == decoded[..i] + CLEAR + HOME + decoded[i + |CLEAR|..];
      assert r[i..i + |CLEAR|] == CLEAR;
      assert OccursAt(r, CLEAR, i);
      assert r[i + |CLEAR|..i + |CLEAR| + |HOME|] == HOME;
      assert OccursAt(r, HOME, i + |CLEAR|);
    }
  }

  /** The one insertion: when ESC [ 2 J first occurs at i and ESC [ H occurs
      nowhere, ESC [ H is inserted right after that occurrence and nothing else
      changes. */
  lemma FixClearScreenInsertsOnce(decoded: string, i: nat)
    requires OccursAt(decoded, CLEAR, i)
    requires forall j: nat :: j < i ==> !OccursAt(decoded, CLEAR, j)
    requires !Contains(decoded, HOME)
    ensures FixClearScreen(decoded) == decoded[..i + |CLEAR|] + HOME + decoded[i + |CLEAR|..]
  {
    var f := FindFrom(decoded, CLEAR, 0);
    assert f == Some(i);
    assert decoded[..i + |CLEAR|] == decoded[..i] + CLEAR;
  }

  /** Applying the fix-up twice is the same as applying it once. */
  lemma FixClearScreenIdempotent(decoded: string)
    ensures FixClearScreen(FixClearScreen(decoded)) == FixClearScreen(decoded)
  {
    FixClearScreenHomes(decoded);
    FixClearScreenHomes(FixClearScreen(decoded));
  }

  /** The vim-style keys of parse_macro_keys and the cursor-key sequences
      (CUB, CUD, CUU, CUF of ECMA-48 section 8.3) they stand for. */
  const KEY_MAP: map<char, string> := map[
    'h' := "\U{1B}[D",
    'j' := "\U{1B}[B",
    'k' := "\U{1B}[A",
    'l' := "\U{1B}[C"
  ]

  /** What parse_macro_keys sends for one character of the macro: h, j, k and
      l become three-character cursor-key sequences ESC '[' F whose final byte
      F is D, B, A and C; every other character is sent as itself. */
  function MacroKey(c: char): (r: string)
    ensures c !in "hjkl" ==> r == [c]
    ensures c in "hjkl" <==> |r| == 3
    ensures c in "hjkl" ==>
              r[..2] == "\U{1B}[" &&
              r[2] == (if c == 'h' then 'D' else if c == 'j' then 'B' else if c == 'k' then 'A' else 'C')
  {
    if c in KEY_MAP then KEY_MAP[c] else [c]
  }

  /** parse_macro_keys: one element per character of the macro, in order. */
  method ParseMacroKeys(macroText: string) returns (result: seq<string>)
    ensures |result| == |macroText|
    ensures forall k :: 0 <= k < |macroText| ==> result[k] == MacroKey(macroText[k])
  {
    result := [];
    for k := 0 to |macroText|
      invariant |result| == k
      invariant forall j :: 0 <= j < k ==> result[j] == MacroKey(macroText[j])
    {
      var c := macroText[k];
      if c in KEY_MAP {
        result := result + [KEY_MAP[c]];
      } else {
        result := result + [[c]];
      }
    }
  }

  /** The expansion loses nothing: different characters are sent as
      different strings, so the macro can be read back from what is sent. */
  lemma MacroKeyInjective(c: char, d: char)
    ensures MacroKey(c) == MacroKey(d) ==> c == d
  {
    if MacroKey(c) == MacroKey(d) {
      if c !in "hjkl" {
        assert MacroKey(c)[0] == c;
      }
    }
  }
}
