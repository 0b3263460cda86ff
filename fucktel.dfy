/**
 * The parts of the C telnet client fucktel.c that are not its copies of
 * cp437_to_utf8 and decode_cp437_graphical (those are the same code as
 * cp437_decode.c and are modelled in CDecoder): the port check of main, the
 * Ctrl+] scan of telnet_loop over a block of keyboard input, and the path
 * from one received chunk to what printf("%s") shows of it.
 */
module Fucktel {
  import opened Codepage
  import opened TelnetDecoder
  import opened CDecoder

  /** The port used when none is given. */
  const DEFAULT_PORT: int := 23
  /** Ctrl+], which ends the session. */
  const CTRL_RBRACKET: byte := 0x1D
  /** sizeof(recv_buffer); recv reads at most one byte less. */
  const RECV_BUFFER: nat := 4096
  /** sizeof(decoded_buffer). */
  const DECODED_BUFFER: nat := 16384

  /** isspace in the C locale. */
  predicate IsSpace(c: char)
  {
    c == ' ' || c == '\t' || c == '\n' || c == '\U{0B}' || c == '\U{0C}' || c == '\r'
  }

  predicate IsDigit(c: char)
  {
    '0' <= c <= '9'
  }

  /** The offset of the first non-space character at or after i. */
  function SkipSpaces(s: string, i: nat): (e: nat)
    requires i <= |s|
    ensures i <= e <= |s|
    ensures forall k :: i <= k < e ==> IsSpace(s[k])
    ensures e < |s| ==> !IsSpace(s[e])
    decreases |s| - i
  {
    if i < |s| && IsSpace(s[i]) then SkipSpaces(s, i + 1) else i
  }

  /** The offset just past the run of digits starting at i. */
  function DigitsEnd(s: string, i: nat): (e: nat)
    requires i <= |s|
    ensures i <= e <= |s|
    ensures forall k :: i <= k < e ==> IsDigit(s[k])
    ensures e < |s| ==> !IsDigit(s[e])
    decreases |s| - i
  {
    if i < |s| && IsDigit(s[i]) then DigitsEnd(s, i + 1) else i
  }

  /** The value of a string of decimal digits, most significant first. */
  function DecimalValue(d: string): (v: nat)
    requires forall k :: 0 <= k < |d| ==> IsDigit(d[k])
  {
    if |d| == 0 then 0
    else
      assert IsDigit(d[|d| - 1]);
      DecimalValue(d[..|d| - 1]) * 10 + (d[|d| - 1] as int - '0' as int)
  }

  /** atoi: leading white space, an optional sign, then as many digits as
      follow; a string with no digits there gives 0, so a result other than 0
      needs a digit somewhere in s. */
  function Atoi(s: string): (n: int)
    ensures n != 0 ==> exists k :: 0 <= k < |s| && IsDigit(s[k])
  {
    var i := SkipSpaces(s, 0);
    if i < |s| && (s[i] == '-' || s[i] == '+') then
      var e := DigitsEnd(s, i + 1);
      var v: int := DecimalValue(s[i + 1..e]);
      assert v != 0 ==> IsDigit(s[i + 1]);
      if s[i] == '-' then -v else v
    else
      var e := DigitsEnd(s, i);
      var v: int := DecimalValue(s[i..e]);
      assert v != 0 ==> IsDigit(s[i]);
      v
  }

  /** The decimal numeral of n, as "%d" prints it. */
  function DecimalString(n: nat): (d: string)
    ensures |d| > 0 && forall k :: 0 <= k < |d| ==> IsDigit(d[k])
  {
    var last := ('0' as int + n % 10) as char;
    if n < 10 then [last] else DecimalString(n / 10) + [last]
  }

  /** Reading a numeral back gives its number. */
  lemma {:induction false} DecimalRoundTrip(n: nat)
    ensures DecimalValue(DecimalString(n)) == n
  {
    var d := DecimalString(n);
    if n >= 10 {
      DecimalRoundTrip(n / 10);
      assert d[..|d| - 1] == DecimalString(n / 10);
    }
  }

  /** atoi reads a numeral back as its number, and stops at the first
      character that is not a digit: "8080" and "8080x" both give 8080. */
  lemma AtoiDecimal(n: nat, rest: string)
    requires |rest| == 0 || !IsDigit(rest[0])
    ensures Atoi(DecimalString(n) + rest) == n
  {
    var d := DecimalString(n);
    var s := d + rest;
    assert !IsSpace(s[0]) && s[0] != '-' && s[0] != '+';
    assert SkipSpaces(s, 0) == 0;
    assert DigitsEnd(s, 0) == |d| by {
      DigitsRun(s, 0, |d|);
    }
    assert s[0..|d|] == d;
    DecimalRoundTrip(n);
  }

  /** The digit run from i ends at e when s[i..e] are digits and s[e] is not. */
  lemma {:induction false} DigitsRun(s: string, i: nat, e: nat)
    requires i <= e <= |s|
    requires forall k :: i <= k < e ==> IsDigit(s[k])
    requires e == |s| || !IsDigit(s[e])
    ensures DigitsEnd(s, i) == e
    decreases e - i
  {
    if i < e {
      DigitsRun(s, i + 1, e);
    }
  }

  /** How main goes on from its arguments (argv, program name first). */
  datatype Startup = Usage | InvalidPort(arg: string) | Connect(host: string, port: int)

  /** main up to the connection: fewer than two arguments print the usage;
      the port is 23 unless a third argument is given, which must read as
      1 to 65535. */
  method MainArguments(argv: seq<string>) returns (r: Startup)
    ensures |argv| < 2 <==> r == Usage
    ensures |argv| == 2 ==> r == Connect(argv[1], DEFAULT_PORT)
    ensures |argv| >= 3 ==> (r.Connect? <==> 1 <= Atoi(argv[2]) <= 65535)
    ensures |argv| >= 3 && !r.Connect? ==> r == InvalidPort(argv[2])
    ensures r.Connect? ==> |argv| >= 2 && r.host == argv[1] && 1 <= r.port <= 65535
    ensures r.Connect? && |argv| >= 3 ==> r.port == Atoi(argv[2])
  {
    var port := DEFAULT_PORT;
    if |argv| < 2 {
      return Usage;
    }
    var host := argv[1];
    if |argv| >= 3 {
      port := Atoi(argv[2]);
      if port <= 0 || port > 65535 {
        return InvalidPort(argv[2]);
      }
    }
    return Connect(host, port);
  }

  /** Every port from 1 to 65535 written in decimal is accepted as itself;
      an argument with no digits reads as 0 and is refused. */
  lemma PortArgument(n: nat, arg: string)
    ensures 1 <= n <= 65535 ==> 1 <= Atoi(DecimalString(n)) <= 65535 && Atoi(DecimalString(n)) == n
    ensures (forall k :: 0 <= k < |arg| ==> !IsDigit(arg[k])) ==> !(1 <= Atoi(arg) <= 65535)
  {
    AtoiDecimal(n, "");
    assert DecimalString(n) + "" == DecimalString(n);
  }

  /** The text before the first NUL, which is what printf("%s") shows. */
  function UpToNul(s: seq<byte>): (r: seq<byte>)
    ensures r <= s && 0 !in r
    ensures |r| < |s| ==> s[|r|] == 0
  {
    if |s| == 0 || s[0] == 0 then [] else [s[0]] + UpToNul(s[1..])
  }

  /** One chunk from recv (at most sizeof(recv_buffer) - 1 bytes) decoded
      into decoded_buffer and shown with printf("%s"). The buffer is always
      large enough: what is shown is the whole decoding up to its first NUL,
      which only an escape sequence can carry. */
  method ShowChunk(chunk: seq<byte>) returns (shown: seq<byte>)
    requires 0 < |chunk| <= RECV_BUFFER - 1
    ensures shown == UpToNul(CDecoded(chunk))
  {
    var decoded := new byte[DECODED_BUFFER];
    var len := DecodeCp437Graphical(chunk, decoded);
    DecodedLength(chunk, 0);
    assert |decoded[..len]| <= |CDecoded(chunk)|;
    shown := UpToNul(decoded[..len]);
  }

  /** A NUL inside a CSI ends what printf shows of the chunk: the CSI
      ESC [ NUL m followed by "A" shows as ESC [ only. */
  lemma NulInSequenceHidesRest(chunk: seq<byte>)
    requires chunk == [ESC, LBRACKET, 0x00, 0x6D, 0x41]
    ensures CDecoded(chunk)[..4] == chunk[..4]
    ensures UpToNul(CDecoded(chunk)) == [ESC, LBRACKET]
  {
    assert CsiAt(chunk, 0);
    assert CsiEnd(chunk, 2) == 4 by {
      assert CsiEnd(chunk, 3) == 4;
    }
    assert CDecoded(chunk) == chunk[0..4] + DecodedFrom(chunk, 4);
    var d := CDecoded(chunk);
    assert d[0] == ESC && d[1] == LBRACKET && d[2] == 0;
    assert UpToNul(d) == [d[0]] + UpToNul(d[1..]);
    assert UpToNul(d[1..]) == [d[1]] + UpToNul(d[2..]);
  }

  /** The session state telnet_loop keeps: the global running flag and the
      blocks of keyboard input sent to the server so far. */
  class Session {
    var running: bool
    var sent: seq<seq<byte>>

    /** No block ever sent contains Ctrl+]. */
    predicate Valid()
      reads this
    {
      forall k :: 0 <= k < |sent| ==> CTRL_RBRACKET !in sent[k]
    }

    constructor()
      ensures running && sent == [] && Valid()
    {
      running := true;
      sent := [];
    }

    /** One block read from the keyboard while running: a Ctrl+] anywhere in
        it clears running and the block is not sent; otherwise the whole
        block is sent as it is. */
    method HandleInput(input: seq<byte>)
      requires running && Valid() && 0 < |input|
      modifies this
      ensures Valid()
      ensures running <==> CTRL_RBRACKET !in input
      ensures sent == if running then old(sent) + [input] else old(sent)
    {
      var i := 0;
      while i < |input|
        invariant 0 <= i <= |input|
        invariant running <==> CTRL_RBRACKET !in input[..i]
        invariant sent == old(sent)
      {
        if input[i] == CTRL_RBRACKET {
          running := false;
          break;
        }
        i := i + 1;
      }
      if running {
        assert input[..i] == input;
        sent := sent + [input];
      }
    }
  }
}
