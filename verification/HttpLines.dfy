/** The size lines of a chunked body: where they end, and how the code scans them. */
module HttpLines {
  import opened Arithmetic

  const CR: byte := 13
  const LF: byte := 10
  const ZERO: byte := 0x30
  const WORD32: nat := 0x1_0000_0000
  const WORD64: nat := 0x1_0000_0000_0000_0000

  predicate IsSpace(c: byte) { c == 32 || 9 <= c <= 13 }

  /** The value of a hexadecimal digit, or 16. */
  function HexDigit(c: byte): (r: nat)
    ensures r <= 16
  {
    if 0x30 <= c <= 0x39 then c - 0x30
    else if 0x41 <= c <= 0x46 then c - 0x41 + 10
    else if 0x61 <= c <= 0x66 then c - 0x61 + 10
    else 16
  }

  function SkipSpace(s: seq<byte>): seq<byte> {
    if |s| > 0 && IsSpace(s[0]) then SkipSpace(s[1..]) else s
  }

  /** The leading hexadecimal digits of s, in front of which x has been read. */
  function HexValue(s: seq<byte>, x: nat): nat
    decreases |s|
  {
    if |s| > 0 && HexDigit(s[0]) < 16 then HexValue(s[1..], 16 * x + HexDigit(s[0])) else x
  }

  /** "%x" of VSNScanF: leading space, a sign, an optional 0x, digits; stored in 32 bits. prior if nothing matches. */
  function ScanHex(line: seq<byte>, prior: nat): nat {
    var s := SkipSpace(line);
    var signed := |s| > 1 && (s[0] == 0x2D || s[0] == 0x2B);
    var t := if signed then s[1..] else s;
    var prefixed := |t| >= 2 && t[0] == ZERO && (t[1] == 0x78 || t[1] == 0x58);
    var digits := if prefixed then t[2..] else t;
    if !prefixed && (|t| == 0 || HexDigit(t[0]) == 16) then prior
    else if signed && s[0] == 0x2D then (-(HexValue(digits, 0) as int)) % WORD32
    else HexValue(digits, 0) % WORD32
  }

  /** A size line that starts with '0' announces the end; otherwise it is scanned. */
  function Size(line: seq<byte>, prior: nat): nat {
    if |line| > 0 && line[0] == ZERO then 0 else ScanHex(line, prior)
  }

  /** Where the first CR LF starts, or |s|. */
  function FirstCrlf(s: seq<byte>): (i: nat)
    ensures i <= |s|
    ensures i < |s| ==> i + 1 < |s| && s[i] == CR && s[i + 1] == LF
    ensures forall k :: 0 <= k < i && k + 1 < |s| ==> !(s[k] == CR && s[k + 1] == LF)
  {
    if |s| < 2 then |s|
    else if s[0] == CR && s[1] == LF then 0
    else
      var i := FirstCrlf(s[1..]);
      assert forall k :: 1 <= k < i + 1 && k + 1 < |s| ==> s[k] == s[1..][k - 1] && s[k + 1] == s[1..][k];
      i + 1
  }

  function AtMost(s: seq<byte>, n: nat): seq<byte> { if |s| <= n then s else s[..n] }

  /** Where the size line at the front of s ends, if it does so within the buffer; else -1. */
  function LineEnd(s: seq<byte>, bufLen: nat): (i: int)
    ensures -1 <= i && (i >= 0 ==> i + 2 <= bufLen && i + 2 <= |s|)
  {
    var window := AtMost(s, bufLen);
    var i := FirstCrlf(window);
    if i == |window| then -1 else i
  }

  // ----- the first CR LF -----

  lemma {:induction false} FirstCrlfOfPrefix(s: seq<byte>, t: seq<byte>)
    requires s <= t
    ensures FirstCrlf(s) < |s| ==> FirstCrlf(t) == FirstCrlf(s)
  {
    if |s| >= 2 && !(s[0] == CR && s[1] == LF) {
      FirstCrlfOfPrefix(s[1..], t[1..]);
    }
  }

  lemma LineThere(u: seq<byte>, held: nat, bufLen: nat)
    requires held <= |u| && held <= bufLen && FirstCrlf(u[..held]) < held
    ensures LineEnd(u, bufLen) == FirstCrlf(u[..held])
  {
    hide FirstCrlf;
    var window := AtMost(u, bufLen);
    assert u[..held] <= window;
    FirstCrlfOfPrefix(u[..held], window);
  }

  lemma LineNotThere(u: seq<byte>, held: nat, bufLen: nat)
    requires held <= |u| && held <= bufLen && FirstCrlf(u[..held]) >= held
    ensures held == bufLen || held == |u| ==> LineEnd(u, bufLen) == -1
  {
    hide FirstCrlf;
    if held == bufLen || held == |u| {
      assert AtMost(u, bufLen) == u[..held];
    }
  }

  lemma LineInFront(u: seq<byte>, held: nat, bufLen: nat)
    requires held <= |u| && held <= bufLen && 0 <= LineEnd(u, bufLen) && LineEnd(u, bufLen) + 2 <= held
    ensures FirstCrlf(u[..held]) < held
  {
    var window, i := AtMost(u, bufLen), LineEnd(u, bufLen);
    assert window[i] == CR && window[i + 1] == LF;
    hide FirstCrlf;
    assert u[..held][i] == window[i] && u[..held][i + 1] == window[i + 1];
  }

  lemma {:induction false} CrlfAfterLine(line: seq<byte>, more: seq<byte>)
    requires CR !in line
    ensures FirstCrlf(line + [CR, LF] + more) == |line|
    decreases |line|
  {
    var s := line + [CR, LF] + more;
    assert s[|line|] == CR && s[|line| + 1] == LF;
    if |line| > 0 {
      CrlfAfterLine(line[1..], more);
      assert s[1..] == line[1..] + [CR, LF] + more;
      assert line[0] in line && s[0] == line[0];
    }
  }

  lemma LineFound(line: seq<byte>, more: seq<byte>, bufLen: nat)
    requires |line| + 2 <= bufLen && CR !in line
    ensures LineEnd(line + [CR, LF] + more, bufLen) == |line|
  {
    hide FirstCrlf;
    var window := AtMost(line + [CR, LF] + more, bufLen);
    var tail := AtMost(more, bufLen - |line| - 2);
    assert window == line + [CR, LF] + tail;
    CrlfAfterLine(line, tail);
  }

  /** findCRLF inside findChunkedDataLength: the index just past the first CR LF of buffer[..len], if there is one. */
  method FindCrlf(buffer: array<byte>, len: nat) returns (found: bool, next: nat)
    requires len <= buffer.Length
    ensures found <==> FirstCrlf(buffer[..len]) < len
    ensures found ==> next == FirstCrlf(buffer[..len]) + 2 <= len
  {
    var src := 0;
    while true
      invariant src <= len
      invariant forall k :: 0 <= k < src && k + 1 < len ==> !(buffer[k] == CR && buffer[k + 1] == LF)
      decreases len - src
    {
      while src < len && buffer[src] != CR
        invariant src <= len
        invariant forall k :: 0 <= k < src && k + 1 < len ==> !(buffer[k] == CR && buffer[k + 1] == LF)
      {
        src := src + 1;
      }
      if src >= len {
        break;
      }
      if len - src >= 2 && buffer[src + 1] == LF {
        return true, src + 2;
      } else if len - src <= 1 {
        break;
      }
      src := src + 1;
    }
    return false, 0;
  }

  // ----- hexadecimal sizes -----

  /** The digit loop of VSNScanF in base 16, with its 64-bit accumulator. */
  method ParseDigits(line: seq<byte>, start: nat) returns (x: nat, end: nat)
    requires start <= |line|
    ensures x == HexValue(line[start..], 0) % WORD64
    ensures start <= end <= |line|
    ensures end == start <==> start == |line| || HexDigit(line[start]) == 16
  {
    end, x := start, 0;
    ghost var value: nat := 0;
    while end < |line| && HexDigit(line[end]) < 16
      invariant start <= end <= |line| && x == value % WORD64
      invariant HexValue(line[start..], 0) == HexValue(line[end..], value)
      invariant end == start || HexDigit(line[start]) < 16
    {
      var v := HexDigit(line[end]);
      NextDigit(value, v);
      HexStep(line, end, value);
      value := 16 * value + v;
      x := (x * 16 + v) % WORD64;
      end := end + 1;
    }
  }

  lemma HexStep(line: seq<byte>, i: nat, x: nat)
    requires i < |line| && HexDigit(line[i]) < 16
    ensures HexValue(line[i..], x) == HexValue(line[i + 1..], 16 * x + HexDigit(line[i]))
  {
    assert line[i..][1..] == line[i + 1..];
  }

  lemma NextDigit(value: nat, v: nat)
    ensures (value % WORD64 * 16 + v) % WORD64 == (16 * value + v) % WORD64
  {
    var q, r := value / WORD64, value % WORD64;
    assert 16 * value + v == (r * 16 + v) + (16 * q) * WORD64;
    ModAddMultiple(r * 16 + v, 16 * q, WORD64);
  }

  lemma LowWord(value: nat)
    ensures value % WORD64 % WORD32 == value % WORD32
    ensures (-(value % WORD64)) % WORD32 == (-(value as int)) % WORD32
  {
    var q, r := value / WORD64, value % WORD64;
    assert value == r + (q * WORD32) * WORD32;
    ModAddMultiple(r, q * WORD32, WORD32);
    ModAddMultiple(-r, -(q * WORD32), WORD32);
  }

  /** VSNScanF for the format "%x". */
  method ParseHex(line: seq<byte>, prior: nat) returns (n: nat)
    ensures n == ScanHex(line, prior)
  {
    hide HexValue, HexDigit;
    var src := 0;
    assert line[0..] == line;
    while src < |line| && IsSpace(line[src])
      invariant src <= |line| && SkipSpace(line) == SkipSpace(line[src..])
    {
      src := src + 1;
    }
    ghost var s := line[src..];
    assert s == SkipSpace(line);
    hide SkipSpace, IsSpace;
    var negative := false;
    if |line| - src > 1 {
      if line[src] == 0x2D {
        negative := true;
        src := src + 1;
      } else if line[src] == 0x2B {
        src := src + 1;
      }
    }
    ghost var t := line[src..];
    assert t == if |s| > 1 && (s[0] == 0x2D || s[0] == 0x2B) then s[1..] else s;
    var first := src;
    if |line| - src >= 2 && line[src] == ZERO && (line[src + 1] == 0x78 || line[src + 1] == 0x58) {
      src := src + 2;
    }
    assert line[src..] == if src > first then t[2..] else t;
    var x, end := ParseDigits(line, src);
    if end == first {
      return prior;
    }
    LowWord(HexValue(line[src..], 0));
    n := (if negative then -(x as int) else x) % WORD32;
  }

  lemma ScanBounded(line: seq<byte>, prior: nat)
    requires prior < WORD32
    ensures ScanHex(line, prior) < WORD32
  {
  }

  lemma SkipOne(c: byte, line: seq<byte>)
    requires IsSpace(c)
    ensures SkipSpace([c] + line) == SkipSpace(line)
  {
    assert ([c] + line)[1..] == line;
  }

  lemma SizeKnown(line: seq<byte>, prior: nat)
    requires ScanHex(line, 0) > 0 || (|line| > 0 && line[0] == ZERO)
    ensures ScanHex(line, prior) == ScanHex(line, 0)
  {
  }

  lemma SizeOfPlain(line: seq<byte>, prior: nat)
    requires |line| > 0
    ensures Size(line, prior) == if line[0] == ZERO then 0 else ScanHex(line, prior)
  {
    hide ScanHex;
  }

  /** A size as lower-case hexadecimal digits without leading zeros. */
  function HexLine(n: nat): seq<byte> {
    if n == 0 then [] else HexLine(n / 16) + [if n % 16 < 10 then 0x30 + n % 16 else 0x61 + n % 16 - 10]
  }

  predicate AllHex(line: seq<byte>) { forall c :: c in line ==> HexDigit(c) < 16 }

  lemma {:induction false} HexAppend(line: seq<byte>, c: byte, x: nat)
    requires AllHex(line) && HexDigit(c) < 16
    ensures HexValue(line + [c], x) == 16 * HexValue(line, x) + HexDigit(c)
    decreases |line|
  {
    if |line| == 0 {
      assert line + [c] == [c] && [c][1..] == [];
    } else {
      assert line[0] in line;
      HexAppend(line[1..], c, 16 * x + HexDigit(line[0]));
      assert (line + [c])[1..] == line[1..] + [c];
    }
  }

  lemma {:induction false} HexLineReads(n: nat)
    ensures AllHex(HexLine(n)) && HexValue(HexLine(n), 0) == n
    ensures n > 0 ==> HexLine(n) != [] && HexLine(n)[0] != ZERO
  {
    if n > 0 {
      HexLineReads(n / 16);
      HexAppend(HexLine(n / 16), HexLine(n)[|HexLine(n)| - 1], 0);
      if n / 16 == 0 {
        assert HexLine(n) == [] + [HexLine(n)[|HexLine(n)| - 1]];
      }
    }
  }

  lemma PlainHex(line: seq<byte>, prior: nat)
    requires AllHex(line) && |line| > 0
    ensures ScanHex(line, prior) == HexValue(line, 0) % WORD32
  {
    hide HexValue;
    assert line[0] in line;
    if |line| > 1 {
      assert line[1] in line;
    }
  }

  /** A size in hexadecimal digits is read back as it was written. */
  lemma SizeRoundTrip(n: nat, prior: nat)
    requires 0 < n < WORD32
    ensures Size(HexLine(n), prior) == n
  {
    hide HexValue, HexLine, AllHex, ScanHex;
    HexLineReads(n);
    PlainHex(HexLine(n), prior);
  }

  /** Leading zeros: digits are read as their value exactly when they do not start with '0', or are worth zero. */
  lemma LeadingZero(line: seq<byte>, prior: nat)
    requires AllHex(line) && |line| > 0 && HexValue(line, 0) < WORD32
    ensures Size(line, prior) == HexValue(line, 0) <==> line[0] != ZERO || HexValue(line, 0) == 0
  {
    hide HexValue, ScanHex, AllHex;
    PlainHex(line, prior);
  }

  /** "0a" announces ten bytes, and is taken for the last chunk. */
  lemma LeadingZeroExample()
    ensures HexValue([0x30, 0x61], 0) == 10 && Size([0x30, 0x61], 0) == 0
  {
    assert [0x30, 0x61][1..] == [0x61];
    assert HexValue([0x61], 0) == HexValue([], 10);
  }

  lemma DigitLine(d: byte, prior: nat)
    requires 0x31 <= d <= 0x39
    ensures Size([d], prior) == d - 0x30 && ScanHex([d], 0) == d - 0x30
  {
    assert [d][1..] == [];
    assert HexValue([d], 0) == HexValue([], d - 0x30);
  }
}
