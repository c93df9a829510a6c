/**
 * The SPI connection's hexdump: the first min(len, |data|) bytes rendered
 * sixteen to a line as an 8-digit lowercase hex offset, ": ", the bytes as
 * two hex digits and a space each (short lines padded to the same width),
 * then the printable ASCII column between '|' characters. Each line is
 * returned as a string instead of being printed.
 */
module SpiConn {
  type u8 = x: int | 0 <= x < 0x100

  const BYTES_PER_LINE: nat := 16

  /* ------------------------------------------------------------- hex digits */

  /** A lowercase hex digit. */
  function HexDigit(d: nat): (c: char)
    requires d < 16
    ensures IsHexDigit(c) && HexDigitValue(c) == d
  {
    if d < 10 then ('0' as int + d) as char else ('a' as int + d - 10) as char
  }

  predicate IsHexDigit(c: char)
  {
    '0' <= c <= '9' || 'a' <= c <= 'f'
  }

  function HexDigitValue(c: char): (d: nat)
    requires IsHexDigit(c)
    ensures d < 16
  {
    if '0' <= c <= '9' then c as int - '0' as int else c as int - 'a' as int + 10
  }

  predicate AllHex(s: string)
  {
    forall i :: 0 <= i < |s| ==> IsHexDigit(s[i])
  }

  /** The value of a run of hex digits, most significant first. */
  function HexValue(s: string): nat
    requires AllHex(s)
  {
    if s == [] then 0 else HexValue(s[..|s| - 1]) * 16 + HexDigitValue(s[|s| - 1])
  }

  /** `{:02x}` of a byte: exactly two lowercase digits. */
  function Hex2(b: u8): (s: string)
    ensures |s| == 2 && AllHex(s)
  {
    [HexDigit(b / 16), HexDigit(b % 16)]
  }

  /** Reading the two digits back gives the byte. */
  lemma Hex2RoundTrip(b: u8)
    ensures HexValue(Hex2(b)) == b
  {
    var s := Hex2(b);
    assert s[..1][..0] == [];
    assert HexValue(s[..1]) == b / 16;
  }

  /** The shortest lowercase hex spelling of n, "0" for zero. */
  function HexDigits(n: nat): (s: string)
    ensures |s| > 0 && AllHex(s)
    decreases n
  {
    if n < 16 then [HexDigit(n)] else HexDigits(n / 16) + [HexDigit(n % 16)]
  }

  /** `{:08x}`: the hex spelling of n, left-padded with '0' to at least 8 characters. */
  function Hex8(n: nat): (s: string)
    ensures |s| >= 8 && AllHex(s)
  {
    var digits := HexDigits(n);
    if |digits| >= 8 then digits else seq(8 - |digits|, _ => '0') + digits
  }

  lemma {:induction false} HexDigitsValue(n: nat)
    ensures HexValue(HexDigits(n)) == n
    decreases n
  {
    var s := HexDigits(n);
    if n >= 16 {
      HexDigitsValue(n / 16);
      assert s[..|s| - 1] == HexDigits(n / 16);
    }
  }

  lemma {:induction false} HexDigitsLength(n: nat, k: nat)
    requires 0 < k && n < Pow16(k)
    ensures |HexDigits(n)| <= k
    decreases n
  {
    if n >= 16 {
      assert k > 1;
      HexDigitsLength(n / 16, k - 1);
    }
  }

  function Pow16(k: nat): (p: nat)
    ensures p > 0
  {
    if k == 0 then 1 else 16 * Pow16(k - 1)
  }

  /** Leading '0' digits add nothing to the value. */
  lemma {:induction false} LeadingZerosValue(z: nat, s: string)
    requires AllHex(s)
    ensures AllHex(seq(z, _ => '0') + s) && HexValue(seq(z, _ => '0') + s) == HexValue(s)
    decreases |s|
  {
    var t := seq(z, _ => '0') + s;
    if s == [] {
      assert t == seq(z, _ => '0');
      AllZerosValue(z);
    } else {
      assert t[..|t| - 1] == seq(z, _ => '0') + s[..|s| - 1];
      LeadingZerosValue(z, s[..|s| - 1]);
    }
  }

  lemma {:induction false} AllZerosValue(z: nat)
    ensures AllHex(seq(z, _ => '0')) && HexValue(seq(z, _ => '0')) == 0
  {
    if z > 0 {
      assert seq(z, _ => '0')[..z - 1] == seq(z - 1, _ => '0');
      AllZerosValue(z - 1);
    }
  }

  /** An offset below 2^32 prints as exactly 8 digits that read back as the offset. */
  lemma Hex8Exact(n: nat)
    requires n < 0x1_0000_0000
    ensures |Hex8(n)| == 8 && HexValue(Hex8(n)) == n
  {
    assert Pow16(8) == 0x1_0000_0000 by {
      assert Pow16(4) == 0x1_0000;
    }
    HexDigitsLength(n, 8);
    HexDigitsValue(n);
    var digits := HexDigits(n);
    if |digits| < 8 {
      LeadingZerosValue(8 - |digits|, digits);
    }
  }

  /* ----------------------------------------------------------- line layout */

  /** The ASCII column: graphic characters 0x21..0x7E and the space as themselves, every other byte as '.'. */
  function AsciiChar(b: u8): (c: char)
    ensures (0x20 <= b <= 0x7E) ==> c as int == b
    ensures !(0x20 <= b <= 0x7E) ==> c == '.'
  {
    if 0x21 <= b <= 0x7E || b == 0x20 then b as char else '.'
  }

  /** Each byte as two hex digits and a space. */
  function HexBytes(chunk: seq<u8>): (s: string)
    ensures |s| == 3 * |chunk|
  {
    if chunk == [] then [] else HexBytes(chunk[..|chunk| - 1]) + Hex2(chunk[|chunk| - 1]) + " "
  }

  function Ascii(chunk: seq<u8>): (s: string)
    ensures |s| == |chunk|
  {
    seq(|chunk|, k requires 0 <= k < |chunk| => AsciiChar(chunk[k]))
  }

  function Spaces(n: nat): (s: string)
    ensures |s| == n
  {
    seq(n, _ => ' ')
  }

  /** One output line for the chunk that starts at the given offset. */
  function HexLine(offset: nat, chunk: seq<u8>): string
    requires |chunk| <= BYTES_PER_LINE
  {
    Hex8(offset) + ": " + HexBytes(chunk) + Spaces(3 * (BYTES_PER_LINE - |chunk|)) + "|" + Ascii(chunk) + "|"
  }

  /** `chunks(16)`: chunk i of d, the last one possibly shorter. */
  function ChunkAt(d: seq<u8>, i: nat): (c: seq<u8>)
    requires i < LineCount(|d|)
    ensures 1 <= |c| <= BYTES_PER_LINE
  {
    var end := if 16 * i + 16 <= |d| then 16 * i + 16 else |d|;
    d[16 * i..end]
  }

  /** The number of chunks of n bytes: n / 16 rounded up. */
  function LineCount(n: nat): (k: nat)
    ensures 16 * k >= n && 16 * k < n + 16
  {
    (n + 15) / 16
  }

  /** The lines of the dump of all of d, one per chunk. */
  function DumpLines(d: seq<u8>): (lines: seq<string>)
    ensures |lines| == LineCount(|d|)
  {
    seq(LineCount(|d|), i requires 0 <= i < LineCount(|d|) => HexLine(16 * i, ChunkAt(d, i)))
  }

  function Min(a: nat, b: nat): nat
  {
    if a <= b then a else b
  }

  /** The body of hexdump's outer loop: offset, hex bytes, padding, ASCII column, appended piece by piece. */
  method FormatLine(offset: nat, chunk: seq<u8>) returns (line: string)
    requires |chunk| <= BYTES_PER_LINE
    ensures line == HexLine(offset, chunk)
  {
    var hex := "";
    var j := 0;
    while j < |chunk|
      invariant 0 <= j <= |chunk|
      invariant hex == HexBytes(chunk[..j])
    {
      HexBytesSnoc(chunk, j);
      hex := hex + Hex2(chunk[j]) + " ";
      j := j + 1;
    }
    assert chunk[..j] == chunk;
    var pad := "";
    var p := 0;
    while p < BYTES_PER_LINE - |chunk|
      invariant 0 <= p <= BYTES_PER_LINE - |chunk|
      invariant pad == Spaces(3 * p)
    {
      SpacesSnoc(p);
      pad := pad + "   ";
      p := p + 1;
    }
    var ascii := "";
    j := 0;
    while j < |chunk|
      invariant 0 <= j <= |chunk|
      invariant ascii == Ascii(chunk[..j])
    {
      AsciiSnoc(chunk, j);
      ascii := ascii + [AsciiChar(chunk[j])];
      j := j + 1;
    }
    assert chunk[..j] == chunk;
    line := Hex8(offset) + ": " + hex + pad + "|" + ascii + "|";
  }

  lemma HexBytesSnoc(chunk: seq<u8>, j: nat)
    requires j < |chunk|
    ensures HexBytes(chunk[..j + 1]) == HexBytes(chunk[..j]) + Hex2(chunk[j]) + " "
  {
    assert chunk[..j + 1][..j] == chunk[..j];
  }

  lemma SpacesSnoc(p: nat)
    ensures Spaces(3 * (p + 1)) == Spaces(3 * p) + "   "
  {
  }

  lemma AsciiSnoc(chunk: seq<u8>, j: nat)
    requires j < |chunk|
    ensures Ascii(chunk[..j + 1]) == Ascii(chunk[..j]) + [AsciiChar(chunk[j])]
  {
  }

  /** The first i + 1 dump lines are the first i followed by the line of chunk i. */
  lemma DumpLinesSnoc(d: seq<u8>, i: nat)
    requires i < LineCount(|d|)
    ensures DumpLines(d)[..i + 1] == DumpLines(d)[..i] + [HexLine(16 * i, ChunkAt(d, i))]
  {
    var lines := DumpLines(d);
    PrefixSnoc(lines, i);
  }

  lemma PrefixSnoc(s: seq<string>, i: nat)
    requires i < |s|
    ensures s[..i + 1] == s[..i] + [s[i]]
  {
  }

  /** hexdump: the dump lines of the first min(len, |data|) bytes. */
  method Hexdump(data: seq<u8>, len: nat) returns (lines: seq<string>)
    ensures lines == DumpLines(data[..Min(len, |data|)])
  {
    var n := Min(len, |data|);
    var d := data[..n];
    lines := [];
    var i := 0;
    while i < LineCount(n)
      invariant 0 <= i <= LineCount(n)
      invariant lines == DumpLines(d)[..i]
    {
      var line := FormatLine(16 * i, ChunkAt(d, i));
      DumpLinesSnoc(d, i);
      lines := lines + [line];
      i := i + 1;
    }
    assert DumpLines(d)[..i] == DumpLines(d);
  }

  /* ----------------------------------------------------------------- lemmas */

  /** The chunks cover the data exactly and in order: byte j is byte j % 16 of chunk j / 16, and every chunk but the last is full. */
  lemma ChunksCoverData(d: seq<u8>)
    ensures forall j :: 0 <= j < |d| ==> j / 16 < LineCount(|d|) && |ChunkAt(d, j / 16)| > j % 16 && ChunkAt(d, j / 16)[j % 16] == d[j]
    ensures forall i :: 0 <= i < LineCount(|d|) - 1 ==> |ChunkAt(d, i)| == BYTES_PER_LINE
    ensures |d| > 0 ==> |ChunkAt(d, LineCount(|d|) - 1)| == |d| - 16 * (LineCount(|d|) - 1)
  {
  }

  /** Byte k of a chunk occupies characters 3k and 3k+1 of the hex area, followed by a space. */
  lemma {:induction false} HexBytesLayout(chunk: seq<u8>, k: nat)
    requires k < |chunk|
    ensures HexBytes(chunk)[3 * k..3 * k + 2] == Hex2(chunk[k]) && HexBytes(chunk)[3 * k + 2] == ' '
    decreases |chunk|
  {
    var init := chunk[..|chunk| - 1];
    if k < |init| {
      HexBytesLayout(init, k);
      assert HexBytes(chunk)[..3 * |init|] == HexBytes(init);
    }
  }

  /** Where each piece of a line of the shape of HexLine sits, whatever the pieces hold. */
  lemma LinePieces(h: string, x: string, p: string, a: string)
    requires |h| == 8
    ensures var line := h + ": " + x + p + "|" + a + "|";
      && |line| == 12 + |x| + |p| + |a|
      && line[..8] == h
      && line[8..10] == ": "
      && line[10..10 + |x|] == x
      && line[10 + |x|..10 + |x| + |p|] == p
      && line[10 + |x| + |p|] == '|'
      && line[11 + |x| + |p|..11 + |x| + |p| + |a|] == a
      && line[11 + |x| + |p| + |a|] == '|'
  {
    var line := h + ": " + x + p + "|" + a + "|";
    var rest := x + p + "|" + a + "|";
    assert line == h + ": " + rest;
    assert line[10..] == rest;
    var rest2 := p + "|" + a + "|";
    assert rest == x + rest2;
    assert rest[|x|..] == rest2;
    var rest3 := a + "|";
    assert rest2 == p + "|" + rest3;
    assert rest2[|p| + 1..] == rest3;
  }

  /**
   * Line layout for an offset below 2^32: 8 hex digits of the offset, ": ",
   * a 48-character hex area, then '|', one ASCII character per byte, '|'.
   */
  lemma HexLineLayout(offset: nat, chunk: seq<u8>)
    requires offset < 0x1_0000_0000 && |chunk| <= BYTES_PER_LINE
    ensures var line := HexLine(offset, chunk);
      && |line| == 60 + |chunk|
      && line[..8] == Hex8(offset) && HexValue(line[..8]) == offset
      && line[8..10] == ": "
      && line[10..10 + 3 * |chunk|] == HexBytes(chunk)
      && (forall p :: 10 + 3 * |chunk| <= p < 58 ==> line[p] == ' ')
      && line[58] == '|'
      && line[59..59 + |chunk|] == Ascii(chunk)
      && line[59 + |chunk|] == '|'
  {
    Hex8Exact(offset);
    var h, x, pad, a := Hex8(offset), HexBytes(chunk), Spaces(3 * (BYTES_PER_LINE - |chunk|)), Ascii(chunk);
    assert HexLine(offset, chunk) == h + ": " + x + pad + "|" + a + "|";
    LinePieces(h, x, pad, a);
    PadIsSpaces(h + ": " + x + pad + "|" + a + "|", 10 + |x|, pad);
  }

  /** A slice of a line that holds only spaces puts a space at each of its positions. */
  lemma PadIsSpaces(line: string, start: nat, pad: string)
    requires start + |pad| <= |line| && line[start..start + |pad|] == pad
    requires forall i :: 0 <= i < |pad| ==> pad[i] == ' '
    ensures forall p :: start <= p < start + |pad| ==> line[p] == ' '
  {
    forall p | start <= p < start + |pad|
      ensures line[p] == ' '
    {
      assert line[p] == line[start..start + |pad|][p - start];
    }
  }

  /** Each ASCII character stands for its byte: printable bytes and the space as themselves, the rest as '.'. */
  lemma AsciiColumn(chunk: seq<u8>, k: nat)
    requires k < |chunk|
    ensures (0x20 <= chunk[k] <= 0x7E) ==> Ascii(chunk)[k] as int == chunk[k]
    ensures !(0x20 <= chunk[k] <= 0x7E) ==> Ascii(chunk)[k] == '.'
  {
  }

  /**
   * The dump covers exactly min(len, |data|) bytes: ceil(n / 16) lines, line i
   * built from chunk i, and the offset field of line i reads back as 16 i.
   */
  lemma DumpShape(data: seq<u8>, len: nat)
    ensures var n := Min(len, |data|);
      && |DumpLines(data[..n])| == (n + 15) / 16
      && (forall i :: 0 <= i < |DumpLines(data[..n])| ==>
            DumpLines(data[..n])[i] == HexLine(16 * i, ChunkAt(data[..n], i)))
      && (forall i :: 0 <= i < |DumpLines(data[..n])| && 16 * i < 0x1_0000_0000 ==>
            |DumpLines(data[..n])[i]| >= 8 && HexValue(DumpLines(data[..n])[i][..8]) == 16 * i)
  {
    var d := data[..Min(len, |data|)];
    forall i | 0 <= i < |DumpLines(d)| && 16 * i < 0x1_0000_0000
      ensures |DumpLines(d)[i]| >= 8 && HexValue(DumpLines(d)[i][..8]) == 16 * i
    {
      HexLineLayout(16 * i, ChunkAt(d, i));
    }
  }

}
