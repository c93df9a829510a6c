/**
 * The ICom packet codec: a fixed 259-byte frame made of a little-endian u16
 * payload length, a 256-byte payload and a CRC-8 byte, plus two 128-byte
 * "function" slots inside the payload that can be read and written in place.
 *
 * The CRC is table driven: polynomial x^8 + x^2 + x + 1 (0x07), initial value
 * 0, most significant bit first, no reflection and no final XOR.
 */
module IcomMsg {
  import opened Wrappers

  const PAYLOAD_MAX_LEN: nat := 256
  const MSG_MAX_LEN: nat := 259
  const FN_MAX_LEN: nat := 128

  type u8 = x: int | 0 <= x < 0x100
  type u16 = x: int | 0 <= x < 0x1_0000

  /* ---------------------------------------------------------------- CRC table */

  /** The 256 entries of the CRC lookup table, in index order, sixteen per row. */
  const CrcRows: seq<seq<bv8>> := [
    [0x00, 0x07, 0x0E, 0x09, 0x1C, 0x1B, 0x12, 0x15, 0x38, 0x3F, 0x36, 0x31, 0x24, 0x23, 0x2A, 0x2D],
    [0x70, 0x77, 0x7E, 0x79, 0x6C, 0x6B, 0x62, 0x65, 0x48, 0x4F, 0x46, 0x41, 0x54, 0x53, 0x5A, 0x5D],
    [0xE0, 0xE7, 0xEE, 0xE9, 0xFC, 0xFB, 0xF2, 0xF5, 0xD8, 0xDF, 0xD6, 0xD1, 0xC4, 0xC3, 0xCA, 0xCD],
    [0x90, 0x97, 0x9E, 0x99, 0x8C, 0x8B, 0x82, 0x85, 0xA8, 0xAF, 0xA6, 0xA1, 0xB4, 0xB3, 0xBA, 0xBD],
    [0xC7, 0xC0, 0xC9, 0xCE, 0xDB, 0xDC, 0xD5, 0xD2, 0xFF, 0xF8, 0xF1, 0xF6, 0xE3, 0xE4, 0xED, 0xEA],
    [0xB7, 0xB0, 0xB9, 0xBE, 0xAB, 0xAC, 0xA5, 0xA2, 0x8F, 0x88, 0x81, 0x86, 0x93, 0x94, 0x9D, 0x9A],
    [0x27, 0x20, 0x29, 0x2E, 0x3B, 0x3C, 0x35, 0x32, 0x1F, 0x18, 0x11, 0x16, 0x03, 0x04, 0x0D, 0x0A],
    [0x57, 0x50, 0x59, 0x5E, 0x4B, 0x4C, 0x45, 0x42, 0x6F, 0x68, 0x61, 0x66, 0x73, 0x74, 0x7D, 0x7A],
    [0x89, 0x8E, 0x87, 0x80, 0x95, 0x92, 0x9B, 0x9C, 0xB1, 0xB6, 0xBF, 0xB8, 0xAD, 0xAA, 0xA3, 0xA4],
    [0xF9, 0xFE, 0xF7, 0xF0, 0xE5, 0xE2, 0xEB, 0xEC, 0xC1, 0xC6, 0xCF, 0xC8, 0xDD, 0xDA, 0xD3, 0xD4],
    [0x69, 0x6E, 0x67, 0x60, 0x75, 0x72, 0x7B, 0x7C, 0x51, 0x56, 0x5F, 0x58, 0x4D, 0x4A, 0x43, 0x44],
    [0x19, 0x1E, 0x17, 0x10, 0x05, 0x02, 0x0B, 0x0C, 0x21, 0x26, 0x2F, 0x28, 0x3D, 0x3A, 0x33, 0x34],
    [0x4E, 0x49, 0x40, 0x47, 0x52, 0x55, 0x5C, 0x5B, 0x76, 0x71, 0x78, 0x7F, 0x6A, 0x6D, 0x64, 0x63],
    [0x3E, 0x39, 0x30, 0x37, 0x22, 0x25, 0x2C, 0x2B, 0x06, 0x01, 0x08, 0x0F, 0x1A, 0x1D, 0x14, 0x13],
    [0xAE, 0xA9, 0xA0, 0xA7, 0xB2, 0xB5, 0xBC, 0xBB, 0x96, 0x91, 0x98, 0x9F, 0x8A, 0x8D, 0x84, 0x83],
    [0xDE, 0xD9, 0xD0, 0xD7, 0xC2, 0xC5, 0xCC, 0xCB, 0xE6, 0xE1, 0xE8, 0xEF, 0xFA, 0xFD, 0xF4, 0xF3]
  ]

  /** One step of bitwise long division by 0x07, most significant bit first. */
  function ShiftStep(c: bv8): bv8
  {
    if c & 0x80 != 0 then (c << 1) ^ 0x07 else c << 1
  }

  /** The remainder of i * x^8 modulo x^8 + x^2 + x + 1: what table entry i should hold. */
  function Remainder(i: bv8): bv8
  {
    ShiftStep(ShiftStep(ShiftStep(ShiftStep(ShiftStep(ShiftStep(ShiftStep(ShiftStep(i))))))))
  }

  lemma CrcRow0(j: bv8)
    requires j < 16
    ensures CrcRows[0][j as int] == Remainder(0x00 + j)
  {
    assert CrcRows[0] == [Remainder(0x00), Remainder(0x01), Remainder(0x02), Remainder(0x03), Remainder(0x04), Remainder(0x05), Remainder(0x06), Remainder(0x07), Remainder(0x08), Remainder(0x09), Remainder(0x0A), Remainder(0x0B), Remainder(0x0C), Remainder(0x0D), Remainder(0x0E), Remainder(0x0F)];
  }

  lemma CrcRow1(j: bv8)
    requires j < 16
    ensures CrcRows[1][j as int] == Remainder(0x10 + j)
  {
    assert CrcRows[1] == [Remainder(0x10), Remainder(0x11), Remainder(0x12), Remainder(0x13), Remainder(0x14), Remainder(0x15), Remainder(0x16), Remainder(0x17), Remainder(0x18), Remainder(0x19), Remainder(0x1A), Remainder(0x1B), Remainder(0x1C), Remainder(0x1D), Remainder(0x1E), Remainder(0x1F)];
  }

  lemma CrcRow2(j: bv8)
    requires j < 16
    ensures CrcRows[2][j as int] == Remainder(0x20 + j)
  {
    assert CrcRows[2] == [Remainder(0x20), Remainder(0x21), Remainder(0x22), Remainder(0x23), Remainder(0x24), Remainder(0x25), Remainder(0x26), Remainder(0x27), Remainder(0x28), Remainder(0x29), Remainder(0x2A), Remainder(0x2B), Remainder(0x2C), Remainder(0x2D), Remainder(0x2E), Remainder(0x2F)];
  }

  lemma CrcRow3(j: bv8)
    requires j < 16
    ensures CrcRows[3][j as int] == Remainder(0x30 + j)
  {
    assert CrcRows[3] == [Remainder(0x30), Remainder(0x31), Remainder(0x32), Remainder(0x33), Remainder(0x34), Remainder(0x35), Remainder(0x36), Remainder(0x37), Remainder(0x38), Remainder(0x39), Remainder(0x3A), Remainder(0x3B), Remainder(0x3C), Remainder(0x3D), Remainder(0x3E), Remainder(0x3F)];
  }

  lemma CrcRow4(j: bv8)
    requires j < 16
    ensures CrcRows[4][j as int] == Remainder(0x40 + j)
  {
    assert CrcRows[4] == [Remainder(0x40), Remainder(0x41), Remainder(0x42), Remainder(0x43), Remainder(0x44), Remainder(0x45), Remainder(0x46), Remainder(0x47), Remainder(0x48), Remainder(0x49), Remainder(0x4A), Remainder(0x4B), Remainder(0x4C), Remainder(0x4D), Remainder(0x4E), Remainder(0x4F)];
  }

  lemma CrcRow5(j: bv8)
    requires j < 16
    ensures CrcRows[5][j as int] == Remainder(0x50 + j)
  {
    assert CrcRows[5] == [Remainder(0x50), Remainder(0x51), Remainder(0x52), Remainder(0x53), Remainder(0x54), Remainder(0x55), Remainder(0x56), Remainder(0x57), Remainder(0x58), Remainder(0x59), Remainder(0x5A), Remainder(0x5B), Remainder(0x5C), Remainder(0x5D), Remainder(0x5E), Remainder(0x5F)];
  }

  lemma CrcRow6(j: bv8)
    requires j < 16
    ensures CrcRows[6][j as int] == Remainder(0x60 + j)
  {
    assert CrcRows[6] == [Remainder(0x60), Remainder(0x61), Remainder(0x62), Remainder(0x63), Remainder(0x64), Remainder(0x65), Remainder(0x66), Remainder(0x67), Remainder(0x68), Remainder(0x69), Remainder(0x6A), Remainder(0x6B), Remainder(0x6C), Remainder(0x6D), Remainder(0x6E), Remainder(0x6F)];
  }

  lemma CrcRow7(j: bv8)
    requires j < 16
    ensures CrcRows[7][j as int] == Remainder(0x70 + j)
  {
    assert CrcRows[7] == [Remainder(0x70), Remainder(0x71), Remainder(0x72), Remainder(0x73), Remainder(0x74), Remainder(0x75), Remainder(0x76), Remainder(0x77), Remainder(0x78), Remainder(0x79), Remainder(0x7A), Remainder(0x7B), Remainder(0x7C), Remainder(0x7D), Remainder(0x7E), Remainder(0x7F)];
  }

  lemma CrcRow8(j: bv8)
    requires j < 16
    ensures CrcRows[8][j as int] == Remainder(0x80 + j)
  {
    assert CrcRows[8] == [Remainder(0x80), Remainder(0x81), Remainder(0x82), Remainder(0x83), Remainder(0x84), Remainder(0x85), Remainder(0x86), Remainder(0x87), Remainder(0x88), Remainder(0x89), Remainder(0x8A), Remainder(0x8B), Remainder(0x8C), Remainder(0x8D), Remainder(0x8E), Remainder(0x8F)];
  }

  lemma CrcRow9(j: bv8)
    requires j < 16
    ensures CrcRows[9][j as int] == Remainder(0x90 + j)
  {
    assert CrcRows[9] == [Remainder(0x90), Remainder(0x91), Remainder(0x92), Remainder(0x93), Remainder(0x94), Remainder(0x95), Remainder(0x96), Remainder(0x97), Remainder(0x98), Remainder(0x99), Remainder(0x9A), Remainder(0x9B), Remainder(0x9C), Remainder(0x9D), Remainder(0x9E), Remainder(0x9F)];
  }

  lemma CrcRowA(j: bv8)
    requires j < 16
    ensures CrcRows[10][j as int] == Remainder(0xA0 + j)
  {
    assert CrcRows[10] == [Remainder(0xA0), Remainder(0xA1), Remainder(0xA2), Remainder(0xA3), Remainder(0xA4), Remainder(0xA5), Remainder(0xA6), Remainder(0xA7), Remainder(0xA8), Remainder(0xA9), Remainder(0xAA), Remainder(0xAB), Remainder(0xAC), Remainder(0xAD), Remainder(0xAE), Remainder(0xAF)];
  }

  lemma CrcRowB(j: bv8)
    requires j < 16
    ensures CrcRows[11][j as int] == Remainder(0xB0 + j)
  {
    assert CrcRows[11] == [Remainder(0xB0), Remainder(0xB1), Remainder(0xB2), Remainder(0xB3), Remainder(0xB4), Remainder(0xB5), Remainder(0xB6), Remainder(0xB7), Remainder(0xB8), Remainder(0xB9), Remainder(0xBA), Remainder(0xBB), Remainder(0xBC), Remainder(0xBD), Remainder(0xBE), Remainder(0xBF)];
  }

  lemma CrcRowC(j: bv8)
    requires j < 16
    ensures CrcRows[12][j as int] == Remainder(0xC0 + j)
  {
    assert CrcRows[12] == [Remainder(0xC0), Remainder(0xC1), Remainder(0xC2), Remainder(0xC3), Remainder(0xC4), Remainder(0xC5), Remainder(0xC6), Remainder(0xC7), Remainder(0xC8), Remainder(0xC9), Remainder(0xCA), Remainder(0xCB), Remainder(0xCC), Remainder(0xCD), Remainder(0xCE), Remainder(0xCF)];
  }

  lemma CrcRowD(j: bv8)
    requires j < 16
    ensures CrcRows[13][j as int] == Remainder(0xD0 + j)
  {
    assert CrcRows[13] == [Remainder(0xD0), Remainder(0xD1), Remainder(0xD2), Remainder(0xD3), Remainder(0xD4), Remainder(0xD5), Remainder(0xD6), Remainder(0xD7), Remainder(0xD8), Remainder(0xD9), Remainder(0xDA), Remainder(0xDB), Remainder(0xDC), Remainder(0xDD), Remainder(0xDE), Remainder(0xDF)];
  }

  lemma CrcRowE(j: bv8)
    requires j < 16
    ensures CrcRows[14][j as int] == Remainder(0xE0 + j)
  {
    assert CrcRows[14] == [Remainder(0xE0), Remainder(0xE1), Remainder(0xE2), Remainder(0xE3), Remainder(0xE4), Remainder(0xE5), Remainder(0xE6), Remainder(0xE7), Remainder(0xE8), Remainder(0xE9), Remainder(0xEA), Remainder(0xEB), Remainder(0xEC), Remainder(0xED), Remainder(0xEE), Remainder(0xEF)];
  }

  lemma CrcRowF(j: bv8)
    requires j < 16
    ensures CrcRows[15][j as int] == Remainder(0xF0 + j)
  {
    assert CrcRows[15] == [Remainder(0xF0), Remainder(0xF1), Remainder(0xF2), Remainder(0xF3), Remainder(0xF4), Remainder(0xF5), Remainder(0xF6), Remainder(0xF7), Remainder(0xF8), Remainder(0xF9), Remainder(0xFA), Remainder(0xFB), Remainder(0xFC), Remainder(0xFD), Remainder(0xFE), Remainder(0xFF)];
  }

  lemma CrcRowsLow(k: bv8, j: bv8)
    requires k < 8 && j < 16
    ensures CrcRows[k as int][j as int] == Remainder((k << 4) | j)
  {
    if k == 0 { CrcRow0(j); }
    else if k == 1 { CrcRow1(j); }
    else if k == 2 { CrcRow2(j); }
    else if k == 3 { CrcRow3(j); }
    else if k == 4 { CrcRow4(j); }
    else if k == 5 { CrcRow5(j); }
    else if k == 6 { CrcRow6(j); }
    else if k == 7 { CrcRow7(j); }
  }

  lemma CrcRowsHigh(k: bv8, j: bv8)
    requires 8 <= k < 16 && j < 16
    ensures CrcRows[k as int][j as int] == Remainder((k << 4) | j)
  {
    if k == 8 { CrcRow8(j); }
    else if k == 9 { CrcRow9(j); }
    else if k == 10 { CrcRowA(j); }
    else if k == 11 { CrcRowB(j); }
    else if k == 12 { CrcRowC(j); }
    else if k == 13 { CrcRowD(j); }
    else if k == 14 { CrcRowE(j); }
    else if k == 15 { CrcRowF(j); }
  }

  /** The table holds 16 rows of 16 entries: exactly 256 entries. */
  lemma CrcRowsShape()
    ensures |CrcRows| == 16 && forall r :: 0 <= r < 16 ==> |CrcRows[r]| == 16
  {
  }

  lemma NibbleSplit(b: bv8)
    ensures b >> 4 < 16 && b & 0xF < 16
    ensures b == ((b >> 4) << 4) | (b & 0xF)
    ensures b as int == 16 * (b >> 4) as int + (b & 0xF) as int
  {
  }

  /** CRC_TABLE[b]: the table entry at index b, found in row b / 16 at column b % 16. */
  function TableAt(b: bv8): bv8
  {
    CrcRowsShape();
    CrcRows[(b >> 4) as int][(b & 0xF) as int]
  }
  /** Every entry of the table is the MSB-first polynomial-0x07 remainder of its index. */
  lemma CrcTableEntry(b: bv8)
    ensures TableAt(b) == Remainder(b)
  {
    var hi, lo := b >> 4, b & 0xF;
    NibbleSplit(b);
    if hi < 8 { CrcRowsLow(hi, lo); } else { CrcRowsHigh(hi, lo); }
  }

  /* --------------------------------------------------------------- CRC-8 fold */

  /** One step of the CRC register: the byte is XORed in and the result divided by the polynomial. */
  function CrcStep(crc: u8, byte: u8): u8
  {
    Remainder((crc as bv8) ^ (byte as bv8)) as int
  }

  /** The CRC of msg when the accumulator starts at crc: a left fold of CrcStep. */
  function CrcFrom(crc: u8, msg: seq<u8>): u8
    decreases |msg|
  {
    if msg == [] then crc else CrcFrom(CrcStep(crc, msg[0]), msg[1..])
  }

  /** The CRC-8 of a whole message, starting from 0. */
  function Crc(msg: seq<u8>): u8
  {
    CrcFrom(0, msg)
  }

  /** Folding a concatenation folds the second part from where the first left the accumulator. */
  lemma {:induction false} CrcFromAppend(crc: u8, xs: seq<u8>, ys: seq<u8>)
    ensures CrcFrom(crc, xs + ys) == CrcFrom(CrcFrom(crc, xs), ys)
    decreases |xs|
  {
    if xs == [] {
      assert xs + ys == ys;
    } else {
      assert (xs + ys)[1..] == xs[1..] + ys;
      CrcFromAppend(CrcStep(crc, xs[0]), xs[1..], ys);
    }
  }

  /** crc8 of the empty message is 0, and crc8 is a left fold over the table: one lookup per byte. */
  lemma CrcSnoc(xs: seq<u8>, b: u8)
    ensures Crc([]) == 0
    ensures Crc(xs + [b]) == TableAt((Crc(xs) as bv8) ^ (b as bv8)) as int
  {
    CrcFromAppend(0, xs, [b]);
    assert [b][1..] == [];
    CrcTableEntry((Crc(xs) as bv8) ^ (b as bv8));
  }

  /** Appending a message's own CRC byte drives the register to 0 (the check a receiver can make). */
  lemma CrcResidue(msg: seq<u8>)
    ensures Crc(msg + [Crc(msg)]) == 0
  {
    CrcFromAppend(0, msg, [Crc(msg)]);
    assert [Crc(msg)][1..] == [];
    assert Remainder(0) == 0;
  }

  /** crc8: the table-driven accumulator loop computes the CRC register fold. */
  method Crc8(msg: seq<u8>) returns (crc: u8)
    ensures crc == Crc(msg)
  {
    crc := 0;
    var i := 0;
    while i < |msg|
      invariant 0 <= i <= |msg|
      invariant CrcFrom(crc, msg[i..]) == Crc(msg)
    {
      assert msg[i..][1..] == msg[i + 1..];
      var index := (crc as bv8) ^ (msg[i] as bv8);
      CrcTableEntry(index);
      crc := TableAt(index) as int;
      i := i + 1;
    }
  }

  function Zeros(n: nat): (z: seq<u8>)
    ensures |z| == n && forall i :: 0 <= i < n ==> z[i] == 0
  {
    seq(n, _ => 0)
  }

  /** A run of zero bytes leaves a zero accumulator at zero. */
  lemma {:induction false} CrcFromZeros(n: nat)
    ensures CrcFrom(0, Zeros(n)) == 0
  {
    if n > 0 {
      assert Remainder(0) == 0;
      assert Zeros(n)[1..] == Zeros(n - 1);
      CrcFromZeros(n - 1);
    }
  }

  /* ------------------------------------------------------------------ packets */

  /** The value of an IONICOMPacketType: length field, payload bytes and CRC byte. */
  datatype Packet = Packet(payloadLen: u16, payload: seq<u8>, crc: u8)

  /** What every reachable packet satisfies: a 256-byte payload and a length that fits it. */
  ghost predicate WellFormed(p: Packet)
  {
    |p.payload| == PAYLOAD_MAX_LEN && p.payloadLen <= PAYLOAD_MAX_LEN
  }

  /** The two length bytes, low byte first. */
  function LenBytes(len: u16): (b: seq<u8>)
    ensures |b| == 2
  {
    [len % 0x100, len / 0x100]
  }

  /** u16::from_le_bytes: the low byte plus 256 times the high byte. */
  function LeU16(lo: u8, hi: u8): u16
  {
    lo as int + 0x100 * hi as int
  }

  /** verify_crc: false for an oversized length, otherwise the CRC over the length bytes and the first PayloadLen payload bytes matches. */
  predicate CrcVerifies(p: Packet)
    requires |p.payload| == PAYLOAD_MAX_LEN
  {
    p.payloadLen <= PAYLOAD_MAX_LEN && p.crc == Crc(LenBytes(p.payloadLen) + p.payload[..p.payloadLen])
  }

  /** new_from as written: the CRC covers all 256 payload bytes, including the zero padding. */
  function NewFromPacket(txdata: seq<u8>): (p: Packet)
    requires |txdata| <= PAYLOAD_MAX_LEN
  {
    var payload := txdata + Zeros(PAYLOAD_MAX_LEN - |txdata|);
    Packet(|txdata|, payload, Crc(LenBytes(|txdata|) + payload))
  }

  /** new_from corrected so that its CRC covers what verify_crc checks: the first PayloadLen bytes. */
  function NewFromCorrected(txdata: seq<u8>): (p: Packet)
    requires |txdata| <= PAYLOAD_MAX_LEN
  {
    var payload := txdata + Zeros(PAYLOAD_MAX_LEN - |txdata|);
    Packet(|txdata|, payload, Crc(LenBytes(|txdata|) + txdata))
  }

  /** new_dummy: length 0, all-zero payload, CRC 0. */
  function DummyPacket(): (p: Packet)
  {
    Packet(0, Zeros(PAYLOAD_MAX_LEN), 0)
  }

  /** to_byte_array: the 259-byte wire image. */
  function Encode(p: Packet): (bytes: seq<u8>)
    requires |p.payload| == PAYLOAD_MAX_LEN
  {
    LenBytes(p.payloadLen) + p.payload + [p.crc]
  }

  /** The reasons from_byte_array gives for refusing a frame. */
  datatype DecodeError = InvalidLength | DummyPackage | Corrupted | CrcCheckFailed

  /** from_byte_array: check the size, then the length field, then the CRC. */
  function Decode(rxdata: seq<u8>): Result<Packet, DecodeError>
  {
    if |rxdata| != MSG_MAX_LEN then Err(InvalidLength)
    else
      var len := LeU16(rxdata[0], rxdata[1]);
      if len == 0 then Err(DummyPackage)
      else if len > PAYLOAD_MAX_LEN then Err(Corrupted)
      else
        var p := Packet(len, rxdata[2..PAYLOAD_MAX_LEN + 2], rxdata[PAYLOAD_MAX_LEN + 2]);
        if !CrcVerifies(p) then Err(CrcCheckFailed) else Ok(p)
  }

  /** Where function slot fncode starts in the payload: fncode times the 128-byte slot size. */
  function SlotStart(fncode: u8): (start: nat)
    ensures start == fncode * FN_MAX_LEN
  {
    fncode * 128
  }

  /** The reasons get_func and set_func give for refusing. */
  datatype FuncError = OutOfBounds | FuncEmpty | ExceedsBounds

  /** get_func: the 128-byte slot fncode, if it lies inside PayloadLen and its first byte is not 0. */
  function GetFuncResult(p: Packet, fncode: u8): Result<seq<u8>, FuncError>
    requires WellFormed(p)
  {
    var start := SlotStart(fncode);
    var end := start + FN_MAX_LEN;
    if end > p.payloadLen || start >= p.payloadLen then Err(OutOfBounds)
    else if p.payload[start] != 0 then Ok(p.payload[start..end])
    else Err(FuncEmpty)
  }

  /** set_func: copy data into slot fncode, set PayloadLen to 256 and recompute the CRC. */
  function SetFuncResult(p: Packet, fncode: u8, data: seq<u8>): Result<Packet, FuncError>
    requires WellFormed(p)
  {
    var start := SlotStart(fncode);
    var end := start + |data|;
    if end > PAYLOAD_MAX_LEN || |data| > FN_MAX_LEN then Err(ExceedsBounds)
    else
      var payload := p.payload[..start] + data + p.payload[end..];
      Ok(Packet(PAYLOAD_MAX_LEN, payload, Crc(LenBytes(PAYLOAD_MAX_LEN) + payload)))
  }

  /* ------------------------------------------------------------------- lemmas */

  /** The wire image is 259 bytes: length low byte, high byte, the payload, then the CRC. */
  lemma EncodeLayout(p: Packet)
    requires |p.payload| == PAYLOAD_MAX_LEN
    ensures |Encode(p)| == MSG_MAX_LEN
    ensures Encode(p)[0] == p.payloadLen % 0x100 && Encode(p)[1] == p.payloadLen / 0x100
    ensures Encode(p)[2..PAYLOAD_MAX_LEN + 2] == p.payload
    ensures Encode(p)[PAYLOAD_MAX_LEN + 2] == p.crc
  {
  }

  /** Reading the two length bytes back, little endian, gives the length. */
  lemma LenBytesRoundTrip(len: u16)
    ensures LeU16(LenBytes(len)[0], LenBytes(len)[1]) == len
  {
  }

  /** A packet with a length in 1..256 whose CRC verifies survives encoding and decoding unchanged. */
  lemma EncodeDecode(p: Packet)
    requires WellFormed(p) && 1 <= p.payloadLen && CrcVerifies(p)
    ensures Decode(Encode(p)) == Ok(p)
  {
    EncodeLayout(p);
    LenBytesRoundTrip(p.payloadLen);
  }

  lemma DivModByte(a: int, b: int)
    requires 0 <= a < 0x100 && 0 <= b
    ensures (a + 0x100 * b) % 0x100 == a && (a + 0x100 * b) / 0x100 == b
  {
  }

  /** Two received bytes, read as a little-endian length, are the length bytes of that length. */
  lemma LenBytesOfBytes(lo: u8, hi: u8)
    ensures LenBytes(LeU16(lo, hi)) == [lo, hi]
  {
    DivModByte(lo, hi);
  }

  /** Whatever decodes is a valid packet whose encoding is exactly the bytes received. */
  lemma DecodeEncode(rxdata: seq<u8>)
    requires Decode(rxdata).Ok?
    ensures var p := Decode(rxdata).value;
      WellFormed(p) && 1 <= p.payloadLen && CrcVerifies(p) && Encode(p) == rxdata
  {
    var p := Decode(rxdata).value;
    assert p == Packet(LeU16(rxdata[0], rxdata[1]), rxdata[2..PAYLOAD_MAX_LEN + 2], rxdata[PAYLOAD_MAX_LEN + 2]);
    LenBytesOfBytes(rxdata[0], rxdata[1]);
    FrameSplit(rxdata);
  }

  /** A 259-byte frame is its two length bytes, the payload window and the CRC byte. */
  lemma FrameSplit(rxdata: seq<u8>)
    requires |rxdata| == MSG_MAX_LEN
    ensures rxdata == [rxdata[0], rxdata[1]] + rxdata[2..PAYLOAD_MAX_LEN + 2] + [rxdata[PAYLOAD_MAX_LEN + 2]]
  {
    assert rxdata == rxdata[..2] + rxdata[2..PAYLOAD_MAX_LEN + 2] + rxdata[PAYLOAD_MAX_LEN + 2..];
    assert rxdata[..2] == [rxdata[0], rxdata[1]];
  }

  /** The rejections, in the order from_byte_array checks them, stated on wire images of packets. */
  lemma DecodeRejects(rxdata: seq<u8>, p: Packet)
    requires |p.payload| == PAYLOAD_MAX_LEN
    ensures |rxdata| != MSG_MAX_LEN ==> Decode(rxdata) == Err(InvalidLength)
    ensures p.payloadLen == 0 ==> Decode(Encode(p)) == Err(DummyPackage)
    ensures p.payloadLen > PAYLOAD_MAX_LEN ==> Decode(Encode(p)) == Err(Corrupted)
    ensures 1 <= p.payloadLen <= PAYLOAD_MAX_LEN && !CrcVerifies(p) ==> Decode(Encode(p)) == Err(CrcCheckFailed)
  {
    EncodeLayout(p);
    LenBytesRoundTrip(p.payloadLen);
  }

  /** new_dummy has length 0, so its wire image is always refused as a dummy package. */
  lemma DummyIsRefused()
    ensures WellFormed(DummyPacket()) && Decode(Encode(DummyPacket())) == Err(DummyPackage)
  {
    DecodeRejects([], DummyPacket());
  }

  /** new_from as written verifies exactly when folding the zero padding into its CRC changes nothing. */
  lemma NewFromVerifiesIff(txdata: seq<u8>)
    requires |txdata| <= PAYLOAD_MAX_LEN
    ensures var p := NewFromPacket(txdata);
      WellFormed(p) && p.payload[..|txdata|] == txdata &&
      (CrcVerifies(p) <==>
        var c := Crc(LenBytes(|txdata|) + txdata);
        CrcFrom(c, Zeros(PAYLOAD_MAX_LEN - |txdata|)) == c)
  {
    var p := NewFromPacket(txdata);
    assert p.payload[..|txdata|] == txdata;
    assert LenBytes(|txdata|) + p.payload == (LenBytes(|txdata|) + txdata) + Zeros(PAYLOAD_MAX_LEN - |txdata|);
    CrcFromAppend(0, LenBytes(|txdata|) + txdata, Zeros(PAYLOAD_MAX_LEN - |txdata|));
  }

  /** With a full 256-byte payload new_from's CRC does verify, and the packet round-trips. */
  lemma NewFromFullRoundTrip(txdata: seq<u8>)
    requires |txdata| == PAYLOAD_MAX_LEN
    ensures CrcVerifies(NewFromPacket(txdata))
    ensures Decode(Encode(NewFromPacket(txdata))) == Ok(NewFromPacket(txdata))
  {
    NewFromVerifiesIff(txdata);
    assert Zeros(0) == [];
    EncodeDecode(NewFromPacket(txdata));
  }

  /** A 255-byte payload that new_from, as written, turns into a packet from_byte_array refuses. */
  function ShortPayloadWitness(): (d: seq<u8>)
    ensures |d| == 255
  {
    [0xD7] + Zeros(253) + [0x01]
  }

  /** Folding a byte in front of the rest is one table step followed by the rest. */
  lemma CrcFromCons(c: u8, b: u8, rest: seq<u8>)
    ensures CrcFrom(c, [b] + rest) == CrcFrom(CrcStep(c, b), rest)
  {
    assert ([b] + rest)[1..] == rest;
  }

  /** The four table steps the witness goes through. */
  lemma WitnessSteps()
    ensures CrcStep(0x00, 0xFF) == 0xF3
    ensures CrcStep(0xF3, 0x00) == 0xD7
    ensures CrcStep(0xD7, 0xD7) == 0x00
    ensures CrcStep(0x00, 0x01) == 0x07
    ensures CrcStep(0x07, 0x00) == 0x15
  {
    assert ((0x00 as bv8) ^ (0xFF as bv8)) as int == 0xFF;
    assert Remainder(0xFF) == 0xF3;
    assert ((0xF3 as bv8) ^ (0x00 as bv8)) as int == 0xF3;
    assert Remainder(0xF3) == 0xD7;
    assert ((0xD7 as bv8) ^ (0xD7 as bv8)) as int == 0x00;
    assert Remainder(0x00) == 0x00;
    assert ((0x00 as bv8) ^ (0x01 as bv8)) as int == 0x01;
    assert Remainder(0x01) == 0x07;
    assert ((0x07 as bv8) ^ (0x00 as bv8)) as int == 0x07;
    assert Remainder(0x07) == 0x15;
  }

  /** The length bytes of 255 followed by the first witness byte bring the CRC back to 0. */
  lemma WitnessPrefixCrc()
    ensures CrcFrom(0, [0xFF, 0x00, 0xD7]) == 0
  {
    WitnessSteps();
    assert [0xFF, 0x00, 0xD7] == [0xFF] + ([0x00] + ([0xD7] + []));
    CrcFromCons(0, 0xFF, [0x00, 0xD7]);
    CrcFromCons(0xF3, 0x00, [0xD7]);
    CrcFromCons(0xD7, 0xD7, []);
  }

  /** The CRC verify_crc computes for the witness: 0x07. */
  lemma WitnessCheckedCrc()
    ensures Crc(LenBytes(255) + ShortPayloadWitness()) == 0x07
  {
    var d := ShortPayloadWitness();
    assert LenBytes(255) + d == [0xFF, 0x00, 0xD7] + Zeros(253) + [0x01];
    CrcFromAppend(0, [0xFF, 0x00, 0xD7] + Zeros(253), [0x01]);
    CrcFromAppend(0, [0xFF, 0x00, 0xD7], Zeros(253));
    WitnessPrefixCrc();
    CrcFromZeros(253);
    WitnessSteps();
    CrcFromCons(0, 0x01, []);
    assert [0x01] + [] == [0x01];
  }

  /** One more zero byte of padding moves 0x07 to 0x15. */
  lemma WitnessPaddingCrc()
    ensures CrcFrom(0x07, Zeros(1)) == 0x15
  {
    WitnessSteps();
    assert Zeros(1) == [0] + [];
    CrcFromCons(0x07, 0x00, []);
  }

  /** new_from(d) for that d: the stored CRC is 0x15 but verify_crc computes 0x07. */
  lemma NewFromShortPayloadFailsCrc()
    ensures !CrcVerifies(NewFromPacket(ShortPayloadWitness()))
    ensures Decode(Encode(NewFromPacket(ShortPayloadWitness()))) == Err(CrcCheckFailed)
  {
    var d := ShortPayloadWitness();
    NewFromVerifiesIff(d);
    WitnessCheckedCrc();
    WitnessPaddingCrc();
    DecodeRejects([], NewFromPacket(d));
  }

  /** The corrected new_from always verifies, and with a non-empty payload it round-trips. */
  lemma NewFromCorrectedRoundTrip(txdata: seq<u8>)
    requires |txdata| <= PAYLOAD_MAX_LEN
    ensures WellFormed(NewFromCorrected(txdata)) && CrcVerifies(NewFromCorrected(txdata))
    ensures NewFromCorrected(txdata).payload[..|txdata|] == txdata
    ensures 1 <= |txdata| ==> Decode(Encode(NewFromCorrected(txdata))) == Ok(NewFromCorrected(txdata))
  {
    var p := NewFromCorrected(txdata);
    assert p.payload[..|txdata|] == txdata;
    if 1 <= |txdata| { EncodeDecode(p); }
  }

  /** get_func succeeds iff slot fncode lies wholly inside PayloadLen and starts with a non-zero byte; it then returns exactly that slot. Otherwise it reports out of bounds, or else an empty slot. */
  lemma GetFuncSpec(p: Packet, fncode: u8)
    requires WellFormed(p)
    ensures var start := SlotStart(fncode);
      && (GetFuncResult(p, fncode).Ok? <==> start + FN_MAX_LEN <= p.payloadLen && p.payload[start] != 0)
      && (GetFuncResult(p, fncode).Ok? ==> GetFuncResult(p, fncode).value == p.payload[start..start + FN_MAX_LEN])
      && (start + FN_MAX_LEN > p.payloadLen ==> GetFuncResult(p, fncode) == Err(OutOfBounds))
      && (start + FN_MAX_LEN <= p.payloadLen && p.payload[start] == 0 ==> GetFuncResult(p, fncode) == Err(FuncEmpty))
  {
  }

  /** set_func fails, changing nothing, iff the data overruns the payload or a slot; otherwise it overwrites exactly the slot window, sets the length to 256 and leaves a verifying CRC. */
  lemma SetFuncSpec(p: Packet, fncode: u8, data: seq<u8>)
    requires WellFormed(p)
    ensures SetFuncResult(p, fncode, data).Err? <==>
      SlotStart(fncode) + |data| > PAYLOAD_MAX_LEN || |data| > FN_MAX_LEN
    ensures SetFuncResult(p, fncode, data).Ok? ==>
      SlotWritten(p, SlotStart(fncode), data, SetFuncResult(p, fncode, data).value)
  {
    if SetFuncResult(p, fncode, data).Ok? {
      SetFuncWrites(p, fncode, data);
    }
  }

  lemma SetFuncWrites(p: Packet, fncode: u8, data: seq<u8>)
    requires WellFormed(p) && SetFuncResult(p, fncode, data).Ok?
    ensures SlotWritten(p, SlotStart(fncode), data, SetFuncResult(p, fncode, data).value)
  {
    var start := SlotStart(fncode);
    var payload := p.payload[..start] + data + p.payload[start + |data|..];
    SpliceFacts(p.payload, start, data);
    assert payload[..PAYLOAD_MAX_LEN] == payload;
  }

  /** q is p with data written at start: full length, a verifying CRC, the window holds data and nothing else moved. */
  ghost predicate SlotWritten(p: Packet, start: nat, data: seq<u8>, q: Packet)
    requires WellFormed(p)
  {
    && WellFormed(q) && q.payloadLen == PAYLOAD_MAX_LEN && CrcVerifies(q)
    && start + |data| <= PAYLOAD_MAX_LEN
    && q.payload[start..start + |data|] == data
    && (forall i :: 0 <= i < PAYLOAD_MAX_LEN && !(start <= i < start + |data|) ==> q.payload[i] == p.payload[i])
  }

  /** Overwriting a window of s with data: same length, the window holds data, the rest is untouched. */
  lemma SpliceFacts(s: seq<u8>, start: nat, data: seq<u8>)
    requires start + |data| <= |s|
    ensures var t := s[..start] + data + s[start + |data|..];
      && |t| == |s| && t[start..start + |data|] == data
      && forall i :: 0 <= i < |s| && !(start <= i < start + |data|) ==> t[i] == s[i]
  {
    var t := s[..start] + data + s[start + |data|..];
    forall i | 0 <= i < |s| && !(start <= i < start + |data|)
      ensures t[i] == s[i]
    {
      if i >= start + |data| {
        assert t[i] == s[start + |data|..][i - start - |data|];
      }
    }
  }

  /** A full slot written by set_func with a non-zero first byte is read back unchanged by get_func. */
  lemma SetThenGetFunc(p: Packet, fncode: u8, data: seq<u8>)
    requires WellFormed(p) && |data| == FN_MAX_LEN && data[0] != 0
    requires SetFuncResult(p, fncode, data).Ok?
    ensures WellFormed(SetFuncResult(p, fncode, data).value)
    ensures GetFuncResult(SetFuncResult(p, fncode, data).value, fncode) == Ok(data)
  {
    SetFuncSpec(p, fncode, data);
  }

  /* ------------------------------------------------------------- the packet object */

  /** IONICOMPacketType: the fields set_func updates in place. */
  class IonIcomPacket {
    var payloadLen: u16
    var payload: array<u8>
    var crc: u8

    ghost predicate Valid()
      reads this
    {
      payload.Length == PAYLOAD_MAX_LEN && payloadLen <= PAYLOAD_MAX_LEN
    }

    ghost function Value(): Packet
      reads this, payload
    {
      Packet(payloadLen, payload[..], crc)
    }

    /** new_from: copy txdata into a zeroed payload and compute the CRC over the whole payload. */
    constructor NewFrom(txdata: seq<u8>)
      requires |txdata| <= PAYLOAD_MAX_LEN
      ensures Valid() && fresh(payload)
      ensures Value() == NewFromPacket(txdata)
    {
      var buf := new u8[PAYLOAD_MAX_LEN](_ => 0);
      var i := 0;
      while i < |txdata|
        invariant 0 <= i <= |txdata|
        invariant buf[..i] == txdata[..i]
        invariant forall k :: i <= k < PAYLOAD_MAX_LEN ==> buf[k] == 0
      {
        buf[i] := txdata[i];
        i := i + 1;
      }
      assert buf[..] == txdata + Zeros(PAYLOAD_MAX_LEN - |txdata|);
      var c := Crc8(LenBytes(|txdata|) + buf[..]);
      payloadLen, payload, crc := |txdata|, buf, c;
    }

    /** new_dummy. */
    constructor NewDummy()
      ensures Valid() && fresh(payload)
      ensures Value() == DummyPacket()
    {
      var buf := new u8[PAYLOAD_MAX_LEN](_ => 0);
      assert buf[..] == Zeros(PAYLOAD_MAX_LEN);
      payloadLen, payload, crc := 0, buf, 0;
    }

    /** The struct literal from_byte_array builds before it checks the CRC. */
    constructor FromFields(len: u16, bytes: seq<u8>, c: u8)
      requires len <= PAYLOAD_MAX_LEN && |bytes| == PAYLOAD_MAX_LEN
      ensures Valid() && fresh(payload)
      ensures Value() == Packet(len, bytes, c)
    {
      var buf := new u8[PAYLOAD_MAX_LEN](k requires 0 <= k < PAYLOAD_MAX_LEN => bytes[k]);
      payloadLen, payload, crc := len, buf, c;
    }

    /** get_func. */
    method GetFunc(fncode: u8) returns (r: Result<seq<u8>, FuncError>)
      requires Valid()
      ensures r == GetFuncResult(Value(), fncode)
    {
      var start := SlotStart(fncode);
      var end := start + FN_MAX_LEN;
      if end > payloadLen || start >= payloadLen {
        return Err(OutOfBounds);
      }
      if payload[start] != 0 {
        r := Ok(payload[start..end]);
      } else {
        r := Err(FuncEmpty);
      }
    }

    /** set_func: overwrite the slot in place, then set PayloadLen and the CRC. */
    method SetFunc(fncode: u8, data: seq<u8>) returns (r: Result<(), FuncError>)
      requires Valid()
      modifies this, payload
      ensures Valid() && payload == old(payload)
      ensures match SetFuncResult(old(Value()), fncode, data)
        case Ok(q) => r.Ok? && Value() == q
        case Err(e) => r == Err(e) && Value() == old(Value())
    {
      var start := SlotStart(fncode);
      var end := start + |data|;
      if end > PAYLOAD_MAX_LEN || |data| > FN_MAX_LEN {
        return Err(ExceedsBounds);
      }
      var i := 0;
      while i < |data|
        invariant 0 <= i <= |data|
        invariant payloadLen == old(payloadLen) && crc == old(crc) && payload == old(payload)
        invariant forall k :: 0 <= k < PAYLOAD_MAX_LEN ==>
          payload[k] == if start <= k < start + i then data[k - start] else old(payload[k])
      {
        payload[start + i] := data[i];
        i := i + 1;
      }
      ghost var before := old(payload[..]);
      SpliceFacts(before, start, data);
      assert payload[..] == before[..start] + data + before[end..] by {
        var spliced := before[..start] + data + before[end..];
        forall k | 0 <= k < PAYLOAD_MAX_LEN
          ensures payload[k] == spliced[k]
        {
          if start <= k < end {
            assert spliced[k] == spliced[start..end][k - start];
          }
        }
      }
      payloadLen := PAYLOAD_MAX_LEN;
      assert payload[..payloadLen] == payload[..];
      crc := Crc8(LenBytes(payloadLen) + payload[..payloadLen]);
      r := Ok(());
    }

    /** to_byte_array. */
    method ToByteArray() returns (buffer: array<u8>)
      requires Valid()
      ensures fresh(buffer)
      ensures buffer[..] == Encode(Value())
    {
      buffer := new u8[MSG_MAX_LEN](_ => 0);
      buffer[0] := payloadLen % 0x100;
      buffer[1] := payloadLen / 0x100;
      var i := 0;
      while i < PAYLOAD_MAX_LEN
        invariant 0 <= i <= PAYLOAD_MAX_LEN
        invariant buffer[..2] == LenBytes(payloadLen)
        invariant buffer[2..i + 2] == payload[..i]
      {
        buffer[i + 2] := payload[i];
        i := i + 1;
      }
      buffer[PAYLOAD_MAX_LEN + 2] := crc;
      assert buffer[..] == buffer[..2] + buffer[2..PAYLOAD_MAX_LEN + 2] + [buffer[PAYLOAD_MAX_LEN + 2]];
    }

    /** payload_to_array: a fresh copy of the payload. */
    method PayloadToArray() returns (buffer: array<u8>)
      requires Valid()
      ensures fresh(buffer)
      ensures buffer[..] == payload[..]
    {
      buffer := new u8[PAYLOAD_MAX_LEN](_ => 0);
      var i := 0;
      while i < PAYLOAD_MAX_LEN
        invariant 0 <= i <= PAYLOAD_MAX_LEN
        invariant buffer[..i] == payload[..i]
      {
        buffer[i] := payload[i];
        i := i + 1;
      }
    }

    /** verify_crc. */
    method VerifyCrc() returns (ok: bool)
      requires Valid()
      ensures ok == CrcVerifies(Value())
    {
      if payloadLen > PAYLOAD_MAX_LEN {
        return false;
      }
      var computed := Crc8(LenBytes(payloadLen) + payload[..payloadLen]);
      ok := computed == crc;
    }

    /** from_byte_array. */
    static method FromByteArray(rxdata: seq<u8>) returns (r: Result<IonIcomPacket, DecodeError>)
      ensures Decode(rxdata).Err? ==> r == Err(Decode(rxdata).error)
      ensures Decode(rxdata).Ok? ==> r.Ok? && fresh(r.value) && fresh(r.value.payload) && r.value.Valid()
      ensures Decode(rxdata).Ok? ==> r.value.Value() == Decode(rxdata).value
    {
      if |rxdata| != MSG_MAX_LEN {
        return Err(InvalidLength);
      }
      var len := LeU16(rxdata[0], rxdata[1]);
      if len == 0 {
        return Err(DummyPackage);
      } else if len > PAYLOAD_MAX_LEN {
        return Err(Corrupted);
      }
      var packet := new IonIcomPacket.FromFields(len, rxdata[2..PAYLOAD_MAX_LEN + 2], rxdata[PAYLOAD_MAX_LEN + 2]);
      var ok := packet.VerifyCrc();
      if !ok {
        return Err(CrcCheckFailed);
      }
      r := Ok(packet);
    }
  }
}
