/** CRC-8 as app.js computes it over the two payload bytes of a code:
    polynomial 0x07, initial value 0x00, no reflection, no final XOR (the
    parameter set catalogued as CRC-8/SMBUS), bit by bit, most significant
    bit first. */
module Crc {

  const Poly: bv8 := 0x07

  /** One step of the inner loop: shift left by one, dropping bit 8, and fold
      in the polynomial when the bit shifted out was set. */
  function ShiftBit(crc: bv8): bv8
  {
    if crc & 0x80 != 0 then (crc << 1) ^ 0x07 else crc << 1
  }

  /** The eight steps of the inner loop, one per bit of a byte. */
  function Shift8(crc: bv8): bv8
  {
    ShiftBit(ShiftBit(ShiftBit(ShiftBit(ShiftBit(ShiftBit(ShiftBit(ShiftBit(crc))))))))
  }

  /** `crc ^= b` followed by the whole inner loop. */
  function UpdateByte(crc: bv8, b: bv8): bv8
  {
    Shift8(crc ^ b)
  }

  /** The register after `n` steps of the inner loop. */
  function ShiftBits(crc: bv8, n: nat): bv8
    decreases n
  {
    if n == 0 then crc else ShiftBit(ShiftBits(crc, n - 1))
  }

  function CrcFrom(crc: bv8, bytes: seq<bv8>): bv8
    decreases |bytes|
  {
    if bytes == [] then crc else CrcFrom(UpdateByte(crc, bytes[0]), bytes[1..])
  }

  /** The value `crc8(bytes)` returns. */
  function Crc8Of(bytes: seq<bv8>): bv8
  {
    CrcFrom(0x00, bytes)
  }

  /** `crc8`: the register starts at 0x00, each byte is XORed into it and
      then shifted through eight times. */
  method Crc8(bytes: seq<bv8>) returns (crc: bv8)
    ensures crc == Crc8Of(bytes)
  {
    crc := 0x00;
    for n := 0 to |bytes|
      invariant CrcFrom(crc, bytes[n..]) == Crc8Of(bytes)
    {
      assert bytes[n..][1..] == bytes[n + 1..];
      ghost var before := crc;
      crc := crc ^ bytes[n];
      for i := 0 to 8
        invariant crc == ShiftBits(before ^ bytes[n], i)
      {
        var wide: bv16 := (crc as bv16) << 1;
        if crc & 0x80 != 0 {
          wide := wide ^ 0x07;
        }
        crc := (wide & 0xFF) as bv8;
      }
      EightSteps(before ^ bytes[n]);
    }
    assert bytes[|bytes|..] == [];
  }

  /** The empty input leaves the register at its initial value. */
  lemma EmptyCrc()
    ensures Crc8Of([]) == 0x00
  {
  }

  /** The standard check value of CRC-8/SMBUS: the CRC of the ASCII text
      "123456789" is 0xF4. */
  lemma CheckValue()
    ensures Crc8Of([0x31, 0x32, 0x33, 0x34, 0x35, 0x36, 0x37, 0x38, 0x39]) == 0xF4
  {
    var s: seq<bv8> := [0x31, 0x32, 0x33, 0x34, 0x35, 0x36, 0x37, 0x38, 0x39];
    assert UpdateByte(0x00, 0x31) == 0x97;
    assert UpdateByte(0x97, 0x32) == 0x72;
    assert UpdateByte(0x72, 0x33) == 0xC0;
    assert UpdateByte(0xC0, 0x34) == 0xC2;
    assert UpdateByte(0xC2, 0x35) == 0xCB;
    assert UpdateByte(0xCB, 0x36) == 0xFD;
    assert UpdateByte(0xFD, 0x37) == 0x78;
    assert UpdateByte(0x78, 0x38) == 0xC7;
    assert UpdateByte(0xC7, 0x39) == 0xF4;
    assert s[9..] == [];
    assert s[0..][1..] == s[1..];
    assert s[1..][1..] == s[2..];
    assert s[2..][1..] == s[3..];
    assert s[3..][1..] == s[4..];
    assert s[4..][1..] == s[5..];
    assert s[5..][1..] == s[6..];
    assert s[6..][1..] == s[7..];
    assert s[7..][1..] == s[8..];
    assert s[8..][1..] == s[9..];
  }

  lemma EightSteps(crc: bv8)
    ensures ShiftBits(crc, 8) == Shift8(crc)
  {
  }

  /** One step of the register is a bijection: the bit shifted out is
      recovered from bit 0 of the result, since the polynomial's x^0 term
      is set. */
  lemma ShiftBitInjective(x: bv8, y: bv8)
    requires ShiftBit(x) == ShiftBit(y)
    ensures x == y
  {
  }

  lemma UpdateByteInjective(c1: bv8, c2: bv8, b1: bv8, b2: bv8)
    requires UpdateByte(c1, b1) == UpdateByte(c2, b2)
    ensures c1 ^ b1 == c2 ^ b2
  {
    var x, y := c1 ^ b1, c2 ^ b2;
    var x1, y1 := ShiftBit(x), ShiftBit(y);
    var x2, y2 := ShiftBit(x1), ShiftBit(y1);
    var x3, y3 := ShiftBit(x2), ShiftBit(y2);
    var x4, y4 := ShiftBit(x3), ShiftBit(y3);
    var x5, y5 := ShiftBit(x4), ShiftBit(y4);
    var x6, y6 := ShiftBit(x5), ShiftBit(y5);
    var x7, y7 := ShiftBit(x6), ShiftBit(y6);
    ShiftBitInjective(x7, y7);
    ShiftBitInjective(x6, y6);
    ShiftBitInjective(x5, y5);
    ShiftBitInjective(x4, y4);
    ShiftBitInjective(x3, y3);
    ShiftBitInjective(x2, y2);
    ShiftBitInjective(x1, y1);
    ShiftBitInjective(x, y);
  }

  /** Continuing a CRC over `xs` and then `ys` is continuing it over `xs + ys`. */
  lemma {:induction false} CrcFromAppend(crc: bv8, xs: seq<bv8>, ys: seq<bv8>)
    ensures CrcFrom(crc, xs + ys) == CrcFrom(CrcFrom(crc, xs), ys)
    decreases |xs|
  {
    if xs != [] {
      assert (xs + ys)[1..] == xs[1..] + ys;
      CrcFromAppend(UpdateByte(crc, xs[0]), xs[1..], ys);
    } else {
      assert xs + ys == ys;
    }
  }

  /** Two different register values stay different over any further bytes. */
  lemma {:induction false} CrcFromInjective(c1: bv8, c2: bv8, bytes: seq<bv8>)
    requires CrcFrom(c1, bytes) == CrcFrom(c2, bytes)
    ensures c1 == c2
    decreases |bytes|
  {
    if bytes != [] {
      CrcFromInjective(UpdateByte(c1, bytes[0]), UpdateByte(c2, bytes[0]), bytes[1..]);
      UpdateByteInjective(c1, c2, bytes[0], bytes[0]);
    }
  }

  /** The CRC of `s` seen from position `i`: the prefix before it, byte `i`,
      then the rest. */
  lemma CrcSplit(s: seq<bv8>, i: nat)
    requires i < |s|
    ensures Crc8Of(s) == CrcFrom(UpdateByte(CrcFrom(0x00, s[..i]), s[i]), s[i + 1..])
  {
    assert s == s[..i] + s[i..];
    CrcFromAppend(0x00, s[..i], s[i..]);
    assert s[i..][1..] == s[i + 1..];
  }

  /** Every error confined to one byte changes the CRC, whatever the length
      of the input; in particular every single-bit error does. */
  lemma DetectsSingleByteError(a: seq<bv8>, b: seq<bv8>, i: nat)
    requires |a| == |b| && i < |a|
    requires a[i] != b[i]
    requires forall j :: 0 <= j < |a| && j != i ==> a[j] == b[j]
    ensures Crc8Of(a) != Crc8Of(b)
  {
    assert a[..i] == b[..i];
    assert a[i + 1..] == b[i + 1..];
    CrcSplit(a, i);
    CrcSplit(b, i);
    var c := CrcFrom(0x00, a[..i]);
    if Crc8Of(a) == Crc8Of(b) {
      CrcFromInjective(UpdateByte(c, a[i]), UpdateByte(c, b[i]), a[i + 1..]);
      UpdateByteInjective(c, c, a[i], b[i]);
      assert false;
    }
  }
}
