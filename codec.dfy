/** The share code of app.js (`encodeCode`, `decodeCode`): the record packed
    into 16 bits, framed as [version, low byte, high byte, CRC-8 of the two
    payload bytes], and written in URL-safe Base64. */
module Codec {
  import opened Helpers
  import opened Assessment
  import opened Crc
  import opened Base64Url

  /** Why `decodeCode` throws: `atob` rejects the text, fewer than four bytes,
      a first byte other than the version, or a CRC that does not match. */
  datatype DecodeError = BadBase64 | TooShort | UnsupportedVersion(version: bv8) | CrcMismatch

  datatype Result<T> = Ok(value: T) | Err(error: DecodeError)

  // ---- Encoding ----

  /** The 16-bit pack, computed with JavaScript's 32-bit operators: bits 0-1
      cost - 1, 2-3 linkability - 1, 4-5 ease - 1, 6-7 identifiability - 1,
      8-9 riskType - 1, 10-13 the mask. A level outside 1..4 spills into the
      neighbouring fields exactly as the source's `|` lets it. */
  function Pack(s: Record): bv32
  {
    PackLevels(s.cost, s.linkability, s.ease, s.identifiability, s.riskType, s.idTypesMask)
  }

  /** The pack of the record's fields: each level minus one as a 32-bit
      pattern, then shifted into place. */
  function PackLevels(cost: int, linkability: int, ease: int, identifiability: int, riskType: int, m: bv4): bv32
  {
    PackFields(Bits32(cost - 1), Bits32(linkability - 1), Bits32(ease - 1),
      Bits32(identifiability - 1), Bits32(riskType - 1), m)
  }

  /** The `|` of the shifted 32-bit field patterns. Fields that fit their
      two bits each occupy their own bits of the pack, the mask sits in bits
      10-13, and the reserved bits 14-15 (and every bit above) stay zero. */
  function PackFields(c: bv32, l: bv32, e: bv32, i: bv32, r: bv32, m: bv4): (pk: bv32)
    ensures c < 4 && l < 4 && e < 4 && i < 4 && r < 4 ==>
              pk & 0xFFFF_C000 == 0 && pk & 3 == c && (pk >> 2) & 3 == l && (pk >> 4) & 3 == e &&
              (pk >> 6) & 3 == i && (pk >> 8) & 3 == r && (pk >> 10) & 0xF == m as bv32
  {
    c | (l << 2) | (e << 4) | (i << 6) | (r << 8) | (((m as bv32) & 0xF) << 10)
  }

  /** `pack & 0xff` */
  function LowByte(pack: bv32): bv8
  {
    (pack & 0xFF) as bv8
  }

  /** `(pack >> 8) & 0xff` */
  function HighByte(pack: bv32): bv8
  {
    ((pack >> 8) & 0xFF) as bv8
  }

  /** `[pack & 0xff, (pack >> 8) & 0xff]`. */
  function Payload(s: Record): (r: seq<bv8>)
    ensures |r| == 2
  {
    [LowByte(Pack(s)), HighByte(Pack(s))]
  }

  /** The four bytes of a code: version, payload, CRC-8 of the payload. */
  function EncodeBytes(s: Record): (r: seq<bv8>)
    ensures |r| == 4 && r[0] == Version && r[1..3] == Payload(s)
    ensures r[3] == Crc8Of(r[1..3])
  {
    var payload := Payload(s);
    [Version] + payload + [Crc8Of(payload)]
  }

  /** The code text `encodeCode(s)` returns. */
  function EncodedCode(s: Record): string
  {
    Base64UrlEncode(EncodeBytes(s))
  }

  /** `encodeCode`: pack, compute the CRC with `crc8`, frame and encode. */
  method EncodeCode(s: Record) returns (code: string)
    ensures code == EncodedCode(s)
    ensures |code| == 6
    ensures forall k :: 0 <= k < |code| ==> IsUrlChar(code[k])
  {
    var payload := Payload(s);
    var crc := Crc8(payload);
    var bytes := [Version] + payload + [crc];
    code := Base64UrlEncode(bytes);
    EncodeForm(bytes);
  }

  // ---- Decoding ----

  /** `p0 | (p1 << 8)` */
  function Join(p0: bv8, p1: bv8): bv16
  {
    (p0 as bv16) | ((p1 as bv16) << 8)
  }

  /** The record read back from the payload bytes: `pack = p0 | (p1 << 8)`,
      each level is its two bits plus one, the mask is bits 10-13. Nothing
      is clamped, so a stored 3 reads back as level 4. */
  function Unpack(p0: bv8, p1: bv8): (r: Record)
    ensures InCodeRange(r)
  {
    var pack := Join(p0, p1);
    Record(
      Level(pack & 3),
      Level((pack >> 2) & 3),
      Level((pack >> 4) & 3),
      Level((pack >> 6) & 3),
      Level((pack >> 8) & 3),
      ((pack >> 10) & 0xF) as bv4)
  }

  /** `field + 1` for a two-bit field. */
  function Level(field: bv16): (r: int)
    requires field < 4
    ensures 1 <= r <= 4
  {
    if field == 0 then 1 else if field == 1 then 2 else if field == 2 then 3 else 4
  }

  /** `decodeCode` after `base64UrlDecode`: the checks in the source's order,
      then the unpacked record. Bytes after the fourth are ignored. */
  function DecodeBytes(bytes: seq<bv8>): (r: Result<Record>)
    ensures r.Ok? ==> InCodeRange(r.value)
  {
    if |bytes| < 4 then Err(TooShort)
    else if bytes[0] != Version then Err(UnsupportedVersion(bytes[0]))
    else if Crc8Of([bytes[1], bytes[2]]) != bytes[3] then Err(CrcMismatch)
    else Ok(Unpack(bytes[1], bytes[2]))
  }

  /** The outcome of `decodeCode(code)`: a record, or the error it throws. */
  function DecodedCode(code: string): Result<Record>
  {
    match DecodedBytes(code)
    case None => Err(BadBase64)
    case Some(bytes) => DecodeBytes(bytes)
  }

  /** `decodeCode`: Base64URL-decode, check length, version and CRC (computed
      with `crc8`), unpack. */
  method DecodeCode(code: string) returns (r: Result<Record>)
    ensures r == DecodedCode(code)
  {
    var decoded := Base64UrlDecode(code);
    if decoded.None? {
      return Err(BadBase64);
    }
    var bytes := decoded.value;
    if |bytes| < 4 {
      return Err(TooShort);
    }
    if bytes[0] != Version {
      return Err(UnsupportedVersion(bytes[0]));
    }
    var computed := Crc8([bytes[1], bytes[2]]);
    if computed != bytes[3] {
      return Err(CrcMismatch);
    }
    r := Ok(Unpack(bytes[1], bytes[2]));
  }

  // ---- Properties ----

  /** A level in 1..4 puts its value minus one, which fits two bits, into the
      pack, and `Level` reads that value back. */
  lemma LevelOfBits(x: int)
    requires 1 <= x <= 4
    ensures Bits32(x - 1) < 4 && Level(Bits32(x - 1) as bv16) == x
  {
    SmallBits32();
  }

  /** Fields that fit their widths come back out of the two payload bytes
      unchanged, and the reserved bits 14-15 (and every bit above) are zero. */
  lemma FieldsSurviveBytes(c: bv32, l: bv32, e: bv32, i: bv32, r: bv32, m: bv4)
    requires c < 4 && l < 4 && e < 4 && i < 4 && r < 4
    ensures PackFields(c, l, e, i, r, m) & 0xFFFF_C000 == 0
    ensures var pk := Join(LowByte(PackFields(c, l, e, i, r, m)), HighByte(PackFields(c, l, e, i, r, m)));
            pk & 3 == c as bv16 && (pk >> 2) & 3 == l as bv16 && (pk >> 4) & 3 == e as bv16 &&
            (pk >> 6) & 3 == i as bv16 && (pk >> 8) & 3 == r as bv16 &&
            ((pk >> 10) & 0xF) as bv4 == m
  {
  }

  /** The same for the levels themselves: levels in 1..4 and a mask, packed
      and split into bytes, unpack to themselves. */
  lemma LevelsSurviveBytes(cost: int, linkability: int, ease: int, identifiability: int, riskType: int, m: bv4)
    requires 1 <= cost <= 4 && 1 <= linkability <= 4 && 1 <= ease <= 4
    requires 1 <= identifiability <= 4 && 1 <= riskType <= 4
    ensures var pack := PackLevels(cost, linkability, ease, identifiability, riskType, m);
            pack & 0xFFFF_C000 == 0 &&
            Unpack(LowByte(pack), HighByte(pack)) == Record(cost, linkability, ease, identifiability, riskType, m)
  {
    LevelOfBits(cost);
    LevelOfBits(linkability);
    LevelOfBits(ease);
    LevelOfBits(identifiability);
    LevelOfBits(riskType);
    FieldsSurviveBytes(Bits32(cost - 1), Bits32(linkability - 1), Bits32(ease - 1),
      Bits32(identifiability - 1), Bits32(riskType - 1), m);
  }

  /** Packing a record whose levels are in 1..4 and unpacking the payload
      gives the record back; bits 14-15 of the pack stay zero. */
  lemma UnpackPayload(s: Record)
    requires InCodeRange(s)
    ensures Pack(s) & 0xFFFF_C000 == 0
    ensures Unpack(Payload(s)[0], Payload(s)[1]) == s
  {
    LevelsSurviveBytes(s.cost, s.linkability, s.ease, s.identifiability, s.riskType, s.idTypesMask);
  }

  /** Decoding the bytes of a record in the code range gives it back. */
  lemma BytesRoundTrip(s: Record)
    requires InCodeRange(s)
    ensures DecodeBytes(EncodeBytes(s)) == Ok(s)
  {
    var b := EncodeBytes(s);
    assert b[1..3] == [b[1], b[2]];
    UnpackPayload(s);
  }

  /** Decoding the code of a record in the code range gives it back; in
      particular every record the rater's controls produce survives a share. */
  lemma CodeRoundTrip(s: Record)
    requires InCodeRange(s)
    ensures DecodedCode(EncodedCode(s)) == Ok(s)
  {
    RoundTrip(EncodeBytes(s));
    BytesRoundTrip(s);
  }

  /** The outcome of decoding bytes, case by case, in the order the source
      checks: length, then version, then CRC. */
  lemma DecodeOutcomes(bytes: seq<bv8>)
    ensures DecodeBytes(bytes) == Err(TooShort) <==> |bytes| < 4
    ensures DecodeBytes(bytes).Err? && DecodeBytes(bytes).error.UnsupportedVersion? <==>
              |bytes| >= 4 && bytes[0] != Version
    ensures DecodeBytes(bytes) == Err(CrcMismatch) <==>
              |bytes| >= 4 && bytes[0] == Version && Crc8Of([bytes[1], bytes[2]]) != bytes[3]
    ensures DecodeBytes(bytes).Ok? <==>
              |bytes| >= 4 && bytes[0] == Version && Crc8Of([bytes[1], bytes[2]]) == bytes[3]
  {
  }

  /** Only the first four bytes matter: a longer input decodes as its first
      four bytes do. */
  lemma TrailingBytesIgnored(bytes: seq<bv8>)
    requires |bytes| >= 4
    ensures DecodeBytes(bytes) == DecodeBytes(bytes[..4])
  {
  }

  /** A stored level of 3 is not rejected: the bytes [1, 3, 0, 0x3F] carry a
      valid CRC and decode to cost 4, every other level 1 and no type. */
  lemma CostFourAccepted()
    ensures DecodeBytes([1, 3, 0, 0x3F]) == Ok(Record(4, 1, 1, 1, 1, 0))
  {
    var payload: seq<bv8> := [3, 0];
    assert UpdateByte(0x00, 3) == 0x09;
    assert UpdateByte(0x09, 0) == 0x3F;
    assert payload[1..][1..] == [];
    assert Crc8Of(payload) == 0x3F;
  }

  /** Corrupting any one byte of a code's four bytes makes decoding fail:
      the version byte is checked, and the CRC catches a change to any of
      the other three. */
  lemma DetectsCorruptedByte(s: Record, bad: seq<bv8>, k: nat)
    requires |bad| == 4 && k < 4
    requires bad[k] != EncodeBytes(s)[k]
    requires forall j :: 0 <= j < 4 && j != k ==> bad[j] == EncodeBytes(s)[j]
    ensures DecodeBytes(bad).Err?
  {
    var b := EncodeBytes(s);
    assert b[1..3] == [b[1], b[2]];
    if k == 1 || k == 2 {
      DetectsSingleByteError([b[1], b[2]], [bad[1], bad[2]], k - 1);
    }
  }

  /** The frame of the default state: version 1, the pack 0x0055 (every
      level 2 but risk type 1, no type) as the bytes 0x55 and 0x00, and
      their CRC-8, 0x4D. */
  lemma DefaultBytes()
    ensures EncodeBytes(Defaults) == [1, 0x55, 0x00, 0x4D]
  {
    SmallBits32();
    assert Pack(Defaults) == 0x55;
    var payload: seq<bv8> := [0x55, 0x00];
    assert Payload(Defaults) == payload;
    assert UpdateByte(0x00, 0x55) == 0xAC;
    assert UpdateByte(0xAC, 0x00) == 0x4D;
    assert payload[1..][1..] == [];
    assert Crc8Of(payload) == 0x4D;
  }

  /** The share code of the default state is "AVUATQ": the four frame bytes
      give the 6-bit values 0, 21, 20, 0, 19 and 16. */
  lemma DefaultCode()
    ensures EncodedCode(Defaults) == "AVUATQ"
  {
    DefaultBytes();
    var b: seq<bv8> := [1, 0x55, 0x00, 0x4D];
    assert b[3..] == [0x4D];
    assert Group(1, 0x55, 0x00) == [0, 21, 20, 0];
    assert Group(0x4D, 0, 0)[..2] == [19, 16];
    assert EncodeSextets(b[3..]) == [19, 16];
    var e: seq<bv8> := [0, 21, 20, 0, 19, 16];
    assert EncodeSextets(b) == e;
    assert UrlChars(e) == "AVUATQ";
  }

  /** `decodeCode` rethrows `atob`'s error on a character outside the
      standard alphabet that is neither '-', '_', '=' nor ASCII whitespace:
      "AV!ATQ" fails as bad Base64 before any byte is checked. */
  lemma ForeignCodeRejected(code: string, k: nat)
    requires k < |code|
    requires !IsStdChar(code[k]) && code[k] != '-' && code[k] != '_' && code[k] != '='
    requires !IsAsciiWhitespace(code[k])
    ensures DecodedCode(code) == Err(BadBase64)
  {
    ForeignCharRejected(code, k);
  }
}

