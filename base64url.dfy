/** The URL- and filename-safe Base64 of app.js (`base64UrlEncode`,
    `base64UrlDecode`), together with the browser built-ins `btoa` and `atob`
    it delegates to, written out over bytes: the alphabets of sections 4 and 5
    of RFC 4648, padding dropped on output as section 3.2 allows and re-added
    on input. A "binary string" of the browser is represented by the bytes
    it holds. */
module Base64Url {
  import opened Helpers

  // ---- Alphabets (RFC 4648, Tables 1 and 2) ----

  /** The character for a 6-bit value in the standard alphabet. */
  function StdChar(i: bv8): char
    requires i < 64
  {
    if i < 26 then ('A' as int + i as int) as char
    else if i < 52 then ('a' as int + i as int - 26) as char
    else if i < 62 then ('0' as int + i as int - 52) as char
    else if i == 62 then '+'
    else '/'
  }

  predicate IsStdChar(c: char)
  {
    ('A' <= c <= 'Z') || ('a' <= c <= 'z') || ('0' <= c <= '9') || c == '+' || c == '/'
  }

  /** The 6-bit value of a character of the standard alphabet. */
  function StdIndex(c: char): bv8
    requires IsStdChar(c)
  {
    if 'A' <= c <= 'Z' then (c as int - 'A' as int) as bv8
    else if 'a' <= c <= 'z' then (c as int - 'a' as int + 26) as bv8
    else if '0' <= c <= '9' then (c as int - '0' as int + 52) as bv8
    else if c == '+' then 62
    else 63
  }

  /** Every 6-bit value survives the trip through its character. */
  lemma StdIndexOfChar(i: bv8)
    requires i < 64
    ensures IsStdChar(StdChar(i)) && StdIndex(StdChar(i)) == i
  {
    if i < 26 {
      UpperIndex(i);
    } else if i < 52 {
      LowerIndex(i);
    } else if i < 62 {
      DigitIndex(i);
    }
  }

  lemma UpperIndex(i: bv8)
    requires i < 26
    ensures IsStdChar(StdChar(i)) && StdIndex(StdChar(i)) == i
  {
  }

  lemma LowerIndex(i: bv8)
    requires 26 <= i < 52
    ensures IsStdChar(StdChar(i)) && StdIndex(StdChar(i)) == i
  {
  }

  lemma DigitIndex(i: bv8)
    requires 52 <= i < 62
    ensures IsStdChar(StdChar(i)) && StdIndex(StdChar(i)) == i
  {
  }

  /** The character for a 6-bit value in the URL- and filename-safe alphabet. */
  function UrlChar(i: bv8): char
    requires i < 64
  {
    if i == 62 then '-' else if i == 63 then '_' else StdChar(i)
  }

  predicate IsUrlChar(c: char)
  {
    ('A' <= c <= 'Z') || ('a' <= c <= 'z') || ('0' <= c <= '9') || c == '-' || c == '_'
  }

  predicate AllSextets(s: seq<bv8>)
  {
    forall k :: 0 <= k < |s| ==> s[k] < 64
  }

  function StdChars(s: seq<bv8>): (r: string)
    requires AllSextets(s)
    ensures |r| == |s|
    ensures forall k :: 0 <= k < |r| ==> IsStdChar(r[k])
  {
    seq(|s|, k requires 0 <= k < |s| => StdChar(s[k]))
  }

  function UrlChars(s: seq<bv8>): (r: string)
    requires AllSextets(s)
    ensures |r| == |s|
    ensures forall k :: 0 <= k < |r| ==> IsUrlChar(r[k])
  {
    seq(|s|, k requires 0 <= k < |s| => UrlChar(s[k]))
  }

  // ---- Bits: three bytes to four 6-bit values and back ----

  /** Three bytes as four 6-bit values, most significant bits first. */
  function Group(b0: bv8, b1: bv8, b2: bv8): (r: seq<bv8>)
    ensures |r| == 4 && AllSextets(r)
  {
    [b0 >> 2, ((b0 & 3) << 4) | (b1 >> 4), ((b1 & 15) << 2) | (b2 >> 6), b2 & 63]
  }

  /** Four 6-bit values as three bytes. */
  function Ungroup(s0: bv8, s1: bv8, s2: bv8, s3: bv8): (r: seq<bv8>)
    ensures |r| == 3
  {
    [(s0 << 2) | (s1 >> 4), (s1 << 4) | (s2 >> 2), (s2 << 6) | s3]
  }

  /** The 6-bit groups of `bytes`; a final group of one byte gives two values
      and one of two bytes gives three, the missing bytes reading as zero. */
  function EncodeSextets(bytes: seq<bv8>): (r: seq<bv8>)
    ensures 3 * |r| - 2 <= 4 * |bytes| < 3 * |r| + 1
    ensures AllSextets(r)
    decreases |bytes|
  {
    if |bytes| == 0 then []
    else if |bytes| == 1 then Group(bytes[0], 0, 0)[..2]
    else if |bytes| == 2 then Group(bytes[0], bytes[1], 0)[..3]
    else Group(bytes[0], bytes[1], bytes[2]) + EncodeSextets(bytes[3..])
  }

  /** Bytes from 6-bit values, four values giving three bytes; a final two or
      three values give one or two bytes and their leftover low bits are
      discarded. */
  function DecodeSextets(s: seq<bv8>): (r: seq<bv8>)
    requires |s| % 4 != 1
    ensures 4 * |r| <= 3 * |s| < 4 * |r| + 4
    decreases |s|
  {
    if |s| == 0 then []
    else if |s| == 2 then Ungroup(s[0], s[1], 0, 0)[..1]
    else if |s| == 3 then Ungroup(s[0], s[1], s[2], 0)[..2]
    else Ungroup(s[0], s[1], s[2], s[3]) + DecodeSextets(s[4..])
  }

  lemma FirstByteBack(b0: bv8, b1: bv8)
    ensures ((b0 >> 2) << 2) | ((((b0 & 3) << 4) | (b1 >> 4)) >> 4) == b0
  {
  }

  lemma SecondByteBack(b0: bv8, b1: bv8, b2: bv8)
    ensures ((((b0 & 3) << 4) | (b1 >> 4)) << 4) | ((((b1 & 15) << 2) | (b2 >> 6)) >> 2) == b1
  {
  }

  lemma ThirdByteBack(b1: bv8, b2: bv8)
    ensures ((((b1 & 15) << 2) | (b2 >> 6)) << 6) | (b2 & 63) == b2
  {
  }

  lemma UngroupGroup(b0: bv8, b1: bv8, b2: bv8)
    ensures var g := Group(b0, b1, b2); Ungroup(g[0], g[1], g[2], g[3]) == [b0, b1, b2]
  {
    FirstByteBack(b0, b1);
    SecondByteBack(b0, b1, b2);
    ThirdByteBack(b1, b2);
  }

  /** A final group of one byte: its first two values give it back. */
  lemma UngroupGroupOne(b0: bv8)
    ensures var g := Group(b0, 0, 0); Ungroup(g[0], g[1], 0, 0)[..1] == [b0]
  {
    FirstByteBack(b0, 0);
  }

  /** A final group of two bytes: its first three values give them back. */
  lemma UngroupGroupTwo(b0: bv8, b1: bv8)
    ensures var g := Group(b0, b1, 0); Ungroup(g[0], g[1], g[2], 0)[..2] == [b0, b1]
  {
    FirstByteBack(b0, b1);
    SecondByteBack(b0, b1, 0);
  }

  /** Decoding the 6-bit groups of `bytes` gives back `bytes`. */
  lemma {:induction false} SextetsRoundTrip(bytes: seq<bv8>)
    ensures |EncodeSextets(bytes)| % 4 != 1
    ensures DecodeSextets(EncodeSextets(bytes)) == bytes
    decreases |bytes|
  {
    EncodedLength(|bytes|, |EncodeSextets(bytes)|);
    if |bytes| == 1 || |bytes| == 2 {
      ShortRoundTrip(bytes);
    } else if |bytes| >= 3 {
      SextetsRoundTrip(bytes[3..]);
      GroupRoundTrip(bytes);
    }
  }

  lemma ShortRoundTrip(bytes: seq<bv8>)
    requires |bytes| == 1 || |bytes| == 2
    ensures DecodeSextets(EncodeSextets(bytes)) == bytes
  {
    if |bytes| == 1 {
      UngroupGroupOne(bytes[0]);
    } else {
      UngroupGroupTwo(bytes[0], bytes[1]);
    }
  }

  /** The inductive step: a whole leading group decodes back to its three
      bytes in front of whatever the rest decodes to. */
  lemma GroupRoundTrip(bytes: seq<bv8>)
    requires |bytes| >= 3
    requires |EncodeSextets(bytes[3..])| % 4 != 1
    requires DecodeSextets(EncodeSextets(bytes[3..])) == bytes[3..]
    ensures DecodeSextets(EncodeSextets(bytes)) == bytes
  {
    var e := EncodeSextets(bytes);
    var g := Group(bytes[0], bytes[1], bytes[2]);
    var rest := EncodeSextets(bytes[3..]);
    EncodeStep(bytes);
    assert |e| == |rest| + 4;
    assert e[4..] == rest;
    ModFourShift(|rest|);
    DecodeStep(e);
    assert e[0] == g[0] && e[1] == g[1] && e[2] == g[2] && e[3] == g[3];
    UngroupGroup(bytes[0], bytes[1], bytes[2]);
    assert bytes == [bytes[0], bytes[1], bytes[2]] + bytes[3..];
  }

  lemma ModFourShift(x: nat)
    ensures (x + 4) % 4 == x % 4
  {
  }

  lemma EncodeStep(bytes: seq<bv8>)
    requires |bytes| >= 3
    ensures EncodeSextets(bytes) == Group(bytes[0], bytes[1], bytes[2]) + EncodeSextets(bytes[3..])
  {
  }

  lemma DecodeStep(e: seq<bv8>)
    requires |e| >= 4 && |e| % 4 != 1
    ensures DecodeSextets(e) == Ungroup(e[0], e[1], e[2], e[3]) + DecodeSextets(e[4..])
  {
  }

  // ---- Text operations the source performs with String.replace ----

  /** Every occurrence of `from` replaced by `to` (`s.replace(/x/g, y)`). */
  function Replace(s: string, from: char, to: char): (r: string)
    ensures |r| == |s|
    ensures forall k :: 0 <= k < |s| ==> r[k] == (if s[k] == from then to else s[k])
  {
    seq(|s|, k requires 0 <= k < |s| => if s[k] == from then to else s[k])
  }

  /** The trailing run of '=' removed (`s.replace(/=+$/g, "")`). */
  function StripTrailingPadding(s: string): (r: string)
    ensures r <= s
    ensures r == [] || r[|r| - 1] != '='
    ensures forall k :: |r| <= k < |s| ==> s[k] == '='
    decreases |s|
  {
    if s != [] && s[|s| - 1] == '=' then StripTrailingPadding(s[..|s| - 1]) else s
  }

  // ---- Encoding ----

  /** The padding `btoa` appends after the characters of `n` bytes. */
  function Padding(n: nat): string
  {
    if n % 3 == 1 then "==" else if n % 3 == 2 then "=" else ""
  }

  /** `btoa` on the binary string holding `bytes`: the standard alphabet,
      padded with '=' to a multiple of four characters. */
  function Btoa(bytes: seq<bv8>): (r: string)
    ensures |r| % 4 == 0
  {
    var e := EncodeSextets(bytes);
    EncodedLength(|bytes|, |e|);
    StdChars(e) + Padding(|bytes|)
  }

  /** The character count `m` of `n` bytes is ceil(4n/3); it is never 1
      modulo 4, and the padding completes it to a multiple of four. */
  lemma EncodedLength(n: nat, m: nat)
    requires 3 * m - 2 <= 4 * n < 3 * m + 1
    ensures m == (4 * n + 2) / 3
    ensures m % 4 != 1
    ensures (m + |Padding(n)|) % 4 == 0
  {
    var q := n / 3;
    var k := n % 3;
    assert n == 3 * q + k;
    assert m == 4 * q + (if k == 0 then 0 else k + 1);
    assert 4 * n + 2 == 3 * m + (if k == 0 then 2 else if k == 1 then 0 else 1);
  }

  /** `base64UrlEncode(bytes)`: `btoa`, then '+' to '-', '/' to '_', and the
      trailing '=' removed. The result is exactly the URL-safe characters of
      the 6-bit groups, with no padding. */
  function Base64UrlEncode(bytes: seq<bv8>): (r: string)
    ensures r == UrlChars(EncodeSextets(bytes))
  {
    var e := EncodeSextets(bytes);
    var pad := Padding(|bytes|);
    StdToUrl(e, pad);
    StripPad(UrlChars(e), pad);
    StripTrailingPadding(Replace(Replace(Btoa(bytes), '+', '-'), '/', '_'))
  }

  lemma StdToUrl(e: seq<bv8>, pad: string)
    requires AllSextets(e)
    requires forall k :: 0 <= k < |pad| ==> pad[k] == '='
    ensures Replace(Replace(StdChars(e) + pad, '+', '-'), '/', '_') == UrlChars(e) + pad
  {
  }

  lemma StripPad(u: string, pad: string)
    requires u == [] || u[|u| - 1] != '='
    requires forall k :: 0 <= k < |pad| ==> pad[k] == '='
    ensures StripTrailingPadding(u + pad) == u
    decreases |pad|
  {
    if pad != [] {
      assert (u + pad)[..|u + pad| - 1] == u + pad[..|pad| - 1];
      StripPad(u, pad[..|pad| - 1]);
    } else {
      assert u + pad == u;
    }
  }

  /** The code text has ceil(4n/3) characters for n bytes, all of them from
      the URL- and filename-safe alphabet, so never '+', '/' or '='. */
  lemma EncodeForm(bytes: seq<bv8>)
    ensures |Base64UrlEncode(bytes)| == (4 * |bytes| + 2) / 3
    ensures forall k :: 0 <= k < |Base64UrlEncode(bytes)| ==> IsUrlChar(Base64UrlEncode(bytes)[k])
  {
    EncodedLength(|bytes|, |EncodeSextets(bytes)|);
  }

  // ---- Decoding ----

  /** The ASCII whitespace that `atob` skips. */
  predicate IsAsciiWhitespace(c: char)
  {
    c == '\t' || c == '\n' || c == '\U{000C}' || c == '\r' || c == ' '
  }

  function RemoveAsciiWhitespace(s: string): (r: string)
    ensures |r| <= |s|
    ensures forall k :: 0 <= k < |r| ==> !IsAsciiWhitespace(r[k])
    decreases |s|
  {
    if s == [] then []
    else (if IsAsciiWhitespace(s[0]) then [] else [s[0]]) + RemoveAsciiWhitespace(s[1..])
  }

  lemma {:induction false} NoWhitespaceUnchanged(s: string)
    requires forall k :: 0 <= k < |s| ==> !IsAsciiWhitespace(s[k])
    ensures RemoveAsciiWhitespace(s) == s
    decreases |s|
  {
    if s != [] {
      NoWhitespaceUnchanged(s[1..]);
      assert s == [s[0]] + s[1..];
    }
  }

  /** When the length is a multiple of four, one or two final '=' are dropped. */
  function DropFinalPadding(d: string): string
  {
    if |d| % 4 == 0 && |d| >= 2 && d[|d| - 1] == '=' && d[|d| - 2] == '=' then d[..|d| - 2]
    else if |d| % 4 == 0 && |d| >= 1 && d[|d| - 1] == '=' then d[..|d| - 1]
    else d
  }

  function StdIndices(d: string): (r: seq<bv8>)
    requires forall k :: 0 <= k < |d| ==> IsStdChar(d[k])
    ensures |r| == |d|
  {
    seq(|d|, k requires 0 <= k < |d| => StdIndex(d[k]))
  }

  /** `atob`: the forgiving-base64 decode of the HTML standard. It skips
      ASCII whitespace, drops one or two final '=' when the length is a
      multiple of four, fails on a length of 1 modulo 4 or on a character
      outside the standard alphabet, and discards the extra bits of a final
      partial group. */
  function Atob(data: string): (r: Option<seq<bv8>>)
    ensures r.Some? ==> 4 * |r.value| <= 3 * |data|
  {
    var d := DropFinalPadding(RemoveAsciiWhitespace(data));
    if |d| % 4 == 1 then None
    else if !(forall k :: 0 <= k < |d| ==> IsStdChar(d[k])) then None
    else Some(DecodeSextets(StdIndices(d)))
  }

  /** The padding `base64UrlDecode` re-adds: `"===".slice((len + 3) % 4)`.
      It is only '=', it completes a length that is not 1 modulo 4 to a
      multiple of four, and it is three '=' on a length of 1 modulo 4. */
  function Repad(str: string): (r: string)
    ensures forall k :: 0 <= k < |r| ==> r[k] == '='
    ensures |str| % 4 != 1 ==> (|str| + |r|) % 4 == 0 && |r| <= 2
    ensures |str| % 4 == 1 ==> |r| == 3
  {
    "==="[(|str| + 3) % 4..]
  }

  /** The bytes `base64UrlDecode(str)` returns; None where `atob` throws. */
  function DecodedBytes(str: string): Option<seq<bv8>>
  {
    Atob(Replace(Replace(str, '-', '+'), '_', '/') + Repad(str))
  }

  /** `base64UrlDecode`: re-pad, map the URL-safe characters back, let `atob`
      decode, and copy the binary string into a fresh byte array. */
  method Base64UrlDecode(str: string) returns (r: Option<seq<bv8>>)
    ensures r == DecodedBytes(str)
  {
    var pad := "==="[(|str| + 3) % 4..];
    var b64 := Replace(Replace(str, '-', '+'), '_', '/') + pad;
    var bin := Atob(b64);
    if bin.None? {
      return None;
    }
    var out := ByteArray(bin.value);
    r := Some(out[..]);
  }

  /** `new Uint8Array(bin.length)` filled by `out[i] = bin.charCodeAt(i)` for
      each index: a fresh array holding the bytes of the binary string, in
      order. */
  method ByteArray(bin: seq<bv8>) returns (out: array<bv8>)
    ensures fresh(out)
    ensures out[..] == bin
  {
    out := new bv8[|bin|];
    for i := 0 to |bin|
      invariant forall k :: 0 <= k < i ==> out[k] == bin[k]
    {
      out[i] := bin[i];
    }
  }

  /** Decoding the text of any byte sequence gives the bytes back. */
  lemma RoundTrip(bytes: seq<bv8>)
    ensures DecodedBytes(Base64UrlEncode(bytes)) == Some(bytes)
  {
    SextetsRoundTrip(bytes);
    DecodeUrlChars(EncodeSextets(bytes));
  }

  /** Decoding the URL-safe characters of 6-bit values gives the bytes those
      values describe. */
  lemma DecodeUrlChars(e: seq<bv8>)
    requires AllSextets(e) && |e| % 4 != 1
    ensures DecodedBytes(UrlChars(e)) == Some(DecodeSextets(e))
  {
    UrlToStd(e);
    var t := StdChars(e);
    assert Repad(UrlChars(e)) == Repad(t);
    AtobOfStdText(t);
    StdIndicesOfChars(e);
  }

  /** `atob` of re-padded standard characters decodes their 6-bit values. */
  lemma AtobOfStdText(t: string)
    requires forall k :: 0 <= k < |t| ==> IsStdChar(t[k])
    requires |t| % 4 != 1
    ensures Atob(t + Repad(t)) == Some(DecodeSextets(StdIndices(t)))
  {
    RepadDropped(t);
  }

  lemma UrlToStd(e: seq<bv8>)
    requires AllSextets(e)
    ensures Replace(Replace(UrlChars(e), '-', '+'), '_', '/') == StdChars(e)
  {
  }

  lemma StdIndicesOfChars(e: seq<bv8>)
    requires AllSextets(e)
    ensures StdIndices(StdChars(e)) == e
  {
    forall k | 0 <= k < |e|
      ensures StdIndices(StdChars(e))[k] == e[k]
    {
      StdIndexOfChar(e[k]);
    }
  }

  /** The padding re-added, case by case: none for a length that is a multiple
      of four, then "==", "=" and, for a length of 1 modulo 4, "===". */
  lemma RepadCases(t: string)
    ensures |t| % 4 == 0 ==> Repad(t) == ""
    ensures |t| % 4 == 1 ==> Repad(t) == "==="
    ensures |t| % 4 == 2 ==> Repad(t) == "=="
    ensures |t| % 4 == 3 ==> Repad(t) == "="
  {
    var pad := "===";
    if |t| % 4 == 0 {
      assert (|t| + 3) % 4 == 3;
      assert pad[3..] == "";
    } else if |t| % 4 == 1 {
      assert (|t| + 3) % 4 == 0;
      assert pad[0..] == "===";
    } else if |t| % 4 == 2 {
      assert (|t| + 3) % 4 == 1;
      assert pad[1..] == "==";
    } else {
      assert (|t| + 3) % 4 == 2;
      assert pad[2..] == "=";
    }
  }

  /** Text of standard characters whose length is not 1 modulo 4 comes back
      out of `atob`'s whitespace and padding handling unchanged once re-padded. */
  lemma RepadDropped(t: string)
    requires forall k :: 0 <= k < |t| ==> IsStdChar(t[k])
    requires |t| % 4 != 1
    ensures DropFinalPadding(RemoveAsciiWhitespace(t + Repad(t))) == t
  {
    RepadCases(t);
    if |t| % 4 == 0 {
      DropPad(t, "");
    } else if |t| % 4 == 2 {
      DropPad(t, "==");
    } else {
      DropPad(t, "=");
    }
  }

  lemma PaddedNoWhitespace(t: string, pad: string)
    requires forall k :: 0 <= k < |t| ==> IsStdChar(t[k])
    requires forall k :: 0 <= k < |pad| ==> pad[k] == '='
    ensures RemoveAsciiWhitespace(t + pad) == t + pad
  {
    forall k | 0 <= k < |t + pad|
      ensures !IsAsciiWhitespace((t + pad)[k])
    {
      if k < |t| {
        assert (t + pad)[k] == t[k];
      } else {
        assert (t + pad)[k] == pad[k - |t|];
      }
    }
    NoWhitespaceUnchanged(t + pad);
  }

  lemma DropPad(t: string, pad: string)
    requires forall k :: 0 <= k < |t| ==> IsStdChar(t[k])
    requires (|t| % 4 == 0 && pad == "") || (|t| % 4 == 2 && pad == "==") || (|t| % 4 == 3 && pad == "=")
    ensures DropFinalPadding(RemoveAsciiWhitespace(t + pad)) == t
  {
    PaddedNoWhitespace(t, pad);
    if pad == "" {
      DropNone(t);
      assert t + pad == t;
    } else if pad == "==" {
      DropTwo(t);
    } else {
      DropOne(t);
    }
  }

  lemma DropNone(t: string)
    requires forall k :: 0 <= k < |t| ==> IsStdChar(t[k])
    ensures DropFinalPadding(t) == t
  {
    if t != [] {
      assert IsStdChar(t[|t| - 1]);
    }
  }

  lemma DropTwo(t: string)
    requires |t| % 4 == 2
    ensures DropFinalPadding(t + "==") == t
  {
    var b := t + "==";
    assert b[|b| - 1] == '=' && b[|b| - 2] == '=';
    assert b[..|b| - 2] == t;
  }

  lemma DropOne(t: string)
    requires |t| % 4 == 3
    requires forall k :: 0 <= k < |t| ==> IsStdChar(t[k])
    ensures DropFinalPadding(t + "=") == t
  {
    var b := t + "=";
    assert b[|b| - 1] == '=' && b[|b| - 2] == t[|t| - 1];
    assert IsStdChar(t[|t| - 1]);
    assert b[..|b| - 1] == t;
  }

  /** A text whose length is 1 modulo 4 never decodes: three '=' are appended
      and at most two are dropped again. */
  lemma RejectsLengthOneModFour(str: string)
    requires |str| % 4 == 1
    ensures DecodedBytes(str) == None
  {
    RepadCases(str);
    ThreePadsRejected(Replace(Replace(str, '-', '+'), '_', '/'));
  }

  /** `atob` rejects any text followed by three '='. */
  lemma ThreePadsRejected(m: string)
    ensures Atob(m + "===") == None
  {
    RemoveKeepsSuffix(m, "===");
    TriplePadRejected(RemoveAsciiWhitespace(m));
  }

  /** Whatever precedes three '=', `atob` rejects the text. */
  lemma TriplePadRejected(r: string)
    ensures var d := DropFinalPadding(r + "==="); |d| % 4 == 1 || !(forall k :: 0 <= k < |d| ==> IsStdChar(d[k]))
  {
    var w := r + "===";
    assert w[|w| - 1] == '=' && w[|w| - 3] == '=';
    var d := DropFinalPadding(w);
    if |w| % 4 == 0 {
      assert d == w[..|w| - 2];
    } else {
      assert d == w;
    }
    assert d[|d| - 1] == '=';
  }

  /** Removing whitespace keeps a whitespace-free suffix at the end. */
  lemma RemoveKeepsSuffix(s: string, t: string)
    requires forall k :: 0 <= k < |t| ==> !IsAsciiWhitespace(t[k])
    ensures RemoveAsciiWhitespace(s + t) == RemoveAsciiWhitespace(s) + t
  {
    RemoveDistributes(s, t);
    NoWhitespaceUnchanged(t);
  }

  /** Whitespace removal works piece by piece: removing it from a
      concatenation concatenates what is left of each part. With
      NoWhitespaceUnchanged and AllWhitespaceRemoved this fixes the result
      on every text: every non-whitespace character is kept, in order. */
  lemma {:induction false} RemoveDistributes(a: string, b: string)
    ensures RemoveAsciiWhitespace(a + b) == RemoveAsciiWhitespace(a) + RemoveAsciiWhitespace(b)
    decreases |a|
  {
    if a == [] {
      assert a + b == b;
    } else {
      var head := if IsAsciiWhitespace(a[0]) then [] else [a[0]];
      assert (a + b)[0] == a[0] && (a + b)[1..] == a[1..] + b;
      RemoveDistributes(a[1..], b);
      assert head + (RemoveAsciiWhitespace(a[1..]) + RemoveAsciiWhitespace(b))
          == (head + RemoveAsciiWhitespace(a[1..])) + RemoveAsciiWhitespace(b);
    }
  }

  /** A text made only of ASCII whitespace is removed entirely. */
  lemma {:induction false} AllWhitespaceRemoved(s: string)
    requires forall k :: 0 <= k < |s| ==> IsAsciiWhitespace(s[k])
    ensures RemoveAsciiWhitespace(s) == []
    decreases |s|
  {
    if s != [] {
      AllWhitespaceRemoved(s[1..]);
    }
  }

  /** A character that is not ASCII whitespace survives whitespace removal:
      it appears in the result, at or before its old position. */
  lemma KeptChar(s: string, k: nat) returns (j: nat)
    requires k < |s| && !IsAsciiWhitespace(s[k])
    ensures j < |RemoveAsciiWhitespace(s)| && RemoveAsciiWhitespace(s)[j] == s[k]
  {
    var c := s[k];
    assert s == s[..k] + ([c] + s[k + 1..]);
    RemoveDistributes(s[..k], [c] + s[k + 1..]);
    RemoveDistributes([c], s[k + 1..]);
    assert RemoveAsciiWhitespace([c]) == [c];
    j := |RemoveAsciiWhitespace(s[..k])|;
  }

  /** Dropping the final padding removes only '=', so any other character
      stays. */
  lemma DropKeepsChar(d: string, k: nat) returns (j: nat)
    requires k < |d| && d[k] != '='
    ensures j < |DropFinalPadding(d)| && DropFinalPadding(d)[j] == d[k]
  {
    j := k;
  }

  /** A character that `atob` can neither decode nor skip, and that the
      URL-safe mapping does not turn into one it can decode, makes
      `base64UrlDecode` fail, wherever it stands in the text. */
  lemma ForeignCharRejected(str: string, k: nat)
    requires k < |str|
    requires !IsStdChar(str[k]) && str[k] != '-' && str[k] != '_' && str[k] != '='
    requires !IsAsciiWhitespace(str[k])
    ensures DecodedBytes(str) == None
  {
    var m := Replace(Replace(str, '-', '+'), '_', '/');
    var w := m + Repad(str);
    assert w[k] == str[k];
    var i := KeptChar(w, k);
    var d := DropFinalPadding(RemoveAsciiWhitespace(w));
    var j := DropKeepsChar(RemoveAsciiWhitespace(w), i);
    assert !IsStdChar(d[j]);
  }
}

