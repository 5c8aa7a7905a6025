/** The UTF-8 codec of tools/utf8.h: `encode` of a range of code units and
    `decode` of a byte range into wide characters, with the `std::string`
    and `std::wstring` wrappers.

    Encoding follows the bit layout of section 3 of RFC 3629. Decoding is
    modelled twice: `DecodeAsWritten` keeps the source's four-byte branch,
    which shifts the wrong bits of the lead byte, and `Decode` has the
    corrected branch. The `std::string` wrapper is modelled the same way:
    `DecodeString` is the source's, `DecodeStringFixed` the corrected one
    that the dictionary conversion and the formatter are stated against. */
module Utf8 {
  import opened Chars

  // ---------------------------------------------------------------- encode

  /** Number of bytes `encode` emits for one 32-bit code unit. */
  function EncodedLength(w: Wide): nat {
    if w <= 0x7F then 1 else if w <= 0x7FF then 2 else if w <= 0xFFFF then 3 else 4
  }

  /** The bytes `encode` emits for one code unit. Each byte is the source's
      shift-and-or expression cut to 8 bits; where the shifted value fits
      below the or-ed prefix the or is an addition, and for the four-byte
      lead `((w >> 18) | 0xF0)` cut to 8 bits keeps only the low four bits of
      `w >> 18`. */
  function EncodeUnit(w: Wide): (r: seq<Byte>)
    ensures |r| == EncodedLength(w)
    ensures w <= 0x7F ==> r == [w]
  {
    if w <= 0x7F then [w]
    else if w <= 0x7FF then [0xC0 + w / 64, 0x80 + w % 64]
    else if w <= 0xFFFF then [0xE0 + w / 4096, 0x80 + (w / 64) % 64, 0x80 + w % 64]
    else [0xF0 + (w / 0x4_0000) % 16, 0x80 + (w / 4096) % 64, 0x80 + (w / 64) % 64, 0x80 + w % 64]
  }

  /** The bit layout of section 3 of RFC 3629: a lead byte announcing the
      length, continuation bytes 10xxxxxx, and payload bits that reassemble
      into the code unit (for four bytes, as long as the unit fits the 21
      payload bits). */
  lemma {:induction false} EncodeUnitLayout(w: Wide)
    ensures var r := EncodeUnit(w);
      && (forall i :: 1 <= i < |r| ==> 0x80 <= r[i] < 0xC0)
      && (|r| == 2 ==> 0xC0 <= r[0] < 0xE0 && TwoByteValue(r[0], r[1]) == w)
      && (|r| == 3 ==> 0xE0 <= r[0] < 0xF0 && ThreeByteValue(r[0], r[1], r[2]) == w)
      && (|r| == 4 ==> 0xF0 <= r[0])
      && (|r| == 4 && w < 0x20_0000 ==> r[0] < 0xF8 && FourByteFixed(r[0], r[1], r[2], r[3]) == w)
  {
    if 0x7F < w <= 0x7FF {
      TwoByteLayout(w);
    } else if 0x7FF < w <= 0xFFFF {
      ThreeByteLayout(w);
    } else if 0xFFFF < w < 0x20_0000 {
      FourByteLayout(w);
    }
  }

  lemma TwoByteLayout(w: Wide)
    requires 0x7F < w <= 0x7FF
    ensures 0xC0 <= 0xC0 + w / 64 < 0xE0
    ensures TwoByteValue(0xC0 + w / 64, 0x80 + w % 64) == w
  {
    var q6 := w / 64;
    assert w == q6 * 64 + w % 64;
    assert (0xC0 + q6) % 32 == q6;
  }

  lemma ThreeByteLayout(w: Wide)
    requires 0x7FF < w <= 0xFFFF
    ensures 0xE0 <= 0xE0 + w / 4096 < 0xF0
    ensures ThreeByteValue(0xE0 + w / 4096, 0x80 + (w / 64) % 64, 0x80 + w % 64) == w
  {
    var q6, q12 := w / 64, w / 4096;
    assert w == q6 * 64 + w % 64;
    assert q6 == q12 * 64 + q6 % 64 by { assert q12 == q6 / 64; }
    assert (0xE0 + q12) % 16 == q12;
    assert (0x80 + q6 % 64) % 64 == q6 % 64;
  }

  lemma {:induction false} FourByteLayout(w: Wide)
    requires 0xFFFF < w < 0x20_0000
    ensures 0xF0 + (w / 0x4_0000) % 16 < 0xF8
    ensures FourByteFixed(0xF0 + (w / 0x4_0000) % 16, 0x80 + (w / 4096) % 64, 0x80 + (w / 64) % 64, 0x80 + w % 64) == w
  {
    var q6, q12, q18 := w / 64, w / 4096, w / 0x4_0000;
    assert w == q6 * 64 + w % 64;
    assert q6 == q12 * 64 + q6 % 64 by { assert q12 == q6 / 64; }
    assert q12 == q18 * 64 + q12 % 64 by { assert q18 == q12 / 64; }
    assert q18 < 8;
    assert (0xF0 + q18 % 16) % 8 == q18;
    assert (0x80 + q12 % 64) % 64 == q12 % 64;
    assert (0x80 + q6 % 64) % 64 == q6 % 64;
  }

  /** The templated `encode`: the encodings of the units, one after the
      other. */
  function Encode(units: seq<Wide>): (r: seq<Byte>)
    ensures |r| >= |units|
    ensures units == [] <==> r == []
  {
    if units == [] then [] else EncodeUnit(units[0]) + Encode(units[1..])
  }

  /** `encode(const std::string&)`: each `char` is read as an unsigned byte,
      so ASCII is copied and bytes from 0x80 up become two-byte sequences;
      either decoder reads every byte back as the code point of the same
      value (the bytes are taken as Latin-1). */
  function EncodeNarrow(s: seq<Byte>): (r: seq<Byte>)
    ensures |s| <= |r| <= 2 * |s|
    ensures (forall i :: 0 <= i < |s| ==> s[i] < 0x80) ==> r == s
    ensures Decode(r) == Decoded(s, |r|)
    ensures DecodeString(r) == s
  {
    NarrowLength(s);
    AsciiIdentity(s);
    RoundTrip(s);
    RoundTripAsWritten(s);
    Encode(s)
  }

  /** A byte value encodes into one byte below 0x80 and two from there. */
  lemma {:induction false} NarrowLength(s: seq<Byte>)
    ensures |Encode(s)| <= 2 * |s|
    decreases |s|
  {
    if s != [] {
      NarrowLength(s[1..]);
    }
  }

  /** The `unsigned short` cast `encode(const std::wstring&)` applies to
      every unit before encoding it. */
  function Truncate16(s: seq<Wide>): (r: seq<Wide>)
    ensures |r| == |s|
    ensures forall i :: 0 <= i < |s| ==> r[i] == s[i] % 0x1_0000
  {
    seq(|s|, i requires 0 <= i < |s| => s[i] % 0x1_0000)
  }

  /** `encode(const std::wstring&)`: units are cut to 16 bits first, so the
      four-byte branch is never taken and no byte is 0xF0 or above. */
  function EncodeWide(s: seq<Wide>): (r: seq<Byte>)
    ensures forall i :: 0 <= i < |r| ==> r[i] < 0xF0
  {
    var t := Truncate16(s);
    NarrowUnitsEncodeBelowF0(t);
    Encode(t)
  }

  lemma {:induction false} NarrowUnitsEncodeBelowF0(units: seq<Wide>)
    requires forall i :: 0 <= i < |units| ==> units[i] <= 0xFFFF
    ensures forall i :: 0 <= i < |Encode(units)| ==> Encode(units)[i] < 0xF0
  {
    if units != [] {
      NarrowUnitsEncodeBelowF0(units[1..]);
    }
  }

  // ---------------------------------------------------------------- decode

  /** What the four-byte branch makes of a lead byte and three continuation
      bytes. */
  type FourByteRule = (Byte, Byte, Byte, Byte) -> Wide

  /** The four-byte branch as written: `(lead & 0x03) << 3` or-ed with the
      payloads of the continuation bytes at 12, 6 and 0 bits. The lead bits
      land on bits 3 and 4, on top of the last continuation byte's payload. */
  function FourByteAsWritten(b0: Byte, b1: Byte, b2: Byte, b3: Byte): Wide
  {
    var low := ((((b0 as int % 4) * 8) as bv8) | ((b3 as int % 64) as bv8)) as int;
    (b1 as int % 64) * 4096 + (b2 as int % 64) * 64 + low
  }

  /** The four-byte branch as RFC 3629 lays it out: the low three bits of the
      lead byte are bits 18 to 20 of the code point. */
  function FourByteFixed(b0: Byte, b1: Byte, b2: Byte, b3: Byte): Wide
  {
    (b0 as int % 8) * 0x4_0000 + (b1 as int % 64) * 4096 + (b2 as int % 64) * 64 + b3 as int % 64
  }

  /** Length of the sequence a lead byte announces, as `decode`'s switch on
      `lead & 0xF0` reads it: 0x80 to 0xBF fall into the one-byte default
      branch. */
  function SequenceLength(lead: Byte): nat {
    if lead >= 0xF0 then 4 else if lead >= 0xE0 then 3 else if lead >= 0xC0 then 2 else 1
  }

  /** The value of a two-byte sequence: five bits of the lead byte, six of
      the continuation byte. */
  function TwoByteValue(b0: Byte, b1: Byte): int {
    (b0 as int % 32) * 64 + b1 as int % 64
  }

  /** The value of a three-byte sequence: four bits of the lead byte, six of
      each continuation byte. */
  function ThreeByteValue(b0: Byte, b1: Byte, b2: Byte): int {
    (b0 as int % 16) * 4096 + (b1 as int % 64) * 64 + b2 as int % 64
  }

  /** One turn of `decode`'s loop: a unit and the number of bytes it used, or
      a stop at this lead byte. */
  datatype Step = Emit(unit: Wide, length: nat) | Stop

  function DecodeStep(b: seq<Byte>, four: FourByteRule): (s: Step)
    requires |b| > 0
    ensures s.Stop? <==> (|b| < SequenceLength(b[0])
                         || (SequenceLength(b[0]) == 2 && TwoByteValue(b[0], b[1]) < 0x7F))
    ensures s.Emit? ==> s.length == SequenceLength(b[0])
    ensures b[0] < 0xC0 ==> s == Emit(b[0], 1)
    ensures s.Emit? && s.length == 2 ==> s.unit >= 0x7F
  {
    var lead := b[0];
    if lead >= 0xF0 then
      if |b| < 4 then Stop else Emit(four(b[0], b[1], b[2], b[3]), 4)
    else if lead >= 0xE0 then
      if |b| < 3 then Stop else Emit(ThreeByteValue(b[0], b[1], b[2]), 3)
    else if lead >= 0xC0 then
      if |b| < 2 then Stop
      else
        var wide := TwoByteValue(b[0], b[1]);
        if wide < 0x7F then Stop else Emit(wide, 2)
    else Emit(lead, 1)
  }

  /** The units `decode` wrote and the position it returned: `|b|` when it
      consumed everything, otherwise the lead byte of the sequence it could
      not decode. */
  datatype Decoded = Decoded(units: seq<Wide>, stop: nat)

  function DecodeWith(b: seq<Byte>, four: FourByteRule): (d: Decoded)
    ensures d.stop <= |b|
    ensures d.stop < |b| ==> DecodeStep(b[d.stop..], four).Stop?
    ensures |d.units| <= d.stop
    decreases |b|
  {
    if b == [] then Decoded([], 0)
    else
      match DecodeStep(b, four)
      case Stop => Decoded([], 0)
      case Emit(u, n) =>
        var rest := DecodeWith(b[n..], four);
        assert b[n..][rest.stop..] == b[n + rest.stop..];
        Decoded([u] + rest.units, n + rest.stop)
  }

  /** Input without a four-byte lead byte, where the four-byte branch
      never runs. */
  predicate NoFourByteLead(b: seq<Byte>) {
    forall i :: 0 <= i < |b| ==> b[i] < 0xF0
  }

  /** `decode` with the source's four-byte branch: it decodes exactly as
      the corrected `decode` does on input without a four-byte lead
      byte. */
  function DecodeAsWritten(b: seq<Byte>): (d: Decoded)
    ensures d.stop <= |b| && |d.units| <= d.stop
    ensures NoFourByteLead(b) ==> d == DecodeWith(b, FourByteFixed)
  {
    DecodeRulesAgree(b, FourByteAsWritten, FourByteFixed);
    DecodeWith(b, FourByteAsWritten)
  }

  /** `decode` with the corrected four-byte branch: it consumes the whole
      input, or stops at the lead byte of a sequence it cannot decode; it
      writes at most one unit per byte, and ASCII comes back as it is. */
  function Decode(b: seq<Byte>): (d: Decoded)
    ensures d.stop <= |b| && |d.units| <= d.stop
    ensures d.stop < |b| ==> DecodeStep(b[d.stop..], FourByteFixed).Stop?
    ensures (forall i :: 0 <= i < |b| ==> b[i] < 0x80) ==> d == Decoded(b, |b|)
  {
    AsciiDecodes(b);
    DecodeWith(b, FourByteFixed)
  }

  /** `decode(const std::string&)` as written, on the source's four-byte
      branch: the units only; the returned position, and with it any
      undecodable tail, is dropped. Without a byte from 0xF0 up it gives
      what the corrected wrapper gives. */
  function DecodeString(b: seq<Byte>): (w: seq<Wide>)
    ensures |w| <= |b|
    ensures NoFourByteLead(b) ==> w == DecodeStringFixed(b)
    ensures (forall i :: 0 <= i < |b| ==> b[i] < 0x80) ==> w == b
  {
    DecodeAsWritten(b).units
  }

  /** `decode(const std::string&)` on the corrected four-byte branch. */
  function DecodeStringFixed(b: seq<Byte>): (w: seq<Wide>)
    ensures |w| <= |b|
    ensures (forall i :: 0 <= i < |b| ==> b[i] < 0x80) ==> w == b
  {
    Decode(b).units
  }

  /** ASCII bytes decode one unit each, to themselves. */
  lemma {:induction false} AsciiDecodes(b: seq<Byte>)
    ensures (forall i :: 0 <= i < |b| ==> b[i] < 0x80) ==> DecodeWith(b, FourByteFixed) == Decoded(b, |b|)
    decreases |b|
  {
    if b != [] && forall i :: 0 <= i < |b| ==> b[i] < 0x80 {
      assert DecodeStep(b, FourByteFixed) == Emit(b[0], 1);
      assert forall i :: 0 <= i < |b[1..]| ==> b[1..][i] == b[i + 1];
      AsciiDecodes(b[1..]);
      assert b == [b[0]] + b[1..];
    }
  }

  /** The four-byte rule only matters where a four-byte lead byte is
      read. */
  lemma {:induction false} DecodeRulesAgree(b: seq<Byte>, four: FourByteRule, other: FourByteRule)
    ensures NoFourByteLead(b) ==> DecodeWith(b, four) == DecodeWith(b, other)
    decreases |b|
  {
    if b != [] && NoFourByteLead(b) {
      assert DecodeStep(b, four) == DecodeStep(b, other);
      match DecodeStep(b, four)
      case Stop =>
      case Emit(u, n) =>
        assert NoFourByteLead(b[n..]) by {
          assert forall i :: 0 <= i < |b[n..]| ==> b[n..][i] == b[n + i];
        }
        DecodeRulesAgree(b[n..], four, other);
    }
  }

  // ---------------------------------------------------------------- laws

  /** A four-byte rule inverts `encode` on `w` (trivially so when `w` does not
      take the four-byte branch). */
  predicate Inverts(four: FourByteRule, w: Wide)
  {
    EncodedLength(w) == 4 ==>
      var r := EncodeUnit(w);
      four(r[0], r[1], r[2], r[3]) == w
  }

  lemma {:induction false} FixedInverts(w: Wide)
    requires w < 0x20_0000
    ensures Inverts(FourByteFixed, w)
  {
    EncodeUnitLayout(w);
  }

  /** Or-ing a zero into a six-bit payload leaves it as it is. */
  lemma OrZero(x: int)
    requires 0 <= x < 64
    ensures ((0 as bv8) | (x as bv8)) as int == x
  {
  }

  /** When the lead byte carries no payload bits the two rules agree. */
  lemma {:induction false} AsWrittenAgreesOnPlainLead(b0: Byte, b1: Byte, b2: Byte, b3: Byte)
    requires b0 % 8 == 0
    ensures FourByteAsWritten(b0, b1, b2, b3) == FourByteFixed(b0, b1, b2, b3)
  {
    OrZero(b3 % 64);
  }

  /** The source's rule inverts the four-byte branch only below 0x40000,
      where the lead byte carries no payload bits. */
  lemma {:induction false} AsWrittenInverts(w: Wide)
    requires w < 0x4_0000
    ensures Inverts(FourByteAsWritten, w)
  {
    if EncodedLength(w) == 4 {
      var r := EncodeUnit(w);
      assert r[0] == 0xF0 by { assert w / 0x4_0000 == 0; }
      AsWrittenAgreesOnPlainLead(r[0], r[1], r[2], r[3]);
      FixedInverts(w);
    }
  }

  /** One emitting turn of `decode`'s loop. */
  lemma DecodeWithEmit(b: seq<Byte>, four: FourByteRule, u: Wide, n: nat)
    requires |b| > 0 && DecodeStep(b, four) == Emit(u, n)
    ensures n <= |b|
    ensures DecodeWith(b, four)
         == Decoded([u] + DecodeWith(b[n..], four).units, n + DecodeWith(b[n..], four).stop)
  {
  }

  /** Decoding the front of a buffer that starts with an encoded unit gives
      that unit back and skips exactly its bytes. */
  lemma {:induction false} DecodeStepOfUnit(w: Wide, rest: seq<Byte>, four: FourByteRule)
    requires Inverts(four, w)
    ensures DecodeStep(EncodeUnit(w) + rest, four) == Emit(w, EncodedLength(w))
  {
    var r := EncodeUnit(w);
    var b := r + rest;
    EncodeUnitLayout(w);
    assert b[..|r|] == r;
    if |r| == 4 {
      assert b[0] == r[0] && b[1] == r[1] && b[2] == r[2] && b[3] == r[3];
    }
  }

  /** Decoding an encoded sequence followed by anything yields the sequence,
      then whatever the rest decodes to. */
  lemma {:induction false} DecodeEncodeConcat(s: seq<Wide>, rest: seq<Byte>, four: FourByteRule)
    requires forall i :: 0 <= i < |s| ==> Inverts(four, s[i])
    ensures DecodeWith(Encode(s) + rest, four)
         == Decoded(s + DecodeWith(rest, four).units, |Encode(s)| + DecodeWith(rest, four).stop)
    decreases |s|
  {
    if s == [] {
      assert Encode(s) + rest == rest;
    } else {
      var tail := Encode(s[1..]) + rest;
      DecodeEncodeConcat(s[1..], rest, four);
      DecodeFront(s, rest, four);
      Reassemble(s, DecodeWith(rest, four), DecodeWith(tail, four), |EncodeUnit(s[0])|, |Encode(s[1..])|);
    }
  }

  /** The first turn of the loop over an encoded sequence: its first unit,
      then the decoding of the remaining bytes. */
  lemma {:induction false} DecodeFront(s: seq<Wide>, rest: seq<Byte>, four: FourByteRule)
    requires |s| > 0 && Inverts(four, s[0])
    ensures var tail := DecodeWith(Encode(s[1..]) + rest, four);
      DecodeWith(Encode(s) + rest, four)
      == Decoded([s[0]] + tail.units, |EncodeUnit(s[0])| + tail.stop)
  {
    var r := EncodeUnit(s[0]);
    var tail := Encode(s[1..]) + rest;
    var b := Encode(s) + rest;
    assert b == r + tail;
    DecodeStepOfUnit(s[0], tail, four);
    DecodeWithEmit(b, four, s[0], |r|);
    assert b[|r|..] == tail;
  }

  /** The sequence bookkeeping of one induction step. */
  lemma Reassemble(s: seq<Wide>, d: Decoded, t: Decoded, head: nat, encoded: nat)
    requires |s| > 0
    requires t == Decoded(s[1..] + d.units, encoded + d.stop)
    ensures Decoded([s[0]] + t.units, head + t.stop) == Decoded(s + d.units, head + encoded + d.stop)
  {
    assert [s[0]] + (s[1..] + d.units) == ([s[0]] + s[1..]) + d.units;
    assert [s[0]] + s[1..] == s;
  }

  lemma {:induction false} AllFixedInvert(s: seq<Wide>)
    requires forall i :: 0 <= i < |s| ==> s[i] < 0x20_0000
    ensures forall i :: 0 <= i < |s| ==> Inverts(FourByteFixed, s[i])
  {
    forall i | 0 <= i < |s| ensures Inverts(FourByteFixed, s[i]) {
      FixedInverts(s[i]);
    }
  }

  lemma {:induction false} AllAsWrittenInvert(s: seq<Wide>)
    requires forall i :: 0 <= i < |s| ==> s[i] < 0x4_0000
    ensures forall i :: 0 <= i < |s| ==> Inverts(FourByteAsWritten, s[i])
  {
    forall i | 0 <= i < |s| ensures Inverts(FourByteAsWritten, s[i]) {
      AsWrittenInverts(s[i]);
    }
  }

  /** Round trip with the corrected decoder: every sequence of code points
      that fits the 21 payload bits (all of Unicode) decodes back, and the
      decoder consumes the whole buffer. */
  lemma {:induction false} RoundTrip(s: seq<Wide>)
    requires forall i :: 0 <= i < |s| ==> s[i] < 0x20_0000
    ensures Decode(Encode(s)) == Decoded(s, |Encode(s)|)
  {
    AllFixedInvert(s);
    DecodeEncodeConcat(s, [], FourByteFixed);
    assert Encode(s) + [] == Encode(s);
  }

  /** Round trip with the source's decoder: it holds only up to 0x3FFFF. */
  lemma {:induction false} RoundTripAsWritten(s: seq<Wide>)
    requires forall i :: 0 <= i < |s| ==> s[i] < 0x4_0000
    ensures DecodeAsWritten(Encode(s)) == Decoded(s, |Encode(s)|)
  {
    AllAsWrittenInvert(s);
    DecodeEncodeConcat(s, [], FourByteAsWritten);
    assert Encode(s) + [] == Encode(s);
  }

  /** The source's four-byte branch is wrong from 0x40000 up: U+40000 comes
      back as 8 and U+10FFFF as U+FFFF, where the corrected branch returns
      them unchanged. */
  lemma FourByteDecodeBug()
    ensures EncodeUnit(0x4_0000) == [0xF1, 0x80, 0x80, 0x80]
    ensures DecodeAsWritten(Encode([0x4_0000])) == Decoded([8], 4)
    ensures Decode(Encode([0x4_0000])) == Decoded([0x4_0000], 4)
    ensures EncodeUnit(0x10_FFFF) == [0xF4, 0x8F, 0xBF, 0xBF]
    ensures DecodeAsWritten(Encode([0x10_FFFF])) == Decoded([0xFFFF], 4)
  {
    assert EncodeUnit(0x4_0000) == [0xF1, 0x80, 0x80, 0x80] by {
      assert 0x4_0000 / 0x4_0000 == 1 && 0x4_0000 / 4096 == 64;
      assert 0x4_0000 / 64 == 4096 && 0x4_0000 % 64 == 0;
    }
    assert EncodeUnit(0x10_FFFF) == [0xF4, 0x8F, 0xBF, 0xBF] by {
      assert 0x10_FFFF / 0x4_0000 == 4 && 0x10_FFFF / 4096 == 0x10F;
      assert 0x10_FFFF / 64 == 0x43FF && 0x10_FFFF % 64 == 0x3F;
    }
    RoundTrip([0x4_0000]);
    AsWrittenLeadBitsLand();
    SingleFourByte(0x4_0000, [0xF1, 0x80, 0x80, 0x80], 8);
    SingleFourByte(0x10_FFFF, [0xF4, 0x8F, 0xBF, 0xBF], 0xFFFF);
  }

  /** The source's four-byte rule on the two witnesses: the lead bits of
      U+40000 land on bit 3, and those of U+10FFFF are dropped. */
  lemma AsWrittenLeadBitsLand()
    ensures FourByteAsWritten(0xF1, 0x80, 0x80, 0x80) == 8
    ensures FourByteAsWritten(0xF4, 0x8F, 0xBF, 0xBF) == 0xFFFF
  {
    assert ((8 as bv8) | (0 as bv8)) as int == 8;
    OrZero(0x3F);
  }

  /** What the source's decoder makes of one four-byte encoded unit. */
  lemma SingleFourByte(w: Wide, r: seq<Byte>, u: Wide)
    requires EncodeUnit(w) == r && |r| == 4
    requires FourByteAsWritten(r[0], r[1], r[2], r[3]) == u
    ensures DecodeAsWritten(Encode([w])) == Decoded([u], 4)
  {
    assert Encode([w]) == r;
    DecodeWithEmit(r, FourByteAsWritten, u, 4);
    assert r[4..] == [];
  }

  /** The cut to 16 bits changes nothing in the basic multilingual plane. */
  lemma Truncate16Bmp(s: seq<Wide>)
    requires Bmp(s)
    ensures Truncate16(s) == s
  {
    forall i | 0 <= i < |s|
      ensures Truncate16(s)[i] == s[i]
    {
      var x := s[i];
      assert x == 0 * 0x1_0000 + x;
    }
  }

  /** Through the `std::wstring` wrappers a wide string comes back cut to 16
      bits per unit: exact for the basic multilingual plane, lossy above. */
  lemma WideRoundTrip(s: seq<Wide>)
    ensures DecodeString(EncodeWide(s)) == Truncate16(s)
  {
    RoundTrip(Truncate16(s));
  }

  /** On pure ASCII both directions are the identity. */
  lemma {:induction false} AsciiIdentity(s: seq<Byte>)
    ensures (forall i :: 0 <= i < |s| ==> s[i] < 0x80) ==> Encode(s) == s && Decode(s) == Decoded(s, |s|)
    decreases |s|
  {
    if s != [] && forall i :: 0 <= i < |s| ==> s[i] < 0x80 {
      AsciiIdentity(s[1..]);
      assert s == [s[0]] + s[1..];
    }
  }

  /** A truncated multibyte sequence at the end stops `decode` at its lead
      byte, after all earlier units, and the string wrapper silently drops
      the tail: with the corrected branch for units below 0x200000, with the
      source's for units below 0x40000. */
  lemma {:induction false} TruncatedTail(s: seq<Wide>, w: Wide, k: nat)
    requires forall i :: 0 <= i < |s| ==> s[i] < 0x20_0000
    requires 1 <= k < EncodedLength(w)
    ensures Decode(Encode(s) + EncodeUnit(w)[..k]) == Decoded(s, |Encode(s)|)
    ensures DecodeStringFixed(Encode(s) + EncodeUnit(w)[..k]) == s
    ensures (forall i :: 0 <= i < |s| ==> s[i] < 0x4_0000) ==>
      DecodeAsWritten(Encode(s) + EncodeUnit(w)[..k]) == Decoded(s, |Encode(s)|)
    ensures (forall i :: 0 <= i < |s| ==> s[i] < 0x4_0000) ==>
      DecodeString(Encode(s) + EncodeUnit(w)[..k]) == s
  {
    AllFixedInvert(s);
    var tail := EncodeUnit(w)[..k];
    EncodeUnitLayout(w);
    assert SequenceLength(tail[0]) == EncodedLength(w);
    assert DecodeStep(tail, FourByteFixed) == Stop;
    DecodeEncodeConcat(s, tail, FourByteFixed);
    assert s + [] == s;
    if forall i :: 0 <= i < |s| ==> s[i] < 0x4_0000 {
      AllAsWrittenInvert(s);
      assert DecodeStep(tail, FourByteAsWritten) == Stop;
      DecodeEncodeConcat(s, tail, FourByteAsWritten);
    }
  }

  /** The overlong check of the two-byte branch rejects values below 0x7F
      but lets 0x7F itself through; the continuation byte is not checked to
      be one. */
  lemma TwoByteChecks()
    ensures Decode([0xC1, 0xBF]) == Decoded([0x7F], 2)
    ensures Decode([0xC1, 0xBE]) == Decoded([], 0)
    ensures Decode([0xC3, 0x41]) == Decoded([0xC1], 2)
  {
    assert [0xC1, 0xBF][2..] == [];
    assert [0xC3, 0x41][2..] == [];
  }
}
