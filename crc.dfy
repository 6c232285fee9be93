/** `convertCRC16`: the CRC-16/CCITT-FALSE checksum of a QRIS payload
    (polynomial 0x1021, initial value 0xFFFF, no reflection, no final XOR),
    rendered as four upper-case hexadecimal digits. This is the checksum
    that the EMV QR Code Specification for Payment Systems (Merchant-Presented
    Mode) prescribes for the value of its CRC data object, ID "63".

    JavaScript keeps the register in a 32-bit integer and applies `&`,
    `^` and `<<` to its 32-bit pattern; it masks to 16 bits only once, at
    the end. The register is modelled as that 32-bit pattern, a `bv32`. */
module Crc {
  import opened JsStrings

  const Polynomial: bv32 := 0x1021
  const Initial: bv32 := 0xFFFF

  /** The code unit `charCodeAt` returns, as a 32-bit pattern. */
  function Code(u: CodeUnit): bv32 {
    u as bv16 as bv32
  }

  /** Bits 0-7 of the code unit. */
  function LowByte(u: CodeUnit): bv32 {
    Code(u) & 0xFF
  }

  /** `crc & 0xFFFF`. */
  function Mask(x: bv32): bv32 {
    x & 0xFFFF
  }

  // ---------------------------------------------------------------------------
  // The register as JavaScript computes it

  /** One pass of the inner loop: shift left, and XOR the polynomial in when
      bit 15 was set. */
  function Step(crc: bv32): bv32 {
    if crc & 0x8000 != 0 then (crc << 1) ^ Polynomial else crc << 1
  }

  /** `n` passes of the inner loop. */
  function Rounds(crc: bv32, n: nat): bv32
    decreases n
  {
    if n == 0 then crc else Rounds(Step(crc), n - 1)
  }

  /** One pass of the outer loop: XOR the code unit into the high octet,
      then eight inner passes. */
  function Feed(crc: bv32, u: CodeUnit): bv32 {
    Rounds(crc ^ (Code(u) << 8), 8)
  }

  /** The register after the outer loop has consumed all of `s`. */
  function Register(s: JsString): bv32 {
    if s == [] then Initial else Feed(Register(s[..|s| - 1]), s[|s| - 1])
  }

  /** A 16-bit pattern as a number. */
  function Value16(m: bv32): (v: nat)
    requires m <= 0xFFFF
    ensures v < 0x1_0000
  {
    m as bv16 as int
  }

  /** The checksum of `s` as a number: the register with `crc &= 0xFFFF` applied. */
  function CrcValue(s: JsString): (v: nat)
    ensures v < 0x1_0000
  {
    Value16(Mask(Register(s)))
  }

  /** `("000" + v.toString(16).toUpperCase()).slice(-4)`. */
  function RenderHex(v: nat): JsString {
    SliceLast("000" + ToUpperCase(ToRadixString(v, 16)), 4)
  }

  /** `convertCRC16(s)` as a value. */
  function Crc16(s: JsString): JsString {
    RenderHex(CrcValue(s))
  }

  /** `convertCRC16`: each pass of the outer loop, `FeedCodeUnit`, XORs a
      code unit into the high octet of the register and runs the inner loop;
      then the register is masked to 16 bits and rendered. */
  method ConvertCrc16(str: JsString) returns (hex: JsString)
    ensures hex == Crc16(str)
  {
    var crc: bv32 := 0xFFFF;
    var c := 0;
    while c < |str|
      invariant 0 <= c <= |str|
      invariant crc == Register(str[..c])
    {
      ghost var before := crc;
      crc := FeedCodeUnit(crc, str[c]);
      RegisterOfPrefix(str, c, before, crc);
      c := c + 1;
    }
    assert str[..|str|] == str;
    crc := crc & 0xFFFF;
    hex := RenderHex(Value16(crc));
  }

  /** The body of the outer loop of `convertCRC16`: the code unit is XORed
      into the high octet, then the inner loop shifts the register eight
      times, XORing the polynomial in whenever bit 15 is set. */
  method FeedCodeUnit(before: bv32, u: CodeUnit) returns (crc: bv32)
    ensures crc == Feed(before, u)
  {
    crc := before ^ (Code(u) << 8);
    ghost var mixed := crc;
    var i := 0;
    while i < 8
      invariant 0 <= i <= 8
      invariant Rounds(crc, 8 - i) == Rounds(mixed, 8)
    {
      if crc & 0x8000 != 0 {
        crc := (crc << 1) ^ 0x1021;
      } else {
        crc := crc << 1;
      }
      i := i + 1;
    }
  }

  /** The register after one more code unit of `s`. */
  lemma RegisterOfPrefix(s: JsString, c: nat, before: bv32, after: bv32)
    requires c < |s|
    requires before == Register(s[..c])
    requires after == Feed(before, s[c])
    ensures after == Register(s[..c + 1])
  {
    assert s[..c + 1][..c] == s[..c];
  }

  // ---------------------------------------------------------------------------
  // Rendering: always four upper-case hexadecimal digits

  /** The upper-case hexadecimal digit for `d`. */
  function UpperHexDigit(d: nat): (c: CodeUnit)
    requires d < 16
    ensures IsUpperHexDigit(c) && DigitValue(c) == Some(d)
  {
    UpperChar(DigitChar(d))
  }

  /** A character of `0-9A-F`. */
  predicate IsUpperHexDigit(c: CodeUnit) {
    '0' <= c <= '9' || 'A' <= c <= 'F'
  }

  /** The four hexadecimal digits of a 16-bit value, most significant first. */
  function Hex4(v: nat): (r: JsString)
    requires v < 0x1_0000
  {
    [UpperHexDigit(v / 16 / 16 / 16), UpperHexDigit(v / 16 / 16 % 16),
     UpperHexDigit(v / 16 % 16), UpperHexDigit(v % 16)]
  }

  /** `toString(16)` of a value of at least two digits ends in its last digit. */
  lemma HexSnoc(v: nat)
    requires 16 <= v
    ensures ToRadixString(v, 16) == ToRadixString(v / 16, 16) + [DigitChar(v % 16)]
  {}

  /** `("000" + u).slice(-4)` for one to four digits `u`. */
  lemma PadToFour(u: JsString)
    requires 1 <= |u| <= 4
    ensures SliceLast("000" + u, 4) == "000"[|u| - 1..] + u
  {}

  lemma RenderOneDigit(v: nat)
    requires v < 16
    ensures RenderHex(v) == Hex4(v)
  {
    var t := ToRadixString(v, 16);
    assert t == [DigitChar(v)];
    var u := ToUpperCase(t);
    assert u == [UpperHexDigit(v)];
    PadToFour(u);
    assert UpperHexDigit(0) == '0';
  }

  lemma RenderTwoDigits(v: nat)
    requires 16 <= v < 0x100
    ensures RenderHex(v) == Hex4(v)
  {
    var a, b := v / 16, v % 16;
    HexSnoc(v);
    var t := ToRadixString(v, 16);
    assert t == [DigitChar(a), DigitChar(b)];
    var u := ToUpperCase(t);
    assert u == [UpperHexDigit(a), UpperHexDigit(b)];
    PadToFour(u);
    assert UpperHexDigit(0) == '0';
  }

  lemma RenderThreeDigits(v: nat)
    requires 0x100 <= v < 0x1000
    ensures RenderHex(v) == Hex4(v)
  {
    var a, b, c := v / 16 / 16, v / 16 % 16, v % 16;
    HexSnoc(v);
    HexSnoc(v / 16);
    var t := ToRadixString(v, 16);
    assert t == [DigitChar(a), DigitChar(b), DigitChar(c)];
    var u := ToUpperCase(t);
    assert u == [UpperHexDigit(a), UpperHexDigit(b), UpperHexDigit(c)];
    PadToFour(u);
    assert UpperHexDigit(0) == '0';
  }

  lemma RenderFourDigits(v: nat)
    requires 0x1000 <= v < 0x1_0000
    ensures RenderHex(v) == Hex4(v)
  {
    var a, b, c, d := v / 16 / 16 / 16, v / 16 / 16 % 16, v / 16 % 16, v % 16;
    HexSnoc(v);
    HexSnoc(v / 16);
    HexSnoc(v / 16 / 16);
    var t := ToRadixString(v, 16);
    assert t == [DigitChar(a), DigitChar(b), DigitChar(c), DigitChar(d)];
    var u := ToUpperCase(t);
    assert u == [UpperHexDigit(a), UpperHexDigit(b), UpperHexDigit(c), UpperHexDigit(d)];
    PadToFour(u);
  }

  /** The rendering left-pads `toString(16)` with zeros to exactly four digits. */
  lemma RenderHexIsHex4(v: nat)
    requires v < 0x1_0000
    ensures RenderHex(v) == Hex4(v)
  {
    if v < 16 {
      RenderOneDigit(v);
    } else if v < 0x100 {
      RenderTwoDigits(v);
    } else if v < 0x1000 {
      RenderThreeDigits(v);
    } else {
      RenderFourDigits(v);
    }
  }

  /** Reading four digits back gives their value. */
  lemma ParseFourDigits(a: nat, b: nat, c: nat, d: nat)
    requires a < 16 && b < 16 && c < 16 && d < 16
    ensures ParseRadix([UpperHexDigit(a), UpperHexDigit(b), UpperHexDigit(c), UpperHexDigit(d)], 16)
         == Some(((a * 16 + b) * 16 + c) * 16 + d)
  {
    var r := [UpperHexDigit(a), UpperHexDigit(b), UpperHexDigit(c), UpperHexDigit(d)];
    assert [r[0]][..0] == [];
    assert ParseRadix([r[0]], 16) == Some(a);
    assert [r[0], r[1]][..1] == [r[0]];
    assert ParseRadix([r[0], r[1]], 16) == Some(a * 16 + b);
    assert [r[0], r[1], r[2]][..2] == [r[0], r[1]];
    assert ParseRadix([r[0], r[1], r[2]], 16) == Some((a * 16 + b) * 16 + c);
    assert r[..3] == [r[0], r[1], r[2]];
  }

  /** The four digits spell the value. */
  lemma ParseHex4(v: nat)
    requires v < 0x1_0000
    ensures ParseRadix(Hex4(v), 16) == Some(v)
  {
    ParseFourDigits(v / 16 / 16 / 16, v / 16 / 16 % 16, v / 16 % 16, v % 16);
  }

  /** The rendering is exactly four characters, each in `0-9A-F`, spelling `v`. */
  lemma RenderHexShape(v: nat)
    requires v < 0x1_0000
    ensures |RenderHex(v)| == 4
    ensures forall i :: 0 <= i < 4 ==> IsUpperHexDigit(RenderHex(v)[i])
    ensures RenderHex(v) == Hex4(v)
    ensures ParseRadix(RenderHex(v), 16) == Some(v)
  {
    RenderHexIsHex4(v);
    ParseHex4(v);
  }

  /** `convertCRC16` always returns exactly four characters, each in `0-9A-F`,
      and they spell the 16-bit value of the register. */
  lemma Crc16Shape(s: JsString)
    ensures |Crc16(s)| == 4
    ensures forall i :: 0 <= i < 4 ==> IsUpperHexDigit(Crc16(s)[i])
    ensures Crc16(s) == Hex4(CrcValue(s))
    ensures ParseRadix(Crc16(s), 16) == Some(CrcValue(s))
  {
    RenderHexShape(CrcValue(s));
  }

  // ---------------------------------------------------------------------------
  // Check values

  /** The checksum of the empty string is the initial value. */
  lemma CrcOfEmpty()
    ensures Crc16([]) == "FFFF"
  {
    var v := CrcValue([]);
    assert v == 0xFFFF;
    Crc16Shape([]);
    assert UpperHexDigit(15) == 'F';
    assert v / 16 / 16 / 16 == 15 && v / 16 / 16 % 16 == 15 && v / 16 % 16 == 15 && v % 16 == 15;
  }

  /** One code unit fed into a known register, with the code and the result
      of the eight shifts given as plain values. */
  lemma FeedValue(before: bv32, u: CodeUnit, code: bv32, after: bv32)
    requires Code(u) == code
    requires Rounds(before ^ (code << 8), 8) == after
    ensures Feed(before, u) == after
  {}

  /** A table of registers, each obtained from the previous one by feeding the
      next code unit, lists the register after every prefix. */
  lemma {:induction false} RegisterChain(s: JsString, regs: seq<bv32>, k: nat)
    requires |regs| == |s| + 1 && regs[0] == Initial && k <= |s|
    requires forall i :: 0 <= i < |s| ==> Feed(regs[i], s[i]) == regs[i + 1]
    ensures Register(s[..k]) == regs[k]
  {
    if k == 0 {
      assert s[..0] == [];
    } else {
      RegisterChain(s, regs, k - 1);
      RegisterOfPrefix(s, k - 1, regs[k - 1], regs[k]);
    }
  }

  /** The register after the check string "123456789". The table holds the
      full 32-bit register after each prefix; bits above 15 are kept, as in
      JavaScript. */
  lemma CheckStringRegister(s: JsString)
    requires |s| == 9
    requires s[0] == '1' && s[1] == '2' && s[2] == '3' && s[3] == '4' && s[4] == '5'
    requires s[5] == '6' && s[6] == '7' && s[7] == '8' && s[8] == '9'
    ensures Register(s) == 0x4b9129b1
  {
    var regs: seq<bv32> := [Initial, 0x00c2c782, 0xc2fa3dba, 0xfa0e5bce, 0x0e695349,
                            0x69604560, 0x60742ef4, 0x74187718, 0x184ba12b, 0x4b9129b1];
    FeedValue(Initial, '1', 0x31, 0x00c2c782);
    FeedValue(0x00c2c782, '2', 0x32, 0xc2fa3dba);
    FeedValue(0xc2fa3dba, '3', 0x33, 0xfa0e5bce);
    FeedValue(0xfa0e5bce, '4', 0x34, 0x0e695349);
    FeedValue(0x0e695349, '5', 0x35, 0x69604560);
    FeedValue(0x69604560, '6', 0x36, 0x60742ef4);
    FeedValue(0x60742ef4, '7', 0x37, 0x74187718);
    FeedValue(0x74187718, '8', 0x38, 0x184ba12b);
    FeedValue(0x184ba12b, '9', 0x39, 0x4b9129b1);
    RegisterChain(s, regs, 9);
    assert s[..9] == s;
  }

  /** The standard CRC-16/CCITT-FALSE check value: "123456789" gives 0x29B1. */
  lemma CrcOfCheckString()
    ensures Crc16("123456789") == "29B1"
  {
    var s: JsString := "123456789";
    CheckStringRegister(s);
    var v := CrcValue(s);
    assert v == 0x29B1;
    Crc16Shape(s);
    assert UpperHexDigit(2) == '2' && UpperHexDigit(9) == '9';
    assert UpperHexDigit(11) == 'B' && UpperHexDigit(1) == '1';
    assert v / 16 / 16 / 16 == 2 && v / 16 / 16 % 16 == 9 && v / 16 % 16 == 11 && v % 16 == 1;
  }

  // ---------------------------------------------------------------------------
  // A register masked to 16 bits at every step computes the same checksum

  /** The inner loop on a register masked after every pass. */
  function MaskedRounds(crc: bv32, n: nat): bv32
    decreases n
  {
    if n == 0 then crc else MaskedRounds(Mask(Step(crc)), n - 1)
  }

  /** The outer loop body on a 16-bit register, using only the low byte of
      the code unit. */
  function MaskedFeed(crc: bv32, u: CodeUnit): bv32 {
    MaskedRounds(Mask(crc ^ (LowByte(u) << 8)), 8)
  }

  /** The register of a 16-bit implementation. */
  function MaskedRegister(s: JsString): bv32 {
    if s == [] then Initial else MaskedFeed(MaskedRegister(s[..|s| - 1]), s[|s| - 1])
  }

  /** Bits above bit 15 never reach the low 16 bits of one pass. */
  lemma MaskStep(crc: bv32)
    ensures Mask(Step(crc)) == Mask(Step(Mask(crc)))
  {
    MaskKeepsBit15(crc);
    MaskShift(crc);
  }

  lemma MaskKeepsBit15(x: bv32)
    ensures Mask(x) & 0x8000 == x & 0x8000
  {}

  lemma MaskShift(x: bv32)
    ensures Mask(Mask(x) << 1) == Mask(x << 1)
  {}

  /** The high octet of the code unit is shifted past bit 15. */
  lemma MaskMix(crc: bv32, u: CodeUnit)
    ensures Mask(crc ^ (Code(u) << 8)) == Mask(Mask(crc) ^ (LowByte(u) << 8))
  {}

  lemma {:induction false} MaskRounds(crc: bv32, n: nat)
    decreases n
    ensures Mask(Rounds(crc, n)) == MaskedRounds(Mask(crc), n)
  {
    if n > 0 {
      MaskRounds(Step(crc), n - 1);
      MaskStep(crc);
    }
  }

  /** One outer pass, masked at every step or once at the end. */
  lemma MaskFeed(crc: bv32, u: CodeUnit)
    ensures MaskedFeed(Mask(crc), u) == Mask(Feed(crc, u))
  {
    MaskRounds(crc ^ (Code(u) << 8), 8);
    MaskMix(crc, u);
  }

  /** Masking at every step or once at the end gives the same register. */
  lemma {:induction false} MaskedRegisterAgrees(s: JsString)
    ensures MaskedRegister(s) == Mask(Register(s))
  {
    if s != [] {
      var init, u := s[..|s| - 1], s[|s| - 1];
      MaskedRegisterAgrees(init);
      MaskFeed(Register(init), u);
    }
  }

  /** A pass of the 16-bit implementation sees only the low byte. */
  lemma MaskedFeedLowByte(crc: bv32, u: CodeUnit, w: CodeUnit)
    requires LowByte(u) == LowByte(w)
    ensures MaskedFeed(crc, u) == MaskedFeed(crc, w)
  {}

  lemma {:induction false} MaskedLowBytes(s: JsString, t: JsString)
    requires |s| == |t|
    requires forall i :: 0 <= i < |s| ==> LowByte(s[i]) == LowByte(t[i])
    ensures MaskedRegister(s) == MaskedRegister(t)
  {
    if s != [] {
      var s', t' := s[..|s| - 1], t[..|t| - 1];
      forall i | 0 <= i < |s'|
        ensures LowByte(s'[i]) == LowByte(t'[i])
      {
        assert s'[i] == s[i] && t'[i] == t[i];
      }
      MaskedLowBytes(s', t');
      MaskedFeedLowByte(MaskedRegister(s'), s[|s| - 1], t[|t| - 1]);
    }
  }

  /** Only the low 8 bits of each code unit affect the checksum. */
  lemma LowBytesDetermineCrc(s: JsString, t: JsString)
    requires |s| == |t|
    requires forall i :: 0 <= i < |s| ==> LowByte(s[i]) == LowByte(t[i])
    ensures Crc16(s) == Crc16(t)
  {
    MaskedLowBytes(s, t);
    MaskedRegisterAgrees(s);
    MaskedRegisterAgrees(t);
  }
}
