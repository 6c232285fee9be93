/** The rewrite `createQRIS` applies to a merchant's static QRIS payload to
    obtain a dynamic one for a given amount: the old CRC is dropped, the
    point-of-initiation tag "010211" becomes "010212", the transaction-amount
    field (tag 54) is inserted in front of the country-code field "5802ID",
    and a new CRC-16 is appended. */
module Qris {
  import opened JsStrings
  import opened Crc

  /** The country-code field, tag 58 with length 02 and value "ID". */
  const Marker: JsString := "5802ID"
  /** Point of initiation, tag 01 with value 11: a static code. */
  const StaticIndicator: JsString := "010211"
  /** Point of initiation, tag 01 with value 12: a dynamic code. */
  const DynamicIndicator: JsString := "010212"
  /** The tag of the transaction-amount field. */
  const AmountTag: JsString := "54"
  /** What string concatenation makes of a missing array element. */
  const Undefined: JsString := "undefined"

  // ---------------------------------------------------------------------------
  // The three steps before the amount is inserted

  /** `codeqr.slice(0, -4)`: the payload without its four-character CRC. */
  function DropChecksum(codeqr: JsString): (r: JsString)
    ensures |codeqr| >= 4 ==> |r| == |codeqr| - 4 && codeqr == r + codeqr[|codeqr| - 4..]
    ensures |codeqr| < 4 ==> r == []
  {
    DropLast(codeqr, 4)
  }

  /** `s.replace("010211", "010212")`: only the first occurrence changes. */
  function ToDynamic(s: JsString): JsString {
    ReplaceFirst(s, StaticIndicator, DynamicIndicator)
  }

  /** The payload with the old CRC removed and the static tag replaced. */
  function Prepared(codeqr: JsString): JsString {
    ToDynamic(DropChecksum(codeqr))
  }

  /** A payload without "010211" passes through `ToDynamic` unchanged. */
  lemma ToDynamicAbsent(s: JsString)
    requires Free(s, StaticIndicator)
    ensures ToDynamic(s) == s
  {
    assert IndexOf(s, StaticIndicator).None?;
  }

  /** When the first "010211" starts at `i`, `ToDynamic` changes exactly one
      code unit: the '1' at `i + 5` becomes '2'. Later occurrences stay. */
  lemma ToDynamicFirst(s: JsString, i: nat)
    requires OccursAt(s, StaticIndicator, i)
    requires forall j: nat :: j < i ==> !OccursAt(s, StaticIndicator, j)
    ensures |ToDynamic(s)| == |s|
    ensures s[i + 5] == '1' && ToDynamic(s)[i + 5] == '2'
    ensures forall k :: 0 <= k < |s| && k != i + 5 ==> ToDynamic(s)[k] == s[k]
  {
    var r := ToDynamic(s);
    assert IndexOf(s, StaticIndicator) == Some(i);
    assert r == s[..i] + DynamicIndicator + s[i + 6..];
    assert s[i..i + 6] == StaticIndicator;
    assert s[i + 5] == s[i..i + 6][5];
    forall k | 0 <= k < |s| && k != i + 5
      ensures r[k] == s[k]
    {
      if i <= k < i + 6 {
        assert r[k] == DynamicIndicator[k - i];
        assert s[k] == s[i..i + 6][k - i];
      }
    }
  }

  /** `ToDynamic` keeps the length, since both tags have six code units. */
  lemma ToDynamicLength(s: JsString)
    ensures |ToDynamic(s)| == |s|
  {
    match IndexOf(s, StaticIndicator)
    case None =>
    case Some(i) => ToDynamicFirst(s, i);
  }

  // ---------------------------------------------------------------------------
  // The amount field

  /** `("0" + n).slice(-2)`: the last two decimal digits of `n`, with a
      leading zero when `n` has one digit. */
  function LengthField(n: nat): JsString {
    SliceLast("0" + ToRadixString(n, 10), 2)
  }

  /** The length field is always the two lowest decimal digits. */
  lemma {:induction false} LengthFieldDigits(n: nat)
    ensures LengthField(n) == [DigitChar(n / 10 % 10), DigitChar(n % 10)]
  {
    var t := ToRadixString(n, 10);
    var u := "0" + t;
    if n < 10 {
      assert t == [DigitChar(n)];
      assert u == [DigitChar(0), DigitChar(n)];
      assert n / 10 % 10 == 0 && n % 10 == n;
    } else {
      DivModBounds(n, 10);
      var h := ToRadixString(n / 10, 10);
      assert t == h + [DigitChar(n % 10)];
      assert h[|h| - 1] == DigitChar(n / 10 % 10);
      assert u[|u| - 2..] == [h[|h| - 1], DigitChar(n % 10)];
    }
  }

  /** Read back as a decimal number, the length field gives the length
      modulo 100; in particular the length itself when it is below 100. */
  lemma LengthFieldValue(n: nat)
    ensures |LengthField(n)| == 2
    ensures ParseRadix(LengthField(n), 10) == Some(n % 100)
    ensures n < 100 ==> ParseRadix(LengthField(n), 10) == Some(n)
  {
    var hi, lo := n / 10 % 10, n % 10;
    LengthFieldDigits(n);
    ParseTwoDigits(hi, lo);
    LastTwoDigits(n);
    assert ParseRadix(LengthField(n), 10) == Some(n % 100);
    if n < 100 {
      ModHundred(n, 0, n);
    }
  }

  /** Two decimal digits read back as a number. */
  lemma ParseTwoDigits(hi: nat, lo: nat)
    requires hi < 10 && lo < 10
    ensures ParseRadix([DigitChar(hi), DigitChar(lo)], 10) == Some(hi * 10 + lo)
  {
    var f := [DigitChar(hi), DigitChar(lo)];
    assert f[..1] == [DigitChar(hi)];
    assert [DigitChar(hi)][..0] == [];
    assert ParseRadix([DigitChar(hi)], 10) == Some(hi);
  }

  /** The tens and units digits of `n` make up `n % 100`. */
  lemma LastTwoDigits(n: nat)
    ensures n / 10 % 10 * 10 + n % 10 == n % 100
  {
    var q, a := n / 10, n % 10;
    DivTen(n);
    DivTen(q);
    var c, b := q / 10, q % 10;
    assert n == 100 * c + (10 * b + a);
    ModHundred(n, c, 10 * b + a);
  }

  lemma DivTen(n: nat)
    ensures n == n / 10 * 10 + n % 10 && n % 10 < 10
  {}

  lemma ModHundred(n: nat, c: nat, r: nat)
    requires n == 100 * c + r && r < 100
    ensures n % 100 == r
  {}

  /** `"54" + ("0" + amount.length).slice(-2) + amount + "5802ID"`. */
  function AmountField(amount: JsString): JsString {
    AmountTag + LengthField(|amount|) + amount + Marker
  }

  /** Read as a tag-length-value element, the amount field carries tag 54,
      a two-digit length equal to the amount's length (modulo 100), the
      amount itself, and then the country-code field. */
  lemma AmountFieldLayout(amount: JsString)
    ensures |AmountField(amount)| == |amount| + 10
    ensures AmountField(amount)[..2] == AmountTag
    ensures ParseRadix(AmountField(amount)[2..4], 10) == Some(|amount| % 100)
    ensures AmountField(amount)[4..4 + |amount|] == amount
    ensures AmountField(amount)[4 + |amount|..] == Marker
  {
    LengthFieldValue(|amount|);
    var f := AmountField(amount);
    var l := LengthField(|amount|);
    assert f == AmountTag + l + amount + Marker;
    assert f[2..4] == l;
  }

  /** The amount "1000" gives the field "54041000" before the country code. */
  lemma AmountFieldOfThousand()
    ensures AmountField("1000") == "54041000" + Marker
  {
    LengthFieldDigits(4);
    assert LengthField(4) == "04";
  }

  // ---------------------------------------------------------------------------
  // The whole rewrite

  /** Line 63 of `createQRIS` as written: the pieces around the first
      "5802ID", with the second piece read as "undefined" when `split`
      returns only one. */
  function BuildDynamicPayloadAsWritten(amount: JsString, codeqr: JsString): JsString {
    var step2 := Split(Prepared(codeqr), Marker);
    var tail := if |step2| > 1 then step2[1] else Undefined;
    var body := step2[0] + AmountField(amount) + tail;
    body + Crc16(body)
  }

  datatype Payload = Ok(payload: JsString) | Malformed

  /** The rewrite, defined only when "5802ID" occurs exactly once in the
      prepared payload, so that `split` gives exactly two pieces. */
  function BuildDynamicPayload(amount: JsString, codeqr: JsString): Payload {
    var step2 := Split(Prepared(codeqr), Marker);
    if |step2| != 2 then Malformed
    else
      var body := step2[0] + AmountField(amount) + step2[1];
      Ok(body + Crc16(body))
  }

  /** The country-code field does not overlap with itself. */
  lemma MarkerHeadUnique()
    ensures HeadUnique(Marker)
  {
    assert Marker[0] == '5';
  }

  /** The rewrite succeeds exactly when the prepared payload holds the
      country-code field once. */
  lemma BuildOkIffMarkerOnce(amount: JsString, codeqr: JsString)
    ensures BuildDynamicPayload(amount, codeqr).Ok? <==>
            exists i: nat :: OccursOnlyAt(Prepared(codeqr), Marker, i)
  {
    MarkerHeadUnique();
    SplitInTwo(Prepared(codeqr), Marker);
  }

  /** With the country-code field at `i` only, the rewrite inserts the tag,
      the length and the amount right in front of it and appends the CRC of
      the result. */
  lemma BuildAtMarker(amount: JsString, codeqr: JsString, i: nat)
    requires OccursOnlyAt(Prepared(codeqr), Marker, i)
    ensures var s := Prepared(codeqr);
            var body := s[..i] + (AmountTag + LengthField(|amount|) + amount) + s[i..];
            BuildDynamicPayload(amount, codeqr) == Ok(body + Crc16(body))
  {
    var s := Prepared(codeqr);
    SplitAtOnly(s, Marker, i);
    BuildFromPieces(amount, codeqr, s[..i], s[i + 6..]);
    InsertBeforeMarker(s, i, AmountTag + LengthField(|amount|) + amount);
  }

  /** The rewrite in terms of the two pieces `split` returns. */
  lemma BuildFromPieces(amount: JsString, codeqr: JsString, head: JsString, tail: JsString)
    requires Split(Prepared(codeqr), Marker) == [head, tail]
    ensures var body := head + AmountField(amount) + tail;
            BuildDynamicPayload(amount, codeqr) == Ok(body + Crc16(body))
  {}

  /** Putting `field + "5802ID"` in place of the country-code field is the
      same as inserting `field` in front of it. */
  lemma InsertBeforeMarker(s: JsString, i: nat, field: JsString)
    requires OccursAt(s, Marker, i)
    ensures s[..i] + (field + Marker) + s[i + 6..] == s[..i] + field + s[i..]
  {
    assert s[i..] == Marker + s[i + 6..] by {
      assert s[i..i + 6] == Marker;
    }
  }

  /** A successful rewrite is as long as the input plus the amount plus four:
      the tag and the length field add four code units, and the new CRC takes
      the place of the old one. */
  lemma BuildLength(amount: JsString, codeqr: JsString)
    requires BuildDynamicPayload(amount, codeqr).Ok?
    ensures |BuildDynamicPayload(amount, codeqr).payload| == |codeqr| + |amount| + 4
  {
    BuildOkIffMarkerOnce(amount, codeqr);
    var i: nat :| OccursOnlyAt(Prepared(codeqr), Marker, i);
    BuildAtMarker(amount, codeqr, i);
    ToDynamicLength(DropChecksum(codeqr));
    LengthFieldValue(|amount|);
    var s := Prepared(codeqr);
    var body := s[..i] + (AmountTag + LengthField(|amount|) + amount) + s[i..];
    Crc16Shape(body);
  }

  /** A successful rewrite carries its own checksum: the last four code units
      are the upper-case hexadecimal CRC-16 of everything before them. */
  lemma BuildSelfValidates(amount: JsString, codeqr: JsString)
    requires BuildDynamicPayload(amount, codeqr).Ok?
    ensures var p := BuildDynamicPayload(amount, codeqr).payload;
            |p| >= 4 && p[|p| - 4..] == Crc16(p[..|p| - 4])
    ensures var p := BuildDynamicPayload(amount, codeqr).payload;
            forall k :: |p| - 4 <= k < |p| ==> IsUpperHexDigit(p[k])
  {
    var s := Prepared(codeqr);
    var step2 := Split(s, Marker);
    var body := step2[0] + AmountField(amount) + step2[1];
    Crc16Shape(body);
    var p := body + Crc16(body);
    assert p[..|p| - 4] == body;
    assert p[|p| - 4..] == Crc16(body);
    forall k | |p| - 4 <= k < |p|
      ensures IsUpperHexDigit(p[k])
    {
      assert p[k] == Crc16(body)[k - |body|];
    }
  }

  /** The old CRC is not read: payloads that agree up to their last four
      code units give the same result. */
  lemma BuildIgnoresOldChecksum(amount: JsString, codeqr: JsString, other: JsString)
    requires |codeqr| == |other| >= 4
    requires codeqr[..|codeqr| - 4] == other[..|other| - 4]
    ensures BuildDynamicPayload(amount, codeqr) == BuildDynamicPayload(amount, other)
    ensures BuildDynamicPayloadAsWritten(amount, codeqr) == BuildDynamicPayloadAsWritten(amount, other)
  {
    assert DropChecksum(codeqr) == DropChecksum(other);
  }

  /** Where the rewrite succeeds, it is what the code computes. */
  lemma BuildAgreesWithAsWritten(amount: JsString, codeqr: JsString)
    requires BuildDynamicPayload(amount, codeqr).Ok?
    ensures BuildDynamicPayloadAsWritten(amount, codeqr) == BuildDynamicPayload(amount, codeqr).payload
  {}

  // ---------------------------------------------------------------------------
  // What the code does with a payload the rewrite rejects

  /** Without the country-code field, the code emits the literal text
      "undefined" where the rest of the payload should be. */
  lemma AsWrittenWithoutMarker(amount: JsString, codeqr: JsString)
    requires Free(Prepared(codeqr), Marker)
    ensures BuildDynamicPayload(amount, codeqr) == Malformed
    ensures var body := Prepared(codeqr) + AmountField(amount) + Undefined;
            BuildDynamicPayloadAsWritten(amount, codeqr) == body + Crc16(body)
  {
    assert IndexOf(Prepared(codeqr), Marker).None?;
  }

  /** With a second country-code field, the code drops everything from the
      second one on: the result is shorter than a faithful rewrite by at
      least the six code units of that field. */
  lemma AsWrittenWithTwoMarkers(amount: JsString, codeqr: JsString, i: nat, k: nat)
    requires IndexOf(Prepared(codeqr), Marker) == Some(i)
    requires IndexOf(Prepared(codeqr)[i + 6..], Marker) == Some(k)
    ensures BuildDynamicPayload(amount, codeqr) == Malformed
    ensures var s := Prepared(codeqr);
            var body := s[..i] + AmountField(amount) + s[i + 6..i + 6 + k];
            BuildDynamicPayloadAsWritten(amount, codeqr) == body + Crc16(body)
    ensures |BuildDynamicPayloadAsWritten(amount, codeqr)| + 6 <= |codeqr| + |amount| + 4
  {
    var s := Prepared(codeqr);
    SplitFirstTwo(s, Marker, i, k);
    var body := s[..i] + AmountField(amount) + s[i + 6..i + 6 + k];
    AsWrittenFromPieces(amount, codeqr, s[..i], s[i + 6..i + 6 + k]);
    Crc16Shape(body);
    ToDynamicLength(DropChecksum(codeqr));
    AmountFieldLayout(amount);
  }

  /** The code's result when `split` gives at least the pieces `head` and
      `mid`. */
  lemma AsWrittenFromPieces(amount: JsString, codeqr: JsString, head: JsString, mid: JsString)
    requires |Split(Prepared(codeqr), Marker)| >= 2
    requires Split(Prepared(codeqr), Marker)[0] == head
    requires Split(Prepared(codeqr), Marker)[1] == mid
    ensures var body := head + AmountField(amount) + mid;
            BuildDynamicPayloadAsWritten(amount, codeqr) == body + Crc16(body)
  {}

}
