# QRIS static-to-dynamic payload rewrite, modelled in Dafny

The OrderKuota integration turns a merchant's static QRIS payload into a
dynamic payload for one payment. `createQRIS` does this in four steps:

1. It drops the old four-character CRC.
2. It switches the point-of-initiation tag from `010211` (static) to
   `010212` (dynamic).
3. It inserts a transaction-amount field (`54`, a two-digit length, then the
   amount) in front of the country-code field `5802ID`.
4. It appends a new CRC computed by `convertCRC16`.

`convertCRC16` is CRC-16/CCITT-FALSE: polynomial 0x1021, initial value
0xFFFF, no reflection and no final XOR. It prints the result as four
upper-case hexadecimal digits.

The project has three modules:

- `JsStrings` (`jsstrings.dfy`) models the JavaScript string operations the
  code uses: `slice` with negative bounds, `replace` with a string pattern,
  `split`, `Number.prototype.toString(radix)` and `toUpperCase`.
  `IndexOf` is the first-occurrence search that `replace` performs on line
  56. A string is a sequence of Dafny `char`s below 0x10000. A `char` is a
  Unicode scalar value, so this covers the UTF-16 strings whose characters
  all lie in the Basic Multilingual Plane. QRIS payloads are ASCII.
- `Crc` (`crc.dfy`) models `convertCRC16`. It is an imperative method with
  the source's two nested loops. The inner loop is a method of its own,
  `FeedCodeUnit`. The method is proved equal to a recursive specification
  `Crc16`. The register is a `bv32`, because JavaScript applies `^`, `<<`
  and `&` to a 32-bit integer and masks to 16 bits only at the end.
- `Qris` (`qris.dfy`) models the rewrite on lines 55-63 of `createQRIS` as
  pure functions. `BuildDynamicPayloadAsWritten` is the code as written.
  `BuildDynamicPayload` is the same rewrite with the missing-marker and
  repeated-marker cases turned into a `Malformed` result.

Two points about what the code computes. The model follows the code in
both:

- **Check value.** The CRC-16/CCITT-FALSE check value of "123456789" is
  `29B1`, and that is what the code computes, because it starts from
  0xFFFF. `Crc.CrcOfCheckString` proves `29B1`. The value `31C3` is the
  CRC-16/XMODEM check value, which starts from 0; the code does not compute
  it.
- **Amount.** The code does not validate `amount` at all. It calls
  `amount.toString()` and inserts the text. The model takes the amount as
  that string.

## Model

| member | source | states |
|---|---|---|
| Crc.Step | src/api/orderkuota/orderkuota.js:15-19 | One pass of the inner loop. No ensures of its own; `Crc.FeedCodeUnit`'s loop invariant and `Crc.MaskStep` specify it. |
| Crc.Rounds | src/api/orderkuota/orderkuota.js:14-20 | `n` passes of the inner loop. No ensures of its own; `Crc.MaskRounds` relates it to the 16-bit register and `Crc.FeedCodeUnit` to the loop. |
| Crc.Feed | src/api/orderkuota/orderkuota.js:12-20 | One pass of the outer loop. No ensures of its own; `Crc.FeedCodeUnit` is proved to compute it and `Crc.MaskFeed` relates it to the 16-bit register. |
| Crc.Register | src/api/orderkuota/orderkuota.js:8-21 | The 32-bit register after the outer loop. No ensures of its own; `Crc.ConvertCrc16`'s loop invariant, `Crc.RegisterChain`, `Crc.CheckStringRegister` and `Crc.MaskedRegisterAgrees` specify it. |
| Crc.CrcValue | src/api/orderkuota/orderkuota.js:23 | `crc & 0xFFFF` as a number is below 0x10000. `Crc.LowBytesDetermineCrc` says which inputs it depends on. |
| Crc.RenderHex | src/api/orderkuota/orderkuota.js:24 | The padded upper-case hex rendering. No ensures of its own; `Crc.RenderHexShape` specifies it. |
| Crc.Crc16 | src/api/orderkuota/orderkuota.js:7-26 | `convertCRC16` as a value. No ensures of its own; `Crc.ConvertCrc16` is proved to compute it, and `Crc.Crc16Shape`, `Crc.CrcOfEmpty`, `Crc.CrcOfCheckString` and `Crc.LowBytesDetermineCrc` specify it. |
| Crc.ConvertCrc16 | src/api/orderkuota/orderkuota.js:7-26 | The loop over the code units leaves the register of the recursive specification. The returned text is exactly `Crc16(str)`. |
| Crc.FeedCodeUnit | src/api/orderkuota/orderkuota.js:12-20 | One pass of the outer loop gives `Feed(before, u)`: the code unit is XORed into bits 8 and up, then the register is shifted eight times, XORing in 0x1021 whenever bit 15 was set. |
| Crc.Crc16Shape | src/api/orderkuota/orderkuota.js:23-24 | The checksum is always exactly four characters, each in `0-9A-F`, zero-padded on the left. Read as hexadecimal it gives back the register's low 16 bits. |
| Crc.RenderHexShape | src/api/orderkuota/orderkuota.js:24 | `("000" + v.toString(16).toUpperCase()).slice(-4)` for any `v` below 0x10000 gives four upper-case hex digits that parse back to `v`. |
| Crc.CrcOfEmpty | src/api/orderkuota/orderkuota.js:8-24 | The checksum of the empty string is `FFFF`, the initial value. |
| Crc.CrcOfCheckString | src/api/orderkuota/orderkuota.js:8-24 | The checksum of "123456789" is `29B1`, the CRC-16/CCITT-FALSE check value. |
| Crc.CheckStringRegister | src/api/orderkuota/orderkuota.js:11-21 | After "123456789", the full 32-bit register is 0x4B9129B1. Its low 16 bits are 0x29B1. |
| Crc.RegisterChain | src/api/orderkuota/orderkuota.js:11-21 | A table of registers in which each entry comes from the previous one by feeding the next code unit gives the register after every prefix. |
| Crc.MaskedRegisterAgrees | src/api/orderkuota/orderkuota.js:11-23 | Masking the register to 16 bits after every shift gives the same low 16 bits as masking once at the end, as line 23 does. So the 32-bit register computes the 16-bit CRC. |
| Crc.MaskRounds | src/api/orderkuota/orderkuota.js:14-20 | Over any number of inner passes, the low 16 bits of the register equal those of a register masked after every pass. They depend only on the starting register's low 16 bits. |
| Crc.LowBytesDetermineCrc | src/api/orderkuota/orderkuota.js:12 | Two strings of equal length whose code units agree in their low 8 bits have the same checksum. The high byte of a code unit is shifted past bit 15. |
| JsStrings.SliceLast | src/api/orderkuota/orderkuota.js:24 | For `k > 0`, `slice(-k)` gives the last `k` code units, or the whole string when it is shorter. |
| JsStrings.DropLast | src/api/orderkuota/orderkuota.js:55 | `slice(0, -k)` gives everything but the last `k` code units, or the empty string when the input is not longer than `k`. |
| JsStrings.IndexOf | src/api/orderkuota/orderkuota.js:56 | The result is the first index at which the pattern occurs. It is `None` exactly when the pattern occurs nowhere. |
| JsStrings.ReplaceFirst | src/api/orderkuota/orderkuota.js:56 | `replace` with a string pattern. No ensures of its own; `Qris.ToDynamicAbsent`, `Qris.ToDynamicFirst` and `Qris.ToDynamicLength` specify it for line 56's pattern. |
| JsStrings.Split | src/api/orderkuota/orderkuota.js:57 | Joining the pieces with the separator gives back the input. No piece contains the separator. There is at least one piece. |
| JsStrings.SplitAtOnly | src/api/orderkuota/orderkuota.js:57 | When the separator occurs at `i` and nowhere else, `split` gives exactly the text before `i` and the text after the separator. |
| JsStrings.SplitInTwo | src/api/orderkuota/orderkuota.js:57 | For a separator that cannot overlap itself, `split` gives exactly two pieces if and only if the separator occurs exactly once. |
| JsStrings.ToRadixString | src/api/orderkuota/orderkuota.js:24 | `n.toString(radix)` is non-empty and ends with the digit of `n % radix`. |
| JsStrings.ParseToRadixString | src/api/orderkuota/orderkuota.js:24 | Reading the digits of `n.toString(radix)` back in base `radix` gives `n`. |
| JsStrings.ToUpperCase | src/api/orderkuota/orderkuota.js:24 | `toUpperCase` keeps the length and maps every code unit through `UpperChar`. |
| JsStrings.UpperChar | src/api/orderkuota/orderkuota.js:24 | Upper-casing keeps a digit's value and leaves no lower-case letter. |
| Qris.DropChecksum | src/api/orderkuota/orderkuota.js:55 | Removing the CRC leaves the input minus its last four code units. An input shorter than four becomes empty. |
| Qris.ToDynamicAbsent | src/api/orderkuota/orderkuota.js:56 | A payload without `010211` is left unchanged. |
| Qris.ToDynamicFirst | src/api/orderkuota/orderkuota.js:56 | When the first `010211` starts at `i`, exactly one code unit changes: the `1` at `i + 5` becomes `2`. Every later occurrence stays. |
| Qris.ToDynamicLength | src/api/orderkuota/orderkuota.js:56 | The tag switch keeps the payload's length. |
| Qris.LengthFieldDigits | src/api/orderkuota/orderkuota.js:60 | `("0" + n).slice(-2)` is always the tens digit of `n` followed by its units digit. |
| Qris.LengthFieldValue | src/api/orderkuota/orderkuota.js:60 | The length field is two characters. Read back in decimal it gives the length modulo 100, and the length itself when that is below 100. |
| Qris.AmountFieldLayout | src/api/orderkuota/orderkuota.js:59-61 | The amount field is tag `54`, then a two-digit length matching the amount's length modulo 100, then the amount, then `5802ID`. It is ten code units longer than the amount. |
| Qris.AmountFieldOfThousand | src/api/orderkuota/orderkuota.js:59-61 | The amount "1000" gives `54041000` followed by `5802ID`. |
| Qris.ToDynamic | src/api/orderkuota/orderkuota.js:56 | The switch from `010211` to `010212`. No ensures of its own; `Qris.ToDynamicAbsent`, `Qris.ToDynamicFirst` and `Qris.ToDynamicLength` specify it. |
| Qris.Prepared | src/api/orderkuota/orderkuota.js:55-56 | The payload after lines 55 and 56. No ensures of its own; `Qris.DropChecksum` and `Qris.ToDynamicLength` specify its parts. |
| Qris.LengthField | src/api/orderkuota/orderkuota.js:60 | The two-character length. No ensures of its own; `Qris.LengthFieldDigits` and `Qris.LengthFieldValue` specify it. |
| Qris.AmountField | src/api/orderkuota/orderkuota.js:59-61 | The text `uang`. No ensures of its own; `Qris.AmountFieldLayout` and `Qris.AmountFieldOfThousand` specify it. |
| Qris.BuildDynamicPayloadAsWritten | src/api/orderkuota/orderkuota.js:55-63 | Lines 55-63 as written. No ensures of its own; `Qris.AsWrittenWithoutMarker`, `Qris.AsWrittenWithTwoMarkers`, `Qris.BuildAgreesWithAsWritten` and `Qris.BuildIgnoresOldChecksum` specify it. |
| Qris.BuildDynamicPayload | src/api/orderkuota/orderkuota.js:55-63 | The corrected rewrite. No ensures of its own; `Qris.BuildOkIffMarkerOnce`, `Qris.BuildAtMarker`, `Qris.BuildLength`, `Qris.BuildSelfValidates` and `Qris.BuildIgnoresOldChecksum` specify it. |
| Qris.BuildOkIffMarkerOnce | src/api/orderkuota/orderkuota.js:55-63 | The rewrite succeeds if and only if `5802ID` occurs exactly once in the payload after the CRC is dropped and the tag is switched. |
| Qris.BuildAtMarker | src/api/orderkuota/orderkuota.js:55-63 | With `5802ID` only at `i`, the result inserts `54`, the length and the amount right in front of it, keeps everything else in place, and appends the CRC of that text. |
| Qris.BuildFromPieces | src/api/orderkuota/orderkuota.js:63 | When `split` gives two pieces, the result is head, amount field and tail, followed by their CRC. |
| Qris.InsertBeforeMarker | src/api/orderkuota/orderkuota.js:60-63 | Putting `field + "5802ID"` in place of the country-code field is the same as inserting `field` in front of it. |
| Qris.BuildLength | src/api/orderkuota/orderkuota.js:55-63 | A successful result is exactly `|codeqr| + |amount| + 4` code units long. |
| Qris.BuildSelfValidates | src/api/orderkuota/orderkuota.js:63 | A successful result ends in four upper-case hex digits. Those digits are the CRC-16 of everything before them, so the payload passes its own CRC check. |
| Qris.BuildIgnoresOldChecksum | src/api/orderkuota/orderkuota.js:55 | Two inputs that differ only in their last four code units give the same result, in both the corrected and the as-written rewrite. |
| Qris.BuildAgreesWithAsWritten | src/api/orderkuota/orderkuota.js:55-63 | Whenever the corrected rewrite succeeds, it returns exactly what the code computes. |
| Qris.AsWrittenWithoutMarker | src/api/orderkuota/orderkuota.js:57-63 | With no `5802ID`, the code emits the payload, the amount field, the text `undefined` and a CRC over all of that. The corrected rewrite returns `Malformed`. |
| Qris.AsWrittenWithTwoMarkers | src/api/orderkuota/orderkuota.js:57-63 | With a second `5802ID`, the code drops everything from the second one on, so its output is at least six code units short. The corrected rewrite returns `Malformed`. |
| Qris.MarkerHeadUnique | src/api/orderkuota/orderkuota.js:57 | The first character of `5802ID` does not recur in it, so two occurrences of it never overlap. |

## Findings

| source | as written | input that shows it | evidently intended | confidence | as-written member | corrected member |
|---|---|---|---|---|---|---|
| src/api/orderkuota/orderkuota.js:57-63 | `step2[1]` is read without checking that `split` found the marker. A payload without `5802ID` gets the text `undefined` spliced in, and a CRC is computed over it. | Any `codeqr` with no `5802ID` before its last four characters, e.g. `000201010211ABCD` | Reject a payload that lacks the country-code field (`Malformed`) | medium: follows from the code's text; not executed | Qris.AsWrittenWithoutMarker | Qris.BuildOkIffMarkerOnce |
| src/api/orderkuota/orderkuota.js:57-63 | Only `step2[0]` and `step2[1]` are used. With two `5802ID` fields, everything from the second one on is silently dropped. | `codeqr` = `5802IDxx5802IDyy` followed by any four characters | Reject the payload, or keep every piece | medium: follows from the code's text; not executed | Qris.AsWrittenWithTwoMarkers | Qris.BuildAtMarker |

The rest of the model uses the corrected rewrite
`Qris.BuildDynamicPayload`. It returns `Malformed` unless `split` gives
exactly two pieces.

## Left out

- `createQRIS` after line 63 is not modelled: rendering the QR image (`QRCode.toBuffer`), uploading it (`elxyzFile`), and the returned record with its transaction id and expiry. These are I/O and calls into libraries.
- `generateTransactionId` (random bytes) and `generateExpirationTime` (the clock) are left out. They are randomness and time.
- The rest of the repository is left out: the HTTP routes and their API-key check, the gateway calls of `checkQRISStatus`, the settlement poller, and logging. These are network I/O and concurrency.
- Surrogate code units (0xD800-0xDFFF) are not modelled, paired or lone, because a Dafny `char` is a Unicode scalar value. Every string with a character outside the Basic Multilingual Plane is therefore outside the model. QRIS payloads are ASCII.
- JsStrings.ToUpperCase: modelled for ASCII only. It maps `a`-`z` and keeps the length, whereas JavaScript also upper-cases other letters ("é" to "É") and can lengthen a string ("ß" to "SS"). Line 24 passes it only the hexadecimal digits of `toString(16)`.
- `replace` is modelled for a replacement without `$` patterns, which is the only kind the code passes.
- `amount.toString()` is not modelled: the amount is taken as the resulting string. A number's decimal formatting (exponents, fractions) is therefore not covered.
- The body of the outer loop of `convertCRC16` (lines 12-20) is the separate method `Crc.FeedCodeUnit`. It has the same effect on the register and keeps each proof small.
