/** The JavaScript string operations that the QRIS payload builder relies on:
    `slice` with negative bounds, `replace` with a string pattern (and the
    first-occurrence search it performs), `split` on a non-empty separator,
    `Number.prototype.toString(radix)` and `toUpperCase` on ASCII letters.
    A JavaScript string is a sequence of UTF-16 code units. Here a code unit
    is a Dafny `char` below 0x10000; a `char` is a Unicode scalar value, so
    the surrogates 0xD800-0xDFFF, and with them every character outside the
    Basic Multilingual Plane, are outside the model. QRIS payloads are ASCII. */
module JsStrings {

  /** A UTF-16 code unit that is not a surrogate, as returned by `charCodeAt`. */
  type CodeUnit = c: char | c as int < 0x1_0000 witness '0'

  /** A JavaScript string value. */
  type JsString = seq<CodeUnit>

  datatype Option<T> = None | Some(value: T)

  // ---------------------------------------------------------------------------
  // slice

  /** `s.slice(-k)` for `k > 0`: the last `k` code units, or all of `s` when
      it is shorter. (`slice(-0)` is `slice(0)`, which is not this.) */
  function SliceLast(s: JsString, k: nat): (r: JsString)
    requires k > 0
    ensures |r| == if |s| < k then |s| else k
    ensures r == s[|s| - |r|..]
  {
    if |s| < k then s else s[|s| - k..]
  }

  /** `s.slice(0, -k)` for `k > 0`: everything but the last `k` code units,
      or the empty string when `s` is not longer than `k`. */
  function DropLast(s: JsString, k: nat): (r: JsString)
    requires k > 0
    ensures |r| == if |s| < k then 0 else |s| - k
    ensures r == s[..|r|]
  {
    if |s| < k then [] else s[..|s| - k]
  }

  // ---------------------------------------------------------------------------
  // indexOf

  /** `pat` occurs in `s` starting at index `i`. */
  predicate OccursAt(s: JsString, pat: JsString, i: nat) {
    i + |pat| <= |s| && s[i..i + |pat|] == pat
  }

  /** `pat` does not occur anywhere in `s`. */
  ghost predicate Free(s: JsString, pat: JsString) {
    forall j: nat :: !OccursAt(s, pat, j)
  }

  /** The search of `indexOf` starting at `from`. */
  function IndexFrom(s: JsString, pat: JsString, from: nat): (r: Option<nat>)
    decreases |s| - from
    ensures r.Some? ==> from <= r.value && OccursAt(s, pat, r.value)
    ensures r.Some? ==> forall j: nat :: from <= j < r.value ==> !OccursAt(s, pat, j)
    ensures r.None? ==> forall j: nat :: from <= j ==> !OccursAt(s, pat, j)
  {
    if from + |pat| > |s| then None
    else if s[from..from + |pat|] == pat then Some(from)
    else IndexFrom(s, pat, from + 1)
  }

  /** The first index at which `pat` occurs in `s`, if any: the search that
      `replace` with a string pattern performs, and what `s.indexOf(pat)`
      returns when `pat` occurs. */
  function IndexOf(s: JsString, pat: JsString): (r: Option<nat>)
    ensures r.Some? ==> OccursAt(s, pat, r.value)
    ensures r.Some? ==> forall j: nat :: j < r.value ==> !OccursAt(s, pat, j)
    ensures r.None? <==> Free(s, pat)
  {
    IndexFrom(s, pat, 0)
  }

  // ---------------------------------------------------------------------------
  // replace

  /** `s.replace(pat, rep)` with a string pattern: only the first occurrence
      is replaced. `rep` is taken literally (it holds no `$` pattern). */
  function ReplaceFirst(s: JsString, pat: JsString, rep: JsString): JsString {
    match IndexOf(s, pat)
    case None => s
    case Some(i) => s[..i] + rep + s[i + |pat|..]
  }

  // ---------------------------------------------------------------------------
  // split and its inverse

  /** `parts.join(sep)`. */
  function Join(parts: seq<JsString>, sep: JsString): JsString
    requires |parts| >= 1
  {
    if |parts| == 1 then parts[0] else parts[0] + sep + Join(parts[1..], sep)
  }

  /** A prefix of `s` that ends before the first occurrence of `pat` is free of `pat`. */
  lemma {:induction false} PrefixBeforeFirstIsFree(s: JsString, pat: JsString, i: nat)
    requires |pat| > 0 && i <= |s|
    requires forall j: nat :: j < i ==> !OccursAt(s, pat, j)
    ensures Free(s[..i], pat)
  {
    forall j: nat | OccursAt(s[..i], pat, j)
      ensures false
    {
      assert s[..i][j..j + |pat|] == s[j..j + |pat|];
      assert OccursAt(s, pat, j);
    }
  }

  /** `s.split(sep)` for a non-empty `sep`: the pieces between the occurrences
      found scanning left to right. Joining them back gives `s`, and no piece
      contains `sep`. */
  function Split(s: JsString, sep: JsString): (r: seq<JsString>)
    requires |sep| > 0
    decreases |s|
    ensures |r| >= 1
    ensures Join(r, sep) == s
    ensures forall k :: 0 <= k < |r| ==> Free(r[k], sep)
  {
    match IndexOf(s, sep)
    case None => [s]
    case Some(i) =>
      PrefixBeforeFirstIsFree(s, sep, i);
      var rest := Split(s[i + |sep|..], sep);
      assert s == s[..i] + sep + s[i + |sep|..] by {
        assert s[i..i + |sep|] == sep;
      }
      [s[..i]] + rest
  }

  /** When `sep` occurs in `s` exactly at `i` and nowhere else, `split` gives
      exactly the two pieces around it. */
  lemma SplitAtOnly(s: JsString, sep: JsString, i: nat)
    requires |sep| > 0
    requires OccursAt(s, sep, i)
    requires forall j: nat :: OccursAt(s, sep, j) ==> j == i
    ensures Split(s, sep) == [s[..i], s[i + |sep|..]]
  {
    var rest := s[i + |sep|..];
    forall j: nat | OccursAt(rest, sep, j)
      ensures false
    {
      assert rest[j..j + |sep|] == s[i + |sep| + j..i + |sep| + j + |sep|];
      assert OccursAt(s, sep, i + |sep| + j);
    }
    assert IndexOf(rest, sep).None?;
  }

  /** `pat` occurs in `s` at `i` and nowhere else. */
  ghost predicate OccursOnlyAt(s: JsString, pat: JsString, i: nat) {
    OccursAt(s, pat, i) && forall j: nat :: OccursAt(s, pat, j) ==> j == i
  }

  /** The first code unit of `pat` does not occur again in `pat`, so two
      occurrences of `pat` can never overlap. */
  predicate HeadUnique(pat: JsString) {
    |pat| > 0 && forall d :: 0 < d < |pat| ==> pat[d] != pat[0]
  }

  /** When `sep` occurs first at `i` and then, after it, first at `k` of
      the rest, `split` gives the text before `i`, the text between the two,
      and then at least one more piece. */
  lemma SplitFirstTwo(s: JsString, sep: JsString, i: nat, k: nat)
    requires |sep| > 0
    requires IndexOf(s, sep) == Some(i)
    requires IndexOf(s[i + |sep|..], sep) == Some(k)
    ensures |Split(s, sep)| >= 3
    ensures i + |sep| + k + |sep| <= |s|
    ensures Split(s, sep)[0] == s[..i]
    ensures Split(s, sep)[1] == s[i + |sep|..i + |sep| + k]
  {
    var rest := s[i + |sep|..];
    SplitFirst(s, sep, i);
    SplitFirst(rest, sep, k);
    SlicesOfSuffix(s, i + |sep|, k);
  }

  lemma SlicesOfSuffix(s: JsString, a: nat, k: nat)
    requires a + k <= |s|
    ensures s[a..][..k] == s[a..a + k]
  {}

  /** `split` cuts at the first occurrence and continues after it. */
  lemma SplitFirst(s: JsString, sep: JsString, i: nat)
    requires |sep| > 0
    requires IndexOf(s, sep) == Some(i)
    ensures i + |sep| <= |s|
    ensures Split(s, sep) == [s[..i]] + Split(s[i + |sep|..], sep)
  {}

  /** Two occurrences of a `HeadUnique` pattern never overlap. */
  lemma NoOverlap(s: JsString, pat: JsString, i: nat, j: nat)
    requires HeadUnique(pat) && OccursAt(s, pat, i) && i < j < i + |pat|
    ensures !OccursAt(s, pat, j)
  {
    assert s[j] == s[i..i + |pat|][j - i] == pat[j - i];
    assert j + |pat| <= |s| ==> s[j..j + |pat|][0] == s[j];
  }

  /** For a separator whose occurrences cannot overlap, `split` gives exactly
      two pieces if and only if the separator occurs exactly once. */
  lemma {:induction false} SplitInTwo(s: JsString, sep: JsString)
    requires HeadUnique(sep)
    ensures |Split(s, sep)| == 2 <==> exists i: nat :: OccursOnlyAt(s, sep, i)
  {
    if |Split(s, sep)| == 2 {
      var i := IndexOf(s, sep).value;
      var rest := s[i + |sep|..];
      assert Split(s, sep) == [s[..i]] + Split(rest, sep);
      assert IndexOf(rest, sep).None?;
      OnlyOccurrence(s, sep, i);
    }
    if exists i: nat :: OccursOnlyAt(s, sep, i) {
      var i: nat :| OccursOnlyAt(s, sep, i);
      SplitAtOnly(s, sep, i);
    }
  }

  /** A first occurrence of a `HeadUnique` pattern with nothing after it is
      the only one. */
  lemma OnlyOccurrence(s: JsString, sep: JsString, i: nat)
    requires HeadUnique(sep)
    requires IndexOf(s, sep) == Some(i)
    requires Free(s[i + |sep|..], sep)
    ensures OccursOnlyAt(s, sep, i)
  {
    var rest := s[i + |sep|..];
    forall j: nat | OccursAt(s, sep, j)
      ensures j == i
    {
      if j >= i + |sep| {
        assert rest[j - i - |sep|..j - i] == s[j..j + |sep|];
        assert OccursAt(rest, sep, j - i - |sep|);
      } else if j > i {
        NoOverlap(s, sep, i, j);
      }
    }
  }


  // ---------------------------------------------------------------------------
  // Number.prototype.toString(radix) and its inverse

  /** The lower-case digit JavaScript prints for the value `d`. */
  function DigitChar(d: nat): (c: CodeUnit)
    requires d < 36
    ensures DigitValue(c) == Some(d)
  {
    if d < 10 then ('0' as int + d) as char else ('a' as int + d - 10) as char
  }

  /** The value of a digit character, in either case, as `parseInt` reads it. */
  function DigitValue(c: CodeUnit): Option<nat> {
    if '0' <= c <= '9' then Some(c as int - '0' as int)
    else if 'a' <= c <= 'z' then Some(c as int - 'a' as int + 10)
    else if 'A' <= c <= 'Z' then Some(c as int - 'A' as int + 10)
    else None
  }

  /** `n.toString(radix)` for a non-negative integer `n`: the digits of `n`
      without leading zeros, most significant first. */
  function ToRadixString(n: nat, radix: nat): (r: JsString)
    requires 2 <= radix <= 36
    decreases n
    ensures |r| >= 1
    ensures r[|r| - 1] == DigitChar(n % radix)
  {
    if n < radix then
      assert n % radix == n by { DivModSmall(n, radix); }
      [DigitChar(n)]
    else
      DivModBounds(n, radix);
      ToRadixString(n / radix, radix) + [DigitChar(n % radix)]
  }

  lemma DivModSmall(n: nat, d: nat)
    requires n < d
    ensures n / d == 0 && n % d == n
  {}

  lemma DivModBounds(n: nat, d: nat)
    requires 2 <= d <= n
    ensures 0 < n / d < n && n % d < d && n == n / d * d + n % d
  {}

  /** The value of a sequence of digits in base `radix`, if every character
      is a digit below `radix`. */
  function ParseRadix(s: JsString, radix: nat): Option<nat>
    requires 2 <= radix <= 36
  {
    if s == [] then Some(0)
    else
      match (ParseRadix(s[..|s| - 1], radix), DigitValue(s[|s| - 1]))
      case (Some(high), Some(d)) => if d < radix then Some(high * radix + d) else None
      case _ => None
  }

  /** `ParseRadix` reads back exactly what `ToRadixString` prints. */
  lemma {:induction false} ParseToRadixString(n: nat, radix: nat)
    requires 2 <= radix <= 36
    decreases n
    ensures ParseRadix(ToRadixString(n, radix), radix) == Some(n)
  {
    var s := ToRadixString(n, radix);
    if n < radix {
      assert s == [DigitChar(n)];
      assert s[..|s| - 1] == [];
      assert DigitValue(s[|s| - 1]) == Some(n);
    } else {
      var high := ToRadixString(n / radix, radix);
      DivModBounds(n, radix);
      ParseToRadixString(n / radix, radix);
      assert s == high + [DigitChar(n % radix)];
      assert s[..|s| - 1] == high;
      assert DigitValue(s[|s| - 1]) == Some(n % radix);
    }
  }

  // ---------------------------------------------------------------------------
  // toUpperCase

  /** `toUpperCase` on one code unit, for the ASCII letters it is applied to here. */
  function UpperChar(c: CodeUnit): (u: CodeUnit)
    ensures DigitValue(u) == DigitValue(c)
    ensures !('a' <= u <= 'z')
  {
    if 'a' <= c <= 'z' then (c as int - 32) as char else c
  }

  /** `s.toUpperCase()` on a string of ASCII characters. */
  function ToUpperCase(s: JsString): (r: JsString)
    ensures |r| == |s|
    ensures forall i :: 0 <= i < |s| ==> r[i] == UpperChar(s[i])
  {
    seq(|s|, i requires 0 <= i < |s| => UpperChar(s[i]))
  }
}
