/** The command-line integer and size parser (gnwmanager/cli/_parsers.py). */
module Parsers {
  import opened Common

  /** Number of entries of the suffix table. */
  const SUFFIX_COUNT: nat := 7

  /** The suffix table, in the dictionary's iteration order: byte sizes first, then
      frequencies. */
  function SuffixText(k: nat): string
    requires k < SUFFIX_COUNT
  {
    if k == 0 then "kb" else if k == 1 then "mb" else if k == 2 then "gb"
    else if k == 3 then "tb" else if k == 4 then "pb" else if k == 5 then "khz" else "mhz"
  }

  /** `v * SuffixMultiplier(k)`, one constant factor per entry. */
  function Scale(v: int, k: nat): (r: int)
    requires k < SUFFIX_COUNT
  {
    if k == 0 then v * 1024 else if k == 1 then v * 1_048_576
    else if k == 2 then v * 1_073_741_824 else if k == 3 then v * 1_099_511_627_776
    else if k == 4 then v * 1_125_899_906_842_624 else if k == 5 then v * 1_000
    else v * 1_000_000
  }

  /** Byte sizes are powers of 1024, frequencies powers of 1000. */
  function SuffixMultiplier(k: nat): nat
    requires k < SUFFIX_COUNT
  {
    if k == 0 then 1024 else if k == 1 then 1_048_576 else if k == 2 then 1_073_741_824
    else if k == 3 then 1_099_511_627_776 else if k == 4 then 1_125_899_906_842_624
    else if k == 5 then 1_000 else 1_000_000
  }

  predicate StartsWith(s: string, p: string) { |p| <= |s| && s[..|p|] == p }

  predicate EndsWith(s: string, p: string) { |p| <= |s| && s[|s| - |p|..] == p }

  function LowerChar(c: char): char
  {
    if 'A' <= c <= 'Z' then (c as int + 32) as char else c
  }

  /** `str.lower()` on ASCII text: no capital letter is left, each capital becomes the
      letter `'a' - 'A'` code points above it, and every other character is kept. */
  function Lower(s: string): (r: string)
    ensures |r| == |s|
    ensures forall k :: 0 <= k < |r| ==> !('A' <= r[k] <= 'Z')
    ensures forall k :: 0 <= k < |s| ==> (r[k] == s[k] <==> !('A' <= s[k] <= 'Z'))
    ensures forall k :: 0 <= k < |s| && 'A' <= s[k] <= 'Z' ==>
              r[k] as int - s[k] as int == 'a' as int - 'A' as int
  {
    seq(|s|, k requires 0 <= k < |s| => LowerChar(s[k]))
  }

  /** Lower-casing twice is lower-casing once. */
  lemma LowerIdempotent(s: string)
    ensures Lower(Lower(s)) == Lower(s)
  {
  }

  /** Value of a digit character in base 10 or 16, or -1 when it is not one. */
  function DigitValue(c: char, base: nat): (v: int)
    ensures v == -1 || 0 <= v < base
  {
    if '0' <= c <= '9' && (c as int - '0' as int) < base then c as int - '0' as int
    else if base == 16 && 'a' <= c <= 'f' then c as int - 'a' as int + 10
    else -1
  }

  predicate AllDigits(s: string, base: nat)
  {
    forall k :: 0 <= k < |s| ==> DigitValue(s[k], base) >= 0
  }

  /** Positional value of a digit string, most significant digit first. */
  function DigitsValue(s: string, base: nat): nat
    requires base == 10 || base == 16
    requires AllDigits(s, base)
  {
    if s == [] then 0
    else
      var high := DigitsValue(s[..|s| - 1], base);
      (if base == 16 then 16 * high else 10 * high) + DigitValue(s[|s| - 1], base)
  }

  /** `int(s, base)` for base 10 or 16 on ASCII text: an optional sign, in base 16 an
      optional `0x`, then at least one ASCII digit; any other text of that alphabet is a
      `ValueError`. Surrounding whitespace, `_` between digits and non-ASCII digits, which
      Python also accepts, are not modelled. */
  function PyInt(s: string, base: nat): (r: Result<int>)
    requires base == 10 || base == 16
  {
    var negative := |s| > 0 && s[0] == '-';
    var unsigned := if |s| > 0 && (s[0] == '-' || s[0] == '+') then s[1..] else s;
    var digits := if base == 16 && StartsWith(unsigned, "0x") then unsigned[2..] else unsigned;
    if |digits| > 0 && AllDigits(digits, base) then
      var v: int := DigitsValue(digits, base);
      Ok(if negative then -v else v)
    else
      Err(ValueError)
  }

  /** Index of the first suffix of the table, from `from` on, that ends `s`. */
  function FindSuffix(s: string, from: nat): (r: Option<nat>)
    requires from <= SUFFIX_COUNT
    ensures r.Some? ==> from <= r.value < SUFFIX_COUNT && EndsWith(s, SuffixText(r.value))
    decreases SUFFIX_COUNT - from
  {
    if from == SUFFIX_COUNT then None
    else if EndsWith(s, SuffixText(from)) then Some(from)
    else FindSuffix(s, from + 1)
  }

  /** When suffix `k` ends `s` and none from `from` up to `k` does, the search finds `k`. */
  lemma {:induction false} FindSuffixFinds(s: string, from: nat, k: nat)
    requires from <= k < SUFFIX_COUNT && EndsWith(s, SuffixText(k))
    requires forall j :: from <= j < k ==> !EndsWith(s, SuffixText(j))
    ensures FindSuffix(s, from) == Some(k)
    decreases k - from
  {
    if from < k {
      FindSuffixFinds(s, from + 1, k);
    }
  }

  /** When no suffix from `from` on ends `s`, the search finds nothing. */
  lemma {:induction false} FindSuffixMisses(s: string, from: nat)
    requires from <= SUFFIX_COUNT
    requires forall j :: from <= j < SUFFIX_COUNT ==> !EndsWith(s, SuffixText(j))
    ensures FindSuffix(s, from) == None
    decreases SUFFIX_COUNT - from
  {
    if from < SUFFIX_COUNT {
      FindSuffixMisses(s, from + 1);
    }
  }

  /** The number part after an optional `0x`: scaled by the first matching suffix, or
      else stripped of a trailing `b` and then of a trailing `hz`. */
  function ParseBody(body: string, base: nat): Result<int>
    requires base == 10 || base == 16
  {
    var found := FindSuffix(body, 0);
    if found.Some? then ScaledNumber(body, base, found.value)
    else PyInt(StripUnits(body), base)
  }

  /** The number before suffix `k`, scaled by the suffix. */
  function ScaledNumber(body: string, base: nat, k: nat): Result<int>
    requires base == 10 || base == 16
    requires k < SUFFIX_COUNT && |SuffixText(k)| <= |body|
  {
    var num := PyInt(body[..|body| - |SuffixText(k)|], base);
    if num.Ok? then Ok(Scale(num.value, k)) else num
  }

  /** A trailing `b` goes, then a trailing `hz`. */
  function StripUnits(body: string): (r: string)
    ensures |r| <= |body| && r == body[..|r|]
  {
    var noB := if EndsWith(body, "b") then body[..|body| - 1] else body;
    if EndsWith(noB, "hz") then noB[..|noB| - 2] else noB
  }

  /** `int_parser`: lower-case the text and take a leading `0x` as base 16. */
  function IntParser(text: string): Result<int>
  {
    var s := Lower(text);
    if StartsWith(s, "0x") then ParseBody(s[2..], 16) else ParseBody(s, 10)
  }

  /** The base decision of `IntParser`, as a rewriting step for the proofs below. */
  lemma IntParserUnfold(text: string)
    ensures !StartsWith(Lower(text), "0x") ==> IntParser(text) == ParseBody(Lower(text), 10)
    ensures StartsWith(Lower(text), "0x") ==> IntParser(text) == ParseBody(Lower(text)[2..], 16)
  {
  }

  // ---- Reference renderings, used to state what the parser accepts ----

  function DecimalDigit(d: nat): char requires d < 10 { ('0' as int + d) as char }

  function HexDigit(d: nat): char
    requires d < 16
  {
    if d < 10 then ('0' as int + d) as char else ('a' as int + d - 10) as char
  }

  /** Decimal rendering of `n`, as `str(n)` gives it. */
  function Decimal(n: nat): (s: string)
    ensures |s| > 0 && AllDigits(s, 10)
    ensures s[|s| - 1] == DecimalDigit(n % 10)
  {
    if n < 10 then [DecimalDigit(n)] else Decimal(n / 10) + [DecimalDigit(n % 10)]
  }

  /** Hexadecimal rendering of `n` in lower case, as `f"{n:x}"` gives it. */
  function Hex(n: nat): (s: string)
    ensures |s| > 0 && AllDigits(s, 16)
    ensures s[|s| - 1] == HexDigit(n % 16)
  {
    if n < 16 then [HexDigit(n)] else Hex(n / 16) + [HexDigit(n % 16)]
  }

  /** The digits of a rendering have the rendered value. */
  lemma {:induction false} DecimalValue(n: nat)
    ensures DigitsValue(Decimal(n), 10) == n
  {
    if n >= 10 {
      var s := Decimal(n);
      assert s[..|s| - 1] == Decimal(n / 10);
      DecimalValue(n / 10);
    }
  }

  lemma {:induction false} HexValue(n: nat)
    ensures DigitsValue(Hex(n), 16) == n
  {
    if n >= 16 {
      var s := Hex(n);
      assert s[..|s| - 1] == Hex(n / 16);
      HexValue(n / 16);
    }
  }

  /** Digits only: lower-casing changes nothing and no sign or prefix is present. */
  lemma DigitStringFacts(s: string, base: nat)
    requires base == 10 || base == 16
    requires |s| > 0 && AllDigits(s, base)
    ensures Lower(s) == s
    ensures !StartsWith(s, "0x") && !EndsWith(s, "hz")
    ensures PyInt(s, base) == Ok(DigitsValue(s, base))
  {
    assert DigitValue(s[0], base) >= 0;
    if |s| >= 2 {
      assert DigitValue(s[1], base) >= 0;
      assert DigitValue(s[|s| - 1], base) >= 0;
    }
  }

  /** Every suffix of the table is at least two characters long, and its
      second-to-last character is a letter that is no digit in base 16. */
  lemma SuffixShapes(k: nat)
    requires k < SUFFIX_COUNT
    ensures |SuffixText(k)| == if k < 5 then 2 else 3
    ensures DigitValue(SuffixText(k)[|SuffixText(k)| - 2], 16) == -1
    ensures forall i :: 0 <= i < |SuffixText(k)| ==> 'a' <= SuffixText(k)[i] <= 'z'
  {
    if k == 0 { assert SuffixText(k) == "kb"; }
    else if k == 1 { assert SuffixText(k) == "mb"; }
    else if k == 2 { assert SuffixText(k) == "gb"; }
    else if k == 3 { assert SuffixText(k) == "tb"; }
    else if k == 4 { assert SuffixText(k) == "pb"; }
    else if k == 5 { assert SuffixText(k) == "khz"; }
    else { assert SuffixText(k) == "mhz"; }
  }

  /** So a string of digits matches none of the suffixes. */
  lemma NoSuffixOnDigits(s: string, base: nat)
    requires base == 10 || base == 16
    requires AllDigits(s, base)
    ensures FindSuffix(s, 0) == None
  {
    forall k | 0 <= k < SUFFIX_COUNT ensures !EndsWith(s, SuffixText(k)) {
      var suf := SuffixText(k);
      SuffixShapes(k);
      if |suf| <= |s| {
        assert DigitValue(s[|s| - 2], base) >= 0;
        assert s[|s| - |suf|..][|suf| - 2] == s[|s| - 2];
      }
    }
    FindSuffixMisses(s, 0);
  }

  /** A plain decimal number parses back to itself. */
  lemma DecimalRoundTrip(n: nat)
    ensures IntParser(Decimal(n)) == Ok(n)
  {
    var s := Decimal(n);
    DigitStringFacts(s, 10);
    DecimalValue(n);
    NoSuffixOnDigits(s, 10);
    IntParserUnfold(s);
    assert !EndsWith(s, "b") by { assert DigitValue(s[|s| - 1], 10) >= 0; }
    assert StripUnits(s) == s;
  }

  /** No suffix of the table ends a later one. */
  lemma SuffixesDistinct(j: nat, k: nat)
    requires j < k < SUFFIX_COUNT
    ensures !EndsWith(SuffixText(k), SuffixText(j))
  {
    var a, b := SuffixText(j), SuffixText(k);
    SuffixShapes(j);
    SuffixShapes(k);
    if k < 5 {
      assert a[0] != b[0];
    } else if j < 5 {
      assert a[1] == 'b' && b[2] == 'z';
    } else {
      assert a[0] == 'k' && b[0] == 'm';
    }
  }

  /** A string ending in `suf` ends in `other` only when `suf` does. */
  lemma NotEndsWithVia(s: string, suf: string, other: string)
    requires EndsWith(s, suf) && |other| <= |suf| && !EndsWith(suf, other)
    ensures !EndsWith(s, other)
  {
    assert s[|s| - |other|..] == suf[|suf| - |other|..];
  }

  /** After any text, suffix `k` is the first of the table that matches. */
  lemma FirstSuffix(d: string, k: nat)
    requires k < SUFFIX_COUNT
    ensures FindSuffix(d + SuffixText(k), 0) == Some(k)
  {
    var suf := SuffixText(k);
    var s := d + suf;
    assert EndsWith(s, suf) by { assert s[|s| - |suf|..] == suf; }
    forall j | 0 <= j < k ensures !EndsWith(s, SuffixText(j)) {
      SuffixesDistinct(j, k);
      SuffixShapes(j);
      SuffixShapes(k);
      NotEndsWithVia(s, suf, SuffixText(j));
    }
    FindSuffixFinds(s, 0, k);
  }

  /** A body ending in suffix `k` after a number parses to the number scaled. */
  lemma ParseBodySuffix(body: string, base: nat, k: nat, v: int)
    requires base == 10 || base == 16
    requires FindSuffix(body, 0) == Some(k)
    requires PyInt(body[..|body| - |SuffixText(k)|], base) == Ok(v)
    ensures ParseBody(body, base) == Ok(Scale(v, k))
  {
    ParseBodyFound(body, base, k);
    ScaledNumberOk(body, base, k, v);
  }

  lemma ParseBodyFound(body: string, base: nat, k: nat)
    requires base == 10 || base == 16
    requires FindSuffix(body, 0) == Some(k)
    ensures ParseBody(body, base) == ScaledNumber(body, base, k)
  {
  }

  lemma ScaledNumberOk(body: string, base: nat, k: nat, v: int)
    requires base == 10 || base == 16
    requires k < SUFFIX_COUNT && |SuffixText(k)| <= |body|
    requires PyInt(body[..|body| - |SuffixText(k)|], base) == Ok(v)
    ensures ScaledNumber(body, base, k) == Ok(Scale(v, k))
  {
  }

  lemma ScaleByMultiplier(v: int, k: nat)
    requires k < SUFFIX_COUNT
    ensures Scale(v, k) == v * SuffixMultiplier(k)
  {
  }

  /** A decimal number followed by a suffix is already lower case and has no `0x`. */
  lemma DecimalWithSuffixShape(d: string, k: nat)
    requires k < SUFFIX_COUNT && |d| > 0 && AllDigits(d, 10)
    ensures Lower(d + SuffixText(k)) == d + SuffixText(k)
    ensures !StartsWith(d + SuffixText(k), "0x")
  {
    var suf := SuffixText(k);
    var s := d + suf;
    SuffixShapes(k);
    forall i | 0 <= i < |s| ensures LowerChar(s[i]) == s[i] {
      if i >= |d| { assert s[i] == suf[i - |d|]; }
      else { assert s[i] == d[i] && DigitValue(d[i], 10) >= 0; }
    }
    if |d| >= 2 { assert s[1] == d[1]; assert DigitValue(d[1], 10) >= 0; }
    else { assert s[1] == suf[0]; }
  }

  /** A decimal number followed by any suffix of the table is scaled by that suffix's
      multiplier. */
  lemma SuffixScales(n: nat, k: nat)
    requires k < SUFFIX_COUNT
    ensures IntParser(Decimal(n) + SuffixText(k)) == Ok(n * SuffixMultiplier(k))
  {
    var d := Decimal(n);
    var s := d + SuffixText(k);
    DecimalWithSuffixShape(d, k);
    IntParserUnfold(s);
    FirstSuffix(d, k);
    assert s[..|s| - |SuffixText(k)|] == d;
    DigitStringFacts(d, 10);
    DecimalValue(n);
    ParseBodySuffix(s, 10, k, n);
    ScaleByMultiplier(n, k);
  }

  /** The hexadecimal rendering of `n` after `0x` parses to `n`, unless its last digit
      is `b`: that digit is then stripped as a byte unit, leaving `n / 16` (or nothing to
      convert when `n` is 11). */
  lemma HexParse(n: nat)
    ensures IntParser("0x" + Hex(n)) ==
      if n % 16 != 11 then Ok(n)
      else if n < 16 then Err(ValueError)
      else Ok(n / 16)
  {
    var h := Hex(n);
    var s := "0x" + h;
    DigitStringFacts(h, 16);
    assert Lower(s) == s by {
      forall i | 0 <= i < |s| ensures LowerChar(s[i]) == s[i] {
        if i >= 2 { assert s[i] == h[i - 2] && DigitValue(h[i - 2], 16) >= 0; }
      }
    }
    assert StartsWith(s, "0x");
    assert s[2..] == h;
    IntParserUnfold(s);
    NoSuffixOnDigits(h, 16);
    assert ParseBody(h, 16) == PyInt(StripUnits(h), 16);
    HexStripUnits(n);
    HexValue(n);
    if n % 16 == 11 && n >= 16 {
      DigitStringFacts(Hex(n / 16), 16);
      HexValue(n / 16);
    }
  }

  /** Unit stripping takes the last hexadecimal digit away exactly when it is `b`. */
  lemma HexStripUnits(n: nat)
    ensures StripUnits(Hex(n)) ==
      if n % 16 != 11 then Hex(n) else if n < 16 then [] else Hex(n / 16)
  {
    var h := Hex(n);
    assert EndsWith(h, "b") <==> n % 16 == 11 by {
      assert EndsWith(h, "b") <==> h[|h| - 1] == 'b';
    }
    var noB := if EndsWith(h, "b") then h[..|h| - 1] else h;
    assert AllDigits(noB, 16);
    NoHzOnDigits(noB, 16);
    if n % 16 == 11 && n >= 16 {
      assert noB == Hex(n / 16);
    }
  }

  /** A string of digits does not end in `hz`. */
  lemma NoHzOnDigits(s: string, base: nat)
    requires AllDigits(s, base)
    ensures !EndsWith(s, "hz")
  {
    if |s| >= 2 {
      assert DigitValue(s[|s| - 1], base) >= 0;
    }
  }

  /** Two concrete consequences: `0x1b` is one and `0xab` is ten. */
  lemma HexByteSuffixQuirk()
    ensures IntParser("0x1b") == Ok(1)
    ensures IntParser("0xab") == Ok(10)
  {
    assert HexDigit(1) == '1' && HexDigit(10) == 'a' && HexDigit(11) == 'b';
    assert Hex(27) == Hex(1) + [HexDigit(11)] == "1b";
    assert Hex(171) == Hex(10) + [HexDigit(11)] == "ab";
    HexParse(27);
    assert "0x" + Hex(27) == "0x1b";
    HexParse(171);
    assert "0x" + Hex(171) == "0xab";
  }
}
