/** Colombian-peso amounts as text (`usePesosFormat.ts`): `.` between
    thousands, `,` before the centavos. An amount is an exact number of
    cents, so `Cents(123456750)` stands for the number 1234567.5. */
module PesosFormat {
  import opened Wrappers
  import opened Text

  /** What `formatPesos` may be given: `undefined`, `null`, `NaN` or a number. */
  datatype Amount = Undefined | Null | NaN | Cents(cents: int)

  /** The character class `[\d.,]`. */
  predicate IsPesosChar(c: char) { In(PesosChar, c) }

  // ---------------------------------------------------------------------------
  // formatPesos
  // ---------------------------------------------------------------------------

  function Abs(c: int): nat { if c < 0 then -c else c }

  /** The regex replace `/\B(?=(\d{3})+(?!\d))/g` on a run of digits: a `.`
      goes before every position followed by a non-zero multiple of three
      digits. */
  function GroupThousands(d: string): (r: string)
    requires |d| >= 1
    ensures |r| >= 1 && r[0] == d[0]
    decreases |d|
  {
    if |d| <= 3 then d else GroupThousands(d[..|d| - 3]) + "." + d[|d| - 3..]
  }

  /** One dot for every full group of three digits after the first group. */
  lemma {:induction false} GroupThousandsLength(d: string)
    requires |d| >= 1
    ensures |GroupThousands(d)| == |d| + (|d| - 1) / 3
    decreases |d|
  {
    if |d| > 3 {
      GroupThousandsLength(d[..|d| - 3]);
    }
  }

  lemma {:induction false} GroupThousandsStep(d: string)
    requires |d| > 3
    ensures GroupThousands(d) == GroupThousands(d[..|d| - 3]) + "." + d[|d| - 3..]
  {
  }

  /** Deleting the dots of the grouping gives the digits back. */
  lemma {:induction false} GroupThousandsKeep(d: string)
    requires |d| >= 1 && AllDigits(d)
    ensures Keep(GroupThousands(d), NotDot) == d
    ensures Keep(GroupThousands(d), Digit) == d
    decreases |d|
  {
    if |d| <= 3 {
      KeepAll(d, NotDot);
      KeepAll(d, Digit);
    } else {
      var h, t := d[..|d| - 3], d[|d| - 3..];
      var g := GroupThousands(h);
      GroupThousandsStep(d);
      GroupThousandsKeep(h);
      KeepAppend(g + ".", t, NotDot);
      KeepAppend(g, ".", NotDot);
      KeepAppend(g + ".", t, Digit);
      KeepAppend(g, ".", Digit);
      KeepAll(t, NotDot);
      KeepAll(t, Digit);
      assert Keep(".", NotDot) == [] && Keep(".", Digit) == [];
      assert h + [] + t == d;
    }
  }

  /** The grouping is made of digits and dots only. */
  lemma {:induction false} GroupThousandsChars(d: string)
    requires |d| >= 1 && AllDigits(d)
    ensures forall i :: 0 <= i < |GroupThousands(d)| ==> GroupThousands(d)[i] == '.' || IsDigit(GroupThousands(d)[i])
    decreases |d|
  {
    if |d| > 3 {
      var h, t := d[..|d| - 3], d[|d| - 3..];
      var g := GroupThousands(h);
      var r := g + "." + t;
      GroupThousandsStep(d);
      GroupThousandsChars(h);
      forall i | 0 <= i < |r| ensures r[i] == '.' || IsDigit(r[i]) {
        if i < |g| {
          assert r[i] == g[i];
        } else if i > |g| {
          assert r[i] == t[i - |g| - 1] == d[|d| - 3 + (i - |g| - 1)];
        }
      }
    }
  }

  /** A dot sits exactly at the indices whose distance from the end is a
      multiple of four, so the length itself is not one. */
  predicate DotsEveryFourth(r: string) {
    && |r| % 4 != 0
    && (forall i :: 0 <= i < |r| ==> (r[i] == '.' <==> (|r| - i) % 4 == 0))
  }

  /** The first group has one to three digits (`|r| % 4` of them) and every
      later group exactly three. */
  lemma {:induction false} GroupThousandsDots(d: string)
    requires |d| >= 1 && AllDigits(d)
    ensures DotsEveryFourth(GroupThousands(d))
    decreases |d|
  {
    if |d| <= 3 {
      assert GroupThousands(d) == d;
      ModFourSmall(|d|);
      forall i | 0 <= i < |d| ensures d[i] != '.' && (|d| - i) % 4 != 0 {
        ModFourSmall(|d| - i);
      }
    } else {
      var h, t := d[..|d| - 3], d[|d| - 3..];
      var g := GroupThousands(h);
      var r := g + "." + t;
      GroupThousandsStep(d);
      GroupThousandsDots(h);
      ModFourShift(|g|);
      forall i | 0 <= i < |r|
        ensures (r[i] == '.' <==> (|r| - i) % 4 == 0)
      {
        if i < |g| {
          DotInFirstGroups(g, t, i);
        } else if i == |g| {
          assert r[i] == '.' && |r| - i == 4;
        } else {
          NoDotInLastGroup(g, t, i);
        }
      }
    }
  }

  /** Appending `.` and a group of three keeps the dots of the first groups
      at the same distances from the end, modulo four. */
  lemma {:induction false} DotInFirstGroups(g: string, t: string, i: int)
    requires 0 <= i < |g| && |t| == 3
    requires g[i] == '.' <==> (|g| - i) % 4 == 0
    ensures var r := g + "." + t; r[i] == '.' <==> (|r| - i) % 4 == 0
  {
    var r := g + "." + t;
    assert r[i] == g[i];
    ModFourShift(|g| - i);
    assert |r| - i == (|g| - i) + 4;
  }

  /** The last group holds digits, one to three places from the end. */
  lemma {:induction false} NoDotInLastGroup(g: string, t: string, i: int)
    requires |g| < i < |g| + 4 && |t| == 3 && AllDigits(t)
    ensures var r := g + "." + t; r[i] != '.' && (|r| - i) % 4 != 0
  {
    var r := g + "." + t;
    assert r[i] == t[i - |g| - 1];
    ModFourSmall(|r| - i);
  }

  lemma {:induction false} ModFourShift(m: int)
    ensures (m + 4) % 4 == m % 4
  {
  }

  lemma {:induction false} ModFourSmall(n: int)
    requires 1 <= n <= 3
    ensures n % 4 != 0
  {
  }

  /** `num.toFixed(2)` before the '.': the sign and the whole units. */
  function FixedIntPart(c: int): string {
    (if c < 0 then "-" else "") + NatToDigits(Abs(c) / 100)
  }

  /** `num.toFixed(2)` after the '.': the two decimals. */
  function FixedDecPart(c: int): (r: string)
    ensures |r| == 2 && AllDigits(r)
  {
    var cents := Abs(c) % 100;
    [DigitChar(cents / 10), DigitChar(cents % 10)]
  }

  /** The thousands regex on `toFixed`'s integer part. A leading `-` is not a
      word character, so no `\B` position lies before the first digit and
      the insertion points all fall inside the digit run. */
  function WithThousands(c: int): (w: string)
    ensures w != [] && (w[0] == '-' <==> c < 0)
  {
    (if c < 0 then "-" else "") + GroupThousands(NatToDigits(Abs(c) / 100))
  }

  /** `formatPesos(value)`. `num % 1 !== 0` holds exactly when the amount
      has centavos, that is when `c % 100 != 0`. */
  function FormatPesos(value: Amount): (r: string)
    ensures r == "" <==> !value.Cents?
  {
    match value
    case Undefined => ""
    case Null => ""
    case NaN => ""
    case Cents(c) =>
      if c % 100 != 0 then WithThousands(c) + "," + FixedDecPart(c) else WithThousands(c)
  }

  /** The two decimals of `toFixed(2)` read back as the centavos. */
  lemma {:induction false} FixedDecPartValue(c: int)
    ensures DigitsValue(FixedDecPart(c)) == Abs(c) % 100
  {
    var r := FixedDecPart(c);
    var cents := Abs(c) % 100;
    assert r[..1] == [r[0]] && [r[0]][..0] == [];
    assert DigitsValue(r[..1]) == DigitValue(r[0]) == cents / 10;
    assert DigitsValue(r) == DigitsValue(r[..1]) * 10 + DigitValue(r[1]);
    assert DigitValue(r[1]) == cents % 10;
  }

  /** The grouped integer part has no comma, and its digits are the whole units. */
  lemma {:induction false} WithThousandsDigits(c: int)
    ensures ',' !in WithThousands(c)
    ensures Keep(WithThousands(c), Digit) == NatToDigits(Abs(c) / 100)
  {
    var d := NatToDigits(Abs(c) / 100);
    GroupThousandsChars(d);
    GroupThousandsKeep(d);
    SignThenGroups(if c < 0 then "-" else "", GroupThousands(d), d);
  }

  /** An optional `-` before digits and dots: no comma, and its digits are
      those of the groups. */
  lemma {:induction false} SignThenGroups(sign: string, g: string, d: string)
    requires sign == "" || sign == "-"
    requires forall i :: 0 <= i < |g| ==> g[i] == '.' || IsDigit(g[i])
    requires Keep(g, Digit) == d
    ensures ',' !in sign + g && Keep(sign + g, Digit) == d
  {
    NoCommaAfterSign(sign, g);
    KeepAppend(sign, g, Digit);
    assert Keep(sign, Digit) == [];
  }

  lemma {:induction false} NoCommaAfterSign(sign: string, g: string)
    requires sign == "" || sign == "-"
    requires forall i :: 0 <= i < |g| ==> g[i] == '.' || IsDigit(g[i])
    ensures ',' !in sign + g
  {
    var w := sign + g;
    forall i | 0 <= i < |w| ensures w[i] != ',' {
      if i >= |sign| {
        assert w[i] == g[i - |sign|];
      }
    }
  }

  /** The decimal suffix: none for a whole amount; otherwise exactly one comma,
      followed by exactly two digits that give the centavos. */
  lemma {:induction false} FormatDecimalSuffix(c: int)
    ensures var r := FormatPesos(Cents(c));
      && (c % 100 == 0 ==> ',' !in r)
      && (c % 100 != 0 ==>
            && Count(r, ',') == 1 && |r| >= 4 && r[|r| - 3] == ','
            && AllDigits(r[|r| - 2..]) && DigitsValue(r[|r| - 2..]) == Abs(c) % 100)
  {
    WithThousandsDigits(c);
    if c % 100 != 0 {
      CommaThenDecimals(WithThousands(c), FixedDecPart(c));
      FixedDecPartValue(c);
    }
  }

  /** A comma-free text, a comma and two digits: the comma is the only one,
      third from the end, and the two digits end the text. */
  lemma {:induction false} CommaThenDecimals(w: string, dec: string)
    requires w != [] && ',' !in w && |dec| == 2 && AllDigits(dec)
    ensures var r := w + "," + dec;
      Count(r, ',') == 1 && |r| >= 4 && r[|r| - 3] == ',' && r[|r| - 2..] == dec
  {
    var r := w + "," + dec;
    assert ',' !in dec by {
      forall i | 0 <= i < |dec| ensures dec[i] != ',' {
        assert IsDigit(dec[i]);
      }
    }
    CountAppend(w + ",", dec, ',');
    CountAppend(w, ",", ',');
    assert r[|r| - 2..] == dec;
  }

  /** The integer part of a formatted amount: what precedes the decimal suffix. */
  function IntegerPartOf(c: int): (w: string)
    ensures w == WithThousands(c)
  {
    var r := FormatPesos(Cents(c));
    if c % 100 == 0 then r else r[..|r| - 3]
  }

  /** The integer part of an amount is its whole pesos, grouped by
      thousands: without the dots it is the decimal rendering of the pesos,
      and the dots stand exactly every three digits from the right (1234567
      pesos gives "1.234.567"). */
  lemma {:induction false} FormatGroupsThousands(c: int)
    requires c >= 0
    ensures Keep(IntegerPartOf(c), NotDot) == NatToDigits(c / 100)
    ensures DotsEveryFourth(IntegerPartOf(c))
  {
    var d := NatToDigits(c / 100);
    var g := GroupThousands(d);
    GroupThousandsDots(d);
    GroupThousandsKeep(d);
    assert IntegerPartOf(c) == WithThousands(c) == g;
  }

  /** 1234567 gives "1.234.567" and 1234567.5 gives "1.234.567,50". */
  lemma {:induction false} FormatExamples(whole: int, fractional: int)
    requires whole == 123456700 && fractional == 123456750
    ensures FormatPesos(Cents(whole)) == "1.234.567"
    ensures FormatPesos(Cents(fractional)) == "1.234.567,50"
  {
    GroupedExample();
    assert Abs(whole) / 100 == 1234567 && whole % 100 == 0;
    assert Abs(fractional) / 100 == 1234567 && fractional % 100 == 50;
    assert FixedDecPart(fractional) == "50";
  }

  lemma {:induction false} GroupedExample()
    ensures GroupThousands(NatToDigits(1234567)) == "1.234.567"
  {
    var d := NatToDigits(1234567);
    SevenDigits();
    GroupThousandsStep(d);
    assert d[..4] == "1234" && d[4..] == "567";
    GroupThousandsStep("1234");
    assert "1234"[..1] == "1" && "1234"[1..] == "234";
  }

  lemma {:induction false} SevenDigits()
    ensures NatToDigits(1234567) == "1234567"
  {
    assert NatToDigits(1) == "1";
    NatToDigitsStep(12);
    assert NatToDigits(12) == "12";
    NatToDigitsStep(123);
    assert NatToDigits(123) == "123";
    NatToDigitsStep(1234);
    assert NatToDigits(1234) == "1234";
    NatToDigitsStep(12345);
    assert NatToDigits(12345) == "12345";
    NatToDigitsStep(123456);
    assert NatToDigits(123456) == "123456";
    NatToDigitsStep(1234567);
  }

  lemma NatToDigitsStep(n: nat)
    requires n >= 10
    ensures NatToDigits(n) == NatToDigits(n / 10) + [DigitChar(n % 10)]
  {
  }

  // ---------------------------------------------------------------------------
  // filterPesosChars
  // ---------------------------------------------------------------------------

  /** `filterPesosChars(input)`: the digits, dots and commas of the input, in
      order; every other character is dropped. */
  function FilterPesosChars(input: string): (r: string)
    ensures forall i :: 0 <= i < |r| ==> IsPesosChar(r[i])
  {
    Keep(input, PesosChar)
  }

  /** Each digit, dot and comma is kept as often as it occurs; nothing else is kept. */
  lemma {:induction false} FilterCounts(s: string, c: char)
    ensures Count(FilterPesosChars(s), c) == if IsPesosChar(c) then Count(s, c) else 0
  {
    CountKeep(s, PesosChar, c);
  }

  lemma {:induction false} FilterIdempotent(s: string)
    ensures FilterPesosChars(FilterPesosChars(s)) == FilterPesosChars(s)
  {
    KeepAll(FilterPesosChars(s), PesosChar);
  }

  /** Filtering works piece by piece, so the result is a subsequence of the input. */
  lemma {:induction false} FilterAppend(a: string, b: string)
    ensures FilterPesosChars(a + b) == FilterPesosChars(a) + FilterPesosChars(b)
  {
    KeepAppend(a, b, PesosChar);
  }

  // ---------------------------------------------------------------------------
  // parsePesosInput
  // ---------------------------------------------------------------------------

  /** How many digits `s` starts with. */
  function LeadingDigits(s: string): (k: nat)
    ensures k <= |s| && AllDigits(s[..k])
    ensures k < |s| ==> !IsDigit(s[k])
  {
    if s != [] && IsDigit(s[0]) then
      var k := 1 + LeadingDigits(s[1..]);
      assert s[..k] == [s[0]] + s[1..][..k - 1];
      k
    else 0
  }

  /** The test `/^\d*\.?\d*$/`. A text with a comma never passes. */
  predicate MatchesPlainDecimal(s: string)
    ensures MatchesPlainDecimal(s) ==> ',' !in s
  {
    var k := LeadingDigits(s);
    DigitsDotDigitsHasNoComma(s, k);
    k == |s| || (s[k] == '.' && AllDigits(s[k + 1..]))
  }

  /** Digits, then at most one dot and digits, leave no room for a comma. */
  lemma {:induction false} DigitsDotDigitsHasNoComma(s: string, k: nat)
    requires k == LeadingDigits(s)
    ensures k == |s| || (s[k] == '.' && AllDigits(s[k + 1..])) ==> ',' !in s
  {
    if k == |s| || (s[k] == '.' && AllDigits(s[k + 1..])) {
      forall i | 0 <= i < |s| ensures s[i] != ',' {
        if i < k {
          assert s[..k][i] == s[i];
        } else if i > k {
          assert s[k + 1..][i - k - 1] == s[i];
        }
      }
    }
  }

  /** The centavos written by the first two digits of a fraction; the rest is ignored. */
  function FractionCents(f: string): (r: nat)
    ensures r < 100
  {
    var g := f[..LeadingDigits(f)];
    (if |g| >= 1 then DigitValue(g[0]) * 10 else 0) + (if |g| >= 2 then DigitValue(g[1]) else 0)
  }

  /** `parseFloat(s)` in cents, for the strings the pattern above accepts. */
  function ParseFloatCents(s: string): nat {
    var k := LeadingDigits(s);
    DigitsValue(s[..k]) * 100 + (if k < |s| then FractionCents(s[k + 1..]) else 0)
  }

  /** The amount, in cents, of a pesos digit text and a centavos digit text. */
  function CentsOf(pesosDigits: string, centavosDigits: string): nat
    requires AllDigits(pesosDigits) && AllDigits(centavosDigits)
  {
    DigitsValue(pesosDigits) * 100 + FractionCents(centavosDigits)
  }

  /** `s.slice(0, n)`. */
  function Take(s: string, n: nat): string {
    if |s| <= n then s else s[..n]
  }

  /** `parsePesosInput(input)`, in cents; `None` is `undefined`. After the
      filter there is no white space left for the `\s` removal or `trim`
      to take. */
  function ParsePesosInput(input: string): (r: Option<int>)
    ensures r == ParseTrimmed(FilterPesosChars(input))
    ensures r.Some? ==> r.value >= 0
  {
    FilteredHasNoSpace(input);
    ParseTrimmed(Trim(Keep(FilterPesosChars(input), NotSpace)))
  }

  /** Removing `\s` and trimming after the filter change nothing. */
  lemma {:induction false} FilteredHasNoSpace(s: string)
    ensures Trim(Keep(FilterPesosChars(s), NotSpace)) == FilterPesosChars(s)
  {
    var f := FilterPesosChars(s);
    assert forall i :: 0 <= i < |f| ==> In(NotSpace, f[i]);
    KeepAll(f, NotSpace);
    TrimUnchanged(f);
  }

  /** The steps after `trimmed` is computed: empty is `undefined`. */
  function ParseTrimmed(trimmed: string): (r: Option<int>)
    ensures trimmed == "" ==> r.None?
    ensures r.Some? ==> r.value >= 0
  {
    if trimmed == "" then None else ParseNumber(IntegerText(trimmed), DecimalText(trimmed))
  }

  /** `intStr`: what precedes the last comma (all of it without a comma), dots removed. */
  function IntegerText(t: string): (r: string)
    ensures '.' !in r && |r| <= |t|
    ensures ',' !in t ==> r == Keep(t, NotDot)
  {
    var lastComma := LastIndexOf(t, ',');
    Keep(if lastComma >= 0 then t[..lastComma] else t, NotDot)
  }

  /** `decStr`: at most two digits from after the last comma; empty without a comma. */
  function DecimalText(t: string): (r: string)
    ensures |r| <= 2 && AllDigits(r)
    ensures ',' !in t ==> r == []
  {
    var lastComma := LastIndexOf(t, ',');
    if lastComma >= 0 then Take(Keep(t[lastComma + 1..], Digit), 2) else ""
  }

  /** `combined`, its test against `/^\d*\.?\d*$/`, then `parseFloat(combined || '0')`
      and the `num < 0` check. */
  function ParseNumber(intStr: string, decStr: string): (r: Option<int>)
    ensures ',' in intStr ==> r.None?
    ensures r.Some? ==> r.value >= 0
  {
    var combined := if decStr != "" then intStr + "." + decStr else intStr;
    if !MatchesPlainDecimal(combined) then None
    else
      var num := ParseFloatCents(if combined == "" then "0" else combined);
      if num < 0 then None else Some(num)
  }

  // Lemmas that take the parser apart.

  /** In a string of digits and dots, dropping the dots keeps exactly the digits. */
  lemma {:induction false} DotlessIsDigits(s: string)
    requires forall i :: 0 <= i < |s| ==> IsPesosChar(s[i]) && s[i] != ','
    ensures Keep(s, NotDot) == Keep(s, Digit)
  {
    if s != [] {
      DotlessIsDigits(s[1..]);
    }
  }

  lemma {:induction false} LeadingDigitsUnique(s: string, m: nat)
    requires m <= |s| && AllDigits(s[..m]) && (m < |s| ==> !IsDigit(s[m]))
    ensures LeadingDigits(s) == m
  {
    if m > 0 {
      assert s[..m][0] == s[0];
      assert s[1..][..m - 1] == s[..m][1..];
      LeadingDigitsUnique(s[1..], m - 1);
    }
  }

  lemma {:induction false} LeadingDigitsOf(a: string, b: string)
    requires AllDigits(a)
    requires b == [] || !IsDigit(b[0])
    ensures LeadingDigits(a + b) == |a|
  {
    assert (a + b)[..|a|] == a;
    LeadingDigitsUnique(a + b, |a|);
  }

  lemma {:induction false} ParseFloatCentsOfDigits(s: string)
    requires AllDigits(s)
    ensures ParseFloatCents(s) == DigitsValue(s) * 100
  {
    LeadingDigitsUnique(s, |s|);
    assert s[..|s|] == s;
  }

  lemma {:induction false} ParseFloatCentsOfDecimal(intStr: string, decStr: string)
    requires AllDigits(intStr) && AllDigits(decStr)
    ensures var combined := intStr + "." + decStr;
      && MatchesPlainDecimal(combined)
      && ParseFloatCents(combined) == DigitsValue(intStr) * 100 + FractionCents(decStr)
  {
    var combined := intStr + "." + decStr;
    assert combined == intStr + ("." + decStr);
    LeadingDigitsOf(intStr, "." + decStr);
    assert combined[..|intStr|] == intStr;
    assert combined[|intStr| + 1..] == decStr;
  }

  lemma {:induction false} ParseNumberEmpty()
    ensures ParseNumber("", "") == Some(0)
  {
    ParseFloatCentsOfDigits("0");
  }

  lemma {:induction false} ParseNumberWhole(intStr: string)
    requires AllDigits(intStr) && intStr != ""
    ensures ParseNumber(intStr, "") == Some(DigitsValue(intStr) * 100)
  {
    LeadingDigitsUnique(intStr, |intStr|);
    assert intStr[..|intStr|] == intStr;
    ParseFloatCentsOfDigits(intStr);
  }

  lemma {:induction false} ParseNumberFraction(intStr: string, decStr: string)
    requires AllDigits(intStr) && AllDigits(decStr) && decStr != ""
    ensures ParseNumber(intStr, decStr) == Some(DigitsValue(intStr) * 100 + FractionCents(decStr))
  {
    ParseFloatCentsOfDecimal(intStr, decStr);
  }

  /** Well-formed digit texts are read as pesos and centavos. */
  lemma {:induction false} ParseNumberDigits(intStr: string, decStr: string)
    requires AllDigits(intStr) && AllDigits(decStr)
    ensures ParseNumber(intStr, decStr) == Some(CentsOf(intStr, decStr))
  {
    if decStr != "" {
      ParseNumberFraction(intStr, decStr);
    } else if intStr != "" {
      ParseNumberWhole(intStr);
      assert FractionCents(decStr) == 0;
    } else {
      ParseNumberEmpty();
      assert FractionCents(decStr) == 0;
    }
  }

  lemma {:induction false} ParseNumberNoDecimals(intStr: string)
    requires AllDigits(intStr)
    ensures ParseNumber(intStr, "") == Some(DigitsValue(intStr) * 100)
  {
    if intStr != "" {
      ParseNumberWhole(intStr);
    } else {
      ParseNumberEmpty();
    }
  }

  /** `decStr` keeps at most two digits, which is all the centavos read. */
  lemma {:induction false} ParseNumberDigitsTake(intStr: string, digits: string)
    requires AllDigits(intStr) && AllDigits(digits)
    ensures ParseNumber(intStr, Take(digits, 2)) == Some(CentsOf(intStr, digits))
  {
    var decStr := Take(digits, 2);
    assert AllDigits(decStr);
    FractionCentsOfTake(digits);
    ParseNumberDigits(intStr, decStr);
  }

  /** Two digits of fraction are read as the centavos they denote. */
  lemma {:induction false} FractionCentsOfDigits(g: string)
    requires |g| == 2 && AllDigits(g)
    ensures FractionCents(g) == DigitsValue(g)
  {
    LeadingDigitsOf(g, []);
    assert g + [] == g && g[..2] == g;
    assert g[..1] == [g[0]] && [g[0]][..0] == [];
    assert DigitsValue(g[..1]) == DigitValue(g[0]);
    assert DigitsValue(g) == DigitsValue(g[..1]) * 10 + DigitValue(g[1]);
  }

  lemma {:induction false} FractionCentsOfTake(g: string)
    requires AllDigits(g)
    ensures FractionCents(Take(g, 2)) == FractionCents(g)
  {
    var t := Take(g, 2);
    LeadingDigitsOf(g, []);
    LeadingDigitsOf(t, []);
    assert g + [] == g && t + [] == t;
    assert g[..|g|] == g && t[..|t|] == t;
  }

  /** A filtered string without commas is all digits and dots. */
  lemma {:induction false} FilteredWithoutComma(s: string)
    requires ',' !in s
    ensures var f := FilterPesosChars(s);
      && ',' !in f
      && Keep(f, NotDot) == Keep(s, Digit)
  {
    var f := FilterPesosChars(s);
    CountKeep(s, PesosChar, ',');
    DotlessIsDigits(f);
    KeepKeep(s, PesosChar, Digit);
  }

  /** Without a comma, the amount is the input's digits read as whole pesos:
      the dots (and every other character) are ignored. */
  lemma {:induction false} ParseWithoutComma(s: string)
    requires ',' !in s && FilterPesosChars(s) != ""
    ensures ParsePesosInput(s) == Some(DigitsValue(Keep(s, Digit)) * 100)
  {
    var f := FilterPesosChars(s);
    var digits := Keep(s, Digit);
    FilteredWithoutComma(s);
    ParseNumberNoDecimals(digits);
    assert ParseTrimmed(f) == ParseNumber(digits, []);
  }

  /** `intStr` and `decStr` when the last comma is at index `k`. */
  lemma {:induction false} TextsAtLastComma(f: string, k: int)
    requires 0 <= k < |f| && f[k] == ',' && ',' !in f[k + 1..]
    ensures IntegerText(f) == Keep(f[..k], NotDot)
    ensures DecimalText(f) == Take(Keep(f[k + 1..], Digit), 2)
  {
    LastIndexOfAt(f, ',', k);
  }

  /** Filtering an input with one comma filters the two sides of the comma. */
  lemma {:induction false} FilterAroundComma(a: string, b: string)
    ensures FilterPesosChars(a + "," + b) == FilterPesosChars(a) + "," + FilterPesosChars(b)
  {
    KeepAppend(a + ",", b, PesosChar);
    KeepAppend(a, ",", PesosChar);
    assert Keep(",", PesosChar) == ",";
  }

  /** The parse of a filtered text with exactly one comma. */
  lemma {:induction false} ParseTrimmedOneComma(fa: string, fb: string)
    requires forall i :: 0 <= i < |fa| ==> IsPesosChar(fa[i]) && fa[i] != ','
    requires ',' !in fb
    ensures ParseTrimmed(fa + "," + fb)
         == Some(CentsOf(Keep(fa, Digit), Keep(fb, Digit)))
  {
    var t := fa + "," + fb;
    assert t[..|fa|] == fa && t[|fa| + 1..] == fb && t[|fa|] == ',';
    TextsAtLastComma(t, |fa|);
    DotlessIsDigits(fa);
    assert ParseTrimmed(t) == ParseNumber(Keep(fa, Digit), Take(Keep(fb, Digit), 2));
    ParseNumberDigitsTake(Keep(fa, Digit), Keep(fb, Digit));
  }

  /** With exactly one comma, the amount is the digits before it as pesos plus
      the first two digits after it as centavos; further digits are cut off,
      not rounded. */
  lemma {:induction false} ParseWithOneComma(a: string, b: string)
    requires ',' !in a && ',' !in b
    ensures ParsePesosInput(a + "," + b)
         == Some(CentsOf(Keep(a, Digit), Keep(b, Digit)))
  {
    var fa, fb := FilterPesosChars(a), FilterPesosChars(b);
    FilterAroundComma(a, b);
    FilterCounts(a, ',');
    FilterCounts(b, ',');
    KeepKeep(a, PesosChar, Digit);
    KeepKeep(b, PesosChar, Digit);
    ParseTrimmedOneComma(fa, fb);
  }

  /** A filtered text with two or more commas fails the pattern: the commas
      before the last one stay in `intStr`. */
  lemma {:induction false} ParseTrimmedManyCommas(f: string)
    requires Count(f, ',') >= 2
    ensures ParseTrimmed(f) == None
  {
    var lc := LastIndexOf(f, ',');
    var prefix, suffix := f[..lc], f[lc + 1..];
    assert f == prefix + [','] + suffix;
    CountAppend(prefix + [','], suffix, ',');
    CountAppend(prefix, [','], ',');
    CountKeep(prefix, NotDot, ',');
    assert IntegerText(f) == Keep(prefix, NotDot);
  }

  /** With two or more commas the input is rejected. */
  lemma {:induction false} ParseManyCommas(s: string)
    requires Count(s, ',') >= 2
    ensures ParsePesosInput(s) == None
  {
    FilterCounts(s, ',');
    ParseTrimmedManyCommas(FilterPesosChars(s));
  }

  /** An input with exactly one comma is the text before it, the comma and
      the text after it. */
  lemma {:induction false} SplitAtOnlyComma(s: string)
    requires Count(s, ',') == 1
    ensures var k := LastIndexOf(s, ',');
      && 0 <= k < |s| && s == s[..k] + "," + s[k + 1..]
      && ',' !in s[..k] && ',' !in s[k + 1..]
  {
    var k := LastIndexOf(s, ',');
    var a, b := s[..k], s[k + 1..];
    assert s == a + "," + b;
    CountAppend(a + ",", b, ',');
    CountAppend(a, ",", ',');
  }

  /** `parsePesosInput` gives `undefined` exactly when nothing is left after
      filtering or the input holds two or more commas. */
  lemma {:induction false} ParseRejectsExactly(s: string)
    ensures ParsePesosInput(s) == None <==> FilterPesosChars(s) == "" || Count(s, ',') >= 2
  {
    if FilterPesosChars(s) == "" {
    } else if Count(s, ',') >= 2 {
      ParseManyCommas(s);
    } else if Count(s, ',') == 0 {
      ParseWithoutComma(s);
    } else {
      SplitAtOnlyComma(s);
      var k := LastIndexOf(s, ',');
      ParseWithOneComma(s[..k], s[k + 1..]);
    }
  }

  lemma {:induction false} ParseSeparatorsAroundComma(a: string, b: string)
    requires ',' !in a && ',' !in b && Keep(a, Digit) == "" && Keep(b, Digit) == ""
    ensures ParsePesosInput(a + "," + b) == Some(0)
  {
    ParseWithOneComma(a, b);
    assert CentsOf(Keep(a, Digit), Keep(b, Digit)) == 0;
  }

  /** Separators without digits (".", ",", "$.,") read as zero. */
  lemma {:induction false} ParseSeparatorsOnly(s: string)
    requires Keep(s, Digit) == "" && FilterPesosChars(s) != "" && Count(s, ',') <= 1
    ensures ParsePesosInput(s) == Some(0)
  {
    if Count(s, ',') == 0 {
      ParseSeparatorsNoComma(s);
    } else {
      ParseSeparatorsOneComma(s);
    }
  }

  lemma {:induction false} ParseSeparatorsNoComma(s: string)
    requires Keep(s, Digit) == "" && FilterPesosChars(s) != "" && ',' !in s
    ensures ParsePesosInput(s) == Some(0)
  {
    ParseWithoutComma(s);
    assert DigitsValue([]) == 0;
  }

  lemma {:induction false} ParseSeparatorsOneComma(s: string)
    requires Keep(s, Digit) == "" && Count(s, ',') == 1
    ensures ParsePesosInput(s) == Some(0)
  {
    SplitAtOnlyComma(s);
    var k := LastIndexOf(s, ',');
    var a, b := s[..k], s[k + 1..];
    assert s == a + "," + b;
    KeepAppend(a + ",", b, Digit);
    KeepAppend(a, ",", Digit);
    ParseSeparatorsAroundComma(a, b);
  }

  /** The minus sign is not a peso character, so it is filtered out before
      parsing: "-5" reads as 5 pesos, never as a negative amount. */
  lemma {:induction false} ParseIgnoresMinus(s: string)
    ensures ParsePesosInput("-" + s) == ParsePesosInput(s)
  {
    KeepAppend("-", s, PesosChar);
    assert Keep("-", PesosChar) == [];
    assert [] + FilterPesosChars(s) == FilterPesosChars(s);
  }

  /** A whole number of pesos written out reads back as itself. */
  lemma {:induction false} ParseWholePesos(n: nat)
    ensures ParsePesosInput(NatToDigits(n)) == Some(n * 100)
  {
    var d := NatToDigits(n);
    KeepAll(d, Digit);
    KeepAll(d, PesosChar);
    assert ',' !in d;
    DigitsValueOfNatToDigits(n);
    ParseWithoutComma(d);
    assert DigitsValue(Keep(d, Digit)) * 100 == n * 100;
  }

  /** Centavos are truncated to their first two digits, never rounded:
      "0,999" reads as 0.99. */
  lemma {:induction false} ParseTruncatesCentavos(n: nat, g: string)
    requires AllDigits(g) && |g| >= 2
    ensures var r := ParsePesosInput(NatToDigits(n) + "," + g);
      r.Some? && r.value == n * 100 + DigitsValue(g[..2])
  {
    var d := NatToDigits(n);
    KeepAll(d, Digit);
    KeepAll(g, Digit);
    assert ',' !in d && ',' !in g;
    DigitsValueOfNatToDigits(n);
    FractionCentsOfTake(g);
    FractionCentsOfDigits(g[..2]);
    assert Take(g, 2) == g[..2];
    ParseWithOneComma(d, g);
  }

  /** A whole amount has no centavos whatever its sign. */
  lemma {:induction false} WholeAbs(c: int)
    ensures c % 100 == 0 <==> Abs(c) % 100 == 0
  {
    if c < 0 {
      var q := c / 100;
      assert c == q * 100 + c % 100;
      assert -c == (-q) * 100 - c % 100;
      if c % 100 != 0 {
        assert -c == (-q - 1) * 100 + (100 - c % 100);
      }
    }
  }

  /** The grouped integer part survives filtering, has no comma and reads
      back as the whole pesos. */
  lemma {:induction false} FilteredIntegerPart(c: int)
    ensures var w := WithThousands(c);
      && ',' !in w && FilterPesosChars(w) != ""
      && DigitsValue(Keep(w, Digit)) == Abs(c) / 100
  {
    var w := WithThousands(c);
    WithThousandsDigits(c);
    DigitsValueOfNatToDigits(Abs(c) / 100);
    KeepKeep(w, PesosChar, Digit);
    assert |Keep(FilterPesosChars(w), Digit)| <= |FilterPesosChars(w)|;
  }

  lemma {:induction false} RoundTripWhole(c: int)
    requires c % 100 == 0
    ensures var r := ParsePesosInput(FormatPesos(Cents(c)));
      r.Some? && r.value == Abs(c)
  {
    var w := WithThousands(c);
    FilteredIntegerPart(c);
    WholeAbs(c);
    HundredsBack(Abs(c));
    assert FormatPesos(Cents(c)) == w;
    ParseWithoutComma(w);
  }

  lemma {:induction false} HundredsBack(n: nat)
    requires n % 100 == 0
    ensures n / 100 * 100 == n
  {
  }

  lemma {:induction false} RoundTripCentavos(c: int)
    requires c % 100 != 0
    ensures var r := ParsePesosInput(FormatPesos(Cents(c)));
      r.Some? && r.value == Abs(c)
  {
    var a := Abs(c);
    var pesos, cents := a / 100, a % 100;
    var w := WithThousands(c);
    var dec := FixedDecPart(c);
    FilteredIntegerPart(c);
    assert FormatPesos(Cents(c)) == w + "," + dec;
    KeepAll(dec, Digit);
    FixedDecPartValue(c);
    FractionCentsOfDigits(dec);
    assert ',' !in dec;
    ParseWithOneComma(w, dec);
    assert CentsOf(Keep(w, Digit), Keep(dec, Digit)) == pesos * 100 + cents;
    assert pesos * 100 + cents == a;
  }

  /** Parsing a formatted amount gives the amount back; for a negative amount
      the sign is lost, since `-` is not a peso character. */
  lemma {:induction false} ParseFormatRoundTrip(c: int)
    ensures var r := ParsePesosInput(FormatPesos(Cents(c)));
      r.Some? && r.value == Abs(c)
  {
    if c % 100 == 0 {
      RoundTripWhole(c);
    } else {
      RoundTripCentavos(c);
    }
  }

  // ---------------------------------------------------------------------------
  // onKeydownPesosOnly
  // ---------------------------------------------------------------------------

  /** The keys let through for editing and moving the caret. */
  const EditingKeys: seq<string> := ["Backspace", "Delete", "Tab", "ArrowLeft", "ArrowRight", "Home", "End"]

  /** `/[\d.,]/.test(key)`. */
  predicate HasPesosChar(key: string) {
    exists i :: 0 <= i < |key| && IsPesosChar(key[i])
  }

  /** Whether `onKeydownPesosOnly` calls `preventDefault()`: only a printable
      key one UTF-16 code unit long that is not a digit, dot or comma, typed
      without Ctrl or Meta, is blocked (every editing key's name is longer
      than one unit, so that list never decides). A character above U+FFFF
      is two units long and is never blocked. */
  function PreventsKeydown(ctrlKey: bool, metaKey: bool, key: string): (prevent: bool)
    ensures prevent <==> !ctrlKey && !metaKey && |key| == 1 && !IsAstral(key[0]) && !IsPesosChar(key[0])
  {
    if ctrlKey || metaKey then false
    else if key in EditingKeys then false
    else Utf16Length(key) == 1 && !HasPesosChar(key)
  }

  /** The key filter and the text filter agree on every character up to
      U+FFFF: it is blocked exactly when `filterPesosChars` would remove it.
      A character above U+FFFF is removed by the filter but not blocked. */
  lemma {:induction false} KeydownAgreesWithFilter(c: char)
    ensures PreventsKeydown(false, false, [c]) <==> FilterPesosChars([c]) == "" && !IsAstral(c)
  {
    assert [c][1..] == [];
  }
}
