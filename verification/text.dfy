/** String helpers with their JavaScript meaning: the `\s` class and
    `String.prototype.trim`, `toLowerCase`, `includes`, `split` on one
    character, `lastIndexOf`, `replace(/[...]/g, '')`, and the decimal
    rendering of integers (`String(n)`). */
module Text {
  import opened Seqs

  /** The code points JavaScript's `\s` matches and `trim` removes: the
      ECMAScript WhiteSpace and LineTerminator characters. None of them is a
      digit, `.` or `,`. */
  predicate IsSpace(c: char)
    ensures IsSpace(c) ==> !IsDigit(c) && c != '.' && c != ','
  {
    || c == ' ' || c == '\t' || c == '\n' || c == '\r' || c == '\U{000B}' || c == '\U{000C}'
    || c == '\U{00A0}' || c == '\U{1680}' || ('\U{2000}' <= c <= '\U{200A}')
    || c == '\U{2028}' || c == '\U{2029}' || c == '\U{202F}' || c == '\U{205F}'
    || c == '\U{3000}' || c == '\U{FEFF}'
  }

  /** JavaScript's `\d`: the ASCII digits only. */
  predicate IsDigit(c: char) { '0' <= c <= '9' }

  predicate AllDigits(s: string) {
    forall i :: 0 <= i < |s| ==> IsDigit(s[i])
  }

  // ---------------------------------------------------------------------------
  // Keeping the characters of a class (`replace(/[^class]/g, '')`)
  // ---------------------------------------------------------------------------

  /** The character classes the regular expressions keep: everything but
      `\s`, the digits `\d`, everything but `.`, `[\d.,]`, and everything but
      the quotes `["']`. */
  datatype CharClass = NotSpace | Digit | NotDot | PesosChar | NotQuote

  predicate In(k: CharClass, c: char) {
    match k
    case NotSpace => !IsSpace(c)
    case Digit => IsDigit(c)
    case NotDot => c != '.'
    case PesosChar => IsDigit(c) || c == '.' || c == ','
    case NotQuote => c != '"' && c != '\''
  }

  /** The characters of `s` in class `k`, in their order. */
  function Keep(s: string, k: CharClass): (r: string)
    ensures |r| <= |s|
    ensures forall i :: 0 <= i < |r| ==> In(k, r[i])
  {
    if s == [] then [] else (if In(k, s[0]) then [s[0]] else []) + Keep(s[1..], k)
  }

  /** A kept character occurs as often as in the input; a dropped one not at all. */
  lemma {:induction false} CountKeep(s: string, k: CharClass, c: char)
    ensures Count(Keep(s, k), c) == if In(k, c) then Count(s, c) else 0
  {
    if s != [] {
      CountKeep(s[1..], k, c);
      CountAppend(if In(k, s[0]) then [s[0]] else [], Keep(s[1..], k), c);
    }
  }

  /** Keeping with a narrower class after a wider one is keeping with the narrower one. */
  lemma {:induction false} KeepKeep(s: string, p: CharClass, q: CharClass)
    requires forall c :: In(q, c) ==> In(p, c)
    ensures Keep(Keep(s, p), q) == Keep(s, q)
  {
    if s != [] {
      var rest := Keep(s[1..], p);
      KeepKeep(s[1..], p, q);
      if In(p, s[0]) {
        assert Keep(s, p) == [s[0]] + rest;
        KeepAppend([s[0]], rest, q);
        assert [s[0]][1..] == [];
        assert Keep([s[0]], q) == (if In(q, s[0]) then [s[0]] else []) + Keep([], q);
      } else {
        assert !In(q, s[0]);
        assert Keep(s, p) == [] + rest;
        assert [] + rest == rest;
      }
    }
  }

  lemma {:induction false} KeepAppend(a: string, b: string, k: CharClass)
    ensures Keep(a + b, k) == Keep(a, k) + Keep(b, k)
  {
    if a != [] {
      var head := if In(k, a[0]) then [a[0]] else [];
      var x, y := Keep(a[1..], k), Keep(b, k);
      TailOfAppend(a, b);
      KeepAppend(a[1..], b, k);
      assert Keep(a + b, k) == head + (x + y);
      assert Keep(a, k) == head + x;
      AppendAssoc(head, x, y);
    } else {
      assert a + b == b;
    }
  }

  /** Keeping a class the string already belongs to changes nothing. */
  lemma {:induction false} KeepAll(s: string, k: CharClass)
    requires forall i :: 0 <= i < |s| ==> In(k, s[i])
    ensures Keep(s, k) == s
  {
    if s != [] {
      KeepAll(s[1..], k);
    }
  }

  // ---------------------------------------------------------------------------
  // Counting and searching
  // ---------------------------------------------------------------------------

  /** Number of occurrences of `c` in `s`. */
  function Count(s: string, c: char): (n: nat)
    ensures n <= |s|
    ensures n == 0 <==> c !in s
  {
    if s == [] then 0
    else
      assert s == [s[0]] + s[1..];
      (if s[0] == c then 1 else 0) + Count(s[1..], c)
  }

  lemma {:induction false} CountAppend(a: string, b: string, c: char)
    ensures Count(a + b, c) == Count(a, c) + Count(b, c)
  {
    if a != [] {
      assert (a + b)[1..] == a[1..] + b;
      CountAppend(a[1..], b, c);
    } else {
      assert a + b == b;
    }
  }

  /** `s.lastIndexOf(c)`: the last index holding `c`, or -1. */
  function LastIndexOf(s: string, c: char): (k: int)
    ensures -1 <= k < |s|
    ensures k >= 0 ==> s[k] == c && c !in s[k + 1..]
    ensures k == -1 ==> c !in s
  {
    if s == [] then -1
    else if s[|s| - 1] == c then |s| - 1
    else
      var k := LastIndexOf(s[..|s| - 1], c);
      assert s == s[..|s| - 1] + [s[|s| - 1]];
      k
  }

  /** The last occurrence is the one with no occurrence after it. */
  lemma {:induction false} LastIndexOfAt(s: string, c: char, k: int)
    requires 0 <= k < |s| && s[k] == c && c !in s[k + 1..]
    ensures LastIndexOf(s, c) == k
  {
    if k < |s| - 1 {
      assert s[|s| - 1] == s[k + 1..][|s| - 2 - k];
      assert s[..|s| - 1][k + 1..] == s[k + 1..|s| - 1];
      LastIndexOfAt(s[..|s| - 1], c, k);
    }
  }

  /** `t` occurs in `s` starting at index `i`. */
  predicate OccursAt(s: string, t: string, i: int) {
    0 <= i && i + |t| <= |s| && s[i..i + |t|] == t
  }

  /** `s.includes(t)`. */
  predicate Contains(s: string, t: string) {
    exists i :: 0 <= i <= |s| && OccursAt(s, t, i)
  }

  // ---------------------------------------------------------------------------
  // trim()
  // ---------------------------------------------------------------------------

  function TrimStart(s: string): (r: string)
    ensures |r| <= |s| && r == s[|s| - |r|..]
    ensures r == [] || !IsSpace(r[0])
    ensures forall i :: 0 <= i < |s| - |r| ==> IsSpace(s[i])
  {
    if s != [] && IsSpace(s[0]) then TrimStart(s[1..]) else s
  }

  function TrimEnd(s: string): (r: string)
    ensures |r| <= |s| && r == s[..|r|]
    ensures r == [] || !IsSpace(r[|r| - 1])
    ensures forall i :: |r| <= i < |s| ==> IsSpace(s[i])
  {
    if s != [] && IsSpace(s[|s| - 1]) then TrimEnd(s[..|s| - 1]) else s
  }

  /** `s.trim()`: the slice left after dropping the white space at both ends. */
  function Trim(s: string): (r: string)
    ensures r == [] || (!IsSpace(r[0]) && !IsSpace(r[|r| - 1]))
    ensures exists i, j ::
              0 <= i <= j <= |s| && r == s[i..j] &&
              (forall k :: 0 <= k < i ==> IsSpace(s[k])) && (forall k :: j <= k < |s| ==> IsSpace(s[k]))
    ensures forall c :: c in r ==> c in s
  {
    TrimSlice(s, TrimStart(s), TrimEnd(TrimStart(s)));
    TrimEnd(TrimStart(s))
  }

  /** The facts about `t == TrimStart(s)` and `u == TrimEnd(t)` place `u`
      inside `s`, with only white space around it. */
  lemma {:induction false} TrimSlice(s: string, t: string, u: string)
    requires |t| <= |s| && t == s[|s| - |t|..]
    requires forall k :: 0 <= k < |s| - |t| ==> IsSpace(s[k])
    requires |u| <= |t| && u == t[..|u|]
    requires forall k :: |u| <= k < |t| ==> IsSpace(t[k])
    ensures var i := |s| - |t|;
            i + |u| <= |s| && u == s[i..i + |u|] &&
            (forall k :: 0 <= k < i ==> IsSpace(s[k])) && (forall k :: i + |u| <= k < |s| ==> IsSpace(s[k]))
  {
    var i := |s| - |t|;
    forall k | i + |u| <= k < |s|
      ensures IsSpace(s[k])
    {
      assert s[k] == t[k - i];
    }
  }

  /** A string that neither starts nor ends with white space is its own trim. */
  lemma {:induction false} TrimUnchanged(s: string)
    requires s == [] || (!IsSpace(s[0]) && !IsSpace(s[|s| - 1]))
    ensures Trim(s) == s
  {
    assert TrimStart(s) == s;
  }

  /** `s.trim()` is empty exactly when `s` is blank. */
  lemma {:induction false} TrimEmptyIffBlank(s: string)
    ensures Trim(s) == [] <==> forall i :: 0 <= i < |s| ==> IsSpace(s[i])
  {
    var t := TrimStart(s);
    if Trim(s) == [] {
      // `t` starts with a non-space and is all spaces, so it is empty.
      assert |t| == 0;
    } else {
      assert !IsSpace(Trim(s)[0]);
      assert Trim(s)[0] == t[0] == s[|s| - |t|];
    }
  }

  lemma {:induction false} TrimIdempotent(s: string)
    ensures Trim(Trim(s)) == Trim(s)
  {
    TrimUnchanged(Trim(s));
  }

  // ---------------------------------------------------------------------------
  // length, in UTF-16 code units
  // ---------------------------------------------------------------------------

  /** A character above U+FFFF, which JavaScript stores as a surrogate pair. */
  predicate IsAstral(c: char) { c as int > 0xFFFF }

  /** `s.length`: astral characters count two code units, all others one. */
  function Utf16Length(s: string): (n: nat)
    ensures |s| <= n <= 2 * |s|
    ensures n == 1 <==> |s| == 1 && !IsAstral(s[0])
  {
    if s == [] then 0 else (if IsAstral(s[0]) then 2 else 1) + Utf16Length(s[1..])
  }

  // ---------------------------------------------------------------------------
  // toLowerCase()
  // ---------------------------------------------------------------------------

  /** Lower case for ASCII and the Latin-1 capitals (Á, É, Í, Ñ, Ó, Ú, Ü, ...). */
  function LowerChar(c: char): (d: char)
    ensures 'A' <= c <= 'Z' ==> 'a' <= d <= 'z'
    ensures !('A' <= c <= 'Z') && !('\U{00C0}' <= c <= '\U{00DE}') ==> d == c
  {
    if 'A' <= c <= 'Z' || ('\U{00C0}' <= c <= '\U{00DE}' && c != '\U{00D7}') then
      (c as int + 32) as char
    else c
  }

  function Lower(s: string): (r: string)
    ensures |r| == |s|
    ensures forall i :: 0 <= i < |s| ==> r[i] == LowerChar(s[i])
  {
    if s == [] then [] else [LowerChar(s[0])] + Lower(s[1..])
  }

  // ---------------------------------------------------------------------------
  // split() on one character, and its inverse
  // ---------------------------------------------------------------------------

  /** `s.split(sep)`: the maximal pieces between occurrences of `sep`
      (an empty `s` gives one empty piece). */
  function Split(s: string, sep: char): (parts: seq<string>)
    ensures |parts| == Count(s, sep) + 1
    ensures forall i :: 0 <= i < |parts| ==> sep !in parts[i]
  {
    if s == [] then [[]]
    else
      var rest := Split(s[1..], sep);
      assert s == [s[0]] + s[1..];
      if s[0] == sep then [[]] + rest
      else [[s[0]] + rest[0]] + rest[1..]
  }

  /** `parts.join(sep)`. */
  function Join(parts: seq<string>, sep: char): string {
    if |parts| <= 1 then (if parts == [] then [] else parts[0])
    else parts[0] + [sep] + Join(parts[1..], sep)
  }

  /** Joining after prefixing the first piece with one character. */
  lemma {:induction false} JoinPrefixFirst(c: char, parts: seq<string>, sep: char)
    requires |parts| >= 1
    ensures Join([[c] + parts[0]] + parts[1..], sep) == [c] + Join(parts, sep)
  {
    var q := [[c] + parts[0]] + parts[1..];
    if |parts| > 1 {
      assert q[1..] == parts[1..];
    }
  }

  /** Joining after putting an empty piece in front. */
  lemma {:induction false} JoinEmptyFirst(parts: seq<string>, sep: char)
    requires |parts| >= 1
    ensures Join([[]] + parts, sep) == [sep] + Join(parts, sep)
  {
    assert ([[]] + parts)[1..] == parts;
  }

  /** Splitting loses nothing: joining the pieces gives the string back. */
  lemma {:induction false} JoinSplit(s: string, sep: char)
    ensures Join(Split(s, sep), sep) == s
  {
    if s != [] {
      var rest := Split(s[1..], sep);
      JoinSplit(s[1..], sep);
      if s[0] == sep {
        JoinEmptyFirst(rest, sep);
      } else {
        JoinPrefixFirst(s[0], rest, sep);
      }
      assert [s[0]] + s[1..] == s;
    }
  }

  /** A string without the separator is a single piece. */
  lemma {:induction false} SplitWithoutSeparator(s: string, sep: char)
    requires sep !in s
    ensures Split(s, sep) == [s]
  {
    JoinSplit(s, sep);
  }

  /** Splitting at the first separator: the piece before it, then the rest. */
  lemma {:induction false} SplitAtFirst(a: string, b: string, sep: char)
    requires sep !in a
    ensures Split(a + [sep] + b, sep) == [a] + Split(b, sep)
  {
    if a != [] {
      assert (a + [sep] + b)[1..] == a[1..] + [sep] + b;
      SplitAtFirst(a[1..], b, sep);
      assert [a[0]] + a[1..] == a;
    } else {
      assert a + [sep] + b == [sep] + b;
    }
  }

  /** Joining pieces that do not contain the separator and splitting again
      gives the pieces back. */
  lemma {:induction false} SplitJoin(parts: seq<string>, sep: char)
    requires |parts| >= 1
    requires forall i :: 0 <= i < |parts| ==> sep !in parts[i]
    ensures Split(Join(parts, sep), sep) == parts
  {
    if |parts| == 1 {
      SplitWithoutSeparator(parts[0], sep);
    } else {
      SplitJoin(parts[1..], sep);
      SplitAtFirst(parts[0], Join(parts[1..], sep), sep);
      assert [parts[0]] + parts[1..] == parts;
    }
  }

  // ---------------------------------------------------------------------------
  // Decimal digits
  // ---------------------------------------------------------------------------

  function DigitChar(d: nat): (c: char)
    requires d < 10
    ensures IsDigit(c) && c as int - '0' as int == d
  {
    ('0' as int + d) as char
  }

  function DigitValue(c: char): (d: nat)
    requires IsDigit(c)
    ensures d < 10 && DigitChar(d) == c
  {
    c as int - '0' as int
  }

  /** `String(n)` for a non-negative integer: no leading zero, at least one digit. */
  function NatToDigits(n: nat): (s: string)
    ensures |s| >= 1 && AllDigits(s)
    ensures |s| > 1 ==> s[0] != '0'
  {
    if n < 10 then [DigitChar(n)] else NatToDigits(n / 10) + [DigitChar(n % 10)]
  }

  /** The number a string of digits denotes (the empty string denotes 0). */
  function DigitsValue(s: string): nat
    requires AllDigits(s)
  {
    if s == [] then 0 else DigitsValue(s[..|s| - 1]) * 10 + DigitValue(s[|s| - 1])
  }

  /** Rendering and reading a number are inverse. */
  lemma {:induction false} DigitsValueOfNatToDigits(n: nat)
    ensures DigitsValue(NatToDigits(n)) == n
  {
    if n >= 10 {
      var s := NatToDigits(n);
      assert s[..|s| - 1] == NatToDigits(n / 10);
      DigitsValueOfNatToDigits(n / 10);
    }
  }

  /** `String(n)` for any integer. */
  function IntToString(n: int): (s: string)
    ensures s != [] && '/' !in s && ':' !in s
  {
    if n < 0 then "-" + NatToDigits(-n) else NatToDigits(n)
  }
}
