/**
 * The slice of JavaScript's string and number handling that the modelled
 * code relies on: decimal rendering of integers (`String(n)`, template
 * literals), `parseInt(s, 10)`, `String.prototype.split` on a one-character
 * separator, `Array.prototype.join`, `trim` and `toLowerCase`.
 */
module Text {
  import opened Options

  predicate IsDigit(c: char) {
    '0' <= c <= '9'
  }

  predicate AllDigits(s: string) {
    forall i :: 0 <= i < |s| ==> IsDigit(s[i])
  }

  function DigitChar(d: nat): (c: char)
    requires d < 10
    ensures IsDigit(c) && c as int - '0' as int == d
  {
    ('0' as int + d) as char
  }

  /** Decimal rendering of a non-negative integer, without leading zeros. */
  function NatToString(n: nat): (s: string)
    ensures 1 <= |s| && AllDigits(s)
    ensures s[0] == '0' ==> n == 0
  {
    if n < 10 then [DigitChar(n)] else NatToString(n / 10) + [DigitChar(n % 10)]
  }

  /** The number a string of decimal digits denotes. */
  function DigitsValue(s: string): nat
    requires AllDigits(s)
  {
    if s == [] then 0 else 10 * DigitsValue(s[..|s| - 1]) + (s[|s| - 1] as int - '0' as int)
  }

  /** Reading back a rendered number gives the number. */
  lemma {:induction false} DigitsValueOfNatToString(n: nat)
    ensures DigitsValue(NatToString(n)) == n
  {
    if n >= 10 {
      DigitsValueOfNatToString(n / 10);
      var s := NatToString(n);
      assert s[..|s| - 1] == NatToString(n / 10);
    }
  }

  lemma NatToStringInjective(m: nat, n: nat)
    requires NatToString(m) == NatToString(n)
    ensures m == n
  {
    DigitsValueOfNatToString(m);
    DigitsValueOfNatToString(n);
  }

  /** A string of digits holds no character that is not a digit. */
  lemma NonDigitNotIn(s: string, c: char)
    requires AllDigits(s) && !IsDigit(c)
    ensures c !in s
  {
    assert forall i :: 0 <= i < |s| ==> s[i] != c;
  }

  /** `s.padStart(width, c)` for a one-character pad string `c`. */
  function PadStart(s: string, width: nat, c: char): (r: string)
    ensures |r| == if |s| >= width then |s| else width
    ensures r[|r| - |s|..] == s
    ensures forall i :: 0 <= i < |r| - |s| ==> r[i] == c
  {
    if |s| >= width then s else seq(width - |s|, _ => c) + s
  }

  /** A number below 100 padded to two digits: its tens digit and its units digit. */
  lemma PadTwoDigits(n: nat)
    requires n < 100
    ensures PadStart(NatToString(n), 2, '0') == [DigitChar(n / 10), DigitChar(n % 10)]
  {
    if n >= 10 {
      assert NatToString(n) == NatToString(n / 10) + [DigitChar(n % 10)];
    }
  }

  /** Decimal rendering of any integer, with a leading minus sign when negative. */
  function IntToString(i: int): (s: string)
    ensures 1 <= |s|
    ensures forall k :: 0 <= k < |s| ==> IsDigit(s[k]) || s[k] == '-'
  {
    if i < 0 then "-" + NatToString(-i) else NatToString(i)
  }

  /** `s.split(d)` for a one-character separator `d`. */
  function Split(s: string, d: char): (parts: seq<string>)
    ensures |parts| >= 1
    ensures forall k :: 0 <= k < |parts| ==> d !in parts[k]
    decreases |s|
  {
    if s == [] then [""]
    else
      var rest := Split(s[1..], d);
      if s[0] == d then [""] + rest else [[s[0]] + rest[0]] + rest[1..]
  }

  /** `xs.join(sep)`. */
  function Join(xs: seq<string>, sep: string): string {
    if |xs| == 0 then "" else if |xs| == 1 then xs[0] else xs[0] + sep + Join(xs[1..], sep)
  }

  lemma {:induction false} SplitWithoutSeparator(s: string, d: char)
    requires d !in s
    ensures Split(s, d) == [s]
    decreases |s|
  {
    if s != [] {
      SplitWithoutSeparator(s[1..], d);
      assert [s[0]] + s[1..] == s;
    }
  }

  /** Splitting at the first separator: the text before it is the first part. */
  lemma {:induction false} SplitAtFirst(a: string, b: string, d: char)
    requires d !in a
    ensures Split(a + [d] + b, d) == [a] + Split(b, d)
    decreases |a|
  {
    if a == [] {
      assert (a + [d] + b)[1..] == b;
    } else {
      SplitAtFirst(a[1..], b, d);
      assert (a + [d] + b)[1..] == a[1..] + [d] + b;
      assert [a[0]] + a[1..] == a;
    }
  }

  /** Splitting a join gives back the parts, when no part holds the separator. */
  lemma {:induction false} SplitJoin(xs: seq<string>, d: char)
    requires |xs| >= 1
    requires forall k :: 0 <= k < |xs| ==> d !in xs[k]
    ensures Split(Join(xs, [d]), d) == xs
  {
    if |xs| == 1 {
      SplitWithoutSeparator(xs[0], d);
    } else {
      SplitJoin(xs[1..], d);
      SplitAtFirst(xs[0], Join(xs[1..], [d]), d);
      assert [xs[0]] + xs[1..] == xs;
    }
  }

  /** Joining the parts of a split gives back the string. */
  lemma {:induction false} JoinSplit(s: string, d: char)
    ensures Join(Split(s, d), [d]) == s
    decreases |s|
  {
    if s != [] {
      JoinSplit(s[1..], d);
      var rest := Split(s[1..], d);
      if s[0] != d {
        if |rest| > 1 {
          assert ([[s[0]] + rest[0]] + rest[1..])[1..] == rest[1..];
          assert rest == [rest[0]] + rest[1..];
        }
      }
    }
  }

  /** ECMAScript's WhiteSpace and LineTerminator characters, which `trim` and
      `parseInt` skip. */
  predicate IsJsWhitespace(c: char) {
    c == '\t' || c == '\n' || c == '\U{000B}' || c == '\U{000C}' || c == '\r' || c == ' '
    || c == '\U{00A0}' || c == '\U{1680}' || ('\U{2000}' <= c <= '\U{200A}')
    || c == '\U{2028}' || c == '\U{2029}' || c == '\U{202F}' || c == '\U{205F}'
    || c == '\U{3000}' || c == '\U{FEFF}'
  }

  /** `s` with its leading whitespace removed. */
  function TrimStart(s: string): string {
    if s != [] && IsJsWhitespace(s[0]) then TrimStart(s[1..]) else s
  }

  /** `s` with its trailing whitespace removed. */
  function TrimEnd(s: string): string {
    if s != [] && IsJsWhitespace(s[|s| - 1]) then TrimEnd(s[..|s| - 1]) else s
  }

  /** What `TrimStart` removes is a run of whitespace, and what it keeps does not start with one. */
  lemma {:induction false} TrimStartShape(s: string)
    ensures var r := TrimStart(s);
      && |r| <= |s| && r == s[|s| - |r|..]
      && (r == [] || !IsJsWhitespace(r[0]))
      && forall i :: 0 <= i < |s| - |r| ==> IsJsWhitespace(s[i])
  {
    if s != [] && IsJsWhitespace(s[0]) {
      var t := s[1..];
      TrimStartShape(t);
      var r := TrimStart(t);
      assert TrimStart(s) == r;
      assert t[|t| - |r|..] == s[|s| - |r|..];
      forall i | 1 <= i < |s| - |r| ensures IsJsWhitespace(s[i]) {
        assert s[i] == t[i - 1];
      }
    }
  }

  /** What `TrimEnd` removes is a run of whitespace, and what it keeps does not end with one. */
  lemma {:induction false} TrimEndShape(s: string)
    ensures var r := TrimEnd(s);
      && |r| <= |s| && r == s[..|r|]
      && (r == [] || !IsJsWhitespace(r[|r| - 1]))
      && forall i :: |r| <= i < |s| ==> IsJsWhitespace(s[i])
  {
    if s != [] && IsJsWhitespace(s[|s| - 1]) {
      var t := s[..|s| - 1];
      TrimEndShape(t);
      var r := TrimEnd(t);
      assert TrimEnd(s) == r;
      assert t[..|r|] == s[..|r|];
      forall i | |r| <= i < |s| - 1 ensures IsJsWhitespace(s[i]) {
        assert s[i] == t[i];
      }
    }
  }

  /** `s.trim()`. */
  function Trim(s: string): string {
    TrimEnd(TrimStart(s))
  }

  /** Leading whitespace is dropped up to the first other character. */
  lemma {:induction false} TrimStartOf(w: string, s: string)
    requires forall i :: 0 <= i < |w| ==> IsJsWhitespace(w[i])
    requires s == [] || !IsJsWhitespace(s[0])
    ensures TrimStart(w + s) == s
  {
    if w != [] {
      TrimStartOf(w[1..], s);
      assert (w + s)[1..] == w[1..] + s;
    }
  }

  /** Trailing whitespace is dropped back to the last other character. */
  lemma {:induction false} TrimEndOf(s: string, w: string)
    requires forall i :: 0 <= i < |w| ==> IsJsWhitespace(w[i])
    requires s == [] || !IsJsWhitespace(s[|s| - 1])
    ensures TrimEnd(s + w) == s
  {
    if w != [] {
      TrimEndOf(s, w[..|w| - 1]);
      assert (s + w)[..|s + w| - 1] == s + w[..|w| - 1];
    }
  }

  lemma TrimOfTrimmed(s: string)
    requires s == [] || (!IsJsWhitespace(s[0]) && !IsJsWhitespace(s[|s| - 1]))
    ensures Trim(s) == s
  {
  }

  function LowerChar(c: char): char {
    if 'A' <= c <= 'Z' then (c as int + 32) as char else c
  }

  /** `s.toLowerCase()` on the letters A to Z. */
  function Lower(s: string): (r: string)
    ensures |r| == |s|
    ensures forall i :: 0 <= i < |s| ==> r[i] == LowerChar(s[i])
  {
    if s == [] then [] else [LowerChar(s[0])] + Lower(s[1..])
  }

  /** Lower-casing leaves a string with no letter from A to Z as it is. */
  lemma LowerUnchanged(s: string)
    requires forall i :: 0 <= i < |s| ==> !('A' <= s[i] <= 'Z')
    ensures Lower(s) == s
  {
  }

  /** The longest leading run of decimal digits of `s`. */
  function DigitPrefix(s: string): (d: string)
    ensures d <= s && AllDigits(d)
    ensures |d| == |s| || !IsDigit(s[|d|])
  {
    if s != [] && IsDigit(s[0]) then [s[0]] + DigitPrefix(s[1..]) else []
  }

  lemma {:induction false} DigitPrefixOf(a: string, b: string)
    requires AllDigits(a)
    requires b == [] || !IsDigit(b[0])
    ensures DigitPrefix(a + b) == a
  {
    if a != [] {
      DigitPrefixOf(a[1..], b);
      assert (a + b)[1..] == a[1..] + b;
    }
  }

  /**
   * `parseInt(s, 10)`: leading whitespace is skipped, one optional sign is
   * read, and then the longest run of digits; `None` stands for NaN, which
   * is the result when that run is empty. Whatever follows the digits is
   * ignored, so `parseInt("4x") == 4`.
   */
  function ParseInt(s: string): Option<int> {
    var t := TrimStart(s);
    var body := if |t| > 0 && (t[0] == '-' || t[0] == '+') then t[1..] else t;
    var digits := DigitPrefix(body);
    var magnitude: int := if digits == [] then 0 else DigitsValue(digits);
    if digits == [] then None
    else if |t| > 0 && t[0] == '-' then Some(-magnitude)
    else Some(magnitude)
  }

  /** `parseInt` reads back a rendered number, whatever non-digit follows it. */
  lemma ParseIntOfNatToString(n: nat, rest: string)
    requires rest == [] || !IsDigit(rest[0])
    ensures ParseInt(NatToString(n) + rest) == Some(n)
  {
    var digits := NatToString(n);
    var s := digits + rest;
    assert s[0] == digits[0] && IsDigit(s[0]);
    assert !IsJsWhitespace(s[0]);
    assert TrimStart(s) == s;
    assert s[0] != '-' && s[0] != '+';
    DigitPrefixOf(digits, rest);
    DigitsValueOfNatToString(n);
  }

  /** `parseInt` reads back any rendered integer, negative ones included, whatever non-digit follows it. */
  lemma ParseIntOfIntToString(i: int, rest: string)
    requires rest == [] || !IsDigit(rest[0])
    ensures ParseInt(IntToString(i) + rest) == Some(i)
  {
    if i >= 0 {
      ParseIntOfNatToString(i, rest);
    } else {
      var digits := NatToString(-i);
      var s := IntToString(i) + rest;
      assert s == "-" + (digits + rest);
      assert TrimStart(s) == s;
      assert s[1..] == digits + rest;
      DigitPrefixOf(digits, rest);
      DigitsValueOfNatToString(-i);
    }
  }

  /** How often `c` occurs in `s`. */
  function Occurrences(s: string, c: char): nat {
    multiset(s)[c]
  }

  /** Splitting yields one more part than there are separators. */
  lemma {:induction false} SplitLength(s: string, d: char)
    ensures |Split(s, d)| == Occurrences(s, d) + 1
    decreases |s|
  {
    if s != [] {
      SplitLength(s[1..], d);
      assert s == [s[0]] + s[1..];
      assert multiset(s) == multiset([s[0]]) + multiset(s[1..]);
    }
  }

  /** Occurrences of `c` over all the strings of `xs`. */
  function OccurrencesIn(xs: seq<string>, c: char): nat {
    if xs == [] then 0 else Occurrences(xs[0], c) + OccurrencesIn(xs[1..], c)
  }

  lemma OccurrencesInCons(x: string, xs: seq<string>, c: char)
    ensures OccurrencesIn([x] + xs, c) == Occurrences(x, c) + OccurrencesIn(xs, c)
  {
    assert ([x] + xs)[1..] == xs;
  }

  /** A join holds the parts' occurrences of `c` and those of the separators between them. */
  lemma {:induction false} JoinOccurrences(xs: seq<string>, sep: string, c: char)
    requires |xs| >= 1
    ensures Occurrences(Join(xs, sep), c) == OccurrencesIn(xs, c) + (|xs| - 1) * Occurrences(sep, c)
  {
    if |xs| == 1 {
      assert xs[1..] == [];
    } else {
      var rest := Join(xs[1..], sep);
      JoinOccurrences(xs[1..], sep, c);
      assert Join(xs, sep) == xs[0] + sep + rest;
      assert multiset(xs[0] + sep + rest) == multiset(xs[0]) + multiset(sep) + multiset(rest);
      var n, k := |xs| - 1, Occurrences(sep, c);
      assert Occurrences(rest, c) == OccurrencesIn(xs[1..], c) + (n - 1) * k;
      assert (n - 1) * k + k == n * k;
    }
  }

  /** No string of `xs` holds `c` exactly when none of their occurrences counts. */
  lemma {:induction false} OccurrencesInZero(xs: seq<string>, c: char)
    ensures OccurrencesIn(xs, c) == 0 <==> forall k :: 0 <= k < |xs| ==> c !in xs[k]
  {
    if xs != [] {
      OccurrencesInZero(xs[1..], c);
      assert forall k :: 1 <= k < |xs| ==> xs[k] == xs[1..][k - 1];
    }
  }

  /** A join of parts free of `c`, with a separator free of `c`, is free of `c`. */
  lemma JoinAvoids(xs: seq<string>, sep: string, c: char)
    requires c !in sep && forall k :: 0 <= k < |xs| ==> c !in xs[k]
    ensures c !in Join(xs, sep)
  {
    if |xs| >= 1 {
      JoinOccurrences(xs, sep, c);
      OccurrencesInZero(xs, c);
    }
  }

  /** A non-empty run of digits, read as a number. */
  function ReadCount(d: string): Option<nat> {
    if |d| >= 1 && AllDigits(d) then Some(DigitsValue(d)) else None
  }

  /** A count followed by the letter `unit`. */
  function ReadUnit(a: string, unit: char): Option<nat> {
    if |a| >= 1 && a[|a| - 1] == unit then ReadCount(a[..|a| - 1]) else None
  }

  /** A rendered number followed by its unit letter reads back as the number. */
  lemma ReadUnitOf(n: nat, unit: char)
    requires !IsDigit(unit)
    ensures ReadUnit(NatToString(n) + [unit], unit) == Some(n)
  {
    var a := NatToString(n) + [unit];
    assert a[..|a| - 1] == NatToString(n);
    DigitsValueOfNatToString(n);
  }

  /** Two words without spaces, joined by one, split back into those words. */
  lemma SplitTwoWords(a: string, b: string)
    requires ' ' !in a && ' ' !in b
    ensures Split(a + [' '] + b, ' ') == [a, b]
  {
    SplitAtFirst(a, b, ' ');
    SplitWithoutSeparator(b, ' ');
  }

  /** A count followed by a unit letter holds no space. */
  lemma UnitWordHasNoSpace(n: nat, unit: char)
    requires unit != ' '
    ensures ' ' !in NatToString(n) + [unit]
  {
    NonDigitNotIn(NatToString(n), ' ');
  }

  /**
   * A count followed by a unit letter is one word, reads back as the count,
   * and starts with a zero only when the count is zero.
   */
  lemma UnitWordShape(n: nat, unit: char)
    requires !IsDigit(unit) && unit != ' '
    ensures var w := NatToString(n) + [unit];
      && ' ' !in w && ReadUnit(w, unit) == Some(n)
      && (n > 0 ==> w[0] != '0')
  {
    UnitWordHasNoSpace(n, unit);
    ReadUnitOf(n, unit);
    var w := NatToString(n) + [unit];
    assert w[0] == NatToString(n)[0];
  }
}
