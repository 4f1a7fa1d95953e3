/** String helpers shared by the renderers: prefix and suffix tests,
    character counting, comma joining and Java's decimal form of an `int`. */
module Text {

  predicate StartsWith(s: string, p: string) {
    |p| <= |s| && s[..|p|] == p
  }

  predicate EndsWith(s: string, p: string) {
    |p| <= |s| && s[|s| - |p|..] == p
  }

  /** Number of occurrences of `c` in `s`. */
  function Count(s: string, c: char): (n: nat)
    ensures n <= |s|
    ensures n == 0 <==> forall i :: 0 <= i < |s| ==> s[i] != c
  {
    if |s| == 0 then 0
    else Count(s[..|s| - 1], c) + (if s[|s| - 1] == c then 1 else 0)
  }

  lemma {:induction false} CountConcat(a: string, b: string, c: char)
    ensures Count(a + b, c) == Count(a, c) + Count(b, c)
    decreases |b|
  {
    if |b| == 0 {
      assert a + b == a;
    } else {
      var b' := b[..|b| - 1];
      assert (a + b)[..|a + b| - 1] == a + b';
      CountConcat(a, b', c);
    }
  }

  /** How many more closing than opening parentheses `s` holds. */
  function Imbalance(s: string): int {
    Count(s, ')') - Count(s, '(')
  }

  lemma ImbalanceConcat(a: string, b: string)
    ensures Imbalance(a + b) == Imbalance(a) + Imbalance(b)
  {
    CountConcat(a, b, ')');
    CountConcat(a, b, '(');
  }

  /** How many more closing than opening braces `s` holds. */
  function BraceImbalance(s: string): int {
    Count(s, '}') - Count(s, '{')
  }

  lemma BraceImbalanceConcat(a: string, b: string)
    ensures BraceImbalance(a + b) == BraceImbalance(a) + BraceImbalance(b)
  {
    CountConcat(a, b, '}');
    CountConcat(a, b, '{');
  }

  lemma NoParens(s: string)
    requires forall i :: 0 <= i < |s| ==> s[i] != '(' && s[i] != ')'
    ensures Imbalance(s) == 0
  {
  }

  lemma OneChar(c: char)
    ensures Imbalance([c]) == (if c == ')' then 1 else if c == '(' then -1 else 0)
  {
    assert [c][..0] == [];
  }

  /** `parts` joined left to right with `sep` between neighbours. */
  function Join(sep: string, parts: seq<string>): (r: string)
    requires |parts| > 0
    ensures |parts| == 1 ==> r == parts[0]
    ensures |parts| > 1 ==> StartsWith(r, parts[0] + sep)
  {
    if |parts| == 1 then parts[0]
    else parts[0] + sep + Join(sep, parts[1..])
  }

  predicate IsDigit(c: char) {
    '0' <= c <= '9'
  }

  function DigitChar(d: nat): (c: char)
    requires d < 10
    ensures IsDigit(c) && c as int - '0' as int == d
  {
    ('0' as int + d) as char
  }

  /** The decimal digits of `n`, most significant first, without leading zeros. */
  function Digits(n: nat): (s: string)
    ensures |s| > 0
    ensures forall i :: 0 <= i < |s| ==> IsDigit(s[i])
    ensures s[0] == '0' ==> n == 0
    ensures |s| > 1 ==> s[0] != '0'
  {
    if n < 10 then [DigitChar(n)] else Digits(n / 10) + [DigitChar(n % 10)]
  }

  /** The value of a string of decimal digits. */
  function DigitsValue(s: string): nat
    requires forall i :: 0 <= i < |s| ==> IsDigit(s[i])
  {
    if |s| == 0 then 0
    else
      assert IsDigit(s[|s| - 1]);
      DigitsValue(s[..|s| - 1]) * 10 + (s[|s| - 1] as int - '0' as int)
  }

  lemma {:induction false} DigitsRoundTrip(n: nat)
    ensures DigitsValue(Digits(n)) == n
  {
    if n >= 10 {
      var s := Digits(n);
      assert s[..|s| - 1] == Digits(n / 10);
      DigitsRoundTrip(n / 10);
    }
  }

  /** Java's `integer + ""`: an optional minus sign, then the digits. */
  function IntText(n: int): (s: string)
    ensures IsCanonicalIntText(s)
    ensures s[0] == '-' <==> n < 0
    ensures Count(s, '(') == 0 && Count(s, ')') == 0
  {
    if n < 0 then "-" + Digits(-n) else Digits(n)
  }

  /** An optional minus sign followed by one or more digits. */
  predicate IsIntText(s: string) {
    && |s| > 0
    && (s[0] == '-' ==> |s| > 1 && forall i :: 1 <= i < |s| ==> IsDigit(s[i]))
    && (s[0] != '-' ==> forall i :: 0 <= i < |s| ==> IsDigit(s[i]))
  }

  /** Java's decimal form: no leading zero except in "0" itself, and no "-0". */
  predicate IsCanonicalIntText(s: string) {
    && IsIntText(s)
    && (s[0] == '-' ==> s[1] != '0')
    && (s[0] != '-' && |s| > 1 ==> s[0] != '0')
  }

  /** Reads back the text `IntText` writes. */
  function IntValue(s: string): int
    requires IsIntText(s)
  {
    if s[0] == '-' then -(DigitsValue(s[1..]) as int) else DigitsValue(s)
  }

  lemma IntTextRoundTrip(n: int)
    ensures IntValue(IntText(n)) == n
  {
    if n < 0 {
      assert IntText(n)[1..] == Digits(-n);
      DigitsRoundTrip(-n);
    } else {
      DigitsRoundTrip(n);
    }
  }

  lemma {:induction false} LeadingDigitPositive(s: string)
    requires |s| > 0 && forall i :: 0 <= i < |s| ==> IsDigit(s[i])
    requires s[0] != '0'
    ensures DigitsValue(s) > 0
    decreases |s|
  {
    if |s| > 1 {
      var s' := s[..|s| - 1];
      assert s'[0] == s[0];
      LeadingDigitPositive(s');
    }
  }

  /** A digit string without a leading zero (or the single "0") is the
      decimal form of its own value. */
  lemma {:induction false} DigitsOfValue(s: string)
    requires |s| > 0 && forall i :: 0 <= i < |s| ==> IsDigit(s[i])
    requires |s| > 1 ==> s[0] != '0'
    ensures Digits(DigitsValue(s)) == s
    decreases |s|
  {
    var c := s[|s| - 1];
    assert IsDigit(c);
    if |s| > 1 {
      var s' := s[..|s| - 1];
      assert s'[0] == s[0];
      LeadingDigitPositive(s');
      DigitsOfValue(s');
      var n := DigitsValue(s);
      assert n / 10 == DigitsValue(s') && n % 10 == c as int - '0' as int;
      assert DigitChar(n % 10) == c;
      assert s == s' + [c];
    }
  }

  /** The other direction of the round trip: a canonical decimal text is
      exactly the text `IntText` writes for its value, so each integer has
      one decimal form and each such form one integer. */
  lemma CanonicalTextIsIntText(s: string)
    requires IsCanonicalIntText(s)
    ensures IntText(IntValue(s)) == s
  {
    if s[0] == '-' {
      var d := s[1..];
      assert d[0] == s[1];
      DigitsOfValue(d);
      LeadingDigitPositive(d);
      assert s == "-" + d;
    } else {
      DigitsOfValue(s);
    }
  }
}
