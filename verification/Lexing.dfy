/** Character classes, spans, stripping and the integers of a listing. */
module Lexing {
  import opened Core

  // ------------------------------------------------------------- classes

  const SPACE: CodePoint := 0x20
  const COMMA: CodePoint := 0x2C

  /** The characters that `\s` matches and `str.strip` removes. */
  predicate Space(c: CodePoint) {
    || 0x09 <= c <= 0x0D || 0x1C <= c <= 0x20 || c == 0x85 || c == 0xA0 || c == 0x1680
    || 0x2000 <= c <= 0x200A || c == 0x2028 || c == 0x2029 || c == 0x202F || c == 0x205F || c == 0x3000
  }

  predicate Digit(c: CodePoint) {
    0x30 <= c <= 0x39
  }

  /** `[\d,]` */
  predicate NumberChar(c: CodePoint) {
    Digit(c) || c == COMMA
  }

  predicate All(p: CodePoint -> bool, s: Text) {
    forall k :: 0 <= k < |s| ==> p(s[k])
  }

  function Lit(s: string): (t: Text)
    ensures |t| == |s|
  {
    seq(|s|, k requires 0 <= k < |s| => s[k] as CodePoint)
  }

  // --------------------------------------------------------------- spans

  /** The longest prefix in a class. */
  function Span(p: CodePoint -> bool, s: Text): (n: nat)
    ensures n <= |s| && All(p, s[..n]) && (n < |s| ==> !p(s[n]))
  {
    if s == [] || !p(s[0]) then 0
    else
      var n := 1 + Span(p, s[1..]);
      assert forall k :: 0 < k < n ==> s[..n][k] == s[1..][..n - 1][k - 1];
      n
  }

  /** A piece in a class, followed by nothing or something outside it, is the span. */
  lemma {:induction false} SpanIs(p: CodePoint -> bool, a: Text, b: Text)
    requires All(p, a) && (b != [] ==> !p(b[0]))
    ensures Span(p, a + b) == |a| && (a + b)[..|a|] == a && (a + b)[|a|..] == b
  {
    if a == [] {
      assert a + b == b;
    } else {
      assert p(a[0]);
      SpanIs(p, a[1..], b);
      assert (a + b)[1..] == a[1..] + b;
    }
  }

  lemma AllConcat(p: CodePoint -> bool, a: Text, b: Text)
    ensures All(p, a + b) <==> All(p, a) && All(p, b)
  {
    if All(p, a + b) {
      assert forall k :: 0 <= k < |a| ==> a[k] == (a + b)[k];
      assert forall k :: 0 <= k < |b| ==> b[k] == (a + b)[|a| + k];
    }
  }

  function LStrip(s: Text): Text {
    s[Span(Space, s)..]
  }

  function RStrip(s: Text): (r: Text)
    ensures r <= s && All(Space, s[|r|..]) && (r != [] ==> !Space(r[|r| - 1]))
  {
    if s == [] || !Space(s[|s| - 1]) then s
    else
      var r := RStrip(s[..|s| - 1]);
      assert s[|r|..] == s[..|s| - 1][|r|..] + [s[|s| - 1]];
      r
  }

  /** `str.strip` */
  function Strip(s: Text): Text {
    RStrip(LStrip(s))
  }

  /** A line strips to a text without outer spaces exactly when it is that text between spaces. */
  lemma StripIs(s: Text, core: Text)
    requires core != [] && !Space(core[0]) && !Space(core[|core| - 1])
    ensures Strip(s) == core <==>
      exists lead: Text, tail: Text :: All(Space, lead) && All(Space, tail) && s == lead + core + tail
  {
    if Strip(s) == core {
      var lead, rest := s[..Span(Space, s)], LStrip(s);
      assert s == lead + core + rest[|core|..];
    }
    if lead: Text, tail: Text :| All(Space, lead) && All(Space, tail) && s == lead + core + tail {
      assert s == lead + (core + tail);
      SpanIs(Space, lead, core + tail);
      RStripConcat(core, tail);
    }
  }

  lemma {:induction false} RStripConcat(s: Text, tail: Text)
    requires All(Space, tail)
    ensures RStrip(s + tail) == RStrip(s)
  {
    if tail == [] {
      assert s + tail == s;
    } else {
      assert Space(tail[|tail| - 1]);
      hide Space;
      RStripConcat(s, tail[..|tail| - 1]);
      assert (s + tail)[..|s + tail| - 1] == s + tail[..|tail| - 1];
    }
  }

  // ------------------------------------------------------------ integers

  /** The number of digits beyond which the conversion to an integer is refused. */
  const MAX_INTEGER_DIGITS := 4300

  /** `\d{1,3}(,\d{3})*` */
  predicate Grouped(s: Text) {
    if |s| <= 3 then s != [] && All(Digit, s)
    else
      && s[|s| - 4] == COMMA
      && All(Digit, s[|s| - 3..])
      && Grouped(s[..|s| - 4])
  }

  function Digits(s: Text): (r: Text) {
    if s == [] then [] else Digits(s[..|s| - 1]) + if s[|s| - 1] == COMMA then [] else [s[|s| - 1]]
  }

  /** The number that a string of digits denotes, base ten. */
  function Value(s: Text): nat
    requires All(Digit, s)
  {
    if s == [] then 0
    else
      assert Digit(s[|s| - 1]);
      10 * Value(s[..|s| - 1]) + (s[|s| - 1] - 0x30)
  }

  lemma {:induction false} GroupedDigits(s: Text)
    requires Grouped(s)
    ensures All(Digit, Digits(s)) && Digits(s) != []
  {
    if |s| <= 3 {
      PlainDigits(s);
    } else {
      GroupedDigits(s[..|s| - 4]);
      DigitsConcat(s[..|s| - 4], s[|s| - 4..]);
      DigitsConcat([s[|s| - 4]], s[|s| - 3..]);
      PlainDigits(s[|s| - 3..]);
      assert s == s[..|s| - 4] + s[|s| - 4..];
      assert s[|s| - 4..] == [s[|s| - 4]] + s[|s| - 3..];
      assert [s[|s| - 4]][..0] == [];
      AllConcat(Digit, Digits(s[..|s| - 4]), s[|s| - 3..]);
    }
  }

  lemma {:induction false} PlainDigits(s: Text)
    requires All(Digit, s)
    ensures Digits(s) == s
  {
    if s != [] {
      PlainDigits(s[..|s| - 1]);
      assert Digit(s[|s| - 1]);
    }
  }

  lemma {:induction false} DigitsConcat(a: Text, b: Text)
    ensures Digits(a + b) == Digits(a) + Digits(b)
  {
    if b == [] {
      assert a + b == a;
    } else {
      DigitsConcat(a, b[..|b| - 1]);
      assert (a + b)[..|a + b| - 1] == a + b[..|b| - 1];
    }
  }

  /** `parse_integer` */
  function ParseInteger(s: Text): Option<nat> {
    if s != [] && All(Digit, s) then
      PlainDigits(s);
      Converted(s)
    else if Grouped(s) then
      GroupedDigits(s);
      Converted(Digits(s))
    else None
  }

  /** `int`, which refuses overlong strings. */
  function Converted(digits: Text): Option<nat>
    requires All(Digit, digits)
  {
    if |digits| <= MAX_INTEGER_DIGITS then Some(Value(digits)) else None
  }

  function DigitOf(d: nat): CodePoint
    requires d < 10
  {
    0x30 + d
  }

  /** The shortest decimal form. */
  function Decimal(n: nat): (s: Text)
    ensures s != [] && All(Digit, s)
    ensures Value(s) == n
  {
    if n < 10 then
      assert [DigitOf(n)][..0] == [];
      [DigitOf(n)]
    else
      var s := Decimal(n / 10) + [DigitOf(n % 10)];
      assert s[..|s| - 1] == Decimal(n / 10);
      s
  }

  /** A comma before every group of three digits. */
  function WithCommas(digits: Text): Text {
    if |digits| <= 3 then digits
    else WithCommas(digits[..|digits| - 3]) + [COMMA] + digits[|digits| - 3..]
  }

  /** The decimal form with thousands separators. */
  function Thousands(n: nat): Text {
    WithCommas(Decimal(n))
  }

  /** One more group of three digits. */
  lemma GroupedOneMore(front: Text, three: Text)
    requires Grouped(front) && |three| == 3 && All(Digit, three)
    ensures Grouped(front + [COMMA] + three)
    ensures Digits(front + [COMMA] + three) == Digits(front) + three
  {
    var s := front + [COMMA] + three;
    assert s[..|s| - 4] == front && s[|s| - 3..] == three && s[|s| - 4] == COMMA;
    assert [COMMA][..0] == [];
    assert Digits([COMMA]) == [];
    hide Grouped, Digits;
    DigitsConcat(front + [COMMA], three);
    DigitsConcat(front, [COMMA]);
    PlainDigits(three);
  }

  lemma {:induction false} WithCommasGroups(digits: Text)
    requires digits != [] && All(Digit, digits)
    ensures Grouped(WithCommas(digits)) && Digits(WithCommas(digits)) == digits
  {
    if |digits| <= 3 {
      PlainDigits(digits);
    } else {
      hide Grouped, Digits;
      var front, three := digits[..|digits| - 3], digits[|digits| - 3..];
      WithCommasGroups(front);
      GroupedOneMore(WithCommas(front), three);
      assert front + three == digits;
    }
  }

  /** A number reads back with or without thousands separators, unless it is overlong. */
  lemma IntegerRoundTrip(n: nat)
    ensures ParseInteger(Decimal(n)) == if |Decimal(n)| <= MAX_INTEGER_DIGITS then Some(n) else None
    ensures ParseInteger(Thousands(n)) == ParseInteger(Decimal(n))
  {
    WithCommasGroups(Decimal(n));
    if All(Digit, Thousands(n)) {
      PlainDigits(Thousands(n));
    }
  }

  /** What reads as a number is digits, in groups of three if there is any comma, and the
      number is the value of the digits. */
  lemma ParseIntegerIs(s: Text)
    ensures ParseInteger(s).Some? <==>
      ((s != [] && All(Digit, s)) || Grouped(s)) && |Digits(s)| <= MAX_INTEGER_DIGITS
    ensures ParseInteger(s).Some? ==> All(Digit, Digits(s)) && ParseInteger(s).value == Value(Digits(s))
  {
    if All(Digit, s) {
      PlainDigits(s);
    } else if Grouped(s) {
      GroupedDigits(s);
    }
  }
}
