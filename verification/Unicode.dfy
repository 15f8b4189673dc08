/**
 The strict decoders behind `bytes.decode`: UTF-8 (RFC 3629, section 3) and UTF-16
 (RFC 2781, section 2.2), and the UTF-8 encoder behind `str.encode`.  A failed decode
 reports where the offending sequence starts, and whether the input merely ended too
 early.
 */
module Unicode {
  import opened Core

  datatype Decoded = Decoded(text: Text) | Undecodable(at: nat, truncated: bool)

  /** Decoding `n` bytes gave `first`, and decoding the bytes after them gave `rest`. */
  function Join(first: Decoded, n: nat, rest: Decoded): Decoded {
    match first
    case Undecodable(_, _) => first
    case Decoded(text) =>
      match rest
      case Undecodable(at, truncated) => Undecodable(n + at, truncated)
      case Decoded(more) => Decoded(text + more)
  }

  /** Same text, or failure at the same place.  Whether a cut-off sequence counts as
      truncated depends on what follows it, so that flag is not compared. */
  predicate SameOutcome(x: Decoded, y: Decoded) {
    match x
    case Decoded(_) => x == y
    case Undecodable(at, _) => y.Undecodable? && y.at == at
  }

  lemma JoinAssociates(x: Decoded, m: nat, y: Decoded, n: nat, z: Decoded)
    ensures Join(Join(x, m, y), m + n, z) == Join(x, m, Join(y, n, z))
  {
    if x.Decoded? && y.Decoded? && z.Decoded? {
      assert x.text + y.text + z.text == x.text + (y.text + z.text);
    }
  }

  /** A cut inside what follows the first `n` bytes is a cut `n` bytes further on. */
  lemma SplitAfter(head: Text, n: nat, whole: Decoded, first: Decoded, m: nat, rest: Decoded)
    requires SameOutcome(whole, Join(first, m, rest))
    ensures SameOutcome(Join(Decoded(head), n, whole), Join(Join(Decoded(head), n, first), n + m, rest))
  {
    JoinAssociates(Decoded(head), n, first, m, rest);
  }

  // ---------------------------------------------------------------- UTF-8

  /** Length of the sequence a lead byte announces; 0 for a byte that cannot lead. */
  function Utf8Length(lead: Byte): nat {
    if lead < 0x80 then 1
    else if 0xC2 <= lead <= 0xDF then 2
    else if 0xE0 <= lead <= 0xEF then 3
    else if 0xF0 <= lead <= 0xF4 then 4
    else 0
  }

  /** May `b` stand at position `k` of a sequence led by `lead`? */
  predicate Utf8Tail(lead: Byte, k: nat, b: Byte) {
    if k == 1 && lead == 0xE0 then 0xA0 <= b <= 0xBF
    else if k == 1 && lead == 0xED then 0x80 <= b <= 0x9F
    else if k == 1 && lead == 0xF0 then 0x90 <= b <= 0xBF
    else if k == 1 && lead == 0xF4 then 0x80 <= b <= 0x8F
    else 0x80 <= b <= 0xBF
  }

  predicate Utf8Head(s: Bytes)
    requires s != []
  {
    var n := Utf8Length(s[0]);
    && 1 <= n <= |s|
    && (n >= 2 ==> Utf8Tail(s[0], 1, s[1]))
    && (n >= 3 ==> Utf8Tail(s[0], 2, s[2]))
    && (n >= 4 ==> Utf8Tail(s[0], 3, s[3]))
  }

  /** Every byte present would fit, but the sequence is cut off by the end of input. */
  predicate Utf8Truncated(s: Bytes)
    requires s != []
  {
    && |s| < Utf8Length(s[0])
    && forall k :: 1 <= k < |s| ==> Utf8Tail(s[0], k, s[k])
  }

  function Utf8Point(s: Bytes): CodePoint
    requires s != [] && Utf8Head(s)
  {
    var n, lead: int := Utf8Length(s[0]), s[0];
    var t1: int := if n >= 2 then s[1] - 0x80 else 0;
    var t2: int := if n >= 3 then s[2] - 0x80 else 0;
    var t3: int := if n >= 4 then s[3] - 0x80 else 0;
    match n
    case 1 => lead
    case 2 => (lead - 0xC0) * 0x40 + t1
    case 3 => (lead - 0xE0) * 0x1000 + t1 * 0x40 + t2
    case _ => (lead - 0xF0) * 0x4_0000 + t1 * 0x1000 + t2 * 0x40 + t3
  }

  function Utf8Decode(s: Bytes): Decoded {
    if s == [] then Decoded([])
    else if Utf8Head(s) then
      var n := Utf8Length(s[0]);
      Join(Decoded([Utf8Point(s)]), n, Utf8Decode(s[n..]))
    else Undecodable(0, Utf8Truncated(s))
  }

  lemma Utf8Good(s: Bytes)
    requires s != [] && Utf8Head(s)
    ensures 1 <= Utf8Length(s[0]) <= |s|
    ensures Utf8Decode(s) == Join(Decoded([Utf8Point(s)]), Utf8Length(s[0]), Utf8Decode(s[Utf8Length(s[0])..]))
  {
  }

  lemma Utf8Bad(s: Bytes)
    requires s != [] && !Utf8Head(s)
    ensures Utf8Decode(s) == Undecodable(0, Utf8Truncated(s))
  {
  }

  /** Nothing that starts below 0x80 can complete a sequence, or spoil one. */
  lemma Utf8HeadOfPrefix(a: Bytes, b: Bytes)
    requires a != [] && (b == [] || b[0] < 0x80)
    ensures Utf8Head(a + b) <==> Utf8Head(a)
    ensures Utf8Head(a) ==>
      && Utf8Point(a + b) == Utf8Point(a)
      && (a + b)[0] == a[0] && (a + b)[Utf8Length(a[0])..] == a[Utf8Length(a[0])..] + b
  {
    if b != [] {
      assert (a + b)[|a|] == b[0];
    } else {
      assert a + b == a;
    }
  }

  /** A decode may be cut in two before any byte below 0x80. */
  lemma {:induction false} Utf8Split(a: Bytes, b: Bytes)
    requires b == [] || b[0] < 0x80
    ensures SameOutcome(Utf8Decode(a + b), Join(Utf8Decode(a), |a|, Utf8Decode(b)))
  {
    if a == [] {
      assert a + b == b;
    } else {
      hide Utf8Decode, Utf8Head, Utf8Point, Utf8Length;
      Utf8HeadOfPrefix(a, b);
      if Utf8Head(a) {
        var n := Utf8Length(a[0]);
        Utf8Good(a);
        Utf8Good(a + b);
        Utf8Split(a[n..], b);
        SplitAfter([Utf8Point(a)], n, Utf8Decode(a[n..] + b), Utf8Decode(a[n..]), |a| - n, Utf8Decode(b));
      } else {
        Utf8Bad(a);
        Utf8Bad(a + b);
      }
    }
  }

  /** A control character is decoded from the byte of that value alone. */
  lemma {:induction false} Utf8Control(s: Bytes, u: CodePoint)
    requires u < 0x80
    requires Utf8Decode(s).Decoded?
    ensures u in Utf8Decode(s).text ==> u in s
    ensures |Utf8Decode(s).text| > 0 ==>
      s != [] && (Utf8Decode(s).text[|Utf8Decode(s).text| - 1] == u ==> s[|s| - 1] == u)
  {
    if s != [] {
      var n := Utf8Length(s[0]);
      Utf8Control(s[n..], u);
      assert Utf8Decode(s).text == [Utf8Point(s)] + Utf8Decode(s[n..]).text;
      assert Utf8Point(s) < 0x80 ==> n == 1;
      if Utf8Decode(s[n..]).text == [] {
        Utf8DecodesToNothing(s[n..]);
      }
    }
  }

  lemma Utf8DecodesToNothing(s: Bytes)
    requires Utf8Decode(s) == Decoded([])
    ensures s == []
  {
  }

  function EncodePoint(c: CodePoint): Bytes
    requires !(0xD800 <= c <= 0xDFFF)
  {
    if c < 0x80 then [c]
    else if c < 0x800 then [0xC0 + c / 0x40, 0x80 + c % 0x40]
    else if c < 0x1_0000 then [0xE0 + c / 0x1000, 0x80 + c / 0x40 % 0x40, 0x80 + c % 0x40]
    else [0xF0 + c / 0x4_0000, 0x80 + c / 0x1000 % 0x40, 0x80 + c / 0x40 % 0x40, 0x80 + c % 0x40]
  }

  predicate Encodable(t: Text) {
    forall k :: 0 <= k < |t| ==> !(0xD800 <= t[k] <= 0xDFFF)
  }

  function Utf8Encode(t: Text): Bytes
    requires Encodable(t)
  {
    if t == [] then [] else EncodePoint(t[0]) + Utf8Encode(t[1..])
  }

  predicate HeadEncodes(c: CodePoint, code: Bytes, rest: Bytes) {
    var s := code + rest;
    s != [] && Utf8Length(s[0]) == |code| && Utf8Head(s) && Utf8Point(s) == c
  }

  /** `n` in base 64. */
  lemma Base64(n: nat)
    ensures n == n / 0x40 * 0x40 + n % 0x40
    ensures n / 0x40 == n / 0x1000 * 0x40 + n / 0x40 % 0x40
    ensures n / 0x1000 == n / 0x4_0000 * 0x40 + n / 0x1000 % 0x40
  {
    assert n / 0x40 / 0x40 == n / 0x1000 && n / 0x1000 / 0x40 == n / 0x4_0000;
  }

  lemma TwoByteHead(c: CodePoint, rest: Bytes)
    requires 0x80 <= c < 0x800
    ensures HeadEncodes(c, [0xC0 + c / 0x40, 0x80 + c % 0x40], rest)
  {
    Base64(c);
  }

  lemma ThreeByteHead(c: CodePoint, rest: Bytes)
    requires 0x800 <= c < 0x1_0000 && !(0xD800 <= c <= 0xDFFF)
    ensures HeadEncodes(c, [0xE0 + c / 0x1000, 0x80 + c / 0x40 % 0x40, 0x80 + c % 0x40], rest)
  {
    Base64(c);
  }

  lemma FourByteHead(c: CodePoint, rest: Bytes)
    requires 0x1_0000 <= c
    ensures HeadEncodes(
      c, [0xF0 + c / 0x4_0000, 0x80 + c / 0x1000 % 0x40, 0x80 + c / 0x40 % 0x40, 0x80 + c % 0x40], rest)
  {
    Base64(c);
  }

  lemma EncodePointIsHead(c: CodePoint, rest: Bytes)
    requires !(0xD800 <= c <= 0xDFFF)
    ensures HeadEncodes(c, EncodePoint(c), rest)
  {
    if 0x1_0000 <= c {
      FourByteHead(c, rest);
    } else if 0x800 <= c {
      ThreeByteHead(c, rest);
    } else if 0x80 <= c {
      TwoByteHead(c, rest);
    }
  }

  /** Encoding round-trips through the strict decoder. */
  lemma {:induction false} Utf8RoundTrip(t: Text)
    requires Encodable(t)
    ensures Utf8Decode(Utf8Encode(t)) == Decoded(t)
  {
    if t != [] {
      var rest := Utf8Encode(t[1..]);
      var s := EncodePoint(t[0]) + rest;
      EncodePointIsHead(t[0], rest);
      assert s[|EncodePoint(t[0])|..] == rest;
      Utf8RoundTrip(t[1..]);
      assert [t[0]] + t[1..] == t;
    }
  }

  /** The base-64 digits of a number are those it was put together from. */
  lemma Digits64(a: nat, b: nat, c: nat, d: nat)
    requires b < 0x40 && c < 0x40 && d < 0x40
    ensures var n := a * 0x4_0000 + b * 0x1000 + c * 0x40 + d;
      n / 0x4_0000 == a && n / 0x1000 % 0x40 == b && n / 0x40 % 0x40 == c && n % 0x40 == d
  {
    var n := a * 0x4_0000 + b * 0x1000 + c * 0x40 + d;
    assert n / 0x40 == a * 0x1000 + b * 0x40 + c;
    assert n / 0x1000 == a * 0x40 + b;
  }

  lemma TwoBytesEncode(s: Bytes)
    requires s != [] && Utf8Head(s) && Utf8Length(s[0]) == 2
    ensures [s[0], s[1]] == EncodePoint(Utf8Point(s))
  {
    var a: int, b: int := s[0] - 0xC0, s[1] - 0x80;
    Digits64(0, 0, a, b);
    assert Utf8Point(s) == a * 0x40 + b;
  }

  lemma ThreeBytesEncode(s: Bytes)
    requires s != [] && Utf8Head(s) && Utf8Length(s[0]) == 3
    ensures !(0xD800 <= Utf8Point(s) <= 0xDFFF)
    ensures [s[0], s[1], s[2]] == EncodePoint(Utf8Point(s))
  {
    var a: int, b: int, c: int := s[0] - 0xE0, s[1] - 0x80, s[2] - 0x80;
    Digits64(0, a, b, c);
    assert Utf8Point(s) == a * 0x1000 + b * 0x40 + c;
    assert Utf8Point(s) / 0x1000 == a;
  }

  lemma FourBytesEncode(s: Bytes)
    requires s != [] && Utf8Head(s) && Utf8Length(s[0]) == 4
    ensures [s[0], s[1], s[2], s[3]] == EncodePoint(Utf8Point(s))
  {
    var a: int, b: int, c: int, d: int := s[0] - 0xF0, s[1] - 0x80, s[2] - 0x80, s[3] - 0x80;
    Digits64(a, b, c, d);
    assert Utf8Point(s) == a * 0x4_0000 + b * 0x1000 + c * 0x40 + d;
  }

  /** The bytes that lead a sequence are those of the character they stand for. */
  lemma HeadIsEncoded(s: Bytes)
    requires s != [] && Utf8Head(s)
    ensures !(0xD800 <= Utf8Point(s) <= 0xDFFF)
    ensures s[..Utf8Length(s[0])] == EncodePoint(Utf8Point(s))
  {
    match Utf8Length(s[0]) {
      case 1 => assert s[..1] == [s[0]];
      case 2 =>
        TwoBytesEncode(s);
        hide EncodePoint;
        assert s[..2] == [s[0], s[1]];
      case 3 =>
        ThreeBytesEncode(s);
        hide EncodePoint;
        assert s[..3] == [s[0], s[1], s[2]];
      case _ =>
        FourBytesEncode(s);
        hide EncodePoint;
        assert s[..4] == [s[0], s[1], s[2], s[3]];
    }
  }

  /** Whatever decodes is the encoding of its text. */
  lemma {:induction false} DecodedIsEncoded(s: Bytes)
    requires Utf8Decode(s).Decoded?
    ensures Encodable(Utf8Decode(s).text) && Utf8Encode(Utf8Decode(s).text) == s
  {
    if s != [] {
      hide Utf8Decode, Utf8Encode, Utf8Head, Utf8Point, Utf8Length, EncodePoint, Encodable;
      HeadIfDecoded(s);
      Utf8Good(s);
      HeadIsEncoded(s);
      var n := Utf8Length(s[0]);
      DecodedIsEncoded(s[n..]);
      EncodedCons(s, n, Utf8Point(s), Utf8Decode(s[n..]).text);
    }
  }

  lemma EncodedCons(s: Bytes, n: nat, c: CodePoint, rest: Text)
    requires n <= |s| && !(0xD800 <= c <= 0xDFFF) && s[..n] == EncodePoint(c)
    requires Encodable(rest) && Utf8Encode(rest) == s[n..]
    ensures Encodable([c] + rest) && Utf8Encode([c] + rest) == s
  {
    hide Utf8Encode, EncodePoint, Encodable;
    var t := [c] + rest;
    assert t[0] == c && t[1..] == rest;
    EncodeCons(t);
    assert s == s[..n] + s[n..];
  }

  /** Strict UTF-8: bytes decode exactly if they are the encoding of a text without
      surrogates, and then to that text. */
  lemma Utf8DecodesEncodings(s: Bytes, t: Text)
    ensures Utf8Decode(s) == Decoded(t) <==> Encodable(t) && Utf8Encode(t) == s
  {
    hide Utf8Decode, Utf8Encode;
    if Encodable(t) && Utf8Encode(t) == s {
      Utf8RoundTrip(t);
    }
    if Utf8Decode(s) == Decoded(t) {
      DecodedIsEncoded(s);
    }
  }

  /** A failed decode counts as truncated exactly if more bytes could have saved it. */
  ghost predicate CanBeCompleted(s: Bytes) {
    exists more :: Utf8Decode(s + more).Decoded?
  }

  lemma HeadOfLonger(s: Bytes, more: Bytes)
    requires s != [] && Utf8Head(s)
    ensures Utf8Head(s + more) && (s + more)[0] == s[0] && Utf8Point(s + more) == Utf8Point(s)
    ensures Utf8Length(s[0]) <= |s| && (s + more)[Utf8Length(s[0])..] == s[Utf8Length(s[0])..] + more
  {
  }

  /** The least byte that may stand at a position. */
  function LeastTail(lead: Byte, k: nat): (b: Byte)
    requires 0xC2 <= lead <= 0xF4
    ensures Utf8Tail(lead, k, b)
  {
    if k == 1 && lead == 0xE0 then 0xA0 else if k == 1 && lead == 0xF0 then 0x90 else 0x80
  }

  lemma TruncatedCompletes(s: Bytes) returns (more: Bytes)
    requires s != [] && Utf8Truncated(s)
    ensures Utf8Head(s + more) && Utf8Length(s[0]) == |s + more|
  {
    var lead, n := s[0], Utf8Length(s[0]);
    if |s| == n - 1 {
      more := [LeastTail(lead, n - 1)];
    } else if |s| == n - 2 {
      more := [LeastTail(lead, n - 2), LeastTail(lead, n - 1)];
    } else {
      more := [LeastTail(lead, 1), LeastTail(lead, 2), LeastTail(lead, 3)];
    }
    assert (s + more)[0] == lead;
    assert |s| > 1 ==> (s + more)[1] == s[1];
    assert |s| > 2 ==> (s + more)[2] == s[2];
  }

  lemma HeadWasTruncated(s: Bytes, more: Bytes)
    requires s != [] && !Utf8Head(s) && Utf8Head(s + more)
    ensures Utf8Truncated(s)
  {
    var whole := s + more;
    assert whole[0] == s[0];
    forall k | 1 <= k < |s| && k < Utf8Length(s[0]) ensures Utf8Tail(s[0], k, s[k]) {
      assert whole[k] == s[k];
    }
  }

  lemma {:induction false} Utf8FaultTells(s: Bytes)
    requires Utf8Decode(s).Undecodable?
    ensures Utf8Decode(s).truncated <==> CanBeCompleted(s)
  {
    hide Utf8Decode, Utf8Head, Utf8Point, Utf8Length, Utf8Truncated;
    NothingDecodes();
    if Utf8Head(s) {
      Utf8Good(s);
      var tail := s[Utf8Length(s[0])..];
      Utf8FaultTells(tail);
      forall more ensures Utf8Decode(s + more).Decoded? <==> Utf8Decode(tail + more).Decoded? {
        HeadOfLonger(s, more);
        Utf8Good(s + more);
      }
    } else {
      Utf8Bad(s);
      if Utf8Truncated(s) {
        var more := TruncatedCompletes(s);
        Utf8Good(s + more);
        assert (s + more)[Utf8Length(s[0])..] == [];
      }
      forall more | Utf8Decode(s + more).Decoded? ensures Utf8Truncated(s) {
        HeadIfDecoded(s + more);
        HeadWasTruncated(s, more);
      }
    }
  }

  lemma NothingDecodes()
    ensures Utf8Decode([]) == Decoded([])
  {
  }

  lemma EncodeCons(t: Text)
    requires t != [] && !(0xD800 <= t[0] <= 0xDFFF) && Encodable(t[1..])
    ensures Encodable(t) && Utf8Encode(t) == EncodePoint(t[0]) + Utf8Encode(t[1..])
  {
    assert forall k :: 0 < k < |t| ==> t[k] == t[1..][k - 1];
  }

  lemma HeadIfDecoded(s: Bytes)
    requires s != [] && Utf8Decode(s).Decoded?
    ensures Utf8Head(s)
  {
  }

  lemma Utf8EncodeInjective(t: Text, u: Text)
    requires Encodable(t) && Encodable(u)
    requires Utf8Encode(t) == Utf8Encode(u)
    ensures t == u
  {
    Utf8RoundTrip(t);
    Utf8RoundTrip(u);
  }

  lemma {:induction false} Utf8EncodeConcat(t: Text, u: Text)
    requires Encodable(t) && Encodable(u)
    ensures Utf8Encode(t + u) == Utf8Encode(t) + Utf8Encode(u)
  {
    if t == [] {
      assert t + u == u;
    } else {
      assert (t + u)[1..] == t[1..] + u;
      Utf8EncodeConcat(t[1..], u);
      assert EncodePoint(t[0]) + (Utf8Encode(t[1..]) + Utf8Encode(u))
          == (EncodePoint(t[0]) + Utf8Encode(t[1..])) + Utf8Encode(u);
    }
  }

  /** A byte below 0x80 occurs in an encoding only as the character of that value. */
  lemma {:induction false} Utf8EncodeAscii(t: Text, b: Byte)
    requires Encodable(t) && b < 0x80
    ensures b in Utf8Encode(t) <==> b in t
  {
    if t != [] {
      Utf8EncodeAscii(t[1..], b);
      assert t == [t[0]] + t[1..];
    }
  }

  // --------------------------------------------------------------- UTF-16

  datatype ByteOrder = Little | Big

  /** The 16-bit code unit at the front of `s`. */
  function Unit(order: ByteOrder, s: Bytes): (u: nat)
    requires |s| >= 2
    ensures u < 0x1_0000
  {
    var b0: int, b1: int := s[0], s[1];
    if order.Little? then b0 + 0x100 * b1 else 0x100 * b0 + b1
  }

  predicate HighSurrogate(u: nat) { 0xD800 <= u <= 0xDBFF }

  predicate LowSurrogate(u: nat) { 0xDC00 <= u <= 0xDFFF }

  function Utf16Decode(order: ByteOrder, s: Bytes): Decoded {
    if s == [] then Decoded([])
    else if |s| == 1 then Undecodable(0, true)
    else
      var u := Unit(order, s);
      if !HighSurrogate(u) && !LowSurrogate(u) then
        Join(Decoded([u]), 2, Utf16Decode(order, s[2..]))
      else if LowSurrogate(u) then Undecodable(0, false)
      else if |s| < 4 then Undecodable(0, true)
      else if LowSurrogate(Unit(order, s[2..])) then
        Join(Decoded([PairPoint(u, Unit(order, s[2..]))]), 4, Utf16Decode(order, s[4..]))
      else Undecodable(0, false)
  }

  /** The character of a surrogate pair. */
  function PairPoint(high: nat, low: nat): (c: CodePoint)
    requires HighSurrogate(high) && LowSurrogate(low)
    ensures c >= 0x1_0000
  {
    0x1_0000 + (high - 0xD800) * 0x400 + (low - 0xDC00)
  }

  lemma Utf16Plain(order: ByteOrder, s: Bytes)
    requires |s| >= 2 && !HighSurrogate(Unit(order, s)) && !LowSurrogate(Unit(order, s))
    ensures Utf16Decode(order, s) == Join(Decoded([Unit(order, s)]), 2, Utf16Decode(order, s[2..]))
  {
  }

  lemma Utf16Pair(order: ByteOrder, s: Bytes)
    requires |s| >= 4 && HighSurrogate(Unit(order, s)) && LowSurrogate(Unit(order, s[2..]))
    ensures Utf16Decode(order, s) ==
      Join(Decoded([PairPoint(Unit(order, s), Unit(order, s[2..]))]), 4, Utf16Decode(order, s[4..]))
  {
  }

  lemma Utf16Lone(order: ByteOrder, s: Bytes)
    requires |s| >= 2
    requires || LowSurrogate(Unit(order, s))
             || (HighSurrogate(Unit(order, s)) && (|s| < 4 || !LowSurrogate(Unit(order, s[2..]))))
    ensures Utf16Decode(order, s) == Undecodable(0, HighSurrogate(Unit(order, s)) && |s| < 4)
  {
  }

  // The encoder of section 2.2 of RFC 2781.

  /** A 16-bit unit as two bytes. */
  function UnitCode(order: ByteOrder, u: nat): Bytes
    requires u < 0x1_0000
  {
    if order.Little? then [u % 0x100, u / 0x100] else [u / 0x100, u % 0x100]
  }

  /** One unit, or for a character beyond the first plane a high and a low surrogate, which
      hold the upper and the lower ten bits of what exceeds 0x10000. */
  function Utf16Code(order: ByteOrder, c: CodePoint): Bytes
    requires !(0xD800 <= c <= 0xDFFF)
  {
    if c < 0x1_0000 then UnitCode(order, c)
    else
      var excess := c - 0x1_0000;
      UnitCode(order, 0xD800 + excess / 0x400) + UnitCode(order, 0xDC00 + excess % 0x400)
  }

  function Utf16Encode(order: ByteOrder, t: Text): Bytes
    requires Encodable(t)
  {
    if t == [] then [] else Utf16Code(order, t[0]) + Utf16Encode(order, t[1..])
  }

  lemma UnitOfCode(order: ByteOrder, u: nat, rest: Bytes)
    requires u < 0x1_0000
    ensures Unit(order, UnitCode(order, u) + rest) == u
    ensures (UnitCode(order, u) + rest)[2..] == rest
  {
  }

  lemma CodeOfUnit(order: ByteOrder, s: Bytes)
    requires |s| >= 2
    ensures s == UnitCode(order, Unit(order, s)) + s[2..]
  {
    var u := Unit(order, s);
    assert UnitCode(order, u) == [s[0], s[1]] by {
      var low: int, high: int := if order.Little? then s[0] else s[1], if order.Little? then s[1] else s[0];
      assert u == high * 0x100 + low;
      assert u / 0x100 == high && u % 0x100 == low;
    }
  }

  /** The two surrogates of a character, and the character of two surrogates. */
  lemma PairSplits(c: CodePoint)
    requires c >= 0x1_0000
    ensures var high, low := 0xD800 + (c - 0x1_0000) / 0x400, 0xDC00 + (c - 0x1_0000) % 0x400;
      HighSurrogate(high) && LowSurrogate(low) && PairPoint(high, low) == c
  {
  }

  lemma PairJoins(high: nat, low: nat)
    requires HighSurrogate(high) && LowSurrogate(low)
    ensures var excess := PairPoint(high, low) - 0x1_0000;
      0xD800 + excess / 0x400 == high && 0xDC00 + excess % 0x400 == low
  {
  }

  lemma Utf16HeadIsCode(order: ByteOrder, c: CodePoint, rest: Bytes)
    requires !(0xD800 <= c <= 0xDFFF)
    ensures Utf16Decode(order, Utf16Code(order, c) + rest) ==
      Join(Decoded([c]), |Utf16Code(order, c)|, Utf16Decode(order, rest))
  {
    hide Utf16Decode, Unit, UnitCode, PairPoint;
    var s := Utf16Code(order, c) + rest;
    if c < 0x1_0000 {
      UnitOfCode(order, c, rest);
      UnitCodeLength(order, c);
      Utf16Plain(order, s);
    } else {
      var high, low := 0xD800 + (c - 0x1_0000) / 0x400, 0xDC00 + (c - 0x1_0000) % 0x400;
      PairSplits(c);
      UnitCodeLength(order, high);
      UnitCodeLength(order, low);
      assert s == UnitCode(order, high) + (UnitCode(order, low) + rest);
      UnitOfCode(order, high, UnitCode(order, low) + rest);
      UnitOfCode(order, low, rest);
      assert s[4..] == s[2..][2..];
      Utf16Pair(order, s);
    }
  }

  lemma UnitCodeLength(order: ByteOrder, u: nat)
    requires u < 0x1_0000
    ensures |UnitCode(order, u)| == 2
  {
  }

  /** Encoding round-trips through the strict decoder. */
  lemma {:induction false} Utf16RoundTrip(order: ByteOrder, t: Text)
    requires Encodable(t)
    ensures Utf16Decode(order, Utf16Encode(order, t)) == Decoded(t)
  {
    if t != [] {
      hide Utf16Code;
      Utf16HeadIsCode(order, t[0], Utf16Encode(order, t[1..]));
      Utf16RoundTrip(order, t[1..]);
      assert [t[0]] + t[1..] == t;
    }
  }

  /** What the front of a decoded stream is the code of. */
  lemma CodeIfDecoded(order: ByteOrder, s: Bytes) returns (c: CodePoint)
    requires s != [] && Utf16Decode(order, s).Decoded?
    ensures !(0xD800 <= c <= 0xDFFF)
    ensures |Utf16Code(order, c)| <= |s| && s == Utf16Code(order, c) + s[|Utf16Code(order, c)|..]
    ensures |Utf16Code(order, c)| > 0
  {
    var u := Unit(order, s);
    if HighSurrogate(u) {
      assert |s| >= 4 && LowSurrogate(Unit(order, s[2..]));
      hide Utf16Decode, Unit, UnitCode, PairPoint;
      var low := Unit(order, s[2..]);
      c := PairPoint(u, low);
      PairJoins(u, low);
      CodeOfUnit(order, s);
      CodeOfUnit(order, s[2..]);
      UnitCodeLength(order, u);
      UnitCodeLength(order, low);
      assert s[4..] == s[2..][2..];
    } else {
      assert |s| >= 2 && !LowSurrogate(u);
      hide Utf16Decode, Unit, UnitCode;
      c := u;
      CodeOfUnit(order, s);
      UnitCodeLength(order, u);
    }
  }

  /** Strict UTF-16: bytes decode exactly if they are the encoding of a text without
      surrogates, and then to that text. */
  lemma {:induction false} Utf16DecodesEncodings(order: ByteOrder, s: Bytes, t: Text)
    ensures Utf16Decode(order, s) == Decoded(t) <==> Encodable(t) && Utf16Encode(order, t) == s
    decreases |s|
  {
    if Encodable(t) && Utf16Encode(order, t) == s {
      Utf16RoundTrip(order, t);
    }
    if Utf16Decode(order, s) == Decoded(t) {
      if s == [] {
        assert t == [];
      } else {
        var c := CodeIfDecoded(order, s);
        hide Utf16Decode, Utf16Code;
        var rest := s[|Utf16Code(order, c)|..];
        Utf16HeadIsCode(order, c, rest);
        var more := Utf16Decode(order, rest).text;
        Utf16DecodesEncodings(order, rest, more);
        assert t == [c] + more && t[0] == c && t[1..] == more;
      }
    }
  }

  lemma UnitOfPrefix(order: ByteOrder, a: Bytes, b: Bytes)
    requires |a| >= 2
    ensures Unit(order, a + b) == Unit(order, a) && (a + b)[2..] == a[2..] + b
    ensures |a| >= 4 ==> (a + b)[4..] == a[4..] + b
  {
  }

  ghost predicate Utf16Cuts(order: ByteOrder, a: Bytes, b: Bytes) {
    SameOutcome(Utf16Decode(order, a + b), Join(Utf16Decode(order, a), |a|, Utf16Decode(order, b)))
  }

  lemma PlainInBoth(order: ByteOrder, a: Bytes, b: Bytes)
    requires |a| >= 2 && !HighSurrogate(Unit(order, a)) && !LowSurrogate(Unit(order, a))
    requires Utf16Cuts(order, a[2..], b)
    ensures Utf16Cuts(order, a, b)
  {
    hide Utf16Decode, Unit, SameOutcome, Join;
    UnitOfPrefix(order, a, b);
    Utf16Plain(order, a);
    Utf16Plain(order, a + b);
    SplitAfter([Unit(order, a)], 2, Utf16Decode(order, a[2..] + b), Utf16Decode(order, a[2..]), |a| - 2,
               Utf16Decode(order, b));
  }

  lemma PairInBoth(order: ByteOrder, a: Bytes, b: Bytes)
    requires |a| >= 4 && HighSurrogate(Unit(order, a)) && LowSurrogate(Unit(order, a[2..]))
    requires Utf16Cuts(order, a[4..], b)
    ensures Utf16Cuts(order, a, b)
  {
    hide Utf16Decode, Unit, PairPoint, SameOutcome, Join;
    UnitOfPrefix(order, a, b);
    UnitOfPrefix(order, a[2..], b);
    Utf16Pair(order, a);
    Utf16Pair(order, a + b);
    SplitAfter([PairPoint(Unit(order, a), Unit(order, a[2..]))], 4, Utf16Decode(order, a[4..] + b),
               Utf16Decode(order, a[4..]), |a| - 4, Utf16Decode(order, b));
  }

  /** A decode may be cut in two before any unit that is not a low surrogate. */
  lemma {:induction false} Utf16Split(order: ByteOrder, a: Bytes, b: Bytes)
    requires |a| % 2 == 0
    requires b == [] || (|b| >= 2 && !LowSurrogate(Unit(order, b)))
    ensures Utf16Cuts(order, a, b)
  {
    if a == [] {
      assert a + b == b;
    } else {
      hide Utf16Decode, Unit, Utf16Cuts;
      var u := Unit(order, a);
      if !HighSurrogate(u) && !LowSurrogate(u) {
        Utf16Split(order, a[2..], b);
        PlainInBoth(order, a, b);
      } else if HighSurrogate(u) && |a| >= 4 && LowSurrogate(Unit(order, a[2..])) {
        Utf16Split(order, a[4..], b);
        PairInBoth(order, a, b);
      } else {
        LoneInBoth(order, a, b);
      }
    }
  }

  lemma LoneInBoth(order: ByteOrder, a: Bytes, b: Bytes)
    requires |a| >= 2 && |a| % 2 == 0
    requires b == [] || (|b| >= 2 && !LowSurrogate(Unit(order, b)))
    requires || LowSurrogate(Unit(order, a))
             || (HighSurrogate(Unit(order, a)) && (|a| < 4 || !LowSurrogate(Unit(order, a[2..]))))
    ensures Utf16Cuts(order, a, b)
  {
    hide Utf16Decode, Unit;
    UnitOfPrefix(order, a, b);
    if |a| == 2 {
      assert a[2..] + b == b;
    } else {
      UnitOfPrefix(order, a[2..], b);
    }
    Utf16Lone(order, a);
    Utf16Lone(order, a + b);
  }

  /** The two bytes that encode a unit below 0x80. */
  function UnitBytes(order: ByteOrder, u: Byte): Bytes {
    if order.Little? then [u, 0] else [0, u]
  }

  predicate UnitAt(order: ByteOrder, s: Bytes, i: int, u: Byte) {
    0 <= i <= |s| - 2 && i % 2 == 0 && s[i] == UnitBytes(order, u)[0] && s[i + 1] == UnitBytes(order, u)[1]
  }

  /** Does the unit `u` occur in `s` on an even offset? */
  ghost predicate HasUnit(order: ByteOrder, s: Bytes, u: Byte) {
    exists i :: UnitAt(order, s, i, u)
  }

  lemma HasUnitShift(order: ByteOrder, s: Bytes, n: nat, u: Byte)
    requires n % 2 == 0 && n <= |s|
    requires HasUnit(order, s[n..], u)
    ensures HasUnit(order, s, u)
  {
    var i :| UnitAt(order, s[n..], i, u);
    assert UnitAt(order, s, n + i, u);
  }

  /** How many bytes the first decoded character took, and which character it was. */
  lemma Utf16Step(order: ByteOrder, s: Bytes) returns (n: nat, c: CodePoint)
    requires s != [] && Utf16Decode(order, s).Decoded?
    ensures n in {2, 4} && n <= |s|
    ensures Utf16Decode(order, s[n..]).Decoded?
    ensures Utf16Decode(order, s).text == [c] + Utf16Decode(order, s[n..]).text
    ensures if n == 2 then c == Unit(order, s) else c >= 0x1_0000 && LowSurrogate(Unit(order, s[2..]))
  {
    var u := Unit(order, s);
    if HighSurrogate(u) {
      n, c := 4, PairPoint(u, Unit(order, s[2..]));
    } else {
      n, c := 2, u;
    }
  }

  /** A control character is decoded from its own aligned unit alone. */
  lemma {:induction false} Utf16Control(order: ByteOrder, s: Bytes, u: CodePoint)
    requires u < 0x80
    requires Utf16Decode(order, s).Decoded?
    requires u in Utf16Decode(order, s).text
    ensures HasUnit(order, s, u)
    decreases |s|
  {
    var n, c := Utf16Step(order, s);
    if c == u {
      assert UnitAt(order, s, 0, u);
    } else {
      Utf16Control(order, s[n..], u);
      HasUnitShift(order, s, n, u);
    }
  }

  lemma UnitIsControl(order: ByteOrder, s: Bytes, u: Byte)
    requires |s| >= 2 && Unit(order, s) == u < 0x80
    ensures UnitAt(order, s, 0, u)
  {
  }

  lemma UnitFurtherOn(order: ByteOrder, s: Bytes, n: nat, i: int, u: Byte)
    requires n % 2 == 0 && n <= |s| && UnitAt(order, s[n..], i, u)
    ensures UnitAt(order, s, n + i, u)
  {
  }

  lemma Utf16Nothing(order: ByteOrder, s: Bytes)
    requires s == []
    ensures Utf16Decode(order, s) == Decoded([])
  {
  }

  /** Decoding fails on an odd length; a final control character is the final unit. */
  lemma {:induction false} Utf16Last(order: ByteOrder, s: Bytes, u: Byte)
    requires u < 0x80
    requires Utf16Decode(order, s).Decoded?
    ensures |s| % 2 == 0
    ensures Utf16Decode(order, s).text == [] <==> s == []
    ensures s != [] && Utf16Decode(order, s).text[|Utf16Decode(order, s).text| - 1] == u
      ==> UnitAt(order, s, |s| - 2, u)
    decreases |s|
  {
    hide Utf16Decode, Unit, UnitAt;
    if s == [] {
      Utf16Nothing(order, s);
    } else {
      var n, c := Utf16Step(order, s);
      var rest := Utf16Decode(order, s[n..]).text;
      Utf16Last(order, s[n..], u);
      if s[n..] == [] {
        assert rest == [];
        if c == u {
          UnitIsControl(order, s, u);
        }
      } else {
        assert ([c] + rest)[|[c] + rest| - 1] == rest[|rest| - 1];
        if rest[|rest| - 1] == u {
          UnitFurtherOn(order, s, n, |s| - n - 2, u);
        }
      }
    }
  }
}
