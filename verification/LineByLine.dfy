/**
 Decoding a stream line by line agrees with decoding it as a whole: neither the cut at
 each newline nor the removed carriage returns change what the strict decoder accepts.
 */
module LineByLine {
  import opened Core
  import opened Unicode
  import opened Decoding

  /** A UTF encoding; `marked` is the codec that takes its byte order from the mark. */
  datatype Encoding = Utf8 | Utf16(order: ByteOrder, marked: bool) {
    function Format(): LineFormat {
      if Utf8? then Narrow else Wide(order)
    }
  }

  predicate HasUtf8Mark(s: Bytes) {
    |s| >= 3 && s[0] == 0xEF && s[1] == 0xBB && s[2] == 0xBF
  }

  /** `bytes.decode` as the line decoder calls it: a mark is dropped on the first line only.
      The UTF-8 decoder then reports positions relative to the bytes after the mark. */
  function Strict(enc: Encoding, first: bool, s: Bytes): Decoded {
    match enc
    case Utf8 => if first && HasUtf8Mark(s) then Utf8Decode(s[3..]) else Utf8Decode(s)
    case Utf16(order, marked) =>
      if first && marked && MarkedOrder(s) == Some(order) then Join(Decoded([]), 2, Utf16Decode(order, s[2..]))
      else Utf16Decode(order, s)
  }

  function StrictCodec(enc: Encoding): Codec {
    (first, content) => Strict(enc, first, content)
  }

  /** How many bytes of `s` the decoder's positions count. */
  function Counted(enc: Encoding, first: bool, s: Bytes): nat {
    if enc.Utf8? && first && HasUtf8Mark(s) then |s| - 3 else |s|
  }

  predicate StartsWithControl(fmt: LineFormat, b: Bytes) {
    fmt.ControlAt(b, 0, LF) || fmt.ControlAt(b, 0, CR)
  }

  /** A strict decode may be cut before any line feed or carriage return. */
  lemma StrictSplit(enc: Encoding, first: bool, a: Bytes, b: Bytes)
    requires enc.Format().Aligned(|a|)
    requires StartsWithControl(enc.Format(), b)
    ensures SameOutcome(Strict(enc, first, a + b),
                        Join(Strict(enc, first, a), Counted(enc, first, a), Strict(enc, false, b)))
  {
    match enc {
      case Utf8 =>
        if |a| < 3 {
          assert (a + b)[|a|] == b[0];
        }
        assert HasUtf8Mark(a + b) <==> HasUtf8Mark(a);
        if first && HasUtf8Mark(a) {
          assert (a + b)[3..] == a[3..] + b;
          Utf8Split(a[3..], b);
        } else {
          Utf8Split(a, b);
        }
      case Utf16(order, marked) =>
        if first && marked && MarkedOrder(a) == Some(order) {
          assert MarkedOrder(a + b) == Some(order);
          assert (a + b)[2..] == a[2..] + b;
          Utf16Split(order, a[2..], b);
          JoinAssociates(Decoded([]), 2, Utf16Decode(order, a[2..]), |a| - 2, Utf16Decode(order, b));
        } else {
          if a == [] {
            assert a + b == b;
          }
          Utf16Split(order, a, b);
        }
    }
  }

  lemma ControlDecodes(enc: Encoding, u: Byte, rest: Bytes)
    requires u == LF || u == CR
    ensures Strict(enc, false, enc.Format().ControlUnit(u) + rest)
         == Join(Decoded([u]), enc.Format().Width(), Strict(enc, false, rest))
  {
    var s := enc.Format().ControlUnit(u) + rest;
    assert s[enc.Format().Width()..] == rest;
  }

  /** Bytes of the mark that the decoder drops. */
  function Dropped(enc: Encoding, first: bool, s: Bytes): (n: nat)
    ensures n <= |s|
  {
    match enc
    case Utf8 => if first && HasUtf8Mark(s) then 3 else 0
    case Utf16(order, marked) => if first && marked && MarkedOrder(s) == Some(order) then 2 else 0
  }

  lemma StrictIsDecode(enc: Encoding, first: bool, s: Bytes)
    ensures var rest := s[Dropped(enc, first, s)..];
      match enc
      case Utf8 => Strict(enc, first, s) == Utf8Decode(rest)
      case Utf16(order, _) =>
        && Strict(enc, first, s) == Join(Decoded([]), Dropped(enc, first, s), Utf16Decode(order, rest))
        && (Utf16Decode(order, rest).Decoded? ==> Strict(enc, first, s) == Utf16Decode(order, rest))
  {
    assert s[0..] == s;
  }

  /** Where the decoded text has a control character, the bytes have its unit. */
  lemma StrictControl(enc: Encoding, first: bool, s: Bytes, u: Byte) returns (i: int)
    requires u == LF || u == CR
    requires Strict(enc, first, s).Decoded? && u in Strict(enc, first, s).text
    ensures enc.Format().ControlAt(s, i, u)
  {
    hide Strict;
    hide Utf8Decode;
    hide Utf16Decode;
    var n := Dropped(enc, first, s);
    var rest := s[n..];
    StrictIsDecode(enc, first, s);
    match enc {
      case Utf8 =>
        Utf8Control(rest, u);
        var j :| 0 <= j < |rest| && rest[j] == u;
        i := n + j;
        assert s[i] == u;
      case Utf16(order, marked) =>
        Utf16Control(order, rest, u);
        var j :| UnitAt(order, rest, j, u);
        i := n + j;
        assert UnitAt(order, s, i, u);
    }
  }

  /** A final control character is decoded from the final unit. */
  lemma StrictLast(enc: Encoding, first: bool, s: Bytes, u: Byte)
    requires u == LF || u == CR
    requires Strict(enc, first, s).Decoded?
    ensures enc.Format().Aligned(|s|)
    ensures Strict(enc, first, s).text == [] <==> |s| == Dropped(enc, first, s)
    ensures var text := Strict(enc, first, s).text;
      text != [] && text[|text| - 1] == u ==> enc.Format().ControlAt(s, |s| - enc.Format().Width(), u)
  {
    hide Strict;
    hide Utf8Decode;
    hide Utf16Decode;
    var rest := s[Dropped(enc, first, s)..];
    StrictIsDecode(enc, first, s);
    match enc {
      case Utf8 =>
        Utf8Control(rest, u);
        if Utf8Decode(rest).text == [] {
          Utf8DecodesToNothing(rest);
        }
      case Utf16(order, marked) =>
        Utf16Last(order, rest, u);
    }
  }

  // ------------------------------------------------------ text lines

  function IndexOf(t: Text, c: CodePoint): (i: nat)
    ensures i <= |t|
  {
    if t == [] || t[0] == c then 0 else 1 + IndexOf(t[1..], c)
  }

  /** A text split at U+000A, with one carriage return stripped from each terminated line
      and no line for an empty remainder. */
  function TextLines(t: Text): seq<Text> {
    var i := IndexOf(t, LF);
    if i < |t| then
      [if i > 0 && t[i - 1] == CR then t[..i - 1] else t[..i]] + TextLines(t[i + 1..])
    else if t == [] then [] else [t]
  }

  lemma {:induction false} IndexOfFirst(t: Text, c: CodePoint, rest: Text)
    requires c !in t
    ensures IndexOf(t, c) == |t|
    ensures IndexOf(t + [c] + rest, c) == |t|
  {
    if t != [] {
      IndexOfFirst(t[1..], c, rest);
      assert (t + [c] + rest)[1..] == t[1..] + [c] + rest;
    }
  }

  lemma TextLinesCut(line: Text, rest: Text)
    requires LF !in line
    ensures TextLines(line + [LF] + rest) ==
      [if line != [] && line[|line| - 1] == CR then line[..|line| - 1] else line] + TextLines(rest)
  {
    var t := line + [LF] + rest;
    IndexOfFirst(line, LF, rest);
    hide IndexOf;
    assert t[..|line|] == line && t[|line| + 1..] == rest;
    if line != [] {
      assert t[|line| - 1] == line[|line| - 1];
      assert t[..|line| - 1] == line[..|line| - 1];
    }
  }

  lemma TextLinesStep(content: Text, cr: bool, rest: Text)
    requires LF !in content
    requires cr || content == [] || content[|content| - 1] != CR
    ensures TextLines(content + (if cr then [CR] else []) + [LF] + rest) == [content] + TextLines(rest)
  {
    hide TextLines;
    if cr {
      var line := content + [CR];
      TextLinesCut(line, rest);
      assert line[..|line| - 1] == content;
    } else {
      TextLinesCut(content, rest);
      assert content + [] == content;
    }
  }

  function Numbered(texts: seq<Text>, number: LineNumber): seq<DecodedLine> {
    if texts == [] then [] else [DecodedLine(number, texts[0])] + Numbered(texts[1..], number + 1)
  }

  // ----------------------------------------------------- the theorem

  /** No line's content exceeds the limit. */
  ghost predicate WithinLimit(fmt: LineFormat, s: Bytes, limit: nat) {
    forall k :: 0 <= k < LineCount(Pieces(fmt, s)) ==> |ContentOf(fmt, Pieces(fmt, s), k)| <= limit
  }

  lemma WithinLimitStep(fmt: LineFormat, s: Bytes, limit: nat)
    requires WithinLimit(fmt, s, limit)
    ensures match FirstNewline(fmt, s, 0)
      case None => |s| <= limit
      case Some(i) => |StripCR(fmt, s[..i])| <= limit && WithinLimit(fmt, s[i + fmt.Width()..], limit)
  {
    PiecesStep(fmt, s);
    hide Pieces, FirstNewline, StripCR;
    var pieces := Pieces(fmt, s);
    match FirstNewline(fmt, s, 0) {
      case None =>
        assert s != [] ==> |ContentOf(fmt, pieces, 0)| <= limit;
      case Some(i) =>
        var tail := Pieces(fmt, s[i + fmt.Width()..]);
        assert |ContentOf(fmt, pieces, 0)| <= limit;
        forall k | 0 <= k < LineCount(tail) ensures |ContentOf(fmt, tail, k)| <= limit {
          assert ContentOf(fmt, pieces, k + 1) == ContentOf(fmt, tail, k);
        }
    }
  }

  /** The lines of a decoded stream.  A mark with nothing after it is one empty line. */
  function LinesOf(s: Bytes, text: Text): seq<Text> {
    if text == [] && s != [] then [[]] else TextLines(text)
  }

  /** The run agrees with the whole decode: same lines, or failure at the same byte.
      Positions in the whole of a marked UTF-8 stream leave out the mark's three bytes; a
      position on any line but the first does not. */
  ghost predicate Agrees(run: Run, enc: Encoding, s: Bytes, start: nat, number: LineNumber) {
    match Strict(enc, number == 1, s)
    case Decoded(text) => run == Run(Numbered(LinesOf(s, text), number), None)
    case Undecodable(at, _) =>
      && run.error.Some?
      && run.error.value.fault in {InvalidSequence, IncompleteSequence}
      && run.error.value.lineNumber >= number
      && run.error.value.byteOffset ==
         start + at + if run.error.value.lineNumber > number then |s| - Counted(enc, number == 1, s) else 0
  }

  lemma AgreesOnLastLine(enc: Encoding, s: Bytes, start: nat, number: LineNumber, limit: nat)
    requires FirstNewline(enc.Format(), s, 0).None? && |s| <= limit
    ensures Agrees(LineRun(enc.Format(), StrictCodec(enc), s, start, number, limit), enc, s, start, number)
  {
    var whole := Strict(enc, number == 1, s);
    if s == [] {
      assert whole == Decoded([]);
    } else if whole.Decoded? {
      assert LF !in whole.text by {
        FirstNewlineIsFirst(enc.Format(), s, 0);
        if LF in whole.text {
          var i := StrictControl(enc, number == 1, s, LF);
        }
      }
      IndexOfFirst(whole.text, LF, []);
      assert LinesOf(s, whole.text) == [whole.text];
    }
  }

  /** What follows the content of a terminated line. */
  function Terminator(enc: Encoding, cr: bool): Bytes {
    (if cr then enc.Format().ControlUnit(CR) else []) + enc.Format().ControlUnit(LF)
  }

  function TerminatorText(cr: bool): Text {
    (if cr then [CR] else []) + [LF]
  }

  /** The whole decode, cut around the terminator of its first line. */
  lemma CutAroundTerminator(enc: Encoding, first: bool, content: Bytes, cr: bool, rest: Bytes)
    requires enc.Format().Aligned(|content|)
    ensures SameOutcome(
      Strict(enc, first, content + Terminator(enc, cr) + rest),
      Join(Strict(enc, first, content), Counted(enc, first, content),
           Join(Decoded(TerminatorText(cr)), |Terminator(enc, cr)|, Strict(enc, false, rest))))
    ensures |content + Terminator(enc, cr) + rest| - Counted(enc, first, content + Terminator(enc, cr) + rest)
         == |content| - Counted(enc, first, content)
  {
    hide Strict, HasUtf8Mark;
    var fmt := enc.Format();
    var lf := fmt.ControlUnit(LF) + rest;
    var tail := Terminator(enc, cr) + rest;
    ControlDecodes(enc, LF, rest);
    if cr {
      assert tail == fmt.ControlUnit(CR) + lf;
      ControlDecodes(enc, CR, lf);
      JoinAssociates(Decoded([CR]), fmt.Width(), Decoded([LF]), fmt.Width(), Strict(enc, false, rest));
    } else {
      assert tail == lf;
    }
    assert content + Terminator(enc, cr) + rest == content + tail;
    TerminatorStarts(enc, cr, rest);
    StrictSplit(enc, first, content, tail);
    MarkBeforeControl(enc, content, tail);
  }

  lemma TerminatorStarts(enc: Encoding, cr: bool, rest: Bytes)
    ensures StartsWithControl(enc.Format(), Terminator(enc, cr) + rest)
  {
    var tail := Terminator(enc, cr) + rest;
    assert tail[0] == (if cr then enc.Format().ControlUnit(CR) else enc.Format().ControlUnit(LF))[0];
  }

  /** A mark does not reach into a terminator. */
  lemma MarkBeforeControl(enc: Encoding, content: Bytes, tail: Bytes)
    requires StartsWithControl(enc.Format(), tail)
    ensures enc.Utf8? ==> (HasUtf8Mark(content + tail) <==> HasUtf8Mark(content))
  {
    if |content| < 3 {
      assert (content + tail)[|content|] == tail[0];
    }
  }

  /** A terminated line: what was cut off, and what its content can therefore not hold. */
  lemma FirstLineCut(enc: Encoding, s: Bytes, i: nat) returns (content: Bytes, cr: bool, rest: Bytes)
    requires FirstNewline(enc.Format(), s, 0) == Some(i)
    ensures content == StripCR(enc.Format(), s[..i])
    ensures rest == s[i + enc.Format().Width()..]
    ensures s == content + Terminator(enc, cr) + rest
    ensures enc.Format().Aligned(|content|)
    ensures forall j :: !enc.Format().ControlAt(content, j, LF)
    ensures cr || !enc.Format().ControlAt(content, |content| - enc.Format().Width(), CR)
  {
    var fmt := enc.Format();
    var raw := s[..i];
    NewlineCuts(fmt, s, i);
    content, rest := StripCR(fmt, raw), s[i + fmt.Width()..];
    cr := fmt.ControlAt(raw, |raw| - fmt.Width(), CR);
    FirstIsAligned(fmt, s, i);
    CarriageReturnCut(fmt, raw);
    hide StripCR, FirstNewline, HoldsNoNewline;
    assert raw == content + if cr then fmt.ControlUnit(CR) else [];
    assert raw + fmt.ControlUnit(LF) + rest == content + Terminator(enc, cr) + rest;
  }

  lemma FirstIsAligned(fmt: LineFormat, s: Bytes, i: nat)
    requires FirstNewline(fmt, s, 0) == Some(i)
    ensures fmt.Aligned(i)
  {
    FirstNewlineIsFirst(fmt, s, 0);
  }

  /** A line is its content and at most one carriage return. */
  lemma CarriageReturnCut(fmt: LineFormat, raw: Bytes)
    requires fmt.Aligned(|raw|) && HoldsNoNewline(fmt, raw)
    ensures var content := StripCR(fmt, raw);
      var cr := fmt.ControlAt(raw, |raw| - fmt.Width(), CR);
      && raw == content + (if cr then fmt.ControlUnit(CR) else [])
      && fmt.Aligned(|content|)
      && (forall j :: !fmt.ControlAt(content, j, LF))
      && (cr || !fmt.ControlAt(content, |content| - fmt.Width(), CR))
  {
    var content := StripCR(fmt, raw);
    var w := |raw| - fmt.Width();
    if fmt.ControlAt(raw, w, CR) {
      assert raw[w..] == fmt.ControlUnit(CR);
      assert raw == content + raw[w..];
      forall j ensures !fmt.ControlAt(content, j, LF) {
        assert !fmt.ControlAt(raw, j, LF);
      }
    } else {
      assert content == raw;
    }
  }

  lemma AgreesStep(enc: Encoding, s: Bytes, content: Bytes, cr: bool, rest: Bytes,
                   start: nat, number: LineNumber, text: Text, run: Run)
    requires s == content + Terminator(enc, cr) + rest
    requires enc.Format().Aligned(|content|)
    requires forall j :: !enc.Format().ControlAt(content, j, LF)
    requires cr || !enc.Format().ControlAt(content, |content| - enc.Format().Width(), CR)
    requires Strict(enc, number == 1, content) == Decoded(text)
    requires Agrees(run, enc, rest, start + |content| + |Terminator(enc, cr)|, number + 1)
    ensures Agrees(Prepend([DecodedLine(number, text)], run), enc, s, start, number)
  {
    hide Strict;
    hide TextLines;
    var first := number == 1;
    CutAroundTerminator(enc, first, content, cr, rest);
    assert Counted(enc, false, rest) == |rest|;
    match Strict(enc, false, rest) {
      case Undecodable(at, _) =>
      case Decoded(more) =>
        StrictLast(enc, false, rest, LF);
        assert LinesOf(rest, more) == TextLines(more);
        StrictLast(enc, first, content, CR);
        if LF in text {
          var j := StrictControl(enc, first, content, LF);
        }
        TextLinesStep(text, cr, more);
        assert text + TerminatorText(cr) + more == text + (if cr then [CR] else []) + [LF] + more;
        assert text + (TerminatorText(cr) + more) == text + TerminatorText(cr) + more;
        var lines := [text] + TextLines(more);
        assert lines[1..] == TextLines(more);
        assert Numbered(lines, number) == [DecodedLine(number, text)] + Numbered(TextLines(more), number + 1);
    }
  }

  lemma {:induction false} AgreesFrom(enc: Encoding, s: Bytes, start: nat, number: LineNumber, limit: nat)
    requires WithinLimit(enc.Format(), s, limit)
    ensures Agrees(LineRun(enc.Format(), StrictCodec(enc), s, start, number, limit), enc, s, start, number)
    decreases |s|
  {
    hide LineRun;
    hide Strict;
    var fmt := enc.Format();
    WithinLimitStep(fmt, s, limit);
    match FirstNewline(fmt, s, 0) {
      case None => AgreesOnLastLine(enc, s, start, number, limit);
      case Some(i) =>
        var content, cr, rest := FirstLineCut(enc, s, i);
        var n := i + fmt.Width();
        LineRunStep(fmt, StrictCodec(enc), s, start, number, limit, i, i + fmt.Width());
        CutAroundTerminator(enc, number == 1, content, cr, rest);
        assert |content| + |Terminator(enc, cr)| == n;
        match Strict(enc, number == 1, content) {
          case Undecodable(_, _) =>
          case Decoded(text) =>
            AgreesFrom(enc, rest, start + n, number + 1, limit);
            AgreesStep(enc, s, content, cr, rest, start, number, text,
                       LineRun(fmt, StrictCodec(enc), rest, start + n, number + 1, limit));
        }
    }
  }

  // ------------------------------------------------------- the codecs

  /** The Unicode codecs by name; `utf-16` takes its byte order from the mark. */
  datatype UtfCodec = Utf8Codec | Utf16Codec(encoding: Decoding.Utf16)

  /** The strict decoders of a UTF-16 codec, for each byte order. */
  function OrderCodec(encoding: Decoding.Utf16): ByteOrder -> Codec {
    order => StrictCodec(Utf16(order, encoding.Detected?))
  }

  /** The run that the line decoder makes over a whole stream. */
  function StreamRun(codec: UtfCodec, s: Bytes, limit: nat): Run {
    match codec
    case Utf8Codec => LineRun(Narrow, StrictCodec(Utf8), s, 0, 1, limit)
    case Utf16Codec(encoding) => Utf16Run(encoding, OrderCodec(encoding), s, limit)
  }

  /** How `bytes.decode` reads the whole stream: without a mark, little-endian. */
  function EncodingOf(codec: UtfCodec, s: Bytes): Encoding {
    match codec
    case Utf8Codec => Utf8
    case Utf16Codec(encoding) => Utf16(StreamOrder(encoding, s), encoding.Detected?)
  }

  function WholeDecode(codec: UtfCodec, s: Bytes): Decoded {
    Strict(EncodingOf(codec, s), true, s)
  }

  /** The line decoder insists on a mark where the byte order is to be read from one. */
  predicate OrderKnown(codec: UtfCodec, s: Bytes) {
    codec == Utf16Codec(Detected) && |s| >= 2 ==> MarkedOrder(s).Some?
  }

  ghost predicate LinesFit(codec: UtfCodec, s: Bytes, limit: nat) {
    WithinLimit(EncodingOf(codec, s).Format(), s, limit)
  }

  lemma KnownRun(codec: UtfCodec, s: Bytes, limit: nat)
    ensures var enc := EncodingOf(codec, s);
      if OrderKnown(codec, s) then StreamRun(codec, s, limit) == LineRun(enc.Format(), StrictCodec(enc), s, 0, 1, limit)
      else StreamRun(codec, s, limit) == Run([], Some(DecodeError(MissingByteOrderMark, 0, 1)))
  {
    hide LineRun;
  }

  lemma DecodedLinesFit(fmt: LineFormat, codec: Codec, s: Bytes, limit: nat)
    requires LineRun(fmt, codec, s, 0, 1, limit).error.None?
    ensures WithinLimit(fmt, s, limit)
  {
    hide LineRun, Pieces, StartOf, ContentOf;
    var run := LineRun(fmt, codec, s, 0, 1, limit);
    RunYieldsInOrder(fmt, codec, s, 0, 1, limit);
    forall k | 0 <= k < LineCount(Pieces(fmt, s)) ensures |ContentOf(fmt, Pieces(fmt, s), k)| <= limit {
      assert Success(run.lines[k]) == LineOutcome(fmt, codec, Pieces(fmt, s), k, 0, 1, limit);
    }
  }

  /**
   Decoding line by line succeeds exactly when the byte order is known, no line exceeds the
   limit, and the whole stream decodes.  It then yields the whole text split at U+000A with
   one carriage return stripped per terminated line; when only the decode fails, both fail
   at the same byte.
   */
  lemma LineByLineAgrees(codec: UtfCodec, s: Bytes, limit: nat)
    ensures var run := StreamRun(codec, s, limit);
      && (run.error.None? <==> OrderKnown(codec, s) && LinesFit(codec, s, limit) && WholeDecode(codec, s).Decoded?)
      && (OrderKnown(codec, s) && LinesFit(codec, s, limit) ==> Agrees(run, EncodingOf(codec, s), s, 0, 1))
      && (!OrderKnown(codec, s) ==> run == Run([], Some(DecodeError(MissingByteOrderMark, 0, 1))))
  {
    hide LineRun, Utf16Run, Strict, StreamRun, WithinLimit;
    var enc := EncodingOf(codec, s);
    KnownRun(codec, s, limit);
    if OrderKnown(codec, s) {
      if LinesFit(codec, s, limit) {
        AgreesFrom(enc, s, 0, 1, limit);
      } else if StreamRun(codec, s, limit).error.None? {
        DecodedLinesFit(enc.Format(), StrictCodec(enc), s, limit);
      }
    }
  }

  /** The byte-order mark, as a character. */
  const MARK: CodePoint := 0xFEFF

  lemma MarkBytes(rest: Bytes)
    ensures EncodePoint(MARK) == [0xEF, 0xBB, 0xBF] && HasUtf8Mark(EncodePoint(MARK) + rest)
    ensures (EncodePoint(MARK) + rest)[3..] == rest
    ensures forall order :: MarkedOrder(UnitCode(order, MARK) + rest) == Some(order)
    ensures forall order :: (UnitCode(order, MARK) + rest)[2..] == rest
  {
  }

  lemma OnlyMarkHasMark(t: Text)
    requires Encodable(t) && HasUtf8Mark(Utf8Encode(t))
    ensures t != [] && t[0] == MARK
  {
    EncodePointIsHead(t[0], Utf8Encode(t[1..]));
    assert Utf8Point(Utf8Encode(t)) == MARK;
  }

  /** Every text is read back from its encoding, with a mark or without one where none is
      needed; a UTF-16 mark announces the order it is written in. */
  lemma EncodedTextDecodes(t: Text, order: ByteOrder)
    requires Encodable(t)
    ensures WholeDecode(Utf8Codec, EncodePoint(MARK) + Utf8Encode(t)) == Decoded(t)
    ensures t == [] || t[0] != MARK ==> WholeDecode(Utf8Codec, Utf8Encode(t)) == Decoded(t)
    ensures WholeDecode(Utf16Codec(Fixed(order)), Utf16Encode(order, t)) == Decoded(t)
    ensures var s := UnitCode(order, MARK) + Utf16Encode(order, t);
      OrderKnown(Utf16Codec(Detected), s) && WholeDecode(Utf16Codec(Detected), s) == Decoded(t)
  {
    hide Utf8Decode, Utf16Decode, Utf8Encode, Utf16Encode, EncodePoint, UnitCode, HasUtf8Mark, MarkedOrder;
    Utf8RoundTrip(t);
    Utf16RoundTrip(order, t);
    MarkBytes(Utf8Encode(t));
    MarkBytes(Utf16Encode(order, t));
    if HasUtf8Mark(Utf8Encode(t)) {
      OnlyMarkHasMark(t);
    }
  }

  /** So `utf-16` refuses a stream that `bytes.decode` reads, if it has no mark. */
  lemma UnmarkedIsRefused(limit: nat)
    ensures var s: Bytes := [0x41, 0x00];
      && WholeDecode(Utf16Codec(Detected), s) == Decoded([0x41])
      && StreamRun(Utf16Codec(Detected), s, limit) == Run([], Some(DecodeError(MissingByteOrderMark, 0, 1)))
  {
    var s: Bytes := [0x41, 0x00];
    assert s[2..] == [];
    assert Utf16Decode(Little, s) == Decoded([0x41]);
  }

  /** The offset of a fault leaves out the mark of a UTF-8 stream exactly when the fault is
      on the marked first line. */
  lemma OffsetLeavesOutMark(s: Bytes, limit: nat)
    requires LinesFit(Utf8Codec, s, limit) && WholeDecode(Utf8Codec, s).Undecodable?
    ensures var run := StreamRun(Utf8Codec, s, limit);
      && run.error.Some?
      && (run.error.value.byteOffset == Dropped(Utf8, true, s) + WholeDecode(Utf8Codec, s).at
          <==> !HasUtf8Mark(s) || run.error.value.lineNumber > 1)
  {
    LineByLineAgrees(Utf8Codec, s, limit);
    hide StreamRun, WithinLimit;
  }

  /** The bad byte is at offset 3, and is reported at offset 0. */
  lemma MarkedOffsetIsShort(limit: nat)
    requires limit >= 4
    ensures var s: Bytes := [0xEF, 0xBB, 0xBF, 0xFF];
      StreamRun(Utf8Codec, s, limit) == Run([], Some(DecodeError(InvalidSequence, 0, 1)))
  {
    var s: Bytes := [0xEF, 0xBB, 0xBF, 0xFF];
    FirstNewlineIsFirst(Narrow, s, 0);
    assert FirstNewline(Narrow, s, 0) == None;
    assert s[3..] == [0xFF];
    assert Utf8Decode([0xFF]) == Undecodable(0, false);
  }

  /** The one stream whose lines are not simply its text split: a mark and nothing else. */
  lemma MarkAloneIsOneLine(enc: Encoding, s: Bytes)
    requires Strict(enc, true, s).Decoded?
    ensures LinesOf(s, Strict(enc, true, s).text) != TextLines(Strict(enc, true, s).text)
      <==> s != [] && |s| == Dropped(enc, true, s)
  {
    StrictLast(enc, true, s, LF);
  }
}
