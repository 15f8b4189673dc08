/**
 Line decoding.  `LineRun` says what a run over a whole stream must yield; the two
 chunked loops, which delete from their buffer in place and skip what they have already
 searched, are proved to compute it for every way the stream may arrive.
 */
module Decoding {
  import opened Core
  import opened Unicode

  datatype DecodedLine = DecodedLine(number: LineNumber, text: Text)

  datatype Fault = LineTooLong | InvalidSequence | IncompleteSequence | MissingByteOrderMark

  datatype DecodeError = DecodeError(fault: Fault, byteOffset: nat, lineNumber: LineNumber)

  /** What a generator run shows its consumer: lines, then possibly one final error. */
  datatype Run = Run(lines: seq<DecodedLine>, error: Option<DecodeError>)

  /** Strict decoding of one line's content; the flag marks the first line of the stream. */
  type Codec = (bool, Bytes) -> Decoded

  /** How a line ends: at a byte, or at a 16-bit unit on an even offset. */
  datatype LineFormat = Narrow | Wide(order: ByteOrder) {

    function Width(): (w: nat)
      ensures w == |ControlUnit(LF)| == |ControlUnit(CR)|
    {
      if Narrow? then 1 else 2
    }

    /** The bytes of a control character. */
    function ControlUnit(u: Byte): Bytes {
      if Narrow? then [u] else UnitBytes(order, u)
    }

    /** Does the control character `u` stand at offset `i`? */
    predicate ControlAt(s: Bytes, i: int, u: Byte) {
      if Narrow? then 0 <= i < |s| && s[i] == u else UnitAt(order, s, i, u)
    }

    predicate Aligned(i: int) {
      Narrow? || i % 2 == 0
    }
  }

  /** Least newline offset at or after `from`. */
  function FirstNewline(fmt: LineFormat, s: Bytes, from: nat): (at: Option<nat>)
    requires fmt.Aligned(from)
    ensures at.Some? ==> from <= at.value && at.value + fmt.Width() <= |s|
    decreases |s| - from
  {
    if from + fmt.Width() > |s| then None
    else if fmt.ControlAt(s, from, LF) then Some(from)
    else FirstNewline(fmt, s, from + fmt.Width())
  }

  lemma {:induction false} FirstNewlineIsFirst(fmt: LineFormat, s: Bytes, from: nat)
    requires fmt.Aligned(from)
    ensures match FirstNewline(fmt, s, from)
      case None => forall i :: from <= i ==> !fmt.ControlAt(s, i, LF)
      case Some(at) => fmt.ControlAt(s, at, LF) && forall i :: from <= i < at ==> !fmt.ControlAt(s, i, LF)
    decreases |s| - from
  {
    if from + fmt.Width() <= |s| && !fmt.ControlAt(s, from, LF) {
      FirstNewlineIsFirst(fmt, s, from + fmt.Width());
    }
  }

  /** One trailing carriage return, if there is one, is not part of a terminated line. */
  function StripCR(fmt: LineFormat, raw: Bytes): (content: Bytes) {
    if fmt.ControlAt(raw, |raw| - fmt.Width(), CR) then raw[..|raw| - fmt.Width()] else raw
  }

  /** The limit check and the strict decode of one line. */
  function DecodeLine(codec: Codec, content: Bytes, start: nat, number: LineNumber, limit: nat)
    : (r: Result<DecodedLine, DecodeError>)
  {
    if |content| > limit then
      Failure(DecodeError(LineTooLong, start + limit, number))
    else
      match codec(number == 1, content)
      case Decoded(text) => Success(DecodedLine(number, text))
      case Undecodable(at, truncated) =>
        Failure(DecodeError(if truncated then IncompleteSequence else InvalidSequence, start + at, number))
  }

  /** The run over `s`, whose first byte is at offset `start` on line `number`. */
  function LineRun(fmt: LineFormat, codec: Codec, s: Bytes, start: nat, number: LineNumber, limit: nat): Run
    decreases |s|
  {
    if s == [] then Run([], None)
    else
      match FirstNewline(fmt, s, 0)
      case None =>
        (match DecodeLine(codec, s, start, number, limit)
         case Failure(e) => Run([], Some(e))
         case Success(line) => Run([line], None))
      case Some(i) =>
        match DecodeLine(codec, StripCR(fmt, s[..i]), start, number, limit)
        case Failure(e) => Run([], Some(e))
        case Success(line) =>
          var n := i + fmt.Width();
          Prepend([line], LineRun(fmt, codec, s[n..], start + n, number + 1, limit))
  }

  /** One step of a run, for proofs that then keep its definition out of sight. */
  lemma LineRunStep(fmt: LineFormat, codec: Codec, s: Bytes, start: nat, number: LineNumber, limit: nat, i: nat, n: nat)
    requires FirstNewline(fmt, s, 0) == Some(i) && n == i + fmt.Width()
    ensures LineRun(fmt, codec, s, start, number, limit) ==
      match DecodeLine(codec, StripCR(fmt, s[..i]), start, number, limit)
      case Failure(e) => Run([], Some(e))
      case Success(line) => Prepend([line], LineRun(fmt, codec, s[n..], start + n, number + 1, limit))
  {
    hide DecodeLine, StripCR, FirstNewline, Prepend;
  }

  function Prepend(lines: seq<DecodedLine>, run: Run): Run {
    Run(lines + run.lines, run.error)
  }

  // ------------------------------------------------- what a run means

  /** The stream cut at every newline; the last piece has no newline after it. */
  function Pieces(fmt: LineFormat, s: Bytes): (pieces: seq<Bytes>)
    ensures |pieces| >= 1
    decreases |s|
  {
    match FirstNewline(fmt, s, 0)
    case None => [s]
    case Some(i) => [s[..i]] + Pieces(fmt, s[i + fmt.Width()..])
  }

  function Rejoin(fmt: LineFormat, pieces: seq<Bytes>): Bytes
    requires |pieces| >= 1
  {
    if |pieces| == 1 then pieces[0]
    else pieces[0] + fmt.ControlUnit(LF) + Rejoin(fmt, pieces[1..])
  }

  ghost predicate HoldsNoNewline(fmt: LineFormat, s: Bytes) {
    forall i :: !fmt.ControlAt(s, i, LF)
  }

  /** A first newline cuts a stream into what it is found after, itself, and the rest. */
  lemma NewlineCuts(fmt: LineFormat, s: Bytes, i: nat)
    requires FirstNewline(fmt, s, 0) == Some(i)
    ensures s == s[..i] + fmt.ControlUnit(LF) + s[i + fmt.Width()..]
    ensures HoldsNoNewline(fmt, s[..i])
  {
    FirstNewlineIsFirst(fmt, s, 0);
    var n := i + fmt.Width();
    assert s[i..n] == fmt.ControlUnit(LF);
    assert s == s[..i] + s[i..n] + s[n..];
    forall j ensures !fmt.ControlAt(s[..i], j, LF) {
      if 0 <= j < i {
        assert !fmt.ControlAt(s, j, LF);
      }
    }
  }

  /** Cutting loses nothing, and leaves no newline inside a piece. */
  lemma {:induction false} PiecesRejoin(fmt: LineFormat, s: Bytes)
    ensures Rejoin(fmt, Pieces(fmt, s)) == s
    ensures forall k :: 0 <= k < |Pieces(fmt, s)| ==> HoldsNoNewline(fmt, Pieces(fmt, s)[k])
    decreases |s|
  {
    match FirstNewline(fmt, s, 0) {
      case None => FirstNewlineIsFirst(fmt, s, 0);
      case Some(i) =>
        NewlineCuts(fmt, s, i);
        hide FirstNewline, HoldsNoNewline;
        var rest := Pieces(fmt, s[i + fmt.Width()..]);
        PiecesRejoin(fmt, s[i + fmt.Width()..]);
        assert Pieces(fmt, s) == [s[..i]] + rest;
        assert Pieces(fmt, s)[1..] == rest;
    }
  }

  /** Lines a stream holds: an empty unterminated remainder is not a line. */
  function LineCount(pieces: seq<Bytes>): nat
    requires |pieces| >= 1
  {
    if pieces[|pieces| - 1] == [] then |pieces| - 1 else |pieces|
  }

  /** Offset at which piece `k` starts. */
  function StartOf(fmt: LineFormat, pieces: seq<Bytes>, k: nat): nat
    requires k <= |pieces|
  {
    if k == 0 then 0 else |pieces[0]| + fmt.Width() + StartOf(fmt, pieces[1..], k - 1)
  }

  /** Only a terminated line gives up a carriage return. */
  function ContentOf(fmt: LineFormat, pieces: seq<Bytes>, k: nat): Bytes
    requires k < |pieces|
  {
    if k + 1 < |pieces| then StripCR(fmt, pieces[k]) else pieces[k]
  }

  /** What decoding line `k` of the cut stream gives. */
  function LineOutcome(fmt: LineFormat, codec: Codec, pieces: seq<Bytes>, k: nat,
                       start: nat, number: LineNumber, limit: nat): Result<DecodedLine, DecodeError>
    requires k < |pieces|
  {
    DecodeLine(codec, ContentOf(fmt, pieces, k), start + StartOf(fmt, pieces, k), number + k, limit)
  }

  /** `run` yields the lines in order, up to the first that fails, which it reports. */
  ghost predicate YieldsInOrder(run: Run, fmt: LineFormat, codec: Codec, pieces: seq<Bytes>,
                                start: nat, number: LineNumber, limit: nat)
    requires |pieces| >= 1
  {
    && |run.lines| <= LineCount(pieces)
    && (forall k :: 0 <= k < |run.lines| ==>
          Success(run.lines[k]) == LineOutcome(fmt, codec, pieces, k, start, number, limit))
    && (match run.error
        case None => |run.lines| == LineCount(pieces)
        case Some(e) =>
          && |run.lines| < LineCount(pieces)
          && Failure(e) == LineOutcome(fmt, codec, pieces, |run.lines|, start, number, limit))
  }

  lemma OutcomeInTail(fmt: LineFormat, codec: Codec, piece: Bytes, tail: seq<Bytes>, k: nat,
                      start: nat, number: LineNumber, limit: nat)
    requires k < |tail|
    ensures LineOutcome(fmt, codec, [piece] + tail, k + 1, start, number, limit)
         == LineOutcome(fmt, codec, tail, k, start + |piece| + fmt.Width(), number + 1, limit)
  {
    assert ([piece] + tail)[1..] == tail;
  }

  lemma FirstOutcome(fmt: LineFormat, codec: Codec, piece: Bytes, tail: seq<Bytes>,
                     start: nat, number: LineNumber, limit: nat)
    requires tail != []
    ensures LineOutcome(fmt, codec, [piece] + tail, 0, start, number, limit)
         == DecodeLine(codec, StripCR(fmt, piece), start, number, limit)
    ensures LineCount([piece] + tail) == LineCount(tail) + 1
  {
  }

  lemma YieldsOneMore(run: Run, fmt: LineFormat, codec: Codec, piece: Bytes, tail: seq<Bytes>, line: DecodedLine,
                      start: nat, number: LineNumber, limit: nat)
    requires tail != []
    requires YieldsInOrder(run, fmt, codec, tail, start + |piece| + fmt.Width(), number + 1, limit)
    requires LineOutcome(fmt, codec, [piece] + tail, 0, start, number, limit) == Success(line)
    ensures YieldsInOrder(Prepend([line], run), fmt, codec, [piece] + tail, start, number, limit)
  {
    var pieces, lines := [piece] + tail, [line] + run.lines;
    forall k | 0 <= k < |lines|
      ensures Success(lines[k]) == LineOutcome(fmt, codec, pieces, k, start, number, limit)
    {
      if k > 0 {
        OutcomeInTail(fmt, codec, piece, tail, k - 1, start, number, limit);
      }
    }
    if run.error.Some? {
      OutcomeInTail(fmt, codec, piece, tail, |run.lines|, start, number, limit);
    }
  }

  lemma YieldsOnlyError(e: DecodeError, fmt: LineFormat, codec: Codec, pieces: seq<Bytes>,
                        start: nat, number: LineNumber, limit: nat)
    requires |pieces| >= 1 && LineCount(pieces) >= 1
    requires LineOutcome(fmt, codec, pieces, 0, start, number, limit) == Failure(e)
    ensures YieldsInOrder(Run([], Some(e)), fmt, codec, pieces, start, number, limit)
  {
  }

  lemma YieldsLast(fmt: LineFormat, codec: Codec, s: Bytes, start: nat, number: LineNumber, limit: nat)
    requires FirstNewline(fmt, s, 0).None?
    ensures YieldsInOrder(LineRun(fmt, codec, s, start, number, limit), fmt, codec, [s], start, number, limit)
  {
    assert LineOutcome(fmt, codec, [s], 0, start, number, limit) == DecodeLine(codec, s, start, number, limit);
  }

  lemma PiecesStep(fmt: LineFormat, s: Bytes)
    ensures match FirstNewline(fmt, s, 0)
      case None => Pieces(fmt, s) == [s]
      case Some(i) => Pieces(fmt, s) == [s[..i]] + Pieces(fmt, s[i + fmt.Width()..])
  {
  }

  lemma YieldsFrom(fmt: LineFormat, codec: Codec, s: Bytes, start: nat, number: LineNumber, limit: nat, i: nat, n: nat)
    requires FirstNewline(fmt, s, 0) == Some(i) && n == i + fmt.Width()
    requires YieldsInOrder(LineRun(fmt, codec, s[n..], start + n, number + 1, limit), fmt, codec,
                           Pieces(fmt, s[n..]), start + n, number + 1, limit)
    ensures YieldsInOrder(LineRun(fmt, codec, s, start, number, limit), fmt, codec,
                          Pieces(fmt, s), start, number, limit)
  {
    hide LineRun, FirstNewline, Pieces, YieldsInOrder, LineOutcome, DecodeLine, StripCR, Prepend;
    var tail := Pieces(fmt, s[n..]);
    PiecesStep(fmt, s);
    LineRunStep(fmt, codec, s, start, number, limit, i, n);
    FirstOutcome(fmt, codec, s[..i], tail, start, number, limit);
    assert start + |s[..i]| + fmt.Width() == start + n;
    match DecodeLine(codec, StripCR(fmt, s[..i]), start, number, limit) {
      case Failure(e) =>
        YieldsOnlyError(e, fmt, codec, [s[..i]] + tail, start, number, limit);
      case Success(line) =>
        var rest := LineRun(fmt, codec, s[n..], start + n, number + 1, limit);
        YieldsOneMore(rest, fmt, codec, s[..i], tail, line, start, number, limit);
    }
  }

  /** A run decodes the pieces of the cut stream in order and stops at the first bad one. */
  lemma {:induction false} RunYieldsInOrder(fmt: LineFormat, codec: Codec, s: Bytes,
                                            start: nat, number: LineNumber, limit: nat)
    ensures YieldsInOrder(LineRun(fmt, codec, s, start, number, limit), fmt, codec,
                          Pieces(fmt, s), start, number, limit)
    decreases |s|
  {
    hide LineRun, FirstNewline, Pieces, YieldsInOrder;
    PiecesStep(fmt, s);
    match FirstNewline(fmt, s, 0) {
      case None => YieldsLast(fmt, codec, s, start, number, limit);
      case Some(i) =>
        var n := i + fmt.Width();
        RunYieldsInOrder(fmt, codec, s[n..], start + n, number + 1, limit);
        YieldsFrom(fmt, codec, s, start, number, limit, i, n);
    }
  }

  /** What the error of a run says: which line it is, that the line is too long or cannot be
      decoded, and whether it merely stops too early; and every line before it could be. */
  lemma ErrorTells(fmt: LineFormat, codec: Codec, s: Bytes, start: nat, number: LineNumber, limit: nat)
    requires LineRun(fmt, codec, s, start, number, limit).error.Some?
    ensures var run := LineRun(fmt, codec, s, start, number, limit);
      var e, k, pieces := run.error.value, |run.lines|, Pieces(fmt, s);
      && k < LineCount(pieces)
      && e.lineNumber == number + k
      && (forall j :: 0 <= j < k ==>
            && |ContentOf(fmt, pieces, j)| <= limit
            && codec(number + j == 1, ContentOf(fmt, pieces, j)) == Decoded(run.lines[j].text))
      && var content, first := ContentOf(fmt, pieces, k), start + StartOf(fmt, pieces, k);
      if |content| > limit then e.fault == LineTooLong && e.byteOffset == first + limit
      else
        match codec(number + k == 1, content)
        case Decoded(_) => false
        case Undecodable(at, truncated) =>
          && e.byteOffset == first + at
          && e.fault == (if truncated then IncompleteSequence else InvalidSequence)
  {
    hide LineRun, Pieces, ContentOf, StartOf;
    RunYieldsInOrder(fmt, codec, s, start, number, limit);
    var run, pieces := LineRun(fmt, codec, s, start, number, limit), Pieces(fmt, s);
    forall j | 0 <= j < |run.lines|
      ensures |ContentOf(fmt, pieces, j)| <= limit
      ensures codec(number + j == 1, ContentOf(fmt, pieces, j)) == Decoded(run.lines[j].text)
    {
      assert Success(run.lines[j]) == LineOutcome(fmt, codec, pieces, j, start, number, limit);
    }
  }

  // --------------------------------------------- cutting off early

  /** Bytes of an unfinished line that will count against the limit however it ends. */
  function CommittedLength(fmt: LineFormat, pending: Bytes): (n: int)
    ensures |pending| - 3 <= n <= |pending|
    ensures fmt.Narrow? ==> |pending| - 1 <= n
  {
    var complete := if fmt.Narrow? then |pending| else |pending| - |pending| % 2;
    complete - (if fmt.ControlAt(pending[..complete], complete - fmt.Width(), CR) then fmt.Width() else 0)
  }

  /** An unfinished line already over the limit fails exactly as the finished line would. */
  lemma OverLimitIsFinal(fmt: LineFormat, codec: Codec, pending: Bytes, unread: Bytes,
                         start: nat, number: LineNumber, limit: nat)
    requires forall i :: !fmt.ControlAt(pending, i, LF)
    requires CommittedLength(fmt, pending) > limit
    ensures LineRun(fmt, codec, pending + unread, start, number, limit)
         == Run([], Some(DecodeError(LineTooLong, start + limit, number)))
  {
    var s := pending + unread;
    FirstNewlineIsFirst(fmt, s, 0);
    match FirstNewline(fmt, s, 0) {
      case None =>
      case Some(i) =>
        if i + fmt.Width() <= |pending| {
          assert fmt.ControlAt(pending, i, LF);
        }
        var complete := if fmt.Narrow? then |pending| else |pending| - |pending| % 2;
        assert i >= complete;
        assert s[..i][..complete] == pending[..complete];
        if i == complete {
          assert s[..i] == pending[..complete];
        }
        assert |StripCR(fmt, s[..i])| > limit;
    }
  }

  // ------------------------------------------------------- the loops

  /** The stream behind a series of reads: an empty read is the end of input. */
  function Stream(chunks: seq<Bytes>): Bytes {
    if chunks == [] || chunks[0] == [] then [] else chunks[0] + Stream(chunks[1..])
  }

  predicate OccursAt(data: Bytes, needle: Bytes, i: int) {
    0 <= i && i + |needle| <= |data| && data[i..i + |needle|] == needle
  }

  /** `bytearray.find`: least offset at or after `start` where `needle` occurs, else -1. */
  function Find(data: Bytes, needle: Bytes, start: nat): (at: int)
    ensures at == -1 || (start <= at && OccursAt(data, needle, at))
    ensures forall i :: start <= i && OccursAt(data, needle, i) ==> 0 <= at <= i
    decreases |data| - start
  {
    if start + |needle| > |data| then -1
    else if OccursAt(data, needle, start) then start
    else Find(data, needle, start + 1)
  }

  lemma OccursIsControl(fmt: LineFormat, s: Bytes, i: int, u: Byte)
    requires fmt.Aligned(i)
    ensures fmt.ControlAt(s, i, u) <==> OccursAt(s, fmt.ControlUnit(u), i)
  {
    if 0 <= i && i + fmt.Width() <= |s| {
      var slice := s[i..i + fmt.Width()];
      assert slice[0] == s[i];
      if fmt.Wide? {
        assert slice[1] == s[i + 1];
      }
    }
  }

  /** Least even offset at or after `start` where `needle` occurs, else -1. */
  method FindAligned(data: Bytes, needle: Bytes, start: nat) returns (index: int)
    requires |needle| > 0
    ensures index == -1 || (start <= index && index % 2 == 0 && OccursAt(data, needle, index))
    ensures forall i :: start <= i && i % 2 == 0 && OccursAt(data, needle, i) ==> 0 <= index <= i
  {
    index := Find(data, needle, start);
    while index >= 0 && index % 2 != 0
      invariant index == -1 || (start <= index && OccursAt(data, needle, index))
      invariant forall i :: start <= i && i % 2 == 0 && OccursAt(data, needle, i) ==> 0 <= index <= i
      decreases if index < 0 then 0 else |data| - index
    {
      index := Find(data, needle, index + 1);
    }
  }

  /** The unterminated last line of what has been read. */
  function Unfinished(fmt: LineFormat, s: Bytes): Bytes
    decreases |s|
  {
    match FirstNewline(fmt, s, 0)
    case None => s
    case Some(i) => Unfinished(fmt, s[i + fmt.Width()..])
  }

  /** Before read `k` exactly the unfinished line of the first `k` chunks is buffered, and it
      is not longer than the bound. */
  ghost predicate Buffered(kept: seq<nat>, fmt: LineFormat, chunks: seq<Bytes>, bound: nat) {
    && |kept| <= |chunks|
    && forall k :: 0 <= k < |kept| ==>
         chunks[k] != [] && kept[k] == |Unfinished(fmt, Stream(chunks[..k]))| <= bound
  }

  lemma NothingBuffered(fmt: LineFormat, chunks: seq<Bytes>, bound: nat)
    ensures Buffered([], fmt, chunks, bound) && Stream([]) == []
  {
  }

  lemma BufferedOneMore(kept: seq<nat>, fmt: LineFormat, chunks: seq<Bytes>, bound: nat, n: nat)
    requires Buffered(kept, fmt, chunks, bound)
    requires |kept| < |chunks| && chunks[|kept|] != []
    requires n == |Unfinished(fmt, Stream(chunks[..|kept|]))| <= bound
    ensures Buffered(kept + [n], fmt, chunks, bound)
  {
  }

  lemma {:induction false} UnfinishedAppend(fmt: LineFormat, a: Bytes, b: Bytes)
    ensures Unfinished(fmt, a + b) == Unfinished(fmt, Unfinished(fmt, a) + b)
    decreases |a|
  {
    if FirstNewline(fmt, a, 0).Some? {
      var i := FirstNewline(fmt, a, 0).value;
      FirstNewlineIsFirst(fmt, a, 0);
      FirstNewlineInBuffer(fmt, a, b, i);
      UnfinishedAppend(fmt, a[i + fmt.Width()..], b);
    }
  }

  lemma UnfinishedPast(fmt: LineFormat, pending: Bytes, i: nat)
    requires FirstNewlineAt(fmt, pending, i)
    ensures i + fmt.Width() <= |pending|
    ensures Unfinished(fmt, pending) == Unfinished(fmt, pending[i + fmt.Width()..])
  {
    FirstNewlineInBuffer(fmt, pending, [], i);
    assert pending + [] == pending;
  }

  lemma UnfinishedIsAll(fmt: LineFormat, pending: Bytes)
    requires forall i :: !fmt.ControlAt(pending, i, LF)
    ensures Unfinished(fmt, pending) == pending
  {
    FirstNewlineIsFirst(fmt, pending, 0);
  }

  predicate AllRead(chunks: seq<Bytes>, r: nat) {
    r <= |chunks| && forall k :: 0 <= k < r ==> chunks[k] != []
  }

  lemma StreamEnds(chunks: seq<Bytes>)
    requires chunks == [] || chunks[0] == []
    ensures Stream(chunks) == []
  {
  }

  lemma {:induction false} StreamSplit(chunks: seq<Bytes>, r: nat)
    requires AllRead(chunks, r)
    ensures Stream(chunks) == Stream(chunks[..r]) + Stream(chunks[r..])
  {
    if r > 0 {
      StreamSplit(chunks[1..], r - 1);
      assert chunks[..r][1..] == chunks[1..][..r - 1];
    }
  }

  /** One more chunk is one more piece of the stream. */
  lemma StreamOneMore(chunks: seq<Bytes>, r: nat)
    requires AllRead(chunks, r + 1)
    ensures Stream(chunks[..r + 1]) == Stream(chunks[..r]) + chunks[r]
  {
    StreamSplit(chunks[..r + 1], r);
    assert chunks[..r + 1][..r] == chunks[..r];
    assert chunks[..r + 1][r..] == [chunks[r]];
    assert Stream([chunks[r]]) == chunks[r];
  }

  /** Everything decoded so far, followed by the run over what is buffered and unread.
      Both loops keep this equal to the run over the whole stream. */
  ghost function Resumed(done: seq<DecodedLine>, fmt: LineFormat, codec: Codec,
                         pending: Bytes, unread: Bytes, start: nat, number: LineNumber, limit: nat): Run
  {
    Prepend(done, LineRun(fmt, codec, pending + unread, start, number, limit))
  }

  /** The buffer holds a terminated line up to its first newline, at offset `i`. */
  ghost predicate FirstNewlineAt(fmt: LineFormat, pending: Bytes, i: nat) {
    fmt.ControlAt(pending, i, LF) && forall j :: 0 <= j < i ==> !fmt.ControlAt(pending, j, LF)
  }

  lemma FirstNewlineInBuffer(fmt: LineFormat, pending: Bytes, unread: Bytes, i: nat)
    requires FirstNewlineAt(fmt, pending, i)
    ensures i + fmt.Width() <= |pending|
    ensures FirstNewline(fmt, pending + unread, 0) == Some(i)
    ensures (pending + unread)[..i] == pending[..i]
    ensures (pending + unread)[i + fmt.Width()..] == pending[i + fmt.Width()..] + unread
  {
    var s := pending + unread;
    assert fmt.ControlAt(s, i, LF);
    forall j | 0 <= j < i ensures !fmt.ControlAt(s, j, LF) {
      assert !fmt.ControlAt(pending, j, LF);
    }
    FirstNewlineIsFirst(fmt, s, 0);
  }

  /** A line that fails ends the run. */
  lemma ResumedToError(whole: Run, done: seq<DecodedLine>, fmt: LineFormat, codec: Codec,
                         pending: Bytes, unread: Bytes, start: nat, number: LineNumber, limit: nat,
                         i: nat, e: DecodeError)
    requires whole == Resumed(done, fmt, codec, pending, unread, start, number, limit)
    requires FirstNewlineAt(fmt, pending, i)
    requires DecodeLine(codec, StripCR(fmt, pending[..i]), start, number, limit) == Failure(e)
    ensures whole == Run(done, Some(e))
  {
    hide LineRun;
    FirstNewlineInBuffer(fmt, pending, unread, i);
    LineRunStep(fmt, codec, pending + unread, start, number, limit, i, i + fmt.Width());
  }

  /** A line that decodes moves from the buffer to the output. */
  lemma ResumedPastLine(whole: Run, done: seq<DecodedLine>, fmt: LineFormat, codec: Codec,
                          pending: Bytes, unread: Bytes, start: nat, number: LineNumber, limit: nat,
                          i: nat, line: DecodedLine,
                          done': seq<DecodedLine>, pending': Bytes, start': nat)
    requires whole == Resumed(done, fmt, codec, pending, unread, start, number, limit)
    requires FirstNewlineAt(fmt, pending, i) && i + fmt.Width() <= |pending|
    requires DecodeLine(codec, StripCR(fmt, pending[..i]), start, number, limit) == Success(line)
    requires done' == done + [line] && pending' == pending[i + fmt.Width()..] && start' == start + i + fmt.Width()
    ensures whole == Resumed(done', fmt, codec, pending', unread, start', number + 1, limit)
  {
    hide LineRun;
    FirstNewlineInBuffer(fmt, pending, unread, i);
    LineRunStep(fmt, codec, pending + unread, start, number, limit, i, i + fmt.Width());
    var rest := LineRun(fmt, codec, pending' + unread, start', number + 1, limit);
    assert done + ([line] + rest.lines) == done' + rest.lines;
  }

  /** Reading one more chunk into the buffer. */
  lemma ResumedPastRead(whole: Run, done: seq<DecodedLine>, fmt: LineFormat, codec: Codec,
                          pending: Bytes, chunks: seq<Bytes>, start: nat, number: LineNumber, limit: nat)
    requires chunks != [] && chunks[0] != []
    requires whole == Resumed(done, fmt, codec, pending, Stream(chunks), start, number, limit)
    ensures whole == Resumed(done, fmt, codec, pending + chunks[0], Stream(chunks[1..]), start, number, limit)
  {
    assert pending + (chunks[0] + Stream(chunks[1..])) == pending + chunks[0] + Stream(chunks[1..]);
  }

  /** Stopping at the end of input: what is left is one unterminated line, or nothing. */
  lemma ResumedAtEnd(whole: Run, done: seq<DecodedLine>, fmt: LineFormat, codec: Codec,
                       pending: Bytes, start: nat, number: LineNumber, limit: nat)
    requires whole == Resumed(done, fmt, codec, pending, [], start, number, limit)
    requires forall i :: !fmt.ControlAt(pending, i, LF)
    ensures whole ==
      if pending == [] then Run(done, None)
      else match DecodeLine(codec, pending, start, number, limit)
           case Failure(e) => Run(done, Some(e))
           case Success(line) => Run(done + [line], None)
  {
    assert pending + [] == pending;
    FirstNewlineIsFirst(fmt, pending, 0);
  }

  /** After the last read: what is left in the buffer is one more line. */
  method DecodeLast(ghost whole: Run, lines: seq<DecodedLine>, fmt: LineFormat, codec: Codec, pending: Bytes,
                    lineStart: nat, lineNumber: LineNumber, limit: nat) returns (run: Run)
    requires whole == Resumed(lines, fmt, codec, pending, [], lineStart, lineNumber, limit)
    requires forall i :: !fmt.ControlAt(pending, i, LF)
    ensures run == whole
  {
    hide Resumed;
    ResumedAtEnd(whole, lines, fmt, codec, pending, lineStart, lineNumber, limit);
    if pending != [] {
      match DecodeLine(codec, pending, lineStart, lineNumber, limit) {
        case Failure(e) => return Run(lines, Some(e));
        case Success(line) => return Run(lines + [line], None);
      }
    }
    run := Run(lines, None);
  }

  /** The inner loop of `_iter_byte_lines`: emits every line the buffer completes. */
  method DrainBytes(ghost whole: Run, done: seq<DecodedLine>, codec: Codec, buffer: Bytes,
                    ghost unread: Bytes, start: nat, number: LineNumber, from: nat, limit: nat)
    returns (lines: seq<DecodedLine>, error: Option<DecodeError>, pending: Bytes,
             lineStart: nat, lineNumber: LineNumber)
    requires whole == Resumed(done, Narrow, codec, buffer, unread, start, number, limit)
    requires from <= |buffer| && forall i :: 0 <= i < from ==> !Narrow.ControlAt(buffer, i, LF)
    ensures error.Some? ==> whole == Run(lines, error)
    ensures error.None? ==>
      && whole == Resumed(lines, Narrow, codec, pending, unread, lineStart, lineNumber, limit)
      && pending == Unfinished(Narrow, buffer)
      && forall i :: !Narrow.ControlAt(pending, i, LF)
  {
    hide LineRun;
    hide FirstNewline;
    hide Unfinished;
    lines, error, pending := done, None, buffer;
    lineStart, lineNumber := start, number;
    var searchFrom: nat := from;
    var newline := Find(pending, [LF], searchFrom);
    while newline >= 0
      invariant searchFrom <= |pending|
      invariant whole == Resumed(lines, Narrow, codec, pending, unread, lineStart, lineNumber, limit)
      invariant forall i :: 0 <= i < searchFrom ==> !Narrow.ControlAt(pending, i, LF)
      invariant newline == Find(pending, [LF], searchFrom)
      invariant Unfinished(Narrow, pending) == Unfinished(Narrow, buffer)
      decreases |pending|
    {
      var raw := pending[..newline];
      FindIsFirstByte(pending, searchFrom);
      ghost var before := pending;
      UnfinishedPast(Narrow, pending, newline);
      pending := pending[newline + 1..];
      var content := if raw != [] && raw[|raw| - 1] == CR then raw[..|raw| - 1] else raw;
      StripByteCR(raw, content);
      match DecodeLine(codec, content, lineStart, lineNumber, limit) {
        case Failure(e) =>
          ResumedToError(whole, lines, Narrow, codec, before, unread, lineStart, lineNumber, limit, newline, e);
          error := Some(e);
          return;
        case Success(line) =>
          ResumedPastLine(whole, lines, Narrow, codec, before, unread, lineStart, lineNumber, limit, newline,
                          line, lines + [line], pending, lineStart + |raw| + 1);
          lines := lines + [line];
      }
      lineStart := lineStart + |raw| + 1;
      lineNumber := lineNumber + 1;
      searchFrom := 0;
      newline := Find(pending, [LF], searchFrom);
    }
    FindIsFirstByte(pending, searchFrom);
    UnfinishedIsAll(Narrow, pending);
  }

  /**
   Byte encodings.  `kept` records how much is buffered before each read: the unfinished
   line and nothing else, never more than one byte beyond the limit.
   */
  method IterByteLines(chunks: seq<Bytes>, codec: Codec, limit: nat) returns (run: Run, ghost kept: seq<nat>)
    ensures run == LineRun(Narrow, codec, Stream(chunks), 0, 1, limit)
    ensures Buffered(kept, Narrow, chunks, limit + 1)
    ensures run.error.None? ==> |kept| == |chunks| || chunks[|kept|] == []
  {
    hide LineRun;
    hide FirstNewline;
    hide Unfinished;
    NothingBuffered(Narrow, chunks, limit + 1);
    hide Buffered;
    ghost var whole := LineRun(Narrow, codec, Stream(chunks), 0, 1, limit);
    var lines: seq<DecodedLine> := [];
    var pending: Bytes := [];
    var lineStart: nat, lineNumber: LineNumber, searchFrom: nat := 0, 1, 0;
    var r := 0;
    kept := [];
    assert [] + Stream(chunks) == Stream(chunks) && chunks[0..] == chunks;
    UnfinishedIsAll(Narrow, []);
    while r < |chunks| && chunks[r] != []
      invariant 0 <= r <= |chunks|
      invariant whole == Resumed(lines, Narrow, codec, pending, Stream(chunks[r..]), lineStart, lineNumber, limit)
      invariant forall i :: !Narrow.ControlAt(pending, i, LF)
      invariant searchFrom == |pending| <= limit + 1
      invariant r == |kept| && AllRead(chunks, r) && Buffered(kept, Narrow, chunks, limit + 1)
      invariant pending == Unfinished(Narrow, Stream(chunks[..r]))
      decreases |chunks| - r
    {
      BufferedOneMore(kept, Narrow, chunks, limit + 1, |pending|);
      kept := kept + [|pending|];
      ResumedPastRead(whole, lines, Narrow, codec, pending, chunks[r..], lineStart, lineNumber, limit);
      assert chunks[r..][1..] == chunks[r + 1..];
      forall i | 0 <= i < searchFrom ensures !Narrow.ControlAt(pending + chunks[r], i, LF) {
        assert !Narrow.ControlAt(pending, i, LF);
      }
      StreamOneMore(chunks, r);
      UnfinishedAppend(Narrow, Stream(chunks[..r]), chunks[r]);
      pending := pending + chunks[r];
      r := r + 1;
      var error;
      lines, error, pending, lineStart, lineNumber :=
        DrainBytes(whole, lines, codec, pending, Stream(chunks[r..]), lineStart, lineNumber, searchFrom, limit);
      if error.Some? {
        return Run(lines, error), kept;
      }
      searchFrom := |pending|;
      var possibleCR := if pending != [] && pending[|pending| - 1] == CR then 1 else 0;
      assert pending[..|pending|] == pending;
      assert |pending| - possibleCR == CommittedLength(Narrow, pending);
      if |pending| - possibleCR > limit {
        OverLimitIsFinal(Narrow, codec, pending, Stream(chunks[r..]), lineStart, lineNumber, limit);
        return Run(lines, Some(DecodeError(LineTooLong, lineStart + limit, lineNumber))), kept;
      }
    }
    StreamEnds(chunks[r..]);
    run := DecodeLast(whole, lines, Narrow, codec, pending, lineStart, lineNumber, limit);
  }

  lemma StripByteCR(raw: Bytes, content: Bytes)
    requires content == if raw != [] && raw[|raw| - 1] == CR then raw[..|raw| - 1] else raw
    ensures content == StripCR(Narrow, raw)
  {
  }

  /** Searching from `from` finds the first LF of all, if the bytes before it hold none. */
  lemma FindIsFirstByte(pending: Bytes, from: nat)
    requires forall i :: 0 <= i < from ==> !Narrow.ControlAt(pending, i, LF)
    ensures var at := Find(pending, [LF], from);
      if at < 0 then forall i :: !Narrow.ControlAt(pending, i, LF)
      else FirstNewlineAt(Narrow, pending, at)
  {
    var at := Find(pending, [LF], from);
    if at >= 0 {
      OccursIsControl(Narrow, pending, at, LF);
    }
    forall i | Narrow.ControlAt(pending, i, LF) ensures 0 <= at <= i {
      OccursIsControl(Narrow, pending, i, LF);
    }
  }

  // ------------------------------------------------------------ UTF-16

  /** The codecs `utf-16`, `utf-16-le` and `utf-16-be`. */
  datatype Utf16 = Detected | Fixed(order: ByteOrder)

  /** The order a byte-order mark announces. */
  function MarkedOrder(s: Bytes): Option<ByteOrder> {
    if |s| >= 2 && s[0] == 0xFF && s[1] == 0xFE then Some(Little)
    else if |s| >= 2 && s[0] == 0xFE && s[1] == 0xFF then Some(Big)
    else None
  }

  /** The run over a whole UTF-16 stream.  Fewer than two bytes carry no mark, and count
      as little-endian. */
  function Utf16Run(encoding: Utf16, codec: ByteOrder -> Codec, s: Bytes, limit: nat): Run {
    match encoding
    case Fixed(order) => LineRun(Wide(order), codec(order), s, 0, 1, limit)
    case Detected =>
      if |s| < 2 then LineRun(Wide(Little), codec(Little), s, 0, 1, limit)
      else
        match MarkedOrder(s)
        case Some(order) => LineRun(Wide(order), codec(order), s, 0, 1, limit)
        case None => Run([], Some(DecodeError(MissingByteOrderMark, 0, 1)))
  }

  /** The order in which a stream is read; without two bytes to tell, little-endian. */
  function StreamOrder(encoding: Utf16, s: Bytes): ByteOrder {
    match encoding
    case Fixed(order) => order
    case Detected => if MarkedOrder(s).Some? then MarkedOrder(s).value else Little
  }

  lemma OrderOfPrefix(encoding: Utf16, chunks: seq<Bytes>, r: nat)
    requires encoding.Detected? && AllRead(chunks, r) && |Stream(chunks[..r])| >= 2
    ensures StreamOrder(encoding, Stream(chunks)) == StreamOrder(encoding, Stream(chunks[..r]))
  {
    StreamSplit(chunks, r);
    var s := Stream(chunks);
    assert s[0] == Stream(chunks[..r])[0] && s[1] == Stream(chunks[..r])[1];
  }

  lemma FewBytesUnfinished(fmt: LineFormat, s: Bytes)
    requires fmt.Wide? && |s| < 2
    ensures Unfinished(fmt, s) == s
  {
  }

  /** The byte order is settled by the first two bytes, however they arrive. */
  lemma OrderFromPrefix(encoding: Utf16, codec: ByteOrder -> Codec, pending: Bytes, unread: Bytes, limit: nat)
    requires encoding.Detected? && |pending| >= 2
    ensures Utf16Run(encoding, codec, pending + unread, limit) ==
      match MarkedOrder(pending)
      case Some(order) => Resumed([], Wide(order), codec(order), pending, unread, 0, 1, limit)
      case None => Run([], Some(DecodeError(MissingByteOrderMark, 0, 1)))
  {
    var s := pending + unread;
    assert s[0] == pending[0] && s[1] == pending[1];
    if MarkedOrder(pending).Some? {
      var order := MarkedOrder(pending).value;
      var run := LineRun(Wide(order), codec(order), s, 0, 1, limit);
      assert [] + run.lines == run.lines;
    }
  }

  lemma ResumedFromStart(fmt: LineFormat, codec: Codec, s: Bytes, limit: nat)
    ensures LineRun(fmt, codec, s, 0, 1, limit) == Resumed([], fmt, codec, [], s, 0, 1, limit)
  {
    assert [] + s == s;
    var run := LineRun(fmt, codec, s, 0, 1, limit);
    assert [] + run.lines == run.lines;
  }

  lemma StripUnitCR(order: ByteOrder, raw: Bytes, content: Bytes)
    requires |raw| % 2 == 0
    requires content == if |raw| >= 2 && raw[|raw| - 2..] == UnitBytes(order, CR) then raw[..|raw| - 2] else raw
    ensures content == StripCR(Wide(order), raw)
  {
    if |raw| >= 2 {
      OccursIsControl(Wide(order), raw, |raw| - 2, CR);
      assert raw[|raw| - 2..] == raw[|raw| - 2..|raw|];
    }
  }

  /** An aligned search from `from` finds the first newline of all, if there is none before. */
  lemma AlignedIsFirst(order: ByteOrder, pending: Bytes, from: nat, at: int)
    requires forall i :: 0 <= i < from ==> !Wide(order).ControlAt(pending, i, LF)
    requires at == -1 || (from <= at && at % 2 == 0 && OccursAt(pending, UnitBytes(order, LF), at))
    requires forall i :: from <= i && i % 2 == 0 && OccursAt(pending, UnitBytes(order, LF), i) ==> 0 <= at <= i
    ensures if at < 0 then forall i :: !Wide(order).ControlAt(pending, i, LF)
      else FirstNewlineAt(Wide(order), pending, at)
  {
    if at >= 0 {
      OccursIsControl(Wide(order), pending, at, LF);
    }
    forall i | Wide(order).ControlAt(pending, i, LF) ensures 0 <= at <= i {
      OccursIsControl(Wide(order), pending, i, LF);
    }
  }

  /** What `_iter_utf16_lines` keeps true before each read. */
  ghost predicate Utf16Invariant(whole: Run, lines: seq<DecodedLine>, encoding: Utf16, codec: ByteOrder -> Codec,
                                 byteOrder: Option<ByteOrder>, pending: Bytes, unread: Bytes,
                                 lineStart: nat, lineNumber: LineNumber, searchFrom: nat, limit: nat)
  {
    match byteOrder
    case None =>
      && encoding.Detected? && lines == [] && |pending| < 2
      && lineStart == 0 && lineNumber == 1 && searchFrom == 0
      && whole == Utf16Run(encoding, codec, pending + unread, limit)
    case Some(order) =>
      && (encoding.Fixed? ==> encoding.order == order)
      && whole == Resumed(lines, Wide(order), codec(order), pending, unread, lineStart, lineNumber, limit)
      && (forall i :: !Wide(order).ControlAt(pending, i, LF))
      && searchFrom == |pending| - |pending| % 2
  }

  /**
   The inner loop of `_iter_utf16_lines`: emits every line the buffer completes.  A
   newline is only looked for from `searchFrom` on, and only on even offsets.
   */
  method DrainUtf16(ghost whole: Run, done: seq<DecodedLine>, order: ByteOrder, codec: Codec, buffer: Bytes,
                    ghost unread: Bytes, start: nat, number: LineNumber, from: nat, limit: nat)
    returns (lines: seq<DecodedLine>, error: Option<DecodeError>, pending: Bytes,
             lineStart: nat, lineNumber: LineNumber)
    requires whole == Resumed(done, Wide(order), codec, buffer, unread, start, number, limit)
    requires from <= |buffer| && forall i :: 0 <= i < from ==> !Wide(order).ControlAt(buffer, i, LF)
    ensures error.Some? ==> whole == Run(lines, error)
    ensures error.None? ==>
      && whole == Resumed(lines, Wide(order), codec, pending, unread, lineStart, lineNumber, limit)
      && pending == Unfinished(Wide(order), buffer)
      && forall i :: !Wide(order).ControlAt(pending, i, LF)
  {
    hide LineRun;
    hide FirstNewline;
    hide UnitAt;
    hide Unfinished;
    lines, error, pending := done, None, buffer;
    lineStart, lineNumber := start, number;
    var searchFrom := from;
    var newlineAt := FindAligned(pending, UnitBytes(order, LF), searchFrom);
    AlignedIsFirst(order, pending, searchFrom, newlineAt);
    while newlineAt >= 0
      invariant whole == Resumed(lines, Wide(order), codec, pending, unread, lineStart, lineNumber, limit)
      invariant Unfinished(Wide(order), pending) == Unfinished(Wide(order), buffer)
      invariant if newlineAt < 0 then forall i :: !Wide(order).ControlAt(pending, i, LF)
        else FirstNewlineAt(Wide(order), pending, newlineAt) && newlineAt % 2 == 0 && newlineAt + 2 <= |pending|
      decreases |pending|, newlineAt
    {
      var raw := pending[..newlineAt];
      ghost var before := pending;
      UnfinishedPast(Wide(order), pending, newlineAt);
      pending := pending[newlineAt + 2..];
      var content := if |raw| >= 2 && raw[|raw| - 2..] == UnitBytes(order, CR) then raw[..|raw| - 2] else raw;
      StripUnitCR(order, raw, content);
      match DecodeLine(codec, content, lineStart, lineNumber, limit) {
        case Failure(e) =>
          ResumedToError(whole, lines, Wide(order), codec, before, unread, lineStart, lineNumber, limit, newlineAt, e);
          error := Some(e);
          return;
        case Success(line) =>
          ResumedPastLine(whole, lines, Wide(order), codec, before, unread, lineStart, lineNumber, limit, newlineAt,
                          line, lines + [line], pending, lineStart + |raw| + 2);
          lines := lines + [line];
      }
      lineStart := lineStart + |raw| + 2;
      lineNumber := lineNumber + 1;
      searchFrom := 0;
      newlineAt := FindAligned(pending, UnitBytes(order, LF), searchFrom);
      AlignedIsFirst(order, pending, searchFrom, newlineAt);
    }
    UnfinishedIsAll(Wide(order), pending);
  }

  /** What follows the inner loop: the next search may skip the complete units, and an
      unfinished line already over the limit is refused. */
  method CheckUtf16Rest(order: ByteOrder, pending: Bytes, limit: nat) returns (searchFrom: nat, tooLong: bool)
    ensures searchFrom == |pending| - |pending| % 2
    ensures tooLong <==> CommittedLength(Wide(order), pending) > limit
    ensures !tooLong ==> |pending| <= limit + 3
  {
    searchFrom := |pending| - |pending| % 2;
    var complete := pending[..searchFrom];
    var possibleCR := if searchFrom >= 2 && complete[searchFrom - 2..] == UnitBytes(order, CR) then 2 else 0;
    if searchFrom >= 2 {
      OccursIsControl(Wide(order), complete, searchFrom - 2, CR);
      assert complete[searchFrom - 2..] == complete[searchFrom - 2..searchFrom];
    }
    tooLong := searchFrom - possibleCR > limit;
  }

  /**
   UTF-16, with the byte order given or read from the mark.  `kept` records how much is
   buffered before each read: the unfinished line, never more than three bytes beyond the
   limit.
   */
  method IterUtf16Lines(chunks: seq<Bytes>, encoding: Utf16, codec: ByteOrder -> Codec, limit: nat)
    returns (run: Run, ghost kept: seq<nat>)
    ensures run == Utf16Run(encoding, codec, Stream(chunks), limit)
    ensures Buffered(kept, Wide(StreamOrder(encoding, Stream(chunks))), chunks, limit + 3)
    ensures run.error.None? ==> |kept| == |chunks| || chunks[|kept|] == []
  {
    hide LineRun;
    hide FirstNewline;
    hide UnitAt;
    hide Unfinished;
    ghost var fmt := Wide(StreamOrder(encoding, Stream(chunks)));
    FewBytesUnfinished(fmt, []);
    NothingBuffered(fmt, chunks, limit + 3);
    hide Buffered;
    ghost var whole := Utf16Run(encoding, codec, Stream(chunks), limit);
    var lines: seq<DecodedLine> := [];
    var pending: Bytes := [];
    var lineStart: nat, lineNumber: LineNumber, searchFrom: nat := 0, 1, 0;
    var byteOrder: Option<ByteOrder> := if encoding.Fixed? then Some(encoding.order) else None;
    var r := 0;
    kept := [];
    assert [] + Stream(chunks) == Stream(chunks) && chunks[0..] == chunks;
    if encoding.Fixed? {
      ResumedFromStart(Wide(encoding.order), codec(encoding.order), Stream(chunks), limit);
      NoControlInNothing(encoding.order);
    }
    while r < |chunks| && chunks[r] != []
      invariant 0 <= r <= |chunks|
      invariant Utf16Invariant(whole, lines, encoding, codec, byteOrder, pending, Stream(chunks[r..]),
                               lineStart, lineNumber, searchFrom, limit)
      invariant |pending| <= limit + 3
      invariant r == |kept| && AllRead(chunks, r) && Buffered(kept, fmt, chunks, limit + 3)
      invariant pending == Unfinished(fmt, Stream(chunks[..r]))
      invariant if byteOrder.Some? then fmt == Wide(byteOrder.value) else pending == Stream(chunks[..r])
      decreases |chunks| - r
    {
      BufferedOneMore(kept, fmt, chunks, limit + 3, |pending|);
      kept := kept + [|pending|];
      ghost var before := pending;
      assert chunks[r..][1..] == chunks[r + 1..];
      assert pending + Stream(chunks[r..]) == (pending + chunks[r]) + Stream(chunks[r + 1..]);
      StreamOneMore(chunks, r);
      UnfinishedAppend(fmt, Stream(chunks[..r]), chunks[r]);
      pending := pending + chunks[r];
      r := r + 1;
      if byteOrder.None? && |pending| >= 2 {
        OrderFromPrefix(encoding, codec, pending, Stream(chunks[r..]), limit);
        match MarkedOrder(pending) {
          case None =>
            return Run([], Some(DecodeError(MissingByteOrderMark, 0, lineNumber))), kept;
          case Some(order) =>
            byteOrder := Some(order);
            OrderOfPrefix(encoding, chunks, r);
        }
      } else if byteOrder.Some? {
        forall i | 0 <= i < searchFrom
          ensures !Wide(byteOrder.value).ControlAt(pending, i, LF)
        {
          NoControlCompleted(byteOrder.value, before, chunks[r - 1], i);
        }
      }
      if byteOrder.None? {
        FewBytesUnfinished(fmt, pending);
      } else {
        var order := byteOrder.value;
        var error;
        lines, error, pending, lineStart, lineNumber :=
          DrainUtf16(whole, lines, order, codec(order), pending, Stream(chunks[r..]),
                     lineStart, lineNumber, searchFrom, limit);
        if error.Some? {
          return Run(lines, error), kept;
        }
        var tooLong;
        searchFrom, tooLong := CheckUtf16Rest(order, pending, limit);
        if tooLong {
          OverLimitIsFinal(Wide(order), codec(order), pending, Stream(chunks[r..]), lineStart, lineNumber, limit);
          return Run(lines, Some(DecodeError(LineTooLong, lineStart + limit, lineNumber))), kept;
        }
      }
    }
    assert Stream(chunks[r..]) == [];
    assert pending + [] == pending;
    var order := if byteOrder.Some? then byteOrder.value else Little;
    if byteOrder.None? {
      ResumedFromStart(Wide(Little), codec(Little), pending, limit);
      assert [] + pending == pending + [];
      NoControlInByte(pending);
    }
    run := DecodeLast(whole, lines, Wide(order), codec(order), pending, lineStart, lineNumber, limit);
  }

  lemma NoControlInNothing(order: ByteOrder)
    ensures forall i :: !Wide(order).ControlAt([], i, LF)
  {
  }

  lemma NoControlInByte(pending: Bytes)
    requires |pending| < 2
    ensures forall i :: !Wide(Little).ControlAt(pending, i, LF)
  {
  }

  /** Appending bytes completes no newline among the units that were already complete. */
  lemma NoControlCompleted(order: ByteOrder, pending: Bytes, chunk: Bytes, i: nat)
    requires forall j :: !Wide(order).ControlAt(pending, j, LF)
    requires i < |pending| - |pending| % 2
    ensures !Wide(order).ControlAt(pending + chunk, i, LF)
  {
    assert !Wide(order).ControlAt(pending, i, LF);
    if i % 2 == 0 {
      assert i + 1 < |pending|;
    }
  }
}
