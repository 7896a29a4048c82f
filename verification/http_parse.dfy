/** `read_http_response` and `read_http_request`. Both consume their input
    through `ReadableVec::read`, one fixed-width read at a time, and each
    loop of the source is a recursive function here that performs the same
    reads in the same order. The characterising contracts on the loops say
    what they collect and what they leave behind. */
module HttpParse {
  import opened Wrappers
  import opened Bytes
  import opened ReadableVec
  import opened HttpStatus
  import opened HttpVersion
  import opened HttpMessage
  import opened Widening

  /** A parsed value and the stream left after it. */
  datatype Parsed<+T> = Parsed(value: T, rest: Bytes)

  function Zeros(n: nat): (z: Bytes)
    ensures |z| == n
  {
    seq(n, _ => 0)
  }

  /** A read into a fresh `width`-byte buffer whose failure the parser
      reports as `StreamReadError`. */
  function ReadFixed(stream: Bytes, width: nat): (r: Result<Parsed<Bytes>, Error>)
    ensures r.Success? <==> width <= |stream|
    ensures r.Success? ==> r.value.value == stream[..width] && r.value.rest == stream[width..]
    ensures r.Failure? ==> r.error == StreamReadError
  {
    var o := Read(stream, Zeros(width));
    if o.result.Failure? then Failure(StreamReadError)
    else
      assert o.buf == stream[..width];
      Success(Parsed(o.buf, o.vector))
  }

  /** `let _ = stream.read(&mut buf)` on a one-byte buffer: a byte is dropped
      when one is left, and the error is ignored. */
  function SkipByte(stream: Bytes): (rest: Bytes)
    ensures rest == if |stream| == 0 then stream else stream[1..]
  {
    Read(stream, [0]).vector
  }

  /** The key and value loops: `while cur != stop { push(cur); cur = read or
      fail }`, pushing onto a `String`. `CollectUntilSpec` states what they
      collect. */
  function CollectUntil(stream: Bytes, cur: byte, stop: byte, acc: Bytes): (r: Result<Parsed<Bytes>, Error>)
    ensures r.Success? ==> |r.value.rest| <= |stream|
    decreases |stream|
  {
    if cur == stop then Success(Parsed(acc, stream))
    else
      var o := Read(stream, [cur]);
      if o.result.Failure? then Failure(StreamReadError)
      else CollectUntil(o.vector, o.buf[0], stop, acc + Latin1(cur))
  }

  /** The loop collects, widened, every byte before the first `stop` of
      `cur` and the stream, consumes that `stop`, and fails when there is
      none. */
  lemma {:induction false} CollectUntilSpec(stream: Bytes, cur: byte, stop: byte, acc: Bytes)
    ensures cur == stop ==> CollectUntil(stream, cur, stop, acc) == Success(Parsed(acc, stream))
    ensures cur != stop ==>
              var k := IndexOf(stream, stop);
              && (k < |stream| ==>
                    CollectUntil(stream, cur, stop, acc) == Success(Parsed(acc + Latin1(cur) + Widen(stream[..k]), stream[k + 1..])))
              && (k == |stream| ==> CollectUntil(stream, cur, stop, acc) == Failure(StreamReadError))
    decreases |stream|
  {
    if cur != stop && |stream| > 0 {
      var b, v := stream[0], stream[1..];
      assert Read(stream, [cur]) == ReadOutcome(v, [b], Success(1));
      CollectUntilSpec(v, b, stop, acc + Latin1(cur));
      if b == stop {
        assert stream[..0] == [] && acc + Latin1(cur) + Widen([]) == acc + Latin1(cur);
      } else {
        ShiftWiden(stream, stop, acc + Latin1(cur));
      }
    }
  }

  /** `ShiftFirst` for a loop that widens what it collects. */
  lemma ShiftWiden(stream: Bytes, stop: byte, acc: Bytes)
    requires |stream| > 0 && stream[0] != stop
    ensures var k := IndexOf(stream, stop);
            var v := stream[1..];
            && k == 1 + IndexOf(v, stop)
            && (k < |stream| ==>
                  && acc + Widen(stream[..k]) == acc + Latin1(stream[0]) + Widen(v[..k - 1])
                  && stream[k + 1..] == v[k..])
  {
    var k := IndexOf(stream, stop);
    if k < |stream| {
      assert stream[..k] == [stream[0]] + stream[1..][..k - 1];
      WidenCons(stream[0], stream[1..][..k - 1]);
    }
  }

  /** How a loop's result on the tail relates to its result on the whole
      stream when the first byte is not the one searched for, and when it is. */
  lemma ShiftFirst(stream: Bytes, stop: byte, acc: Bytes)
    requires |stream| > 0
    ensures var k := IndexOf(stream, stop);
            var v := stream[1..];
            && (stream[0] == stop ==> k == 0 && acc + stream[..k] == acc && stream[k + 1..] == v)
            && (stream[0] != stop ==>
                  && k == 1 + IndexOf(v, stop)
                  && (k < |stream| ==>
                        && acc + stream[..k] == acc + [stream[0]] + v[..k - 1]
                        && stream[k + 1..] == v[k..]))
  {
    var k := IndexOf(stream, stop);
    if stream[0] != stop && k < |stream| {
      assert stream[..k] == [stream[0]] + stream[1..][..k - 1];
    }
  }

  /** The reason loop of `read_http_response`. It pushes the buffered byte
      before looking at the error of the read that filled it, and a failed
      read leaves the previous byte in the buffer. */
  function ReasonLoop(stream: Bytes, cur: byte, failed: bool, acc: Bytes): (r: Result<Parsed<Bytes>, Error>)
    requires failed ==> stream == []
    decreases |stream| + (if failed then 0 else 1)
  {
    if cur == CR then Success(Parsed(acc, stream))
    else if failed then Failure(StreamReadError)
    else
      var o := Read(stream, [cur]);
      ReasonLoop(o.vector, o.buf[0], o.result.Failure?, acc + [cur])
  }

  /** The reason loop ends with `StreamReadError` exactly when no CR is left,
      and otherwise collects everything before the first CR. */
  lemma {:induction false} ReasonLoopSpec(stream: Bytes, cur: byte, acc: Bytes)
    ensures ReasonLoop([], cur, true, acc) == if cur == CR then Success(Parsed(acc, [])) else Failure(StreamReadError)
    ensures cur == CR ==> ReasonLoop(stream, cur, false, acc) == Success(Parsed(acc, stream))
    ensures cur != CR ==>
              var k := IndexOf(stream, CR);
              && (k == |stream| ==> ReasonLoop(stream, cur, false, acc) == Failure(StreamReadError))
              && (k < |stream| ==>
                    ReasonLoop(stream, cur, false, acc) == Success(Parsed(acc + [cur] + stream[..k], stream[k + 1..])))
    decreases |stream|
  {
    if cur != CR {
      if |stream| == 0 {
        assert Read(stream, [cur]) == ReadOutcome([], [cur], Failure(VectorTooShort));
      } else {
        var b, v := stream[0], stream[1..];
        assert Read(stream, [cur]) == ReadOutcome(v, [b], Success(1));
        ReasonLoopSpec(v, b, acc + [cur]);
        ShiftFirst(stream, CR, acc + [cur]);
      }
    }
  }

  /** The header loop shared by both parsers. A line starting with CR ends
      the headers, and only that CR is consumed. Otherwise the key is every
      byte before `:`, one byte after the `:` is dropped, the value runs up
      to CR, the byte after that CR is dropped, and the pair is inserted so
      that a later duplicate key overwrites an earlier one. */
  function HeaderLoop(stream: Bytes, headers: Headers): (r: Result<Parsed<Headers>, Error>)
    ensures r.Success? ==> |r.value.rest| < |stream|
    decreases |stream|
  {
    var o := Read(stream, [0]);
    if o.result.Failure? then Failure(StreamReadError)
    else if o.buf[0] == CR then Success(Parsed(headers, o.vector))
    else
      match CollectUntil(o.vector, o.buf[0], COLON, [])
      case Failure(e) => Failure(e)
      case Success(key) =>
        var o2 := Read(SkipByte(key.rest), [COLON]);
        if o2.result.Failure? then Failure(StreamReadError)
        else
          match CollectUntil(o2.vector, o2.buf[0], CR, [])
          case Failure(e) => Failure(e)
          case Success(value) =>
            HeaderLoop(SkipByte(value.rest), headers[key.value := value.value])
  }

  /** The content loop: `length` single-byte reads, each failing with
      `StreamReadError` when the stream is empty. */
  function ContentLoop(stream: Bytes, done: int, length: int, content: Bytes): (r: Result<Parsed<Bytes>, Error>)
    decreases length - done
  {
    if done >= length then Success(Parsed(content, stream))
    else
      var o := Read(stream, [0]);
      if o.result.Failure? then Failure(StreamReadError)
      else ContentLoop(o.vector, done + 1, length, content + o.buf)
  }

  /** The content loop takes exactly the `length - done` bytes still owed, or
      fails when the stream is shorter. */
  lemma {:induction false} ContentLoopSpec(stream: Bytes, done: int, length: int, content: Bytes)
    ensures var n := if done < length then length - done else 0;
            && (n <= |stream| ==> ContentLoop(stream, done, length, content) == Success(Parsed(content + stream[..n], stream[n..])))
            && (n > |stream| ==> ContentLoop(stream, done, length, content) == Failure(StreamReadError))
    decreases length - done
  {
    if done >= length {
      assert content + stream[..0] == content;
    } else {
      ReadOne(stream, 0);
      if |stream| > 0 {
        ContentLoopSpec(stream[1..], done + 1, length, content + [stream[0]]);
        if length - done <= |stream| {
          TakeShift(stream, content, length - done);
        }
      }
    }
  }

  /** Taking `n` bytes is taking the first one and then `n - 1` more. */
  lemma TakeShift(stream: Bytes, acc: Bytes, n: nat)
    requires 0 < n <= |stream|
    ensures acc + stream[..n] == acc + [stream[0]] + stream[1..][..n - 1]
    ensures stream[n..] == stream[1..][n - 1..]
  {
    assert stream[..n] == [stream[0]] + stream[1..][..n - 1];
  }

  /** The version bytes after `HTTP/`, or `InvalidVersionError`. */
  function VersionOrError(b: Bytes): (r: Result<(i32, i32), Error>)
    requires |b| == 3
    ensures r.Failure? <==> ParseVersion(b).None?
    ensures r.Failure? ==> r.error == InvalidVersionError
    ensures r.Success? ==> Some(r.value) == ParseVersion(b)
  {
    match ParseVersion(b)
    case None => Failure(InvalidVersionError)
    case Some(v) => Success(v)
  }

  /** The `HTTP/` tag and the three version bytes, read the same way by both
      parsers. The stream must start with exactly `HTTP/`, then a version
      the version check accepts; a stream too short for either read gives
      `StreamReadError`. */
  function ReadTagVersion(stream: Bytes): (r: Result<Parsed<(Bytes, (i32, i32))>, Error>)
    ensures |stream| < 5 ==> r == Failure(StreamReadError)
    ensures 5 <= |stream| && stream[..5] != HTTP_SLASH ==> r == Failure(NotHTTP)
    ensures 5 <= |stream| < 8 && stream[..5] == HTTP_SLASH ==> r == Failure(StreamReadError)
    ensures 8 <= |stream| && stream[..5] == HTTP_SLASH ==>
              match ParseVersion(stream[5..8])
              case None => r == Failure(InvalidVersionError)
              case Some(v) => r == Success(Parsed((HTTP_SLASH, v), stream[8..]))
  {
    var tag :- ReadFixed(stream, 5);
    if tag.value != HTTP_SLASH then Failure(NotHTTP)
    else
      var version :- ReadFixed(tag.rest, 3);
      assert 8 <= |stream| ==> version.value == stream[5..8] && version.rest == stream[8..];
      var httpversion :- VersionOrError(version.value);
      Success(Parsed((tag.value, httpversion), version.rest))
  }

  /** The status line of a response up to its status code. */
  datatype StatusLine = StatusLine(tag: Bytes, version: (i32, i32), status: StatusCode)

  /** The part of `read_http_response` that reads the status line: the tag
      and version, one separating byte whatever it is, and three bytes that
      must parse as an integer that is a listed status code. */
  function ReadStatusLine(stream: Bytes): (r: Result<Parsed<StatusLine>, Error>)
    ensures 8 <= |stream| && stream[..5] == HTTP_SLASH && ParseVersion(stream[5..8]).Some? ==>
              var v := ParseVersion(stream[5..8]).value;
              && (|stream| < 12 ==> r == Failure(StreamReadError))
              && (12 <= |stream| ==>
                    match ParseI32(stream[9..12])
                    case None => r == Failure(UnreadableStatusCode)
                    case Some(code) =>
                      match FromI32(code)
                      case None => r == Failure(UnknownStatusError)
                      case Some(status) => r == Success(Parsed(StatusLine(HTTP_SLASH, v, status), stream[12..])))
    ensures !(8 <= |stream| && stream[..5] == HTTP_SLASH && ParseVersion(stream[5..8]).Some?) ==>
              r.Failure? && Failure(r.error) == ReadTagVersion(stream)
  {
    var tv :- ReadTagVersion(stream);
    var space :- ReadFixed(tv.rest, 1);
    var status :- ReadFixed(space.rest, 3);
    assert 12 <= |stream| ==> status.value == stream[9..12] && status.rest == stream[12..];
    match ParseI32(status.value)
    case None => Failure(UnreadableStatusCode)
    case Some(code) =>
      match FromI32(code)
      case None => Failure(UnknownStatusError)
      case Some(statuscode) => Success(Parsed(StatusLine(tv.value.0, tv.value.1, statuscode), status.rest))
  }

  /** The reason phrase: every byte up to the first CR, which is consumed
      together with one more byte. No CR left gives `StreamReadError`. */
  function ReadReason(stream: Bytes): (r: Result<Parsed<Bytes>, Error>)
    ensures var k := IndexOf(stream, CR);
            && (k < |stream| ==> r == Success(Parsed(stream[..k], SkipByte(stream[k + 1..]))))
            && (k == |stream| ==> r == Failure(StreamReadError))
  {
    var first := Read(stream, [0]);
    ReasonFromRead(stream);
    var reason :- ReasonLoop(first.vector, first.buf[0], first.result.Failure?, []);
    Success(Parsed(reason.value, SkipByte(reason.rest)))
  }

  /** The reason loop started by a one-byte read collects the bytes before
      the first CR of the stream and consumes that CR. */
  lemma ReasonFromRead(stream: Bytes)
    ensures var first := Read(stream, [0]);
            var k := IndexOf(stream, CR);
            && (k < |stream| ==>
                  ReasonLoop(first.vector, first.buf[0], first.result.Failure?, []) == Success(Parsed(stream[..k], stream[k + 1..])))
            && (k == |stream| ==>
                  ReasonLoop(first.vector, first.buf[0], first.result.Failure?, []) == Failure(StreamReadError))
  {
    ReadOne(stream, 0);
    if |stream| == 0 {
      ReasonLoopSpec([], 0, []);
    } else {
      ReasonAfterFirst(stream);
    }
  }

  lemma ReasonAfterFirst(stream: Bytes)
    requires |stream| > 0
    ensures var k := IndexOf(stream, CR);
            && (k < |stream| ==> ReasonLoop(stream[1..], stream[0], false, []) == Success(Parsed(stream[..k], stream[k + 1..])))
            && (k == |stream| ==> ReasonLoop(stream[1..], stream[0], false, []) == Failure(StreamReadError))
  {
    if stream[0] == CR {
      ReasonLoopSpec(stream[1..], CR, []);
      assert stream[..0] == [];
    } else {
      ReasonAfterOther(stream);
    }
  }

  lemma ReasonAfterOther(stream: Bytes)
    requires |stream| > 0 && stream[0] != CR
    ensures var k := IndexOf(stream, CR);
            && (k < |stream| ==> ReasonLoop(stream[1..], stream[0], false, []) == Success(Parsed(stream[..k], stream[k + 1..])))
            && (k == |stream| ==> ReasonLoop(stream[1..], stream[0], false, []) == Failure(StreamReadError))
  {
    var v := stream[1..];
    ReasonLoopSpec(v, stream[0], []);
    ShiftFirst(stream, CR, []);
    var k := IndexOf(stream, CR);
    if k < |stream| {
      assert [] + [stream[0]] + v[..k - 1] == stream[..k];
    }
  }

  /** How many content bytes the response parser reads: `Content-Length`
      must be present and parse, and that many bytes are then taken from the
      stream (none for a negative length). */
  function ReadResponseContent(headers: Headers, stream: Bytes): (r: Result<Parsed<Bytes>, Error>)
    ensures CONTENT_LENGTH !in headers ==> r == Failure(InvalidContentLength(MissingContentLength))
    ensures CONTENT_LENGTH in headers ==> r == ReadContent(headers[CONTENT_LENGTH], stream)
  {
    if CONTENT_LENGTH !in headers then Failure(InvalidContentLength(MissingContentLength))
    else ReadContent(headers[CONTENT_LENGTH], stream)
  }

  /** The request parser reads content only when `Content-Length` is
      present, and then exactly as the response parser does. */
  function ReadRequestContent(headers: Headers, stream: Bytes): (r: Result<Parsed<Bytes>, Error>)
    ensures CONTENT_LENGTH !in headers ==> r == Success(Parsed([], stream))
    ensures CONTENT_LENGTH in headers ==> r == ReadContent(headers[CONTENT_LENGTH], stream)
  {
    if CONTENT_LENGTH !in headers then Success(Parsed([], stream))
    else ReadContent(headers[CONTENT_LENGTH], stream)
  }

  /** A `Content-Length` value that `parse()` rejects is
      `MalformedContentLength`; otherwise that many bytes are read, one at a
      time, failing with `StreamReadError` when the stream runs out. */
  function ReadContent(value: Bytes, stream: Bytes): (r: Result<Parsed<Bytes>, Error>)
    ensures ParseI32(value).None? ==> r == Failure(InvalidContentLength(MalformedContentLength))
    ensures ParseI32(value).Some? ==>
              var n := ParseI32(value).value;
              var m := if n < 0 then 0 else n;
              && (m <= |stream| ==> r == Success(Parsed(stream[..m], stream[m..])))
              && (m > |stream| ==> r == Failure(StreamReadError))
  {
    match ParseI32(value)
    case None => Failure(InvalidContentLength(MalformedContentLength))
    case Some(length) =>
      ContentLoopSpec(stream, 0, length, []);
      assert forall m :: 0 <= m <= |stream| ==> [] + stream[..m] == stream[..m];
      ContentLoop(stream, 0, length, [])
  }

  /** `HTTPResponse::read_http_response`. */
  function ParseResponse(stream: Bytes): (r: Result<Parsed<HTTPResponse>, Error>)
  {
    var line :- ReadStatusLine(stream);
    var reason :- ReadReason(line.rest);
    var headers :- HeaderLoop(reason.rest, map[]);
    var content :- ReadResponseContent(headers.value, headers.rest);
    Success(Parsed(
      HTTPResponse(line.value.tag, line.value.version, line.value.status, reason.value, headers.value, content.value),
      content.rest))
  }

  /** The method and path loops of `read_http_request` ignore read errors and
      re-test a buffer a failed read left unchanged, so they only return when
      the stream holds a space for each of them. */
  predicate RequestLineEnds(stream: Bytes) {
    var i := IndexOf(stream, SP);
    i < |stream| && IndexOf(stream[i + 1..], SP) < |stream| - i - 1
  }

  /** `while buf[0] != b' ' { push(buf[0]); let _ = stream.read(buf) }`,
      pushing onto a `String`, reached with a space still ahead. */
  function SpaceLoop(stream: Bytes, cur: byte, acc: Bytes): (r: Parsed<Bytes>)
    requires cur == SP || SP in stream
    ensures |r.rest| <= |stream|
    decreases |stream|
  {
    if cur == SP then Parsed(acc, stream)
    else
      var o := Read(stream, [cur]);
      SpaceLoop(o.vector, o.buf[0], acc + Latin1(cur))
  }

  /** The loop collects, widened, every byte before the first space and
      consumes it. */
  lemma {:induction false} SpaceLoopSpec(stream: Bytes, cur: byte, acc: Bytes)
    requires cur == SP || SP in stream
    ensures cur == SP ==> SpaceLoop(stream, cur, acc) == Parsed(acc, stream)
    ensures cur != SP ==>
              var k := IndexOf(stream, SP);
              SpaceLoop(stream, cur, acc) == Parsed(acc + Latin1(cur) + Widen(stream[..k]), stream[k + 1..])
    decreases |stream|
  {
    if cur != SP {
      var b, v := stream[0], stream[1..];
      assert Read(stream, [cur]) == ReadOutcome(v, [b], Success(1));
      assert b == SP || SP in v;
      SpaceLoopSpec(v, b, acc + Latin1(cur));
      if b == SP {
        assert stream[..0] == [] && acc + Latin1(cur) + Widen([]) == acc + Latin1(cur);
      } else {
        ShiftWiden(stream, SP, acc + Latin1(cur));
      }
    }
  }

  /** The request line up to the version: the method is every byte before
      the first space and the path every byte between the first two, each
      widened by the `String` it is collected in. */
  function ReadRequestLine(stream: Bytes): (r: Parsed<(Bytes, Bytes)>)
    requires RequestLineEnds(stream)
    ensures var i := IndexOf(stream, SP);
            var rest := stream[i + 1..];
            var k := IndexOf(rest, SP);
            && k < |rest|
            && r == Parsed((Widen(stream[..i]), Widen(rest[..k])), rest[k + 1..])
  {
    var httpmethod := ReadWord(stream);
    var path := ReadWord(httpmethod.rest);
    Parsed((httpmethod.value, path.value), path.rest)
  }

  /** One word of the request line: a one-byte read, then the space loop up
      to the first space, which is consumed. */
  function ReadWord(stream: Bytes): (r: Parsed<Bytes>)
    requires IndexOf(stream, SP) < |stream|
    ensures var k := IndexOf(stream, SP);
            r == Parsed(Widen(stream[..k]), stream[k + 1..])
  {
    assert stream[IndexOf(stream, SP)] == SP;
    SpaceLoopBytes(stream);
    var first := Read(stream, [0]);
    SpaceLoop(first.vector, first.buf[0], [])
  }

  /** A space loop started by a one-byte read collects the bytes before the
      first space of the stream and consumes that space. */
  lemma SpaceLoopBytes(stream: Bytes)
    requires SP in stream
    ensures var first := Read(stream, [0]);
            var k := IndexOf(stream, SP);
            && (first.buf[0] == SP || SP in first.vector)
            && SpaceLoop(first.vector, first.buf[0], []) == Parsed(Widen(stream[..k]), stream[k + 1..])
  {
    ReadOne(stream, 0);
    SpaceAfterFirst(stream);
  }

  lemma SpaceAfterFirst(stream: Bytes)
    requires SP in stream
    ensures var k := IndexOf(stream, SP);
            && (stream[0] == SP || SP in stream[1..])
            && SpaceLoop(stream[1..], stream[0], []) == Parsed(Widen(stream[..k]), stream[k + 1..])
  {
    var v := stream[1..];
    var k := IndexOf(stream, SP);
    if stream[0] == SP {
      SpaceLoopSpec(v, stream[0], []);
      assert k == 0 && stream[..k] == [] && stream[k + 1..] == v;
    } else {
      ShiftWiden(stream, SP, []);
      assert SP in v by { assert v[k - 1] == SP; }
      SpaceLoopSpec(v, stream[0], []);
      assert [] + Widen(stream[..k]) == Widen(stream[..k]);
    }
  }

  /** `HTTPRequest::read_http_request`. */
  function ParseRequest(stream: Bytes): (r: Result<Parsed<HTTPRequest>, Error>)
    requires RequestLineEnds(stream)
  {
    var line := ReadRequestLine(stream);
    var tv :- ReadTagVersion(line.rest);
    RequestFromHeaders(line.value.0, line.value.1, tv.value.0, tv.value.1, SkipByte(tv.rest))
  }

  /** A request `read_http_request` returns carries the first two words of
      the request line, widened, as its method and path. */
  lemma ParsedRequestLine(stream: Bytes)
    requires RequestLineEnds(stream) && ParseRequest(stream).Success?
    ensures var i := IndexOf(stream, SP);
            var rest := stream[i + 1..];
            var q := ParseRequest(stream).value.value;
            && q.httpmethod == Widen(stream[..i])
            && q.path == Widen(rest[..IndexOf(rest, SP)])
  {
  }

  /** The rest of `read_http_request` once the version is read: the header
      block, then the content. */
  function RequestFromHeaders(httpmethod: Bytes, path: Bytes, httptag: Bytes, httpversion: (i32, i32), stream: Bytes)
    : (r: Result<Parsed<HTTPRequest>, Error>)
  {
    var headers :- HeaderLoop(stream, map[]);
    var content :- ReadRequestContent(headers.value, headers.rest);
    Success(Parsed(HTTPRequest(httpmethod, path, httptag, httpversion, headers.value, content.value), content.rest))
  }
}
