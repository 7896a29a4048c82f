/** `read_http_response` against the response serialiser: which error each
    malformed status line gives, what the parser makes of a well-formed
    response, and the round trip through `Into<Vec<u8>>` with its two
    quirks (the reason keeps the space before it, and the content is read
    from the LF that follows the header block's CR). */
module HttpResponseCodec {
  import opened Wrappers
  import opened Bytes
  import opened ReadableVec
  import opened HttpStatus
  import opened HttpVersion
  import opened HttpMessage
  import opened HttpParse
  import opened HttpHeaders

  /** An accepted status line of twelve bytes is consumed whole. */
  lemma StatusLineAccepts(head: Bytes, tail: Bytes, version: (i32, i32), code: i32, status: StatusCode)
    requires |head| == 12 && head[..5] == HTTP_SLASH
    requires ParseVersion(head[5..8]) == Some(version)
    requires ParseI32(head[9..12]) == Some(code) && FromI32(code) == Some(status)
    ensures ReadStatusLine(head + tail) == Success(Parsed(StatusLine(HTTP_SLASH, version, status), tail))
  {
    var stream := head + tail;
    assert stream[..5] == HTTP_SLASH && stream[5..8] == head[5..8] && stream[9..12] == head[9..12];
    assert stream[12..] == tail;
  }

  /** A reason without CR is read up to the CR after it, and the byte after
      that CR is skipped. */
  lemma ReasonAccepts(reason: Bytes, y: byte, tail: Bytes)
    requires CR !in reason
    ensures ReadReason(reason + [CR, y] + tail) == Success(Parsed(reason, tail))
  {
    var after := [y] + tail;
    assert reason + [CR, y] + tail == reason + [CR] + after;
    IndexOfPrefix(reason, CR, after);
    assert (reason + [CR] + after)[..|reason|] == reason;
    assert (reason + [CR] + after)[|reason| + 1..] == after;
  }

  /** A response whose status line is accepted: the reason is every byte up
      to the first CR, the byte after that CR is skipped, the header lines
      are read in order with their keys and values widened, and
      `Content-Length` then decides how much of the bytes after the header
      block's CR is the content. */
  lemma ParseResponseReads(head: Bytes, reason: Bytes, y: byte, pairs: seq<(Bytes, Bytes)>, body: Bytes,
                           version: (i32, i32), code: i32, status: StatusCode)
    requires |head| == 12 && head[..5] == HTTP_SLASH
    requires ParseVersion(head[5..8]) == Some(version)
    requires ParseI32(head[9..12]) == Some(code) && FromI32(code) == Some(status)
    requires CR !in reason && WellFormedPairs(pairs)
    ensures var stream := head + (reason + [CR, y] + (HeaderLines(pairs) + [CR] + body));
            var headers := InsertAll(map[], WidenPairs(pairs));
            ParseResponse(stream) ==
              match ReadResponseContent(headers, body)
              case Failure(e) => Failure(e)
              case Success(content) =>
                Success(Parsed(HTTPResponse(HTTP_SLASH, version, status, reason, headers, content.value), content.rest))
  {
    var tail := reason + [CR, y] + (HeaderLines(pairs) + [CR] + body);
    StatusLineAccepts(head, tail, version, code, status);
    ReasonAccepts(reason, y, HeaderLines(pairs) + [CR] + body);
    HeaderLoopReadsLines(pairs, body, map[]);
  }

  /** The serialised status code is three digits that parse back to the
      code, and the code maps back to the status. */
  lemma StatusDigits(status: StatusCode)
    ensures var s := SignedDecimal(Code(status));
            |s| == 3 && ParseI32(s) == Some(Code(status)) && FromI32(Code(status)) == Some(status)
  {
    DecimalLength(Code(status));
    ParsePrintsBack(Code(status));
    StatusBijection(Code(status), status);
  }

  /** A length written by `to_string` parses back when it fits in an `i32`
      and is rejected when it does not. */
  lemma DecimalLengthParses(n: nat)
    ensures n <= I32_MAX ==> ParseI32(Decimal(n)) == Some(n)
    ensures n > I32_MAX ==> ParseI32(Decimal(n)) == None
  {
    if n <= I32_MAX {
      ParsePrintsBack(n);
    } else {
      var d := Decimal(n);
      assert IsDigit(d[0]);
    }
  }

  /** The preconditions under which a serialised response is read back as
      far as its content. */
  predicate HeadersReparsable(r: HTTPResponse, order: seq<Bytes>) {
    && r.httptag == HTTP
    && 0 <= r.httpversion.0 <= 9 && 0 <= r.httpversion.1 <= 9
    && CR !in r.reason
    && Enumerates(order, r.headers) && WellFormedHeaders(r.headers) && AsciiHeaders(r.headers)
    && CONTENT_LENGTH in r.headers
  }

  /** The preconditions under which a serialised response parses back. */
  predicate Reparsable(r: HTTPResponse, order: seq<Bytes>) {
    && HeadersReparsable(r, order)
    && r.headers[CONTENT_LENGTH] == Decimal(|r.content|)
    && |r.content| <= I32_MAX
  }

  /** The serialised status line of a response tagged `HTTP` with a
      single-digit version is twelve bytes the status-line reader accepts. */
  lemma StatusHead(version: (i32, i32), status: StatusCode)
    requires 0 <= version.0 <= 9 && 0 <= version.1 <= 9
    ensures var head := HTTP_SLASH + VersionBytes(version) + [SP] + SignedDecimal(Code(status));
            && |head| == 12 && head[..5] == HTTP_SLASH
            && ParseVersion(head[5..8]) == Some(version)
            && ParseI32(head[9..12]) == Some(Code(status)) && FromI32(Code(status)) == Some(status)
  {
    var v := VersionBytes(version);
    var s := SignedDecimal(Code(status));
    SingleDigitVersion(version);
    ParseVersionInverts(v, version);
    StatusDigits(status);
    var head := HTTP_SLASH + v + [SP] + s;
    assert head[..5] == HTTP_SLASH && head[5..8] == v && head[9..12] == s;
  }

  /** Regrouping of the serialised response after the status code. */
  lemma ResponseCut(p: Bytes, reason: Bytes, h: Bytes, c: Bytes)
    ensures p + [SP] + reason + CRLF + h + CRLF + c + CRLF
            == p + (([SP] + reason) + [CR, LF] + (h + [CR] + ([LF] + c + CRLF)))
  {
    var tail := h + [CR] + ([LF] + c + CRLF);
    assert h + CRLF + c + CRLF == tail;
    var q := [SP] + reason + CRLF;
    assert q == ([SP] + reason) + [CR, LF];
    assert p + [SP] + reason + CRLF == p + q;
    assert p + q + h + CRLF + c + CRLF == p + (q + tail);
  }

  /** The serialised response cut where the parser's stages meet. */
  lemma ResponseBytesShape(r: HTTPResponse, order: seq<Bytes>)
    requires Enumerates(order, r.headers) && r.httptag == HTTP
    ensures ResponseBytes(r, order) ==
              (HTTP_SLASH + VersionBytes(r.httpversion) + [SP] + SignedDecimal(Code(r.statuscode)))
              + (([SP] + r.reason) + [CR, LF] + (HeaderLines(Pairs(r.headers, order)) + [CR] + ([LF] + r.content + CRLF)))
  {
    var content := if |r.content| != 0 then r.content else [];
    assert content == r.content;
    assert r.httptag + [SLASH] == HTTP_SLASH;
    ResponseCut(HTTP_SLASH + VersionBytes(r.httpversion) + [SP] + SignedDecimal(Code(r.statuscode)),
                r.reason, HeaderLines(Pairs(r.headers, order)), r.content);
  }

  /** Parsing a serialised response gives back its version, status and
      headers. The tag comes back as `HTTP/`, the reason with the space that
      separates it from the status code, and the content shifted by one: the
      parser starts reading it at the LF after the header block's CR. */
  lemma ResponseRoundTrip(r: HTTPResponse, order: seq<Bytes>)
    requires Reparsable(r, order)
    ensures ParseResponse(ResponseBytes(r, order)) ==
              Success(Parsed(
                HTTPResponse(HTTP_SLASH, r.httpversion, r.statuscode, [SP] + r.reason, r.headers,
                             ([LF] + r.content)[..|r.content|]),
                ([LF] + r.content + CRLF)[|r.content|..]))
  {
    ResponseReadsBack(r, order);
    ContentOfLength(r.content);
  }

  /** A serialised response is read back up to its content, which its own
      `Content-Length` then measures out of what follows the header block's
      CR. */
  lemma ResponseReadsBack(r: HTTPResponse, order: seq<Bytes>)
    requires HeadersReparsable(r, order)
    ensures ParseResponse(ResponseBytes(r, order)) ==
              match ReadContent(r.headers[CONTENT_LENGTH], [LF] + r.content + CRLF)
              case Failure(e) => Failure(e)
              case Success(c) =>
                Success(Parsed(HTTPResponse(HTTP_SLASH, r.httpversion, r.statuscode, [SP] + r.reason, r.headers, c.value),
                               c.rest))
  {
    var pairs := Pairs(r.headers, order);
    StatusHead(r.httpversion, r.statuscode);
    ResponseBytesShape(r, order);
    PairsWellFormed(r.headers, order);
    PairsAscii(r.headers, order);
    WidenPairsAscii(pairs);
    PairsRebuild(r.headers, order);
    assert CR !in [SP] + r.reason;
    var head := HTTP_SLASH + VersionBytes(r.httpversion) + [SP] + SignedDecimal(Code(r.statuscode));
    var body := [LF] + r.content + CRLF;
    ParseResponseReads(head, [SP] + r.reason, LF, pairs, body, r.httpversion, Code(r.statuscode), r.statuscode);
  }

  /** A `Content-Length` that `to_string` wrote for `c` reads `|c|` bytes of
      what follows the header block's CR: the LF, then `c` without its last
      byte. */
  lemma ContentOfLength(c: Bytes)
    requires |c| <= I32_MAX
    ensures var body := [LF] + c + CRLF;
            ReadContent(Decimal(|c|), body) == Success(Parsed(([LF] + c)[..|c|], body[|c|..]))
  {
    DecimalLengthParses(|c|);
    ContentRead(Decimal(|c|), c);
  }

  /** Any length text that parses to `|c|` reads the same bytes. */
  lemma ContentRead(value: Bytes, c: Bytes)
    requires ParseI32(value) == Some(|c|)
    ensures var body := [LF] + c + CRLF;
            ReadContent(value, body) == Success(Parsed(([LF] + c)[..|c|], body[|c|..]))
  {
    var body := [LF] + c + CRLF;
    assert body[..|c|] == ([LF] + c)[..|c|];
  }

  /** Empty content survives the round trip; what changes is only the tag
      and the reason's leading space. */
  lemma EmptyContentRoundTrip(r: HTTPResponse, order: seq<Bytes>)
    requires Reparsable(r, order) && r.content == []
    ensures var p := ParseResponse(ResponseBytes(r, order));
            && p.Success?
            && p.value.value == r.(httptag := HTTP_SLASH, reason := [SP] + r.reason)
            && p.value.rest == [LF, CR, LF]
  {
    ResponseRoundTrip(r, order);
    EmptyShift(r.content);
  }

  lemma EmptyShift(c: Bytes)
    requires c == []
    ensures ([LF] + c)[..|c|] == c
    ensures ([LF] + c + CRLF)[|c|..] == [LF, CR, LF]
  {
  }

  /** Non-empty content comes back as an LF followed by all but its last
      byte, which equals the original exactly when every byte is an LF. */
  lemma ContentShifted(r: HTTPResponse, order: seq<Bytes>)
    requires Reparsable(r, order) && |r.content| > 0
    ensures var p := ParseResponse(ResponseBytes(r, order));
            && p.Success?
            && p.value.value.content == [LF] + r.content[..|r.content| - 1]
            && (p.value.value.content == r.content <==> forall i :: 0 <= i < |r.content| ==> r.content[i] == LF)
  {
    ResponseRoundTrip(r, order);
    assert ([LF] + r.content)[..|r.content|] == [LF] + r.content[..|r.content| - 1];
    ShiftFixedIffAllLF(r.content);
  }

  /** A byte string equals an LF followed by all but its last byte exactly
      when all its bytes are LF. */
  lemma ShiftFixedIffAllLF(c: Bytes)
    requires |c| > 0
    ensures c == [LF] + c[..|c| - 1] <==> forall i :: 0 <= i < |c| ==> c[i] == LF
  {
    if c == [LF] + c[..|c| - 1] {
      forall i | 0 <= i < |c| ensures c[i] == LF {
        ShiftedIsLF(c, i);
      }
    }
  }

  lemma {:induction false} ShiftedIsLF(c: Bytes, i: nat)
    requires |c| > 0 && c == [LF] + c[..|c| - 1] && i < |c|
    ensures c[i] == LF
    decreases i
  {
    if i > 0 {
      ShiftedIsLF(c, i - 1);
      assert c[i] == ([LF] + c[..|c| - 1])[i] == c[i - 1];
    }
  }

  /** The response of `src/lib.rs`'s `test_parse`: status 204, version 1.1,
      reason "OK", and the headers `Host: example.com` and
      `Content-Length: 0`. Serialising it in either header order and parsing
      the bytes back succeeds. */
  lemma TestParseResponse(order: seq<Bytes>)
    requires var host: Bytes := [72, 111, 115, 116];
             var example: Bytes := [101, 120, 97, 109, 112, 108, 101, 46, 99, 111, 109];
             Enumerates(order, map[host := example, CONTENT_LENGTH := Decimal(0)])
    ensures var host: Bytes := [72, 111, 115, 116];
            var example: Bytes := [101, 120, 97, 109, 112, 108, 101, 46, 99, 111, 109];
            var r := HTTPResponse(HTTP, (1, 1), NoContent, OK_REASON,
                                  map[host := example, CONTENT_LENGTH := Decimal(0)], []);
            ParseResponse(ResponseBytes(r, order)).Success?
  {
    var host: Bytes := [72, 111, 115, 116];
    var example: Bytes := [101, 120, 97, 109, 112, 108, 101, 46, 99, 111, 109];
    var r := HTTPResponse(HTTP, (1, 1), NoContent, OK_REASON,
                          map[host := example, CONTENT_LENGTH := Decimal(0)], []);
    assert Decimal(0) == [48];
    assert CR !in OK_REASON;
    assert WellFormedHeaders(r.headers);
    assert IsAscii(host) && IsAscii(example) && IsAscii(CONTENT_LENGTH) && IsAscii(Decimal(0));
    assert AsciiHeaders(r.headers);
    EmptyContentRoundTrip(r, order);
  }

  /** The one header `HTTPResponse::from(&str)` sets is well formed and
      ASCII. */
  lemma FromTextHeaders(value: Bytes)
    ensures var r := FromText(value);
            Enumerates([CONTENT_LENGTH], r.headers) && WellFormedHeaders(r.headers) && AsciiHeaders(r.headers)
  {
    var d := Decimal(|value|);
    forall i | 0 <= i < |d| ensures d[i] != CR && d[i] < 0x80 {
      assert IsDigit(d[i]);
    }
    assert IsAscii(CONTENT_LENGTH);
  }

  /** A response made by `HTTPResponse::from(&str)`, whatever status and
      CR-free reason it is then given, parses back when its length fits in
      an `i32`. */
  lemma FromTextReparsable(value: Bytes, status: StatusCode, reason: Bytes)
    requires CR !in reason && |value| <= I32_MAX
    ensures Reparsable(FromText(value).(statuscode := status, reason := reason), [CONTENT_LENGTH])
  {
    FromTextHeaders(value);
  }

  /** `HTTPResponse::from(&str)` serialises to a response that parses back
      when its length fits in an `i32`, and to one whose `Content-Length`
      the parser rejects when it does not. */
  lemma FromTextRoundTrip(value: Bytes)
    ensures var r := FromText(value);
            var p := ParseResponse(ResponseBytes(r, [CONTENT_LENGTH]));
            && (|value| <= I32_MAX ==>
                  && p.Success?
                  && p.value.value.statuscode == Ok
                  && p.value.value.reason == [SP] + OK_REASON
                  && p.value.value.headers == r.headers
                  && p.value.value.content == ([LF] + value)[..|value|])
            && (|value| > I32_MAX ==> p == Failure(InvalidContentLength(MalformedContentLength)))
  {
    if |value| <= I32_MAX {
      FromTextFits(value);
    } else {
      FromTextTooLong(value);
    }
  }

  lemma FromTextFits(value: Bytes)
    requires |value| <= I32_MAX
    ensures var r := FromText(value);
            var p := ParseResponse(ResponseBytes(r, [CONTENT_LENGTH]));
            && p.Success?
            && p.value.value.statuscode == Ok
            && p.value.value.reason == [SP] + OK_REASON
            && p.value.value.headers == r.headers
            && p.value.value.content == ([LF] + value)[..|value|]
  {
    var r := FromText(value);
    assert CR !in OK_REASON;
    FromTextReparsable(value, Ok, OK_REASON);
    assert r == r.(statuscode := Ok, reason := OK_REASON);
    ResponseRoundTrip(r, [CONTENT_LENGTH]);
  }

  /** Past `i32::MAX` bytes the `Content-Length` no longer parses. */
  lemma FromTextTooLong(value: Bytes)
    requires |value| > I32_MAX
    ensures ParseResponse(ResponseBytes(FromText(value), [CONTENT_LENGTH]))
            == Failure(InvalidContentLength(MalformedContentLength))
  {
    var r := FromText(value);
    FromTextHeaders(value);
    assert CR !in OK_REASON;
    ResponseReadsBack(r, [CONTENT_LENGTH]);
    DecimalLengthParses(|value|);
  }
}
