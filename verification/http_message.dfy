/** HTTP/1.x messages (`HTTPRequest`, `HTTPResponse`), the codec's error
    enum, and the two serialisers (`Into<Vec<u8>>`) plus
    `HTTPResponse::from(&str)`. Header maps are `HashMap`s in the source,
    whose iteration order is unspecified: every serialiser here takes that
    order as an explicit enumeration of the keys. */
module HttpMessage {
  import opened Bytes
  import opened HttpStatus
  import opened HttpVersion

  datatype InvalidContentLengthReason = MissingContentLength | MalformedContentLength

  datatype Error =
    | UnreadableMessageError
    | InvalidVersionError
    | UnreadableStatusCode
    | UnknownStatusError
    | InvalidContentLength(reason: InvalidContentLengthReason)
    | StreamReadError
    | CouldntConnect
    | CouldntSend
    | NotHTTP

  type Headers = map<Bytes, Bytes>

  datatype HTTPResponse = HTTPResponse(
    httptag: Bytes,
    httpversion: (i32, i32),
    statuscode: StatusCode,
    reason: Bytes,
    headers: Headers,
    content: Bytes)

  datatype HTTPRequest = HTTPRequest(
    httpmethod: Bytes,
    path: Bytes,
    httptag: Bytes,
    httpversion: (i32, i32),
    headers: Headers,
    content: Bytes)

  /** "HTTP" */
  const HTTP: Bytes := [72, 84, 84, 80]
  /** "HTTP/", the five bytes both parsers demand and store as the tag */
  const HTTP_SLASH: Bytes := [72, 84, 84, 80, 47]
  /** "Content-Length" */
  const CONTENT_LENGTH: Bytes := [67, 111, 110, 116, 101, 110, 116, 45, 76, 101, 110, 103, 116, 104]
  /** "OK" */
  const OK_REASON: Bytes := [79, 75]

  /** `order` is an iteration order of `headers`: every key exactly once. */
  predicate Enumerates(order: seq<Bytes>, headers: Headers) {
    && (forall i :: 0 <= i < |order| ==> order[i] in headers)
    && (forall k :: k in headers ==> k in order)
    && (forall i, j :: 0 <= i < j < |order| ==> order[i] != order[j])
  }

  /** The `(key, value)` pairs of `headers` in the order `order` lists them. */
  function Pairs(headers: Headers, order: seq<Bytes>): (pairs: seq<(Bytes, Bytes)>)
    requires forall i :: 0 <= i < |order| ==> order[i] in headers
    ensures |pairs| == |order|
    ensures forall i :: 0 <= i < |order| ==> pairs[i] == (order[i], headers[order[i]])
    ensures Enumerates(order, headers) ==> (set i | 0 <= i < |pairs| :: pairs[i]) == headers.Items
  {
    var pairs := seq(|order|, i requires 0 <= i < |order| => (order[i], headers[order[i]]));
    PairsCoverItems(headers, order, pairs);
    pairs
  }

  /** Pairs listed along an enumeration are exactly the map's entries. */
  lemma PairsCoverItems(headers: Headers, order: seq<Bytes>, pairs: seq<(Bytes, Bytes)>)
    requires |pairs| == |order|
    requires forall i :: 0 <= i < |order| ==> order[i] in headers && pairs[i] == (order[i], headers[order[i]])
    ensures Enumerates(order, headers) ==> (set i | 0 <= i < |pairs| :: pairs[i]) == headers.Items
  {
    if Enumerates(order, headers) {
      var listed := set i | 0 <= i < |pairs| :: pairs[i];
      forall e | e in headers.Items
        ensures e in listed
      {
        var k := e.0;
        assert k in headers && headers[k] == e.1;
        var i :| 0 <= i < |order| && order[i] == k;
        assert pairs[i] == e;
      }
    }
  }

  /** One header line as both serialisers write it: key, `: `, value, CRLF. */
  function HeaderLine(key: Bytes, value: Bytes): Bytes {
    key + [COLON, SP] + value + CRLF
  }

  /** The header lines of `pairs`, in order. */
  function HeaderLines(pairs: seq<(Bytes, Bytes)>): Bytes
    decreases |pairs|
  {
    if |pairs| == 0 then [] else HeaderLine(pairs[0].0, pairs[0].1) + HeaderLines(pairs[1..])
  }

  /** `Into<Vec<u8>> for HTTPResponse`: status line, header lines, an empty
      line, the content when there is any, and a closing CRLF. */
  function ResponseBytes(r: HTTPResponse, order: seq<Bytes>): Bytes
    requires Enumerates(order, r.headers)
  {
    r.httptag + [SLASH] + VersionBytes(r.httpversion) + [SP]
    + SignedDecimal(Code(r.statuscode)) + [SP] + r.reason + CRLF
    + HeaderLines(Pairs(r.headers, order))
    + CRLF
    + (if |r.content| != 0 then r.content else [])
    + CRLF
  }

  /** `Into<Vec<u8>> for HTTPRequest`: request line, header lines, the content
      when there is any, and a closing CRLF. No empty line separates the
      headers from the content. */
  function RequestBytes(r: HTTPRequest, order: seq<Bytes>): Bytes
    requires Enumerates(order, r.headers)
  {
    r.httpmethod + [SP] + r.path + [SP] + r.httptag + [SLASH] + VersionBytes(r.httpversion) + CRLF
    + HeaderLines(Pairs(r.headers, order))
    + (if |r.content| != 0 then r.content else [])
    + CRLF
  }

  /** `HTTPResponse::from(&str)`: a 200 response, version 1.1, reason "OK",
      the text as content and a `Content-Length` header holding its length. */
  function FromText(value: Bytes): (r: HTTPResponse)
    ensures r.statuscode == Ok && r.httpversion == (1, 1)
    ensures r.httptag == HTTP && r.reason == OK_REASON
    ensures r.content == value
    ensures r.headers.Keys == {CONTENT_LENGTH}
    ensures r.headers[CONTENT_LENGTH] == Decimal(|value|)
  {
    HTTPResponse(HTTP, (1, 1), Ok, OK_REASON, map[CONTENT_LENGTH := Decimal(|value|)], value)
  }
}
