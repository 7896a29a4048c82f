/** `read_http_request` against the request serialiser. After the version
    the parser skips only the CR of the request line's CRLF, so the LF
    becomes the first byte of the first header key; and since the
    serialiser writes no empty line before the content, a request without
    headers, whose content has no `:`, cannot be read back. */
module HttpRequestCodec {
  import opened Wrappers
  import opened Bytes
  import opened ReadableVec
  import opened HttpVersion
  import opened HttpMessage
  import opened HttpParse
  import opened HttpHeaders
  import opened Widening

  /** The pairs with an LF put in front of the first key. */
  function FirstKeyPrefixed(pairs: seq<(Bytes, Bytes)>): (r: seq<(Bytes, Bytes)>)
    requires |pairs| > 0
    ensures |r| == |pairs| && r[1..] == pairs[1..]
    ensures r[0] == ([LF] + pairs[0].0, pairs[0].1)
  {
    [([LF] + pairs[0].0, pairs[0].1)] + pairs[1..]
  }

  /** An LF in front of the header lines is an LF in front of the first key. */
  lemma {:induction false} LFJoinsFirstKey(pairs: seq<(Bytes, Bytes)>)
    requires |pairs| > 0
    ensures [LF] + HeaderLines(pairs) == HeaderLines(FirstKeyPrefixed(pairs))
  {
    var q := FirstKeyPrefixed(pairs);
    var a, b := HeaderLine(pairs[0].0, pairs[0].1), HeaderLines(pairs[1..]);
    assert HeaderLines(pairs) == a + b;
    assert HeaderLines(q) == ([LF] + a) + b by {
      LFHeaderLine(pairs[0].0, pairs[0].1);
    }
    assert [LF] + (a + b) == ([LF] + a) + b;
  }

  lemma LFHeaderLine(key: Bytes, value: Bytes)
    ensures [LF] + HeaderLine(key, value) == HeaderLine([LF] + key, value)
  {
    var t := [COLON, SP] + value + CRLF;
    assert HeaderLine(key, value) == key + t;
    assert HeaderLine([LF] + key, value) == [LF] + key + t;
  }

  /** The preconditions under which a serialised request parses back. */
  predicate Reparsable(r: HTTPRequest, order: seq<Bytes>) {
    && SP !in r.httpmethod && SP !in r.path
    && IsAscii(r.httpmethod) && IsAscii(r.path) && AsciiHeaders(r.headers)
    && r.httptag == HTTP
    && 0 <= r.httpversion.0 <= 9 && 0 <= r.httpversion.1 <= 9
    && Enumerates(order, r.headers) && WellFormedHeaders(r.headers)
    && |order| > 0
    && CONTENT_LENGTH !in r.headers
    && r.content == []
  }

  /** The serialised request regrouped where the parser's stages meet. */
  lemma RequestCut(m: Bytes, p: Bytes, v: Bytes, h: Bytes, c: Bytes)
    ensures m + [SP] + p + [SP] + HTTP + [SLASH] + v + CRLF + h + c + CRLF
            == m + [SP] + (p + [SP] + (HTTP_SLASH + v + (CRLF + (h + c + CRLF))))
  {
    var z := CRLF + (h + c + CRLF);
    assert CRLF + h + c + CRLF == z;
    var y := HTTP_SLASH + v + z;
    assert HTTP + [SLASH] + v + CRLF + h + c + CRLF == y;
    var x := p + [SP] + y;
    assert p + [SP] + HTTP + [SLASH] + v + CRLF + h + c + CRLF == x;
  }

  /** A request line whose method and path hold no space is split at its
      first two spaces, and the method and path come back widened. */
  lemma RequestLineSplits(m: Bytes, p: Bytes, y: Bytes)
    requires SP !in m && SP !in p
    ensures var stream := m + [SP] + (p + [SP] + y);
            && RequestLineEnds(stream)
            && ReadRequestLine(stream) == Parsed((Widen(m), Widen(p)), y)
  {
    var x := p + [SP] + y;
    var stream := m + [SP] + x;
    IndexOfPrefix(m, SP, x);
    assert stream[..|m|] == m && stream[|m| + 1..] == x;
    IndexOfPrefix(p, SP, y);
    assert x[..|p|] == p && x[|p| + 1..] == y;
    assert SP in x by { assert x[|p|] == SP; }
  }

  /** `HTTP/` and a serialised single-digit version are accepted and
      consumed. */
  lemma TagVersionAccepts(version: (i32, i32), z: Bytes)
    requires 0 <= version.0 <= 9 && 0 <= version.1 <= 9
    ensures ReadTagVersion(HTTP_SLASH + VersionBytes(version) + z) == Success(Parsed((HTTP_SLASH, version), z))
  {
    var v := VersionBytes(version);
    SingleDigitVersion(version);
    ParseVersionInverts(v, version);
    var y := HTTP_SLASH + v + z;
    assert y[..5] == HTTP_SLASH && y[5..8] == v && y[8..] == z;
  }

  /** A request whose request line is accepted: the method and path are
      widened, the header loop starts on the LF of the request line's CRLF,
      and `Content-Length`, when present, decides how much of what follows
      the header block's CR is the content. */
  lemma {:induction false} ParseRequestReads(m: Bytes, p: Bytes, version: (i32, i32), tail: Bytes)
    requires SP !in m && SP !in p
    requires 0 <= version.0 <= 9 && 0 <= version.1 <= 9
    ensures var stream := m + [SP] + (p + [SP] + (HTTP_SLASH + VersionBytes(version) + (CRLF + tail)));
            && RequestLineEnds(stream)
            && ParseRequest(stream) == RequestFromHeaders(Widen(m), Widen(p), HTTP_SLASH, version, [LF] + tail)
  {
    var z := CRLF + tail;
    var y := HTTP_SLASH + VersionBytes(version) + z;
    RequestLineSplits(m, p, y);
    TagVersionAccepts(version, z);
    SkipCR(tail);
    RequestStages(m + [SP] + (p + [SP] + y), Widen(m), Widen(p), y, version, z);
  }

  lemma SkipCR(tail: Bytes)
    ensures SkipByte(CRLF + tail) == [LF] + tail
  {
    assert (CRLF + tail)[1..] == [LF] + tail;
  }

  /** `read_http_request` composed from its request-line and version
      stages. */
  lemma RequestStages(stream: Bytes, m: Bytes, p: Bytes, y: Bytes, version: (i32, i32), z: Bytes)
    requires RequestLineEnds(stream)
    requires ReadRequestLine(stream) == Parsed((m, p), y)
    requires ReadTagVersion(y) == Success(Parsed((HTTP_SLASH, version), z))
    ensures ParseRequest(stream) == RequestFromHeaders(m, p, HTTP_SLASH, version, SkipByte(z))
  {
  }

  /** The header lines of a request with headers and no content, as the
      header loop reads them after the request line's LF. */
  lemma RequestHeadersRead(pairs: seq<(Bytes, Bytes)>)
    requires |pairs| > 0 && WellFormedPairs(pairs)
    ensures HeaderLoop([LF] + (HeaderLines(pairs) + [] + CRLF), map[])
            == Success(Parsed(InsertAll(map[], WidenPairs(FirstKeyPrefixed(pairs))), [LF]))
  {
    var q := FirstKeyPrefixed(pairs);
    PrefixedLines(pairs);
    PrefixedWellFormed(pairs);
    HeaderLoopReadsLines(q, [LF], map[]);
  }

  lemma PrefixedLines(pairs: seq<(Bytes, Bytes)>)
    requires |pairs| > 0
    ensures [LF] + (HeaderLines(pairs) + [] + CRLF) == HeaderLines(FirstKeyPrefixed(pairs)) + [CR] + [LF]
  {
    LFJoinsFirstKey(pairs);
    AppendCRLF(HeaderLines(pairs), HeaderLines(FirstKeyPrefixed(pairs)));
  }

  lemma AppendCRLF(h: Bytes, h2: Bytes)
    requires [LF] + h == h2
    ensures [LF] + (h + [] + CRLF) == h2 + [CR] + [LF]
  {
    assert h + [] == h;
  }

  /** Prefixing the first key with LF keeps the header lines ASCII. */
  lemma PrefixedAscii(pairs: seq<(Bytes, Bytes)>)
    requires |pairs| > 0 && AsciiPairs(pairs)
    ensures AsciiPairs(FirstKeyPrefixed(pairs))
  {
    var q := FirstKeyPrefixed(pairs);
    assert IsAscii(pairs[0].0);
    forall i | 1 <= i < |q| ensures IsAscii(q[i].0) && IsAscii(q[i].1) {
      assert q[i] == pairs[i];
    }
  }

  /** Prefixing the first key with LF keeps the header lines well formed. */
  lemma PrefixedWellFormed(pairs: seq<(Bytes, Bytes)>)
    requires |pairs| > 0 && WellFormedPairs(pairs)
    ensures WellFormedPairs(FirstKeyPrefixed(pairs))
  {
    var q := FirstKeyPrefixed(pairs);
    assert WellFormedHeader(pairs[0].0, pairs[0].1);
    forall i | 1 <= i < |q| ensures WellFormedHeader(q[i].0, q[i].1) {
      assert q[i] == pairs[i];
    }
  }

  /** The serialised request of `r`, regrouped for `ParseRequestReads`. */
  lemma RequestBytesShape(r: HTTPRequest, order: seq<Bytes>)
    requires Enumerates(order, r.headers) && r.httptag == HTTP
    ensures RequestBytes(r, order) ==
              r.httpmethod + [SP] + (r.path + [SP] + (HTTP_SLASH + VersionBytes(r.httpversion)
                + (CRLF + (HeaderLines(Pairs(r.headers, order)) + r.content + CRLF))))
  {
    var content := if |r.content| != 0 then r.content else [];
    assert content == r.content;
    RequestCut(r.httpmethod, r.path, VersionBytes(r.httpversion), HeaderLines(Pairs(r.headers, order)), r.content);
  }

  /** An ASCII request with headers and no content parses back to its
      method, path, version and header values. The tag comes back as
      `HTTP/`, and the request line's LF is glued to the front of the first
      key the serialiser wrote. */
  lemma RequestRoundTrip(r: HTTPRequest, order: seq<Bytes>)
    requires Reparsable(r, order)
    ensures var pairs := FirstKeyPrefixed(Pairs(r.headers, order));
            && RequestLineEnds(RequestBytes(r, order))
            && ParseRequest(RequestBytes(r, order)) ==
                 Success(Parsed(
                   HTTPRequest(r.httpmethod, r.path, HTTP_SLASH, r.httpversion, InsertAll(map[], pairs), []),
                   [LF]))
  {
    var pairs := Pairs(r.headers, order);
    var tail := HeaderLines(pairs) + [] + CRLF;
    RequestBytesShape(r, order);
    ParseRequestReads(r.httpmethod, r.path, r.httpversion, tail);
    PairsWellFormed(r.headers, order);
    RequestHeadersRead(pairs);
    PairsAscii(r.headers, order);
    PrefixedAscii(pairs);
    WidenPairsAscii(FirstKeyPrefixed(pairs));
    WidenAscii(r.httpmethod);
    WidenAscii(r.path);
    NoContentLength(r, order);
  }

  /** The parsed header map holds no `Content-Length` when the request has
      none: the only new key starts with LF. */
  lemma NoContentLength(r: HTTPRequest, order: seq<Bytes>)
    requires Reparsable(r, order)
    ensures CONTENT_LENGTH !in InsertAll(map[], FirstKeyPrefixed(Pairs(r.headers, order)))
  {
    var pairs := Pairs(r.headers, order);
    var q := FirstKeyPrefixed(pairs);
    InsertAllKeys(map[], q);
    forall i | 0 <= i < |q| ensures q[i].0 != CONTENT_LENGTH {
      if i == 0 {
        assert q[0].0[0] == LF;
      } else {
        assert q[i] == pairs[i];
      }
    }
  }

  /** The map with `k0` renamed to LF + `k0`, enumerated by `order` with
      its first key renamed the same way. */
  lemma RenamedEnumeration(headers: Headers, order: seq<Bytes>)
    requires Enumerates(order, headers) && |order| > 0
    requires forall k :: k in headers && |k| > 0 ==> k[0] != LF
    ensures var k0 := order[0];
            var renamed := (headers - {k0})[[LF] + k0 := headers[k0]];
            var order2 := [[LF] + k0] + order[1..];
            && Enumerates(order2, renamed)
            && Pairs(renamed, order2) == FirstKeyPrefixed(Pairs(headers, order))
  {
    var k0 := order[0];
    var renamed := (headers - {k0})[[LF] + k0 := headers[k0]];
    var order2 := [[LF] + k0] + order[1..];
    RenamedEnumerates(headers, order, k0, renamed, order2);
    LFKeyAbsent(headers, k0);
    RenamedPairs(headers, order, k0, renamed, order2);
  }

  /** A key starting with LF is not in the map. */
  lemma LFKeyAbsent(headers: Headers, k0: Bytes)
    requires forall k :: k in headers && |k| > 0 ==> k[0] != LF
    ensures [LF] + k0 !in headers
  {
    assert ([LF] + k0)[0] == LF;
  }

  lemma RenamedEnumerates(headers: Headers, order: seq<Bytes>, k0: Bytes, renamed: Headers, order2: seq<Bytes>)
    requires Enumerates(order, headers) && |order| > 0 && k0 == order[0]
    requires forall k :: k in headers && |k| > 0 ==> k[0] != LF
    requires renamed == (headers - {k0})[[LF] + k0 := headers[k0]]
    requires order2 == [[LF] + k0] + order[1..]
    ensures Enumerates(order2, renamed)
  {
    LFKeyAbsent(headers, k0);
    RenamedTail(headers, order, k0, order2);
    RenamedCovers(headers, order, k0, renamed, order2);
    assert forall i :: 0 <= i < |order2| ==> order2[i] in renamed;
  }

  /** Past the first position the renamed order lists the old keys other
      than `k0`, none of them the new key. */
  lemma RenamedTail(headers: Headers, order: seq<Bytes>, k0: Bytes, order2: seq<Bytes>)
    requires Enumerates(order, headers) && |order| > 0 && k0 == order[0]
    requires [LF] + k0 !in headers
    requires order2 == [[LF] + k0] + order[1..]
    ensures forall i :: 1 <= i < |order2| ==>
              order2[i] == order[i] && order2[i] in headers && order2[i] != k0 && order2[i] != [LF] + k0
  {
    forall i | 1 <= i < |order2|
      ensures order2[i] == order[i] && order2[i] in headers && order2[i] != k0 && order2[i] != [LF] + k0
    {
      assert order[i] != order[0];
    }
  }

  /** Every key of the renamed map is listed. */
  lemma RenamedCovers(headers: Headers, order: seq<Bytes>, k0: Bytes, renamed: Headers, order2: seq<Bytes>)
    requires Enumerates(order, headers) && |order| > 0 && k0 == order[0]
    requires renamed == (headers - {k0})[[LF] + k0 := headers[k0]]
    requires order2 == [[LF] + k0] + order[1..]
    ensures forall k :: k in renamed ==> k in order2
  {
    forall k | k in renamed ensures k in order2 {
      if k != [LF] + k0 {
        var i :| 0 <= i < |order| && order[i] == k;
        assert order2[i] == k;
      }
    }
  }

  lemma RenamedPairs(headers: Headers, order: seq<Bytes>, k0: Bytes, renamed: Headers, order2: seq<Bytes>)
    requires Enumerates(order, headers) && |order| > 0 && k0 == order[0]
    requires renamed == (headers - {k0})[[LF] + k0 := headers[k0]]
    requires order2 == [[LF] + k0] + order[1..]
    requires [LF] + k0 !in headers
    requires Enumerates(order2, renamed)
    ensures Pairs(renamed, order2) == FirstKeyPrefixed(Pairs(headers, order))
  {
    var p2 := Pairs(renamed, order2);
    var q := FirstKeyPrefixed(Pairs(headers, order));
    forall i | 1 <= i < |p2| ensures p2[i] == q[i] {
      assert order[i] != order[0];
      assert order2[i] == order[i] && order[i] in headers;
      assert renamed[order[i]] == headers[order[i]];
    }
  }

  /** When no key of the request starts with LF, the parsed headers are the
      request's headers with the first serialised key renamed to LF + key. */
  lemma FirstKeyRenamed(r: HTTPRequest, order: seq<Bytes>)
    requires Reparsable(r, order)
    requires forall k :: k in r.headers && |k| > 0 ==> k[0] != LF
    ensures RequestLineEnds(RequestBytes(r, order))
    ensures var p := ParseRequest(RequestBytes(r, order));
            && p.Success?
            && p.value.value.headers == (r.headers - {order[0]})[[LF] + order[0] := r.headers[order[0]]]
  {
    RequestRoundTrip(r, order);
    RenamedEnumeration(r.headers, order);
    var k0 := order[0];
    PairsRebuild((r.headers - {k0})[[LF] + k0 := r.headers[k0]], [[LF] + k0] + order[1..]);
  }

  /** A request without headers whose content has no `:` is not read back:
      with no empty line before the content, the header loop reads the
      request line's LF and the content as a header key and runs out of
      bytes looking for its `:`. */
  lemma HeaderlessRequestFails(r: HTTPRequest)
    requires SP !in r.httpmethod && SP !in r.path
    requires r.httptag == HTTP && 0 <= r.httpversion.0 <= 9 && 0 <= r.httpversion.1 <= 9
    requires r.headers == map[] && COLON !in r.content
    ensures RequestLineEnds(RequestBytes(r, []))
    ensures ParseRequest(RequestBytes(r, [])) == Failure(StreamReadError)
  {
    assert Enumerates([], r.headers);
    RequestBytesShape(r, []);
    assert HeaderLines(Pairs(r.headers, [])) == [];
    var tail := [] + r.content + CRLF;
    ParseRequestReads(r.httpmethod, r.path, r.httpversion, tail);
    NoColonNoHeader(tail);
  }

  /** A header block that starts with LF and has no `:` after it runs the
      key loop out of bytes. */
  lemma NoColonNoHeader(tail: Bytes)
    requires COLON !in tail
    ensures HeaderLoop([LF] + tail, map[]) == Failure(StreamReadError)
  {
    assert Read([LF] + tail, [0]) == ReadOutcome(tail, [LF], Success(1));
    CollectUntilSpec(tail, LF, COLON, []);
    assert IndexOf(tail, COLON) == |tail|;
  }
}
