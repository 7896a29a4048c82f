# rustedflask in Dafny

rustedflask is a small Rust web framework in the style of Flask. It has three
parts, and this project models each of them as pure functions over byte
strings:

- **The HTTP/1.x codec.** `HTTPRequest` and `HTTPResponse` are serialised to
  bytes. `read_http_request` and `read_http_response` read them back one
  `Read::read` at a time, here from a `ReadableVec`, the in-memory byte
  vector the crate provides.
- **The Jinja-like template renderer.** `render_template_string` finds the
  first `{{ … }}` placeholder with the `REPLACE` regular expression.
  `parse_replace` decides whether the placeholder is a variable or a call
  with string-literal arguments. Rendering substitutes the value or the
  result and then returns, leaving any later placeholders untouched.
- **The Flask routing layer.** `App::new`, `route` and
  `route_with_allowed_methods` register routes in order.
  `find_route_for_path` returns the first route with a given path. `handle`
  decides which handler answers: a registered route, the special `!404` or
  `!405` routes, or the built-in 404 and 405 responses.

The model follows the code byte for byte, including its quirks. Each quirk
is proved as a property of the model:

- Every byte a parser pushes onto a `String` goes through `char::from(u8)`.
  So a byte of 0x80 or more is stored as two UTF-8 bytes (module `Widening`).
- The response reason keeps the space that separates it from the status
  code.
- The header reader stops at the CR of the empty line and leaves its LF.
  The response content is therefore read starting at that LF.
- In a serialised request the request line's LF is read as the first byte
  of the first header key.
- The argument scanner of `parse_replace` pushes each comma that follows a
  literal onto the back of its queue.
- A bare identifier among the call arguments reaches `todo!()`. This is
  modelled as the outcome `Unimplemented`.
- `HashMap` iteration order is not fixed. Wherever the serialisers iterate
  over headers, the order is an explicit parameter `order` that lists every
  key once.

Modules, in dependency order:

- `Wrappers`: the `Option` and `Result` types.
- `Bytes`: bytes, constants, Rust's `to_string` and `parse::<i32>`.
- `Utf8`: which byte strings `String::from_utf8` accepts.
- `Widening`: `String::push` of a byte.
- `ReadableVec`: the `Read` implementation.
- `HttpStatus`: the status code enum.
- `HttpVersion`: version printing and the version check.
- `HttpMessage`: the message types, the error enum and the serialisers.
- `HttpParse`: the two readers.
- `HttpHeaders`: the header block.
- `HttpResponseCodec` and `HttpRequestCodec`: the round trips.
- `StrReplace`: `str::replace`.
- `JinjaPattern`: the regular expression.
- `JinjaParse`: `parse_replace`.
- `JinjaRender`: `render_template_string`.
- `Flask`: routing and dispatch.

## Model

| member | source | states |
|---|---|---|
| Bytes.Decimal | src/core/http/mod.rs:413 | `to_string` of a length is a non-empty string of decimal digits, with no leading zero, whose value is that length |
| Bytes.ParsePrintsBack | src/core/http/mod.rs:529-533 | `parse::<i32>` of the `to_string` of any `i32` gives that integer back |
| Bytes.ParseSingleByte | src/core/http/mod.rs:289-296 | a one-character version component parses exactly when it is an ASCII digit, and then to that digit's value |
| Bytes.ParseI32 | src/core/http/mod.rs:529-533 | a successful parse consumed at least one byte, and a result without a leading minus sign is non-negative |
| Bytes.IndexOfPrefix | src/core/http/mod.rs:481-487 | the first occurrence of a delimiter is right after a prefix that does not contain it |
| ReadableVec.Read | src/core/misc.rs:15-27 | a read fails exactly when the vector is shorter than the buffer, and then changes neither; otherwise it fills the buffer with the vector's first bytes, removes them and returns the buffer length |
| ReadableVec.ReadLoop | src/core/misc.rs:15-27 | the byte-at-a-time loop fails on a short vector with nothing changed, and otherwise copies the vector's prefix into the buffer and leaves exactly the rest |
| ReadableVec.ReadLoopIsRead | src/core/misc.rs:20-26 | the loop's results are those of the functional read on every input |
| ReadableVec.ReadEmpty | src/core/misc.rs:17-26 | reading into an empty buffer succeeds with 0 and changes nothing |
| ReadableVec.ReadOne | src/core/misc.rs:15-27 | a one-byte read takes the vector's first byte, or fails on an empty vector and leaves the old byte in the buffer |
| ReadableVec.TestReadableVec | src/lib.rs:42-53 | reading three bytes out of `foo` yields `foo` in the buffer and empties the vector |
| HttpStatus.Code | src/core/http/mod.rs:11-97 | every discriminant of the enum lies between 100 and 511 |
| HttpStatus.StatusBijection | src/core/http/mod.rs:474-477 | `from_i32` inverts the `as i32` cast, returns a variant exactly for its own discriminant, and returns `None` exactly on integers the enum does not list |
| HttpVersion.VersionLength | src/core/http/misc.rs:2-8 | the printed version is the two printed components and one dot, nothing more |
| HttpVersion.VersionSplitsAtDot | src/core/http/misc.rs:2-8 | for non-negative components the dot occurs once and splits the output back into the two decimals |
| HttpVersion.SingleDigitVersion | src/core/http/misc.rs:2-8 | single-digit components print as digit, dot, digit, with the digits' values being the components |
| HttpVersion.ParseVersionInverts | src/core/http/mod.rs:437-453 | the version check accepts three bytes exactly when they are the printed form of a version with single-digit non-negative components, and then returns that version |
| HttpMessage.Pairs | src/core/http/mod.rs:395-400 | along an order that lists every key once, the pairs are exactly the map's entries: none missing, none invented |
| HttpMessage.FromText | src/core/http/mod.rs:410-423 | `HTTPResponse::from(&str)` is a 200 tagged `HTTP`, version 1.1, reason `OK`, whose content is the text and whose only header is `Content-Length` with the text's length in decimal |
| Widening.Latin1 | src/core/http/mod.rs:315 | pushing a byte onto a `String` appends one byte for ASCII and two bytes otherwise |
| Widening.WidenConcat | src/core/http/mod.rs:314-320 | pushing two byte strings one after the other gives the concatenation of their widenings |
| Widening.WidenAscii | src/core/http/mod.rs:253-270 | ASCII text comes through the pushes unchanged |
| Widening.WidenLonger | src/core/http/mod.rs:253-270 | widening never shortens, and keeps the length only for ASCII text |
| Widening.WidenFixedIffAscii | src/core/http/mod.rs:253-270 | widening leaves text unchanged if and only if it is ASCII |
| Widening.WidenEmpty | src/core/http/mod.rs:253-270 | the widening is empty exactly when nothing was pushed |
| Widening.Latin1Valid | src/core/http/mod.rs:257 | each pushed byte becomes one well-formed UTF-8 character |
| Widening.WidenValid | src/core/http/mod.rs:253-270 | a `String` built by pushes is well-formed UTF-8 whatever bytes were pushed |
| Utf8.AsciiValid | src/flask/mod.rs:50-55 | `from_utf8` accepts every ASCII path |
| Utf8.ValidConcat | src/flask/mod.rs:50-55 | two well-formed UTF-8 texts joined are well formed |
| Utf8.NeverOccurring | src/flask/mod.rs:50-55 | the bytes C0, C1 and F5 to FF never occur in text that `from_utf8` accepts |
| HttpParse.ReadFixed | src/core/http/mod.rs:273-285 | a fixed-width read succeeds exactly when enough bytes are left and takes those bytes; otherwise it is `StreamReadError` |
| HttpParse.CollectUntilSpec | src/core/http/mod.rs:314-332 | the key and value loops collect, widened, every byte before the first stop byte and consume it; with no stop byte left they fail with `StreamReadError` |
| HttpParse.ReasonLoopSpec | src/core/http/mod.rs:478-487 | the reason loop collects the raw bytes before the first CR and consumes it; it fails with `StreamReadError` exactly when no CR is left |
| HttpParse.ContentLoopSpec | src/core/http/mod.rs:535-543 | the content loop takes exactly the bytes still owed, none for a negative length, or fails when the stream is shorter |
| HttpParse.VersionOrError | src/core/http/mod.rs:437-453 | the version is rejected with `InvalidVersionError` exactly when the version check fails |
| HttpParse.ReadTagVersion | src/core/http/mod.rs:429-453 | a stream too short for the tag or version is `StreamReadError`, one not starting with `HTTP/` is `NotHTTP`, a rejected version is `InvalidVersionError`, and otherwise the tag and version are read off the first eight bytes |
| HttpParse.ReadStatusLine | src/core/http/mod.rs:455-477 | after tag and version, one byte is skipped and three are read; they must parse as an integer (else `UnreadableStatusCode`) that is a listed code (else `UnknownStatusError`) |
| HttpParse.ReadReason | src/core/http/mod.rs:478-488 | the reason is every byte before the first CR, and that CR and one more byte are consumed; no CR is `StreamReadError` |
| HttpParse.ReasonFromRead | src/core/http/mod.rs:478-487 | the reason loop started by one read collects exactly the bytes before the stream's first CR |
| HttpParse.ReadResponseContent | src/core/http/mod.rs:525-543 | a response without `Content-Length` is `MissingContentLength`; with one, the content is read by its value |
| HttpParse.ReadRequestContent | src/core/http/mod.rs:337-354 | a request without `Content-Length` has empty content and consumes nothing; with one, the content is read by its value |
| HttpParse.ReadContent | src/core/http/mod.rs:339-353 | a value `parse()` rejects is `MalformedContentLength`; otherwise that many bytes (none if negative) are taken, or `StreamReadError` when fewer are left |
| HttpParse.SpaceLoopSpec | src/core/http/mod.rs:256-259 | the method and path loops collect, widened, every byte before the first space and consume it |
| HttpParse.ReadWord | src/core/http/mod.rs:253-259 | one word of the request line is the widening of the bytes before the first space, with the space consumed |
| HttpParse.SpaceLoopBytes | src/core/http/mod.rs:254-259 | the loop started by a one-byte read returns the widened bytes before the first space |
| HttpParse.ReadRequestLine | src/core/http/mod.rs:253-270 | the method is the widened bytes before the first space, the path the widened bytes between the first two spaces, and both spaces are consumed |
| HttpParse.ParsedRequestLine | src/core/http/mod.rs:355-362 | a request that parses carries the widened first and second words of its request line as method and path |
| HttpHeaders.WidenPairsAscii | src/core/http/mod.rs:314-334 | ASCII header pairs are stored as written |
| HttpHeaders.NonAsciiValueChanges | src/core/http/mod.rs:326-332 | a header value holding a byte of 0x80 or more is stored longer than, and different from, what was sent |
| HttpHeaders.InsertAllKeys | src/core/http/mod.rs:334 | inserting pairs into a map adds exactly their keys |
| HttpHeaders.InsertAllUntouched | src/core/http/mod.rs:334 | a key no pair mentions keeps its presence and value |
| HttpHeaders.InsertAllLastWins | src/core/http/mod.rs:334 | a key's last pair decides its value: a later duplicate header overwrites an earlier one |
| HttpHeaders.PairsRebuild | src/core/http/mod.rs:395-400 | inserting a map's pairs, in any iteration order, into an empty map rebuilds the map |
| HttpHeaders.CollectThrough | src/core/http/mod.rs:314-320 | a loop started on a prefix without the stop byte returns that prefix widened and what follows the stop byte |
| HttpHeaders.ReasonThrough | src/core/http/mod.rs:478-487 | the reason loop returns a CR-free prefix as it is and what follows its CR |
| HttpHeaders.KeyRead | src/core/http/mod.rs:304-320 | a header line's key is read as every byte before the colon, widened |
| HttpHeaders.ValueRead | src/core/http/mod.rs:321-333 | after the colon one byte is skipped, the value is every byte before CR, widened, and the LF after it is dropped |
| HttpHeaders.HeaderLineStep | src/core/http/mod.rs:303-335 | reading one serialised header line inserts its widened key and value and continues with the next line |
| HttpHeaders.HeaderEndKeepsLF | src/core/http/mod.rs:311-313 | the empty line ends the header block with only its CR consumed, so its LF is left for the content |
| HttpHeaders.HeaderLoopReadsLines | src/core/http/mod.rs:301-335 | a block of serialised header lines followed by CR is read back as those pairs, widened, inserted in order |
| HttpHeaders.PairsWellFormed | src/core/http/mod.rs:395-400 | headers with no colon in a key, no key starting with CR and no CR in a value give pairs the header loop can split |
| HttpResponseCodec.StatusLineAccepts | src/core/http/mod.rs:429-477 | twelve bytes with `HTTP/`, an accepted version and a listed status code are read as that status line |
| HttpResponseCodec.ReasonAccepts | src/core/http/mod.rs:478-488 | a CR-free reason followed by CR and one more byte is read back as written |
| HttpResponseCodec.ParseResponseReads | src/core/http/mod.rs:427-552 | a status line, a reason, header lines and a CR are read back as that status, reason and widened header map, followed by the content read from the rest |
| HttpResponseCodec.StatusDigits | src/core/http/mod.rs:390 | every status code prints as three bytes that parse back to a listed code, to the same variant |
| HttpResponseCodec.DecimalLengthParses | src/core/http/mod.rs:529-533 | a printed length parses back exactly when it fits in an `i32`, and is `None` beyond |
| HttpResponseCodec.StatusHead | src/core/http/mod.rs:384-390 | the serialised status line of a single-digit version is twelve bytes the status-line reader accepts |
| HttpResponseCodec.ResponseBytesShape | src/core/http/mod.rs:384-407 | a serialised response is status line, space and reason, CRLF, header lines, CRLF, content, CRLF |
| HttpResponseCodec.ResponseReadsBack | src/core/http/mod.rs:384-552 | a serialised response with ASCII headers including `Content-Length` is read back with tag `HTTP/`, the same version, status and headers, the reason with a leading space, and content measured by its own `Content-Length` from after the header block's CR |
| HttpResponseCodec.ResponseRoundTrip | src/core/http/mod.rs:384-552 | with a correct `Content-Length`, the content comes back as an LF followed by all but its last byte, and everything else as in `ResponseReadsBack` |
| HttpResponseCodec.ContentOfLength | src/core/http/mod.rs:525-543 | the length the serialiser writes reads exactly that many bytes, starting at the LF the header loop leaves |
| HttpResponseCodec.ContentRead | src/core/http/mod.rs:529-543 | a `Content-Length` that parses to the content's length reads that many bytes after the LF |
| HttpResponseCodec.EmptyContentRoundTrip | src/core/http/mod.rs:384-552 | a response with empty content comes back equal apart from the tag and the reason's leading space |
| HttpResponseCodec.ContentShifted | src/core/http/mod.rs:401-405 | non-empty content comes back shifted by one LF, and equals the original exactly when every byte is an LF |
| HttpResponseCodec.ShiftFixedIffAllLF | src/core/http/mod.rs:535-543 | a byte string equals an LF followed by all but its last byte if and only if all its bytes are LF |
| HttpResponseCodec.TestParseResponse | src/lib.rs:56-76 | the 204 response of `test_parse`, with `Host` and `Content-Length: 0`, is read back successfully in either header order |
| HttpResponseCodec.FromTextHeaders | src/core/http/mod.rs:410-423 | the one header `HTTPResponse::from(&str)` sets is enumerated by itself, is well formed and is ASCII |
| HttpResponseCodec.FromTextReparsable | src/core/http/mod.rs:410-423 | any response built from text that fits in an `i32`, with any status and a CR-free reason, meets the round trip's conditions |
| HttpResponseCodec.FromTextRoundTrip | src/core/http/mod.rs:410-552 | a response from text is read back as a 200 with reason space-plus-`OK`, the same headers and the shifted content; text longer than `i32` allows gets `MalformedContentLength` |
| HttpRequestCodec.FirstKeyPrefixed | src/core/http/mod.rs:299-320 | the header pairs as the request reader sees them: the first key with an LF in front, the rest unchanged |
| HttpRequestCodec.LFJoinsFirstKey | src/core/http/mod.rs:197-204 | an LF followed by the header lines is the header lines of the pairs with the first key prefixed |
| HttpRequestCodec.LFHeaderLine | src/core/http/mod.rs:199-204 | an LF before a header line is a header line whose key starts with LF |
| HttpRequestCodec.RequestLineSplits | src/core/http/mod.rs:253-270 | method, space, path, space is read back as the widened method and path |
| HttpRequestCodec.TagVersionAccepts | src/core/http/mod.rs:272-297 | `HTTP/` and a printed single-digit version are read back as that version |
| HttpRequestCodec.ParseRequestReads | src/core/http/mod.rs:252-299 | a request line with a single-digit version is read up to the header block, with the CR skipped and its LF left |
| HttpRequestCodec.SkipCR | src/core/http/mod.rs:299 | the one-byte read after the version drops the CR and leaves the LF |
| HttpRequestCodec.RequestStages | src/core/http/mod.rs:252-363 | parsing a request is reading the request line, then the tag and version, then the headers and content from after the skipped byte |
| HttpRequestCodec.RequestHeadersRead | src/core/http/mod.rs:301-335 | the LF, header lines and final CRLF of a serialised request are read as the pairs with the first key prefixed, widened |
| HttpRequestCodec.PrefixedLines | src/core/http/mod.rs:197-208 | the serialised header block and final CRLF, behind the LF, are the prefixed header lines followed by CR and LF |
| HttpRequestCodec.PrefixedAscii | src/core/http/mod.rs:197-204 | prefixing the first key keeps ASCII pairs ASCII |
| HttpRequestCodec.PrefixedWellFormed | src/core/http/mod.rs:197-204 | prefixing the first key keeps pairs readable |
| HttpRequestCodec.RequestBytesShape | src/core/http/mod.rs:183-210 | a serialised request is method, space, path, space, `HTTP/`, version, CRLF, header lines, content, CRLF |
| HttpRequestCodec.RequestRoundTrip | src/core/http/mod.rs:183-363 | an ASCII request with headers and no content is read back with the same method, path and version, tag `HTTP/`, empty content, and the header map of the serialised pairs with the first key prefixed by LF |
| HttpRequestCodec.NoContentLength | src/core/http/mod.rs:339 | such a request's parsed headers hold no `Content-Length`, so no content is read |
| HttpRequestCodec.RenamedEnumeration | src/core/http/mod.rs:199-204 | renaming the first key to LF plus key keeps the map enumerated by the renamed order |
| HttpRequestCodec.LFKeyAbsent | src/core/http/mod.rs:199-204 | when no key starts with LF, LF plus a key is not a key |
| HttpRequestCodec.RenamedEnumerates | src/core/http/mod.rs:199-204 | the renamed map is enumerated by the renamed order |
| HttpRequestCodec.RenamedTail | src/core/http/mod.rs:199-204 | past the first position, the renamed order lists the original keys, none of them the renamed one |
| HttpRequestCodec.RenamedPairs | src/core/http/mod.rs:199-204 | the renamed map's pairs are the original pairs with the first key prefixed |
| HttpRequestCodec.FirstKeyRenamed | src/core/http/mod.rs:183-363 | when no key starts with LF, the parsed headers are the request's headers with the first serialised key renamed to LF plus that key |
| HttpRequestCodec.HeaderlessRequestFails | src/core/http/mod.rs:183-363 | a serialised request without headers, whose content has no colon, is not read back: `StreamReadError` |
| HttpRequestCodec.NoColonNoHeader | src/core/http/mod.rs:314-320 | a header block with no colon left runs the key loop out of input |
| StrReplace.ReplaceAbsent | src/jinja/mod.rs:185 | text in which the pattern does not occur is returned unchanged by `replace` |
| StrReplace.ReplaceFirst | src/jinja/mod.rs:185 | the bytes before the first occurrence are kept, the occurrence is replaced, and replacement continues after it |
| StrReplace.ReplaceBySelf | src/jinja/mod.rs:194 | replacing a pattern with itself changes nothing |
| StrReplace.OccursShift | src/jinja/mod.rs:185 | an occurrence in the tail is an occurrence one position later in the text |
| StrReplace.FirstInTail | src/jinja/mod.rs:185 | a first occurrence past the front is the tail's first occurrence one position earlier |
| StrReplace.ReplaceAtFront | src/jinja/mod.rs:185 | a pattern at the front is replaced there |
| JinjaPattern.Span | src/jinja/consts.rs:1 | the matched text is `{{ `, the capture, ` }}` |
| JinjaPattern.LastCloseBelow | src/jinja/consts.rs:1 | the downward search finds the last ` }}` in the range, or establishes there is none |
| JinjaPattern.LineEndBounds | src/jinja/consts.rs:1 | a stretch holds no newline if and only if it ends by the end of its line |
| JinjaPattern.LastClose | src/jinja/consts.rs:1 | the greedy `.*` ends at the last ` }}` on the capture's line, or there is none |
| JinjaPattern.LastCloseLine | src/jinja/consts.rs:1 | searching down from the line's end finds exactly that last ` }}` |
| JinjaPattern.FindFrom | src/jinja/mod.rs:167-169 | the match from a position is the leftmost start with a closing ` }}` on its line, closed greedily; none means no match at or after it |
| JinjaPattern.FindMatch | src/jinja/mod.rs:167-169 | the reported match is leftmost then greedy, and its absence means the template has no match |
| JinjaPattern.FirstMatchUnique | src/jinja/mod.rs:167-169 | exactly one match is leftmost and then greedy, and it is the one found |
| JinjaPattern.SpanFirstOccurrence | src/jinja/mod.rs:185 | the matched text occurs nowhere before the match |
| JinjaPattern.OccurrenceMatches | src/jinja/consts.rs:1 | any copy of the matched text whose capture has no newline is itself a match |
| JinjaPattern.LeadingMatch | src/jinja/mod.rs:167-169 | a placeholder at the start of a template, ending its line, is the match, with its inner text as the capture |
| JinjaParse.NameLoopSpec | src/jinja/mod.rs:74-147 | without `(` the text is a variable; a leading `(` is "Function call with no name"; otherwise the widened bytes before the first `(` name the function and the arguments follow |
| JinjaParse.ParseVariable | src/jinja/mod.rs:145-147 | text without `(` parses as a variable |
| JinjaParse.ParseNoName | src/jinja/mod.rs:79-82 | text starting with `(` is the no-name syntax error |
| JinjaParse.ParseCall | src/jinja/mod.rs:79-85 | a name and `(` start the argument scan with the widened name |
| JinjaParse.LiteralLoop | src/jinja/mod.rs:94-130 | a finished literal leaves strictly less of the queue |
| JinjaParse.LiteralLoopSpec | src/jinja/mod.rs:94-130 | a literal is the widened bytes up to the next quote, which is consumed; with no quote left it is unclosed |
| JinjaParse.LiteralRead | src/jinja/mod.rs:94-105 | a quote-free literal and its closing quote read back as the literal, widened |
| JinjaParse.LiteralThenComma | src/jinja/mod.rs:114-118 | a literal followed by a comma is recorded, and that comma is moved to the back of the queue |
| JinjaParse.LiteralThenClose | src/jinja/mod.rs:119 | a literal followed by `)` ends the call with that literal as the last argument |
| JinjaParse.ArgsRead | src/jinja/mod.rs:85-140 | a list of quote-free literals separated by `, ` and a `)` parse to those literals, widened, in order |
| JinjaParse.ArgsReadShort | src/jinja/mod.rs:85-140 | the same for lists of at most one literal |
| JinjaParse.ArgsStep | src/jinja/mod.rs:114-118 | the first literal of a longer list is recorded and the scan goes on with the rest |
| JinjaParse.SkipSpace | src/jinja/mod.rs:134-135 | a leading space is skipped |
| JinjaParse.ParseCallArgs | src/jinja/mod.rs:65-149 | `name(` followed by a literal list and `)` parses to a call of the widened name with the widened literals |
| JinjaParse.ArgsThenClose | src/jinja/mod.rs:85-140 | a literal list and `)` parse, from an empty argument list, to exactly those literals |
| JinjaParse.ArgsUnclosed | src/jinja/mod.rs:86-87 | a queue of only commas and spaces ends in "Unclosed parentheses" |
| JinjaParse.LiteralUnclosed | src/jinja/mod.rs:95-100 | a quote with no closing quote is "Unclosed string literal" |
| JinjaParse.LiteralAtEnd | src/jinja/mod.rs:106-111 | a literal at the very end is "Unclosed parentheses" |
| JinjaParse.LiteralThenOther | src/jinja/mod.rs:120-126 | any byte other than a comma or `)` after a literal is the "Expected comma or closing parentheses" error naming that byte |
| JinjaParse.BareIdentifier | src/jinja/mod.rs:136-139 | an argument that is not a literal, `)`, a comma or a space reaches `todo!()` |
| JinjaParse.ArgLoopDone | src/jinja/mod.rs:85-140 | every successful argument scan is a call of the given name that keeps the arguments read so far, and its queue held a `)` |
| JinjaRender.ReplaceFromMatch | src/jinja/mod.rs:185-194 | replacing every copy of the matched text keeps the template before the match, then the value, then the rest with the copies replaced |
| JinjaRender.RenderNoMatch | src/jinja/mod.rs:199 | a template with no match renders to itself |
| JinjaRender.RenderParseFails | src/jinja/mod.rs:171-175 | a first placeholder that fails to parse ends rendering with that error, or with `todo!()` |
| JinjaRender.RenderVariable | src/jinja/mod.rs:189-196 | a variable placeholder is `NoSuchVariable` when unset, and otherwise every copy of it is replaced by the value and rendering stops |
| JinjaRender.RenderCall | src/jinja/mod.rs:176-196 | a call placeholder is `NoSuchFunction` without the function, and otherwise every copy is replaced by the function's result on the literals |
| JinjaRender.RenderWholeVariable | src/jinja/mod.rs:152-200 | a template that is one set variable placeholder renders to the value |
| JinjaRender.TestJinjaVariable | src/lib.rs:80-90 | `{{ variable }}` with `variable` set to `works` renders to `works` |
| JinjaRender.RenderWholeCall | src/jinja/mod.rs:152-200 | a template that is one call of a known function renders to the function's result |
| JinjaRender.RenderWholeUnimplemented | src/jinja/mod.rs:136-139 | a template that is one placeholder reaching `todo!()` renders to `todo!()` |
| JinjaRender.ParseFunctionNoArgs | src/jinja/mod.rs:79-133 | `function()` parses as a call of `function` with no arguments |
| JinjaRender.ParseNoArgs | src/jinja/mod.rs:79-133 | `name()` parses as a call of `name` with no arguments, for any ASCII name |
| JinjaRender.TestJinjaFunctionNoArgs | src/lib.rs:93-106 | `{{ function() }}` renders to the registered function's result on no arguments |
| JinjaRender.RenderNoArgs | src/jinja/mod.rs:152-200 | `{{ name() }}` renders to `name`'s result on no arguments |
| JinjaRender.ThreeLiteralsThenIdentifier | src/jinja/mod.rs:85-140 | three literals separated as in the test, then a bare identifier, reach `todo!()` |
| JinjaRender.MiddleLiteral | src/jinja/mod.rs:114-118 | the second literal's comma goes to the back after the first one, and the scan reaches `todo!()` |
| JinjaRender.LastLiteral | src/jinja/mod.rs:114-138 | the third literal, then the identifier with the commas behind it, reaches `todo!()` |
| JinjaRender.SpaceThenIdentifier | src/jinja/mod.rs:134-138 | a space and then a bare identifier reach `todo!()` |
| JinjaRender.ParseFunctionArgs | src/jinja/mod.rs:65-149 | `function("works", "blah","hah", variable)` reaches `todo!()` at `variable` |
| JinjaRender.TestJinjaFunctionArgs | src/lib.rs:108-130 | the template of `test_jinja_function_args` renders to `todo!()` whatever the variables and functions |
| JinjaRender.OnlyFirstPlaceholder | src/jinja/mod.rs:196 | with `a` and `b` both set, `{{ a }}`, LF, `{{ b }}` renders to `a`'s value, LF and the untouched `{{ b }}` |
| JinjaRender.GreedyCapture | src/jinja/consts.rs:1 | in `{{ a }} {{ b }}` the capture is `a }} {{ b`, which is no variable even when `a` and `b` are |
| Flask.New | src/flask/mod.rs:42-47 | a new app has the given name and no routes |
| Flask.AddRouteWithMethods | src/flask/mod.rs:157-168 | the route is appended after the existing ones with its path, handler and methods; the name and earlier routes are unchanged |
| Flask.AddRoute | src/flask/mod.rs:141-151 | the route is appended with its path, handler and `GET` as its only method; the name and earlier routes are unchanged |
| Flask.FindRoute | src/flask/mod.rs:130-137 | the index of the first route with the path; none exactly when no route has it |
| Flask.NewRoutesNothing | src/flask/mod.rs:42-47 | a new app routes no path |
| Flask.FindAfterAppend | src/flask/mod.rs:130-137 | after appending a route, lookup finds the old first match if there was one, otherwise the new route if its path matches |
| Flask.ShadowedRoute | src/flask/mod.rs:130-168 | registering a path that is already routed changes no lookup |
| Flask.Dispatch | src/flask/mod.rs:49-128 | a chosen handler is always one of the app's routes |
| Flask.NoReplyIff | src/flask/mod.rs:49-128 | nothing is sent exactly when the path, or the method of a routed path, is not UTF-8 |
| Flask.HandledIff | src/flask/mod.rs:57-97 | a route other than `!404` and `!405` handles a request exactly when it is the first route for the path and allows the method |
| Flask.NotFoundDispatch | src/flask/mod.rs:57-86 | an unrouted path goes to the `!404` route if there is one, and to the built-in 404 otherwise |
| Flask.MethodNotAllowedDispatch | src/flask/mod.rs:89-117 | a disallowed method goes to the `!405` route if there is one, and to the built-in 405 otherwise |
| Flask.ServedRequestsReplied | src/flask/mod.rs:181-191 | every request the server reads itself gets a reply: the reader's method and path are always UTF-8 |
| Flask.RouteAllowsOnlyGet | src/flask/mod.rs:141-151 | on an app with one `route`, `GET` for its ASCII path runs its handler and any other method gets the built-in 405 |
| Flask.NotFoundResponse | src/flask/mod.rs:74-76 | the built-in 404 is a 404 tagged `HTTP`, version 1.1, with reason `Not Found`, content `404 Not Found` and its length as `Content-Length` |
| Flask.NotFoundReadBack | src/flask/mod.rs:74-77 | the built-in 404 as sent is read back as a 404 with the same headers, the reason with a leading space and the content shifted by one LF |

## Left out

- Sockets, threads and client writes are not modelled. This covers `send_to`, the accept loop's `TcpListener` and `TcpStream`, the handler threads, and writing a response back byte by byte. `Flask.ServedRequestsReplied` is stated for one turn of `run`, from the bytes a connection delivers to the responder `handle` chooses.
- A handler's response is not computed. Route handlers are opaque Rust closures, so `Dispatch` says which handler runs, not what it returns.
- The built-in 405 response body is not modelled. `HTTPResponse::new` and its `with_*` builders are not part of this model. `Dispatch` names the built-in 405 as a responder instead.
- `render_template` is not modelled. It opens a file under `./templates/` and reads it, which is file I/O. After reading, it is `render_template_string`, which is modelled.
- The `InternalJinjaError` path is not modelled. It fires only when the constant `REPLACE` pattern fails to compile, and that pattern is valid.
- `println!` output is not modelled. This covers `parse_replace`'s debug lines and `run`'s log lines.
- The `INCLUDE`, `EXTEND` and `BLOCK` patterns, and template includes, extends, blocks and caching, are not modelled. src/jinja/consts.rs:3-8 declares `INCLUDE`, `EXTEND` and `BLOCK`, and no code uses them.
- Two behaviours of `parse_replace` are modelled as written:
  - A `)` before any `(` is pushed onto the name (src/jinja/mod.rs:143).
  - A bare identifier among the call arguments reaches `todo!()` (src/jinja/mod.rs:136-139).
- Flask.Serve: the connection is modelled as a `ReadableVec` over the bytes it delivers. A socket's short reads, and `Ok(0)` at end of stream, are not modelled.
- `HashMap` iteration order is a parameter. The serialisers iterate in an unspecified order, so every serialisation takes an `order` that lists each key once. Every round-trip lemma holds for all such orders.
- HttpParse.ParseRequest: requires `RequestLineEnds`, meaning the stream holds two spaces. The method and path loops of `read_http_request` ignore read errors and re-test an unchanged buffer, so without a second space they never return. Non-termination is not modelled.
- HttpRequestCodec.RequestRoundTrip: stated only for ASCII requests with at least one header, no content and no `Content-Length`. The serialiser writes no empty line between the headers and the content. So the content, or a missing header block, is read as header text. `HeaderlessRequestFails` proves the headerless case fails.
- HttpResponseCodec.ResponseRoundTrip: stated only for responses tagged `HTTP` with a single-digit version, a CR-free reason, well-formed ASCII headers and a `Content-Length` that `to_string` wrote for the content. Other versions do not fit the parsers' three-byte version read. A CR in the reason, a colon in a key, or a CR in a value splits the text differently. Non-ASCII header text is widened when read back, as `HttpHeaders.NonAsciiValueChanges` proves, so it cannot come back equal.
- Templates, variable names and values, and function names are byte strings. The Rust `String`s hold UTF-8, and the model does not require the template to be well-formed UTF-8.
- Route paths are byte strings compared byte for byte. Rust compares a `String` with a `&str`, which is the same comparison on UTF-8.
- `JinjaPattern` models the `REPLACE` pattern directly over bytes. It does not implement a general regular-expression engine. With `.` excluding only `\n`, a match is leftmost and its `.*` greedy up to the last ` }}` on the line.
