/** `HttpStatusCodes`: a field-less enum whose variants carry explicit
    discriminants. It is modelled as the integers it lists, one named
    constant per variant. `Code` is the `as i32` cast the serialiser uses and
    `FromI32` the derived `from_i32` the response parser uses. */
module HttpStatus {
  import opened Wrappers

  /** The discriminants the enum lists, from 100 (`Continue`) to 511
      (`NetworkAuthenticationRequired`). */
  predicate IsListedCode(c: int) {
    c in {
      100, 101, 102, 103,
      200, 201, 202, 203, 204, 205, 206, 207, 208, 226,
      300, 301, 302, 303, 304, 305, 306, 307, 308,
      400, 401, 402, 403, 404, 405, 406, 407, 408, 409, 410, 411, 412, 413, 414, 415, 416, 417, 418, 420, 421, 422, 423, 424, 425, 426, 428, 429, 431, 451,
      500, 501, 502, 503, 504, 505, 506, 507, 508, 510, 511
    }
  }

  newtype StatusCode = c: int | IsListedCode(c) witness 200

  const Continue: StatusCode := 100
  const SwitchingProtocols: StatusCode := 101
  const Processing: StatusCode := 102
  const EarlyHints: StatusCode := 103
  const Ok: StatusCode := 200
  const Created: StatusCode := 201
  const Accepted: StatusCode := 202
  const NonAuthoritativeInformation: StatusCode := 203
  const NoContent: StatusCode := 204
  const ResetContent: StatusCode := 205
  const PartialContent: StatusCode := 206
  const MultiStatus: StatusCode := 207
  const AlreadyReported: StatusCode := 208
  const IMUsed: StatusCode := 226
  const MultipleChoices: StatusCode := 300
  const MovedPermanently: StatusCode := 301
  const Found: StatusCode := 302
  const SeeOther: StatusCode := 303
  const NotModified: StatusCode := 304
  const UseProxy: StatusCode := 305
  const Reserved306: StatusCode := 306
  const TemporaryRedirect: StatusCode := 307
  const PermanentRedirect: StatusCode := 308
  const BadRequest: StatusCode := 400
  const Unauthorized: StatusCode := 401
  const PaymentRequired: StatusCode := 402
  const Forbidden: StatusCode := 403
  const NotFound: StatusCode := 404
  const MethodNotAllowed: StatusCode := 405
  const NotAcceptable: StatusCode := 406
  const ProxyAuthenticationRequired: StatusCode := 407
  const RequestTimeout: StatusCode := 408
  const Conflict: StatusCode := 409
  const Gone: StatusCode := 410
  const LengthRequired: StatusCode := 411
  const PreconditionFailed: StatusCode := 412
  const PayloadTooLarge: StatusCode := 413
  const URITooLong: StatusCode := 414
  const UnsupportedMediaType: StatusCode := 415
  const RangeNotSatisfiable: StatusCode := 416
  const ExpectationFailed: StatusCode := 417
  const ImATeapot: StatusCode := 418
  const ChillOutMan: StatusCode := 420
  const MisdirectedRequest: StatusCode := 421
  const UnprocessableContent: StatusCode := 422
  const Locked: StatusCode := 423
  const FailedDependency: StatusCode := 424
  const TooEarly: StatusCode := 425
  const UpgradeRequired: StatusCode := 426
  const PreconditionRequired: StatusCode := 428
  const TooManyRequests: StatusCode := 429
  const RequestHeaderFieldsTooLarge: StatusCode := 431
  const UnavailableForLegalReasons: StatusCode := 451
  const InternalServerError: StatusCode := 500
  const NotImplemented: StatusCode := 501
  const BadGateway: StatusCode := 502
  const ServiceUnavailable: StatusCode := 503
  const GatewayTimeout: StatusCode := 504
  const HTTPVersionNotSupported: StatusCode := 505
  const VariantAlsoNegotiates: StatusCode := 506
  const InsufficientStorage: StatusCode := 507
  const LoopDetected: StatusCode := 508
  const NotExtended: StatusCode := 510
  const NetworkAuthenticationRequired: StatusCode := 511

  /** The discriminant of a variant (`statuscode as i32`). */
  function Code(s: StatusCode): (c: int)
    ensures 100 <= c <= 511
  {
    assert IsListedCode(s as int);
    s as int
  }

  /** The derived `from_i32`: the variant with discriminant `i`, if any. */
  function FromI32(i: int): (r: Option<StatusCode>)
  {
    if IsListedCode(i) then Some(i as StatusCode) else None
  }

  /** `from_i32` inverts the cast, and gives `None` on every integer that is
      not a listed discriminant: the mapping is a partial bijection. */
  lemma StatusBijection(i: int, s: StatusCode)
    ensures FromI32(Code(s)) == Some(s)
    ensures FromI32(i) == Some(s) <==> Code(s) == i
    ensures FromI32(i).None? <==> !IsListedCode(i)
  {
  }
}
