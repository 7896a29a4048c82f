/** `ReadableVec`: a byte vector read through `std::io::Read`. A read is
    all-or-nothing: it fails and changes nothing when fewer bytes remain than
    the buffer holds, and otherwise moves exactly `|buf|` bytes from the front
    of the vector into the buffer. The HTTP parsers consume their input
    through this operation. */
module ReadableVec {
  import opened Wrappers
  import opened Bytes

  datatype IoError = VectorTooShort

  /** State after one `read`: the remaining vector, the buffer contents and
      the value returned. */
  datatype ReadOutcome = ReadOutcome(vector: Bytes, buf: Bytes, result: Result<nat, IoError>)

  function Read(vector: Bytes, buf: Bytes): (o: ReadOutcome)
    ensures |o.buf| == |buf|
    ensures o.result.Failure? <==> |vector| < |buf|
    ensures o.result.Failure? ==> o.vector == vector && o.buf == buf
    ensures o.result.Success? ==> o.result.value == |buf| && o.buf == vector[..|buf|] && o.vector == vector[|buf|..]
  {
    if |vector| < |buf| then ReadOutcome(vector, buf, Failure(VectorTooShort))
    else ReadOutcome(vector[|buf|..], vector[..|buf|], Success(|buf|))
  }

  /** The source's loop: one byte at a time, each taken from the front of
      the vector and stored at the next buffer position. */
  method ReadLoop(vector: Bytes, buf: Bytes) returns (rest: Bytes, filled: Bytes, result: Result<nat, IoError>)
    ensures |vector| < |buf| ==> result == Failure(VectorTooShort) && rest == vector && filled == buf
    ensures |vector| >= |buf| ==> result == Success(|buf|)
    ensures |vector| >= |buf| ==> |filled| == |buf| && forall i :: 0 <= i < |buf| ==> filled[i] == vector[i]
    ensures |vector| >= |buf| ==> rest == vector[|buf|..]
  {
    if |vector| < |buf| {
      return vector, buf, Failure(VectorTooShort);
    }
    rest, filled := vector, buf;
    var added := 0;
    while added < |buf|
      invariant 0 <= added <= |buf|
      invariant |filled| == |buf|
      invariant rest == vector[added..]
      invariant forall i :: 0 <= i < added ==> filled[i] == vector[i]
    {
      filled := filled[added := rest[0]];
      rest := rest[1..];
      added := added + 1;
    }
    result := Success(|buf|);
  }

  /** The loop and the functional read agree on every input. */
  lemma ReadLoopIsRead(vector: Bytes, buf: Bytes, rest: Bytes, filled: Bytes)
    requires |vector| >= |buf| && |filled| == |buf|
    requires forall i :: 0 <= i < |buf| ==> filled[i] == vector[i]
    requires rest == vector[|buf|..]
    ensures Read(vector, buf) == ReadOutcome(rest, filled, Success(|buf|))
  {
    assert filled == vector[..|buf|];
  }

  /** Reading into an empty buffer succeeds with 0 and changes nothing. */
  lemma ReadEmpty(vector: Bytes)
    ensures Read(vector, []) == ReadOutcome(vector, [], Success(0))
  {
  }

  /** A read of one byte takes the first byte of the vector when there is
      one. */
  lemma ReadOne(vector: Bytes, b: byte)
    ensures |vector| > 0 ==> Read(vector, [b]) == ReadOutcome(vector[1..], [vector[0]], Success(1))
    ensures |vector| == 0 ==> Read(vector, [b]) == ReadOutcome([], [b], Failure(VectorTooShort))
  {
    if |vector| > 0 {
      assert vector[..1] == [vector[0]];
    }
  }

  /** A read of one byte when nothing is left fails and keeps the buffer; the
      parsers' loops rely on the stale byte staying in place. */
  lemma ReadExhausted(b: byte)
    ensures Read([], [b]) == ReadOutcome([], [b], Failure(VectorTooShort))
  {
  }

  /** `test_readablevec`: reading three bytes out of `foo` fills the buffer
      with `foo` and empties the vector. */
  lemma TestReadableVec(buf: Bytes)
    requires |buf| == 3
    ensures var foo: Bytes := [102, 111, 111];
            var o := Read(foo, buf);
            && o.result == Success(3)
            && o.buf == foo && o.vector == []
  {
  }
}
