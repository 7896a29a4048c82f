/** What the header loop of both parsers makes of the header lines the
    serialisers write. A well-formed header line is read back into its key
    and value, widened by the `String`s they are collected in, a later
    duplicate overwrites an earlier key, and the CR that ends the header
    block is consumed without the LF after it. */
module HttpHeaders {
  import opened Wrappers
  import opened Bytes
  import opened ReadableVec
  import opened HttpMessage
  import opened HttpParse
  import opened Widening

  /** A header the header loop reads back unchanged: no `:` in the key, a key
      that does not start with CR (which would end the block), and no CR in
      the value. */
  predicate WellFormedHeader(key: Bytes, value: Bytes) {
    COLON !in key && (|key| > 0 ==> key[0] != CR) && CR !in value
  }

  predicate WellFormedPairs(pairs: seq<(Bytes, Bytes)>) {
    forall i :: 0 <= i < |pairs| ==> WellFormedHeader(pairs[i].0, pairs[i].1)
  }

  predicate WellFormedHeaders(headers: Headers) {
    forall k :: k in headers ==> WellFormedHeader(k, headers[k])
  }

  /** Headers whose keys and values are ASCII, which the widening leaves
      alone. */
  predicate AsciiPairs(pairs: seq<(Bytes, Bytes)>) {
    forall i :: 0 <= i < |pairs| ==> IsAscii(pairs[i].0) && IsAscii(pairs[i].1)
  }

  predicate AsciiHeaders(headers: Headers) {
    forall k :: k in headers ==> IsAscii(k) && IsAscii(headers[k])
  }

  /** Each key and value as the header loop's `String`s hold it. */
  function WidenPairs(pairs: seq<(Bytes, Bytes)>): (r: seq<(Bytes, Bytes)>)
    ensures |r| == |pairs|
    ensures forall i :: 0 <= i < |pairs| ==> r[i] == (Widen(pairs[i].0), Widen(pairs[i].1))
  {
    seq(|pairs|, i requires 0 <= i < |pairs| => (Widen(pairs[i].0), Widen(pairs[i].1)))
  }

  /** ASCII headers are read back exactly as written. */
  lemma WidenPairsAscii(pairs: seq<(Bytes, Bytes)>)
    requires AsciiPairs(pairs)
    ensures WidenPairs(pairs) == pairs
  {
    forall i | 0 <= i < |pairs| ensures WidenPairs(pairs)[i] == pairs[i] {
      WidenAscii(pairs[i].0);
      WidenAscii(pairs[i].1);
    }
  }

  /** A header whose value holds a byte of 0x80 or more is not read back as
      written: every such byte comes back as two. */
  lemma NonAsciiValueChanges(key: Bytes, value: Bytes)
    requires !IsAscii(value)
    ensures WidenPairs([(key, value)])[0].1 != value
    ensures |WidenPairs([(key, value)])[0].1| > |value|
  {
    WidenLonger(value);
  }

  /** The pairs of an ASCII map are ASCII. */
  lemma PairsAscii(headers: Headers, order: seq<Bytes>)
    requires Enumerates(order, headers) && AsciiHeaders(headers)
    ensures AsciiPairs(Pairs(headers, order))
  {
  }

  /** The map the header loop builds from `pairs` read in order, starting
      from `headers`: each `insert` overwrites an earlier value. */
  function InsertAll(headers: Headers, pairs: seq<(Bytes, Bytes)>): Headers
    decreases |pairs|
  {
    if |pairs| == 0 then headers else InsertAll(headers[pairs[0].0 := pairs[0].1], pairs[1..])
  }

  function KeysOf(pairs: seq<(Bytes, Bytes)>): set<Bytes> {
    set i | 0 <= i < |pairs| :: pairs[i].0
  }

  /** The keys after the inserts are the old keys and the inserted ones. */
  lemma {:induction false} InsertAllKeys(headers: Headers, pairs: seq<(Bytes, Bytes)>)
    ensures InsertAll(headers, pairs).Keys == headers.Keys + KeysOf(pairs)
    decreases |pairs|
  {
    if |pairs| > 0 {
      InsertAllKeys(headers[pairs[0].0 := pairs[0].1], pairs[1..]);
      assert KeysOf(pairs) == {pairs[0].0} + KeysOf(pairs[1..]) by {
        forall k | k in KeysOf(pairs) ensures k in {pairs[0].0} + KeysOf(pairs[1..]) {
          var i :| 0 <= i < |pairs| && pairs[i].0 == k;
          if i > 0 {
            assert pairs[1..][i - 1].0 == k;
          }
        }
        forall k | k in KeysOf(pairs[1..]) ensures k in KeysOf(pairs) {
          var i :| 0 <= i < |pairs[1..]| && pairs[1..][i].0 == k;
          assert pairs[i + 1].0 == k;
        }
      }
    }
  }

  /** A key that no pair inserts keeps its old value. */
  lemma {:induction false} InsertAllUntouched(headers: Headers, pairs: seq<(Bytes, Bytes)>, key: Bytes)
    requires forall j :: 0 <= j < |pairs| ==> pairs[j].0 != key
    ensures key in InsertAll(headers, pairs) <==> key in headers
    ensures key in headers ==> InsertAll(headers, pairs)[key] == headers[key]
    decreases |pairs|
  {
    if |pairs| > 0 {
      assert pairs[0].0 != key;
      InsertAllUntouched(headers[pairs[0].0 := pairs[0].1], pairs[1..], key);
    }
  }

  /** The last insert of a key wins. */
  lemma {:induction false} InsertAllLastWins(headers: Headers, pairs: seq<(Bytes, Bytes)>, i: nat)
    requires i < |pairs|
    requires forall j :: i < j < |pairs| ==> pairs[j].0 != pairs[i].0
    ensures pairs[i].0 in InsertAll(headers, pairs)
    ensures InsertAll(headers, pairs)[pairs[i].0] == pairs[i].1
    decreases |pairs|
  {
    var next := headers[pairs[0].0 := pairs[0].1];
    if i == 0 {
      InsertAllUntouched(next, pairs[1..], pairs[0].0);
    } else {
      InsertAllLastWins(next, pairs[1..], i - 1);
    }
  }

  /** Inserting the pairs of a map in any enumeration of its keys rebuilds
      the map, whatever order the `HashMap` iterates in. */
  lemma PairsRebuild(headers: Headers, order: seq<Bytes>)
    requires Enumerates(order, headers)
    ensures InsertAll(map[], Pairs(headers, order)) == headers
  {
    var pairs := Pairs(headers, order);
    var m := InsertAll(map[], pairs);
    InsertAllKeys(map[], pairs);
    assert KeysOf(pairs) == headers.Keys by {
      forall k | k in headers ensures k in KeysOf(pairs) {
        var i :| 0 <= i < |order| && order[i] == k;
        assert pairs[i].0 == k;
      }
    }
    forall k | k in headers ensures m[k] == headers[k] {
      var i :| 0 <= i < |order| && order[i] == k;
      InsertAllLastWins(map[], pairs, i);
    }
  }

  /** The key and value loops, started on the first byte of `a + [stop] + c`,
      collect `a` widened and leave `c`. */
  lemma CollectThrough(a: Bytes, stop: byte, c: Bytes, acc: Bytes)
    requires stop !in a
    ensures var s := a + [stop] + c;
            CollectUntil(s[1..], s[0], stop, acc) == Success(Parsed(acc + Widen(a), c))
  {
    var s := a + [stop] + c;
    CollectUntilSpec(s[1..], s[0], stop, acc);
    if |a| > 0 {
      StopSplit(a, stop, c, acc);
      WidenSplit(a, stop, c, acc);
    } else {
      assert acc + Widen([]) == acc;
    }
  }

  /** `StopSplit` for what the key and value loops collect. */
  lemma WidenSplit(a: Bytes, stop: byte, c: Bytes, acc: Bytes)
    requires stop !in a && |a| > 0
    ensures var s := a + [stop] + c;
            acc + Latin1(s[0]) + Widen(s[1..][..|a| - 1]) == acc + Widen(a)
  {
    var s := a + [stop] + c;
    assert s[0] == a[0];
    assert s[1..][..|a| - 1] == a[1..];
    WidenFront(a, acc);
  }

  lemma WidenFront(a: Bytes, acc: Bytes)
    requires |a| > 0
    ensures acc + Latin1(a[0]) + Widen(a[1..]) == acc + Widen(a)
  {
    assert Widen(a) == Latin1(a[0]) + Widen(a[1..]);
  }

  /** Where `a + [stop] + c` is split once its first byte is taken. */
  lemma StopSplit(a: Bytes, stop: byte, c: Bytes, acc: Bytes)
    requires stop !in a && |a| > 0
    ensures var s := a + [stop] + c;
            && s[0] == a[0] != stop
            && IndexOf(s[1..], stop) == |a| - 1
            && acc + [s[0]] + s[1..][..|a| - 1] == acc + a
            && s[1..][|a|..] == c
  {
    var s := a + [stop] + c;
    assert s[1..] == a[1..] + [stop] + c;
    IndexOfPrefix(a[1..], stop, c);
    assert s[1..][..|a| - 1] == a[1..];
    assert [a[0]] + a[1..] == a;
    assert acc + [s[0]] + a[1..] == acc + a;
  }

  /** The reason loop, started on the first byte of `a + [CR] + c`, collects
      `a` and leaves `c`. */
  lemma ReasonThrough(a: Bytes, c: Bytes, acc: Bytes)
    requires CR !in a
    ensures var s := a + [CR] + c;
            ReasonLoop(s[1..], s[0], false, acc) == Success(Parsed(acc + a, c))
  {
    var s := a + [CR] + c;
    ReasonLoopSpec(s[1..], s[0], acc);
    if |a| > 0 {
      StopSplit(a, CR, c, acc);
    } else {
      assert acc + [] == acc;
    }
  }

  /** The key of a header line is read up to its `:`. */
  lemma KeyRead(key: Bytes, c: Bytes)
    requires COLON !in key && (|key| > 0 ==> key[0] != CR)
    ensures var s := key + [COLON] + c;
            var o := Read(s, [0]);
            && o == ReadOutcome(s[1..], [s[0]], Success(1))
            && o.buf[0] != CR
            && CollectUntil(o.vector, o.buf[0], COLON, []) == Success(Parsed(Widen(key), c))
  {
    var s := key + [COLON] + c;
    ReadOne(s, 0);
    assert s[0] != CR;
    CollectThrough(key, COLON, c, []);
    assert [] + Widen(key) == Widen(key);
  }

  /** After the byte following `:` is dropped, the value is read up to its
      CR and the byte after that CR is dropped too. */
  lemma ValueRead(value: Bytes, rest: Bytes)
    requires CR !in value
    ensures var x := value + [CR] + ([LF] + rest);
            var o := Read(x, [COLON]);
            && o == ReadOutcome(x[1..], [x[0]], Success(1))
            && CollectUntil(o.vector, o.buf[0], CR, []) == Success(Parsed(Widen(value), [LF] + rest))
            && SkipByte([LF] + rest) == rest
  {
    CollectThrough(value, CR, [LF] + rest, []);
    assert [] + Widen(value) == Widen(value);
  }

  /** One serialised header line is read back into its key and value,
      widened, and the loop goes on with the bytes after the line's CRLF. */
  lemma HeaderLineStep(key: Bytes, value: Bytes, rest: Bytes, headers: Headers)
    requires WellFormedHeader(key, value)
    ensures HeaderLoop(HeaderLine(key, value) + rest, headers) == HeaderLoop(rest, headers[Widen(key) := Widen(value)])
  {
    var c := [SP] + value + [CR] + ([LF] + rest);
    assert HeaderLine(key, value) + rest == key + [COLON] + c;
    KeyRead(key, c);
    assert SkipByte(c) == value + [CR] + ([LF] + rest);
    ValueRead(value, rest);
  }

  /** The CR that ends the header block is consumed, and the LF after it is
      left in the stream. */
  lemma HeaderEndKeepsLF(rest: Bytes, headers: Headers)
    ensures HeaderLoop(CRLF + rest, headers) == Success(Parsed(headers, [LF] + rest))
  {
    assert Read(CRLF + rest, [0]) == ReadOutcome([LF] + rest, [CR], Success(1));
  }

  /** The header loop reads serialised header lines back, pair by pair in
      order, up to the CR that ends the block. */
  lemma {:induction false} HeaderLoopReadsLines(pairs: seq<(Bytes, Bytes)>, rest: Bytes, headers: Headers)
    requires WellFormedPairs(pairs)
    ensures HeaderLoop(HeaderLines(pairs) + [CR] + rest, headers) == Success(Parsed(InsertAll(headers, WidenPairs(pairs)), rest))
    decreases |pairs|
  {
    if |pairs| == 0 {
      assert HeaderLines(pairs) + [CR] + rest == [CR] + rest;
      assert Read([CR] + rest, [0]) == ReadOutcome(rest, [CR], Success(1));
    } else {
      var tail := HeaderLines(pairs[1..]) + [CR] + rest;
      assert HeaderLines(pairs) + [CR] + rest == HeaderLine(pairs[0].0, pairs[0].1) + tail;
      assert WellFormedHeader(pairs[0].0, pairs[0].1);
      HeaderLineStep(pairs[0].0, pairs[0].1, tail, headers);
      HeaderLoopReadsLines(pairs[1..], rest, headers[Widen(pairs[0].0) := Widen(pairs[0].1)]);
      assert WidenPairs(pairs)[1..] == WidenPairs(pairs[1..]);
    }
  }

  /** The pairs of a well-formed map are well formed. */
  lemma PairsWellFormed(headers: Headers, order: seq<Bytes>)
    requires Enumerates(order, headers) && WellFormedHeaders(headers)
    ensures WellFormedPairs(Pairs(headers, order))
  {
  }
}
