/** What `String::push(byte.into())` does: the byte becomes the `char` with
    that code point, and the `String` stores that char's UTF-8 encoding.
    Both the HTTP readers and the Jinja scanner collect text this way, so a
    byte of 0x80 or more comes out as two bytes. */
module Widening {
  import opened Bytes
  import opened Utf8

  /** The UTF-8 bytes `String::push` appends for the `char` with code point
      `b`. */
  function Latin1(b: byte): (r: Bytes)
    ensures 0 < |r| <= 2
    ensures |r| == 1 <==> b < 0x80
  {
    if b < 0x80 then [b] else [(0xC0 + b as int / 64) as byte, (0x80 + b as int % 64) as byte]
  }

  /** A byte string pushed onto a `String` byte by byte. */
  function Widen(s: Bytes): Bytes
    decreases |s|
  {
    if |s| == 0 then [] else Latin1(s[0]) + Widen(s[1..])
  }

  /** Pushing one more byte appends its encoding. */
  lemma WidenCons(b: byte, s: Bytes)
    ensures Widen([b] + s) == Latin1(b) + Widen(s)
  {
    assert ([b] + s)[1..] == s;
  }

  /** Pushing two strings one after the other is pushing their
      concatenation. */
  lemma {:induction false} WidenConcat(s: Bytes, t: Bytes)
    ensures Widen(s + t) == Widen(s) + Widen(t)
    decreases |s|
  {
    if |s| > 0 {
      var h, u := s[0], s[1..];
      assert s + t == [h] + (u + t);
      WidenCons(h, u + t);
      WidenConcat(u, t);
    } else {
      assert s + t == t;
    }
  }

  /** ASCII bytes come through the widening unchanged. */
  lemma {:induction false} WidenAscii(s: Bytes)
    requires IsAscii(s)
    ensures Widen(s) == s
    decreases |s|
  {
    if |s| > 0 {
      WidenAscii(s[1..]);
      assert [s[0]] + s[1..] == s;
    }
  }

  /** Every byte of 0x80 or more adds one byte to the widened text. */
  lemma {:induction false} WidenLonger(s: Bytes)
    ensures |Widen(s)| >= |s|
    ensures |Widen(s)| == |s| ==> IsAscii(s)
    decreases |s|
  {
    if |s| > 0 {
      WidenLonger(s[1..]);
      if |Widen(s)| == |s| {
        assert |Latin1(s[0])| == 1;
        forall i | 0 <= i < |s| ensures s[i] < 0x80 {
          if i > 0 {
            assert s[1..][i - 1] == s[i];
          }
        }
      }
    }
  }

  /** The widening leaves exactly ASCII text unchanged. */
  lemma WidenFixedIffAscii(s: Bytes)
    ensures Widen(s) == s <==> IsAscii(s)
  {
    WidenLonger(s);
    if IsAscii(s) {
      WidenAscii(s);
    }
  }

  /** Nothing widens to nothing, and only nothing. */
  lemma WidenEmpty(s: Bytes)
    ensures Widen(s) == [] <==> s == []
  {
  }

  /** Each pushed `char` is one well-formed UTF-8 character. */
  lemma Latin1Valid(b: byte)
    ensures ValidUtf8(Latin1(b))
  {
    var r := Latin1(b);
    if b >= 0x80 {
      assert 0xC2 <= r[0] <= 0xC3 && Continuation(r[1]);
      assert CharLength(r) == 2;
      assert r[2..] == [];
    } else {
      assert r[1..] == [];
    }
  }

  /** A `String` built by pushes is always well-formed UTF-8, whatever bytes
      were pushed. */
  lemma {:induction false} WidenValid(s: Bytes)
    ensures ValidUtf8(Widen(s))
    decreases |s|
  {
    if |s| > 0 {
      Latin1Valid(s[0]);
      WidenValid(s[1..]);
      ValidConcat(Latin1(s[0]), Widen(s[1..]));
    }
  }
}
