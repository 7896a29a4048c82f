/** The `REPLACE` pattern, `\{\{ (?P<variable>.*) \}\}`, as the regex engine
    applies it to a template: the match starts at the leftmost `{{ ` that
    has a ` }}` later on the same line, and `.*`, which does not match a
    newline, is greedy, so the capture runs to the last ` }}` on that line. */
module JinjaPattern {
  import opened Wrappers
  import opened Bytes
  import opened StrReplace

  /** "{{ " */
  const OPEN: Bytes := [LBRACE, LBRACE, SP]
  /** " }}" */
  const CLOSE: Bytes := [SP, RBRACE, RBRACE]

  predicate OpenAt(t: Bytes, i: nat) {
    i + 3 <= |t| && t[i..i + 3] == OPEN
  }

  predicate CloseAt(t: Bytes, j: nat) {
    j + 3 <= |t| && t[j..j + 3] == CLOSE
  }

  /** A ` }}` at `j` that the capture started at `s` can reach: no newline
      between. */
  predicate ClosesLine(t: Bytes, s: nat, j: nat) {
    s <= j && CloseAt(t, j) && LF !in t[s..j]
  }

  /** `t[i..j + 3]` is a match whose capture is `t[i + 3..j]`. */
  predicate MatchAt(t: Bytes, i: nat, j: nat) {
    OpenAt(t, i) && ClosesLine(t, i + 3, j)
  }

  /** A match: the index of its `{{ ` and of its ` }}`. */
  datatype Match = Match(start: nat, close: nat)

  /** The match the regex engine reports first: leftmost, then greedy. */
  ghost predicate FirstMatch(t: Bytes, m: Match) {
    && MatchAt(t, m.start, m.close)
    && (forall i: nat, j: nat :: i < m.start ==> !MatchAt(t, i, j))
    && (forall j: nat :: m.close < j ==> !MatchAt(t, m.start, j))
  }

  /** The bytes between `{{ ` and ` }}`. */
  function Capture(t: Bytes, m: Match): Bytes
    requires MatchAt(t, m.start, m.close)
  {
    t[m.start + 3..m.close]
  }

  /** The whole matched text, `{{ ` + capture + ` }}`. */
  function Span(t: Bytes, m: Match): (span: Bytes)
    requires MatchAt(t, m.start, m.close)
    ensures span == OPEN + Capture(t, m) + CLOSE
  {
    assert t[m.start..m.close + 3] == t[m.start..m.start + 3] + t[m.start + 3..m.close] + t[m.close..m.close + 3];
    t[m.start..m.close + 3]
  }

  /** The last ` }}` at an index in `[s, hi]`, searched downwards. */
  function LastCloseBelow(t: Bytes, s: nat, hi: nat): (r: Option<nat>)
    ensures r.Some? ==> s <= r.value <= hi && CloseAt(t, r.value)
    ensures r.Some? ==> forall j: nat :: r.value < j <= hi ==> !CloseAt(t, j)
    ensures r.None? ==> forall j: nat :: s <= j <= hi ==> !CloseAt(t, j)
    decreases hi
  {
    if hi < s then None
    else if CloseAt(t, hi) then Some(hi)
    else if hi == s then None
    else LastCloseBelow(t, s, hi - 1)
  }

  /** Where the line holding index `s` ends: its newline, or the end. */
  function LineEnd(t: Bytes, s: nat): nat
    requires s <= |t|
  {
    s + IndexOf(t[s..], LF)
  }

  /** A capture from `s` may end at `j` exactly when `j` is not past the
      line's end. */
  lemma LineEndBounds(t: Bytes, s: nat, j: nat)
    requires s <= j <= |t|
    ensures LF !in t[s..j] <==> j <= LineEnd(t, s)
  {
    var k := IndexOf(t[s..], LF);
    if j <= s + k {
      forall x | s <= x < j ensures t[x] != LF {
        assert t[s..][x - s] == t[x];
      }
    } else {
      assert t[s..j][k] == t[s..][k] == LF;
    }
  }

  /** The greedy end of a capture starting at `s`. */
  function LastClose(t: Bytes, s: nat): (r: Option<nat>)
    requires s <= |t|
    ensures r.Some? ==> ClosesLine(t, s, r.value)
    ensures r.Some? ==> forall j: nat :: r.value < j ==> !ClosesLine(t, s, j)
    ensures r.None? ==> forall j: nat :: !ClosesLine(t, s, j)
  {
    var e := LineEnd(t, s);
    var r := LastCloseBelow(t, s, e);
    LastCloseLine(t, s, r);
    r
  }

  lemma LastCloseLine(t: Bytes, s: nat, r: Option<nat>)
    requires s <= |t| && r == LastCloseBelow(t, s, LineEnd(t, s))
    ensures r.Some? ==> ClosesLine(t, s, r.value)
    ensures r.Some? ==> forall j: nat :: r.value < j ==> !ClosesLine(t, s, j)
    ensures r.None? ==> forall j: nat :: !ClosesLine(t, s, j)
  {
    var e := LineEnd(t, s);
    if r.Some? {
      LineEndBounds(t, s, r.value);
    }
    forall j: nat | ClosesLine(t, s, j) ensures j <= e && r.Some? && j <= r.value {
      LineEndBounds(t, s, j);
    }
  }

  /** The first match starting at or after `i`. */
  function FindFrom(t: Bytes, i: nat): (r: Option<Match>)
    ensures r.Some? ==> i <= r.value.start && MatchAt(t, r.value.start, r.value.close)
    ensures r.Some? ==> forall i': nat, j: nat :: i <= i' < r.value.start ==> !MatchAt(t, i', j)
    ensures r.Some? ==> forall j: nat :: r.value.close < j ==> !MatchAt(t, r.value.start, j)
    ensures r.None? ==> forall i': nat, j: nat :: i <= i' ==> !MatchAt(t, i', j)
    decreases |t| - i
  {
    if i + 6 > |t| then None
    else if OpenAt(t, i) && LastClose(t, i + 3).Some? then Some(Match(i, LastClose(t, i + 3).value))
    else FindFrom(t, i + 1)
  }

  /** The match `captures_iter` yields first, if any. */
  function FindMatch(t: Bytes): (r: Option<Match>)
    ensures r.Some? ==> FirstMatch(t, r.value)
    ensures r.None? ==> forall i: nat, j: nat :: !MatchAt(t, i, j)
  {
    FindFrom(t, 0)
  }

  /** The first match is the only one that is leftmost and then greedy:
      `FindMatch` finds exactly the match `FirstMatch` describes. */
  lemma FirstMatchUnique(t: Bytes, m: Match)
    ensures FirstMatch(t, m) <==> FindMatch(t) == Some(m)
  {
    var r := FindMatch(t);
    if FirstMatch(t, m) {
      assert r.Some?;
      var n := r.value;
      assert !(n.start < m.start) && !(m.start < n.start);
      assert !(n.close < m.close) && !(m.close < n.close);
    }
  }

  /** A match's capture holds no newline. */
  lemma CaptureSingleLine(t: Bytes, m: Match)
    requires MatchAt(t, m.start, m.close)
    ensures LF !in Capture(t, m)
  {
  }

  /** No earlier occurrence of the matched text: any copy of it would be a
      match starting further left. */
  lemma SpanFirstOccurrence(t: Bytes, m: Match, k: nat)
    requires FirstMatch(t, m) && k < m.start
    ensures !OccursAt(t, Span(t, m), k)
  {
    var cap := Capture(t, m);
    assert LF !in cap;
    if OccursAt(t, Span(t, m), k) {
      OccurrenceMatches(t, cap, k);
    }
  }

  /** A copy of `{{ ` + capture + ` }}` whose capture has no newline is a
      match. */
  lemma OccurrenceMatches(t: Bytes, cap: Bytes, k: nat)
    requires LF !in cap && OccursAt(t, OPEN + cap + CLOSE, k)
    ensures MatchAt(t, k, k + 3 + |cap|)
  {
    var span := OPEN + cap + CLOSE;
    var j := k + 3 + |cap|;
    var w := t[k..j + 3];
    assert w == span;
    assert t[k..k + 3] == w[..3] == OPEN;
    assert t[j..j + 3] == w[3 + |cap|..] == CLOSE;
    assert forall i :: 0 <= i < |cap| ==> span[3 + i] == cap[i];
    assert t[k + 3..j] == w[3..3 + |cap|] == cap;
  }

  /** A template that starts with a placeholder ending its line (or the
      text) is matched by that placeholder. */
  lemma LeadingMatch(x: Bytes, rest: Bytes)
    requires LF !in x && (rest == [] || rest[0] == LF)
    ensures var t := OPEN + x + CLOSE + rest;
            var m := Match(0, |x| + 3);
            && MatchAt(t, m.start, m.close)
            && FindMatch(t) == Some(m)
            && Capture(t, m) == x
            && Span(t, m) == OPEN + x + CLOSE
  {
    var t := OPEN + x + CLOSE + rest;
    var n := |x| + 3;
    assert t[0..3] == OPEN && t[3..n] == x && t[n..n + 3] == CLOSE;
    assert MatchAt(t, 0, n);
    FirstMatchUnique(t, Match(0, n));
  }
}
