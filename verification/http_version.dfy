/** The HTTP version codec: `httpver_to_vecu8`, which prints a version pair,
    and the three-byte check both parsers apply to the bytes after `HTTP/`. */
module HttpVersion {
  import opened Wrappers
  import opened Bytes

  /** `httpver_to_vecu8`: the major component printed by `to_string`, a `.`,
      then the minor component printed the same way. */
  function VersionBytes(version: (i32, i32)): (r: Bytes)
  {
    SignedDecimal(version.0) + [DOT] + SignedDecimal(version.1)
  }

  /** The parsers' version check: three bytes, the middle one `.`, and each
      outer byte on its own a string that `parse::<i32>` accepts. */
  function ParseVersion(b: Bytes): (r: Option<(i32, i32)>)
    requires |b| == 3
  {
    if b[1] != DOT then None
    else
      match ParseI32([b[0]])
      case None => None
      case Some(major) =>
        match ParseI32([b[2]])
        case None => None
        case Some(minor) => Some((major, minor))
  }

  /** The output is exactly as long as the two printed components plus the dot. */
  lemma VersionLength(version: (i32, i32))
    ensures |VersionBytes(version)| == |SignedDecimal(version.0)| + 1 + |SignedDecimal(version.1)|
  {
  }

  /** For non-negative components the dot occurs exactly once, and it splits
      the output back into the two decimals. */
  lemma VersionSplitsAtDot(version: (i32, i32))
    requires version.0 >= 0 && version.1 >= 0
    ensures var r := VersionBytes(version);
            var k := |Decimal(version.0)|;
            && k < |r| && r[k] == DOT
            && r[..k] == Decimal(version.0)
            && r[k + 1..] == Decimal(version.1)
            && IndexOf(r, DOT) == k
            && (forall i :: 0 <= i < |r| && r[i] == DOT ==> i == k)
  {
    var r := VersionBytes(version);
    var a, b := Decimal(version.0), Decimal(version.1);
    assert r == a + [DOT] + b;
    forall i | 0 <= i < |r|
      ensures r[i] == DOT ==> i == |a|
    {
      if i < |a| {
        assert r[i] == a[i];
      } else if i > |a| {
        assert r[i] == b[i - |a| - 1];
      }
    }
    assert r[..|a|] == a;
    assert r[|a| + 1..] == b;
  }

  /** Single-digit components give three bytes, a digit, `.`, a digit: the
      only shape the parsers accept. */
  lemma SingleDigitVersion(version: (i32, i32))
    requires 0 <= version.0 <= 9 && 0 <= version.1 <= 9
    ensures var r := VersionBytes(version);
            && |r| == 3 && r[1] == DOT
            && IsDigit(r[0]) && DigitValue(r[0]) == version.0
            && IsDigit(r[2]) && DigitValue(r[2]) == version.1
  {
    DecimalLength(version.0);
    DecimalLength(version.1);
  }

  /** The version check accepts exactly the printed single-digit versions:
      it inverts `VersionBytes` on them and accepts nothing else. */
  lemma ParseVersionInverts(b: Bytes, version: (i32, i32))
    requires |b| == 3
    ensures ParseVersion(b) == Some(version) <==>
              0 <= version.0 <= 9 && 0 <= version.1 <= 9 && VersionBytes(version) == b
  {
    ParseSingleByte(b[0]);
    ParseSingleByte(b[2]);
    if 0 <= version.0 <= 9 && 0 <= version.1 <= 9 {
      SingleDigitVersion(version);
      var r := VersionBytes(version);
      if r == b {
        assert ParseVersion(b) == Some(version);
      }
      if ParseVersion(b) == Some(version) {
        assert r == [r[0], r[1], r[2]] && b == [b[0], b[1], b[2]];
        assert DigitValue(r[0]) == DigitValue(b[0]);
        assert DigitValue(r[2]) == DigitValue(b[2]);
      }
    }
  }
}
