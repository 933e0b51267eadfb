/**
 * The per-segment clip file names `segment_{n}.wav` / `segment_{n}.mp3`
 * joined to a temporary directory, with `n` written by Python's `str(n)`.
 * Distinct segment numbers give distinct paths.
 */
module Paths {

  predicate IsDigit(c: char) {
    '0' <= c <= '9'
  }

  function DigitChar(d: nat): (c: char)
    requires d < 10
    ensures IsDigit(c) && c as int - '0' as int == d
  {
    ('0' as int + d) as char
  }

  /** `str(n)` for a natural number: its decimal digits, no leading zeros. */
  function Decimal(n: nat): (r: string)
    ensures |r| >= 1
    ensures forall i :: 0 <= i < |r| ==> IsDigit(r[i])
    decreases n
  {
    if n < 10 then [DigitChar(n)] else Decimal(n / 10) + [DigitChar(n % 10)]
  }

  /** The value of a string of decimal digits (the partner of `Decimal`). */
  function DecimalValue(s: string): nat
    requires forall i :: 0 <= i < |s| ==> IsDigit(s[i])
  {
    if s == [] then 0
    else
      assert IsDigit(s[|s| - 1]);
      DecimalValue(s[..|s| - 1]) * 10 + (s[|s| - 1] as int - '0' as int)
  }

  lemma {:induction false} DecimalRoundTrip(n: nat)
    ensures DecimalValue(Decimal(n)) == n
    decreases n
  {
    var r := Decimal(n);
    if n >= 10 {
      DecimalRoundTrip(n / 10);
      assert r[..|r| - 1] == Decimal(n / 10);
    }
  }

  lemma DecimalInjective(n: nat, m: nat)
    requires Decimal(n) == Decimal(m)
    ensures n == m
  {
    DecimalRoundTrip(n);
    DecimalRoundTrip(m);
  }

  /** `os.path.join(dir, f"segment_{n}{ext}")` for a directory without a trailing slash. */
  function SegmentFile(dir: string, n: nat, ext: string): (path: string)
    ensures StartsWithDir(path, dir)
  {
    dir + "/segment_" + Decimal(n) + ext
  }

  predicate StartsWithDir(path: string, dir: string) {
    |dir| + 1 <= |path| && path[..|dir|] == dir && path[|dir|] == '/'
  }

  /** Two segment numbers name the same file only if they are equal. */
  lemma SegmentFileInjective(dir: string, n: nat, m: nat, ext: string)
    requires SegmentFile(dir, n, ext) == SegmentFile(dir, m, ext)
    ensures n == m
  {
    var head := dir + "/segment_";
    var p, q := SegmentFile(dir, n, ext), SegmentFile(dir, m, ext);
    var dn, dm := Decimal(n), Decimal(m);
    assert |dn| == |dm| by {
      assert |p| == |head| + |dn| + |ext|;
      assert |q| == |head| + |dm| + |ext|;
    }
    assert p[|head|..|head| + |dn|] == dn;
    assert q[|head|..|head| + |dm|] == dm;
    DecimalInjective(n, m);
  }
}
