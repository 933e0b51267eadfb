/**
 * The handful of Python string operations the pipeline relies on:
 * whitespace (`str.isspace`, and the `\s` class of a `str` regular
 * expression, which is the same set), `strip`, `lower`, `startswith`,
 * `in` on strings, `split(sep)[0]`, and the first/last index of a character.
 */
module Text {

  import opened Wrappers

  /** Python's whitespace: the characters `str.isspace` accepts and `\s` matches. */
  predicate IsSpace(c: char) {
    || ('\t' <= c <= '\r')               // \t \n \x0b \x0c \r
    || ('\U{1c}' <= c <= '\U{1f}')       // file, group, record and unit separators
    || c == ' '
    || c == '\U{85}' || c == '\U{a0}' || c == '\U{1680}'
    || ('\U{2000}' <= c <= '\U{200a}')
    || c == '\U{2028}' || c == '\U{2029}' || c == '\U{202f}' || c == '\U{205f}' || c == '\U{3000}'
  }

  /** `not s.strip()`: the string holds nothing but whitespace. */
  predicate IsBlank(s: string) {
    forall i :: 0 <= i < |s| ==> IsSpace(s[i])
  }

  /** The end of the run of whitespace that starts at `k`. */
  function SkipSpace(s: string, k: nat): (p: nat)
    requires k <= |s|
    ensures k <= p <= |s|
    ensures forall i :: k <= i < p ==> IsSpace(s[i])
    ensures p < |s| ==> !IsSpace(s[p])
    decreases |s| - k
  {
    if k == |s| || !IsSpace(s[k]) then k else SkipSpace(s, k + 1)
  }

  /** The start of the run of whitespace that ends at `k`. */
  function SkipSpaceBack(s: string, k: nat): (q: nat)
    requires k <= |s|
    ensures q <= k
    ensures forall i :: q <= i < k ==> IsSpace(s[i])
    ensures q > 0 ==> !IsSpace(s[q - 1])
  {
    if k == 0 || !IsSpace(s[k - 1]) then k else SkipSpaceBack(s, k - 1)
  }

  /**
   * Python's `s.strip()`: `s` with its leading and trailing whitespace cut
   * off and nothing else removed.
   */
  function Strip(s: string): (r: string)
    ensures r == [] <==> IsBlank(s)
    ensures r != [] ==> !IsSpace(r[0]) && !IsSpace(r[|r| - 1])
    ensures exists p: nat, q: nat :: p <= q <= |s| && r == s[p..q] && IsBlank(s[..p]) && IsBlank(s[q..])
    ensures Contains(s, r)
  {
    var p := SkipSpace(s, 0);
    if p == |s| then
      assert s[p..p] == [] && IsBlank(s[..p]) && IsBlank(s[p..]);
      assert OccursAt(s, [], 0);
      []
    else
      var q := SkipSpaceBack(s, |s|);
      assert p < q;
      assert !IsBlank(s) by { assert !IsSpace(s[p]); }
      assert IsBlank(s[..p]) && IsBlank(s[q..]);
      assert OccursAt(s, s[p..q], p);
      s[p..q]
  }

  /**
   * Cutting off any whitespace prefix and suffix that leaves no whitespace at
   * either end of the rest is what `strip` does: its result is unique.
   */
  lemma StripCutsOnlyOuterSpace(s: string, p: nat, q: nat)
    requires p <= q <= |s| && IsBlank(s[..p]) && IsBlank(s[q..])
    requires p < q ==> !IsSpace(s[p]) && !IsSpace(s[q - 1])
    ensures Strip(s) == s[p..q]
  {
    if p == q {
      forall i | 0 <= i < |s|
        ensures IsSpace(s[i])
      {
        if i < p { assert s[i] == s[..p][i]; } else { assert s[i] == s[q..][i - q]; }
      }
    } else {
      var p0 := SkipSpace(s, 0);
      assert p0 == p by {
        assert forall i :: 0 <= i < p ==> s[i] == s[..p][i];
      }
      var q0 := SkipSpaceBack(s, |s|);
      assert q0 == q by {
        assert forall i :: q <= i < |s| ==> s[i] == s[q..][i - q];
      }
    }
  }

  function LowerChar(c: char): char {
    if 'A' <= c <= 'Z' then (c as int + 32) as char else c
  }

  /** Python's `s.lower()`, on the ASCII letters. */
  function Lower(s: string): (r: string)
    ensures |r| == |s|
    ensures forall i :: 0 <= i < |s| ==> r[i] == LowerChar(s[i])
  {
    seq(|s|, i requires 0 <= i < |s| => LowerChar(s[i]))
  }

  /** Python's `s.startswith(prefix)`. */
  predicate StartsWith(s: string, prefix: string) {
    |prefix| <= |s| && s[..|prefix|] == prefix
  }

  /** Python's `s.endswith(suffix)`. */
  predicate EndsWith(s: string, suffix: string) {
    |suffix| <= |s| && s[|s| - |suffix|..] == suffix
  }

  /** `t` occurs in `s` starting at index `i`. */
  predicate OccursAt(s: string, t: string, i: nat) {
    i + |t| <= |s| && s[i..i + |t|] == t
  }

  /** Python's `t in s` on strings. */
  predicate Contains(s: string, t: string) {
    exists i: nat | i <= |s| :: OccursAt(s, t, i)
  }

  /** Python's `s.split(sep)[0]`: everything before the first `sep`. */
  function BeforeFirst(s: string, sep: char): (r: string)
    ensures StartsWith(s, r)
    ensures sep !in r
    ensures |r| < |s| ==> s[|r|] == sep
  {
    if s == [] || s[0] == sep then [] else [s[0]] + BeforeFirst(s[1..], sep)
  }

  /** Index of the first `c` in `s` at or after `k`. */
  function IndexOf(s: string, c: char, k: nat): (r: Option<nat>)
    requires k <= |s|
    ensures r.Some? ==> k <= r.value < |s| && s[r.value] == c
    ensures r.Some? ==> forall i :: k <= i < r.value ==> s[i] != c
    ensures r.None? ==> forall i :: k <= i < |s| ==> s[i] != c
    decreases |s| - k
  {
    if k == |s| then None
    else if s[k] == c then Some(k)
    else IndexOf(s, c, k + 1)
  }

  /** Index of the last `c` in `s[..k]`. */
  function LastIndexOf(s: string, c: char, k: nat): (r: Option<nat>)
    requires k <= |s|
    ensures r.Some? ==> r.value < k && s[r.value] == c
    ensures r.Some? ==> forall i :: r.value < i < k ==> s[i] != c
    ensures r.None? ==> forall i :: 0 <= i < k ==> s[i] != c
  {
    if k == 0 then None
    else if s[k - 1] == c then Some(k - 1)
    else LastIndexOf(s, c, k - 1)
  }
}
