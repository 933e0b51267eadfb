/**
 * The cleaner the translator runs on the language model's reply before
 * parsing it (services/translator/translator.py): it prefers a JSON array
 * inside a "```json" fence, falls back to the widest bracketed span of the
 * reply, and otherwise fails the way `json.loads` would.
 *
 * Both searches are regular-expression searches with DOTALL: the leftmost
 * start wins and the greedy `.*` makes the closing bracket the last one
 * that still lets the rest of the pattern match.
 */
module Translator {

  import opened Wrappers
  import opened Text

  /** `json.JSONDecodeError` raised when the reply holds no array. */
  datatype ExtractError = NoJsonArray

  /** A fence "```" starts at `i`. */
  predicate FenceAt(s: string, i: nat) {
    i + 3 <= |s| && s[i] == '`' && s[i + 1] == '`' && s[i + 2] == '`'
  }

  /** An opening fence "```json" starts at `i`. */
  predicate JsonFenceAt(s: string, i: nat) {
    FenceAt(s, i) && i + 7 <= |s| && s[i + 3] == 'j' && s[i + 4] == 's' && s[i + 5] == 'o' && s[i + 6] == 'n'
  }

  /** `\]\s*```` matches with its bracket at `e`. */
  predicate ClosesFence(s: string, e: nat) {
    e < |s| && s[e] == ']' && FenceAt(s, SkipSpace(s, e + 1))
  }

  /** Where the array of a fence opened at `k` starts: past "```json" and `\s*`. */
  function Body(s: string, k: nat): nat
    requires JsonFenceAt(s, k)
  {
    SkipSpace(s, k + 7)
  }

  predicate OpensFence(s: string, k: nat) {
    JsonFenceAt(s, k) && Body(s, k) < |s| && s[Body(s, k)] == '['
  }

  /** The fenced pattern matches starting at `k`. */
  predicate FenceMatchesAt(s: string, k: nat) {
    OpensFence(s, k) && exists e :: Body(s, k) < e < |s| && ClosesFence(s, e)
  }

  /** Some `[` comes before some `]`: what the unfenced pattern needs. */
  predicate HasBracketPair(s: string) {
    exists i, j :: 0 <= i < j < |s| && s[i] == '[' && s[j] == ']'
  }

  /** The largest closing position in `(lo, hi)`: what the greedy `.*` settles on. */
  function LastClose(s: string, lo: nat, hi: nat): (r: Option<nat>)
    requires hi <= |s|
    ensures r.Some? ==> lo < r.value < hi && ClosesFence(s, r.value)
    ensures r.Some? ==> forall e :: r.value < e < hi ==> !ClosesFence(s, e)
    ensures r.None? ==> forall e :: lo < e < hi ==> !ClosesFence(s, e)
    decreases hi
  {
    if hi <= lo + 1 then None
    else if ClosesFence(s, hi - 1) then Some(hi - 1)
    else LastClose(s, lo, hi - 1)
  }

  /** The fenced pattern as the search tries it at `k`: an opening, then the greedy closing bracket. */
  predicate GreedyMatchAt(s: string, k: nat) {
    OpensFence(s, k) && LastClose(s, Body(s, k), |s|).Some?
  }

  /** The fenced pattern matches at `k` exactly when the greedy search for its closing bracket succeeds. */
  lemma FenceMatchesByLastClose(s: string, k: nat)
    ensures FenceMatchesAt(s, k) <==> GreedyMatchAt(s, k)
  {
  }

  /** The leftmost position at or after `k` where the fenced pattern matches. */
  function FenceFrom(s: string, k: nat): (r: Option<nat>)
    requires k <= |s|
    ensures r.Some? ==> k <= r.value < |s| && GreedyMatchAt(s, r.value)
    ensures r.Some? ==> forall j :: k <= j < r.value ==> !GreedyMatchAt(s, j)
    ensures r.None? ==> forall j :: k <= j < |s| ==> !GreedyMatchAt(s, j)
    decreases |s| - k
  {
    if k == |s| then None
    else if GreedyMatchAt(s, k) then Some(k)
    else FenceFrom(s, k + 1)
  }

  /** The array inside the fence opened at `k`: from its `[` up to the greedy closing `]`. */
  function FencedArray(s: string, k: nat): (r: string)
    requires GreedyMatchAt(s, k)
    ensures |r| >= 2 && r[0] == '[' && r[|r| - 1] == ']'
    ensures Contains(s, r) && HasBracketPair(s)
  {
    var b := Body(s, k);
    var e := LastClose(s, b, |s|).value;
    BracketedSpan(s, b, e);
    s[b..e + 1]
  }

  /** The unfenced pattern `\[.*\]`: from the first `[` to the last `]`, if the first comes before the last. */
  function WidestSpan(s: string): (r: Result<string, ExtractError>)
    ensures r.Ok? ==> |r.value| >= 2 && r.value[0] == '[' && r.value[|r.value| - 1] == ']'
    ensures r.Ok? ==> Contains(s, r.value)
    ensures r.Err? <==> !HasBracketPair(s)
  {
    match IndexOf(s, '[', 0)
    case None => NoBracketPairWithout(s, |s|, |s|); Err(NoJsonArray)
    case Some(i) =>
      match LastIndexOf(s, ']', |s|)
      case None => NoBracketPairWithout(s, i, 0); Err(NoJsonArray)
      case Some(j) =>
        if i < j then
          BracketedSpan(s, i, j);
          Ok(s[i..j + 1])
        else
          NoBracketPairWithout(s, i, j + 1);
          Err(NoJsonArray)
  }

  /**
   * `clean_and_extract_json(response_text)`: the fenced array if there is
   * one, else the span from the first `[` to the last `]`, else an error.
   * Whatever it returns is a bracketed piece of the reply, and it fails
   * exactly when no `[` precedes a `]`.
   */
  function CleanAndExtractJson(s: string): (r: Result<string, ExtractError>)
    ensures r.Ok? ==> |r.value| >= 2 && r.value[0] == '[' && r.value[|r.value| - 1] == ']'
    ensures r.Ok? ==> Contains(s, r.value)
    ensures r.Err? <==> !HasBracketPair(s)
  {
    match FenceFrom(s, 0)
    case Some(k) => Ok(FencedArray(s, k))
    case None => WidestSpan(s)
  }

  /** A span from a `[` to a later `]` is a bracketed piece of the reply, and a bracket pair exists. */
  lemma BracketedSpan(s: string, i: nat, j: nat)
    requires i < j < |s| && s[i] == '[' && s[j] == ']'
    ensures Contains(s, s[i..j + 1])
    ensures HasBracketPair(s)
  {
    var t := s[i..j + 1];
    assert i + |t| == j + 1;
    assert OccursAt(s, t, i);
  }

  /** No `[` before `first` and no `]` from `last` on, with `last <= first`: no `[` precedes a `]`. */
  lemma NoBracketPairWithout(s: string, first: nat, last: nat)
    requires last <= first
    requires forall i :: 0 <= i < |s| && i < first ==> s[i] != '['
    requires forall j :: last <= j < |s| ==> s[j] != ']'
    ensures !HasBracketPair(s)
  {
  }

  /**
   * With a fence in the reply, the leftmost fence is used and its array runs
   * up to the last `]` that a closing fence follows, whatever brackets come
   * earlier in the reply.
   */
  lemma FencedArrayIsPreferred(s: string, k: nat, e: nat)
    requires FenceMatchesAt(s, k)
    requires forall j :: 0 <= j < k ==> !FenceMatchesAt(s, j)
    requires Body(s, k) < e && ClosesFence(s, e)
    requires forall e' :: e < e' < |s| ==> !ClosesFence(s, e')
    ensures CleanAndExtractJson(s) == Ok(s[Body(s, k)..e + 1])
  {
    LastCloseIsLargest(s, Body(s, k), |s|, e);
    assert GreedyMatchAt(s, k);
    forall j | 0 <= j < k
      ensures !GreedyMatchAt(s, j)
    {
      FenceMatchesByLastClose(s, j);
    }
    FenceFromIsLeftmost(s, 0, k);
    assert FencedArray(s, k) == s[Body(s, k)..e + 1];
  }

  lemma {:induction false} LastCloseIsLargest(s: string, lo: nat, hi: nat, e: nat)
    requires hi <= |s| && lo < e < hi && ClosesFence(s, e)
    requires forall e' :: e < e' < hi ==> !ClosesFence(s, e')
    ensures LastClose(s, lo, hi) == Some(e)
    decreases hi
  {
    if e < hi - 1 {
      LastCloseIsLargest(s, lo, hi - 1, e);
    }
  }

  lemma {:induction false} FenceFromIsLeftmost(s: string, from: nat, k: nat)
    requires from <= k < |s| && GreedyMatchAt(s, k)
    requires forall j :: from <= j < k ==> !GreedyMatchAt(s, j)
    ensures FenceFrom(s, from) == Some(k)
    decreases k - from
  {
    if from < k {
      FenceFromIsLeftmost(s, from + 1, k);
    }
  }

  /** Without a fence, the span from the first `[` to the last `]` is returned. */
  lemma UnfencedReplyGivesWidestSpan(s: string, i: nat, j: nat)
    requires forall k :: 0 <= k < |s| ==> !FenceMatchesAt(s, k)
    requires i < j < |s| && s[i] == '[' && s[j] == ']'
    requires forall i' :: 0 <= i' < i ==> s[i'] != '['
    requires forall j' :: j < j' < |s| ==> s[j'] != ']'
    ensures CleanAndExtractJson(s) == Ok(s[i..j + 1])
  {
    forall k | 0 <= k < |s|
      ensures !GreedyMatchAt(s, k)
    {
      FenceMatchesByLastClose(s, k);
    }
    NoFenceFound(s, 0);
  }

  lemma {:induction false} NoFenceFound(s: string, from: nat)
    requires from <= |s|
    requires forall k :: from <= k < |s| ==> !GreedyMatchAt(s, k)
    ensures FenceFrom(s, from) == None
    decreases |s| - from
  {
    if from < |s| {
      NoFenceFound(s, from + 1);
    }
  }

  /** A reply that already is a bracketed array, with no "```json" in it, comes back unchanged. */
  lemma BareArrayIsReturnedWhole(s: string)
    requires |s| >= 2 && s[0] == '[' && s[|s| - 1] == ']'
    requires forall k :: 0 <= k < |s| ==> !JsonFenceAt(s, k)
    ensures CleanAndExtractJson(s) == Ok(s)
  {
    NoFenceFound(s, 0);
    assert s[0..|s|] == s;
  }

  /** So cleaning such a result again changes nothing. */
  lemma CleaningAgainKeepsBareArray(s: string)
    requires CleanAndExtractJson(s).Ok?
    requires var r := CleanAndExtractJson(s).value;
      forall k :: 0 <= k < |r| ==> !JsonFenceAt(r, k)
    ensures CleanAndExtractJson(CleanAndExtractJson(s).value) == CleanAndExtractJson(s)
  {
    BareArrayIsReturnedWhole(CleanAndExtractJson(s).value);
  }
}
