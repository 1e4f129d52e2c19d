/**
 * The few JavaScript string operations the display helpers rely on,
 * written out with the semantics the ECMAScript standard gives them
 * (String.prototype.slice, startsWith, indexOf and replace with a string
 * pattern). A JavaScript string is modelled as a `string`, one `char`
 * per code unit, for text without surrogate code units.
 */
module JsString {
  import opened Optional

  function Min(a: int, b: int): (m: int) { if a < b then a else b }

  /** The distance between two positions. */
  function Distance(a: int, b: int): (d: nat) { if a < b then b - a else a - b }

  /** `!v` for a value that is a string, `undefined` or `null`. */
  predicate Falsy(v: Option<string>): (b: bool)
    ensures b <==> v == None || v == Some("")
  {
    v.None? || v.value == ""
  }

  /**
   * The position a relative index of `slice` denotes in a string of
   * length `len`: a negative index counts from the end, and the target so
   * found is clamped to the nearest position in `[0, len]`.
   */
  function RelativeIndex(index: int, len: nat): (p: nat)
    ensures p <= len
    ensures var target := if index < 0 then len + index else index;
      forall q :: 0 <= q <= len ==> Distance(p, target) <= Distance(q, target)
  {
    if index < 0 then
      if len + index < 0 then 0 else len + index
    else
      if index < len then index else len
  }

  /** `s.slice(begin)` when `end` is `None`, otherwise `s.slice(begin, end)`. */
  function Slice(s: string, begin: int, end: Option<int>): (r: string)
    ensures |r| <= |s|
  {
    var from := RelativeIndex(begin, |s|);
    var to := if end.None? then |s| else RelativeIndex(end.value, |s|);
    if from < to then s[from..to] else ""
  }

  /** `s.slice(0, n)` keeps the first `n` characters, or all of a shorter string. */
  lemma SliceFront(s: string, n: nat)
    ensures Slice(s, 0, Some(n)) == s[..Min(n, |s|)]
  {
  }

  /** `s.slice(-k)` keeps the last `k` characters, or all of a shorter string. */
  lemma SliceBack(s: string, k: nat)
    requires 0 < k
    ensures Slice(s, -(k as int), None) == s[|s| - Min(k, |s|)..]
  {
  }

  /** `s.startsWith(p)`. */
  predicate StartsWith(s: string, p: string): (b: bool)
    ensures b <==> |p| <= |s| && forall i :: 0 <= i < |p| ==> s[i] == p[i]
    ensures b <==> |p| <= |s| && s == p + s[|p|..]
  {
    |p| <= |s| && s[..|p|] == p
  }

  /** `p` occurs in `s` starting at position `j`. */
  predicate OccursAt(s: string, p: string, j: int) {
    0 <= j && j + |p| <= |s| && s[j..j + |p|] == p
  }

  /** Starting with `p` is occurring at position 0, as `indexOf` sees it. */
  lemma StartsWithOccursAtZero(s: string, p: string)
    ensures StartsWith(s, p) <==> OccursAt(s, p, 0)
  {
  }

  /**
   * `s.indexOf(p, from)` for `from <= |s|`: the first position at or after `from` where `p`
   * occurs, or -1 when there is none.
   */
  function IndexOfFrom(s: string, p: string, from: nat): (r: int)
    requires from <= |s|
    ensures r == -1 || (from <= r && OccursAt(s, p, r))
    ensures r == -1 ==> forall j :: from <= j ==> !OccursAt(s, p, j)
    ensures r != -1 ==> forall j :: from <= j < r ==> !OccursAt(s, p, j)
    decreases |s| - from
  {
    if from + |p| > |s| then -1
    else if s[from..from + |p|] == p then from
    // Unreachable (from == |s| leaves only p == "", matched above); it makes termination evident.
    else if from == |s| then -1
    else IndexOfFrom(s, p, from + 1)
  }

  /** `s.indexOf(p)`. */
  function IndexOf(s: string, p: string): (r: int)
    ensures r == -1 <==> forall j :: !OccursAt(s, p, j)
    ensures r != -1 ==> OccursAt(s, p, r) && forall j :: j < r ==> !OccursAt(s, p, j)
  {
    IndexOfFrom(s, p, 0)
  }

  /**
   * `s.replace(p, rep)` with a string pattern: only the first occurrence of
   * `p` is replaced. The replacement is taken literally; `$` patterns in it
   * are not modelled.
   */
  function Replace(s: string, p: string, rep: string): (r: string)
    ensures (forall j :: !OccursAt(s, p, j)) ==> r == s
    ensures IndexOf(s, p) != -1 ==>
      r == s[..IndexOf(s, p)] + rep + s[IndexOf(s, p) + |p|..]
    ensures StartsWith(s, p) ==> r == rep + s[|p|..]
  {
    var i := IndexOf(s, p);
    if i == -1 then s else s[..i] + rep + s[i + |p|..]
  }
}
