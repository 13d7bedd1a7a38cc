/**
 * The two JavaScript string built-ins the middleware relies on, with the
 * semantics ECMAScript gives them for a non-empty string separator:
 * `s.startsWith(prefix)` and `s.split(sep)`, which scans left to right and
 * cuts at every non-overlapping occurrence of `sep`.
 */
module JsStrings {
  import opened Wrappers

  /** `s.startsWith(prefix)`: case-sensitive, character by character. */
  predicate StartsWith(s: string, prefix: string) {
    |prefix| <= |s| && s[..|prefix|] == prefix
  }

  /** `sep` occurs in `s` at position `i`. */
  predicate OccursAt(s: string, sep: string, i: nat) {
    i + |sep| <= |s| && s[i..i + |sep|] == sep
  }

  /** `sep` occurs nowhere in `s`. */
  predicate Free(s: string, sep: string) {
    forall i :: 0 <= i <= |s| ==> !OccursAt(s, sep, i)
  }

  /**
   * The leftmost occurrence of `sep` in `s` at or after `from`. Unlike
   * JavaScript's `s.indexOf(sep, from)`, `from` is not clamped to `|s|`;
   * `split` only searches from positions inside the string.
   */
  function IndexOf(s: string, sep: string, from: nat): (r: Option<nat>)
    decreases |s| - from
    ensures r.Some? ==> from <= r.value && OccursAt(s, sep, r.value)
    ensures r.Some? ==> forall i: nat :: from <= i < r.value ==> !OccursAt(s, sep, i)
    ensures r.None? ==> forall i: nat :: from <= i ==> !OccursAt(s, sep, i)
  {
    if from + |sep| > |s| then None
    else if s[from..from + |sep|] == sep then Some(from)
    else IndexOf(s, sep, from + 1)
  }

  /** The pieces of `s[p..]` that `split` produces, once it has cut up to position `p`. */
  function SplitFrom(s: string, sep: string, p: nat): (parts: seq<string>)
    requires |sep| > 0 && p <= |s|
    decreases |s| - p
  {
    match IndexOf(s, sep, p)
    case None => [s[p..]]
    case Some(q) => [s[p..q]] + SplitFrom(s, sep, q + |sep|)
  }

  /** `s.split(sep)` for a non-empty separator. */
  function Split(s: string, sep: string): (parts: seq<string>)
    requires |sep| > 0
  {
    SplitFrom(s, sep, 0)
  }

  /** `parts.join(sep)`, the inverse of `split`. */
  function Join(parts: seq<string>, sep: string): (joined: string) {
    if |parts| == 0 then ""
    else if |parts| == 1 then parts[0]
    else parts[0] + sep + Join(parts[1..], sep)
  }

  /** No occurrence of `sep` starts in `s[lo..hi]`, so none lies inside that slice. */
  lemma FreeSlice(s: string, sep: string, lo: nat, hi: nat)
    requires |sep| > 0 && lo <= hi <= |s|
    requires forall i: nat :: lo <= i < hi ==> !OccursAt(s, sep, i)
    ensures Free(s[lo..hi], sep)
  {
    var t := s[lo..hi];
    forall i | 0 <= i <= |t| && OccursAt(t, sep, i)
      ensures false
    {
      forall j | 0 <= j < |sep|
        ensures s[lo + i + j] == sep[j]
      {
        assert t[i..i + |sep|][j] == t[i + j];
      }
      assert s[lo + i..lo + i + |sep|] == sep;
      assert OccursAt(s, sep, lo + i);
    }
  }

  /** Cutting `s[p..]` at an occurrence `q` of `sep` leaves the text before and after it. */
  lemma CutAt(s: string, sep: string, p: nat, q: nat)
    requires p <= q && OccursAt(s, sep, q)
    ensures s[p..q] + sep + s[q + |sep|..] == s[p..]
  {
  }

  /** `split` from position `p` yields at least one piece and never loses or invents a character. */
  lemma {:induction false} SplitFromJoin(s: string, sep: string, p: nat)
    requires |sep| > 0 && p <= |s|
    decreases |s| - p
    ensures |SplitFrom(s, sep, p)| >= 1
    ensures Join(SplitFrom(s, sep, p), sep) == s[p..]
  {
    match IndexOf(s, sep, p)
    case None =>
    case Some(q) =>
      var rest := SplitFrom(s, sep, q + |sep|);
      SplitFromJoin(s, sep, q + |sep|);
      var parts := [s[p..q]] + rest;
      assert parts[1..] == rest;
      assert Join(parts, sep) == s[p..q] + sep + s[q + |sep|..];
      CutAt(s, sep, p, q);
  }

  /** No piece that `split` produces from position `p` contains the separator. */
  lemma {:induction false} SplitFromFree(s: string, sep: string, p: nat)
    requires |sep| > 0 && p <= |s|
    decreases |s| - p
    ensures forall k :: 0 <= k < |SplitFrom(s, sep, p)| ==> Free(SplitFrom(s, sep, p)[k], sep)
  {
    match IndexOf(s, sep, p)
    case None =>
      FreeSlice(s, sep, p, |s|);
      assert s[p..] == s[p..|s|];
    case Some(q) =>
      var rest := SplitFrom(s, sep, q + |sep|);
      SplitFromFree(s, sep, q + |sep|);
      FreeSlice(s, sep, p, q);
      var parts := [s[p..q]] + rest;
      forall k | 0 <= k < |parts|
        ensures Free(parts[k], sep)
      {
        if k > 0 { assert parts[k] == rest[k - 1]; }
      }
  }

  /** `split` round-trips with `join`, and its pieces are free of the separator. */
  lemma SplitJoin(s: string, sep: string)
    requires |sep| > 0
    ensures |Split(s, sep)| >= 1
    ensures Join(Split(s, sep), sep) == s
    ensures forall k :: 0 <= k < |Split(s, sep)| ==> Free(Split(s, sep)[k], sep)
  {
    SplitFromJoin(s, sep, 0);
    SplitFromFree(s, sep, 0);
  }

  /** Without an occurrence of the separator, `split` gives the whole string back as one piece. */
  lemma SplitWithoutOccurrence(s: string, sep: string)
    requires |sep| > 0 && IndexOf(s, sep, 0).None?
    ensures Split(s, sep) == [s] && Free(s, sep)
  {
  }

  /** With an occurrence of the separator, `split` gives at least two pieces. */
  lemma {:induction false} SplitWithOccurrence(s: string, sep: string, q: nat)
    requires |sep| > 0 && IndexOf(s, sep, 0) == Some(q)
    ensures |Split(s, sep)| >= 2 && !Free(s, sep)
  {
    SplitFromJoin(s, sep, q + |sep|);
    assert |Split(s, sep)| == 1 + |SplitFrom(s, sep, q + |sep|)|;
    assert q <= |s| && OccursAt(s, sep, q);
  }

  /** `split` yields a single piece exactly when the separator never occurs. */
  lemma {:induction false} SplitSingleIff(s: string, sep: string)
    requires |sep| > 0
    ensures |Split(s, sep)| == 1 <==> Free(s, sep)
  {
    match IndexOf(s, sep, 0)
    case None => SplitWithoutOccurrence(s, sep);
    case Some(q) => SplitWithOccurrence(s, sep, q);
  }
}
