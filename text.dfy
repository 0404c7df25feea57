/** String helpers the plugin relies on: substring search (`indexOf` and the
    plugin's own `indexAfterOf`) and the JavaScript whitespace class used by
    `\s` and `String.prototype.trim`. Strings are sequences of `char`, that
    is of Unicode scalar values, not of the UTF-16 code units JavaScript
    indexes by (see "UTF-16" under "Left out" in the README). */
module Text {

  datatype Option<T> = None | Some(value: T)

  /** `s` occurs in `str` starting at index `k`. */
  predicate MatchAt(str: string, s: string, k: nat) {
    k + |s| <= |str| && str[k..k + |s|] == s
  }

  /** `s` is a prefix of `str`. */
  predicate StartsWith(str: string, s: string) {
    MatchAt(str, s, 0)
  }

  /** `s` is a suffix of `str`. */
  predicate EndsWith(str: string, s: string) {
    |s| <= |str| && MatchAt(str, s, |str| - |s|)
  }

  lemma StartsWithAppended(prefix: string, s: string)
    ensures StartsWith(prefix + s, prefix)
  {
    assert (prefix + s)[0..|prefix|] == prefix;
  }

  lemma EndsWithAppended(s: string, suffix: string)
    ensures EndsWith(s + suffix, suffix)
  {
    assert (s + suffix)[|s|..|s| + |suffix|] == suffix;
  }

  lemma ConcatAssoc<T>(a: seq<T>, b: seq<T>, c: seq<T>)
    ensures a + (b + c) == a + b + c
  {
  }

  /** `String.prototype.indexOf(s, from)` for `from <= |str|`: the first index
      at or after `from` where `s` occurs, or `None` for JavaScript's -1
      (IndexOfFirstMatch states this). */
  function IndexOf(str: string, s: string, from: nat): (r: Option<nat>)
    requires from <= |str|
    ensures r.Some? ==> from <= r.value && r.value + |s| <= |str|
    decreases |str| - from
  {
    if MatchAt(str, s, from) then Some(from)
    else if from == |str| then None
    else IndexOf(str, s, from + 1)
  }

  /** `IndexOf` finds the first match at or after `from`, and `None` means there is none. */
  lemma {:induction false} IndexOfFirstMatch(str: string, s: string, from: nat)
    requires from <= |str|
    ensures var r := IndexOf(str, s, from);
      && (r.Some? ==> MatchAt(str, s, r.value))
      && (r.Some? ==> forall k :: from <= k < r.value ==> !MatchAt(str, s, k))
      && (r.None? ==> forall k :: from <= k ==> !MatchAt(str, s, k))
    decreases |str| - from
  {
    if !MatchAt(str, s, from) && from < |str| {
      IndexOfFirstMatch(str, s, from + 1);
    }
  }

  /** `IndexOf` answers with the first match, whenever there is one. */
  lemma IndexOfFirst(str: string, s: string, from: nat, m: nat)
    requires from <= m && MatchAt(str, s, m)
    requires forall k :: from <= k < m ==> !MatchAt(str, s, k)
    ensures IndexOf(str, s, from) == Some(m)
  {
    IndexOfFirstMatch(str, s, from);
  }

  /** `IndexOf` answers `None` exactly when there is no match from `from` on. */
  lemma IndexOfNone(str: string, s: string, from: nat)
    requires from <= |str|
    requires forall k :: from <= k <= |str| ==> !MatchAt(str, s, k)
    ensures IndexOf(str, s, from) == None
  {
    IndexOfFirstMatch(str, s, from);
  }

  /** `str.includes(s)`. */
  predicate Contains(str: string, s: string) {
    IndexOf(str, s, 0).Some?
  }

  /** The position JavaScript's `indexOf` starts from: `position` clamped to the length. */
  function ClampPosition(str: string, position: nat): nat {
    if position <= |str| then position else |str|
  }

  /** `indexAfterOf(str, searched, position)`: the index just past the first
      occurrence of `searched` at or after `position`, or `None` (JavaScript's
      `undefined`) when there is none (IndexAfterOfFirstMatch states this). */
  function IndexAfterOf(str: string, searched: string, position: nat): (r: Option<nat>)
    ensures r.Some? ==> ClampPosition(str, position) + |searched| <= r.value <= |str|
  {
    match IndexOf(str, searched, ClampPosition(str, position))
    case Some(index) => Some(index + |searched|)
    case None => None
  }

  /** `indexAfterOf` answers exactly when `searched` occurs at or after
      `position`; then its answer ends that occurrence and no earlier one
      starts at or after `position`. */
  lemma IndexAfterOfFirstMatch(str: string, searched: string, position: nat)
    ensures var r := IndexAfterOf(str, searched, position);
      && (r.Some? <==> exists k :: ClampPosition(str, position) <= k && MatchAt(str, searched, k))
      && (r.Some? ==> MatchAt(str, searched, r.value - |searched|))
      && (r.Some? ==> forall k :: ClampPosition(str, position) <= k < r.value - |searched| ==> !MatchAt(str, searched, k))
  {
    IndexOfFirstMatch(str, searched, ClampPosition(str, position));
  }

  /** A match inside the suffix `str[d..]` is a match in `str`, shifted by `d`. */
  lemma MatchAtShift(str: string, s: string, d: nat, k: nat)
    requires d <= |str|
    ensures MatchAt(str[d..], s, k) <==> MatchAt(str, s, d + k)
  {
    if d + k + |s| <= |str| {
      assert str[d..][k..k + |s|] == str[d + k..d + k + |s|];
    }
  }

  /** A match inside the slice `str[lo..hi]` is a match in `str`, shifted by `lo`. */
  lemma MatchAtSlice(str: string, s: string, lo: nat, hi: nat, k: nat)
    requires lo <= hi <= |str|
    requires lo + k + |s| <= hi
    ensures MatchAt(str[lo..hi], s, k) <==> MatchAt(str, s, lo + k)
  {
    var t := str[lo..hi];
    assert forall i :: 0 <= i < |t| ==> t[i] == str[lo + i];
    assert t[k..k + |s|] == str[lo + k..lo + k + |s|];
  }

  /** `indexOf` over a suffix `str[d..]` answers as over `str`, shifted by `d`. */
  lemma {:induction false} IndexOfShift(str: string, s: string, d: nat, j: nat)
    requires d + j <= |str|
    ensures IndexOf(str, s, d + j).Some? <==> IndexOf(str[d..], s, j).Some?
    ensures IndexOf(str, s, d + j).Some? ==> IndexOf(str, s, d + j).value == d + IndexOf(str[d..], s, j).value
    decreases |str| - d - j
  {
    MatchAtShift(str, s, d, j);
    if !MatchAt(str, s, d + j) && d + j < |str| {
      IndexOfShift(str, s, d, j + 1);
    }
  }

  /** `indexAfterOf` only looks at the text from `position` on, so searching a
      suffix gives the same answer shifted by the suffix's start. */
  lemma IndexAfterOfShift(str: string, s: string, d: nat, j: nat)
    requires d + j <= |str|
    ensures IndexAfterOf(str, s, d + j).Some? <==> IndexAfterOf(str[d..], s, j).Some?
    ensures IndexAfterOf(str, s, d + j).Some? ==>
      IndexAfterOf(str, s, d + j).value == d + IndexAfterOf(str[d..], s, j).value
  {
    assert ClampPosition(str, d + j) == d + j;
    assert ClampPosition(str[d..], j) == j;
    IndexOfShift(str, s, d, j);
  }

  /** One character of the class matched by `\s` and removed by `trim()`:
      ECMAScript's WhiteSpace and LineTerminator code points. */
  predicate IsWs(c: char) {
    || c == '\t' || c == '\n' || c == '\U{000B}' || c == '\U{000C}' || c == '\r'
    || c == ' ' || c == '\U{00A0}' || c == '\U{1680}'
    || ('\U{2000}' <= c <= '\U{200A}')
    || c == '\U{2028}' || c == '\U{2029}' || c == '\U{202F}' || c == '\U{205F}'
    || c == '\U{3000}' || c == '\U{FEFF}'
  }

  /** `/^\s+$/.test(s)`: `s` is non-empty and all whitespace, which is to say
      non-empty and emptied by `trim()`. */
  predicate AllWs(s: string)
    ensures AllWs(s) <==> s != [] && Trim(s) == []
  {
    |s| > 0 && forall i :: 0 <= i < |s| ==> IsWs(s[i])
  }

  /** The longest whitespace prefix of `s`: what the pattern `^\s*` matches. */
  function LeadingWs(s: string): (r: string)
    ensures |r| <= |s| && r == s[..|r|]
    ensures forall i :: 0 <= i < |r| ==> IsWs(r[i])
    ensures |r| < |s| ==> !IsWs(s[|r|])
  {
    if s != [] && IsWs(s[0]) then [s[0]] + LeadingWs(s[1..]) else []
  }

  /** `s.match(/\s*$/)[0]`: the longest whitespace suffix of `s`. */
  function TrailingWs(s: string): (r: string)
    ensures |r| <= |s| && r == s[|s| - |r|..]
    ensures forall i :: 0 <= i < |r| ==> IsWs(r[i])
    ensures |r| < |s| ==> !IsWs(s[|s| - |r| - 1])
  {
    if s != [] && IsWs(s[|s| - 1]) then TrailingWs(s[..|s| - 1]) + [s[|s| - 1]] else []
  }

  /** `s.trim()`: `s` without its leading and trailing whitespace. */
  function Trim(s: string): (r: string)
    ensures r == [] <==> forall i :: 0 <= i < |s| ==> IsWs(s[i])
    ensures r != [] ==> !IsWs(r[0]) && !IsWs(r[|r| - 1])
    ensures r != [] ==> LeadingWs(s) + r + TrailingWs(s) == s
  {
    var lead := LeadingWs(s);
    if |lead| == |s| then []
    else
      var trail := TrailingWs(s);
      assert s == s[..|lead|] + s[|lead|..|s| - |trail|] + s[|s| - |trail|..];
      s[|lead|..|s| - |trail|]
  }
}
