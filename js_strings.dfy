/**
  The JavaScript string built-ins the bot relies on, over `seq<char>`:
  `indexOf`, `startsWith`, `endsWith`, `substring`, `split(sep)[0]` and `trim`.
  A JavaScript string is a sequence of UTF-16 code units; every character
  the model deals with (ASCII markup, Persian text) is a single unit, so a
  `char` stands for one unit.
 */
module JsStrings {
  import opened Wrappers

  /** `s` holds `pat` starting at index `k`. */
  predicate OccursAt(s: string, pat: string, k: int) {
    0 <= k && k + |pat| <= |s| && s[k..k + |pat|] == pat
  }

  /** `s.startsWith(pat)`. */
  predicate StartsWith(s: string, pat: string) {
    OccursAt(s, pat, 0)
  }

  /** `s.endsWith(pat)`. */
  predicate EndsWith(s: string, pat: string) {
    OccursAt(s, pat, |s| - |pat|)
  }

  /** `s.indexOf(pat, from)` for `0 <= from`: the first occurrence at or after `from`, or -1 (here `None`). */
  function IndexOfFrom(s: string, pat: string, from: nat): (r: Option<nat>)
    ensures r.Some? ==> from <= r.value && OccursAt(s, pat, r.value)
    ensures r.Some? ==> forall k :: from <= k < r.value ==> !OccursAt(s, pat, k)
    ensures r.None? ==> forall k :: from <= k ==> !OccursAt(s, pat, k)
    decreases |s| - from
  {
    if from + |pat| > |s| then None
    else if s[from..from + |pat|] == pat then Some(from)
    else IndexOfFrom(s, pat, from + 1)
  }

  /** The three parts of `p + x + q` can be sliced back out. */
  lemma SliceParts(p: string, x: string, q: string)
    ensures (p + x + q)[..|p|] == p
    ensures (p + x + q)[|p|..|p| + |x|] == x
    ensures (p + x + q)[|p| + |x|..] == q
  {
  }

  /** A slice of a slice is a slice. */
  lemma SliceOfSlice(s: string, a: nat, b: nat, i: nat, j: nat)
    requires a <= b <= |s| && i <= j <= b - a
    ensures s[a..b][i..j] == s[a + i..a + j]
  {
    forall t | 0 <= t < j - i ensures s[a..b][i..j][t] == s[a + i..a + j][t] {
      assert s[a..b][i..j][t] == s[a..b][i + t] == s[a + i + t];
    }
  }

  /** `s.indexOf(pat)`. */
  function IndexOf(s: string, pat: string): (r: Option<nat>)
    ensures r.Some? ==> OccursAt(s, pat, r.value)
    ensures r.Some? ==> forall k :: 0 <= k < r.value ==> !OccursAt(s, pat, k)
    ensures r.None? <==> forall k :: !OccursAt(s, pat, k)
  {
    IndexOfFrom(s, pat, 0)
  }

  /** `s.split([sep])[0]`: everything before the first `sep`, or all of `s`. */
  function SplitHead(s: string, sep: char): (r: string)
    ensures |r| <= |s| && r == s[..|r|]
    ensures sep !in r
    ensures |r| < |s| ==> s[|r|] == sep
    ensures sep !in s ==> r == s
  {
    if s == [] || s[0] == sep then [] else [s[0]] + SplitHead(s[1..], sep)
  }

  /**
    The characters `String.prototype.trim` removes: ECMAScript's WhiteSpace
    (TAB, VT, FF, SP, NBSP, ZWNBSP and the Unicode category Zs) and
    LineTerminator (LF, CR, LS, PS). The left-to-right and right-to-left
    marks U+200E and U+200F are not among them.
   */
  predicate IsJsWhitespace(c: char) {
    || c == '\U{0009}' || c == '\U{000B}' || c == '\U{000C}' || c == '\U{0020}'
    || c == '\U{00A0}' || c == '\U{FEFF}'
    || c == '\U{1680}' || ('\U{2000}' <= c <= '\U{200A}') || c == '\U{202F}'
    || c == '\U{205F}' || c == '\U{3000}'
    || c == '\U{000A}' || c == '\U{000D}' || c == '\U{2028}' || c == '\U{2029}'
  }

  /** Neither end of `s` is whitespace. */
  predicate Trimmed(s: string) {
    s == [] || (!IsJsWhitespace(s[0]) && !IsJsWhitespace(s[|s| - 1]))
  }

  /** Index of the first character at or after `i` that is not whitespace, or `|s|`. */
  function SkipWhitespace(s: string, i: nat): (j: nat)
    requires i <= |s|
    ensures i <= j <= |s|
    ensures forall k :: i <= k < j ==> IsJsWhitespace(s[k])
    ensures j < |s| ==> !IsJsWhitespace(s[j])
    decreases |s| - i
  {
    if i == |s| || !IsJsWhitespace(s[i]) then i else SkipWhitespace(s, i + 1)
  }

  /** Index just past the last character of `s[lo..hi]` that is not whitespace, or `lo`. */
  function SkipWhitespaceBack(s: string, lo: nat, hi: nat): (j: nat)
    requires lo <= hi <= |s|
    ensures lo <= j <= hi
    ensures forall k :: j <= k < hi ==> IsJsWhitespace(s[k])
    ensures lo < j ==> !IsJsWhitespace(s[j - 1])
    decreases hi - lo
  {
    if hi == lo || !IsJsWhitespace(s[hi - 1]) then hi else SkipWhitespaceBack(s, lo, hi - 1)
  }

  /**
    `s.trim()`: what is left of `s` once whitespace is cut off both ends. It
    is the slice of `s` from its first non-whitespace character on, and
    everything outside that slice is whitespace.
   */
  function Trim(s: string): (r: string)
    ensures Trimmed(r)
    ensures SkipWhitespace(s, 0) + |r| <= |s| && r == s[SkipWhitespace(s, 0)..SkipWhitespace(s, 0) + |r|]
    ensures forall k :: 0 <= k < SkipWhitespace(s, 0) ==> IsJsWhitespace(s[k])
    ensures forall k :: SkipWhitespace(s, 0) + |r| <= k < |s| ==> IsJsWhitespace(s[k])
  {
    var a := SkipWhitespace(s, 0);
    s[a..SkipWhitespaceBack(s, a, |s|)]
  }

  /** Trimming twice is trimming once. */
  lemma TrimIdempotent(s: string)
    ensures Trim(Trim(s)) == Trim(s)
  {
  }
}
