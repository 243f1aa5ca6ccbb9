/** The JavaScript string operations the extension uses, over Dafny strings
    (sequences of Unicode scalar values). Lower-casing is ASCII-only. */
module JsText {

  /** ASCII lower-casing of one character. */
  function LowerChar(c: char): (r: char)
    ensures !('A' <= r <= 'Z')
    ensures 'A' <= c <= 'Z' ==> r as int == c as int + 32
    ensures !('A' <= c <= 'Z') ==> r == c
  {
    if 'A' <= c <= 'Z' then (c as int + 32) as char else c
  }

  /** `s.toLowerCase()` restricted to ASCII letters. */
  function Lower(s: string): (r: string)
    ensures |r| == |s|
    ensures forall i :: 0 <= i < |s| ==> r[i] == LowerChar(s[i])
  {
    seq(|s|, i requires 0 <= i < |s| => LowerChar(s[i]))
  }

  /** Lower-casing a string twice changes nothing more. */
  lemma LowerIdempotent(s: string)
    ensures Lower(Lower(s)) == Lower(s)
  {
  }

  /** A string without upper-case ASCII letters is its own lower-cased form. */
  lemma LowerOfLower(s: string)
    requires forall i :: 0 <= i < |s| ==> !('A' <= s[i] <= 'Z')
    ensures Lower(s) == s
  {
  }

  /** `t` is the lower-cased form of `s` when each character is. */
  lemma LowerLetters(s: string, t: string)
    requires |s| == |t| && forall i :: 0 <= i < |s| ==> LowerChar(s[i]) == t[i]
    ensures Lower(s) == t
  {
  }

  /** A string with an upper-case ASCII letter is never the lower-cased form of
      anything. */
  lemma NoUpperInLower(s: string, t: string, k: nat)
    requires k < |t| && 'A' <= t[k] <= 'Z'
    ensures Lower(s) != t
  {
  }

  /** `needle` occurs in `s` at index `i`. */
  predicate OccursAt(s: string, needle: string, i: int) {
    0 <= i && i + |needle| <= |s| && s[i..i + |needle|] == needle
  }

  /** `s.indexOf(needle, from)`: the first index at or after `from` where
      `needle` occurs, or -1. */
  function IndexOfFrom(s: string, needle: string, from: nat): (r: int)
    requires from <= |s|
    ensures r == -1 || (from <= r && OccursAt(s, needle, r))
    ensures r == -1 ==> forall i :: from <= i ==> !OccursAt(s, needle, i)
    ensures r != -1 ==> forall i :: from <= i < r ==> !OccursAt(s, needle, i)
    decreases |s| - from
  {
    if OccursAt(s, needle, from) then from
    else if from == |s| then -1
    else IndexOfFrom(s, needle, from + 1)
  }

  /** `s.indexOf(needle)`. */
  function IndexOf(s: string, needle: string): (r: int)
    ensures r >= -1
    ensures r == -1 <==> forall i :: !OccursAt(s, needle, i)
    ensures r >= 0 ==> OccursAt(s, needle, r) && forall i :: 0 <= i < r ==> !OccursAt(s, needle, i)
  {
    IndexOfFrom(s, needle, 0)
  }

  /** `s.indexOf(needle) >= 0`. */
  predicate Contains(s: string, needle: string) {
    IndexOf(s, needle) >= 0
  }

  /** `Contains` holds exactly when the needle occurs somewhere. */
  lemma ContainsIffOccurs(s: string, needle: string)
    ensures Contains(s, needle) <==> exists i :: OccursAt(s, needle, i)
  {
  }

  /** A needle as long as `s` occurs in it only if it is `s`. */
  lemma NoOccurrenceSameLength(s: string, needle: string)
    requires |s| == |needle| && s != needle
    ensures !Contains(s, needle)
  {
    forall i ensures !OccursAt(s, needle, i) {
      if 0 <= i && i + |needle| <= |s| {
        assert i == 0;
        assert s[0..|needle|] == s;
      }
    }
  }

  /** `/^prefix/i.test(s)` for a lower-case ASCII `prefix`. With the `i` flag
      the regular expression engine compares by upper-casing and never maps a
      non-ASCII character to an ASCII one, so ASCII case folding is exact here. */
  predicate StartsWithIgnoringCase(s: string, prefix: string) {
    |prefix| <= |s| && Lower(s[..|prefix|]) == prefix
  }

  /** `s.lastIndexOf(prefix, 0) === 0`: `s` begins with `prefix`. */
  predicate StartsWith(s: string, prefix: string) {
    |prefix| <= |s| && s[..|prefix|] == prefix
  }

  predicate EndsWith(s: string, suffix: string) {
    |suffix| <= |s| && s[|s| - |suffix|..] == suffix
  }

  /** The ECMAScript 5.1 WhiteSpace and LineTerminator characters, which
      `String.prototype.trim` removes. */
  predicate IsJsSpace(c: char) {
    c == '\t' || c == '\U{B}' || c == '\U{C}' || c == ' ' || c == '\U{A0}' || c == '\U{FEFF}'
    || c == '\U{1680}' || ('\U{2000}' <= c <= '\U{200A}') || c == '\U{202F}' || c == '\U{205F}'
    || c == '\U{3000}' || IsLineTerminator(c)
  }

  /** The characters a regular-expression `.` does not match. */
  predicate IsLineTerminator(c: char) {
    c == '\n' || c == '\r' || c == '\U{2028}' || c == '\U{2029}'
  }

  /** The number of leading white-space characters of `s`. */
  function LeadingSpace(s: string): (n: nat)
    ensures n <= |s|
    ensures forall i :: 0 <= i < n ==> IsJsSpace(s[i])
    ensures n < |s| ==> !IsJsSpace(s[n])
  {
    if s != [] && IsJsSpace(s[0]) then 1 + LeadingSpace(s[1..]) else 0
  }

  /** The number of trailing white-space characters of `s`. */
  function TrailingSpace(s: string): (n: nat)
    ensures n <= |s|
    ensures forall i :: |s| - n <= i < |s| ==> IsJsSpace(s[i])
    ensures n < |s| ==> !IsJsSpace(s[|s| - n - 1])
  {
    if s != [] && IsJsSpace(s[|s| - 1]) then 1 + TrailingSpace(s[..|s| - 1]) else 0
  }

  /** `s.trim()`: `s` without its leading and trailing white space. */
  function Trim(s: string): (r: string)
    ensures r != [] ==> !IsJsSpace(r[0]) && !IsJsSpace(r[|r| - 1])
    ensures exists a, b :: (0 <= a <= b <= |s| && r == s[a..b]
      && (forall i :: 0 <= i < a ==> IsJsSpace(s[i]))
      && (forall i :: b <= i < |s| ==> IsJsSpace(s[i])))
  {
    var a := LeadingSpace(s);
    var t := s[a..];
    var b := a + |t| - TrailingSpace(t);
    assert t[..|t| - TrailingSpace(t)] == s[a..b];
    t[..|t| - TrailingSpace(t)]
  }

  /** A string without surrounding white space is its own trim. */
  lemma TrimUnpadded(s: string)
    requires s != [] ==> !IsJsSpace(s[0]) && !IsJsSpace(s[|s| - 1])
    ensures Trim(s) == s
  {
    if s != [] {
      assert LeadingSpace(s) == 0;
      assert TrailingSpace(s) == 0;
    }
  }

  /** The leading white space is the run `s[..n]` that stops at a non-space. */
  lemma {:induction false} LeadingSpaceIs(s: string, n: nat)
    requires n <= |s| && (forall i :: 0 <= i < n ==> IsJsSpace(s[i])) && (n < |s| ==> !IsJsSpace(s[n]))
    ensures LeadingSpace(s) == n
  {
    if n > 0 {
      LeadingSpaceIs(s[1..], n - 1);
    }
  }

  /** The trailing white space is the run `s[|s| - n..]` after a non-space. */
  lemma {:induction false} TrailingSpaceIs(s: string, n: nat)
    requires n <= |s| && (forall i :: |s| - n <= i < |s| ==> IsJsSpace(s[i])) && (n < |s| ==> !IsJsSpace(s[|s| - n - 1]))
    ensures TrailingSpace(s) == n
  {
    if n > 0 {
      TrailingSpaceIs(s[..|s| - 1], n - 1);
    }
  }

  /** `s.split(sep, 1)[0]`: the text before the first `sep`. */
  function BeforeFirst(s: string, sep: char): (r: string)
    ensures sep !in r
    ensures r <= s
    ensures |r| < |s| ==> s[|r|] == sep
  {
    if s == [] || s[0] == sep then [] else [s[0]] + BeforeFirst(s[1..], sep)
  }

  /** The text before the first `sep` is `s[..k]` when `s[k]` is the first
      `sep` (or `k == |s|` and there is none). */
  lemma {:induction false} BeforeFirstIs(s: string, sep: char, k: nat)
    requires k <= |s| && sep !in s[..k] && (k < |s| ==> s[k] == sep)
    ensures BeforeFirst(s, sep) == s[..k]
  {
    if k > 0 {
      assert s[0] in s[..k];
      BeforeFirstIs(s[1..], sep, k - 1);
      assert s[..k] == [s[0]] + s[1..][..k - 1];
    }
  }

  /** The text from the first `sep` on, empty when there is none. This is what
      `s.replace(/^[^;]+/, '')` leaves for `sep == ';'`: the pattern removes the
      longest run of non-`;` characters at the start, if there is one. */
  function FromFirst(s: string, sep: char): (r: string)
    ensures BeforeFirst(s, sep) + r == s
    ensures r != [] ==> r[0] == sep
  {
    s[|BeforeFirst(s, sep)|..]
  }

  /** The text before the first line terminator: what a greedy `(.*)` group
      captures. */
  function BeforeLineTerminator(s: string): (r: string)
    ensures r <= s
    ensures forall i :: 0 <= i < |r| ==> !IsLineTerminator(r[i])
    ensures |r| < |s| ==> IsLineTerminator(s[|r|])
  {
    if s == [] || IsLineTerminator(s[0]) then [] else [s[0]] + BeforeLineTerminator(s[1..])
  }

  /** A string without line terminators is captured whole. */
  lemma {:induction false} BeforeLineTerminatorWhole(s: string)
    requires forall i :: 0 <= i < |s| ==> !IsLineTerminator(s[i])
    ensures BeforeLineTerminator(s) == s
  {
    if s != [] {
      BeforeLineTerminatorWhole(s[1..]);
    }
  }
}
