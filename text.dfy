/** String building blocks shared by the classifiers: the ASCII character
    classes the patterns use, prefix and substring tests, Python's
    `str.split(sep, 1)`, and the meaning of `.` and `$` in a pattern
    compiled without the DOTALL and MULTILINE flags. */
module Text {

  datatype Option<T> = None | Some(value: T)

  predicate IsDigit(c: char) { '0' <= c <= '9' }
  predicate IsLower(c: char) { 'a' <= c <= 'z' }
  predicate IsUpper(c: char) { 'A' <= c <= 'Z' }

  /** `[a-zA-Z0-9]` */
  predicate IsAlnum(c: char) { IsDigit(c) || IsLower(c) || IsUpper(c) }

  /** `\s`, restricted to ASCII whitespace */
  predicate IsSpace(c: char) {
    c == ' ' || c == '\t' || c == '\n' || c == '\r' || c == '\U{0B}' || c == '\U{0C}'
  }

  /** `.` without DOTALL: any character but a line feed */
  predicate IsDotChar(c: char) { c != '\n' }

  /** Every character of `t` is in the class `p`, i.e. `p*` matches all of `t`. */
  predicate AllChars(t: string, p: char -> bool) {
    forall i :: 0 <= i < |t| ==> p(t[i])
  }

  /** `.*` matches all of `t`. */
  predicate DotStar(t: string) { AllChars(t, IsDotChar) }

  /** Python's `s.startswith(prefix)` */
  predicate StartsWith(s: string, prefix: string) {
    |prefix| <= |s| && s[..|prefix|] == prefix
  }

  /** `t` occurs in `s` starting at index `i`. */
  predicate OccursAt(s: string, t: string, i: nat) {
    i + |t| <= |s| && s[i..i + |t|] == t
  }

  /** Python's `t in s` */
  predicate Contains(s: string, t: string) {
    exists i: nat | i <= |s| :: OccursAt(s, t, i)
  }

  /** `$` without MULTILINE holds at index `j` of `s`: at the very end, or
      just before a line feed that ends `s`. */
  predicate AtEnd(s: string, j: nat) {
    j == |s| || (j + 1 == |s| && s[j] == '\n')
  }

  /** A pattern `P` followed by `$` matches from the start of `s` to its
      end: `P` matches all of `s`, or all of `s` but a final line feed. */
  predicate MatchesToEnd(s: string, p: string -> bool) {
    p(s) || (|s| > 0 && s[|s| - 1] == '\n' && p(s[..|s| - 1]))
  }

  /** The index of the first occurrence of `t` in `s` at or after `i`. */
  function FindFrom(s: string, t: string, i: nat): (r: Option<nat>)
    requires i <= |s|
    ensures r.Some? ==> i <= r.value && OccursAt(s, t, r.value)
    ensures r.Some? ==> forall j: nat :: i <= j < r.value ==> !OccursAt(s, t, j)
    ensures r.None? ==> forall j: nat :: i <= j ==> !OccursAt(s, t, j)
    decreases |s| - i
  {
    if OccursAt(s, t, i) then Some(i)
    else if i == |s| then None
    else FindFrom(s, t, i + 1)
  }

  /** Python's `s.split(sep, 1)`: `[s]` when `sep` does not occur in `s`,
      otherwise the text before the first occurrence and the text after it.
      Python rejects an empty separator with a ValueError. */
  function SplitOnce(s: string, sep: string): (parts: seq<string>)
    requires sep != []
    ensures 1 <= |parts| <= 2
    ensures |parts| == 1 <==> !Contains(s, sep)
    ensures |parts| == 1 ==> parts[0] == s
    ensures |parts| == 2 ==> s == parts[0] + sep + parts[1]
    ensures |parts| == 2 ==> forall j: nat :: j < |parts[0]| ==> !OccursAt(s, sep, j)
  {
    match FindFrom(s, sep, 0)
    case None => [s]
    case Some(i) =>
      assert s == s[..i] + sep + s[i + |sep|..];
      [s[..i], s[i + |sep|..]]
  }

  /** When `s` starts with `sep`, the first occurrence is the prefix itself. */
  lemma SplitOnceAtPrefix(s: string, sep: string)
    requires sep != [] && StartsWith(s, sep)
    ensures SplitOnce(s, sep) == [[], s[|sep|..]]
  {
    assert OccursAt(s, sep, 0);
  }

  /** `t` occurs at `i` when it agrees with `s` character by character. */
  lemma OccursAtEach(s: string, t: string, i: nat)
    requires i + |t| <= |s|
    requires forall k | 0 <= k < |t| :: s[i + k] == t[k]
    ensures OccursAt(s, t, i)
  {
    assert s[i..i + |t|] == t;
  }

  lemma StartsWithOccurs(s: string, p: string)
    ensures StartsWith(s, p) <==> OccursAt(s, p, 0)
  {
  }

  /** A one-character prefix test looks at the first character. */
  lemma StartsWithChar(s: string, c: char)
    ensures StartsWith(s, [c]) <==> |s| > 0 && s[0] == c
  {
    if |s| > 0 {
      assert s[..1] == [s[0]];
    }
  }

  /** `t` does not occur at `i` when one of its characters disagrees. */
  lemma NotOccursAt(s: string, t: string, i: nat, k: nat)
    requires k < |t|
    requires i + k < |s| ==> s[i + k] != t[k]
    ensures !OccursAt(s, t, i)
  {
    if i + |t| <= |s| {
      assert s[i..i + |t|][k] == s[i + k];
    }
  }

  lemma AllCharsBetween(s: string, p: char -> bool, i: nat, j: nat)
    requires i <= j <= |s|
    requires forall k | i <= k < j :: p(s[k])
    ensures AllChars(s[i..j], p)
  {
    forall k | 0 <= k < j - i
      ensures p(s[i..j][k])
    {
      assert s[i..j][k] == s[i + k];
    }
  }

  lemma AllCharsSlice(t: string, p: char -> bool, i: nat, j: nat)
    requires i <= j <= |t| && AllChars(t, p)
    ensures AllChars(t[i..j], p)
  {
  }

  /** A slice that lies inside `s` is the same slice of `s + u`. */
  lemma SliceOfPrefix(s: string, u: string, i: nat, j: nat)
    requires i <= j <= |s|
    ensures (s + u)[i..j] == s[i..j]
  {
  }

  /** Slicing `p + s` past `p` is slicing `s`. */
  lemma SliceAfterPrefix(p: string, s: string, i: nat, j: nat)
    requires i <= j <= |s|
    ensures (p + s)[|p| + i..|p| + j] == s[i..j]
  {
  }

  /** Dropping past a prefix and then some drops from the second part. */
  lemma SuffixAfterPrefix(p: string, s: string, i: nat)
    requires i <= |s|
    ensures (p + s)[|p| + i..] == s[i..]
  {
  }

  lemma DropPrefix(p: string, s: string)
    ensures (p + s)[|p|..] == s
  {
  }

  lemma PrefixOfConcat(p: string, s: string)
    ensures StartsWith(p + s, p)
  {
    assert (p + s)[..|p|] == p;
  }

  /** `t` holds the text `s[x..y]` shifted by `off`. */
  predicate Agree(s: string, t: string, off: nat, x: nat, y: nat) {
    x <= y <= |s| && off + y <= |t| && forall j | off + x <= j < off + y :: t[j] == s[j - off]
  }

  lemma AgreeSlice(s: string, t: string, off: nat, x: nat, y: nat)
    requires Agree(s, t, off, x, y)
    ensures t[off + x..off + y] == s[x..y]
  {
    forall i | 0 <= i < y - x
      ensures t[off + x..off + y][i] == s[x..y][i]
    {
    }
  }

  lemma AgreeNarrow(s: string, t: string, off: nat, x: nat, y: nat, x': nat, y': nat)
    requires Agree(s, t, off, x, y) && x <= x' <= y' <= y
    ensures Agree(s, t, off, x', y')
  {
  }

  lemma AgreeAfterPrefix(p: string, s: string)
    ensures Agree(s, p + s, |p|, 0, |s|)
  {
  }

  lemma AgreeBeforeSuffix(s: string, u: string)
    ensures Agree(s, s + u, 0, 0, |s|)
  {
  }

  /** An occurrence survives text added on either side. */
  lemma OccursInContext(p: string, s: string, q: string, t: string, i: nat)
    requires OccursAt(s, t, i)
    ensures OccursAt(p + s + q, t, |p| + i)
  {
    assert (p + s + q)[|p| + i..|p| + i + |t|] == s[i..i + |t|];
  }
}
