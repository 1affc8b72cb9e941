/**
 * The JavaScript string operations the log pipeline relies on, over strings of
 * characters: the regular-expression character classes `\d`, `\w`, `\s` and `.`,
 * ASCII lower-casing, `includes`, `trim`, `split` on one character, and the
 * leftmost-position rule by which a regular-expression search picks its match.
 */
module Text {
  import opened Wrappers

  // ---------------------------------------------------------------------------
  // Character classes
  // ---------------------------------------------------------------------------

  /** `\d` */
  predicate IsDigit(c: char) { '0' <= c <= '9' }

  predicate IsAsciiLetter(c: char) { 'a' <= c <= 'z' || 'A' <= c <= 'Z' }

  /** `[A-Z0-9]` under the case-insensitive flag */
  predicate IsAlnum(c: char) { IsAsciiLetter(c) || IsDigit(c) }

  /** `\w` */
  predicate IsWordChar(c: char) { IsAlnum(c) || c == '_' }

  /** The ECMAScript line terminators: the characters `.` does not match. */
  predicate IsLineTerminator(c: char) {
    c == '\n' || c == '\r' || c == '\U{2028}' || c == '\U{2029}'
  }

  /** `\s`: ECMAScript white space and line terminators, which is also what `trim` strips. */
  predicate IsSpace(c: char) {
    || IsLineTerminator(c)
    || c == '\t' || c == '\U{000B}' || c == '\U{000C}' || c == ' '
    || c == '\U{00A0}' || c == '\U{FEFF}' || c == '\U{1680}'
    || ('\U{2000}' <= c <= '\U{200A}')
    || c == '\U{202F}' || c == '\U{205F}' || c == '\U{3000}'
  }

  predicate AllSpace(s: string) {
    forall i :: 0 <= i < |s| ==> IsSpace(s[i])
  }

  // ---------------------------------------------------------------------------
  // Lower-casing
  // ---------------------------------------------------------------------------

  function LowerChar(c: char): (d: char)
    ensures 'A' <= c <= 'Z' ==> 'a' <= d <= 'z'
    ensures !('A' <= c <= 'Z') ==> d == c
  {
    if 'A' <= c <= 'Z' then (c as int + 32) as char else c
  }

  /** `toLowerCase`, restricted to ASCII letters. */
  function Lower(s: string): (r: string)
    ensures |r| == |s|
    ensures forall i :: 0 <= i < |s| ==> r[i] == LowerChar(s[i])
  {
    if s == [] then [] else [LowerChar(s[0])] + Lower(s[1..])
  }

  lemma LowerIdempotent(s: string)
    ensures Lower(Lower(s)) == Lower(s)
  {
  }

  // ---------------------------------------------------------------------------
  // Searching
  // ---------------------------------------------------------------------------

  /** `t` occurs in `s` at position `k`. */
  predicate SubstringAt(s: string, k: nat, t: string) {
    k + |t| <= |s| && s[k..k + |t|] == t
  }

  ghost predicate Contains(s: string, t: string) {
    exists k: nat :: SubstringAt(s, k, t)
  }

  /** `t` occurs in `s` at position `k` or later: the scan `s.includes(t)` runs. */
  function IncludesFrom(s: string, t: string, k: nat): (b: bool)
    decreases |s| + 1 - k
    ensures b <==> exists j: nat :: k <= j && SubstringAt(s, j, t)
  {
    if k + |t| > |s| then false
    else SubstringAt(s, k, t) || IncludesFrom(s, t, k + 1)
  }

  /** `s.includes(t)` */
  function Includes(s: string, t: string): (b: bool)
    ensures b <==> Contains(s, t)
  {
    IncludesFrom(s, t, 0)
  }

  /** The length of the longest run of characters satisfying `p` that starts at `i`. */
  function Span(s: string, i: nat, p: char -> bool): (n: nat)
    requires i <= |s|
    decreases |s| - i
    ensures i + n <= |s|
  {
    if i < |s| && p(s[i]) then 1 + Span(s, i + 1, p) else 0
  }

  /** The span is a run of `p` characters that cannot be extended. */
  lemma {:induction false} SpanRun(s: string, i: nat, p: char -> bool)
    requires i <= |s|
    decreases |s| - i
    ensures RunAt(s, i, i + Span(s, i, p), p)
    ensures i + Span(s, i, p) < |s| ==> !p(s[i + Span(s, i, p)])
  {
    if i < |s| && p(s[i]) {
      SpanRun(s, i + 1, p);
    }
  }

  /** Every character of `s[lo..hi]` satisfies `p`. */
  predicate RunAt(s: string, lo: nat, hi: nat, p: char -> bool) {
    lo <= hi <= |s| && forall k :: lo <= k < hi ==> p(s[k])
  }

  /** A run that cannot be extended is the longest one. */
  lemma {:induction false} SpanExact(s: string, i: nat, j: nat, p: char -> bool)
    requires RunAt(s, i, j, p) && (j < |s| ==> !p(s[j]))
    ensures Span(s, i, p) == j - i
    decreases j - i
  {
    if i < j {
      SpanExact(s, i + 1, j, p);
    }
  }

  /** `\b` at position `k`: exactly one of `s[k-1]` and `s[k]` is a word character. */
  predicate Boundary(s: string, k: nat) {
    (0 < k <= |s| && IsWordChar(s[k - 1])) != (k < |s| && IsWordChar(s[k]))
  }

  /** `\bw\b` matches at `k`. */
  predicate WholeWordAt(s: string, k: nat, w: string) {
    Boundary(s, k) && SubstringAt(s, k, w) && Boundary(s, k + |w|)
  }

  /** `s.substring(0, n)` */
  function Prefix(s: string, n: nat): (r: string)
    ensures |r| == if |s| < n then |s| else n
    ensures r <= s
  {
    if |s| < n then s else s[..n]
  }

  // ---------------------------------------------------------------------------
  // trim
  // ---------------------------------------------------------------------------

  /** The number of white-space characters at the end of `s`. */
  function TrailingSpaces(s: string): (n: nat)
    ensures n <= |s|
    ensures forall k :: |s| - n <= k < |s| ==> IsSpace(s[k])
    ensures n < |s| ==> !IsSpace(s[|s| - n - 1])
  {
    if s != [] && IsSpace(s[|s| - 1]) then 1 + TrailingSpaces(s[..|s| - 1]) else 0
  }

  /** `s.trim()`: the infix left once the white space at both ends is removed. */
  function Trim(s: string): (r: string)
    ensures exists a: nat :: SubstringAt(s, a, r) && AllSpace(s[..a]) && AllSpace(s[a + |r|..])
    ensures r != [] ==> !IsSpace(r[0]) && !IsSpace(r[|r| - 1])
    ensures r == [] <==> AllSpace(s)
  {
    var a := Span(s, 0, IsSpace);
    SpanRun(s, 0, IsSpace);
    var t := s[a..];
    var b := |t| - TrailingSpaces(t);
    var r := t[..b];
    assert r == s[a..a + b];
    assert SubstringAt(s, a, r) && AllSpace(s[..a]) && AllSpace(s[a + |r|..]);
    r
  }

  /** A character missing from `s` is missing from its trim. */
  lemma TrimInfix(s: string, c: char)
    requires c !in s
    ensures c !in Trim(s)
  {
    var r := Trim(s);
    var a: nat :| SubstringAt(s, a, r) && AllSpace(s[..a]) && AllSpace(s[a + |r|..]);
    assert forall i :: 0 <= i < |r| ==> r[i] == s[a + i];
  }

  lemma TrimIdempotent(s: string)
    ensures Trim(Trim(s)) == Trim(s)
  {
    var r := Trim(s);
    if r != [] {
      assert Span(r, 0, IsSpace) == 0;
      assert TrailingSpaces(r) == 0;
      assert r[0..] == r && r[..|r|] == r;
    }
  }

  // ---------------------------------------------------------------------------
  // split and join on one character
  // ---------------------------------------------------------------------------

  /** `s.split(sep)` for a one-character separator: the empty string gives one empty piece. */
  function Split(s: string, sep: char): (r: seq<string>)
    ensures |r| > 0
    ensures forall i :: 0 <= i < |r| ==> sep !in r[i]
  {
    if s == [] then [""]
    else if s[0] == sep then [""] + Split(s[1..], sep)
    else
      var rest := Split(s[1..], sep);
      [[s[0]] + rest[0]] + rest[1..]
  }

  /** `parts.join(sep)` */
  function Join(parts: seq<string>, sep: char): string {
    if parts == [] then ""
    else if |parts| == 1 then parts[0]
    else parts[0] + [sep] + Join(parts[1..], sep)
  }

  /** Joining the pieces of a split gives the string back. */
  lemma {:induction false} JoinSplit(s: string, sep: char)
    ensures Join(Split(s, sep), sep) == s
  {
    if s == [] {
    } else if s[0] == sep {
      JoinSplit(s[1..], sep);
      assert s == [sep] + s[1..];
    } else {
      JoinSplit(s[1..], sep);
      var rest := Split(s[1..], sep);
      if |rest| == 1 {
        assert s == [s[0]] + s[1..];
      } else {
        assert rest == [rest[0]] + rest[1..];
        assert Join(rest, sep) == rest[0] + [sep] + Join(rest[1..], sep);
        assert s == [s[0]] + s[1..];
      }
    }
  }

  /** Splitting distributes over a separator: the pieces of `a` come before those of `b`. */
  lemma {:induction false} SplitConcat(a: string, b: string, sep: char)
    ensures Split(a + [sep] + b, sep) == Split(a, sep) + Split(b, sep)
  {
    if a == [] {
      assert a + [sep] + b == [sep] + b;
      assert ([sep] + b)[1..] == b;
    } else {
      assert (a + [sep] + b)[0] == a[0];
      assert (a + [sep] + b)[1..] == a[1..] + [sep] + b;
      SplitConcat(a[1..], b, sep);
    }
  }

  /** Splitting pieces joined by the separator gives the pieces back, when none holds the separator. */
  lemma {:induction false} SplitJoin(parts: seq<string>, sep: char)
    requires |parts| > 0
    requires forall i :: 0 <= i < |parts| ==> sep !in parts[i]
    ensures Split(Join(parts, sep), sep) == parts
  {
    SplitSingle(parts[0], sep);
    if |parts| > 1 {
      SplitJoin(parts[1..], sep);
      SplitConcat(parts[0], Join(parts[1..], sep), sep);
      assert parts == [parts[0]] + parts[1..];
    }
  }

  /** A string without the separator is one piece. */
  lemma {:induction false} SplitSingle(s: string, sep: char)
    requires sep !in s
    ensures Split(s, sep) == [s]
  {
    if s != [] {
      assert sep !in s[1..] by { assert forall i :: 0 <= i < |s[1..]| ==> s[1..][i] == s[i + 1]; }
      SplitSingle(s[1..], sep);
      assert s == [s[0]] + s[1..];
    }
  }
}
