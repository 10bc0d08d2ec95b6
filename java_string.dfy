/**
 * The java.lang.String and helper-library operations the rules rely on,
 * over strings as sequences of characters.
 */
module JavaString {
  import opened Wrappers

  /** String.valueOf and string formatting of a possibly null string: null prints as "null". */
  function OrNull(s: Option<string>): string {
    if s.Some? then s.value else "null"
  }

  /** `\s` in java.util.regex: space, tab, newline, vertical tab, form feed, carriage return. */
  predicate IsSpace(c: char) {
    c == ' ' || c == '\t' || c == '\n' || c == '\U{B}' || c == '\U{C}' || c == '\r'
  }

  /** Line terminators of java.util.regex when UNIX_LINES is off. */
  predicate IsLineTerminator(c: char) {
    c == '\n' || c == '\r' || c == '\U{85}' || c == '\U{2028}' || c == '\U{2029}'
  }

  predicate IsAsciiDigit(c: char) {
    '0' <= c <= '9'
  }

  predicate IsAsciiUpper(c: char) {
    'A' <= c <= 'Z'
  }

  function LowerChar(c: char): (r: char)
    ensures !IsAsciiUpper(r)
    ensures IsAsciiUpper(c) ==> r as int == c as int + 32
    ensures !IsAsciiUpper(c) ==> r == c
  {
    if IsAsciiUpper(c) then (c as int + 32) as char else c
  }

  /** String.toLowerCase restricted to the ASCII letters. */
  function Lower(s: string): (r: string)
    ensures |r| == |s|
  {
    if s == [] then [] else [LowerChar(s[0])] + Lower(s[1..])
  }

  lemma {:induction false} LowerAt(s: string, i: nat)
    requires i < |s|
    ensures Lower(s)[i] == LowerChar(s[i])
  {
    if i > 0 {
      LowerAt(s[1..], i - 1);
    }
  }

  /** Text without ASCII capitals is its own lower case. */
  lemma {:induction false} LowerOfLower(s: string)
    requires forall i | 0 <= i < |s| :: !IsAsciiUpper(s[i])
    ensures Lower(s) == s
  {
    if s != [] {
      LowerOfLower(s[1..]);
    }
  }

  lemma LowerIdempotent(s: string)
    ensures Lower(Lower(s)) == Lower(s)
  {
    forall i | 0 <= i < |s| ensures Lower(Lower(s))[i] == Lower(s)[i] {
      LowerAt(s, i);
      LowerAt(Lower(s), i);
    }
  }

  lemma {:induction false} LowerAppend(a: string, b: string)
    ensures Lower(a + b) == Lower(a) + Lower(b)
  {
    if a == [] {
      assert a + b == b;
    } else {
      assert (a + b)[0] == a[0];
      assert (a + b)[1..] == a[1..] + b;
      LowerAppend(a[1..], b);
    }
  }

  /** Characters String.trim removes: code points up to and including the space. */
  predicate IsTrimmable(c: char) {
    c <= ' '
  }

  /** The number of leading characters String.trim removes. */
  function LeadingTrimmable(s: string): (k: nat)
    ensures k <= |s|
    ensures k < |s| ==> !IsTrimmable(s[k])
  {
    if s != [] && IsTrimmable(s[0]) then 1 + LeadingTrimmable(s[1..]) else 0
  }

  /** The number of trailing characters String.trim removes. */
  function TrailingTrimmable(s: string): (k: nat)
    ensures k <= |s|
    ensures k < |s| ==> !IsTrimmable(s[|s| - 1 - k])
  {
    if s != [] && IsTrimmable(s[|s| - 1]) then 1 + TrailingTrimmable(s[..|s| - 1]) else 0
  }

  function TrimStart(s: string): string {
    s[LeadingTrimmable(s)..]
  }

  function TrimEnd(s: string): string {
    s[..|s| - TrailingTrimmable(s)]
  }

  /** String.trim: drops the characters up to the space from both ends. */
  function Trim(s: string): (r: string)
    ensures |r| <= |s|
    ensures r == [] || (!IsTrimmable(r[0]) && !IsTrimmable(r[|r| - 1]))
  {
    TrimEnd(TrimStart(s))
  }

  predicate AllTrimmable(w: string) {
    forall i | 0 <= i < |w| :: IsTrimmable(w[i])
  }

  /** A text with a kept character at each end is its own trim. */
  lemma TrimUntrimmed(s: string)
    requires s != [] && !IsTrimmable(s[0]) && !IsTrimmable(s[|s| - 1])
    ensures Trim(s) == s
  {
    assert LeadingTrimmable(s) == 0;
    assert TrailingTrimmable(s) == 0;
  }

  lemma {:induction false} LeadingTrimmablePadded(w: string, x: string)
    requires AllTrimmable(w)
    ensures LeadingTrimmable(w + x) == |w| + LeadingTrimmable(x)
  {
    if w != [] {
      assert (w + x)[1..] == w[1..] + x;
      LeadingTrimmablePadded(w[1..], x);
    } else {
      assert w + x == x;
    }
  }

  lemma {:induction false} TrailingTrimmablePadded(x: string, w: string)
    requires AllTrimmable(w)
    ensures TrailingTrimmable(x + w) == |w| + TrailingTrimmable(x)
    decreases |w|
  {
    if w != [] {
      var n := |w| - 1;
      assert (x + w)[..|x + w| - 1] == x + w[..n];
      TrailingTrimmablePadded(x, w[..n]);
    } else {
      assert x + w == x;
    }
  }

  lemma TrimStartPadded(w: string, x: string)
    requires AllTrimmable(w)
    ensures TrimStart(w + x) == TrimStart(x)
  {
    LeadingTrimmablePadded(w, x);
    assert (w + x)[|w| + LeadingTrimmable(x)..] == x[LeadingTrimmable(x)..];
  }

  lemma TrimEndPadded(x: string, w: string)
    requires AllTrimmable(w)
    ensures TrimEnd(x + w) == TrimEnd(x)
  {
    TrailingTrimmablePadded(x, w);
    assert (x + w)[..|x| - TrailingTrimmable(x)] == x[..|x| - TrailingTrimmable(x)];
  }

  lemma {:induction false} LeadingTrimmableAppend(x: string, w: string)
    ensures LeadingTrimmable(x) < |x| ==> LeadingTrimmable(x + w) == LeadingTrimmable(x)
    ensures LeadingTrimmable(x) == |x| ==> LeadingTrimmable(x + w) == |x| + LeadingTrimmable(w)
  {
    if x == [] {
      assert x + w == w;
    } else {
      assert (x + w)[0] == x[0];
      assert (x + w)[1..] == x[1..] + w;
      LeadingTrimmableAppend(x[1..], w);
    }
  }

  lemma TrimStartAppend(x: string, w: string)
    ensures TrimStart(x) != [] ==> TrimStart(x + w) == TrimStart(x) + w
    ensures TrimStart(x) == [] ==> TrimStart(x + w) == TrimStart(w)
  {
    LeadingTrimmableAppend(x, w);
    var k := LeadingTrimmable(x);
    if k < |x| {
      assert (x + w)[k..] == x[k..] + w;
    } else {
      assert (x + w)[|x| + LeadingTrimmable(w)..] == w[LeadingTrimmable(w)..];
    }
  }

  /** Trimmable padding on either side never changes String.trim. */
  lemma TrimPadded(w1: string, x: string, w2: string)
    requires AllTrimmable(w1) && AllTrimmable(w2)
    ensures Trim(w1 + x + w2) == Trim(x)
  {
    assert w1 + x + w2 == w1 + (x + w2);
    TrimStartPadded(w1, x + w2);
    TrimStartAppend(x, w2);
    if TrimStart(x) != [] {
      TrimEndPadded(TrimStart(x), w2);
    } else {
      LeadingTrimmablePadded(w2, []);
      assert w2 + [] == w2;
      assert TrimStart(w2) == [];
    }
  }

  /** The number of trailing regex whitespace characters of `s`. */
  function TrailingSpaces(s: string): (k: nat)
    ensures k <= |s|
    ensures k < |s| ==> !IsSpace(s[|s| - 1 - k])
  {
    if s != [] && IsSpace(s[|s| - 1]) then 1 + TrailingSpaces(s[..|s| - 1]) else 0
  }

  /** The number of leading regex whitespace characters of `s`. */
  function LeadingSpaces(s: string): (k: nat)
    ensures k <= |s|
    ensures k < |s| ==> !IsSpace(s[k])
  {
    if s != [] && IsSpace(s[0]) then 1 + LeadingSpaces(s[1..]) else 0
  }

  /** Str.rtrim: drops trailing regex whitespace. */
  function RTrim(s: string): string
  {
    s[..|s| - TrailingSpaces(s)]
  }

  /** Str.ltrim: drops leading regex whitespace. */
  function LTrim(s: string): string
  {
    s[LeadingSpaces(s)..]
  }

  /** The number of trailing characters of `s` that occur in `chars`. */
  function TrailingIn(s: string, chars: string): (k: nat)
    ensures k <= |s|
    ensures k < |s| ==> s[|s| - 1 - k] !in chars
    ensures forall i | |s| - k <= i < |s| :: s[i] in chars
  {
    if s != [] && s[|s| - 1] in chars then 1 + TrailingIn(s[..|s| - 1], chars) else 0
  }

  /** The number of leading characters of `s` that occur in `chars`. */
  function LeadingIn(s: string, chars: string): (k: nat)
    ensures k <= |s|
    ensures k < |s| ==> s[k] !in chars
    ensures forall i | 0 <= i < k :: s[i] in chars
  {
    if s != [] && s[0] in chars then 1 + LeadingIn(s[1..], chars) else 0
  }

  /** StringUtils.stripEnd(s, chars): drops trailing characters that occur in `chars`. */
  function StripEnd(s: string, chars: string): (r: string)
    ensures r <= s
    ensures r == [] || r[|r| - 1] !in chars
    ensures forall i | |r| <= i < |s| :: s[i] in chars
  {
    s[..|s| - TrailingIn(s, chars)]
  }

  /** StringUtils.stripStart(s, chars): drops leading characters that occur in `chars`. */
  function StripStart(s: string, chars: string): (r: string)
    ensures |r| <= |s| && r == s[|s| - |r|..]
    ensures r == [] || r[0] !in chars
    ensures forall i | 0 <= i < |s| - |r| :: s[i] in chars
  {
    s[LeadingIn(s, chars)..]
  }

  /** stripEnd never removes a character that is not in `chars`, nor anything before it. */
  lemma {:induction false} StripEndKeeps(s: string, chars: string, k: nat)
    requires k < |s| && s[k] !in chars
    ensures |StripEnd(s, chars)| > k
    decreases |s|
  {
    if s[|s| - 1] in chars {
      StripEndKeeps(s[..|s| - 1], chars, k);
    }
  }

  /** rtrim never removes a non-space character, nor anything before it. */
  lemma {:induction false} RTrimKeeps(s: string, k: nat)
    requires k < |s| && !IsSpace(s[k])
    ensures |RTrim(s)| > k
    decreases |s|
  {
    if IsSpace(s[|s| - 1]) {
      RTrimKeeps(s[..|s| - 1], k);
    }
  }

  predicate StartsWith(s: string, p: string) {
    p <= s
  }

  predicate EndsWith(s: string, p: string) {
    |p| <= |s| && s[|s| - |p|..] == p
  }

  predicate OccursAt(s: string, t: string, i: nat) {
    i + |t| <= |s| && s[i..i + |t|] == t
  }

  /** String.contains */
  predicate Contains(s: string, t: string) {
    exists i | 0 <= i <= |s| :: OccursAt(s, t, i)
  }

  /** String.join(sep, pieces) */
  function Join(sep: string, pieces: seq<string>): (r: string)
    ensures pieces == [] ==> r == []
    ensures |pieces| == 1 ==> r == pieces[0]
  {
    if pieces == [] then []
    else if |pieces| == 1 then pieces[0]
    else pieces[0] + sep + Join(sep, pieces[1..])
  }

  /** A common front keeps one text a prefix of another. */
  lemma PrefixAfter(x: string, p: string, q: string)
    requires p <= q
    ensures x + p <= x + q
  {
    assert (x + q)[..|x + p|] == x + q[..|p|];
  }

  /** Joining without a separator puts the first piece in front. */
  lemma JoinFront(x: string, xs: seq<string>)
    ensures Join([], [x] + xs) == x + Join([], xs)
  {
    if xs == [] {
      assert [x] + xs == [x];
    } else {
      assert ([x] + xs)[1..] == xs;
    }
  }

  /** String.replace(char, char) */
  function ReplaceChar(s: string, a: char, b: char): (r: string)
    ensures |r| == |s|
    ensures forall i | 0 <= i < |s| :: r[i] == (if s[i] == a then b else s[i])
  {
    if s == [] then [] else [if s[0] == a then b else s[0]] + ReplaceChar(s[1..], a, b)
  }

  /** Number of occurrences of `c` in `s`. */
  function Count(s: string, c: char): (n: nat)
    ensures n <= |s|
  {
    if s == [] then 0 else (if s[0] == c then 1 else 0) + Count(s[1..], c)
  }

  lemma {:induction false} CountAppend(a: string, b: string, c: char)
    ensures Count(a + b, c) == Count(a, c) + Count(b, c)
  {
    if a == [] {
      assert a + b == b;
    } else {
      assert (a + b)[1..] == a[1..] + b;
      CountAppend(a[1..], b, c);
    }
  }

  /** A character that does not occur is counted zero times. */
  lemma {:induction false} CountAbsent(s: string, c: char)
    requires forall i | 0 <= i < |s| :: s[i] != c
    ensures Count(s, c) == 0
  {
    if s != [] {
      CountAbsent(s[1..], c);
    }
  }

  /** The leading run of trimmable characters stops at the first one that is not. */
  lemma {:induction false} LeadingTrimmableStops(s: string, j: nat)
    requires j < |s| && !IsTrimmable(s[j])
    ensures LeadingTrimmable(s) <= j
  {
    if j > 0 && IsTrimmable(s[0]) {
      LeadingTrimmableStops(s[1..], j - 1);
    }
  }

  /** String.trim keeps a last character that is not trimmable. */
  lemma TrimKeepsLast(s: string)
    requires s != [] && !IsTrimmable(s[|s| - 1])
    ensures Trim(s) != [] && Trim(s)[|Trim(s)| - 1] == s[|s| - 1]
  {
    var t := TrimStart(s);
    LeadingTrimmableStops(s, |s| - 1);
    assert t[|t| - 1] == s[|s| - 1];
    assert TrailingTrimmable(t) == 0;
  }

  /** Trailing whitespace after a non-space character is exactly what rtrim removes. */
  lemma {:induction false} RTrimPadded(x: string, w: string)
    requires x != [] && !IsSpace(x[|x| - 1])
    requires forall i | 0 <= i < |w| :: IsSpace(w[i])
    ensures TrailingSpaces(x + w) == |w| && RTrim(x + w) == x
    decreases |w|
  {
    if w == [] {
      assert x + w == x;
    } else {
      var n := |w| - 1;
      assert (x + w)[..|x + w| - 1] == x + w[..n];
      RTrimPadded(x, w[..n]);
      assert (x + w)[..|x|] == x;
    }
  }

  lemma {:induction false} LeadingSpacesPadded(w: string, x: string)
    requires x != [] && !IsSpace(x[0])
    requires forall i | 0 <= i < |w| :: IsSpace(w[i])
    ensures LeadingSpaces(w + x) == |w|
    decreases |w|
  {
    if w == [] {
      assert w + x == x;
    } else {
      assert (w + x)[0] == w[0];
      assert (w + x)[1..] == w[1..] + x;
      LeadingSpacesPadded(w[1..], x);
    }
  }

  /** Leading whitespace before a non-space character is exactly what ltrim removes. */
  lemma LTrimPadded(w: string, x: string)
    requires x != [] && !IsSpace(x[0])
    requires forall i | 0 <= i < |w| :: IsSpace(w[i])
    ensures LeadingSpaces(w + x) == |w| && LTrim(w + x) == x
  {
    LeadingSpacesPadded(w, x);
    assert (w + x)[|w|..] == x;
  }

  /** Trailing whitespace after a non-trimmable character leaves that character last under String.trim. */
  lemma TrimAfterMark(x: string, w: string)
    requires x != [] && !IsTrimmable(x[|x| - 1])
    requires AllTrimmable(w)
    ensures Trim(x + w) != [] && Trim(x + w)[|Trim(x + w)| - 1] == x[|x| - 1]
  {
    TrimKeepsLast(x);
    TrimStartAppend(x, w);
    TrimEndPadded(TrimStart(x), w);
  }
}
