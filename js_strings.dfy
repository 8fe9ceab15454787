/** The two string methods the handlers call: `String.prototype.trim` and
    `String.prototype.toLowerCase`. Trimming uses the full ECMAScript set of
    white-space and line-terminator characters; lower-casing maps only the ASCII
    letters (the Unicode case tables are not modelled). */
module JsStrings {

  /** ECMAScript WhiteSpace and LineTerminator code points: TAB, LF, VT, FF, CR, SPACE,
      NO-BREAK SPACE, the other space separators (category Zs), LINE SEPARATOR,
      PARAGRAPH SEPARATOR and the byte order mark. */
  predicate IsWhitespace(c: char) {
    c == '\t' || c == '\n' || c == '\U{000B}' || c == '\U{000C}' || c == '\r' || c == ' '
    || c == '\U{00A0}' || c == '\U{1680}' || ('\U{2000}' <= c <= '\U{200A}')
    || c == '\U{2028}' || c == '\U{2029}' || c == '\U{202F}' || c == '\U{205F}'
    || c == '\U{3000}' || c == '\U{FEFF}'
  }

  predicate AllWhitespace(s: string) {
    forall k :: 0 <= k < |s| ==> IsWhitespace(s[k])
  }

  /** The length of the longest all-white-space prefix of `s`. */
  function LeadingWhitespace(s: string): (n: nat)
    ensures n <= |s|
    ensures AllWhitespace(s[..n])
    ensures n < |s| ==> !IsWhitespace(s[n])
  {
    if s != [] && IsWhitespace(s[0]) then
      var n' := LeadingWhitespace(s[1..]);
      assert s[..n' + 1] == [s[0]] + s[1..][..n'];
      n' + 1
    else 0
  }

  /** The length of the longest all-white-space suffix of `s`. */
  function TrailingWhitespace(s: string): (n: nat)
    ensures n <= |s|
    ensures AllWhitespace(s[|s| - n..])
    ensures n < |s| ==> !IsWhitespace(s[|s| - 1 - n])
  {
    if s != [] && IsWhitespace(s[|s| - 1]) then
      var init := s[..|s| - 1];
      var n' := TrailingWhitespace(init);
      assert s[|s| - (n' + 1)..] == init[|init| - n'..] + [s[|s| - 1]];
      n' + 1
    else 0
  }

  /** `s.trim()`: `s` without its leading and trailing white space. */
  function Trim(s: string): (r: string)
    ensures |r| <= |s|
    ensures r != [] ==> !IsWhitespace(r[0]) && !IsWhitespace(r[|r| - 1])
  {
    var tail := s[LeadingWhitespace(s)..];
    tail[..|tail| - TrailingWhitespace(tail)]
  }

  /** Trimming splits `s` into white space, the result, and white space, in that order. */
  lemma TrimSplits(s: string)
    ensures LeadingWhitespace(s) + |Trim(s)| <= |s|
    ensures s == s[..LeadingWhitespace(s)] + Trim(s) + s[LeadingWhitespace(s) + |Trim(s)|..]
    ensures AllWhitespace(s[LeadingWhitespace(s) + |Trim(s)|..])
  {
    var i := LeadingWhitespace(s);
    var tail := s[i..];
    var k := |tail| - TrailingWhitespace(tail);
    assert Trim(s) == s[i..i + k];
    assert s[i + k..] == tail[k..];
    SplitInThree(s, i, i + k);
  }

  lemma SplitInThree(s: string, i: nat, j: nat)
    requires i <= j <= |s|
    ensures s == s[..i] + s[i..j] + s[j..]
  {
    assert s == s[..i] + s[i..];
    assert s[i..] == s[i..j] + s[j..];
  }

  /** A count of leading white space is fixed by where the first other character is. */
  lemma {:induction false} LeadingWhitespaceAt(s: string, n: nat)
    requires n <= |s| && AllWhitespace(s[..n])
    requires n < |s| ==> !IsWhitespace(s[n])
    ensures LeadingWhitespace(s) == n
  {
    if n > 0 {
      assert IsWhitespace(s[0]) by { assert s[..n][0] == s[0]; }
      assert s[1..][..n - 1] == s[..n][1..];
      LeadingWhitespaceAt(s[1..], n - 1);
    }
  }

  /** A count of trailing white space is fixed by where the last other character is. */
  lemma {:induction false} TrailingWhitespaceAt(s: string, n: nat)
    requires n <= |s| && AllWhitespace(s[|s| - n..])
    requires n < |s| ==> !IsWhitespace(s[|s| - 1 - n])
    ensures TrailingWhitespace(s) == n
  {
    if n > 0 {
      var init := s[..|s| - 1];
      assert IsWhitespace(s[|s| - 1]) by { assert s[|s| - n..][n - 1] == s[|s| - 1]; }
      assert init[|init| - (n - 1)..] == s[|s| - n..][..n - 1];
      TrailingWhitespaceAt(init, n - 1);
    }
  }

  /** The split of `TrimSplits` is the only one: whatever white space surrounds a
      string that neither starts nor ends with white space, trimming recovers it. */
  lemma TrimRecovers(before: string, core: string, after: string)
    requires AllWhitespace(before) && AllWhitespace(after)
    requires core != [] ==> !IsWhitespace(core[0]) && !IsWhitespace(core[|core| - 1])
    ensures Trim(before + core + after) == core
  {
    var s := before + core + after;
    if core == [] {
      assert s == before + after;
      assert AllWhitespace(s[..|s|]) by {
        forall k | 0 <= k < |s| ensures IsWhitespace(s[..|s|][k]) {
          if k >= |before| { assert s[k] == after[k - |before|]; }
        }
      }
      LeadingWhitespaceAt(s, |s|);
    } else {
      assert s[..|before|] == before;
      assert s[|before|] == core[0];
      LeadingWhitespaceAt(s, |before|);
      var tail := s[|before|..];
      assert tail == core + after;
      assert tail[|tail| - |after|..] == after;
      assert tail[|tail| - 1 - |after|] == core[|core| - 1];
      TrailingWhitespaceAt(tail, |after|);
      assert tail[..|tail| - |after|] == core;
    }
  }

  /** Trimming leaves alone a string that neither starts nor ends with white space. */
  lemma TrimKeepsTrimmed(s: string)
    requires s != [] ==> !IsWhitespace(s[0]) && !IsWhitespace(s[|s| - 1])
    ensures Trim(s) == s
  {
    assert [] + s + [] == s;
    TrimRecovers([], s, []);
  }

  /** Trimming twice is trimming once. */
  lemma TrimIdempotent(s: string)
    ensures Trim(Trim(s)) == Trim(s)
  {
    TrimKeepsTrimmed(Trim(s));
  }

  function LowerChar(c: char): char {
    if 'A' <= c <= 'Z' then (c as int + 32) as char else c
  }

  /** `s.toLowerCase()`, restricted to the ASCII letters. */
  function ToLowerCase(s: string): (r: string)
    ensures |r| == |s|
  {
    seq(|s|, i requires 0 <= i < |s| => LowerChar(s[i]))
  }

  /** Two characters that are the same letter written in either case, or the same character. */
  predicate SameIgnoringCase(c: char, d: char) {
    c == d
    || ('A' <= c <= 'Z' && d as int == c as int + 32)
    || ('A' <= d <= 'Z' && c as int == d as int + 32)
  }

  /** Lower-cased strings are equal exactly when the strings agree position by position
      up to the case of ASCII letters. */
  lemma ToLowerCaseEqualIff(a: string, b: string)
    ensures ToLowerCase(a) == ToLowerCase(b)
        <==> |a| == |b| && forall i :: 0 <= i < |a| ==> SameIgnoringCase(a[i], b[i])
  {
    if |a| == |b| && forall i :: 0 <= i < |a| ==> SameIgnoringCase(a[i], b[i]) {
      forall i | 0 <= i < |a| ensures ToLowerCase(a)[i] == ToLowerCase(b)[i] {
        assert SameIgnoringCase(a[i], b[i]);
      }
    }
    if ToLowerCase(a) == ToLowerCase(b) {
      forall i | 0 <= i < |a| ensures SameIgnoringCase(a[i], b[i]) {
        assert LowerChar(a[i]) == ToLowerCase(a)[i] == ToLowerCase(b)[i] == LowerChar(b[i]);
      }
    }
  }

  /** Lower-casing twice is lower-casing once. */
  lemma ToLowerCaseIdempotent(s: string)
    ensures ToLowerCase(ToLowerCase(s)) == ToLowerCase(s)
  {
  }
}
