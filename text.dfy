/** The JavaScript string primitives the assistant's commands are built from:
    `includes`, `indexOf`, `trim`, `toLowerCase`, `split(sep)[0]`, `join`,
    `length` (in UTF-16 code units), and the regular-expression classes
    `\s`, `\w` and the assertion `\b`. */
module Text {

  /** `\s` in a regular expression, and what `trim` removes: the WhiteSpace
      and LineTerminator code points of ECMAScript. */
  predicate IsSpace(c: char) {
    var n := c as int;
    n == 0x09 || n == 0x0A || n == 0x0B || n == 0x0C || n == 0x0D || n == 0x20 ||
    n == 0xA0 || n == 0x1680 || (0x2000 <= n <= 0x200A) || n == 0x2028 || n == 0x2029 ||
    n == 0x202F || n == 0x205F || n == 0x3000 || n == 0xFEFF
  }

  /** The characters that `.` in a regular expression does not match. */
  predicate IsLineTerminator(c: char) {
    c == '\n' || c == '\r' || c as int == 0x2028 || c as int == 0x2029
  }

  /** `\w` without the `u` flag: ASCII letters, digits and underscore. */
  predicate IsWordChar(c: char) {
    'a' <= c <= 'z' || 'A' <= c <= 'Z' || '0' <= c <= '9' || c == '_'
  }

  /** `\b` at position i of s: exactly one side of i is a word character. */
  predicate IsBoundary(s: string, i: nat)
    requires i <= |s|
  {
    (i > 0 && IsWordChar(s[i - 1])) != (i < |s| && IsWordChar(s[i]))
  }

  predicate AllSpace(s: string) {
    forall i :: 0 <= i < |s| ==> IsSpace(s[i])
  }

  predicate IsUpper(c: char) {
    'A' <= c <= 'Z'
  }

  /** ASCII lower-casing of one character. */
  function Lower(c: char): (d: char)
    ensures !IsUpper(d)
    ensures IsUpper(c) ==> d as int == c as int + 32
    ensures !IsUpper(c) ==> d == c
  {
    if IsUpper(c) then (c as int + 32) as char else c
  }

  /** `toLowerCase`, restricted to ASCII letters. */
  function ToLower(s: string): (r: string)
    ensures |r| == |s|
    ensures forall i :: 0 <= i < |s| ==> r[i] == Lower(s[i])
    ensures forall i :: 0 <= i < |r| ==> !IsUpper(r[i])
    ensures (forall i :: 0 <= i < |s| ==> !IsUpper(s[i])) ==> r == s
  {
    if s == [] then []
    else
      var rest := ToLower(s[1..]);
      assert forall i :: 1 <= i < |s| ==> ([Lower(s[0])] + rest)[i] == rest[i - 1] && s[1..][i - 1] == s[i];
      [Lower(s[0])] + rest
  }

  /** A character whose lower case is a lower-case letter is a letter itself. */
  lemma LowerOfLetter(c: char, d: char)
    requires Lower(c) == d && 'a' <= d <= 'z'
    ensures IsWordChar(c) && !IsSpace(c)
  {
  }

  /** The first character of a case-insensitive match of w. */
  lemma WordAtHead(s: string, i: nat, w: string)
    ensures WordAt(s, i, w) && |w| > 0 ==> i < |s| && Lower(s[i]) == w[0]
  {
    if WordAt(s, i, w) && |w| > 0 {
      assert s[i..][0] == s[i];
    }
  }


  lemma {:induction false} ToLowerIdempotent(s: string)
    ensures ToLower(ToLower(s)) == ToLower(s)
  {
    var r := ToLower(s);
    assert forall i :: 0 <= i < |r| ==> !IsUpper(r[i]);
  }

  /** The case-insensitive (flag `i`, no flag `u`) match of the lower-case
      word w at the start of s. */
  predicate StartsWithNoCase(s: string, w: string)
    decreases |w|
  {
    |w| <= |s| && (|w| == 0 || (Lower(s[0]) == w[0] && StartsWithNoCase(s[1..], w[1..])))
  }

  /** The case-insensitive match of w at position i of s. */
  predicate WordAt(s: string, i: nat, w: string) {
    i + |w| <= |s| && StartsWithNoCase(s[i..], w)
  }

  /** The recursive definition agrees with the character-by-character one. */
  lemma {:induction false} StartsWithNoCaseIff(s: string, w: string)
    ensures StartsWithNoCase(s, w) <==> |w| <= |s| && forall k :: 0 <= k < |w| ==> Lower(s[k]) == w[k]
    decreases |w|
  {
    if |w| > 0 && |w| <= |s| {
      StartsWithNoCaseIff(s[1..], w[1..]);
      if forall k :: 0 <= k < |w| ==> Lower(s[k]) == w[k] {
        forall k | 0 <= k < |w| - 1 ensures Lower(s[1..][k]) == w[1..][k] {
          assert s[1..][k] == s[k + 1];
        }
      }
      if StartsWithNoCase(s, w) {
        forall k | 0 <= k < |w| ensures Lower(s[k]) == w[k] {
          if k > 0 {
            assert s[1..][k - 1] == s[k];
          }
        }
      }
    }
  }

  lemma WordAtIff(s: string, i: nat, w: string)
    ensures WordAt(s, i, w) <==> i + |w| <= |s| && forall k :: 0 <= k < |w| ==> Lower(s[i + k]) == w[k]
  {
    if i <= |s| {
      StartsWithNoCaseIff(s[i..], w);
      if i + |w| <= |s| {
        forall k | 0 <= k < |w| ensures s[i..][k] == s[i + k] { }
      }
    }
  }

  predicate OccursAt(s: string, sub: string, i: int) {
    0 <= i && i + |sub| <= |s| && s[i..i + |sub|] == sub
  }

  /** `s.indexOf(sub, from)`: the first occurrence at or after `from`, or -1. */
  function IndexOfFrom(s: string, sub: string, from: nat): (r: int)
    decreases |s| - from
    ensures r == -1 || (from <= r && OccursAt(s, sub, r))
    ensures forall j :: from <= j && (r == -1 || j < r) ==> !OccursAt(s, sub, j)
  {
    if from + |sub| > |s| then -1
    else if s[from..from + |sub|] == sub then from
    else IndexOfFrom(s, sub, from + 1)
  }

  function IndexOf(s: string, sub: string): int {
    IndexOfFrom(s, sub, 0)
  }

  /** `s.includes(sub)`: the empty text is included in every text, and no
      text longer than s is. */
  predicate Contains(s: string, sub: string)
    ensures sub == [] ==> Contains(s, sub)
    ensures Contains(s, sub) ==> |sub| <= |s|
  {
    IndexOf(s, sub) >= 0
  }

  lemma ContainsIff(s: string, sub: string)
    ensures Contains(s, sub) <==> exists i :: OccursAt(s, sub, i)
  {
  }

  lemma ContainsAt(s: string, sub: string, i: int)
    requires OccursAt(s, sub, i)
    ensures Contains(s, sub)
  {
  }

  /** A character of sub that s lacks rules sub out. */
  lemma MissingChar(s: string, sub: string, k: nat)
    requires k < |sub| && forall i :: 0 <= i < |s| ==> s[i] != sub[k]
    ensures !Contains(s, sub)
  {
    forall j: nat | j + |sub| <= |s| ensures !OccursAt(s, sub, j) {
      assert s[j..j + |sub|][k] == s[j + k];
    }
    ContainsIff(s, sub);
  }

  /** An occurrence inside a part of s is an occurrence in s. */
  lemma {:induction false} ContainsInfix(s: string, lo: nat, hi: nat, sub: string)
    requires lo <= hi <= |s|
    requires Contains(s[lo..hi], sub)
    ensures Contains(s, sub)
  {
    var t := s[lo..hi];
    var j := IndexOf(t, sub);
    assert OccursAt(t, sub, j);
    forall k | 0 <= k < |sub| ensures s[lo + j..lo + j + |sub|][k] == sub[k] {
      assert t[j..j + |sub|][k] == sub[k];
      assert t[j + k] == s[lo + j + k];
    }
    assert s[lo + j..lo + j + |sub|] == sub;
    ContainsAt(s, sub, lo + j);
  }

  /** `s.split(sep)[0]`: the text before the first occurrence of sep, or all of s. */
  function FirstSegment(s: string, sep: string): (r: string)
    requires |sep| > 0
    ensures |r| <= |s| && r == s[..|r|]
    ensures !Contains(r, sep)
    ensures r == s || OccursAt(s, sep, |r|)
    ensures !Contains(s, sep) ==> r == s
  {
    var k := IndexOf(s, sep);
    var r := if k == -1 then s else s[..k];
    assert !Contains(r, sep) by {
      if Contains(r, sep) {
        var j := IndexOf(r, sep);
        assert r[j..j + |sep|] == s[j..j + |sep|];
        assert OccursAt(s, sep, j);
        assert false;
      }
    }
    r
  }

  /** `length` of a JavaScript string: one code unit per character of the
      Basic Multilingual Plane, two (a surrogate pair) for any other. */
  function Utf16Length(s: string): (n: nat)
    ensures |s| <= n <= 2 * |s|
    ensures (forall i :: 0 <= i < |s| ==> (s[i] as int) < 0x1_0000) ==> n == |s|
  {
    if s == [] then 0
    else (if s[0] as int < 0x1_0000 then 1 else 2) + Utf16Length(s[1..])
  }

  /** One character takes one code unit below U+10000 and a surrogate pair above. */
  lemma Utf16OfChar(c: char)
    ensures Utf16Length([c]) == if c as int < 0x1_0000 then 1 else 2
  {
    assert [c][1..] == [];
  }

  /** The length of a concatenation is the sum of the lengths. */
  lemma {:induction false} Utf16Append(a: string, b: string)
    ensures Utf16Length(a + b) == Utf16Length(a) + Utf16Length(b)
    decreases |a|
  {
    if a == [] {
      assert a + b == b;
    } else {
      assert (a + b)[0] == a[0];
      assert (a + b)[1..] == a[1..] + b;
      Utf16Append(a[1..], b);
    }
  }

  /** The first position at or after i that is not whitespace. */
  function SkipSpaces(s: string, i: nat): (j: nat)
    requires i <= |s|
    decreases |s| - i
    ensures i <= j <= |s|
    ensures forall k :: i <= k < j ==> IsSpace(s[k])
    ensures j == |s| || !IsSpace(s[j])
  {
    if i == |s| || !IsSpace(s[i]) then i else SkipSpaces(s, i + 1)
  }

  /** The skipped stretch is whitespace. */
  lemma SkippedSpaces(s: string, i: nat)
    requires i <= |s|
    ensures AllSpace(s[i..SkipSpaces(s, i)])
  {
    var j := SkipSpaces(s, i);
    forall k | 0 <= k < j - i ensures IsSpace(s[i..j][k]) {
      assert s[i..j][k] == s[i + k];
    }
  }

  /** Whitespace up to a non-whitespace character at m is skipped up to m. */
  lemma {:induction false} SkipSpacesTo(s: string, x: nat, m: nat)
    requires x <= m < |s| && AllSpace(s[x..m]) && !IsSpace(s[m])
    ensures SkipSpaces(s, x) == m
    decreases m - x
  {
    if x < m {
      assert s[x..m][0] == s[x];
      assert s[x + 1..m] == s[x..m][1..];
      SkipSpacesTo(s, x + 1, m);
    }
  }

  /** The last position at or before hi, and not below lo, that follows a non-whitespace character. */
  function SkipSpacesBack(s: string, lo: nat, hi: nat): (k: nat)
    requires lo <= hi <= |s|
    decreases hi
    ensures lo <= k <= hi
    ensures forall m :: k <= m < hi ==> IsSpace(s[m])
    ensures k == lo || !IsSpace(s[k - 1])
  {
    if hi == lo || !IsSpace(s[hi - 1]) then hi else SkipSpacesBack(s, lo, hi - 1)
  }

  /** A string is trimmed when it neither starts nor ends with whitespace. */
  predicate Trimmed(s: string) {
    s == [] || (!IsSpace(s[0]) && !IsSpace(s[|s| - 1]))
  }

  /** r is s with only whitespace removed around it, a characters of it in front. */
  predicate Surrounds(s: string, r: string, a: nat) {
    a + |r| <= |s| && s[a..a + |r|] == r && AllSpace(s[..a]) && AllSpace(s[a + |r|..])
  }

  /** `trim`. */
  function Trim(s: string): (r: string)
    ensures Trimmed(r) && |r| <= |s|
    ensures r == [] <==> AllSpace(s)
    ensures exists a :: Surrounds(s, r, a)
    ensures Trimmed(s) ==> r == s
  {
    var a := SkipSpaces(s, 0);
    var b := SkipSpacesBack(s, a, |s|);
    assert Surrounds(s, s[a..b], a);
    assert b == a ==> a == |s|;
    assert b != a ==> !IsSpace(s[a]);
    assert Trimmed(s) && s != [] ==> a == 0 && b == |s|;
    s[a..b]
  }

  /** Trimming keeps exactly the part between the whitespace margins:
      any trimmed core of s surrounded only by whitespace is `Trim(s)`. */
  lemma {:induction false} TrimUnique(s: string, r: string, a: nat)
    requires Surrounds(s, r, a) && Trimmed(r) && r != []
    ensures Trim(s) == r
  {
    var t := Trim(s);
    var b: nat :| Surrounds(s, t, b);
    assert !IsSpace(s[a]) by { assert s[a] == r[0]; }
    assert a == b;
    assert |t| == |r|;
  }

  lemma TrimIdempotent(s: string)
    ensures Trim(Trim(s)) == Trim(s)
  {
  }

  /** `xs.join(sep)`: empty for no entries, the entry itself for one. */
  function Join(xs: seq<string>, sep: string): (r: string)
    decreases |xs|
    ensures xs == [] ==> r == []
    ensures |xs| == 1 ==> r == xs[0]
  {
    if xs == [] then ""
    else if |xs| == 1 then xs[0]
    else xs[0] + sep + Join(xs[1..], sep)
  }

  /** A joined text starts with the first entry and ends with the last. */
  lemma {:induction false} JoinEnds(xs: seq<string>, sep: string)
    requires xs != []
    ensures |Join(xs, sep)| >= |xs[0]| && Join(xs, sep)[..|xs[0]|] == xs[0]
    ensures |Join(xs, sep)| >= |xs[|xs| - 1]| && Join(xs, sep)[|Join(xs, sep)| - |xs[|xs| - 1]|..] == xs[|xs| - 1]
    decreases |xs|
  {
    if |xs| > 1 {
      var rest := Join(xs[1..], sep);
      var r := xs[0] + sep + rest;
      JoinEnds(xs[1..], sep);
      assert r[..|xs[0]|] == xs[0];
      assert r[|r| - |rest|..] == rest;
      assert xs[1..][|xs[1..]| - 1] == xs[|xs| - 1];
      assert r[|r| - |xs[|xs| - 1]|..] == rest[|rest| - |xs[|xs| - 1]|..];
    }
  }

  /** A prefix put in front of a text keeps the text's head right after it
      and its tail at the very end. */
  lemma PrefixedEnds(a: string, b: string, m: nat, n: nat)
    requires m <= |b| && n <= |b|
    ensures (a + b)[..|a| + m] == a + b[..m]
    ensures (a + b)[|a + b| - n..] == b[|b| - n..]
  {
  }

  /** Joining keeps the entries in order: appending an entry appends it,
      after one separator, to the joined text. */
  lemma {:induction false} JoinAppend(xs: seq<string>, x: string, sep: string)
    requires xs != []
    ensures Join(xs + [x], sep) == Join(xs, sep) + sep + x
  {
    if |xs| == 1 {
      assert (xs + [x])[1..] == [x];
    } else {
      assert (xs + [x])[1..] == xs[1..] + [x];
      JoinAppend(xs[1..], x, sep);
    }
  }
}
