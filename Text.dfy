// Character classes and string helpers shared by the launch-path code.
// Strings are sequences of characters; the JavaScript engine's UTF-16 code
// units are not distinguished from characters here.

module Text {

  /** JavaScript's whitespace: the class matched by the regular expression
      `\s`, and also the set `String.prototype.trim` removes (WhiteSpace and
      LineTerminator of ECMAScript). */
  predicate IsSpace(c: char) {
    var n := c as int;
    || (0x09 <= n <= 0x0D)  // tab, line feed, vertical tab, form feed, carriage return
    || n == 0x20 || n == 0xA0 || n == 0x1680
    || (0x2000 <= n <= 0x200A)
    || n == 0x2028 || n == 0x2029 || n == 0x202F || n == 0x205F || n == 0x3000 || n == 0xFEFF
  }

  predicate AllSpace(s: string) {
    forall i :: 0 <= i < |s| ==> IsSpace(s[i])
  }

  /** A string `trim` leaves alone: empty, or neither end is whitespace. */
  predicate IsTrimmed(s: string) {
    s == [] || (!IsSpace(s[0]) && !IsSpace(s[|s| - 1]))
  }

  function TrimStart(s: string): (r: string)
    ensures |r| <= |s| && r == s[|s| - |r|..]
    ensures AllSpace(s[..|s| - |r|])
    ensures r == [] || !IsSpace(r[0])
  {
    if s != [] && IsSpace(s[0]) then
      var r := TrimStart(s[1..]);
      assert s[..|s| - |r|] == [s[0]] + s[1..][..|s| - 1 - |r|];
      r
    else
      s
  }

  function TrimEnd(s: string): (r: string)
    ensures |r| <= |s| && r == s[..|r|]
    ensures AllSpace(s[|r|..])
    ensures r == [] || !IsSpace(r[|r| - 1])
  {
    if s != [] && IsSpace(s[|s| - 1]) then
      var r := TrimEnd(s[..|s| - 1]);
      assert s[|r|..] == s[..|s| - 1][|r|..] + [s[|s| - 1]];
      r
    else
      s
  }

  /** `String.prototype.trim`: the string without the whitespace at both ends.
      What is left is trimmed, nothing is left exactly when the string is all
      whitespace, and a string already trimmed is returned as it is
      (`TrimCutsOnlySpace` adds that what is cut off is whitespace). */
  function Trim(s: string): (r: string)
    ensures IsTrimmed(r)
    ensures r == [] <==> AllSpace(s)
    ensures IsTrimmed(s) ==> r == s
  {
    var t := TrimStart(s);
    var r := TrimEnd(t);
    TrimSplits(s, t, r);
    TrimLeavesTrimmed(s, t, r);
    r
  }

  lemma {:induction false} TrimSplits(s: string, t: string, r: string)
    requires |t| <= |s| && t == s[|s| - |t|..]
    requires |r| <= |t| && r == t[..|r|]
    ensures s == s[..|s| - |t|] + r + t[|r|..]
  {
    assert t == r + t[|r|..];
    assert s == s[..|s| - |t|] + t;
  }

  lemma {:induction false} TrimLeavesTrimmed(s: string, t: string, r: string)
    requires t == TrimStart(s) && r == TrimEnd(t)
    ensures IsTrimmed(r)
    ensures r == [] <==> AllSpace(s)
    ensures IsTrimmed(s) ==> r == s
  {
    TrimSplits(s, t, r);
    if r != [] {
      assert r[0] == t[0];
      assert s[|s| - |t|] == r[0];
    } else {
      AllSpaceAppend(s[..|s| - |t|], t[|r|..]);
    }
    if IsTrimmed(s) && s != [] {
      assert t == s;
    }
  }

  lemma {:induction false} AllSpaceAppend(a: string, b: string)
    requires AllSpace(a) && AllSpace(b)
    ensures AllSpace(a + b)
  {
    forall i | 0 <= i < |a + b| ensures IsSpace((a + b)[i]) {
      if i < |a| { assert (a + b)[i] == a[i]; } else { assert (a + b)[i] == b[i - |a|]; }
    }
  }

  /** `trim` cuts off whitespace only. */
  lemma TrimCutsOnlySpace(s: string)
    ensures exists a, b :: s == a + Trim(s) + b && AllSpace(a) && AllSpace(b)
  {
    var t := TrimStart(s);
    var r := TrimEnd(t);
    TrimSplits(s, t, r);
    var a, b := s[..|s| - |t|], t[|r|..];
    assert AllSpace(a) && AllSpace(b);
  }

  lemma TrimIdempotent(s: string)
    ensures Trim(Trim(s)) == Trim(s)
  {
  }

  predicate IsDigit(c: char) {
    '0' <= c <= '9'
  }

  /** A non-empty run of ASCII digits: what the regular expression `^\d+$`
      accepts. */
  predicate IsDigits(s: string) {
    s != [] && forall i :: 0 <= i < |s| ==> IsDigit(s[i])
  }

  /** Lower-cases the ASCII letters and leaves every other character alone.
      A regular expression with the `i` flag and without the `u` flag folds an
      ASCII pattern letter only onto its two ASCII cases, so comparing
      `AsciiLower(c)` with a lower-case ASCII pattern character is exactly that
      regular-expression match. */
  function AsciiLower(c: char): (r: char)
    ensures IsDigit(r) <==> IsDigit(c)
    ensures 'A' <= c <= 'Z' ==> 'a' <= r <= 'z' && r as int - 'a' as int == c as int - 'A' as int
    ensures !('A' <= c <= 'Z') ==> r == c
  {
    if 'A' <= c <= 'Z' then (c as int - 'A' as int + 'a' as int) as char else c
  }

  /** The case-insensitive pattern `pat` (written in lower case) occurs in `s`
      at index `i`. */
  predicate MatchesAt(s: string, i: nat, pat: string): (r: bool)
    ensures r ==> i + |pat| <= |s|
    ensures i + |pat| <= |s| && s[i..i + |pat|] == pat && (forall k :: 0 <= k < |pat| ==> !('A' <= pat[k] <= 'Z')) ==> r
  {
    i + |pat| <= |s| && forall k :: 0 <= k < |pat| ==> AsciiLower(s[i + k]) == pat[k]
  }

  /** Matching a concatenated pattern is matching its two halves one after
      the other. */
  lemma {:induction false} MatchesAtAppend(s: string, i: nat, p: string, q: string)
    ensures MatchesAt(s, i, p + q) <==> MatchesAt(s, i, p) && MatchesAt(s, i + |p|, q)
  {
    if MatchesAt(s, i, p) && MatchesAt(s, i + |p|, q) {
      forall k | 0 <= k < |p + q| ensures AsciiLower(s[i + k]) == (p + q)[k] {
        if k >= |p| {
          assert AsciiLower(s[i + |p| + (k - |p|)]) == q[k - |p|];
        }
      }
    }
    if MatchesAt(s, i, p + q) {
      forall k | 0 <= k < |p| ensures AsciiLower(s[i + k]) == p[k] {
        assert (p + q)[k] == p[k];
      }
      forall k | 0 <= k < |q| ensures AsciiLower(s[i + |p| + k]) == q[k] {
        assert AsciiLower(s[i + (|p| + k)]) == (p + q)[|p| + k];
      }
    }
  }

  /** The longest prefix of `s` made of digits: what a greedy `(\d+)` captures. */
  function LeadingDigits(s: string): (r: string)
    ensures |r| <= |s| && r == s[..|r|]
    ensures forall i :: 0 <= i < |r| ==> IsDigit(r[i])
    ensures |r| < |s| ==> !IsDigit(s[|r|])
  {
    if s != [] && IsDigit(s[0]) then [s[0]] + LeadingDigits(s[1..]) else []
  }

  /** A digit run followed by something that is not a digit is captured
      exactly. */
  lemma {:induction false} LeadingDigitsOf(d: string, tail: string)
    requires forall i :: 0 <= i < |d| ==> IsDigit(d[i])
    requires tail == [] || !IsDigit(tail[0])
    ensures LeadingDigits(d + tail) == d
  {
    if d != [] {
      assert (d + tail)[1..] == d[1..] + tail;
      LeadingDigitsOf(d[1..], tail);
    } else {
      assert d + tail == tail;
    }
  }
}
