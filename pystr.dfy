/** The few operations of Python's `str` that the bot relies on: ordering
    (used as a sort key), `strip()`, `upper()` and slicing `s[:n]`. */
module PyStr {

  /** Python's `a <= b` on strings: lexicographic by code point, a proper
      prefix coming first. */
  predicate StrLe(a: string, b: string)
    decreases |a|
  {
    if a == [] then true
    else if b == [] then false
    else if a[0] < b[0] then true
    else if b[0] < a[0] then false
    else StrLe(a[1..], b[1..])
  }

  /** Python's `a < b` on strings. */
  predicate StrLt(a: string, b: string) {
    !StrLe(b, a)
  }

  /** The textbook definition of the same order: `a` is a prefix of `b`, or
      the two first differ at a position where `a` has the smaller code point. */
  ghost predicate LexLe(a: string, b: string) {
    (|a| <= |b| && a == b[..|a|]) ||
    (exists i :: 0 <= i < |a| && i < |b| && a[..i] == b[..i] && a[i] < b[i])
  }

  lemma {:induction false} StrLeIsLex(a: string, b: string)
    ensures StrLe(a, b) <==> LexLe(a, b)
    decreases |a|
  {
    if a == [] {
    } else if b == [] {
    } else if a[0] < b[0] {
      assert a[..0] == b[..0];
    } else if b[0] < a[0] {
      LexLeHeads(a, b);
    } else {
      StrLeIsLex(a[1..], b[1..]);
      LexLeFromTails(a, b);
      LexLeToTails(a, b);
    }
  }

  /** Strings that are lexicographically ordered agree at the first position
      or are ordered there. */
  lemma LexLeHeads(a: string, b: string)
    requires a != [] && b != []
    ensures LexLe(a, b) ==> a[0] <= b[0]
  {
    if LexLe(a, b) && !(|a| <= |b| && a == b[..|a|]) {
      var i :| 0 <= i < |a| && i < |b| && a[..i] == b[..i] && a[i] < b[i];
      if i != 0 {
        assert a[..i][0] == b[..i][0];
      }
    }
  }

  /** With equal first characters, an order between the tails extends to the
      whole strings. */
  lemma LexLeFromTails(a: string, b: string)
    requires a != [] && b != [] && a[0] == b[0]
    ensures LexLe(a[1..], b[1..]) ==> LexLe(a, b)
  {
    assert a == [a[0]] + a[1..] && b == [b[0]] + b[1..];
    if |a[1..]| <= |b[1..]| && a[1..] == b[1..][..|a[1..]|] {
      assert a == b[..|a|];
    } else if LexLe(a[1..], b[1..]) {
      var i :| 0 <= i < |a[1..]| && i < |b[1..]| && a[1..][..i] == b[1..][..i] && a[1..][i] < b[1..][i];
      assert a[..i + 1] == [a[0]] + a[1..][..i];
      assert b[..i + 1] == [b[0]] + b[1..][..i];
    }
  }

  /** With equal first characters, an order between the whole strings
      restricts to the tails. */
  lemma LexLeToTails(a: string, b: string)
    requires a != [] && b != [] && a[0] == b[0]
    ensures LexLe(a, b) ==> LexLe(a[1..], b[1..])
  {
    if |a| <= |b| && a == b[..|a|] {
      assert a[1..] == b[1..][..|a[1..]|];
    } else if LexLe(a, b) {
      var i :| 0 <= i < |a| && i < |b| && a[..i] == b[..i] && a[i] < b[i];
      if i != 0 {
        assert a[1..][..i - 1] == a[..i][1..] == b[..i][1..] == b[1..][..i - 1];
        assert a[1..][i - 1] < b[1..][i - 1];
      }
    }
  }

  lemma {:induction false} StrLeTotal(a: string, b: string)
    ensures StrLe(a, b) || StrLe(b, a)
    decreases |a|
  {
    if a != [] && b != [] && a[0] == b[0] {
      StrLeTotal(a[1..], b[1..]);
    }
  }

  lemma {:induction false} StrLeTrans(a: string, b: string, c: string)
    requires StrLe(a, b) && StrLe(b, c)
    ensures StrLe(a, c)
    decreases |a|
  {
    if a != [] && b != [] && c != [] && a[0] == b[0] == c[0] {
      StrLeTrans(a[1..], b[1..], c[1..]);
    }
  }

  lemma {:induction false} StrLeAntisymmetric(a: string, b: string)
    requires StrLe(a, b) && StrLe(b, a)
    ensures a == b
    decreases |a|
  {
    if a != [] {
      StrLeAntisymmetric(a[1..], b[1..]);
      assert a == [a[0]] + a[1..] && b == [b[0]] + b[1..];
    }
  }

  /** A shared prefix does not affect the order. */
  lemma {:induction false} StrLeSharedPrefix(p: string, a: string, b: string)
    ensures StrLe(p + a, p + b) == StrLe(a, b)
  {
    if p == [] {
      assert p + a == a && p + b == b;
    } else {
      assert (p + a)[1..] == p[1..] + a && (p + b)[1..] == p[1..] + b;
      StrLeSharedPrefix(p[1..], a, b);
    }
  }

  /** Python's `str.isspace()` for one character: the characters `strip()`
      removes when called without arguments. */
  predicate IsSpace(c: char) {
    var n := c as int;
    (0x09 <= n <= 0x0D) || (0x1C <= n <= 0x20) || n == 0x85 || n == 0xA0 ||
    n == 0x1680 || (0x2000 <= n <= 0x200A) || n == 0x2028 || n == 0x2029 ||
    n == 0x202F || n == 0x205F || n == 0x3000
  }

  /** `s.lstrip()`: the suffix left after dropping leading whitespace. */
  function StripStart(s: string): (r: string)
    ensures |r| <= |s| && r == s[|s| - |r|..]
    ensures forall k :: 0 <= k < |s| - |r| ==> IsSpace(s[k])
    ensures r != [] ==> !IsSpace(r[0])
  {
    if s != [] && IsSpace(s[0]) then StripStart(s[1..]) else s
  }

  /** `s.rstrip()`: the prefix left after dropping trailing whitespace. */
  function StripEnd(s: string): (r: string)
    ensures |r| <= |s| && r == s[..|r|]
    ensures forall k :: |r| <= k < |s| ==> IsSpace(s[k])
    ensures r != [] ==> !IsSpace(r[|r| - 1])
  {
    if s != [] && IsSpace(s[|s| - 1]) then StripEnd(s[..|s| - 1]) else s
  }

  /** `s.strip()`. */
  function Strip(s: string): (r: string)
  {
    StripEnd(StripStart(s))
  }

  /** What `strip()` promises: the result is a contiguous piece of `s`, only
      whitespace was cut on either side, and it neither starts nor ends with
      whitespace. */
  lemma StripSpec(s: string) returns (i: nat, j: nat)
    ensures i <= j <= |s| && Strip(s) == s[i..j]
    ensures forall k :: 0 <= k < i ==> IsSpace(s[k])
    ensures forall k :: j <= k < |s| ==> IsSpace(s[k])
    ensures Strip(s) != [] ==> !IsSpace(Strip(s)[0]) && !IsSpace(Strip(s)[|Strip(s)| - 1])
  {
    var t := StripStart(s);
    var r := StripEnd(t);
    i := |s| - |t|;
    j := i + |r|;
    assert r == t[..|r|] && t == s[i..];
    forall k | j <= k < |s|
      ensures IsSpace(s[k])
    {
      assert s[k] == t[k - i];
    }
    if r != [] {
      assert r[0] == t[0];
    }
  }

  /** A string that neither starts nor ends with whitespace is left alone. */
  lemma StripKeepsClean(s: string)
    requires s != [] ==> !IsSpace(s[0]) && !IsSpace(s[|s| - 1])
    ensures Strip(s) == s
  {
  }

  /** `strip()` yields the empty string exactly for all-whitespace input. */
  lemma StripEmptyIffBlank(s: string)
    ensures Strip(s) == [] <==> forall k :: 0 <= k < |s| ==> IsSpace(s[k])
  {
  }

  /** `str.upper()` for one character, as far as it can produce ASCII text:
      the ASCII letters, dotless i (U+0131) and long s (U+017F), which map to
      one ASCII letter, and sharp s (U+00DF) and the Latin ligatures
      U+FB00-U+FB06, which map to two or three ASCII letters. Every other
      character is left as it is; Python maps some of them to other text,
      but always text holding a non-ASCII character, so neither form can
      equal an ASCII word. */
  function UpperOf(c: char): string {
    var n := c as int;
    if 'a' <= c <= 'z' then [(n - 32) as char]
    else if n == 0x131 then "I"
    else if n == 0x17F then "S"
    else if n == 0xDF then "SS"
    else if n == 0xFB00 then "FF"
    else if n == 0xFB01 then "FI"
    else if n == 0xFB02 then "FL"
    else if n == 0xFB03 then "FFI"
    else if n == 0xFB04 then "FFL"
    else if n == 0xFB05 || n == 0xFB06 then "ST"
    else [c]
  }

  /** `s.upper()`: each character's upper-case text, in order. */
  function Upper(s: string): string {
    if s == [] then [] else UpperOf(s[0]) + Upper(s[1..])
  }

  /** ASCII `lower()`, used to state case-insensitivity. */
  function AsciiLowerChar(c: char): char {
    if 'A' <= c <= 'Z' then (c as int + 32) as char else c
  }

  function AsciiLower(s: string): string {
    seq(|s|, i requires 0 <= i < |s| => AsciiLowerChar(s[i]))
  }

  /** An upper-case ASCII word. */
  predicate IsUpperWord(w: string) {
    forall i :: 0 <= i < |w| ==> 'A' <= w[i] <= 'Z'
  }

  /** The first two letters of a character's upper-case text when that text
      has more than one letter: SS, FF, FI, FL or ST. */
  predicate IsExpansionPair(x: char, y: char) {
    (x == 'S' && (y == 'S' || y == 'T')) || (x == 'F' && (y == 'F' || y == 'I' || y == 'L'))
  }

  /** No two adjacent letters of `w` form an expansion pair, so no single
      character upper-cases to a piece of `w` longer than one letter. */
  predicate NoExpansionPair(w: string) {
    |w| < 2 || (!IsExpansionPair(w[0], w[1]) && NoExpansionPair(w[1..]))
  }

  /** A word without S and F has no expansion pair. */
  lemma {:induction false} NoSOrFMeansNoPair(w: string)
    requires forall i :: 0 <= i < |w| ==> w[i] != 'S' && w[i] != 'F'
    ensures NoExpansionPair(w)
    decreases |w|
  {
    if |w| >= 2 {
      assert forall i :: 0 <= i < |w[1..]| ==> w[1..][i] == w[i + 1];
      NoSOrFMeansNoPair(w[1..]);
    }
  }

  /** Character `c` is the upper-case letter `x` written in some case. */
  predicate SpellsChar(c: char, x: char) {
    c == x || c == AsciiLowerChar(x) ||
    (x == 'I' && c as int == 0x131) || (x == 'S' && c as int == 0x17F)
  }

  /** `s` spells the upper-case ASCII word `w` in any mixture of cases,
      position by position. */
  predicate SpellsIgnoringCase(s: string, w: string) {
    |s| == |w| && forall i :: 0 <= i < |s| ==> SpellsChar(s[i], w[i])
  }

  lemma UpperOfShape(c: char)
    ensures |UpperOf(c)| >= 1
    ensures |UpperOf(c)| >= 2 ==> IsExpansionPair(UpperOf(c)[0], UpperOf(c)[1])
    ensures forall x :: 'A' <= x <= 'Z' ==> (UpperOf(c) == [x] <==> SpellsChar(c, x))
  {
  }

  /** For an upper-case ASCII word without expansion pairs (as are CRITICAL,
      HIGH, MEDIUM and LOW), `s.upper() == w` holds exactly when `s` spells
      `w` ignoring case. */
  lemma {:induction false} UpperEqualsWord(s: string, w: string)
    requires IsUpperWord(w) && NoExpansionPair(w)
    ensures Upper(s) == w <==> SpellsIgnoringCase(s, w)
    decreases |s|
  {
    if s != [] {
      var u, rest := UpperOf(s[0]), Upper(s[1..]);
      UpperOfShape(s[0]);
      if w != [] {
        assert IsUpperWord(w[1..]) && NoExpansionPair(w[1..]);
        UpperEqualsWord(s[1..], w[1..]);
      }
      if SpellsIgnoringCase(s, w) {
        assert SpellsIgnoringCase(s[1..], w[1..]) && SpellsChar(s[0], w[0]);
        assert w == [w[0]] + w[1..];
      }
      if Upper(s) == w {
        assert w == u + rest;
        assert |u| == 1;
        assert w[1..] == rest;
        assert SpellsChar(s[0], w[0]);
        forall i | 0 <= i < |s|
          ensures SpellsChar(s[i], w[i])
        {
          if i > 0 {
            assert s[i] == s[1..][i - 1] && w[i] == w[1..][i - 1];
          }
        }
      }
    }
  }

  /** The pair condition is needed: sharp s upper-cases to the two letters SS
      without spelling them. */
  lemma UpperExpandsSharpS()
    ensures Upper("\U{DF}") == "SS"
    ensures !SpellsIgnoringCase("\U{DF}", "SS")
  {
    assert Upper("\U{DF}") == UpperOf('\U{DF}') + Upper([]);
  }

  lemma {:induction false} UpperAppend(a: string, b: string)
    ensures Upper(a + b) == Upper(a) + Upper(b)
    decreases |a|
  {
    if a == [] {
      assert a + b == b;
    } else {
      assert (a + b)[0] == a[0] && (a + b)[1..] == a[1..] + b;
      UpperAppend(a[1..], b);
    }
  }

  /** Text whose every character upper-cases to itself is its own upper case. */
  lemma {:induction false} UpperOfFixed(w: string)
    requires forall i :: 0 <= i < |w| ==> UpperOf(w[i]) == [w[i]]
    ensures Upper(w) == w
    decreases |w|
  {
    if w != [] {
      assert forall i :: 0 <= i < |w[1..]| ==> UpperOf(w[1..][i]) == [w[1..][i]] by {
        forall i | 0 <= i < |w[1..]|
          ensures UpperOf(w[1..][i]) == [w[1..][i]]
        {
          assert w[1..][i] == w[i + 1];
        }
      }
      UpperOfFixed(w[1..]);
      assert w == [w[0]] + w[1..];
    }
  }

  lemma UpperOfIsUpper(c: char)
    ensures Upper(UpperOf(c)) == UpperOf(c)
  {
    UpperOfFixed(UpperOf(c));
  }

  /** Upper-casing ignores how the input was cased: upper-casing it again or
      lower-casing it first changes nothing. */
  lemma {:induction false} UpperIgnoresCase(s: string)
    ensures Upper(Upper(s)) == Upper(s)
    ensures Upper(AsciiLower(s)) == Upper(s)
    decreases |s|
  {
    if s != [] {
      UpperIgnoresCase(s[1..]);
      UpperAppend(UpperOf(s[0]), Upper(s[1..]));
      UpperOfIsUpper(s[0]);
      var l := AsciiLower(s);
      assert l[1..] == AsciiLower(s[1..]);
      assert UpperOf(l[0]) == UpperOf(s[0]);
    }
  }

  /** Python's slice `s[:n]` for a non-negative `n`. */
  function SliceTo(s: string, n: nat): (r: string)
    ensures |r| == (if |s| <= n then |s| else n)
    ensures r == s[..|r|]
  {
    if |s| <= n then s else s[..n]
  }
}
