/** Text primitives the registration schema is built on: the whitespace that
    JavaScript's `String.prototype.trim` removes, `trim` itself, the length
    JavaScript reports for a string (UTF-16 code units), and the
    one-character classes that the password rules look for with
    `/[...]/.test`. */
module Text {

  /** ECMAScript WhiteSpace and LineTerminator code points: tab, vertical tab,
      form feed, space, no-break space, the byte order mark, every other
      space separator (category Zs), line feed, carriage return, and the
      line and paragraph separators. This is the set `trim` removes and
      `parseFloat` skips. */
  predicate IsWhitespace(c: char) {
    || c == '\t' || c == '\n' || c == '\U{000B}' || c == '\U{000C}' || c == '\r'
    || c == ' ' || c == '\U{00A0}' || c == '\U{1680}'
    || ('\U{2000}' <= c <= '\U{200A}')
    || c == '\U{2028}' || c == '\U{2029}' || c == '\U{202F}' || c == '\U{205F}'
    || c == '\U{3000}' || c == '\U{FEFF}'
  }

  predicate AllWhitespace(s: string) {
    forall i :: 0 <= i < |s| ==> IsWhitespace(s[i])
  }

  /** True of a string with no whitespace at either end. */
  predicate Trimmed(t: string) {
    t == [] || (!IsWhitespace(t[0]) && !IsWhitespace(t[|t| - 1]))
  }

  /** Cutting `s[..i]` and `s[j..]` off `s` removes exactly its whitespace
      at both ends. */
  predicate TrimsAt(s: string, i: nat, j: nat) {
    i <= j <= |s| && AllWhitespace(s[..i]) && AllWhitespace(s[j..]) && Trimmed(s[i..j])
  }

  /** `t` is what is left of `s` once the whitespace at both ends is cut off. */
  ghost predicate IsTrimOf(t: string, s: string) {
    exists i: nat, j: nat :: TrimsAt(s, i, j) && t == s[i..j]
  }

  /** The number of whitespace characters `s` starts with. */
  function LeadingWhitespace(s: string): (k: nat)
    ensures k <= |s|
    ensures AllWhitespace(s[..k])
    ensures k < |s| ==> !IsWhitespace(s[k])
  {
    if |s| == 0 || !IsWhitespace(s[0]) then 0
    else
      var k' := LeadingWhitespace(s[1..]);
      assert s[1..][..k'] == s[1..k' + 1];
      1 + k'
  }

  /** The number of whitespace characters `s` ends with. */
  function TrailingWhitespace(s: string): (k: nat)
    ensures k <= |s|
    ensures AllWhitespace(s[|s| - k..])
    ensures k < |s| ==> !IsWhitespace(s[|s| - 1 - k])
  {
    if |s| == 0 || !IsWhitespace(s[|s| - 1]) then 0
    else
      var k' := TrailingWhitespace(s[..|s| - 1]);
      assert s[..|s| - 1][|s| - 1 - k'..] == s[|s| - 1 - k'..|s| - 1];
      1 + k'
  }

  /** `s` without its leading whitespace (what `parseFloat` skips). */
  function TrimStart(s: string): (t: string)
    ensures t == [] || !IsWhitespace(t[0])
    ensures exists i :: 0 <= i <= |s| && t == s[i..] && AllWhitespace(s[..i])
  {
    var k := LeadingWhitespace(s);
    s[k..]
  }

  /** JavaScript's `String.prototype.trim`. */
  function Trim(s: string): (t: string)
    ensures IsTrimOf(t, s)
  {
    var a := LeadingWhitespace(s);
    var rest := s[a..];
    var b := TrailingWhitespace(rest);
    var t := rest[..|rest| - b];
    var j := a + |rest| - b;
    assert t == s[a..j];
    assert s[j..] == rest[|rest| - b..];
    assert Trimmed(t) by {
      if t != [] {
        assert b < |rest|;
        assert t[|t| - 1] == rest[|rest| - 1 - b];
      }
    }
    assert TrimsAt(s, a, j);
    t
  }

  /** A non-blank character lies at or after the end of a blank prefix. */
  lemma NonBlankAfterBlankPrefix(s: string, i: nat, m: nat)
    requires i <= |s| && m < |s| && AllWhitespace(s[..i]) && !IsWhitespace(s[m])
    ensures i <= m
  {
  }

  /** A non-blank character lies before the start of a blank suffix. */
  lemma NonBlankBeforeBlankSuffix(s: string, j: nat, m: nat)
    requires j <= |s| && m < |s| && AllWhitespace(s[j..]) && !IsWhitespace(s[m])
    ensures m < j
  {
  }

  /** Two ways of cutting whitespace off the ends of `s` leave the same string. */
  lemma TrimsAtUnique(s: string, i1: nat, j1: nat, i2: nat, j2: nat)
    requires TrimsAt(s, i1, j1) && TrimsAt(s, i2, j2)
    ensures s[i1..j1] == s[i2..j2]
  {
    // A non-blank end of one trimming cannot lie in the other's cut-off margins.
    if i1 < j1 {
      assert s[i1..j1][0] == s[i1] && s[i1..j1][j1 - i1 - 1] == s[j1 - 1];
      NonBlankAfterBlankPrefix(s, i2, i1);
      NonBlankBeforeBlankSuffix(s, j2, j1 - 1);
    }
    if i2 < j2 {
      assert s[i2..j2][0] == s[i2] && s[i2..j2][j2 - i2 - 1] == s[j2 - 1];
      NonBlankAfterBlankPrefix(s, i1, i2);
      NonBlankBeforeBlankSuffix(s, j1, j2 - 1);
    }
  }

  /** The trimming of a string is determined by the string. */
  lemma TrimOfUnique(s: string, t1: string, t2: string)
    requires IsTrimOf(t1, s) && IsTrimOf(t2, s)
    ensures t1 == t2
  {
    var i1: nat, j1: nat :| TrimsAt(s, i1, j1) && t1 == s[i1..j1];
    var i2: nat, j2: nat :| TrimsAt(s, i2, j2) && t2 == s[i2..j2];
    TrimsAtUnique(s, i1, j1, i2, j2);
  }

  /** `Trim` returns exactly the string left once the whitespace at both ends
      is cut off, and nothing else does. */
  lemma TrimCharacterization(s: string, t: string)
    ensures IsTrimOf(t, s) <==> t == Trim(s)
  {
    if IsTrimOf(t, s) {
      TrimOfUnique(s, t, Trim(s));
    }
  }

  /** Trimming twice is trimming once. */
  lemma TrimIdempotent(s: string)
    ensures Trim(Trim(s)) == Trim(s)
  {
    var t := Trim(s);
    var i: nat, j: nat :| TrimsAt(s, i, j) && t == s[i..j];
    assert t[0..|t|] == t && t[..0] == [] && t[|t|..] == [];
    assert TrimsAt(t, 0, |t|);
    TrimOfUnique(t, t, Trim(t));
  }

  /** Whitespace put in front of a string joins its left margin. */
  lemma TrimsAtPrepend(p: string, v: string, i: nat, j: nat)
    requires AllWhitespace(p) && TrimsAt(v, i, j)
    ensures TrimsAt(p + v, |p| + i, |p| + j) && (p + v)[|p| + i..|p| + j] == v[i..j]
  {
    var s := p + v;
    assert s[..|p| + i] == p + v[..i];
    assert s[|p| + j..] == v[j..];
    assert s[|p| + i..|p| + j] == v[i..j];
  }

  /** Whitespace put after a string joins its right margin. */
  lemma TrimsAtAppend(v: string, q: string, i: nat, j: nat)
    requires AllWhitespace(q) && TrimsAt(v, i, j)
    ensures TrimsAt(v + q, i, j) && (v + q)[i..j] == v[i..j]
  {
    var s := v + q;
    assert s[..i] == v[..i];
    assert s[j..] == v[j..] + q;
    assert s[i..j] == v[i..j];
  }

  /** Whitespace in front of a string does not change its trimming. */
  lemma TrimIgnoresPrefix(p: string, v: string)
    requires AllWhitespace(p)
    ensures Trim(p + v) == Trim(v)
  {
    var w := Trim(v);
    var i: nat, j: nat :| TrimsAt(v, i, j) && w == v[i..j];
    TrimsAtPrepend(p, v, i, j);
    TrimAt(p + v, |p| + i, |p| + j);
  }

  /** Whitespace after a string does not change its trimming. */
  lemma TrimIgnoresSuffix(v: string, q: string)
    requires AllWhitespace(q)
    ensures Trim(v + q) == Trim(v)
  {
    var w := Trim(v);
    var i: nat, j: nat :| TrimsAt(v, i, j) && w == v[i..j];
    TrimsAtAppend(v, q, i, j);
    TrimAt(v + q, i, j);
  }

  /** Surrounding whitespace never changes the result of `trim`. */
  lemma TrimIgnoresPadding(p: string, v: string, q: string)
    requires AllWhitespace(p) && AllWhitespace(q)
    ensures Trim(p + v + q) == Trim(v)
  {
    TrimIgnoresSuffix(p + v, q);
    TrimIgnoresPrefix(p, v);
  }

  /** Any cut that removes exactly the whitespace at both ends gives `Trim`. */
  lemma TrimAt(s: string, i: nat, j: nat)
    requires TrimsAt(s, i, j)
    ensures Trim(s) == s[i..j]
  {
    var t := Trim(s);
    var i': nat, j': nat :| TrimsAt(s, i', j') && t == s[i'..j'];
    TrimsAtUnique(s, i, j, i', j');
  }

  /** A string trims to nothing exactly when it is all whitespace. */
  lemma TrimEmptyIff(s: string)
    ensures Trim(s) == [] <==> AllWhitespace(s)
  {
    if AllWhitespace(s) {
      assert s[..0] == [] && s[0..0] == [] && s[0..] == s;
      assert TrimsAt(s, 0, 0);
      TrimOfUnique(s, [], Trim(s));
    }
  }

  /** A string without whitespace at its ends is its own trimming. */
  lemma TrimOfTrimmed(s: string)
    requires Trimmed(s)
    ensures Trim(s) == s
  {
    assert s[0..|s|] == s && s[..0] == [] && s[|s|..] == [];
    assert TrimsAt(s, 0, |s|);
    TrimOfUnique(s, s, Trim(s));
  }

  /** The UTF-16 code units JavaScript stores for one code point. */
  function Utf16Units(c: char): nat {
    if c as int > 0xFFFF then 2 else 1
  }

  /** JavaScript's `.length`: the number of UTF-16 code units of `s`. A code
      point above U+FFFF is a surrogate pair and counts twice. */
  function Utf16Length(s: string): (n: nat)
    ensures |s| <= n <= 2 * |s|
  {
    if s == [] then 0 else Utf16Units(s[0]) + Utf16Length(s[1..])
  }

  /** The code-unit length equals the number of characters exactly when no
      character lies above U+FFFF. */
  lemma {:induction false} Utf16LengthIsCharCount(s: string)
    ensures Utf16Length(s) == |s| <==> forall i :: 0 <= i < |s| ==> s[i] as int <= 0xFFFF
  {
    if s != [] {
      Utf16LengthIsCharCount(s[1..]);
      assert forall i :: 1 <= i < |s| ==> s[i] == s[1..][i - 1];
    }
  }

  /** A single code point takes two code units above U+FFFF and one
      otherwise. */
  lemma Utf16LengthOfChar(c: char)
    ensures Utf16Length([c]) == if c as int > 0xFFFF then 2 else 1
  {
    assert [c][1..] == [];
  }

  /** The code-unit length of a concatenation is the sum of the lengths;
      with `Utf16LengthOfChar` this fixes the length of every string. */
  lemma {:induction false} Utf16LengthAppend(a: string, b: string)
    ensures Utf16Length(a + b) == Utf16Length(a) + Utf16Length(b)
  {
    if a != [] {
      assert (a + b)[1..] == a[1..] + b;
      Utf16LengthAppend(a[1..], b);
    } else {
      assert a + b == b;
    }
  }

  /** A string of Basic Multilingual Plane characters is as long in UTF-16
      code units as in characters. */
  lemma {:induction false} Utf16LengthOfBmp(s: string)
    requires forall i :: 0 <= i < |s| ==> s[i] as int <= 0xFFFF
    ensures Utf16Length(s) == |s|
  {
    if s != [] {
      Utf16LengthOfBmp(s[1..]);
    }
  }

  /** The character classes the password rules test for. */
  datatype CharClass = LowerLatin | UpperLatin | AsciiDigit | Special

  /** The twenty characters of the class `[!@#$%^&*(),.?":{}|<>]`. */
  const SpecialCharacters: string := "!@#$%^&*(),.?\":{}|<>"

  predicate InClass(c: char, k: CharClass) {
    match k
    case LowerLatin => 'a' <= c <= 'z'
    case UpperLatin => 'A' <= c <= 'Z'
    case AsciiDigit => '0' <= c <= '9'
    case Special => c in SpecialCharacters
  }

  /** Where the search of `/[...]/` for a one-class pattern stops: the
      index of the first character of `s` in the class, or `|s|` when there
      is none. */
  function FirstMatch(s: string, k: CharClass): (i: nat)
    ensures i <= |s|
    ensures i < |s| ==> InClass(s[i], k)
    ensures forall j :: 0 <= j < i ==> !InClass(s[j], k)
  {
    if s == [] then 0
    else if InClass(s[0], k) then 0
    else
      var i' := FirstMatch(s[1..], k);
      assert forall j :: 1 <= j < i' + 1 ==> s[j] == s[1..][j - 1];
      1 + i'
  }

  /** `/[...]/.test(s)` for a one-class pattern: some character of `s` is in
      the class. The classes hold only Basic Multilingual Plane characters,
      so testing code points finds the same matches as testing UTF-16 code
      units would. */
  predicate Contains(s: string, k: CharClass) {
    exists i :: 0 <= i < |s| && InClass(s[i], k)
  }

  /** `test` is true exactly when the search finds a match. */
  lemma ContainsIffFirstMatch(s: string, k: CharClass)
    ensures Contains(s, k) <==> FirstMatch(s, k) < |s|
  {
  }
}
