/**
 * Wrappers and the handful of Python 2 string operations that the node
 * tree and the table widget rely on: substring test (`a in b`),
 * `replace`, `strip`, the slice `s[0:w]` and `join`.
 */
module Common {

  datatype Option<+T> = None | Some(value: T)

  datatype Result<+T, +E> = Success(value: T) | Failure(error: E)

  /** `p` is a prefix of `s`. */
  predicate IsPrefix(p: string, s: string) {
    |p| <= |s| && s[..|p|] == p
  }

  /** Python's `needle in hay` on strings: `needle` occurs at some position of `hay`. */
  predicate IsSubstring(needle: string, hay: string)
    decreases |hay|
  {
    IsPrefix(needle, hay) || (|hay| > 0 && IsSubstring(needle, hay[1..]))
  }

  /** The empty string occurs in every string. */
  lemma EmptyIsSubstring(hay: string)
    ensures IsSubstring("", hay)
  {
    assert IsPrefix("", hay);
  }

  /** `s.replace(c, "")`: every occurrence of `c` removed. */
  function RemoveChar(s: string, c: char): (r: string)
    ensures c !in r
    ensures |r| <= |s|
    ensures forall x :: x in r ==> x in s
  {
    if s == [] then []
    else if s[0] == c then RemoveChar(s[1..], c)
    else [s[0]] + RemoveChar(s[1..], c)
  }

  /** Removing `c` distributes over concatenation. */
  lemma {:induction false} RemoveCharAppend(a: string, b: string, c: char)
    ensures RemoveChar(a + b, c) == RemoveChar(a, c) + RemoveChar(b, c)
  {
    if a == [] {
      assert a + b == b;
    } else {
      assert (a + b)[1..] == a[1..] + b;
      RemoveCharAppend(a[1..], b, c);
    }
  }

  /** A string without `c` is left alone. */
  lemma {:induction false} RemoveCharAbsent(s: string, c: char)
    requires c !in s
    ensures RemoveChar(s, c) == s
  {
    if s != [] {
      RemoveCharAbsent(s[1..], c);
    }
  }

  /** `s.replace(a, b)` for one-character `a` and `b`. */
  function ReplaceChar(s: string, a: char, b: char): (r: string)
    ensures |r| == |s|
    ensures forall i :: 0 <= i < |s| ==> r[i] == (if s[i] == a then b else s[i])
  {
    if s == [] then []
    else [if s[0] == a then b else s[0]] + ReplaceChar(s[1..], a, b)
  }

  /**
   * The characters Python 2's `unicode.strip()` removes: the ASCII controls
   * tab to carriage return and 0x1C-0x1F, the blank, and the Unicode
   * separators NEL, no-break space, ogham space mark, Mongolian vowel
   * separator, the spaces U+2000-U+200A, line and paragraph separators,
   * narrow no-break space, medium mathematical space and ideographic space.
   */
  predicate IsSpace(c: char) {
    var n := c as int;
    (0x09 <= n <= 0x0D) || (0x1C <= n <= 0x20) || n == 0x85 || n == 0xA0 || n == 0x1680 || n == 0x180E
    || (0x2000 <= n <= 0x200A) || n == 0x2028 || n == 0x2029 || n == 0x202F || n == 0x205F || n == 0x3000
  }

  const Whitespace: seq<char> := [
    '\t', '\n', '\U{000B}', '\U{000C}', '\r', '\U{001C}', '\U{001D}', '\U{001E}', '\U{001F}', ' ',
    '\U{0085}', '\U{00A0}', '\U{1680}', '\U{180E}',
    '\U{2000}', '\U{2001}', '\U{2002}', '\U{2003}', '\U{2004}', '\U{2005}',
    '\U{2006}', '\U{2007}', '\U{2008}', '\U{2009}', '\U{200A}',
    '\U{2028}', '\U{2029}', '\U{202F}', '\U{205F}', '\U{3000}']

  /** `c` is one of the characters of `cs`. */
  predicate OneOf(c: char, cs: seq<char>) {
    cs != [] && (cs[0] == c || OneOf(c, cs[1..]))
  }

  /** The number of blanks `s` starts with: all of them blank, and the next character (if any) not. */
  function LeadingBlanks(s: string): (k: nat)
    ensures k <= |s|
    ensures forall i | 0 <= i < k :: IsSpace(s[i])
    ensures k < |s| ==> !IsSpace(s[k])
  {
    if s != [] && IsSpace(s[0]) then
      var k := 1 + LeadingBlanks(s[1..]);
      assert forall i | 1 <= i < |s| :: s[i] == s[1..][i - 1];
      k
    else 0
  }

  /** The number of blanks `s` ends with: all of them blank, and the character before them (if any) not. */
  function TrailingBlanks(s: string): (k: nat)
    ensures k <= |s|
    ensures forall i | |s| - k <= i < |s| :: IsSpace(s[i])
    ensures k < |s| ==> !IsSpace(s[|s| - k - 1])
  {
    if s != [] && IsSpace(s[|s| - 1]) then
      var k := 1 + TrailingBlanks(s[..|s| - 1]);
      assert forall i | 0 <= i < |s| - 1 :: s[i] == s[..|s| - 1][i];
      k
    else 0
  }

  /**
   * `s.strip()`: empty exactly when every character of `s` is blank;
   * otherwise the slice of `s` between its leading and its trailing
   * blanks, which starts and ends with a non-blank character.
   */
  function Strip(s: string): (r: string)
    ensures r == [] <==> forall i | 0 <= i < |s| :: IsSpace(s[i])
    ensures r != [] ==> LeadingBlanks(s) < |s| - TrailingBlanks(s) && r == s[LeadingBlanks(s)..|s| - TrailingBlanks(s)]
    ensures r != [] ==> !IsSpace(r[0]) && !IsSpace(r[|r| - 1])
    ensures |r| <= |s|
  {
    var lo := LeadingBlanks(s);
    var hi := |s| - TrailingBlanks(s);
    if lo < hi then s[lo..hi] else []
  }

  /** A string with no blank at either end is its own strip. */
  lemma StripUnchanged(s: string)
    requires s != [] && !IsSpace(s[0]) && !IsSpace(s[|s| - 1])
    ensures Strip(s) == s
  {
    assert LeadingBlanks(s) == 0;
    assert TrailingBlanks(s) == 0;
    assert s[0..|s|] == s;
  }

  /**
   * The length Python's `len` gives a unicode string on a narrow (UTF-16)
   * build, as the screen reader uses: a character above U+FFFF is a
   * surrogate pair and counts twice.
   */
  function Utf16Len(s: string): (r: nat)
    ensures |s| <= r <= 2 * |s|
  {
    if s == [] then 0 else (if s[0] as int > 0xFFFF then 2 else 1) + Utf16Len(s[1..])
  }

  /** The UTF-16 length of a concatenation is the sum of the lengths. */
  lemma {:induction false} Utf16LenAppend(a: string, b: string)
    ensures Utf16Len(a + b) == Utf16Len(a) + Utf16Len(b)
  {
    if a != [] {
      assert (a + b)[0] == a[0] && (a + b)[1..] == a[1..] + b;
      Utf16LenAppend(a[1..], b);
    } else {
      assert a + b == b;
    }
  }

  /** A string that starts with a non-blank `p` still starts with `p` once stripped, provided `p` also ends in a non-blank. */
  lemma StripKeepsPrefix(p: string, rest: string)
    requires p != [] && !IsSpace(p[0]) && !IsSpace(p[|p| - 1])
    ensures IsPrefix(p, Strip(p + rest))
  {
    var s := p + rest;
    assert s[0] == p[0] && s[|p| - 1] == p[|p| - 1];
    assert LeadingBlanks(s) == 0;
    assert |s| - TrailingBlanks(s) >= |p|;
    assert Strip(s)[..|p|] == p;
  }

  function Min(a: int, b: int): int { if a <= b then a else b }

  function Max(a: int, b: int): int { if a >= b then a else b }

  /** Python's slice `s[0:w]`: a negative `w` counts from the end, and out-of-range bounds are clamped. */
  function SliceTo(s: string, w: int): (r: string)
    ensures IsPrefix(r, s)
    ensures w >= 0 ==> |r| == Min(w, |s|)
    ensures w < 0 ==> |r| == Max(|s| + w, 0)
  {
    if w >= 0 then s[..Min(w, |s|)] else s[..Max(|s| + w, 0)]
  }

  /** `sep.join(parts)`. */
  function Join(sep: string, parts: seq<string>): string {
    if parts == [] then ""
    else if |parts| == 1 then parts[0]
    else parts[0] + sep + Join(sep, parts[1..])
  }

  /** A string of `n` blanks. */
  function Spaces(n: nat): (r: string)
    ensures |r| == n && forall i :: 0 <= i < n ==> r[i] == ' '
  {
    if n == 0 then "" else Spaces(n - 1) + " "
  }
}
