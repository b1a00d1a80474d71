/** The two Python string operations the scraper applies to element text:
    `str.strip()` with no argument, and the slice `s[:-1]`.
 */
module PyStr {

  /** Python's `str.isspace()` for one character: the characters that
      `str.strip()` with no argument removes. */
  predicate IsSpace(c: char) {
    c in SpaceChars
  }

  const SpaceChars: set<char> := {
    ' ', '\t', '\n', '\r', '\U{000B}', '\U{000C}',
    '\U{001C}', '\U{001D}', '\U{001E}', '\U{001F}',
    '\U{0085}', '\U{00A0}', '\U{1680}',
    '\U{2000}', '\U{2001}', '\U{2002}', '\U{2003}', '\U{2004}', '\U{2005}',
    '\U{2006}', '\U{2007}', '\U{2008}', '\U{2009}', '\U{200A}',
    '\U{2028}', '\U{2029}', '\U{202F}', '\U{205F}', '\U{3000}'
  }

  predicate AllSpace(s: string) {
    forall i :: 0 <= i < |s| ==> IsSpace(s[i])
  }

  /** Neither the first nor the last character is whitespace. */
  predicate NoEdgeSpace(s: string) {
    s == [] || (!IsSpace(s[0]) && !IsSpace(s[|s| - 1]))
  }

  /** `s.lstrip()`: drops the leading whitespace. */
  function LStrip(s: string): string
  {
    if s != [] && IsSpace(s[0]) then LStrip(s[1..]) else s
  }

  /** `s.rstrip()`: drops the trailing whitespace. */
  function RStrip(s: string): string
  {
    if s != [] && IsSpace(s[|s| - 1]) then RStrip(s[..|s| - 1]) else s
  }

  /** `lstrip()` removes a whitespace prefix, and stops at the first other character. */
  lemma {:induction false} LStripShape(s: string)
    ensures |LStrip(s)| <= |s| && LStrip(s) == s[|s| - |LStrip(s)|..]
    ensures AllSpace(s[..|s| - |LStrip(s)|])
    ensures LStrip(s) == [] || !IsSpace(LStrip(s)[0])
  {
    if s != [] && IsSpace(s[0]) {
      LStripShape(s[1..]);
      var k := |s| - |LStrip(s)|;
      assert s[..k] == [s[0]] + s[1..][..k - 1];
    }
  }

  /** `rstrip()` removes a whitespace suffix, and stops at the last other character. */
  lemma {:induction false} RStripShape(s: string)
    ensures |RStrip(s)| <= |s| && RStrip(s) == s[..|RStrip(s)|]
    ensures AllSpace(s[|RStrip(s)|..])
    ensures RStrip(s) == [] || !IsSpace(RStrip(s)[|RStrip(s)| - 1])
  {
    if s != [] && IsSpace(s[|s| - 1]) {
      var init := s[..|s| - 1];
      RStripShape(init);
      var k := |RStrip(s)|;
      assert s[k..] == init[k..] + [s[|s| - 1]];
    }
  }

  /** `s.strip()`: the text with its whitespace border removed on both sides. */
  function Strip(s: string): (r: string)
    ensures NoEdgeSpace(r)
  {
    LStripShape(s);
    RStripShape(LStrip(s));
    var r := RStrip(LStrip(s));
    assert r != [] ==> r[0] == LStrip(s)[0];
    r
  }

  lemma {:induction false} LStripOfSpacePrefix(a: string, m: string)
    requires AllSpace(a) && (m == [] || !IsSpace(m[0]))
    ensures LStrip(a + m) == m
    decreases |a|
  {
    if a == [] {
      assert a + m == m;
    } else {
      assert (a + m)[1..] == a[1..] + m;
      LStripOfSpacePrefix(a[1..], m);
    }
  }

  lemma {:induction false} RStripOfSpaceSuffix(m: string, b: string)
    requires AllSpace(b) && (m == [] || !IsSpace(m[|m| - 1]))
    ensures RStrip(m + b) == m
    decreases |b|
  {
    if b == [] {
      assert m + b == m;
    } else {
      assert (m + b)[..|m + b| - 1] == m + b[..|b| - 1];
      RStripOfSpaceSuffix(m, b[..|b| - 1]);
    }
  }

  /** `strip()` removes exactly the whitespace border: the input is the
      result with only whitespace added before and after it. */
  lemma StripBorder(s: string)
    ensures exists i, j :: 0 <= i <= j <= |s| && Strip(s) == s[i..j] && AllSpace(s[..i]) && AllSpace(s[j..])
  {
    var l := LStrip(s);
    LStripShape(s);
    RStripShape(l);
    var i := |s| - |l|;
    var j := i + |Strip(s)|;
    assert Strip(s) == s[i..j];
    assert s[j..] == l[|Strip(s)|..];
  }

  /** The whitespace border is unique: whatever whitespace surrounds a text
      with no whitespace at its edges, `strip()` returns exactly that text. */
  lemma StripUnique(a: string, m: string, b: string)
    requires AllSpace(a) && AllSpace(b) && NoEdgeSpace(m)
    ensures Strip(a + m + b) == m
  {
    if m == [] {
      assert a + m + b == a + b;
      LStripOfSpacePrefix(a + b, []);
      assert a + b + [] == a + b;
    } else {
      assert a + m + b == a + (m + b);
      LStripOfSpacePrefix(a, m + b);
      RStripOfSpaceSuffix(m, b);
    }
  }

  /** A text without whitespace at its edges is left as it is. */
  lemma StripTrimmed(m: string)
    requires NoEdgeSpace(m)
    ensures Strip(m) == m
  {
    assert [] + m + [] == m;
    StripUnique([], m, []);
  }

  /** Stripping twice is stripping once. */
  lemma StripIdempotent(s: string)
    ensures Strip(Strip(s)) == Strip(s)
  {
    StripTrimmed(Strip(s));
  }

  /** The stop bound of `s[:stop]` after Python clamps it: a negative stop
      counts back from the end, and the bound is kept inside `0..len`. */
  function SliceStop(len: nat, stop: int): (k: nat)
    ensures k <= len
  {
    if stop < 0 then (if len + stop < 0 then 0 else len + stop)
    else if stop > len then len
    else stop
  }

  /** Python's `s[:stop]`. */
  function SliceTo(s: string, stop: int): string {
    s[..SliceStop(|s|, stop)]
  }

  /** Python's `s[:-1]`: the text without its last character; the empty text
      stays empty. */
  function DropLast(s: string): (r: string)
    ensures s == [] ==> r == []
    ensures s != [] ==> r + [s[|s| - 1]] == s
  {
    SliceTo(s, -1)
  }
}
