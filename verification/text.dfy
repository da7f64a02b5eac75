/**
 * The string operations the plate cleaning relies on: Python's `str.strip()`
 * (with no argument) and `str.upper()`.
 */
module Text {

  /** Python's `str.isspace()` for one character: the code points whose
      bidirectional class is WS, B or S, or whose category is Zs. */
  predicate IsSpace(c: char) {
    var n := c as int;
    || (0x09 <= n <= 0x0D)
    || (0x1C <= n <= 0x20)
    || n == 0x85 || n == 0xA0 || n == 0x1680
    || (0x2000 <= n <= 0x200A)
    || n == 0x2028 || n == 0x2029 || n == 0x202F || n == 0x205F || n == 0x3000
  }

  predicate AllSpace(s: string) {
    forall k :: 0 <= k < |s| ==> IsSpace(s[k])
  }

  /** Every character of `s` at a position in `[lo, hi)` is whitespace. */
  predicate SpaceIn(s: string, lo: nat, hi: nat)
    requires lo <= hi <= |s|
  {
    forall k :: lo <= k < hi ==> IsSpace(s[k])
  }

  /** Neither end of `r` is whitespace. */
  predicate Trimmed(r: string) {
    r == [] || (!IsSpace(r[0]) && !IsSpace(r[|r| - 1]))
  }

  /** Reference definition of stripping: `r` is the slice `s[i..j]` left
      once the whitespace before `i` and from `j` on is removed, and `r`
      itself has no whitespace at either end. */
  ghost predicate IsStripOf(s: string, r: string) {
    exists i, j :: 0 <= i <= j <= |s| && r == s[i..j] && SpaceIn(s, 0, i) && SpaceIn(s, j, |s|) && Trimmed(r)
  }

  /** Number of whitespace characters at the start of `s`. */
  function LeadingSpace(s: string): (n: nat)
    ensures n <= |s|
    ensures forall k :: 0 <= k < n ==> IsSpace(s[k])
    ensures n < |s| ==> !IsSpace(s[n])
  {
    if |s| == 0 || !IsSpace(s[0]) then 0 else 1 + LeadingSpace(s[1..])
  }

  /** Number of whitespace characters at the end of `s`. */
  function TrailingSpace(s: string): (n: nat)
    ensures n <= |s|
    ensures forall k :: |s| - n <= k < |s| ==> IsSpace(s[k])
    ensures n < |s| ==> !IsSpace(s[|s| - n - 1])
  {
    if |s| == 0 || !IsSpace(s[|s| - 1]) then 0 else 1 + TrailingSpace(s[..|s| - 1])
  }

  /** Python's `s.strip()`: leading and trailing whitespace removed. */
  function Strip(s: string): (r: string)
    ensures |r| <= |s|
    ensures Trimmed(r)
  {
    var i := LeadingSpace(s);
    var t := s[i..];
    t[..|t| - TrailingSpace(t)]
  }

  /** `Strip` meets the reference definition. */
  lemma StripIsStripOf(s: string)
    ensures IsStripOf(s, Strip(s))
  {
    var i := LeadingSpace(s);
    var t := s[i..];
    var n := TrailingSpace(t);
    var j := i + |t| - n;
    assert Strip(s) == s[i..j];
    assert SpaceIn(s, j, |s|) by {
      forall k | j <= k < |s| ensures IsSpace(s[k]) {
        assert s[k] == t[k - i];
      }
    }
  }

  /** A whitespace prefix followed by a non-space character (or the end)
      fixes `LeadingSpace`. */
  lemma LeadingSpaceIs(s: string, i: nat)
    requires i <= |s| && SpaceIn(s, 0, i)
    requires i < |s| ==> !IsSpace(s[i])
    ensures LeadingSpace(s) == i
  {
  }

  /** A whitespace suffix preceded by a non-space character (or the start)
      fixes `TrailingSpace`. */
  lemma TrailingSpaceIs(s: string, j: nat)
    requires j <= |s| && SpaceIn(s, j, |s|)
    requires 0 < j ==> !IsSpace(s[j - 1])
    ensures TrailingSpace(s) == |s| - j
  {
  }

  /** The reference definition admits only one result, so `Strip` is
      exactly Python's stripping. */
  lemma StripOfIsUnique(s: string, r: string)
    requires IsStripOf(s, r)
    ensures r == Strip(s)
  {
    var i, j :| 0 <= i <= j <= |s| && r == s[i..j] && SpaceIn(s, 0, i) && SpaceIn(s, j, |s|) && Trimmed(r);
    if i == j {
      assert SpaceIn(s, 0, |s|) by {
        forall k | 0 <= k < |s| ensures IsSpace(s[k]) {
          if k < i {
            assert SpaceIn(s, 0, i);
          } else {
            assert SpaceIn(s, j, |s|);
          }
        }
      }
      LeadingSpaceIs(s, |s|);
    } else {
      assert s[i] == r[0] && s[j - 1] == r[|r| - 1];
      LeadingSpaceIs(s, i);
      StripAt(s, i, j);
    }
  }

  /** Once the leading whitespace is known to end at `i`, a non-space
      character at `j - 1` followed by whitespace fixes the result. */
  lemma StripAt(s: string, i: nat, j: nat)
    requires i < j <= |s| && LeadingSpace(s) == i
    requires !IsSpace(s[j - 1]) && SpaceIn(s, j, |s|)
    ensures Strip(s) == s[i..j]
  {
    var t := s[i..];
    assert SpaceIn(t, j - i, |t|) by {
      forall k | j - i <= k < |t| ensures IsSpace(t[k]) {
        assert t[k] == s[k + i];
      }
    }
    assert t[j - i - 1] == s[j - 1];
    TrailingSpaceIs(t, j - i);
  }

  /** `Strip` of a string that is already trimmed leaves it alone. */
  lemma StripTrimmed(r: string)
    requires Trimmed(r)
    ensures Strip(r) == r
  {
    assert r == r[0..|r|];
    assert IsStripOf(r, r);
    StripOfIsUnique(r, r);
  }

  /** Whitespace padding on either side does not change what `Strip` keeps. */
  lemma StripIgnoresPadding(pad1: string, s: string, pad2: string)
    requires AllSpace(pad1) && AllSpace(pad2)
    ensures Strip(pad1 + s + pad2) == Strip(s)
  {
    StripIsStripOf(s);
    var i, j :| 0 <= i <= j <= |s| && Strip(s) == s[i..j] && SpaceIn(s, 0, i) && SpaceIn(s, j, |s|) && Trimmed(Strip(s));
    PaddedStripOf(pad1, s, pad2, i, j);
    StripOfIsUnique(pad1 + s + pad2, Strip(s));
  }

  /** The strip witness of `s` shifted past `pad1` is a strip witness of the padded string. */
  lemma PaddedStripOf(pad1: string, s: string, pad2: string, i: nat, j: nat)
    requires AllSpace(pad1) && AllSpace(pad2)
    requires i <= j <= |s| && SpaceIn(s, 0, i) && SpaceIn(s, j, |s|) && Trimmed(s[i..j])
    ensures IsStripOf(pad1 + s + pad2, s[i..j])
  {
    var u := pad1 + s + pad2;
    var i', j' := |pad1| + i, |pad1| + j;
    assert forall k :: 0 <= k < |pad1| ==> u[k] == pad1[k];
    assert forall k :: |pad1| <= k < |pad1| + |s| ==> u[k] == s[k - |pad1|];
    assert forall k :: |pad1| + |s| <= k < |u| ==> u[k] == pad2[k - |pad1| - |s|];
    assert u[i'..j'] == s[i..j];
    assert SpaceIn(u, 0, i');
    assert SpaceIn(u, j', |u|);
  }

  predicate IsLower(c: char) {
    'a' <= c <= 'z'
  }

  /** Upper-case mapping of one character, for the ASCII letters. */
  function UpperChar(c: char): (u: char)
    ensures IsSpace(u) <==> IsSpace(c)
    ensures !IsLower(u)
    ensures !IsLower(c) ==> u == c
  {
    if IsLower(c) then (c as int - 32) as char else c
  }

  /** Python's `s.upper()`, restricted to ASCII letters. */
  function Upper(s: string): (r: string)
    ensures |r| == |s|
    ensures forall k :: 0 <= k < |s| ==> r[k] == UpperChar(s[k])
  {
    seq(|s|, k requires 0 <= k < |s| => UpperChar(s[k]))
  }

  predicate NoLower(s: string) {
    forall k :: 0 <= k < |s| ==> !IsLower(s[k])
  }

  /** Upper-casing leaves no lower-case letter, keeps a trimmed string
      trimmed and is idempotent. */
  lemma UpperFacts(s: string)
    ensures NoLower(Upper(s))
    ensures Trimmed(s) ==> Trimmed(Upper(s))
    ensures NoLower(s) ==> Upper(s) == s
    ensures Upper(Upper(s)) == Upper(s)
  {
  }
}
