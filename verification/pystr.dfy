/**
  The few Python string operations the converter relies on, with their
  Python meaning: `str.isspace` / `str.strip`, `in` on strings,
  `str.startswith`, `str.lower` (restricted to ASCII), `str(n)` for a
  natural number and `s.split(sep)[-1]`.
 */
module PyStr {

  /** Python's `str.isspace` for one character: the ASCII blanks, the
      information separators U+001C..U+001F and the Unicode spaces. */
  predicate IsSpace(c: char)
  {
    var k := c as int;
    || (9 <= k <= 13) || (0x1C <= k <= 0x20)
    || k == 0x85 || k == 0xA0 || k == 0x1680
    || (0x2000 <= k <= 0x200A) || k == 0x2028 || k == 0x2029
    || k == 0x202F || k == 0x205F || k == 0x3000
  }

  /** A string made of white space only (the empty string included). */
  predicate IsBlank(s: string)
  {
    forall i :: 0 <= i < |s| ==> IsSpace(s[i])
  }

  /** `s.lstrip()`: drop the white space at the front. */
  function StripLeft(s: string): string
  {
    if |s| > 0 && IsSpace(s[0]) then StripLeft(s[1..]) else s
  }

  /** `s.rstrip()`: drop the white space at the back. */
  function StripRight(s: string): string
  {
    if |s| > 0 && IsSpace(s[|s| - 1]) then StripRight(s[..|s| - 1]) else s
  }

  /** `s.strip()`. */
  function Strip(s: string): string
  {
    StripRight(StripLeft(s))
  }

  /** `lstrip` keeps the longest suffix that does not start with white space. */
  lemma {:induction false} StripLeftFacts(s: string)
    ensures var r := StripLeft(s);
            && |r| <= |s| && r == s[|s| - |r|..]
            && (r == [] || !IsSpace(r[0]))
            && IsBlank(s[..|s| - |r|])
    decreases |s|
  {
    if |s| > 0 && IsSpace(s[0]) {
      StripLeftFacts(s[1..]);
      var r := StripLeft(s);
      assert s[1..][..|s| - 1 - |r|] == s[1..|s| - |r|];
    }
  }

  /** `rstrip` keeps the longest prefix that does not end with white space. */
  lemma {:induction false} StripRightFacts(s: string)
    ensures var r := StripRight(s);
            && |r| <= |s| && r == s[..|r|]
            && (r == [] || !IsSpace(r[|r| - 1]))
            && IsBlank(s[|r|..])
    decreases |s|
  {
    if |s| > 0 && IsSpace(s[|s| - 1]) {
      var t := s[..|s| - 1];
      StripRightFacts(t);
      var r := StripRight(s);
      assert r == StripRight(t);
      assert r == t[..|r|] == s[..|r|];
      forall i | |r| <= i < |s|
        ensures IsSpace(s[i])
      {
        if i < |s| - 1 {
          assert s[i] == t[|r|..][i - |r|];
        }
      }
    }
  }

  /** Stripping leaves nothing exactly when the string is blank. */
  lemma StripEmptyIffBlank(s: string)
    ensures Strip(s) == [] <==> IsBlank(s)
  {
    StripLeftFacts(s);
    StripRightFacts(StripLeft(s));
  }

  /** Stripping a stripped string changes nothing. */
  lemma StripIdempotent(s: string)
    ensures Strip(Strip(s)) == Strip(s)
  {
    var l := StripLeft(s);
    var t := Strip(s);
    StripLeftFacts(s);
    StripRightFacts(l);
    if t != [] {
      assert t == l[..|t|];
      assert t[0] == l[0];
      assert StripLeft(t) == t;
      assert StripRight(t) == t;
    }
  }

  /** `s.startswith(prefix)`. */
  predicate StartsWith(s: string, prefix: string)
  {
    |prefix| <= |s| && s[..|prefix|] == prefix
  }

  /** `sub in s`: `sub` occurs in `s` at some position. */
  predicate Contains(s: string, sub: string)
    decreases |s|
  {
    StartsWith(s, sub) || (|s| > 0 && Contains(s[1..], sub))
  }

  /** `Contains` means what it says: an occurrence at some index. */
  lemma {:induction false} ContainsIffOccurs(s: string, sub: string)
    ensures Contains(s, sub) <==> exists i :: 0 <= i <= |s| - |sub| && s[i..][..|sub|] == sub
    decreases |s|
  {
    if StartsWith(s, sub) {
      assert s[0..][..|sub|] == sub;
    } else if |s| > 0 {
      ContainsIffOccurs(s[1..], sub);
      if Contains(s[1..], sub) {
        var i :| 0 <= i <= |s| - 1 - |sub| && s[1..][i..][..|sub|] == sub;
        assert s[i + 1..] == s[1..][i..];
      }
      if exists i :: 0 <= i <= |s| - |sub| && s[i..][..|sub|] == sub {
        var i :| 0 <= i <= |s| - |sub| && s[i..][..|sub|] == sub;
        assert i != 0;
        assert s[1..][i - 1..] == s[i..];
      }
    }
  }

  /** A string occurring in a suffix of `s` occurs in `s`. */
  lemma {:induction false} ContainsInSuffix(s: string, k: nat, sub: string)
    requires k <= |s| && Contains(s[k..], sub)
    ensures Contains(s, sub)
    decreases k
  {
    if k > 0 {
      assert s[1..][k - 1..] == s[k..];
      ContainsInSuffix(s[1..], k - 1, sub);
    }
  }

  /** `c.lower()` on the ASCII upper-case letters; every other character is kept. */
  function LowerChar(c: char): char
  {
    if 'A' <= c <= 'Z' then (c as int + 32) as char else c
  }

  /** `s.lower()`, ASCII only. */
  function Lower(s: string): (r: string)
    ensures |r| == |s|
    ensures forall i :: 0 <= i < |s| ==> r[i] == LowerChar(s[i])
  {
    if s == [] then [] else [LowerChar(s[0])] + Lower(s[1..])
  }

  /** Lower-casing twice is lower-casing once. */
  lemma LowerIdempotent(s: string)
    ensures Lower(Lower(s)) == Lower(s)
  {
    var r := Lower(s);
    assert forall i :: 0 <= i < |s| ==> Lower(r)[i] == r[i];
  }

  /** The decimal digit for `d`. */
  function Digit(d: nat): char
    requires d < 10
  {
    ('0' as int + d) as char
  }

  /** `str(n)` for a natural number: its decimal digits, most significant first. */
  function NatToString(n: nat): (r: string)
    ensures |r| >= 1
    ensures forall i :: 0 <= i < |r| ==> '0' <= r[i] <= '9'
    ensures n >= 10 ==> |r| >= 2
  {
    if n < 10 then [Digit(n)] else NatToString(n / 10) + [Digit(n % 10)]
  }

  /** The value of a string of decimal digits: `int(s)` for such a string. */
  function DecimalValue(s: string): nat
    requires forall i :: 0 <= i < |s| ==> '0' <= s[i] <= '9'
  {
    if s == [] then 0
    else 10 * DecimalValue(s[..|s| - 1]) + (s[|s| - 1] as int - '0' as int)
  }

  /** Reading back the digits of `str(n)` gives `n`. */
  lemma {:induction false} DecimalRoundTrip(n: nat)
    ensures DecimalValue(NatToString(n)) == n
  {
    if n >= 10 {
      var r := NatToString(n);
      assert r[..|r| - 1] == NatToString(n / 10);
      DecimalRoundTrip(n / 10);
    }
  }

  /** Distinct numbers print differently. */
  lemma NatToStringInjective(a: nat, b: nat)
    requires NatToString(a) == NatToString(b)
    ensures a == b
  {
    DecimalRoundTrip(a);
    DecimalRoundTrip(b);
  }

  /** `s.split(sep)[-1]`: what follows the last separator found by a
      left-to-right scan, or all of `s` when `sep` does not occur. */
  function LastPiece(s: string, sep: string): (r: string)
    requires |sep| > 0
    ensures |r| <= |s| && r == s[|s| - |r|..]
    ensures !Contains(r, sep)
    ensures !Contains(s, sep) ==> r == s
    decreases |s|
  {
    if StartsWith(s, sep) then LastPiece(s[|sep|..], sep)
    else if |s| > 0 && Contains(s[1..], sep) then LastPiece(s[1..], sep)
    else s
  }

  /** A slice of a suffix is a slice of the whole. */
  lemma SuffixSlice(s: string, k: nat, i: nat, j: nat)
    requires k <= |s| && i <= j <= |s| - k
    ensures s[k..][i..j] == s[k + i..k + j]
  {
  }

  /** Where `sep` occurs, the last piece is that of what follows the
      first character, or the first separator when `s` starts with it. */
  lemma LastPieceStep(s: string, sep: string)
    requires |sep| > 0 && Contains(s, sep)
    ensures var k := if StartsWith(s, sep) then |sep| else 1;
            && k <= |s| && LastPiece(s, sep) == LastPiece(s[k..], sep)
            && (!StartsWith(s, sep) ==> Contains(s[k..], sep))
  {
  }

  /** `r` is a suffix of `s` with an occurrence of `sep` just before it. */
  predicate SepBefore(s: string, sep: string, r: string)
  {
    |r| + |sep| <= |s| && s[|s| - |r| - |sep|..|s| - |r|] == sep
  }

  /** An occurrence of `sep` just before a suffix `r` of `s[k..]` is one
      just before the suffix `r` of `s`. */
  lemma SepBeforeSuffix(s: string, sep: string, k: nat, t: string, r: string)
    requires k <= |s| && t == s[k..] && SepBefore(t, sep, r)
    ensures SepBefore(s, sep, r)
  {
    SuffixSlice(s, k, |t| - |r| - |sep|, |t| - |r|);
  }

  /** When `sep` occurs, the last piece is preceded by an occurrence of it. */
  lemma {:induction false} LastPieceAfterSep(s: string, sep: string)
    requires |sep| > 0 && Contains(s, sep)
    ensures SepBefore(s, sep, LastPiece(s, sep))
    decreases |s|
  {
    var k := if StartsWith(s, sep) then |sep| else 1;
    LastPieceStep(s, sep);
    var t := s[k..];
    var r := LastPiece(t, sep);
    if Contains(t, sep) {
      LastPieceAfterSep(t, sep);
      SepBeforeSuffix(s, sep, k, t, r);
    } else {
      assert StartsWith(s, sep) && r == t;
    }
  }
}
