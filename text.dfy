/**
 * The string operations the application relies on: Python's `str.strip()`, `str.lower()`,
 * the substring test `q in s`, the card/label truncation `s[:n] + "..."`, and `str(n)`
 * for integers together with its inverse.
 */
module Text {
  import opened Wrappers

  /** The characters Python's `str.isspace()` accepts, which `str.strip()` removes. */
  predicate IsSpace(c: char)
  {
    c == ' ' || ('\t' <= c <= '\r') || ('\U{1c}' <= c <= '\U{1f}') || c == '\U{85}' || c == '\U{a0}'
    || c == '\U{1680}' || ('\U{2000}' <= c <= '\U{200a}') || c == '\U{2028}' || c == '\U{2029}'
    || c == '\U{202f}' || c == '\U{205f}' || c == '\U{3000}'
  }

  function StripLeft(s: string): (r: string)
    ensures |r| <= |s| && r == s[|s| - |r|..]
    ensures forall k :: 0 <= k < |s| - |r| ==> IsSpace(s[k])
    ensures r != [] ==> !IsSpace(r[0])
  {
    if s != [] && IsSpace(s[0]) then StripLeft(s[1..]) else s
  }

  function StripRight(s: string): (r: string)
    ensures |r| <= |s| && r == s[..|r|]
    ensures forall k :: |r| <= k < |s| ==> IsSpace(s[k])
    ensures r != [] ==> !IsSpace(r[|r| - 1])
  {
    if s != [] && IsSpace(s[|s| - 1]) then StripRight(s[..|s| - 1]) else s
  }

  /** `s.strip()`: `s` without its leading and trailing white space. */
  function Strip(s: string): (r: string)
    ensures r != [] ==> !IsSpace(r[0]) && !IsSpace(r[|r| - 1])
  {
    StripRight(StripLeft(s))
  }

  /**
   * What stripping keeps: one contiguous piece of `s` with only white space before and after
   * it, empty exactly when `s` is all white space.
   */
  lemma StripSpec(s: string)
    ensures Strip(s) == [] <==> forall k :: 0 <= k < |s| ==> IsSpace(s[k])
    ensures exists i :: OccursAt(Strip(s), s, i)
                        && (forall k :: 0 <= k < i ==> IsSpace(s[k]))
                        && (forall k :: i + |Strip(s)| <= k < |s| ==> IsSpace(s[k]))
  {
    var left := StripLeft(s);
    var r := Strip(s);
    var i := |s| - |left|;
    assert r == StripRight(left) && r == left[..|r|];
    assert s[i..i + |r|] == r;
    assert OccursAt(r, s, i);
    assert forall k :: 0 <= k < i ==> IsSpace(s[k]);
    forall k | i + |r| <= k < |s| ensures IsSpace(s[k]) {
      assert s[k] == left[k - i];
    }
    assert forall k :: i + |r| <= k < |s| ==> IsSpace(s[k]);
    assert Strip(s) == [] ==> left == [];
  }

  lemma {:induction false} StripLeftOfClean(s: string)
    requires s == [] || !IsSpace(s[0])
    ensures StripLeft(s) == s
  {
  }

  /** Stripping twice is stripping once. */
  lemma StripIdempotent(s: string)
    ensures Strip(Strip(s)) == Strip(s)
  {
    var r := Strip(s);
    StripLeftOfClean(r);
    assert StripRight(r) == r;
  }

  /** `c.lower()` for the ASCII letters; every other character is its own lower case here. */
  function LowerChar(c: char): char
  {
    if 'A' <= c <= 'Z' then (c as int + 32) as char else c
  }

  predicate IsUpper(c: char)
  {
    'A' <= c <= 'Z'
  }

  /** `s.lower()`: the same string with every upper-case letter replaced by its lower case. */
  function Lower(s: string): (r: string)
    ensures |r| == |s|
    ensures forall k :: 0 <= k < |s| ==> r[k] == LowerChar(s[k])
    ensures forall k :: 0 <= k < |r| ==> !IsUpper(r[k])
  {
    seq(|s|, k requires 0 <= k < |s| => LowerChar(s[k]))
  }

  /** Lower-casing twice is lower-casing once. */
  lemma LowerIdempotent(s: string)
    ensures Lower(Lower(s)) == Lower(s)
  {
  }

  /** Characters that are not letters survive lower-casing: a lower-cased email keeps its '@' and '.'. */
  lemma LowerKeepsNonLetter(s: string, c: char)
    requires !('A' <= c <= 'Z') && !('a' <= c <= 'z')
    ensures c in Lower(s) <==> c in s
  {
    if c in s {
      var k :| 0 <= k < |s| && s[k] == c;
      assert Lower(s)[k] == c;
    }
    if c in Lower(s) {
      var k :| 0 <= k < |s| && Lower(s)[k] == c;
      assert s[k] == c;
    }
  }

  /** `q` occurs in `s` starting at index `i`. */
  predicate OccursAt(q: string, s: string, i: int)
  {
    0 <= i <= |s| - |q| && s[i..i + |q|] == q
  }

  /** Python's `q in s` on strings: `q` occurs in `s` at some position. */
  predicate IsSubstring(q: string, s: string)
    decreases |s|
  {
    q <= s || (s != [] && IsSubstring(q, s[1..]))
  }

  /** The substring test means an occurrence at some index. */
  lemma SubstringAt(q: string, s: string)
    ensures IsSubstring(q, s) <==> exists i :: OccursAt(q, s, i)
  {
    if IsSubstring(q, s) {
      var i := SubstringWitness(q, s);
    }
    if exists i :: OccursAt(q, s, i) {
      var i :| OccursAt(q, s, i);
      OccurrenceIsSubstring(q, s, i);
    }
  }

  lemma {:induction false} SubstringWitness(q: string, s: string) returns (i: int)
    requires IsSubstring(q, s)
    ensures OccursAt(q, s, i)
    decreases |s|
  {
    if q <= s {
      i := 0;
    } else {
      var j := SubstringWitness(q, s[1..]);
      assert s[j + 1..j + 1 + |q|] == s[1..][j..j + |q|];
      i := j + 1;
    }
  }

  lemma {:induction false} OccurrenceIsSubstring(q: string, s: string, i: int)
    requires OccursAt(q, s, i)
    ensures IsSubstring(q, s)
    decreases i
  {
    if i > 0 {
      assert s[1..][i - 1..i - 1 + |q|] == s[i..i + |q|];
      OccurrenceIsSubstring(q, s[1..], i - 1);
    }
  }

  /** The empty query occurs in every string, as `"" in s` does in Python. */
  lemma EmptyIsSubstring(s: string)
    ensures IsSubstring("", s)
  {
  }

  /** The card text of a name: its first `n` characters followed by "..." when it is longer than `n`. */
  function Truncate(s: string, n: nat): string
  {
    if |s| > n then s[..n] + "..." else s
  }

  /** A truncated text is never longer than `n` plus the ellipsis, starts like the original, and a short text is kept whole. */
  lemma TruncateShape(s: string, n: nat)
    ensures |Truncate(s, n)| <= n + 3
    ensures |s| <= n ==> Truncate(s, n) == s
    ensures |s| > n ==> Truncate(s, n)[..n] == s[..n] && Truncate(s, n)[n..] == "..."
  {
  }

  predicate IsDigit(c: char)
  {
    '0' <= c <= '9'
  }

  function DigitChar(d: nat): (c: char)
    requires d < 10
    ensures IsDigit(c) && c as int - '0' as int == d
  {
    ('0' as int + d) as char
  }

  /** `str(n)` for a natural number: its decimal digits without leading zeros. */
  function NatToString(n: nat): (r: string)
    ensures |r| >= 1
    ensures forall k :: 0 <= k < |r| ==> IsDigit(r[k])
    decreases n
  {
    if n < 10 then [DigitChar(n)] else NatToString(n / 10) + [DigitChar(n % 10)]
  }

  /** `str(i)` for an integer: a minus sign in front of the digits of a negative number. */
  function IntToString(i: int): string
  {
    if i < 0 then "-" + NatToString(-i) else NatToString(i)
  }

  function DigitValue(c: char): nat
    requires IsDigit(c)
  {
    c as int - '0' as int
  }

  /** The value of a string of decimal digits (`int(s)` on such a string). */
  function ParseNat(s: string): nat
    requires forall k :: 0 <= k < |s| ==> IsDigit(s[k])
  {
    if s == [] then 0 else ParseNat(s[..|s| - 1]) * 10 + DigitValue(s[|s| - 1])
  }

  /** `int(s)` on an optionally negative decimal numeral, and nothing on any other string. */
  function ParseInt(s: string): Option<int>
  {
    if |s| >= 2 && s[0] == '-' && forall k :: 1 <= k < |s| ==> IsDigit(s[k]) then Some(0 - ParseNat(s[1..]))
    else if |s| >= 1 && forall k :: 0 <= k < |s| ==> IsDigit(s[k]) then Some(ParseNat(s))
    else None
  }

  lemma {:induction false} NatRoundTrip(n: nat)
    ensures ParseNat(NatToString(n)) == n
    decreases n
  {
    if n >= 10 {
      NatRoundTrip(n / 10);
      var s := NatToString(n);
      assert s[..|s| - 1] == NatToString(n / 10);
    }
  }

  /** Reading back the decimal text of an integer gives the integer. */
  lemma IntRoundTrip(i: int)
    ensures ParseInt(IntToString(i)) == Some(i)
  {
    if i < 0 {
      NatRoundTrip(-i);
      assert IntToString(i)[1..] == NatToString(-i);
    } else {
      NatRoundTrip(i);
    }
  }

  /** Different integers have different decimal texts. */
  lemma IntToStringInjective(i: int, j: int)
    requires IntToString(i) == IntToString(j)
    ensures i == j
  {
    IntRoundTrip(i);
    IntRoundTrip(j);
  }
}
