/** The Option type the model uses for Python's `Optional[...]` and `None`. */
module Wrappers {
  datatype Option<+T> = None | Some(value: T)
}

/**
 * String helpers shared by the analyser, the error categoriser, the
 * site-config lookup and the filename sanitiser: ASCII character classes,
 * `str.lower`, substring search (`in`), `str.endswith`,
 * `str.replace(p, "")` and `str(int)`.
 */
module Text {

  function Min(a: int, b: int): int { if a < b then a else b }

  /** An ASCII upper-case letter, the only characters `Lower` changes. */
  predicate IsUpper(c: char) { 'A' <= c <= 'Z' }

  predicate IsDigit(c: char) { '0' <= c <= '9' }

  /** Python's `\w` on ASCII: letters, digits and the underscore. */
  predicate IsWordChar(c: char) {
    'a' <= c <= 'z' || IsUpper(c) || IsDigit(c) || c == '_'
  }

  /** Python's `\s` / `str.isspace` on ASCII: TAB..CR, the separators FS..US, and the space. */
  predicate IsSpace(c: char) {
    9 <= c as int <= 13 || 28 <= c as int <= 32
  }

  function LowerChar(c: char): (r: char)
    ensures !IsUpper(r)
    ensures IsUpper(c) ==> r as int == c as int + 32
    ensures !IsUpper(c) ==> r == c
  {
    if IsUpper(c) then (c as int + 32) as char else c
  }

  /** `str.lower` restricted to ASCII. */
  function Lower(s: string): (r: string)
    ensures |r| == |s|
    ensures forall i :: 0 <= i < |s| ==> r[i] == LowerChar(s[i])
  {
    if s == [] then [] else [LowerChar(s[0])] + Lower(s[1..])
  }

  /** Lower-casing twice is lower-casing once: callers may lower-case early or late. */
  lemma LowerIdempotent(s: string)
    ensures Lower(Lower(s)) == Lower(s)
  {
    assert forall i :: 0 <= i < |s| ==> Lower(Lower(s))[i] == Lower(s)[i];
  }

  /** `p` occurs in `s` starting at index `i`. */
  predicate OccursAt(s: string, p: string, i: int) {
    0 <= i <= |s| - |p| && s[i..i + |p|] == p
  }

  /** Python's `p in s` for strings. */
  function Contains(s: string, p: string): (r: bool)
    ensures r <==> exists i :: OccursAt(s, p, i)
  {
    if |s| < |p| then
      false
    else if s[..|p|] == p then
      assert OccursAt(s, p, 0);
      true
    else
      var r := Contains(s[1..], p);
      assert forall i :: OccursAt(s[1..], p, i) <==> OccursAt(s, p, i + 1) by {
        forall i ensures OccursAt(s[1..], p, i) <==> OccursAt(s, p, i + 1) {
          if 0 <= i <= |s| - 1 - |p| {
            assert s[1..][i..i + |p|] == s[i + 1..i + 1 + |p|];
          }
        }
      }
      assert r ==> exists i :: OccursAt(s, p, i) by {
        if r {
          var i :| OccursAt(s[1..], p, i);
          assert OccursAt(s, p, i + 1);
        }
      }
      assert (exists i :: OccursAt(s, p, i)) ==> r by {
        if exists i :: OccursAt(s, p, i) {
          var i :| OccursAt(s, p, i);
          assert i != 0;
          assert OccursAt(s[1..], p, i - 1);
        }
      }
      r
  }

  /** Python's `s.endswith(suffix)`. */
  predicate EndsWith(s: string, suffix: string) {
    |suffix| <= |s| && s[|s| - |suffix|..] == suffix
  }

  /**
   * Python's `s.replace(p, "")` for a non-empty `p`: the occurrences of `p`
   * are found from left to right without overlapping and dropped.
   */
  function RemoveAll(s: string, p: string): (r: string)
    requires p != []
    ensures |r| <= |s|
  {
    if |s| < |p| then
      s
    else if s[..|p|] == p then
      RemoveAll(s[|p|..], p)
    else
      [s[0]] + RemoveAll(s[1..], p)
  }

  /** A string in which `p` does not occur is left as it is. */
  lemma RemoveAllNoOccurrence(s: string, p: string)
    requires p != [] && forall i :: !OccursAt(s, p, i)
    ensures RemoveAll(s, p) == s
  {
    assert s + [] == s;
    assert NotFoundBefore(s + [], p, |s|);
    RemoveAllSkips(s, [], p);
  }

  /** `"www." + d` with the prefix and every later `www.` dropped, as the source's domain normalisation does. */
  lemma {:induction false} RemoveAllLeading(p: string, d: string)
    requires p != []
    ensures RemoveAll(p + d, p) == RemoveAll(d, p)
  {
    assert (p + d)[..|p|] == p;
    assert (p + d)[|p|..] == d;
  }

  /**
   * The first occurrence of `p` is dropped: what precedes it is kept as it
   * is, and the removal goes on after it. With the identity on a string
   * without occurrences, this fixes `replace` from left to right.
   */
  lemma {:induction false} RemoveAllFirst(s: string, p: string, i: nat)
    requires p != [] && OccursAt(s, p, i)
    requires forall j :: 0 <= j < i ==> !OccursAt(s, p, j)
    ensures RemoveAll(s, p) == s[..i] + RemoveAll(s[i + |p|..], p)
  {
    var a, b := s[..i], s[i..];
    assert s == a + b;
    assert NotFoundBefore(a + b, p, |a|);
    RemoveAllSkips(a, b, p);
    assert b[..|p|] == p;
    assert b[|p|..] == s[i + |p|..];
  }

  /** No occurrence of `p` starts in `s` before index `n`. */
  predicate NotFoundBefore(s: string, p: string, n: int) {
    forall j :: 0 <= j < n ==> !OccursAt(s, p, j)
  }

  /** No occurrence of `p` is found in `a + b` before `b`, so `a` is kept as it is. */
  lemma {:induction false} RemoveAllSkips(a: string, b: string, p: string)
    requires p != [] && NotFoundBefore(a + b, p, |a|)
    ensures RemoveAll(a + b, p) == a + RemoveAll(b, p)
  {
    if a == [] {
      assert a + b == b;
    } else {
      var s, t, r := a + b, a[1..], RemoveAll(b, p);
      assert s[1..] == t + b;
      NotFoundInTail(a, b, p);
      RemoveAllKeepsHead(s, p);
      RemoveAllSkips(t, b, p);
      assert s[0] == a[0];
      assert [a[0]] + (t + r) == a + r;
    }
  }

  /** Dropping the first character of `a` keeps `p` out of the rest of `a`. */
  lemma NotFoundInTail(a: string, b: string, p: string)
    requires a != [] && NotFoundBefore(a + b, p, |a|)
    ensures NotFoundBefore(a[1..] + b, p, |a| - 1) && !OccursAt(a + b, p, 0)
  {
    var s, u := a + b, a[1..] + b;
    assert s[1..] == u;
    forall j | 0 <= j < |a| - 1
      ensures !OccursAt(u, p, j)
    {
      assert !OccursAt(s, p, j + 1);
      if j + |p| <= |u| {
        assert u[j..j + |p|] == s[j + 1..j + 1 + |p|];
      }
    }
  }

  /** Where `p` does not start the string, its first character is kept. */
  lemma RemoveAllKeepsHead(s: string, p: string)
    requires p != [] && s != [] && !OccursAt(s, p, 0)
    ensures RemoveAll(s, p) == [s[0]] + RemoveAll(s[1..], p)
  {
    if |p| <= |s| {
      assert s[0..|p|] == s[..|p|];
    } else {
      assert RemoveAll(s[1..], p) == s[1..];
    }
  }

  function DigitChar(d: nat): (c: char)
    requires d < 10
    ensures IsDigit(c)
  {
    ('0' as int + d) as char
  }

  /** `str(n)` for a non-negative integer: its decimal digits, most significant first, without leading zeros. */
  function NatToString(n: nat): (r: string)
    ensures |r| >= 1
    ensures forall i :: 0 <= i < |r| ==> IsDigit(r[i])
    ensures n > 0 ==> r[0] != '0'
  {
    if n < 10 then [DigitChar(n)] else NatToString(n / 10) + [DigitChar(n % 10)]
  }

  function DigitValue(c: char): nat
    requires IsDigit(c)
  {
    c as int - '0' as int
  }

  /** Reads a string of decimal digits back as a number (the inverse of `NatToString`). */
  function ParseNat(s: string): nat
    requires forall i :: 0 <= i < |s| ==> IsDigit(s[i])
  {
    if s == [] then 0 else ParseNat(s[..|s| - 1]) * 10 + DigitValue(s[|s| - 1])
  }

  /** `NatToString` loses nothing: parsing its digits gives the number back. */
  lemma {:induction false} NatToStringRoundTrip(n: nat)
    ensures ParseNat(NatToString(n)) == n
  {
    if n >= 10 {
      NatToStringRoundTrip(n / 10);
      var r := NatToString(n);
      assert r[..|r| - 1] == NatToString(n / 10);
    }
  }
}
