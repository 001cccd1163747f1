/**
 * `VideoExtractor` from video_downloader.py: the safe output filename built
 * from the URL's network location and the video title, and the way
 * `download_video` turns yt-dlp's outcome and the files found afterwards
 * into a `DownloadResult`. yt-dlp itself, the clock and the directory
 * listing are inputs.
 */
module Extractor {
  import opened Wrappers
  import opened Text

  // ---------------------------------------------------------------
  // The title sanitiser: re.sub(r'[^\w\s-]', '', t).strip(), then
  // re.sub(r'[-\s]+', '-', ...)
  // ---------------------------------------------------------------

  /** The characters the first substitution keeps: `\w`, `\s` and `-`. */
  predicate Allowed(c: char) {
    IsWordChar(c) || IsSpace(c) || c == '-'
  }

  /** The characters the second substitution collapses: `-` and `\s`. */
  predicate IsSep(c: char) {
    c == '-' || IsSpace(c)
  }

  /** The word characters of `s`, in order: what the sanitiser must never lose or reorder. */
  function WordChars(s: string): string {
    if s == [] then [] else (if IsWordChar(s[0]) then [s[0]] else []) + WordChars(s[1..])
  }

  lemma {:induction false} WordCharsAppend(a: string, b: string)
    ensures WordChars(a + b) == WordChars(a) + WordChars(b)
  {
    if a != [] {
      assert (a + b)[0] == a[0];
      assert (a + b)[1..] == a[1..] + b;
      WordCharsAppend(a[1..], b);
    } else {
      assert a + b == b;
    }
  }

  /** `re.sub(r'[^\w\s-]', '', s)`: drops every character that is not allowed. */
  function RemoveDisallowed(s: string): (r: string)
    ensures forall i :: 0 <= i < |r| ==> Allowed(r[i])
    ensures WordChars(r) == WordChars(s)
    ensures (forall i :: 0 <= i < |s| ==> Allowed(s[i])) ==> r == s
  {
    if s == [] then []
    else
      var rest := RemoveDisallowed(s[1..]);
      if Allowed(s[0]) then
        assert ([s[0]] + rest)[1..] == rest;
        [s[0]] + rest
      else
        rest
  }

  /** `str.lstrip()`: drops leading whitespace. */
  function StripStart(s: string): (r: string)
    ensures r == [] || !IsSpace(r[0])
    ensures |r| <= |s| && r == s[|s| - |r|..]
    ensures forall i :: 0 <= i < |r| ==> r[i] in s
    ensures WordChars(r) == WordChars(s)
    ensures s == [] || !IsSpace(s[0]) ==> r == s
  {
    if s != [] && IsSpace(s[0]) then StripStart(s[1..]) else s
  }

  /** `str.rstrip()`: drops trailing whitespace. */
  function StripEnd(s: string): (r: string)
    ensures r == [] || !IsSpace(r[|r| - 1])
    ensures |r| <= |s| && r == s[..|r|]
    ensures forall i :: 0 <= i < |r| ==> r[i] in s
    ensures WordChars(r) == WordChars(s)
    ensures s == [] || !IsSpace(s[|s| - 1]) ==> r == s
  {
    if s != [] && IsSpace(s[|s| - 1]) then
      var init := s[..|s| - 1];
      WordCharsAppend(init, [s[|s| - 1]]);
      assert init + [s[|s| - 1]] == s;
      StripEnd(init)
    else
      s
  }

  /** `str.strip()`: drops whitespace at both ends and keeps the middle as it is. */
  function Strip(s: string): (r: string)
    ensures r == [] || (!IsSpace(r[0]) && !IsSpace(r[|r| - 1]))
    ensures forall i :: 0 <= i < |r| ==> r[i] in s
    ensures WordChars(r) == WordChars(s)
  {
    StripEnd(StripStart(s))
  }

  /** The first substitution keeps every allowed character as often as it occurs, whitespace and `-` included, and no other. */
  lemma {:induction false} RemoveDisallowedCounts(s: string)
    ensures forall c :: multiset(RemoveDisallowed(s))[c] == if Allowed(c) then multiset(s)[c] else 0
  {
    if s != [] {
      RemoveDisallowedCounts(s[1..]);
      assert s == [s[0]] + s[1..];
      assert multiset(s) == multiset([s[0]]) + multiset(s[1..]);
    }
  }

  /** `lstrip` drops whitespace only. */
  lemma {:induction false} StripStartDropsSpaces(s: string)
    ensures forall i :: 0 <= i < |s| - |StripStart(s)| ==> IsSpace(s[i])
  {
    if s != [] && IsSpace(s[0]) {
      StripStartDropsSpaces(s[1..]);
      assert forall i :: 1 <= i < |s| ==> s[i] == s[1..][i - 1];
    }
  }

  /** `rstrip` drops whitespace only. */
  lemma {:induction false} StripEndDropsSpaces(s: string)
    ensures forall i :: |StripEnd(s)| <= i < |s| ==> IsSpace(s[i])
  {
    if s != [] && IsSpace(s[|s| - 1]) {
      StripEndDropsSpaces(s[..|s| - 1]);
    }
  }

  /** `strip` keeps a contiguous middle of the string and drops whitespace only, at both ends. */
  lemma StripKeepsMiddle(s: string)
    ensures exists i, j :: 0 <= i <= j <= |s| && Strip(s) == s[i..j] && SpacesOutside(s, i, j)
  {
    var t := StripStart(s);
    var r := StripEnd(t);
    var i := |s| - |t|;
    StripStartDropsSpaces(s);
    StripEndDropsSpaces(t);
    assert r == s[i..i + |r|];
    forall k | 0 <= k < |s| && (k < i || i + |r| <= k)
      ensures IsSpace(s[k])
    {
      if k >= i {
        assert s[k] == t[k - i];
      }
    }
    assert SpacesOutside(s, i, i + |r|);
  }

  /** Every character of `s` outside `s[i..j]` is whitespace. */
  predicate SpacesOutside(s: string, i: int, j: int) {
    forall k :: 0 <= k < |s| && (k < i || j <= k) ==> IsSpace(s[k])
  }

  /** The length of the run of separators `s` starts with. */
  function SepRun(s: string): (n: nat)
    ensures n <= |s|
    ensures forall i :: 0 <= i < n ==> IsSep(s[i])
    ensures n < |s| ==> !IsSep(s[n])
  {
    if s != [] && IsSep(s[0]) then
      var n := SepRun(s[1..]);
      assert forall i :: 1 <= i < n + 1 ==> s[i] == s[1..][i - 1];
      n + 1
    else
      0
  }

  /** No two neighbouring characters are both `-`. */
  predicate NoDoubleHyphen(s: string) {
    forall i :: 0 <= i < |s| - 1 && s[i] == '-' ==> s[i + 1] != '-'
  }

  /** `re.sub(r'[-\s]+', '-', s)`: every maximal run of separators becomes one `-`. */
  function CollapseRuns(s: string): (r: string)
    ensures r == [] <==> s == []
    ensures s != [] && !IsSep(s[0]) ==> r[0] == s[0]
    ensures s != [] && IsSep(s[0]) ==> r[0] == '-'
    decreases |s|
  {
    if s == [] then []
    else if IsSep(s[0]) then "-" + CollapseRuns(s[SepRun(s)..])
    else [s[0]] + CollapseRuns(s[1..])
  }

  /** How many characters `CollapseRuns` consumes for its first output character. */
  function Step(s: string): (k: nat)
    requires s != []
    ensures 1 <= k <= |s|
  {
    if IsSep(s[0]) then SepRun(s) else 1
  }

  /** One step of the collapse: the first output character, then the collapse of what follows the first run. */
  lemma CollapseUnfold(s: string)
    requires s != []
    ensures CollapseRuns(s) == [if IsSep(s[0]) then '-' else s[0]] + CollapseRuns(s[Step(s)..])
  {
  }

  /** After collapsing, no whitespace is left and every separator run has become a single `-`. */
  lemma {:induction false} CollapseNoSpace(s: string)
    ensures var r := CollapseRuns(s);
      && (forall i :: 0 <= i < |r| ==> !IsSpace(r[i]))
      && NoDoubleHyphen(r)
    decreases |s|
  {
    if s != [] {
      var t := s[Step(s)..];
      CollapseNoSpace(t);
      var rest := CollapseRuns(t);
      var head := if IsSep(s[0]) then '-' else s[0];
      CollapseUnfold(s);
      var r := [head] + rest;
      assert !IsSpace(head);
      assert head == '-' ==> rest == [] || rest[0] != '-';
      forall i | 0 <= i < |r|
        ensures !IsSpace(r[i])
      {
        if i > 0 {
          assert r[i] == rest[i - 1];
        }
      }
      forall i | 0 <= i < |r| - 1 && r[i] == '-'
        ensures r[i + 1] != '-'
      {
        assert r[i + 1] == rest[i];
        if i > 0 {
          assert r[i] == rest[i - 1];
        }
      }
    }
  }

  /** Collapsing keeps the word characters, in order. */
  lemma {:induction false} CollapseKeepsWordChars(s: string)
    ensures WordChars(CollapseRuns(s)) == WordChars(s)
    decreases |s|
  {
    if s != [] {
      var k := Step(s);
      var t := s[k..];
      CollapseKeepsWordChars(t);
      CollapseUnfold(s);
      var r := CollapseRuns(s);
      assert r[1..] == CollapseRuns(t);
      assert s[..k] + t == s;
      WordCharsAppend(s[..k], t);
      if IsSep(s[0]) {
        assert forall i :: 0 <= i < k ==> s[..k][i] == s[i];
        SepsHaveNoWordChars(s[..k]);
      } else {
        assert s[..k] == [s[0]];
      }
    }
  }

  /** An input of word characters and separators collapses to word characters and hyphens. */
  lemma {:induction false} CollapseWordOrHyphen(s: string)
    requires forall i :: 0 <= i < |s| ==> IsSep(s[i]) || IsWordChar(s[i])
    ensures var r := CollapseRuns(s);
      forall i :: 0 <= i < |r| ==> r[i] == '-' || IsWordChar(r[i])
    decreases |s|
  {
    if s != [] {
      var k := Step(s);
      var t := s[k..];
      assert forall i :: 0 <= i < |t| ==> t[i] == s[k + i];
      CollapseWordOrHyphen(t);
      var rest := CollapseRuns(t);
      var head := if IsSep(s[0]) then '-' else s[0];
      CollapseUnfold(s);
      var r := [head] + rest;
      assert head == '-' || IsWordChar(head);
      forall i | 0 <= i < |r|
        ensures r[i] == '-' || IsWordChar(r[i])
      {
        if i > 0 {
          assert r[i] == rest[i - 1];
        }
      }
    }
  }

  lemma {:induction false} SepsHaveNoWordChars(s: string)
    requires forall i :: 0 <= i < |s| ==> IsSep(s[i])
    ensures WordChars(s) == []
  {
    if s != [] {
      SepsHaveNoWordChars(s[1..]);
    }
  }

  /** The cleaned title `_get_safe_filename` puts after the domain. */
  function SanitizeTitle(title: string): string {
    CollapseRuns(Strip(RemoveDisallowed(title)))
  }

  /**
   * A cleaned title holds only word characters and `-`, no whitespace and
   * no two hyphens in a row, and keeps every word character of the title,
   * in order.
   */
  lemma {:induction false} SanitizedTitleIsClean(title: string)
    ensures var r := SanitizeTitle(title);
      && (forall i :: 0 <= i < |r| ==> IsWordChar(r[i]) || r[i] == '-')
      && (forall i :: 0 <= i < |r| ==> !IsSpace(r[i]))
      && NoDoubleHyphen(r)
      && WordChars(r) == WordChars(title)
  {
    var b := Strip(RemoveDisallowed(title));
    assert forall j :: 0 <= j < |b| ==> Allowed(b[j]);
    assert forall j :: 0 <= j < |b| ==> IsSep(b[j]) || IsWordChar(b[j]);
    CollapseNoSpace(b);
    CollapseKeepsWordChars(b);
    CollapseWordOrHyphen(b);
  }

  /** A string the collapse leaves alone: no whitespace, no doubled hyphen. */
  lemma {:induction false} CollapseFixed(s: string)
    requires forall i :: 0 <= i < |s| ==> !IsSpace(s[i])
    requires NoDoubleHyphen(s)
    ensures CollapseRuns(s) == s
    decreases |s|
  {
    if s != [] {
      var tail := s[1..];
      assert forall i :: 0 <= i < |tail| ==> tail[i] == s[i + 1];
      assert NoDoubleHyphen(tail);
      CollapseFixed(tail);
      CollapseUnfold(s);
      if IsSep(s[0]) {
        assert s[0] == '-';
        assert |s| > 1 ==> !IsSep(s[1]);
        assert Step(s) == 1;
      }
      assert s == [s[0]] + tail;
    }
  }

  /** Cleaning a cleaned title changes nothing. */
  lemma {:induction false} SanitizeIdempotent(title: string)
    ensures SanitizeTitle(SanitizeTitle(title)) == SanitizeTitle(title)
  {
    var r := SanitizeTitle(title);
    SanitizedTitleIsClean(title);
    assert RemoveDisallowed(r) == r;
    assert StripStart(r) == r;
    assert StripEnd(r) == r;
    CollapseFixed(r);
  }

  /** `RemoveDisallowed` works character by character. */
  lemma {:induction false} RemoveDisallowedAppend(a: string, b: string)
    ensures RemoveDisallowed(a + b) == RemoveDisallowed(a) + RemoveDisallowed(b)
  {
    if a == [] {
      assert a + b == b;
    } else {
      assert (a + b)[0] == a[0];
      assert (a + b)[1..] == a[1..] + b;
      RemoveDisallowedAppend(a[1..], b);
    }
  }

  lemma {:induction false} SepRunAppend(a: string, b: string)
    requires a != [] && !IsSep(a[|a| - 1])
    ensures SepRun(a + b) == SepRun(a) < |a|
  {
    if IsSep(a[0]) {
      assert (a + b)[0] == a[0];
      assert (a + b)[1..] == a[1..] + b;
      SepRunAppend(a[1..], b);
    } else {
      assert (a + b)[0] == a[0];
    }
  }

  /** No separator run crosses the end of `a` when `a` ends in a non-separator, so the halves collapse apart. */
  lemma {:induction false} CollapseAppend(a: string, b: string)
    requires a != [] && !IsSep(a[|a| - 1])
    ensures CollapseRuns(a + b) == CollapseRuns(a) + CollapseRuns(b)
    decreases |a|, 1
  {
    if IsSep(a[0]) {
      CollapseAppendSep(a, b);
    } else if |a| == 1 {
      var ab := a + b;
      assert ab[0] == a[0];
      assert ab[1..] == b;
      assert CollapseRuns(ab) == [a[0]] + CollapseRuns(ab[1..]);
    } else {
      var ab := a + b;
      assert ab[0] == a[0];
      assert ab[1..] == a[1..] + b;
      CollapseAppend(a[1..], b);
      assert CollapseRuns(ab) == [a[0]] + CollapseRuns(ab[1..]);
    }
  }

  lemma {:induction false} CollapseAppendSep(a: string, b: string)
    requires a != [] && !IsSep(a[|a| - 1]) && IsSep(a[0])
    ensures CollapseRuns(a + b) == CollapseRuns(a) + CollapseRuns(b)
    decreases |a|, 0
  {
    var ab := a + b;
    assert ab[0] == a[0];
    SepRunAppend(a, b);
    var k := SepRun(a);
    var t := a[k..];
    assert ab[k..] == t + b;
    assert t[|t| - 1] == a[|a| - 1];
    CollapseAppend(t, b);
    assert CollapseRuns(ab) == "-" + CollapseRuns(t + b);
    assert "-" + (CollapseRuns(t) + CollapseRuns(b)) == ("-" + CollapseRuns(t)) + CollapseRuns(b);
  }

  predicate AllWordChars(s: string) {
    forall i :: 0 <= i < |s| ==> IsWordChar(s[i])
  }

  /** A word passes the whole cleaning unchanged. */
  lemma {:induction false} WordIsClean(w: string)
    requires AllWordChars(w)
    ensures RemoveDisallowed(w) == w && Strip(w) == w && CollapseRuns(w) == w
  {
    assert forall i :: 0 <= i < |w| ==> Allowed(w[i]);
    assert forall i :: 0 <= i < |w| ==> !IsSpace(w[i]);
    CollapseFixed(w);
  }

  /** What the first substitution makes of two words around one character. */
  lemma {:induction false} RemoveAroundChar(a: string, c: char, b: string)
    requires AllWordChars(a) && AllWordChars(b)
    ensures RemoveDisallowed(a + [c] + b) == a + (if Allowed(c) then [c] else []) + b
  {
    RemoveDisallowedAppend(a + [c], b);
    RemoveDisallowedAppend(a, [c]);
    assert [c][1..] == [];
    WordIsClean(a);
    WordIsClean(b);
  }

  /**
   * A character the first substitution removes leaves no separator behind:
   * two words joined by `/`, `:` or `!` come out glued together.
   */
  lemma {:induction false} DisallowedBetweenWordsIsDropped(a: string, c: char, b: string)
    requires a != [] && b != [] && AllWordChars(a) && AllWordChars(b)
    requires !Allowed(c)
    ensures SanitizeTitle(a + [c] + b) == a + b
  {
    RemoveAroundChar(a, c, b);
    var x := a + b;
    assert a + [] + b == x;
    assert AllWordChars(x);
    WordIsClean(x);
  }

  /** Whitespace between two words becomes one hyphen. */
  lemma {:induction false} SpaceBetweenWordsBecomesHyphen(a: string, c: char, b: string)
    requires a != [] && b != [] && AllWordChars(a) && AllWordChars(b)
    requires IsSpace(c)
    ensures SanitizeTitle(a + [c] + b) == a + "-" + b
  {
    var x := a + [c] + b;
    SpaceBetweenWordsKept(a, c, b);
    assert SanitizeTitle(x) == CollapseRuns(x);
    CollapseWordsAroundSep(a, c, b);
  }

  /** The first substitution and the strip leave two words around a space as they are. */
  lemma {:induction false} SpaceBetweenWordsKept(a: string, c: char, b: string)
    requires a != [] && b != [] && AllWordChars(a) && AllWordChars(b)
    requires IsSpace(c)
    ensures Strip(RemoveDisallowed(a + [c] + b)) == a + [c] + b
  {
    var x := a + [c] + b;
    assert Allowed(c);
    RemoveAroundChar(a, c, b);
    assert RemoveDisallowed(x) == x;
    assert x[0] == a[0] && !IsSpace(a[0]);
    assert StripStart(x) == x;
    assert x[|x| - 1] == b[|b| - 1] && !IsSpace(b[|b| - 1]);
    assert StripEnd(x) == x;
  }

  /** Collapsing two words around one separator turns the separator into a hyphen. */
  lemma {:induction false} CollapseWordsAroundSep(a: string, c: char, b: string)
    requires a != [] && b != [] && AllWordChars(a) && AllWordChars(b)
    requires IsSep(c)
    ensures CollapseRuns(a + [c] + b) == a + "-" + b
  {
    var cb := [c] + b;
    calc {
      CollapseRuns(a + [c] + b);
      { assert a + [c] + b == a + cb; }
      CollapseRuns(a + cb);
      { CollapseAppend(a, cb); }
      CollapseRuns(a) + CollapseRuns(cb);
      { WordIsClean(a); CollapseOneSep(c, b); }
      a + ("-" + b);
      a + "-" + b;
    }
  }

  lemma {:induction false} CollapseOneSep(c: char, b: string)
    requires IsSep(c) && b != [] && AllWordChars(b)
    ensures CollapseRuns([c] + b) == "-" + b
  {
    var cb := [c] + b;
    assert cb[0] == c;
    assert cb[1..] == b;
    assert !IsSep(b[0]);
    assert SepRun(cb) == 1;
    WordIsClean(b);
    assert CollapseRuns(cb) == "-" + CollapseRuns(b);
  }

  // ---------------------------------------------------------------
  // The safe filename
  // ---------------------------------------------------------------

  /** The longest filename `_get_safe_filename` returns. */
  const MaxFilenameLength: nat := 100

  /** `s[:n]`. */
  function Truncate(s: string, n: nat): (r: string)
    ensures |r| <= n && |r| <= |s| && r == s[..|r|]
    ensures |s| <= n ==> r == s
    ensures |s| > n ==> |r| == n
  {
    if |s| <= n then s else s[..n]
  }

  /** The untruncated name: the domain without `www.`, `_`, then the cleaned title or, for an empty title, the timestamp. */
  function FullFilename(netloc: string, title: string, now: nat): (r: string)
    ensures var d := RemoveAll(netloc, "www.");
      |r| > |d| && r[..|d|] == d && r[|d|] == '_'
    ensures title == [] ==> r[|RemoveAll(netloc, "www.")| + 1..] == NatToString(now)
    ensures title != [] ==> r[|RemoveAll(netloc, "www.")| + 1..] == SanitizeTitle(title)
  {
    var d := RemoveAll(netloc, "www.");
    var tail := if title != [] then SanitizeTitle(title) else NatToString(now);
    JoinedName(d, tail);
    d + "_" + tail
  }

  /** The domain, `_` and the rest can be read back from the joined name. */
  lemma JoinedName(d: string, tail: string)
    ensures var r := d + "_" + tail;
      |r| > |d| && r[..|d|] == d && r[|d|] == '_' && r[|d| + 1..] == tail
  {
    var r := d + "_" + tail;
    assert r[..|d|] == d;
    assert r[|d| + 1..] == tail;
  }

  /** `_get_safe_filename`; `now` is `int(time.time())`. */
  function SafeFilename(netloc: string, title: string, now: nat): (r: string)
    ensures |r| <= MaxFilenameLength
  {
    Truncate(FullFilename(netloc, title, now), MaxFilenameLength)
  }

  /** The safe filename is the first min(length, 100) characters of the full name. */
  lemma SafeFilenameIsPrefix(netloc: string, title: string, now: nat)
    ensures var full := FullFilename(netloc, title, now);
      var r := SafeFilename(netloc, title, now);
      && r == full[..|r|]
      && |r| == Min(|full|, MaxFilenameLength)
  {
  }

  /** When the domain is shorter than 100 characters, the safe filename starts with the domain and `_`. */
  lemma {:induction false} SafeFilenameStartsWithDomain(netloc: string, title: string, now: nat)
    requires |RemoveAll(netloc, "www.")| < MaxFilenameLength
    ensures var domain := RemoveAll(netloc, "www.");
      SafeFilename(netloc, title, now)[..|domain| + 1] == domain + "_"
  {
    var domain := RemoveAll(netloc, "www.");
    var tail := if title != [] then SanitizeTitle(title) else NatToString(now);
    assert FullFilename(netloc, title, now) == (domain + "_") + tail;
    TruncateKeepsHead(domain + "_", tail, MaxFilenameLength);
  }

  /**
   * For a non-empty title, whatever of the cleaned title survives the cut
   * to 100 characters holds only word characters and `-`, no whitespace
   * and no `--`.
   */
  lemma {:induction false} SafeFilenameTitleIsClean(netloc: string, title: string, now: nat)
    requires title != [] && |RemoveAll(netloc, "www.")| < MaxFilenameLength
    ensures var t := SafeFilename(netloc, title, now)[|RemoveAll(netloc, "www.")| + 1..];
      && t == SanitizeTitle(title)[..|t|]
      && (forall i :: 0 <= i < |t| ==> IsWordChar(t[i]) || t[i] == '-')
      && NoDoubleHyphen(t)
  {
    var k := |RemoveAll(netloc, "www.")| + 1;
    var full := FullFilename(netloc, title, now);
    var r := SafeFilename(netloc, title, now);
    var c := SanitizeTitle(title);
    assert full[k..] == c;
    assert r == full[..|r|];
    var t := r[k..];
    assert t == c[..|t|];
    SanitizedTitleIsClean(title);
  }

  /** Truncating to at least the length of a head keeps that head. */
  lemma TruncateKeepsHead(head: string, tail: string, n: nat)
    requires |head| <= n
    ensures Truncate(head + tail, n)[..|head|] == head
  {
    assert (head + tail)[..|head|] == head;
  }

  /**
   * For an empty title, when the whole name fits, what follows the domain
   * and `_` is the timestamp's decimal digits, which read back as the
   * timestamp.
   */
  lemma {:induction false} TimestampReadsBack(netloc: string, now: nat)
    requires |FullFilename(netloc, [], now)| <= MaxFilenameLength
    ensures var domain := RemoveAll(netloc, "www.");
      var r := SafeFilename(netloc, [], now);
      && r[|domain| + 1..] == NatToString(now)
      && ParseNat(r[|domain| + 1..]) == now
  {
    var domain := RemoveAll(netloc, "www.");
    assert FullFilename(netloc, [], now)[|domain| + 1..] == NatToString(now);
    NatToStringRoundTrip(now);
  }


  /** A title with nothing left after cleaning still takes the title branch: the name ends in `_`, with no timestamp. */
  lemma {:induction false} EmptyCleanTitleNoTimestamp(netloc: string, title: string, now: nat)
    requires title != [] && SanitizeTitle(title) == []
    ensures FullFilename(netloc, title, now) == RemoveAll(netloc, "www.") + "_"
  {
  }

  // ---------------------------------------------------------------
  // Download result selection
  // ---------------------------------------------------------------

  /** `PurePath.suffix`: from the last `.` on, unless that dot starts or ends the name. */
  function Suffix(name: string): (r: string)
    ensures r == [] || (r[0] == '.' && |r| >= 2 && |r| < |name| && r == name[|name| - |r|..])
  {
    match LastDot(name)
    case None => []
    case Some(i) => if 0 < i < |name| - 1 then name[i..] else []
  }

  /** A non-empty suffix holds no dot after its first character. */
  lemma SuffixHasOneDot(name: string)
    ensures var r := Suffix(name);
      r != [] ==> forall i :: 1 <= i < |r| ==> r[i] != '.'
  {
    var r := Suffix(name);
    if r != [] {
      var d := LastDot(name).value;
      assert r == name[d..];
      assert forall i :: 1 <= i < |r| ==> r[i] == name[d + i];
    }
  }

  /** `str.rfind('.')`, as an option. */
  function LastDot(s: string): (r: Option<nat>)
    ensures r.Some? ==> r.value < |s| && s[r.value] == '.' && forall j :: r.value < j < |s| ==> s[j] != '.'
    ensures r.None? ==> forall j :: 0 <= j < |s| ==> s[j] != '.'
  {
    if s == [] then None
    else if s[|s| - 1] == '.' then Some(|s| - 1)
    else LastDot(s[..|s| - 1])
  }

  /** The suffixes `download_video` accepts as a video. */
  const VideoSuffixes: seq<string> := [".mp4", ".mkv", ".webm", ".avi"]

  predicate IsVideoFile(name: string) {
    Suffix(name) in VideoSuffixes
  }

  /**
   * A name that ends with a dot and at least one further character, none
   * of them a dot, and has something before that dot, has that ending as
   * its suffix.
   */
  lemma SuffixOfEnding(name: string, e: string)
    requires |e| >= 2 && e[0] == '.' && forall i :: 1 <= i < |e| ==> e[i] != '.'
    requires |name| > |e| && EndsWith(name, e)
    ensures Suffix(name) == e
  {
    var d := |name| - |e|;
    assert name[d..] == e;
    assert name[d] == '.';
    assert forall j :: d < j < |name| ==> name[j] == e[j - d];
    LastDotIsLast(name, d);
  }

  lemma {:induction false} LastDotIsLast(s: string, d: nat)
    requires d < |s| && s[d] == '.' && forall j :: d < j < |s| ==> s[j] != '.'
    ensures LastDot(s) == Some(d)
    decreases |s|
  {
    if d < |s| - 1 {
      var t := s[..|s| - 1];
      assert forall j :: d < j < |t| ==> t[j] == s[j];
      LastDotIsLast(t, d);
    }
  }

  /**
   * A file is a video exactly when its name ends with one of the four
   * suffixes and has something before it.
   */
  lemma IsVideoFileByEnding(name: string)
    ensures IsVideoFile(name) <==>
      exists k :: 0 <= k < |VideoSuffixes| && |name| > |VideoSuffixes[k]| && EndsWith(name, VideoSuffixes[k])
  {
    if IsVideoFile(name) {
      var k :| 0 <= k < |VideoSuffixes| && VideoSuffixes[k] == Suffix(name);
      assert EndsWith(name, VideoSuffixes[k]);
    }
    forall k | 0 <= k < |VideoSuffixes| && |name| > |VideoSuffixes[k]| && EndsWith(name, VideoSuffixes[k])
      ensures IsVideoFile(name)
    {
      EndingMakesVideo(name, k);
    }
  }

  lemma EndingMakesVideo(name: string, k: nat)
    requires k < |VideoSuffixes| && |name| > |VideoSuffixes[k]| && EndsWith(name, VideoSuffixes[k])
    ensures IsVideoFile(name)
  {
    var e := VideoSuffixes[k];
    assert forall i :: 1 <= i < |e| ==> e[i] != '.';
    SuffixOfEnding(name, e);
  }

  /** `Path.glob(f"{stem}.*")` on a directory listing: the names that begin with the stem and a dot. */
  function Globbed(listing: seq<string>, stem: string): (r: seq<string>)
    ensures forall i :: 0 <= i < |r| ==> r[i] in listing && IsPrefix(stem + ".", r[i])
  {
    if listing == [] then []
    else
      var rest := Globbed(listing[1..], stem);
      if IsPrefix(stem + ".", listing[0]) then [listing[0]] + rest else rest
  }

  predicate IsPrefix(p: string, s: string) {
    |p| <= |s| && s[..|p|] == p
  }

  /** `[f for f in files if f.suffix in [...]]`: the video files, in the order found. */
  function VideoFiles(files: seq<string>): (r: seq<string>)
    ensures forall i :: 0 <= i < |r| ==> r[i] in files && IsVideoFile(r[i])
    ensures r == [] <==> forall i :: 0 <= i < |files| ==> !IsVideoFile(files[i])
  {
    if files == [] then []
    else
      var rest := VideoFiles(files[1..]);
      assert forall i :: 1 <= i < |files| ==> files[i] == files[1..][i - 1];
      if IsVideoFile(files[0]) then
        assert ([files[0]] + rest)[0] == files[0];
        [files[0]] + rest
      else
        rest
  }

  /** The file `download_video` reports, the first of the filtered list, is the first video file of the listing. */
  lemma {:induction false} FirstVideoFileIsFirst(files: seq<string>)
    requires VideoFiles(files) != []
    ensures exists k :: 0 <= k < |files| && files[k] == VideoFiles(files)[0] &&
                        forall j :: 0 <= j < k ==> !IsVideoFile(files[j])
  {
    if IsVideoFile(files[0]) {
      assert VideoFiles(files) == [files[0]] + VideoFiles(files[1..]);
      assert files[0] == VideoFiles(files)[0];
    } else {
      var tail := files[1..];
      assert VideoFiles(files) == VideoFiles(tail);
      FirstVideoFileIsFirst(tail);
      var k :| 0 <= k < |tail| && tail[k] == VideoFiles(tail)[0] &&
               forall j :: 0 <= j < k ==> !IsVideoFile(tail[j]);
      assert files[k + 1] == tail[k];
      forall j | 0 <= j < k + 1
        ensures !IsVideoFile(files[j])
      {
        if j > 0 {
          assert files[j] == tail[j - 1];
        }
      }
    }
  }

  /** `VideoInfo`: what yt-dlp reports about a video without downloading it. */
  datatype VideoInfo = VideoInfo(
    url: string,
    title: string,
    duration: Option<int>,
    formatId: Option<string>,
    filesize: Option<int>,
    quality: Option<string>,
    directUrl: Option<string>)

  /** `DownloadResult`; `downloadTime` in seconds. */
  datatype DownloadResult = DownloadResult(
    url: string,
    success: bool,
    filepath: Option<string>,
    error: Option<string>,
    videoInfo: Option<VideoInfo>,
    downloadTime: Option<real>)

  /** How yt-dlp's download ended: the output directory's listing afterwards, or an exception's message. */
  datatype Transfer = Completed(listing: seq<string>) | Raised(message: string)

  const NoInfoError: string := "Keine Video-Informationen gefunden"
  const FileNotFoundError: string := "Download-Datei nicht gefunden"
  const FailurePrefix: string := "Download fehlgeschlagen: "

  /** The file stem: the caller's filename when non-empty, else the safe filename. */
  function OutputStem(customFilename: Option<string>, netloc: string, title: string, now: nat): (r: string)
    ensures customFilename.Some? && customFilename.value != [] ==> r == customFilename.value
    ensures customFilename.None? || customFilename.value == [] ==> r == SafeFilename(netloc, title, now)
  {
    if customFilename.Some? && customFilename.value != [] then customFilename.value
    else SafeFilename(netloc, title, now)
  }

  /**
   * `download_video`: `info` is what `extract_video_info` returned,
   * `transfer` how the download ended, `now` the `time.time()` of the
   * filename fallback and `elapsed` the time since the start.
   */
  function DownloadVideo(url: string, netloc: string, customFilename: Option<string>,
                         info: Option<VideoInfo>, transfer: Transfer, now: nat, elapsed: real): (r: DownloadResult)
    ensures r.url == url
    ensures info.None? ==> r == DownloadResult(url, false, None, Some(NoInfoError), None, None)
    ensures transfer.Raised? && info.Some? ==> r.error == Some(FailurePrefix + transfer.message)
    ensures (info.Some? && transfer.Completed? &&
             VideoFiles(Globbed(transfer.listing, OutputStem(customFilename, netloc, info.value.title, now))) == [])
            ==> r == DownloadResult(url, false, None, Some(FileNotFoundError), None, None)
  {
    if info.None? then
      DownloadResult(url, false, None, Some(NoInfoError), None, None)
    else
      var stem := OutputStem(customFilename, netloc, info.value.title, now);
      match transfer
      case Raised(e) => DownloadResult(url, false, None, Some(FailurePrefix + e), None, None)
      case Completed(listing) =>
        var videos := VideoFiles(Globbed(listing, stem));
        if videos != [] then DownloadResult(url, true, Some(videos[0]), None, info, Some(elapsed))
        else DownloadResult(url, false, None, Some(FileNotFoundError), None, None)
  }

  /** Every result either succeeds with a file and no error, or fails with a non-empty error and no file. */
  predicate WellFormed(r: DownloadResult) {
    if r.success then r.filepath.Some? && r.error.None? && r.videoInfo.Some?
    else r.filepath.None? && r.error.Some? && r.error.value != []
  }

  /** Every result either succeeds with a file and no error, or fails with a non-empty error and no file. */
  lemma DownloadWellFormed(url: string, netloc: string, customFilename: Option<string>,
                           info: Option<VideoInfo>, transfer: Transfer, now: nat, elapsed: real)
    ensures WellFormed(DownloadVideo(url, netloc, customFilename, info, transfer, now, elapsed))
  {
  }

  /**
   * A download succeeds exactly when yt-dlp found the video's information,
   * finished, and left a file named after the stem with a video suffix.
   */
  lemma {:induction false} DownloadSucceedsIff(url: string, netloc: string, customFilename: Option<string>,
                                              info: Option<VideoInfo>, transfer: Transfer, now: nat, elapsed: real)
    ensures DownloadVideo(url, netloc, customFilename, info, transfer, now, elapsed).success <==>
      (info.Some? && transfer.Completed? &&
        exists i :: 0 <= i < |transfer.listing| &&
          IsPrefix(OutputStem(customFilename, netloc, info.value.title, now) + ".", transfer.listing[i]) &&
          IsVideoFile(transfer.listing[i]))
  {
    if info.Some? && transfer.Completed? {
      var stem := OutputStem(customFilename, netloc, info.value.title, now);
      GlobbedHasVideoIff(transfer.listing, stem);
    }
  }

  /** The globbed files hold a video exactly when some listed video file is named after the stem. */
  lemma GlobbedHasVideoIff(listing: seq<string>, stem: string)
    ensures VideoFiles(Globbed(listing, stem)) != [] <==>
      exists i :: 0 <= i < |listing| && IsPrefix(stem + ".", listing[i]) && IsVideoFile(listing[i])
  {
    var g := Globbed(listing, stem);
    GlobbedComplete(listing, stem);
    if exists i :: 0 <= i < |listing| && IsPrefix(stem + ".", listing[i]) && IsVideoFile(listing[i]) {
      var i :| 0 <= i < |listing| && IsPrefix(stem + ".", listing[i]) && IsVideoFile(listing[i]);
      var j :| 0 <= j < |g| && g[j] == listing[i];
      assert VideoFiles(g) != [];
    }
  }

  /** `path` is a video file of `files` and no earlier file of `files` is one. */
  predicate FirstVideoOf(files: seq<string>, path: string) {
    exists k :: 0 <= k < |files| && files[k] == path && forall j :: 0 <= j < k ==> !IsVideoFile(files[j])
  }

  /**
   * The first video among the files globbed for `stem` is a listed file
   * named after the stem, with a video suffix, and no globbed file before
   * it is a video.
   */
  lemma GlobbedFirstVideo(listing: seq<string>, stem: string)
    requires VideoFiles(Globbed(listing, stem)) != []
    ensures var path := VideoFiles(Globbed(listing, stem))[0];
      && path in listing
      && IsVideoFile(path)
      && IsPrefix(stem + ".", path)
      && FirstVideoOf(Globbed(listing, stem), path)
  {
    var g := Globbed(listing, stem);
    assert VideoFiles(g)[0] in g;
    FirstVideoFileIsFirst(g);
  }

  /**
   * The file a successful download reports is a listed file named after
   * the stem, with a video suffix, and the first video among the globbed
   * files.
   */
  lemma DownloadReportsFirstVideo(url: string, netloc: string, customFilename: Option<string>,
                                  info: Option<VideoInfo>, transfer: Transfer, now: nat, elapsed: real)
    requires DownloadVideo(url, netloc, customFilename, info, transfer, now, elapsed).success
    ensures info.Some? && transfer.Completed?
    ensures var path := DownloadVideo(url, netloc, customFilename, info, transfer, now, elapsed).filepath.value;
      var stem := OutputStem(customFilename, netloc, info.value.title, now);
      && path in transfer.listing
      && IsVideoFile(path)
      && IsPrefix(stem + ".", path)
      && FirstVideoOf(Globbed(transfer.listing, stem), path)
  {
    var stem := OutputStem(customFilename, netloc, info.value.title, now);
    var videos := VideoFiles(Globbed(transfer.listing, stem));
    assert videos != [];
    assert DownloadVideo(url, netloc, customFilename, info, transfer, now, elapsed).filepath == Some(videos[0]);
    GlobbedFirstVideo(transfer.listing, stem);
  }

  /** Every listed name that begins with the stem and a dot is globbed. */
  lemma {:induction false} GlobbedComplete(listing: seq<string>, stem: string)
    ensures forall i :: 0 <= i < |listing| && IsPrefix(stem + ".", listing[i]) ==> listing[i] in Globbed(listing, stem)
  {
    if listing != [] {
      GlobbedComplete(listing[1..], stem);
      assert forall i :: 1 <= i < |listing| ==> listing[i] == listing[1..][i - 1];
    }
  }
}
