/**
 * String helpers standing for the parts of the C++ standard library that the
 * server relies on: std::string::find, find_last_of, the "erase up to
 * find_first_not_of / from find_last_not_of" trimming idiom, ::tolower,
 * std::to_string and the digit reading of std::stoul.
 */
module Text {

  datatype Option<+T> = None | Some(value: T)

  function Min(a: nat, b: nat): nat
  {
    if a <= b then a else b
  }

  /** The first `n` characters of `pat` occur in `s` starting at index `i`. */
  predicate Matches(s: string, pat: string, i: nat, n: nat)
    decreases n
  {
    n == 0 || (n <= |pat| && i + n <= |s| && s[i + n - 1] == pat[n - 1] && Matches(s, pat, i, n - 1))
  }

  /** `pat` occurs in `s` starting at index `i`. */
  predicate OccursAt(s: string, pat: string, i: nat)
  {
    i + |pat| <= |s| && Matches(s, pat, i, |pat|)
  }

  /** A prefix of `pat` matches exactly when each of its characters does. */
  lemma {:induction false} MatchesChars(s: string, pat: string, i: nat, n: nat)
    requires n <= |pat| && i + n <= |s|
    ensures Matches(s, pat, i, n) <==> forall k :: 0 <= k < n ==> s[i + k] == pat[k]
    decreases n
  {
    if n > 0 {
      MatchesChars(s, pat, i, n - 1);
    }
  }

  /** An occurrence, character by character. */
  lemma OccursChars(s: string, pat: string, i: nat)
    requires i + |pat| <= |s|
    ensures OccursAt(s, pat, i) <==> forall k :: 0 <= k < |pat| ==> s[i + k] == pat[k]
  {
    MatchesChars(s, pat, i, |pat|);
  }

  /** One character of an occurrence. */
  lemma OccursChar(s: string, pat: string, i: nat, k: nat)
    requires OccursAt(s, pat, i) && k < |pat|
    ensures s[i + k] == pat[k]
  {
    OccursChars(s, pat, i);
  }

  /** One character that differs rules an occurrence out. */
  lemma Mismatch(s: string, pat: string, i: nat, k: nat)
    requires k < |pat| && i + k < |s| && s[i + k] != pat[k]
    ensures !OccursAt(s, pat, i)
  {
    if i + |pat| <= |s| {
      OccursChars(s, pat, i);
    }
  }

  /** An occurrence is a slice of `s` equal to `pat`. */
  lemma OccursSlice(s: string, pat: string, i: nat)
    requires i + |pat| <= |s|
    ensures OccursAt(s, pat, i) <==> s[i..i + |pat|] == pat
  {
    OccursChars(s, pat, i);
    if OccursAt(s, pat, i) {
      assert s[i..i + |pat|] == pat;
    }
    if s[i..i + |pat|] == pat {
      forall k | 0 <= k < |pat|
        ensures s[i + k] == pat[k]
      {
        assert s[i + k] == s[i..i + |pat|][k];
      }
    }
  }

  /**
   * std::string::find(pat, from): the first index at or after `from` where
   * `pat` occurs, or None (npos), which is also the answer when `from` is
   * beyond the end of `s`.
   */
  function Find(s: string, pat: string, from: nat): (r: Option<nat>)
    ensures r.Some? ==> from <= r.value && OccursAt(s, pat, r.value)
    decreases |s| - from
  {
    if from + |pat| > |s| then None
    else if OccursAt(s, pat, from) then Some(from)
    else Find(s, pat, from + 1)
  }

  /** find answers the first occurrence at or after `from`, and npos only when there is none. */
  lemma {:induction false} FindIsFirst(s: string, pat: string, from: nat)
    ensures var r := Find(s, pat, from);
            && (r.Some? ==> forall k :: from <= k < r.value ==> !OccursAt(s, pat, k))
            && (r.None? ==> forall k :: from <= k ==> !OccursAt(s, pat, k))
    decreases |s| - from
  {
    if from + |pat| <= |s| && !OccursAt(s, pat, from) {
      FindIsFirst(s, pat, from + 1);
    }
  }

  /** Whether `pat` occurs anywhere in `s` (`s.find(pat) != npos`). */
  predicate Contains(s: string, pat: string)
  {
    Find(s, pat, 0).Some?
  }

  /** If `pat` occurs at `i` and nowhere in [from, i), then find answers `i`. */
  lemma {:induction false} FindAt(s: string, pat: string, from: nat, i: nat)
    requires from <= i && OccursAt(s, pat, i)
    requires forall k :: from <= k < i ==> !OccursAt(s, pat, k)
    ensures Find(s, pat, from) == Some(i)
    decreases i - from
  {
    if from < i {
      assert !OccursAt(s, pat, from);
      FindAt(s, pat, from + 1, i);
    }
  }

  /**
   * Searching from the end of `pre` skips `mid`, which cannot hold the
   * start of `pat`, and finds the `pat` that follows it.
   */
  lemma FindPast(pre: string, mid: string, pat: string, post: string)
    requires pat != [] && pat[0] !in mid
    ensures Find(pre + mid + pat + post, pat, |pre|) == Some(|pre| + |mid|)
  {
    var s := pre + mid + pat + post;
    forall k | |pre| <= k < |pre| + |mid|
      ensures !OccursAt(s, pat, k)
    {
      assert s[k + 0] == mid[k - |pre|];
      Mismatch(s, pat, k, 0);
    }
    assert s[|pre| + |mid|..|pre| + |mid| + |pat|] == pat;
    OccursSlice(s, pat, |pre| + |mid|);
    FindAt(s, pat, |pre|, |pre| + |mid|);
  }

  /** If `pat` occurs at `i` and no character in [from, i) starts it, find answers `i`. */
  lemma {:induction false} FindFirst(s: string, pat: string, from: nat, i: nat)
    requires pat != [] && from <= i && OccursAt(s, pat, i)
    requires forall k :: from <= k < i ==> s[k] != pat[0]
    ensures Find(s, pat, from) == Some(i)
  {
    forall k | from <= k < i
      ensures !OccursAt(s, pat, k)
    {
      assert s[k + 0] != pat[0];
      Mismatch(s, pat, k, 0);
    }
    FindAt(s, pat, from, i);
  }

  /** Both halves of a concatenation occur in it: the first at 0, the second right after. */
  lemma OccursConcat(a: string, b: string)
    ensures OccursAt(a + b, a, 0) && OccursAt(a + b, b, |a|)
  {
    assert (a + b)[..|a|] == a;
    assert (a + b)[|a|..] == b;
    OccursSlice(a + b, a, 0);
    OccursSlice(a + b, b, |a|);
  }

  /** What occurs inside an occurrence occurs in the whole string, at the sum of the offsets. */
  lemma OccursIn(s: string, t: string, i: nat, u: string, j: nat)
    requires OccursAt(s, t, i) && OccursAt(t, u, j)
    ensures OccursAt(s, u, i + j)
  {
    OccursChars(s, t, i);
    OccursChars(t, u, j);
    forall k | 0 <= k < |u|
      ensures s[i + j + k] == u[k]
    {
      assert s[i + (j + k)] == t[j + k];
      assert t[j + k] == u[k];
    }
    OccursChars(s, u, i + j);
  }

  /** Two adjacent occurrences make an occurrence of the concatenation. */
  lemma OccursJoin(s: string, a: string, b: string, i: nat)
    requires OccursAt(s, a, i) && OccursAt(s, b, i + |a|)
    ensures OccursAt(s, a + b, i)
  {
    OccursSlice(s, a, i);
    OccursSlice(s, b, i + |a|);
    assert s[i..i + |a| + |b|] == s[i..i + |a|] + s[i + |a|..i + |a| + |b|];
    OccursSlice(s, a + b, i);
  }

  /** Where `w` occurs, a `pat` that lies inside it and is absent from `w` there is absent from `s`. */
  lemma AbsentWithin(s: string, w: string, i: nat, pat: string, k: nat)
    requires OccursAt(s, w, i) && k + |pat| <= |w| && !OccursAt(w, pat, k)
    ensures !OccursAt(s, pat, i + k)
  {
    OccursChars(w, pat, k);
    var m :| 0 <= m < |pat| && w[k + m] != pat[m];
    OccursChar(s, w, i, k + m);
    Mismatch(s, pat, i + k, m);
  }

  /** A string that does not start with `a` does not start with `a` followed by anything. */
  lemma AbsentExtended(s: string, a: string, c: string, i: nat)
    requires !OccursAt(s, a, i)
    ensures !OccursAt(s, a + c, i)
  {
    if i + |a| <= |s| {
      OccursChars(s, a, i);
      var m :| 0 <= m < |a| && s[i + m] != a[m];
      assert (a + c)[m] == a[m];
      Mismatch(s, a + c, i, m);
    }
  }

  /**
   * Where `w` occurs at `i`, `pat` occurs nowhere in the stretch of `s`
   * that lies before the first occurrence of `pat` in `w`.
   */
  lemma {:induction false} NoneBefore(s: string, w: string, i: nat, pat: string, j: nat)
    requires OccursAt(s, w, i) && Find(w, pat, 0) == Some(j)
    ensures forall k :: i <= k < i + j ==> !OccursAt(s, pat, k)
  {
    FindIsFirst(w, pat, 0);
    forall k | i <= k < i + j
      ensures !OccursAt(s, pat, k)
    {
      AbsentWithin(s, w, i, pat, k - i);
    }
  }

  /**
   * Searching `s` from anywhere in an occurrence of `w` up to the first
   * `pat` in `w` finds that `pat`: the answer depends only on `w`.
   */
  lemma {:induction false} FindInside(s: string, w: string, i: nat, pat: string, from: nat, j: nat)
    requires OccursAt(s, w, i) && Find(w, pat, 0) == Some(j) && i <= from <= i + j
    ensures Find(s, pat, from) == Some(i + j)
  {
    NoneBefore(s, w, i, pat, j);
    OccursIn(s, w, i, pat, j);
    FindAt(s, pat, from, i + j);
  }

  /** The index of the first `c` in `s`, or |s| when there is none. */
  function IndexOf(s: string, c: char): (i: nat)
    ensures i <= |s|
    ensures i < |s| ==> s[i] == c
    ensures forall k :: 0 <= k < i ==> s[k] != c
  {
    if s == [] then 0
    else if s[0] == c then 0
    else 1 + IndexOf(s[1..], c)
  }

  /** The first `c` of `pre + [c] + post` is the one after `pre` when `pre` has none. */
  lemma {:induction false} IndexOfJoin(pre: string, c: char, post: string)
    requires c !in pre
    ensures var s := pre + [c] + post;
            IndexOf(s, c) == |pre| && s[..|pre|] == pre && s[|pre| + 1..] == post
  {
    var s := pre + [c] + post;
    assert s[|pre|] == c;
    assert forall k :: 0 <= k < |pre| ==> s[k] == pre[k];
  }

  /** std::string::find_last_of(c): the index of the last `c`, or None. */
  function LastIndexOf(s: string, c: char): (r: Option<nat>)
    ensures r.Some? ==> r.value < |s| && s[r.value] == c
    ensures r.Some? ==> forall k :: r.value < k < |s| ==> s[k] != c
    ensures r.None? <==> c !in s
  {
    if s == [] then None
    else if s[|s| - 1] == c then Some(|s| - 1)
    else LastIndexOf(s[..|s| - 1], c)
  }

  /** The two characters the server's trimming strips: space and tab. */
  predicate IsBlank(c: char)
  {
    c == ' ' || c == '\t'
  }

  /** `s.erase(0, s.find_first_not_of(" \t"))`: drop the leading blanks. */
  function TrimLeading(s: string): (r: string)
    ensures |r| <= |s| && r == s[|s| - |r|..]
    ensures forall k :: 0 <= k < |s| - |r| ==> IsBlank(s[k])
    ensures r == [] || !IsBlank(r[0])
  {
    if s != [] && IsBlank(s[0]) then TrimLeading(s[1..]) else s
  }

  /** One leading blank before text that starts with no blank is dropped. */
  lemma {:induction false} TrimLeadingBlank(c: char, s: string)
    requires IsBlank(c) && (s == [] || !IsBlank(s[0]))
    ensures TrimLeading([c] + s) == s
  {
    assert ([c] + s)[1..] == s;
  }

  /** `s.erase(s.find_last_not_of(" \t") + 1)`: drop the trailing blanks. */
  function TrimTrailing(s: string): (r: string)
    ensures |r| <= |s| && r == s[..|r|]
    ensures forall k :: |r| <= k < |s| ==> IsBlank(s[k])
    ensures r == [] || !IsBlank(r[|r| - 1])
  {
    if s != [] && IsBlank(s[|s| - 1]) then TrimTrailing(s[..|s| - 1]) else s
  }

  /** Both trimming steps, in the order handlePostRequest applies them. */
  function Trim(s: string): (r: string)
    ensures |r| <= |s|
    ensures r == [] || (!IsBlank(r[0]) && !IsBlank(r[|r| - 1]))
    ensures r == [] <==> forall k :: 0 <= k < |s| ==> IsBlank(s[k])
  {
    TrimBothEnds(s);
    TrimTrailing(TrimLeading(s))
  }

  /** Trimming both ends leaves text with no blank at either end, and nothing exactly when all is blank. */
  lemma {:induction false} TrimBothEnds(s: string)
    ensures var r := TrimTrailing(TrimLeading(s));
            && (r == [] || (!IsBlank(r[0]) && !IsBlank(r[|r| - 1])))
            && (r == [] <==> forall k :: 0 <= k < |s| ==> IsBlank(s[k]))
  {
    var l := TrimLeading(s);
    var r := TrimTrailing(l);
    if r != [] {
      assert r[0] == l[0] == s[|s| - |l|];
    }
  }

  /** ::tolower in the "C" locale: only ASCII capitals change. */
  function LowerChar(c: char): (d: char)
  {
    if 'A' <= c <= 'Z' then (c as int + 32) as char else c
  }

  /** std::transform(..., ::tolower) over a whole string. */
  function ToLower(s: string): (r: string)
    ensures |r| == |s|
    ensures forall k :: 0 <= k < |s| ==> r[k] == LowerChar(s[k])
  {
    if s == [] then [] else [LowerChar(s[0])] + ToLower(s[1..])
  }

  /** isspace in the "C" locale: space, \t, \n, \v, \f and \r. */
  predicate IsSpace(c: char)
  {
    c == ' ' || c == '\t' || c == '\n' || c == '\U{B}' || c == '\U{C}' || c == '\r'
  }

  predicate IsDigit(c: char)
  {
    '0' <= c <= '9'
  }

  predicate AllDigits(s: string)
  {
    forall k :: 0 <= k < |s| ==> IsDigit(s[k])
  }

  function DigitChar(d: nat): (c: char)
    requires d < 10
    ensures IsDigit(c)
  {
    ('0' as int + d) as char
  }

  function DigitValue(c: char): (d: nat)
    requires IsDigit(c)
    ensures d < 10 && DigitChar(d) == c
  {
    c as int - '0' as int
  }

  /** std::to_string on an unsigned value: its decimal digits, no leading zeros. */
  function Decimal(n: nat): (s: string)
    ensures 1 <= |s| && AllDigits(s)
    ensures |s| > 1 ==> s[0] != '0'
  {
    if n < 10 then [DigitChar(n)] else Decimal(n / 10) + [DigitChar(n % 10)]
  }

  /** The number a string of decimal digits denotes. */
  function DigitsValue(d: string): nat
    requires AllDigits(d)
  {
    if d == [] then 0 else DigitsValue(d[..|d| - 1]) * 10 + DigitValue(d[|d| - 1])
  }

  /** Reading back what std::to_string wrote gives the original number. */
  lemma {:induction false} DecimalRoundTrip(n: nat)
    ensures DigitsValue(Decimal(n)) == n
  {
    var s := Decimal(n);
    if n >= 10 {
      DecimalRoundTrip(n / 10);
      assert s[..|s| - 1] == Decimal(n / 10);
    }
  }

  /** Different numbers are written differently. */
  lemma DecimalInjective(m: nat, n: nat)
    requires Decimal(m) == Decimal(n)
    ensures m == n
  {
    DecimalRoundTrip(m);
    DecimalRoundTrip(n);
  }

  /** The longest run of digits at the start of `s`. */
  function DigitPrefix(s: string): (d: string)
    ensures |d| <= |s| && d == s[..|d|] && AllDigits(d)
    ensures |d| == |s| || !IsDigit(s[|d|])
  {
    if s != [] && IsDigit(s[0]) then [s[0]] + DigitPrefix(s[1..]) else []
  }

  /** A digit string followed by a non-digit is exactly the digit prefix. */
  lemma {:induction false} DigitPrefixOf(d: string, rest: string)
    requires AllDigits(d)
    requires rest == [] || !IsDigit(rest[0])
    ensures DigitPrefix(d + rest) == d
  {
    if d != [] {
      assert (d + rest)[1..] == d[1..] + rest;
      DigitPrefixOf(d[1..], rest);
    }
  }
}
