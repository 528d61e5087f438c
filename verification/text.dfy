/** String primitives with JavaScript meaning: white space, trimming, substring search, truthiness. */
module Text {
  import opened Wrappers

  /** The characters JavaScript's `\s` class and `String.prototype.trim` treat as white space. */
  predicate IsSpace(c: char) {
    || c == '\t' || c == '\n' || c == '\U{B}' || c == '\U{C}' || c == '\r' || c == ' '
    || c == '\U{A0}' || c == '\U{1680}' || ('\U{2000}' <= c <= '\U{200A}')
    || c == '\U{2028}' || c == '\U{2029}' || c == '\U{202F}' || c == '\U{205F}'
    || c == '\U{3000}' || c == '\U{FEFF}'
  }

  /** A character outside the Basic Multilingual Plane: JavaScript stores it as two UTF-16
      code units (a surrogate pair). */
  predicate IsAstral(c: char) {
    c as int > 0xFFFF
  }

  /** JavaScript's `length`: the number of UTF-16 code units of `s`. */
  function Utf16Length(s: string): (n: nat)
    ensures |s| <= n <= 2 * |s|
    ensures n == |s| <==> forall k :: 0 <= k < |s| ==> !IsAstral(s[k])
  {
    if |s| == 0 then 0 else (if IsAstral(s[0]) then 2 else 1) + Utf16Length(s[1..])
  }

  /** `s` with its leading white space removed. */
  function TrimStart(s: string): (r: string)
    ensures |r| <= |s| && r == s[|s| - |r|..]
    ensures forall k :: 0 <= k < |s| - |r| ==> IsSpace(s[k])
    ensures |r| == 0 || !IsSpace(r[0])
  {
    if |s| > 0 && IsSpace(s[0]) then TrimStart(s[1..]) else s
  }

  /** `s` with its trailing white space removed. */
  function TrimEnd(s: string): (r: string)
    ensures |r| <= |s| && r == s[..|r|]
    ensures forall k :: |r| <= k < |s| ==> IsSpace(s[k])
    ensures |r| == 0 || !IsSpace(r[|r| - 1])
  {
    if |s| > 0 && IsSpace(s[|s| - 1]) then TrimEnd(s[..|s| - 1]) else s
  }

  /** `pat` occurs in `s` starting at index `i`. */
  predicate OccursAt(s: string, pat: string, i: nat) {
    i + |pat| <= |s| && s[i..i + |pat|] == pat
  }

  /** A prefix of a suffix of `s` occurs in `s` where the suffix starts. */
  lemma PrefixOfSuffixOccurs(s: string, a: string, r: string)
    requires |a| <= |s| && a == s[|s| - |a|..]
    requires |r| <= |a| && r == a[..|r|]
    ensures OccursAt(s, r, |s| - |a|)
  {
    var i := |s| - |a|;
    assert s[i..i + |r|] == a[..|r|];
  }

  /** Everything in `s` before index `i` and from index `j` on is white space. */
  predicate SpaceOutside(s: string, i: nat, j: nat) {
    forall k :: 0 <= k < |s| && (k < i || j <= k) ==> IsSpace(s[k])
  }

  /** A prefix `r` of a suffix `a` of `s`, where `s` has only white space before `a` and `a`
      only white space after `r`, is a window of `s` with only white space around it. */
  lemma TrimWindow(s: string, a: string, r: string)
    requires |a| <= |s| && a == s[|s| - |a|..] && forall k :: 0 <= k < |s| - |a| ==> IsSpace(s[k])
    requires |r| <= |a| && r == a[..|r|] && forall k :: |r| <= k < |a| ==> IsSpace(a[k])
    ensures exists i: nat :: OccursAt(s, r, i) && SpaceOutside(s, i, i + |r|)
  {
    PrefixOfSuffixOccurs(s, a, r);
    var i := |s| - |a|;
    forall k | i + |r| <= k < |s| ensures IsSpace(s[k]) {
      assert s[k] == a[k - i];
    }
    assert SpaceOutside(s, i, i + |r|);
  }

  /** `String.prototype.trim` (and the validator's `trim()` sanitizer). */
  function Trim(s: string): (r: string)
    ensures |r| <= |s|
    ensures |r| == 0 || (!IsSpace(r[0]) && !IsSpace(r[|r| - 1]))
    ensures exists i: nat :: OccursAt(s, r, i)
    ensures exists i: nat :: OccursAt(s, r, i) && SpaceOutside(s, i, i + |r|)
  {
    var a := TrimStart(s);
    var r := TrimEnd(a);
    TrimWindow(s, a, r);
    r
  }

  /** A string that neither starts nor ends with white space is its own trim. */
  lemma TrimUnpadded(s: string)
    requires |s| > 0 && !IsSpace(s[0]) && !IsSpace(s[|s| - 1])
    ensures Trim(s) == s
  {
    assert TrimStart(s) == s;
    assert TrimEnd(s) == s;
  }

  /** `s` is made only of white space. */
  predicate AllSpace(s: string) {
    forall k :: 0 <= k < |s| ==> IsSpace(s[k])
  }

  /** Leading white space in front of a string that starts otherwise is all `TrimStart` removes. */
  lemma {:induction false} TrimStartSkips(pre: string, t: string)
    requires AllSpace(pre) && |t| > 0 && !IsSpace(t[0])
    ensures TrimStart(pre + t) == t
    decreases |pre|
  {
    if |pre| == 0 {
      assert pre + t == t;
    } else {
      assert (pre + t)[0] == pre[0];
      assert (pre + t)[1..] == pre[1..] + t;
      TrimStartSkips(pre[1..], t);
    }
  }

  /** Trailing white space after a string that ends otherwise is all `TrimEnd` removes. */
  lemma {:induction false} TrimEndSkips(t: string, post: string)
    requires AllSpace(post) && |t| > 0 && !IsSpace(t[|t| - 1])
    ensures TrimEnd(t + post) == t
    decreases |post|
  {
    if |post| == 0 {
      assert t + post == t;
    } else {
      var s := t + post;
      assert s[|s| - 1] == post[|post| - 1];
      assert s[..|s| - 1] == t + post[..|post| - 1];
      TrimEndSkips(t, post[..|post| - 1]);
    }
  }

  /** White space on either side of a string that neither starts nor ends with white space
      trims off, however much of it there is. */
  lemma TrimPadded(pre: string, core: string, post: string)
    requires AllSpace(pre) && AllSpace(post)
    requires |core| > 0 && !IsSpace(core[0]) && !IsSpace(core[|core| - 1])
    ensures Trim(pre + core + post) == core
  {
    assert pre + core + post == pre + (core + post);
    assert (core + post)[0] == core[0];
    TrimStartSkips(pre, core + post);
    TrimEndSkips(core, post);
  }

  /** A string made only of white space trims to the empty string, and only such a string does. */
  lemma TrimEmptyIffAllSpace(s: string)
    ensures Trim(s) == [] <==> forall k :: 0 <= k < |s| ==> IsSpace(s[k])
  {
  }

  /** An occurrence one position further into `s` is an occurrence in the rest of `s`. */
  lemma OccursShift(s: string, pat: string, i: nat)
    requires |s| > 0
    ensures OccursAt(s, pat, i + 1) <==> OccursAt(s[1..], pat, i)
  {
    if i + 1 + |pat| <= |s| {
      assert s[i + 1..i + 1 + |pat|] == s[1..][i..i + |pat|];
    }
  }

  /** `s.includes(pat)`: `pat` occurs in `s` as a contiguous run. */
  function Contains(s: string, pat: string): (r: bool)
    ensures r <==> exists i: nat :: OccursAt(s, pat, i)
  {
    if pat <= s then
      assert OccursAt(s, pat, 0);
      true
    else if |s| == 0 then
      false
    else
      var r := Contains(s[1..], pat);
      assert r ==> exists i: nat :: OccursAt(s, pat, i) by {
        if r {
          var i: nat :| OccursAt(s[1..], pat, i);
          OccursShift(s, pat, i);
        }
      }
      assert (exists i: nat :: OccursAt(s, pat, i)) ==> r by {
        if exists i: nat :: OccursAt(s, pat, i) {
          var i: nat :| OccursAt(s, pat, i);
          assert i != 0;
          OccursShift(s, pat, i - 1);
        }
      }
      r
  }

  /** JavaScript truthiness of an optional string: present and non-empty. */
  predicate Truthy(o: Option<string>) {
    o.Some? && o.value != ""
  }

  /** `s.split(c)[0]`: the part of `s` before the first `c`, or all of `s` when there is none. */
  function BeforeFirst(s: string, c: char): (r: string)
    ensures r <= s
    ensures c !in r
    ensures |r| < |s| ==> s[|r|] == c
  {
    if |s| == 0 || s[0] == c then [] else [s[0]] + BeforeFirst(s[1..], c)
  }

  // ---------------------------------------------------------------------------
  // Decimal rendering of non-negative integers (JavaScript's number-to-string for them)

  predicate IsDigit(c: char) {
    '0' <= c <= '9'
  }

  function DigitChar(d: nat): (c: char)
    requires d < 10
    ensures IsDigit(c)
  {
    ['0', '1', '2', '3', '4', '5', '6', '7', '8', '9'][d]
  }

  function DigitValue(c: char): (d: nat)
    requires IsDigit(c)
    ensures d < 10
  {
    (c as int - '0' as int) as nat
  }

  /** The decimal spelling of `n`, without sign or leading zeros. */
  function Decimal(n: nat): (s: string)
    ensures |s| > 0
    ensures forall k :: 0 <= k < |s| ==> IsDigit(s[k])
  {
    if n < 10 then [DigitChar(n)] else Decimal(n / 10) + [DigitChar(n % 10)]
  }

  /** The value of a digit string. */
  function DecimalValue(s: string): nat
    requires forall k :: 0 <= k < |s| ==> IsDigit(s[k])
  {
    if |s| == 0 then 0 else DecimalValue(s[..|s| - 1]) * 10 + DigitValue(s[|s| - 1])
  }

  /** Reading back a rendered number gives the number. */
  lemma {:induction false} DecimalRoundTrip(n: nat)
    ensures DecimalValue(Decimal(n)) == n
  {
    if n >= 10 {
      var s := Decimal(n);
      assert s[..|s| - 1] == Decimal(n / 10);
      DecimalRoundTrip(n / 10);
    }
  }

  /** Length of the longest all-digit prefix of `s`. */
  function DigitSpan(s: string): (n: nat)
    ensures n <= |s|
  {
    if |s| == 0 || !IsDigit(s[0]) then 0 else 1 + DigitSpan(s[1..])
  }

  /** A digit string followed by nothing or by a non-digit is recovered as the digit span. */
  lemma {:induction false} DigitSpanOfConcat(a: string, c: string)
    requires forall k :: 0 <= k < |a| ==> IsDigit(a[k])
    requires |c| == 0 || !IsDigit(c[0])
    ensures DigitSpan(a + c) == |a|
  {
    if |a| > 0 {
      assert (a + c)[1..] == a[1..] + c;
      DigitSpanOfConcat(a[1..], c);
    } else {
      assert a + c == c;
    }
  }

  /** Two renderings followed by nothing or by a non-digit can only be equal when the numbers
      and the tails are equal. */
  lemma DecimalPrefixInjective(m: nat, c1: string, n: nat, c2: string)
    requires |c1| == 0 || !IsDigit(c1[0])
    requires |c2| == 0 || !IsDigit(c2[0])
    requires Decimal(m) + c1 == Decimal(n) + c2
    ensures m == n && c1 == c2
  {
    DigitSpanOfConcat(Decimal(m), c1);
    DigitSpanOfConcat(Decimal(n), c2);
    assert Decimal(m) == (Decimal(m) + c1)[..|Decimal(m)|];
    assert Decimal(n) == (Decimal(n) + c2)[..|Decimal(n)|];
    DecimalRoundTrip(m);
    DecimalRoundTrip(n);
    assert c1 == (Decimal(m) + c1)[|Decimal(m)|..];
    assert c2 == (Decimal(n) + c2)[|Decimal(n)|..];
  }
}
