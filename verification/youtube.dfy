/**
  * YouTube URL recognition and video-id extraction, as performed by the
  * regular expression `^.*(youtu.be\/|v\/|u\/\w\/|embed\/|watch\?v=|&v=)([^#&?]*).*`
  * followed by the requirement that the captured group have length 11.
  *
  * Regular-expression semantics made explicit:
  *  - the leading greedy `.*` cannot cross a line terminator and backtracks from the
  *    longest prefix, so the marker used is the LAST one that starts in the first line;
  *  - the six alternatives begin with six different characters, so at most one of them
  *    matches at any position;
  *  - the pattern has no `u` flag, so it works on UTF-16 code units: a character outside
  *    the Basic Multilingual Plane is two units. Every marker starts and ends with an ASCII
  *    character and the classes `.`, `[^#&?]` accept both halves of a surrogate pair, so
  *    positions can be counted in characters, with two exceptions made explicit below: the
  *    `.` in `youtu.be` is one unit, so it matches only a non-line-terminator in the Basic
  *    Multilingual Plane, and the length the group is checked against counts code units;
  *  - the group `[^#&?]*` is greedy and the trailing `.*` always succeeds, so the group
  *    is the maximal run of characters other than `#`, `&`, `?` after the marker
  *    (that run may cross a line terminator).
  */
module YouTube {
  import opened Wrappers
  import Text

  /** The characters JavaScript's `.` does not match. */
  predicate IsLineTerminator(c: char) {
    c == '\n' || c == '\r' || c == '\U{2028}' || c == '\U{2029}'
  }

  /** The `\w` class. */
  predicate IsWordChar(c: char) {
    ('a' <= c <= 'z') || ('A' <= c <= 'Z') || ('0' <= c <= '9') || c == '_'
  }

  /** The `[^#&?]` class: characters that may appear in a captured video id. */
  predicate IsIdChar(c: char) {
    c != '#' && c != '&' && c != '?'
  }

  /** Index of the first line terminator, or `|s|`: the prefix `.*` may consume. */
  function LineEnd(s: string): (e: nat)
    ensures e <= |s|
    ensures forall k :: 0 <= k < e ==> !IsLineTerminator(s[k])
    ensures e < |s| ==> IsLineTerminator(s[e])
  {
    if |s| == 0 || IsLineTerminator(s[0]) then 0 else 1 + LineEnd(s[1..])
  }

  /** Length of the alternative of the marker group that matches at `p`, or 0 when none does. */
  function MarkerAt(s: string, p: nat): (n: nat)
    ensures n == 0 || n == 2 || n == 3 || n == 4 || n == 6 || n == 8 || n == 9
    ensures n > 0 ==> p + n <= |s|
  {
    if p + 9 <= |s| && s[p..p + 5] == "youtu" && !IsLineTerminator(s[p + 5]) && !Text.IsAstral(s[p + 5])
       && s[p + 6..p + 9] == "be/" then 9
    else if p + 2 <= |s| && s[p..p + 2] == "v/" then 2
    else if p + 4 <= |s| && s[p..p + 2] == "u/" && IsWordChar(s[p + 2]) && s[p + 3] == '/' then 4
    else if p + 6 <= |s| && s[p..p + 6] == "embed/" then 6
    else if p + 8 <= |s| && s[p..p + 8] == "watch?v=" then 8
    else if p + 3 <= |s| && s[p..p + 3] == "&v=" then 3
    else 0
  }

  /** Backtracking of the greedy prefix: the largest position `<= p` at which a marker starts. */
  function LastMarkerUpTo(s: string, p: nat): (r: Option<nat>)
    ensures r.Some? ==> r.value <= p && MarkerAt(s, r.value) > 0
    ensures r.Some? ==> forall q :: r.value < q <= p ==> MarkerAt(s, q) == 0
    ensures r.None? ==> forall q :: 0 <= q <= p ==> MarkerAt(s, q) == 0
  {
    if MarkerAt(s, p) > 0 then Some(p)
    else if p == 0 then None
    else LastMarkerUpTo(s, p - 1)
  }

  /** End of the maximal run of id characters starting at `i`: the greedy `([^#&?]*)`. */
  function RunEnd(s: string, i: nat): (j: nat)
    requires i <= |s|
    ensures i <= j <= |s|
    ensures forall k :: i <= k < j ==> IsIdChar(s[k])
    ensures j == |s| || !IsIdChar(s[j])
    decreases |s| - i
  {
    if i == |s| || !IsIdChar(s[i]) then i else RunEnd(s, i + 1)
  }

  /** A run of id characters contains none of the characters that end the group. */
  lemma RunHasNoStops(s: string, i: nat, j: nat)
    requires i <= j <= |s|
    requires forall k :: i <= k < j ==> IsIdChar(s[k])
    ensures '#' !in s[i..j] && '&' !in s[i..j] && '?' !in s[i..j]
  {
    forall k | 0 <= k < j - i ensures IsIdChar(s[i..j][k]) {
      assert s[i..j][k] == s[i + k];
    }
  }

  /** The group `([^#&?]*)` captures after the marker at `p`: the maximal run of id characters. */
  function CapturedGroup(url: string, p: nat): (g: string)
    requires MarkerAt(url, p) > 0
    ensures IsGroupAt(url, p + MarkerAt(url, p), g)
    ensures '#' !in g && '&' !in g && '?' !in g
  {
    var start := p + MarkerAt(url, p);
    RunIsGroup(url, start);
    RunHasNoStops(url, start, RunEnd(url, start));
    url[start..RunEnd(url, start)]
  }

  /** `extractYouTubeId(url)`: the captured group when the regex matches and the group's
      `length`, in UTF-16 code units, is 11. */
  function ExtractYouTubeId(url: string): (r: Option<string>)
    ensures r.Some? ==> Text.Utf16Length(r.value) == 11 && 6 <= |r.value| <= 11
    ensures r.Some? ==> '#' !in r.value && '&' !in r.value && '?' !in r.value
  {
    match LastMarkerUpTo(url, LineEnd(url))
    case None => None
    case Some(p) =>
      var g := CapturedGroup(url, p);
      if Text.Utf16Length(g) == 11 then Some(g) else None
  }

  // ---------------------------------------------------------------------------
  // Declarative reading of the regular expression, independent of the search order.

  /** The marker starting at `p` is the one the regex uses: it starts within the first
      line and no marker starts later in the first line. */
  ghost predicate IsUsedMarker(url: string, p: nat) {
    && p <= LineEnd(url)
    && MarkerAt(url, p) > 0
    && forall q :: p < q <= LineEnd(url) ==> MarkerAt(url, q) == 0
  }

  /** `g` is the maximal run of id characters starting at `start`. */
  ghost predicate IsGroupAt(url: string, start: nat, g: string) {
    && start + |g| <= |url|
    && url[start..start + |g|] == g
    && (forall k :: 0 <= k < |g| ==> IsIdChar(g[k]))
    && (start + |g| == |url| || !IsIdChar(url[start + |g|]))
  }

  /** A group is determined by its start: it is the run `RunEnd` delimits. */
  lemma {:induction false} GroupIsRun(url: string, start: nat, g: string)
    requires IsGroupAt(url, start, g)
    ensures start <= |url| && g == url[start..RunEnd(url, start)]
    decreases |g|
  {
    if |g| > 0 {
      assert url[start] == g[0];
      assert url[start + 1..start + 1 + |g[1..]|] == g[1..];
      GroupIsRun(url, start + 1, g[1..]);
    }
  }

  /** The run `RunEnd` delimits is a group. */
  lemma RunIsGroup(url: string, start: nat)
    requires start <= |url|
    ensures IsGroupAt(url, start, url[start..RunEnd(url, start)])
  {
    var g := url[start..RunEnd(url, start)];
    assert forall k :: 0 <= k < |g| ==> g[k] == url[start + k];
  }

  /** At most one group starts at a position. */
  lemma GroupUnique(url: string, start: nat, g1: string, g2: string)
    requires IsGroupAt(url, start, g1) && IsGroupAt(url, start, g2)
    ensures g1 == g2
  {
    GroupIsRun(url, start, g1);
    GroupIsRun(url, start, g2);
  }

  /** The backtracking search stops exactly at the last marker up to `e`. */
  lemma {:induction false} LastMarkerIs(url: string, e: nat, p: nat)
    requires p <= e && MarkerAt(url, p) > 0
    requires forall q :: p < q <= e ==> MarkerAt(url, q) == 0
    ensures LastMarkerUpTo(url, e) == Some(p)
    decreases e
  {
    if e > p {
      LastMarkerIs(url, e - 1, p);
    }
  }

  /** Once the search has settled on the marker at `p`, the result depends only on the length
      of the group captured after it. */
  lemma ExtractAt(url: string, p: nat)
    requires LastMarkerUpTo(url, LineEnd(url)) == Some(p)
    ensures MarkerAt(url, p) > 0
    ensures ExtractYouTubeId(url) ==
      if Text.Utf16Length(CapturedGroup(url, p)) == 11 then Some(CapturedGroup(url, p)) else None
  {
  }

  /** Once the search has settled on the marker at `p`, any group after it decides the result
      by its length. */
  lemma ExtractGivenGroup(url: string, p: nat, g: string)
    requires LastMarkerUpTo(url, LineEnd(url)) == Some(p)
    requires MarkerAt(url, p) > 0 && IsGroupAt(url, p + MarkerAt(url, p), g)
    ensures ExtractYouTubeId(url) == if Text.Utf16Length(g) == 11 then Some(g) else None
  {
    ExtractAt(url, p);
    GroupUnique(url, p + MarkerAt(url, p), g, CapturedGroup(url, p));
  }

  /** Soundness: an extracted id is the group the regex captures after the marker it uses. */
  lemma ExtractYouTubeIdSound(url: string, id: string)
    requires ExtractYouTubeId(url) == Some(id)
    ensures exists p: nat :: IsUsedMarker(url, p) && IsGroupAt(url, p + MarkerAt(url, p), id)
  {
    var p := LastMarkerUpTo(url, LineEnd(url)).value;
    assert IsUsedMarker(url, p);
  }

  /** Completeness: whenever the regex captures a group of 11 code units, that group is extracted. */
  lemma ExtractYouTubeIdComplete(url: string, p: nat, id: string)
    requires IsUsedMarker(url, p) && IsGroupAt(url, p + MarkerAt(url, p), id) && Text.Utf16Length(id) == 11
    ensures ExtractYouTubeId(url) == Some(id)
  {
    LastMarkerIs(url, LineEnd(url), p);
    ExtractGivenGroup(url, p, id);
  }

  /** A used marker whose group is not 11 code units long yields no id. */
  lemma ExtractYouTubeIdWrongLength(url: string, p: nat, g: string)
    requires IsUsedMarker(url, p) && IsGroupAt(url, p + MarkerAt(url, p), g) && Text.Utf16Length(g) != 11
    ensures ExtractYouTubeId(url) == None
  {
    LastMarkerIs(url, LineEnd(url), p);
    ExtractGivenGroup(url, p, g);
  }

  /** Without a marker in the first line there is no id. */
  lemma NoMarkerNoId(url: string)
    requires forall q :: 0 <= q <= LineEnd(url) ==> MarkerAt(url, q) == 0
    ensures ExtractYouTubeId(url) == None
  {
  }

  /** A later marker wins: when two markers start in the first line, the earlier one is never used. */
  lemma {:induction false} LaterMarkerWins(url: string, p: nat, q: nat)
    requires p < q <= LineEnd(url)
    requires MarkerAt(url, p) > 0 && MarkerAt(url, q) > 0
    ensures !IsUsedMarker(url, p)
  {
  }
}
