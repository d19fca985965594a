/** The conversion form: the video-id extractor of the web application
    and the submit handler that creates an article in `processing` and,
    from a timer, later moves it to `draft` with a transcript.

    The extractor is the regular expression
    `^.*(youtu.be/|v/|u/\w/|embed/|watch\?v=|&v=)([^#&?]*).*` written as a
    scanner over JavaScript's string semantics. `^` anchors at the start
    and `.` matches one UTF-16 code unit other than a line terminator, so
    the greedy `^.*` makes the capture start after the rightmost marker
    that no line terminator precedes. The capture runs up to the first
    `#`, `&` or `?` (or the end), and the id is accepted when its
    `length`, counted in UTF-16 code units, is exactly 11. The unescaped
    `.` of `youtu.be` matches any single code unit except a line
    terminator. */
module Convert {
  import opened Wrappers
  import opened Strings
  import opened Articles

  /** The characters that end the captured run `[^#&?]*`. */
  predicate IsIdDelimiter(c: char) {
    c == '#' || c == '&' || c == '?'
  }

  /** The characters the regular expression's `.` matches on its own. */
  predicate IsDotChar(c: char) {
    IsOneCodeUnit(c) && !IsJsLineTerminator(c)
  }

  /** The length of the marker alternative that begins at `p`, or 0 when
      none does. The alternatives begin with distinct characters, so at
      most one of them matches at any position. */
  function MarkerLength(s: string, p: nat): (m: nat)
    ensures m == 0 || (2 <= m <= 9 && p + m <= |s|)
    ensures m > 0 ==> !IsJsLineTerminator(s[p])
  {
    if p + 2 > |s| then 0
    else match s[p]
      case 'y' =>
        if p + 9 <= |s| && s[p + 1] == 'o' && s[p + 2] == 'u' && s[p + 3] == 't' && s[p + 4] == 'u'
           && IsDotChar(s[p + 5]) && s[p + 6] == 'b' && s[p + 7] == 'e' && s[p + 8] == '/' then 9 else 0
      case 'v' => if s[p + 1] == '/' then 2 else 0
      case 'u' =>
        if p + 4 <= |s| && s[p + 1] == '/' && IsAsciiWordChar(s[p + 2]) && s[p + 3] == '/' then 4 else 0
      case 'e' =>
        if p + 6 <= |s| && s[p + 1] == 'm' && s[p + 2] == 'b' && s[p + 3] == 'e' && s[p + 4] == 'd'
           && s[p + 5] == '/' then 6 else 0
      case 'w' =>
        if p + 8 <= |s| && s[p + 1] == 'a' && s[p + 2] == 't' && s[p + 3] == 'c' && s[p + 4] == 'h'
           && s[p + 5] == '?' && s[p + 6] == 'v' && s[p + 7] == '=' then 8 else 0
      case '&' => if p + 3 <= |s| && s[p + 1] == 'v' && s[p + 2] == '=' then 3 else 0
      case _ => 0
  }

  /** The `youtu.be/` alternative: `youtu`, one character the unescaped
      `.` matches, then `be/`. */
  predicate ShortLinkAlternativeAt(s: string, p: nat) {
    OccursAt(s, "youtu", p) && p + 9 <= |s| && IsDotChar(s[p + 5]) && OccursAt(s, "be/", p + 6)
  }

  /** The `u/\w/` alternative: `u/`, one ASCII word character, then `/`. */
  predicate UserAlternativeAt(s: string, p: nat) {
    OccursAt(s, "u/", p) && p + 4 <= |s| && IsAsciiWordChar(s[p + 2]) && s[p + 3] == '/'
  }

  /** The alternative of `(youtu.be/|v/|u/\w/|embed/|watch\?v=|&v=)` whose
      length is `n` matches at `p`. */
  predicate AlternativeAt(s: string, p: nat, n: nat) {
    || (n == 9 && ShortLinkAlternativeAt(s, p))
    || (n == 2 && OccursAt(s, "v/", p))
    || (n == 4 && UserAlternativeAt(s, p))
    || (n == 6 && OccursAt(s, "embed/", p))
    || (n == 8 && OccursAt(s, "watch?v=", p))
    || (n == 3 && OccursAt(s, "&v=", p))
  }

  /** The recogniser read against the six alternatives: it returns each
      one's length exactly where that alternative matches, and 0 where
      none does. */
  lemma MarkerLengthIff(s: string, p: nat)
    ensures MarkerLength(s, p) == 9 <==> ShortLinkAlternativeAt(s, p)
    ensures MarkerLength(s, p) == 2 <==> OccursAt(s, "v/", p)
    ensures MarkerLength(s, p) == 4 <==> UserAlternativeAt(s, p)
    ensures MarkerLength(s, p) == 6 <==> OccursAt(s, "embed/", p)
    ensures MarkerLength(s, p) == 8 <==> OccursAt(s, "watch?v=", p)
    ensures MarkerLength(s, p) == 3 <==> OccursAt(s, "&v=", p)
    ensures MarkerLength(s, p) == 0 <==> forall n: nat :: !AlternativeAt(s, p, n)
  {
    LiteralAt5(s, "youtu", p);
    LiteralAt3(s, "be/", p + 6);
    LiteralAt2(s, "v/", p);
    LiteralAt2(s, "u/", p);
    LiteralAt6(s, "embed/", p);
    LiteralAt8(s, "watch?v=", p);
    LiteralAt3(s, "&v=", p);
    if MarkerLength(s, p) != 0 {
      assert AlternativeAt(s, p, MarkerLength(s, p));
    }
  }

  /** At most one alternative matches at any position, since they begin
      with distinct characters. */
  lemma AtMostOneAlternative(s: string, p: nat, n1: nat, n2: nat)
    requires AlternativeAt(s, p, n1) && AlternativeAt(s, p, n2)
    ensures n1 == n2
  {
    MarkerLengthIff(s, p);
  }

  lemma LiteralAt2(s: string, lit: string, p: nat)
    requires |lit| == 2
    ensures OccursAt(s, lit, p) <==> p + 2 <= |s| && s[p] == lit[0] && s[p + 1] == lit[1]
  {
    if p + 2 <= |s| {
      var w := s[p..p + 2];
      assert w[0] == s[p] && w[1] == s[p + 1];
      if s[p] == lit[0] && s[p + 1] == lit[1] {
        assert w == lit;
      }
    }
  }

  lemma LiteralAt3(s: string, lit: string, p: nat)
    requires |lit| == 3
    ensures OccursAt(s, lit, p) <==>
              p + 3 <= |s| && s[p] == lit[0] && s[p + 1] == lit[1] && s[p + 2] == lit[2]
  {
    if p + 3 <= |s| {
      var w := s[p..p + 3];
      assert w[0] == s[p] && w[1] == s[p + 1] && w[2] == s[p + 2];
      if s[p] == lit[0] && s[p + 1] == lit[1] && s[p + 2] == lit[2] {
        assert w == lit;
      }
    }
  }

  lemma LiteralAt5(s: string, lit: string, p: nat)
    requires |lit| == 5
    ensures OccursAt(s, lit, p) <==>
              && p + 5 <= |s| && s[p] == lit[0] && s[p + 1] == lit[1] && s[p + 2] == lit[2]
              && s[p + 3] == lit[3] && s[p + 4] == lit[4]
  {
    if p + 5 <= |s| {
      var w := s[p..p + 5];
      assert w[0] == s[p] && w[1] == s[p + 1] && w[2] == s[p + 2] && w[3] == s[p + 3] && w[4] == s[p + 4];
      if s[p] == lit[0] && s[p + 1] == lit[1] && s[p + 2] == lit[2] && s[p + 3] == lit[3] && s[p + 4] == lit[4] {
        assert w == lit;
      }
    }
  }

  lemma LiteralAt6(s: string, lit: string, p: nat)
    requires |lit| == 6
    ensures OccursAt(s, lit, p) <==>
              && p + 6 <= |s| && s[p] == lit[0] && s[p + 1] == lit[1] && s[p + 2] == lit[2]
              && s[p + 3] == lit[3] && s[p + 4] == lit[4] && s[p + 5] == lit[5]
  {
    if p + 6 <= |s| {
      var w := s[p..p + 6];
      assert w[0] == s[p] && w[1] == s[p + 1] && w[2] == s[p + 2];
      assert w[3] == s[p + 3] && w[4] == s[p + 4] && w[5] == s[p + 5];
      if && s[p] == lit[0] && s[p + 1] == lit[1] && s[p + 2] == lit[2]
         && s[p + 3] == lit[3] && s[p + 4] == lit[4] && s[p + 5] == lit[5] {
        assert w == lit;
      }
    }
  }

  lemma LiteralAt8(s: string, lit: string, p: nat)
    requires |lit| == 8
    ensures OccursAt(s, lit, p) <==>
              && p + 8 <= |s| && s[p] == lit[0] && s[p + 1] == lit[1] && s[p + 2] == lit[2]
              && s[p + 3] == lit[3] && s[p + 4] == lit[4] && s[p + 5] == lit[5]
              && s[p + 6] == lit[6] && s[p + 7] == lit[7]
  {
    if p + 8 <= |s| {
      var w := s[p..p + 8];
      assert w[0] == s[p] && w[1] == s[p + 1] && w[2] == s[p + 2] && w[3] == s[p + 3];
      assert w[4] == s[p + 4] && w[5] == s[p + 5] && w[6] == s[p + 6] && w[7] == s[p + 7];
      if && s[p] == lit[0] && s[p + 1] == lit[1] && s[p + 2] == lit[2] && s[p + 3] == lit[3]
         && s[p + 4] == lit[4] && s[p + 5] == lit[5] && s[p + 6] == lit[6] && s[p + 7] == lit[7] {
        assert w == lit;
      }
    }
  }

  /** The position of the first line terminator at or after `i`, or the
      end of `s`: how far `^.*` can reach. */
  function LineEnd(s: string, i: nat): (e: nat)
    requires i <= |s|
    ensures i <= e <= |s|
    ensures forall k :: i <= k < e ==> !IsJsLineTerminator(s[k])
    ensures e == |s| || IsJsLineTerminator(s[e])
    decreases |s| - i
  {
    if i == |s| || IsJsLineTerminator(s[i]) then i else LineEnd(s, i + 1)
  }

  /** The greatest position at or before `p` where a marker begins: the
      backtracking order of the greedy `^.*`. */
  function LastMarkerAtOrBefore(s: string, p: nat): (r: Option<nat>)
    ensures r.Some? ==> r.value <= p && MarkerLength(s, r.value) > 0
    decreases p
  {
    if MarkerLength(s, p) > 0 then Some(p)
    else if p == 0 then None
    else LastMarkerAtOrBefore(s, p - 1)
  }

  /** The scan finds a marker, and no marker lies between it and `p`; or
      it finds none and there is none up to `p`. */
  lemma {:induction false} LastMarkerSpec(s: string, p: nat)
    ensures var r := LastMarkerAtOrBefore(s, p);
            && (r.Some? ==> MarkerLength(s, r.value) > 0)
            && (r.Some? ==> forall q: nat :: r.value < q <= p ==> MarkerLength(s, q) == 0)
            && (r.None? ==> forall q: nat :: q <= p ==> MarkerLength(s, q) == 0)
    decreases p
  {
    if MarkerLength(s, p) == 0 && p > 0 {
      LastMarkerSpec(s, p - 1);
    }
  }

  /** The end of the longest run of non-delimiters starting at `i`: what
      the greedy `([^#&?]*)` captures. */
  function RunEnd(s: string, i: nat): (j: nat)
    requires i <= |s|
    ensures i <= j <= |s|
    ensures forall k :: i <= k < j ==> !IsIdDelimiter(s[k])
    ensures j == |s| || IsIdDelimiter(s[j])
    decreases |s| - i
  {
    if i == |s| || IsIdDelimiter(s[i]) then i else RunEnd(s, i + 1)
  }

  /** The run that follows the marker at `p`: what `([^#&?]*)` captures. */
  function RunAfter(url: string, p: nat): (run: string)
    requires MarkerLength(url, p) > 0
    ensures forall k :: 0 <= k < |run| ==> !IsIdDelimiter(run[k])
  {
    var start := p + MarkerLength(url, p);
    url[start..RunEnd(url, start)]
  }

  /** `extractVideoId`: the captured group when its `length` is 11,
      otherwise no id. */
  function ExtractVideoId(url: string): (r: Option<string>)
    ensures r.Some? ==> Utf16Length(r.value) == 11 && 6 <= |r.value| <= 11
    ensures r.Some? ==> forall k :: 0 <= k < |r.value| ==> !IsIdDelimiter(r.value[k])
  {
    match LastMarkerAtOrBefore(url, LineEnd(url, 0))
    case None => None
    case Some(p) => if Utf16Length(RunAfter(url, p)) == 11 then Some(RunAfter(url, p)) else None
  }

  /** `^.*` can cover `url[..p]`: no line terminator comes before `p`. */
  ghost predicate Reachable(url: string, p: nat) {
    p <= |url| && forall k :: 0 <= k < p ==> !IsJsLineTerminator(url[k])
  }

  /** A marker begins at `p`, `^.*` reaches it, and no later marker can be
      reached. */
  ghost predicate IsLastMarker(url: string, p: nat) {
    && Reachable(url, p)
    && MarkerLength(url, p) > 0
    && forall q: nat :: p < q <= |url| && Reachable(url, q) ==> MarkerLength(url, q) == 0
  }

  /** `[i, j)` is a run of non-delimiters that cannot be extended. */
  ghost predicate IsMaximalRun(s: string, i: nat, j: nat) {
    && i <= j <= |s|
    && (forall k :: i <= k < j ==> !IsIdDelimiter(s[k]))
    && (j == |s| || IsIdDelimiter(s[j]))
  }

  /** The declarative reading of the pattern: the capture `id` follows the
      last marker and is a maximal run of non-delimiters. */
  ghost predicate CapturesAt(url: string, p: nat, id: string) {
    && IsLastMarker(url, p)
    && var start := p + MarkerLength(url, p);
       && IsMaximalRun(url, start, start + |id|)
       && url[start..start + |id|] == id
  }

  /** The positions `^.*` reaches are exactly those up to the first line
      terminator. */
  lemma ReachableIff(url: string, q: nat)
    ensures Reachable(url, q) <==> q <= LineEnd(url, 0)
  {
    var e := LineEnd(url, 0);
    if e < q <= |url| {
      assert IsJsLineTerminator(url[e]);
    }
  }

  /** The scan's result is the last marker. */
  lemma LastMarkerFound(url: string, p: nat)
    requires IsLastMarker(url, p)
    ensures LastMarkerAtOrBefore(url, LineEnd(url, 0)) == Some(p)
  {
    var e := LineEnd(url, 0);
    ReachableIff(url, p);
    forall q: nat | p < q <= e
      ensures MarkerLength(url, q) == 0
    {
      ReachableIff(url, q);
    }
    LastMarkerSpec(url, e);
  }

  /** Once the scan has found the marker at `p`, the result is the run
      after it, kept when its `length` is 11. */
  lemma ExtractAt(url: string, p: nat)
    requires LastMarkerAtOrBefore(url, LineEnd(url, 0)) == Some(p)
    ensures ExtractVideoId(url) == if Utf16Length(RunAfter(url, p)) == 11 then Some(RunAfter(url, p)) else None
  {
  }

  /** A maximal run is determined by where it starts. */
  lemma RunEndUnique(s: string, i: nat, j: nat)
    requires IsMaximalRun(s, i, j)
    ensures RunEnd(s, i) == j
  {
  }

  /** Every id the scanner returns is a capture of the pattern. */
  lemma ExtractVideoIdSound(url: string)
    requires ExtractVideoId(url).Some?
    ensures exists p: nat :: CapturesAt(url, p, ExtractVideoId(url).value)
  {
    var e := LineEnd(url, 0);
    LastMarkerSpec(url, e);
    var p := LastMarkerAtOrBefore(url, e).value;
    ReachableIff(url, p);
    forall q: nat | p < q <= |url| && Reachable(url, q)
      ensures MarkerLength(url, q) == 0
    {
      ReachableIff(url, q);
    }
    assert CapturesAt(url, p, ExtractVideoId(url).value);
  }

  /** Every capture of the pattern whose `length` is 11 is what the
      scanner returns. */
  lemma ExtractVideoIdComplete(url: string, p: nat, id: string)
    requires Utf16Length(id) == 11 && CapturesAt(url, p, id)
    ensures ExtractVideoId(url) == Some(id)
  {
    LastMarkerFound(url, p);
    var start := p + MarkerLength(url, p);
    RunEndUnique(url, start, start + |id|);
    assert RunAfter(url, p) == id;
    ExtractAt(url, p);
  }

  /** Both directions together: the scanner returns `id` exactly when `id`
      is a capture of `length` 11. */
  lemma ExtractVideoIdSpec(url: string, id: string)
    ensures ExtractVideoId(url) == Some(id) <==> Utf16Length(id) == 11 && exists p: nat :: CapturesAt(url, p, id)
  {
    if ExtractVideoId(url) == Some(id) {
      ExtractVideoIdSound(url);
    }
    if Utf16Length(id) == 11 && exists p: nat :: CapturesAt(url, p, id) {
      var p: nat :| CapturesAt(url, p, id);
      ExtractVideoIdComplete(url, p, id);
    }
  }

  /** When the run after the last marker does not have `length` 11 there
      is no id, whatever an earlier marker is followed by. */
  lemma WrongLengthNoId(url: string, p: nat, j: nat)
    requires IsLastMarker(url, p)
    requires IsMaximalRun(url, p + MarkerLength(url, p), j)
    requires Utf16Length(url[p + MarkerLength(url, p)..j]) != 11
    ensures ExtractVideoId(url).None?
  {
    LastMarkerFound(url, p);
    RunEndUnique(url, p + MarkerLength(url, p), j);
    assert RunAfter(url, p) == url[p + MarkerLength(url, p)..j];
    ExtractAt(url, p);
  }

  /** No URL without a marker that `^.*` reaches yields an id. */
  lemma NoMarkerNoId(url: string)
    requires forall q: nat :: q <= |url| && Reachable(url, q) ==> MarkerLength(url, q) == 0
    ensures ExtractVideoId(url).None?
  {
    var e := LineEnd(url, 0);
    forall q: nat | q <= e
      ensures MarkerLength(url, q) == 0
    {
      ReachableIff(url, q);
    }
    LastMarkerSpec(url, e);
  }

  /** No marker begins at a character that starts none of them. */
  lemma NoMarkerAt(s: string, p: nat)
    requires p < |s| && s[p] !in "yvuew&"
    ensures MarkerLength(s, p) == 0
  {
  }

  /** A text of printable ASCII holds no line terminator. */
  lemma PrintableReachable(url: string, p: nat)
    requires p <= |url| && forall k :: 0 <= k < p ==> ' ' <= url[k] <= '~'
    ensures Reachable(url, p)
  {
  }

  /** A text of printable ASCII is as long in UTF-16 as in characters. */
  lemma PrintableUtf16Length(s: string)
    requires forall k :: 0 <= k < |s| ==> ' ' <= s[k] <= '~'
    ensures Utf16Length(s) == |s|
  {
  }

  const WatchUrl: string := "https://www.youtube.com/watch?v=dQw4w9WgXcQ"

  /** No marker begins after position 24 of the sample URL. */
  lemma WatchUrlNoLaterMarker()
    ensures forall q: nat :: 24 < q <= |WatchUrl| ==> MarkerLength(WatchUrl, q) == 0
  {
    var u := WatchUrl;
    var tail := "atch?v=dQw4w9WgXcQ";
    assert u[25..] == tail;
    forall q: nat | 24 < q <= |u|
      ensures MarkerLength(u, q) == 0
    {
      if q < |u| {
        assert u[q] == tail[q - 25];
        if q !in {30, 34, 36} {
          NoMarkerAt(u, q);
        }
      }
    }
  }

  lemma WatchUrlHeadReachable()
    ensures Reachable(WatchUrl, 24)
  {
    WatchUrlPrintable();
    PrintableReachable(WatchUrl, 24);
  }

  lemma WatchUrlLastMarker()
    ensures IsLastMarker(WatchUrl, 24)
  {
    WatchUrlNoLaterMarker();
    WatchUrlHeadReachable();
    assert WatchUrl[24..32] == "watch?v=";
    WatchMarkerAt(WatchUrl, 24);
  }

  /** `watch?v=` is a marker wherever it stands. */
  lemma WatchMarkerAt(s: string, p: nat)
    requires p + 8 <= |s| && s[p..p + 8] == "watch?v="
    ensures MarkerLength(s, p) == 8
  {
    var w := s[p..p + 8];
    assert s[p] == w[0] == 'w' && s[p + 1] == w[1] == 'a' && s[p + 2] == w[2] == 't';
    assert s[p + 3] == w[3] == 'c' && s[p + 4] == w[4] == 'h' && s[p + 5] == w[5] == '?';
    assert s[p + 6] == w[6] == 'v' && s[p + 7] == w[7] == '=';
  }

  /** `youtu`, one `.`-character and `be/` make a marker wherever they
      stand. */
  lemma ShortLinkMarkerAt(s: string, p: nat)
    requires p + 9 <= |s| && s[p..p + 5] == "youtu" && IsDotChar(s[p + 5]) && s[p + 6..p + 9] == "be/"
    ensures MarkerLength(s, p) == 9
  {
    var w := s[p..p + 5];
    assert s[p] == w[0] == 'y' && s[p + 1] == w[1] == 'o' && s[p + 2] == w[2] == 'u';
    assert s[p + 3] == w[3] == 't' && s[p + 4] == w[4] == 'u';
    var b := s[p + 6..p + 9];
    assert s[p + 6] == b[0] == 'b' && s[p + 7] == b[1] == 'e' && s[p + 8] == b[2] == '/';
  }

  /** `v/` is a marker wherever it stands. */
  lemma VSlashMarkerAt(s: string, p: nat)
    requires p + 2 <= |s| && s[p] == 'v' && s[p + 1] == '/'
    ensures MarkerLength(s, p) == 2
  {
  }

  lemma WatchUrlCapture()
    ensures CapturesAt(WatchUrl, 24, "dQw4w9WgXcQ")
  {
    WatchUrlLastMarker();
    var u := WatchUrl;
    assert u[32..43] == "dQw4w9WgXcQ";
    assert IsMaximalRun(u, 32, 43);
  }

  lemma WatchIdLength()
    ensures Utf16Length("dQw4w9WgXcQ") == 11
  {
    WatchUrlPrintable();
    assert WatchUrl[32..43] == "dQw4w9WgXcQ";
    PrintableUtf16Length(WatchUrl[32..43]);
  }

  lemma WatchUrlExample()
    ensures ExtractVideoId(WatchUrl) == Some("dQw4w9WgXcQ")
  {
    WatchUrlCapture();
    WatchIdLength();
    ExtractVideoIdComplete(WatchUrl, 24, "dQw4w9WgXcQ");
  }

  /** The sample URL with a second, short `&v=` parameter. */
  const LaterMarkerUrl: string := WatchUrl + "&v=abc"

  /** The sample URL is printable ASCII. */
  lemma WatchUrlPrintable()
    ensures forall k :: 0 <= k < |WatchUrl| ==> ' ' <= WatchUrl[k] <= '~'
  {
  }

  lemma LaterMarkerUrlLastMarker()
    ensures IsLastMarker(LaterMarkerUrl, 43) && MarkerLength(LaterMarkerUrl, 43) == 3
  {
    var u := LaterMarkerUrl;
    assert u[..43] == WatchUrl;
    assert u[43..] == "&v=abc";
    assert u[43] == '&' && u[44] == 'v' && u[45] == '=';
    forall q: nat | 43 < q <= |u|
      ensures MarkerLength(u, q) == 0
    {
      if q < |u| && q != 44 {
        assert u[q] == u[43..][q - 43];
        NoMarkerAt(u, q);
      }
    }
    WatchUrlPrintable();
    forall k | 0 <= k < 43
      ensures ' ' <= u[k] <= '~'
    {
      assert u[k] == WatchUrl[k];
    }
    PrintableReachable(u, 43);
  }

  /** A later `&v=` wins over an earlier `watch?v=`, and its run is too
      short. */
  lemma LaterMarkerWinsExample()
    ensures ExtractVideoId(LaterMarkerUrl).None?
  {
    var u := LaterMarkerUrl;
    LaterMarkerUrlLastMarker();
    assert u[46..] == "abc";
    assert IsMaximalRun(u, 46, 49);
    WrongLengthNoId(u, 43, 49);
  }

  lemma NotAVideoUrlExample()
    ensures ExtractVideoId("https://not-a-video-url.example").None?
  {
    var u := "https://not-a-video-url.example";
    forall q: nat | q <= |u|
      ensures MarkerLength(u, q) == 0
    {
      if q < |u| && q !in {14, 17, 20, 24, 30} {
        NoMarkerAt(u, q);
      }
    }
    NoMarkerNoId(u);
  }

  const LooseShortLink: string := "youtuXbe/ab.de!gh~jk"

  lemma LooseShortLinkLastMarker()
    ensures IsLastMarker(LooseShortLink, 0) && MarkerLength(LooseShortLink, 0) == 9
  {
    var u := LooseShortLink;
    assert u[..5] == "youtu" && u[5] == 'X' && u[6..9] == "be/";
    ShortLinkMarkerAt(u, 0);
    forall q: nat | 0 < q <= |u|
      ensures MarkerLength(u, q) == 0
    {
      if q < |u| && q !in {2, 4, 7, 13} {
        NoMarkerAt(u, q);
      }
    }
  }

  /** Any character stands at the dot of `youtu.be`, and the id alphabet
      is not restricted. */
  lemma LooseShortLinkExample()
    ensures ExtractVideoId(LooseShortLink) == Some("ab.de!gh~jk")
  {
    var u := LooseShortLink;
    var id := "ab.de!gh~jk";
    LooseShortLinkLastMarker();
    assert u[9..20] == id;
    forall k | 9 <= k < 20
      ensures !IsIdDelimiter(u[k])
    {
      assert u[k] == id[k - 9];
    }
    assert IsMaximalRun(u, 9, 20);
    PrintableUtf16Length(id);
    ExtractVideoIdComplete(u, 0, id);
  }

  /** A URL that starts with `v/` and has no other character that begins
      a marker has its only marker at 0. */
  lemma LeadingVSlashIsLastMarker(u: string)
    requires |u| >= 2 && u[0] == 'v' && u[1] == '/'
    requires forall k :: 2 <= k < |u| ==> u[k] !in "yvuew&"
    ensures IsLastMarker(u, 0) && MarkerLength(u, 0) == 2
  {
    VSlashMarkerAt(u, 0);
    assert MarkerLength(u, 1) == 0;
    forall q: nat | 1 < q <= |u|
      ensures MarkerLength(u, q) == 0
    {
      if q < |u| {
        NoMarkerAt(u, q);
      }
    }
  }

  /** A character outside the Basic Multilingual Plane. */
  const Emoji: string := "\U{1F600}"

  /** In `v/` followed by an emoji and digits, the capture is the emoji
      and the digits, and its `length` counts the emoji twice. */
  lemma EmojiThenDigits(digits: string)
    requires forall k :: 0 <= k < |digits| ==> '0' <= digits[k] <= '9'
    ensures var u := "v/" + Emoji + digits;
            && IsLastMarker(u, 0) && MarkerLength(u, 0) == 2
            && IsMaximalRun(u, 2, |u|) && u[2..] == Emoji + digits
            && Utf16Length(u[2..]) == 2 + |digits|
  {
    var u := "v/" + Emoji + digits;
    assert u[2] == '\U{1F600}';
    assert forall k :: 3 <= k < |u| ==> u[k] == digits[k - 3];
    LeadingVSlashIsLastMarker(u);
    assert u[2..] == Emoji + digits;
    PrintableUtf16Length(digits);
    assert (Emoji + digits)[1..] == digits;
  }

  /** An emoji is two UTF-16 code units, so an emoji and ten digits,
      eleven characters, are too long for the check. */
  lemma EmojiMakesIdTooLongExample(digits: string)
    requires |digits| == 10 && forall k :: 0 <= k < |digits| ==> '0' <= digits[k] <= '9'
    ensures ExtractVideoId("v/" + Emoji + digits).None?
  {
    EmojiThenDigits(digits);
    var u := "v/" + Emoji + digits;
    WrongLengthNoId(u, 0, |u|);
  }

  /** An emoji and nine digits, ten characters, have `length` 11 and are
      accepted. */
  lemma EmojiIdFitsExample(digits: string)
    requires |digits| == 9 && forall k :: 0 <= k < |digits| ==> '0' <= digits[k] <= '9'
    ensures ExtractVideoId("v/" + Emoji + digits) == Some(Emoji + digits)
  {
    EmojiThenDigits(digits);
    var u := "v/" + Emoji + digits;
    assert u[2..2 + |Emoji + digits|] == Emoji + digits;
    ExtractVideoIdComplete(u, 0, Emoji + digits);
  }

  /** `^.*` cannot pass a line break, so a marker after one is never
      reached. */
  lemma LineBreakBeforeMarkerExample()
    ensures ExtractVideoId("\nv/abcdefghijk").None?
  {
    var u := "\nv/abcdefghijk";
    assert LineEnd(u, 0) == 0;
  }

  /** The image host of YouTube's video thumbnails. */
  const ThumbnailHost: string := "https://img.youtube.com/vi/"

  /** The thumbnail the form stores with a new article. */
  function ThumbnailUrl(videoId: string): (r: string)
    ensures |r| == 27 + |videoId| + 18
    ensures StartsWith(r, ThumbnailHost)
    ensures r[27..27 + |videoId|] == videoId
    ensures r[27 + |videoId|..] == "/maxresdefault.jpg"
  {
    ThumbnailHost + videoId + "/maxresdefault.jpg"
  }

  const PlaceholderTitle: string := "Processing Video..."

  /** Stand-in for the fixed French transcript the timer writes; the model
      relies only on it being non-empty. */
  const MockTranscript: string := "Bonjour à tous et bienvenue dans cette nouvelle vidéo."

  /** The row `handleSubmit` inserts for a URL with id `videoId`. */
  function NewRecord(id: Id, user: Option<UserId>, url: string, videoId: string, createdAt: int): Article
  {
    Article(id, user, PlaceholderTitle, None, Processing, url,
            Some(ThumbnailUrl(videoId)), None, Some(videoId), createdAt)
  }

  /** What a submit led to: the success toast and the move to the
      dashboard, or one of the two error toasts. */
  datatype SubmitOutcome = Started(articleId: Id) | InvalidUrl | InsertFailed

  class ConvertForm {
    const db: ArticleStore
    const user: Option<UserId>
    var youtubeUrl: string
    var loading: bool
    /** The transcript timers started and not yet fired, in firing order
        (all of them have the same delay). */
    var scheduled: seq<Id>

    constructor (db: ArticleStore, user: Option<UserId>)
      ensures this.db == db && this.user == user
      ensures youtubeUrl == "" && !loading && scheduled == []
    {
      this.db := db;
      this.user := user;
      youtubeUrl := "";
      loading := false;
      scheduled := [];
    }

    /** The `onChange` of the URL input. */
    method SetYoutubeUrl(url: string)
      modifies this`youtubeUrl
      ensures youtubeUrl == url
    {
      youtubeUrl := url;
    }

    /** `handleSubmit`. `insertOk` says whether the insert succeeded and
        `now` is the creation time the backend stamps on the row. */
    method HandleSubmit(insertOk: bool, now: int) returns (outcome: SubmitOutcome)
      requires db.Valid()
      modifies this`loading, this`scheduled, db
      ensures db.Valid() && !loading
      ensures ExtractVideoId(youtubeUrl).None? ==>
                outcome == InvalidUrl && db.records == old(db.records) && scheduled == old(scheduled)
      ensures ExtractVideoId(youtubeUrl).Some? && !insertOk ==>
                outcome == InsertFailed && db.records == old(db.records) && scheduled == old(scheduled)
      ensures ExtractVideoId(youtubeUrl).Some? && insertOk ==>
                && outcome.Started?
                && outcome.articleId !in old(db.records)
                && db.records == old(db.records)[outcome.articleId :=
                     NewRecord(outcome.articleId, user, youtubeUrl, ExtractVideoId(youtubeUrl).value, now)]
                && scheduled == old(scheduled) + [outcome.articleId]
    {
      loading := true;
      var videoId := ExtractVideoId(youtubeUrl);
      if videoId.None? {
        outcome := InvalidUrl;
      } else if !insertOk {
        outcome := InsertFailed;
      } else {
        var row := db.Insert(user, PlaceholderTitle, Processing, youtubeUrl,
                             ThumbnailUrl(videoId.value), videoId.value, now);
        scheduled := scheduled + [row.id];
        outcome := Started(row.id);
      }
      loading := false;
    }

    /** The transcript timer of the oldest pending submit fires: one update
        sets the transcript and the status `draft` on that id; when the
        update fails nothing else happens. */
    method CompleteTranscript(updateOk: bool)
      requires db.Valid() && |scheduled| > 0
      modifies this`scheduled, db
      ensures db.Valid()
      ensures scheduled == old(scheduled)[1..]
      ensures var id := old(scheduled)[0];
              db.records == if updateOk && id in old(db.records)
                            then old(db.records)[id := old(db.records)[id].(transcript := Some(MockTranscript), status := Draft)]
                            else old(db.records)
    {
      var id := scheduled[0];
      scheduled := scheduled[1..];
      if updateOk {
        db.SetTranscriptAndStatus(id, MockTranscript, Draft);
      }
    }
  }
}
