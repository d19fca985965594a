/** The search both standalone extractors perform: the pattern
    `(?:v=|youtu\.be/|embed/)([\w-]{11})` without anchors, as JavaScript's
    `String.prototype.match` and Python's `re.search` run it. The result
    comes from the leftmost position where a marker is followed by 11
    characters of the id class; the character after those 11 is not
    looked at. The id class is a parameter because `\w` differs between
    the two languages. */
module IdScan {
  import opened Wrappers
  import opened Strings

  /** The length of the marker `v=`, `youtu.be/` or `embed/` that begins
      at `i`, or 0 when none does. The three begin with distinct
      characters, so trying them in order is the same as trying the one
      that fits. */
  function MarkerLength(s: string, i: nat): (m: nat)
    ensures m == 0 || (2 <= m <= 9 && i + m <= |s|)
  {
    if i + 2 > |s| then 0
    else match s[i]
      case 'v' => if s[i + 1] == '=' then 2 else 0
      case 'y' =>
        if i + 9 <= |s| && s[i + 1] == 'o' && s[i + 2] == 'u' && s[i + 3] == 't' && s[i + 4] == 'u'
           && s[i + 5] == '.' && s[i + 6] == 'b' && s[i + 7] == 'e' && s[i + 8] == '/' then 9 else 0
      case 'e' =>
        if i + 6 <= |s| && s[i + 1] == 'm' && s[i + 2] == 'b' && s[i + 3] == 'e' && s[i + 4] == 'd'
           && s[i + 5] == '/' then 6 else 0
      case _ => 0
  }

  /** The recogniser read against the three literals of the alternation:
      it returns each one's length exactly where that literal occurs, and
      0 where none does. */
  lemma MarkerLengthIff(s: string, i: nat)
    ensures MarkerLength(s, i) == 2 <==> OccursAt(s, "v=", i)
    ensures MarkerLength(s, i) == 9 <==> OccursAt(s, "youtu.be/", i)
    ensures MarkerLength(s, i) == 6 <==> OccursAt(s, "embed/", i)
    ensures MarkerLength(s, i) == 0 <==>
              !OccursAt(s, "v=", i) && !OccursAt(s, "youtu.be/", i) && !OccursAt(s, "embed/", i)
  {
    WatchParamAt(s, i);
    ShortLinkAt(s, i);
    EmbedAt(s, i);
  }

  lemma WatchParamAt(s: string, i: nat)
    ensures OccursAt(s, "v=", i) <==> i + 2 <= |s| && s[i] == 'v' && s[i + 1] == '='
  {
    if i + 2 <= |s| {
      var w := s[i..i + 2];
      assert w[0] == s[i] && w[1] == s[i + 1];
      if s[i] == 'v' && s[i + 1] == '=' {
        assert w == "v=";
      }
    }
  }

  lemma ShortLinkAt(s: string, i: nat)
    ensures OccursAt(s, "youtu.be/", i) <==>
              && i + 9 <= |s| && s[i] == 'y' && s[i + 1] == 'o' && s[i + 2] == 'u' && s[i + 3] == 't'
              && s[i + 4] == 'u' && s[i + 5] == '.' && s[i + 6] == 'b' && s[i + 7] == 'e' && s[i + 8] == '/'
  {
    if i + 9 <= |s| {
      var w := s[i..i + 9];
      assert w[0] == s[i] && w[1] == s[i + 1] && w[2] == s[i + 2] && w[3] == s[i + 3] && w[4] == s[i + 4];
      assert w[5] == s[i + 5] && w[6] == s[i + 6] && w[7] == s[i + 7] && w[8] == s[i + 8];
      if w[0] == 'y' && w[1] == 'o' && w[2] == 'u' && w[3] == 't' && w[4] == 'u'
         && w[5] == '.' && w[6] == 'b' && w[7] == 'e' && w[8] == '/' {
        assert w == "youtu.be/";
      }
    }
  }

  lemma EmbedAt(s: string, i: nat)
    ensures OccursAt(s, "embed/", i) <==>
              && i + 6 <= |s| && s[i] == 'e' && s[i + 1] == 'm' && s[i + 2] == 'b' && s[i + 3] == 'e'
              && s[i + 4] == 'd' && s[i + 5] == '/'
  {
    if i + 6 <= |s| {
      var w := s[i..i + 6];
      assert w[0] == s[i] && w[1] == s[i + 1] && w[2] == s[i + 2];
      assert w[3] == s[i + 3] && w[4] == s[i + 4] && w[5] == s[i + 5];
      if w[0] == 'e' && w[1] == 'm' && w[2] == 'b' && w[3] == 'e' && w[4] == 'd' && w[5] == '/' {
        assert w == "embed/";
      }
    }
  }

  /** No marker begins at a character that starts none of them. */
  lemma NoMarkerAt(s: string, i: nat)
    requires i < |s| && s[i] !in "vye"
    ensures MarkerLength(s, i) == 0
  {
  }

  /** Eleven characters of the id class begin at `i`. */
  predicate IdRunAt(s: string, i: nat, isId: char -> bool) {
    i + 11 <= |s| && forall k :: i <= k < i + 11 ==> isId(s[k])
  }

  /** The whole pattern matches at `i`. */
  predicate MatchesAt(s: string, i: nat, isId: char -> bool) {
    MarkerLength(s, i) > 0 && IdRunAt(s, i + MarkerLength(s, i), isId)
  }

  /** The first position at or after `i` where the pattern matches. */
  function FirstMatchFrom(s: string, i: nat, isId: char -> bool): (r: Option<nat>)
    ensures r.Some? ==> i <= r.value
    decreases |s| - i
  {
    if i > |s| then None
    else if MatchesAt(s, i, isId) then Some(i)
    else FirstMatchFrom(s, i + 1, isId)
  }

  lemma {:induction false} FirstMatchSpec(s: string, i: nat, isId: char -> bool)
    ensures var r := FirstMatchFrom(s, i, isId);
            && (r.Some? ==> MatchesAt(s, r.value, isId))
            && (r.Some? ==> forall j: nat :: i <= j < r.value ==> !MatchesAt(s, j, isId))
            && (r.None? ==> forall j: nat :: i <= j ==> !MatchesAt(s, j, isId))
    decreases |s| - i
  {
    if i <= |s| && !MatchesAt(s, i, isId) {
      FirstMatchSpec(s, i + 1, isId);
    }
  }

  /** The captured group of the leftmost match, if the pattern matches. */
  function Search(s: string, isId: char -> bool): (r: Option<string>)
    ensures r.Some? ==> |r.value| == 11
    ensures r.Some? ==> forall k :: 0 <= k < 11 ==> isId(r.value[k])
  {
    match FirstMatchFrom(s, 0, isId)
    case None => None
    case Some(i) =>
      FirstMatchSpec(s, 0, isId);
      var start := i + MarkerLength(s, i);
      Some(s[start..start + 11])
  }

  /** `i` is the leftmost match and `id` its capture. */
  ghost predicate LeftmostCapture(s: string, i: nat, isId: char -> bool, id: string) {
    && MatchesAt(s, i, isId)
    && (forall j: nat :: j < i ==> !MatchesAt(s, j, isId))
    && id == s[i + MarkerLength(s, i)..i + MarkerLength(s, i) + 11]
  }

  /** The search returns exactly the capture of the leftmost match. */
  lemma SearchSpec(s: string, isId: char -> bool, id: string)
    ensures Search(s, isId) == Some(id) <==> exists i: nat :: LeftmostCapture(s, i, isId, id)
  {
    FirstMatchSpec(s, 0, isId);
    var r := FirstMatchFrom(s, 0, isId);
    if Search(s, isId) == Some(id) {
      assert LeftmostCapture(s, r.value, isId, id);
    }
    if exists i: nat :: LeftmostCapture(s, i, isId, id) {
      var i: nat :| LeftmostCapture(s, i, isId, id);
      assert r.Some?;
      assert !(r.value < i) && !(i < r.value);
    }
  }

  /** The search fails exactly when the pattern matches nowhere. */
  lemma SearchNoneIff(s: string, isId: char -> bool)
    ensures Search(s, isId).None? <==> forall i: nat :: !MatchesAt(s, i, isId)
  {
    FirstMatchSpec(s, 0, isId);
  }

  /** A wider id class finds a match whenever a narrower one does. */
  lemma WiderClassStillMatches(s: string, narrow: char -> bool, wide: char -> bool)
    requires forall c :: narrow(c) ==> wide(c)
    requires Search(s, narrow).Some?
    ensures Search(s, wide).Some?
  {
    SearchNoneIff(s, narrow);
    var i: nat :| MatchesAt(s, i, narrow);
    assert MatchesAt(s, i, wide);
    SearchNoneIff(s, wide);
  }

  /** Two id classes that agree on every character of `s` give the same
      result on `s`. */
  lemma {:induction false} AgreeingClassesSameResult(s: string, c1: char -> bool, c2: char -> bool)
    requires forall k :: 0 <= k < |s| ==> (c1(s[k]) <==> c2(s[k]))
    ensures Search(s, c1) == Search(s, c2)
  {
    forall i: nat
      ensures MatchesAt(s, i, c1) <==> MatchesAt(s, i, c2)
    {
    }
    FirstMatchSame(s, 0, c1, c2);
  }

  lemma {:induction false} FirstMatchSame(s: string, i: nat, c1: char -> bool, c2: char -> bool)
    requires forall j: nat :: MatchesAt(s, j, c1) <==> MatchesAt(s, j, c2)
    ensures FirstMatchFrom(s, i, c1) == FirstMatchFrom(s, i, c2)
    decreases |s| - i
  {
    if i <= |s| && !MatchesAt(s, i, c1) {
      FirstMatchSame(s, i + 1, c1, c2);
    }
  }
}
