/** The standalone page script: it asks the transcription service for a
    transcript, shows it with one timestamp per non-blank line, and shows
    the generated article with its line breaks turned into `<br>`. */
module LegacyScript {
  import opened Wrappers
  import opened Strings
  import IdScan
  import Convert

  /** `[\w-]` of a JavaScript regular expression without the `u` flag. */
  predicate IsJsIdChar(c: char) {
    IsAsciiWordChar(c) || c == '-'
  }

  /** `extractVideoId`: the 11 id characters after the leftmost marker
      that is followed by 11 of them. */
  function ExtractVideoId(url: string): (r: Option<string>)
    ensures r.Some? ==> |r.value| == 11 && forall k :: 0 <= k < 11 ==> IsJsIdChar(r.value[k])
  {
    IdScan.Search(url, IsJsIdChar)
  }

  lemma WatchUrlNoEarlierMarker()
    ensures forall j: nat :: j < 30 ==> IdScan.MarkerLength(Convert.WatchUrl, j) == 0
  {
    var u := Convert.WatchUrl;
    var head := "https://www.youtube.com/watch?";
    assert u[..30] == head;
    forall j: nat | j < 30
      ensures IdScan.MarkerLength(u, j) == 0
    {
      assert u[j] == head[j];
      if j !in {12, 18} {
        IdScan.NoMarkerAt(u, j);
      }
    }
  }

  lemma WatchUrlMarker()
    ensures IdScan.MarkerLength(Convert.WatchUrl, 30) == 2
  {
    assert Convert.WatchUrl[30] == 'v' && Convert.WatchUrl[31] == '=';
  }

  lemma WatchUrlRun()
    ensures Convert.WatchUrl[32..43] == "dQw4w9WgXcQ"
    ensures IdScan.IdRunAt(Convert.WatchUrl, 32, IsJsIdChar)
  {
    var u := Convert.WatchUrl;
    var id := "dQw4w9WgXcQ";
    assert u[32..43] == id;
    forall k | 32 <= k < 43
      ensures IsJsIdChar(u[k])
    {
      assert u[k] == id[k - 32];
    }
  }

  lemma WatchUrlExample()
    ensures ExtractVideoId(Convert.WatchUrl) == Some("dQw4w9WgXcQ")
  {
    WatchUrlNoEarlierMarker();
    WatchUrlMarker();
    WatchUrlRun();
    assert IdScan.MatchesAt(Convert.WatchUrl, 30, IsJsIdChar);
    assert IdScan.LeftmostCapture(Convert.WatchUrl, 30, IsJsIdChar, "dQw4w9WgXcQ");
    IdScan.SearchSpec(Convert.WatchUrl, IsJsIdChar, "dQw4w9WgXcQ");
  }

  /** The 12th character is not looked at, and an earlier marker with a
      short run is skipped. */
  lemma TwelfthCharacterIgnoredExample()
    ensures ExtractVideoId("v=abc&v=dQw4w9WgXcQXYZ") == Some("dQw4w9WgXcQ")
  {
    var u := "v=abc&v=dQw4w9WgXcQXYZ";
    var id := "dQw4w9WgXcQ";
    assert u[8..19] == id;
    forall k | 8 <= k < 19
      ensures IsJsIdChar(u[k])
    {
      assert u[k] == id[k - 8];
    }
    assert IdScan.MarkerLength(u, 6) == 2;
    assert IdScan.MatchesAt(u, 6, IsJsIdChar);
    assert u[1] == '=' && u[2] == 'a' && u[3] == 'b' && u[4] == 'c' && u[5] == '&';
    forall j: nat | j < 6
      ensures !IdScan.MatchesAt(u, j, IsJsIdChar)
    {
      if j == 0 {
        assert !IsJsIdChar(u[5]);
      } else {
        assert IdScan.MarkerLength(u, j) == 0;
      }
    }
    assert IdScan.LeftmostCapture(u, 6, IsJsIdChar, id);
    IdScan.SearchSpec(u, IsJsIdChar, id);
  }

  /** `${String(minute).padStart(2, '0')}:${String(0).padStart(2, '0')}`. */
  function Timestamp(minute: nat): string {
    PadStart(NatToDecimal(minute), 2, '0') + ":" + PadStart(NatToDecimal(0), 2, '0')
  }

  /** A timestamp is the minute in at least two digits followed by `:00`,
      and the minute can be read back from it. */
  lemma TimestampShape(minute: nat)
    ensures var t := Timestamp(minute);
            && |t| >= 5
            && t[|t| - 3..] == ":00"
            && |t| - 3 == (if |NatToDecimal(minute)| < 2 then 2 else |NatToDecimal(minute)|)
            && (forall k :: 0 <= k < |t| - 3 ==> IsDigit(t[k]))
            && DecimalValue(t[..|t| - 3]) == minute
  {
    var d := NatToDecimal(minute);
    var p := PadStart(d, 2, '0');
    var t := Timestamp(minute);
    assert NatToDecimal(0) == "0";
    assert PadStart("0", 2, '0') == "00";
    assert t == p + ":00";
    assert t[..|t| - 3] == p;
    assert t[|t| - 3..] == ":00";
    DecimalRoundTrip(minute);
    if |d| < 2 {
      DecimalLeadingZeros(2 - |d|, d);
    } else {
      assert p == d;
    }
  }

  /** Different minutes get different timestamps. */
  lemma TimestampInjective(m: nat, n: nat)
    requires Timestamp(m) == Timestamp(n)
    ensures m == n
  {
    TimestampShape(m);
    TimestampShape(n);
  }

  /** The text emitted for the non-blank line `line` at position `minute`. */
  function Entry(minute: nat, line: string): string {
    "<strong>" + Timestamp(minute) + "</strong> " + line + "<br>"
  }

  /** The lines whose trimmed form is non-empty, in input order. */
  function NonBlank(lines: seq<string>): seq<string>
  {
    if |lines| == 0 then []
    else
      var last := lines[|lines| - 1];
      NonBlank(lines[..|lines| - 1]) + (if IsBlank(last) then [] else [last])
  }

  /** The entries of `lines`, the k-th (from 0) stamped with minute k. */
  function Render(lines: seq<string>): string
  {
    if |lines| == 0 then ""
    else Render(lines[..|lines| - 1]) + Entry(|lines| - 1, lines[|lines| - 1])
  }

  /** What `formatTranscriptionWithTimestamps` returns for `transcription`. */
  function FormattedTranscription(transcription: string): string {
    Render(NonBlank(Split(transcription, '\n')))
  }

  lemma NonBlankSnoc(lines: seq<string>, line: string)
    ensures NonBlank(lines + [line]) == NonBlank(lines) + (if IsBlank(line) then [] else [line])
  {
    assert (lines + [line])[..|lines|] == lines;
  }

  lemma RenderSnoc(lines: seq<string>, line: string)
    ensures Render(lines + [line]) == Render(lines) + Entry(|lines|, line)
  {
    var s := lines + [line];
    assert s[..|s| - 1] == lines;
    assert s[|s| - 1] == line;
  }

  /** Taking one more line adds its entry, if any. */
  lemma NonBlankPrefixStep(lines: seq<string>, i: nat)
    requires i < |lines|
    ensures NonBlank(lines[..i + 1]) == NonBlank(lines[..i]) + (if IsBlank(lines[i]) then [] else [lines[i]])
  {
    assert lines[..i + 1] == lines[..i] + [lines[i]];
    NonBlankSnoc(lines[..i], lines[i]);
  }

  /** `formatTranscriptionWithTimestamps`: walks the lines, emitting an
      entry for each non-blank one and counting the minutes. */
  method FormatTranscriptionWithTimestamps(transcription: string) returns (formattedText: string)
    ensures formattedText == FormattedTranscription(transcription)
  {
    var lines := Split(transcription, '\n');
    formattedText := "";
    var minute: nat := 0;
    ghost var kept: seq<string> := [];
    for i := 0 to |lines|
      invariant kept == NonBlank(lines[..i])
      invariant minute == |kept|
      invariant formattedText == Render(kept)
    {
      var line := lines[i];
      NonBlankPrefixStep(lines, i);
      if !IsBlank(line) {
        RenderSnoc(kept, line);
        formattedText := formattedText + Entry(minute, line);
        minute := minute + 1;
        kept := kept + [line];
      }
    }
    assert lines[..|lines|] == lines;
  }

  /** Filtering distributes over concatenation: entries keep input order. */
  lemma {:induction false} NonBlankAppend(xs: seq<string>, ys: seq<string>)
    ensures NonBlank(xs + ys) == NonBlank(xs) + NonBlank(ys)
    decreases |ys|
  {
    if |ys| == 0 {
      assert xs + ys == xs;
    } else {
      var init := ys[..|ys| - 1];
      var last := ys[|ys| - 1];
      assert ys == init + [last];
      assert xs + ys == (xs + init) + [last];
      NonBlankAppend(xs, init);
      NonBlankSnoc(xs + init, last);
      NonBlankSnoc(init, last);
    }
  }

  /** Exactly the non-blank lines are kept. */
  lemma {:induction false} NonBlankMembers(lines: seq<string>, x: string)
    ensures x in NonBlank(lines) <==> x in lines && !IsBlank(x)
    decreases |lines|
  {
    if |lines| > 0 {
      var init := lines[..|lines| - 1];
      assert lines == init + [lines[|lines| - 1]];
      NonBlankMembers(init, x);
    }
  }

  predicate AllBlank(lines: seq<string>) {
    forall k :: 0 <= k < |lines| ==> IsBlank(lines[k])
  }

  /** Nothing is kept exactly when every line is blank. */
  lemma {:induction false} NonBlankEmptyIff(lines: seq<string>)
    ensures NonBlank(lines) == [] <==> AllBlank(lines)
    decreases |lines|
  {
    if |lines| > 0 {
      var init := lines[..|lines| - 1];
      NonBlankEmptyIff(init);
      assert forall k :: 0 <= k < |init| ==> init[k] == lines[k];
    }
  }

  lemma RenderEmptyIff(lines: seq<string>)
    ensures Render(lines) == "" <==> lines == []
  {
    if |lines| > 0 {
      var e := Entry(|lines| - 1, lines[|lines| - 1]);
      assert |e| > 0;
      assert |Render(lines)| >= |e|;
    }
  }

  /** An empty or all-blank transcription formats to the empty string, and
      only such a transcription does. */
  lemma FormattedEmptyIff(transcription: string)
    ensures FormattedTranscription(transcription) == "" <==> AllBlank(Split(transcription, '\n'))
  {
    var lines := Split(transcription, '\n');
    assert FormattedTranscription(transcription) == Render(NonBlank(lines));
    NonBlankEmptyIff(lines);
    RenderEmptyIff(NonBlank(lines));
  }

  lemma SplitThreeLines(first: string, blank: string, second: string)
    requires '\n' !in first && '\n' !in blank && '\n' !in second
    ensures Split(first + "\n" + blank + "\n" + second, '\n') == [first, blank, second]
  {
    var lines := [first, blank, second];
    assert lines[1..] == [blank, second];
    assert [blank, second][1..] == [second];
    assert Join([blank, second], "\n") == blank + "\n" + second;
    assert Join(lines, "\n") == first + "\n" + (blank + "\n" + second);
    assert first + "\n" + (blank + "\n" + second) == first + "\n" + blank + "\n" + second;
    SplitJoin(lines, '\n');
  }

  lemma NonBlankOfThree(first: string, blank: string, second: string)
    requires !IsBlank(first) && IsBlank(blank) && !IsBlank(second)
    ensures NonBlank([first, blank, second]) == [first, second]
  {
    assert [] + [first] == [first] && [first] + [blank] == [first, blank];
    assert [first, blank] + [second] == [first, blank, second];
    NonBlankSnoc([], first);
    NonBlankSnoc([first], blank);
    NonBlankSnoc([first, blank], second);
  }

  /** A blank line between two lines emits nothing and does not advance
      the counter: the second line gets minute 1, stamped `01:00`. */
  lemma BlankLineSkipped(first: string, blank: string, second: string)
    requires '\n' !in first && '\n' !in blank && '\n' !in second
    requires !IsBlank(first) && IsBlank(blank) && !IsBlank(second)
    ensures FormattedTranscription(first + "\n" + blank + "\n" + second) == Entry(0, first) + Entry(1, second)
  {
    SplitThreeLines(first, blank, second);
    NonBlankOfThree(first, blank, second);
    assert [] + [first] == [first] && [first] + [second] == [first, second];
    RenderSnoc([], first);
    RenderSnoc([first], second);
  }

  /** The first two stamps. */
  lemma FirstTimestamps()
    ensures Timestamp(0) == "00:00" && Timestamp(1) == "01:00"
  {
    assert NatToDecimal(0) == "0" && NatToDecimal(1) == "1";
  }

  /** `article.replace(/\n/g, '<br>')`. */
  function ReplaceNewlines(s: string): (r: string)
    ensures '\n' !in r
  {
    if |s| == 0 then ""
    else (if s[0] == '\n' then "<br>" else [s[0]]) + ReplaceNewlines(s[1..])
  }

  /** Replacing every newline is splitting at newlines and joining with
      `<br>`: every newline is replaced and nothing else changes. */
  lemma {:induction false} ReplaceNewlinesIsSplitJoin(s: string)
    ensures ReplaceNewlines(s) == Join(Split(s, '\n'), "<br>")
  {
    if |s| > 0 {
      ReplaceNewlinesIsSplitJoin(s[1..]);
      var rest := Split(s[1..], '\n');
      if s[0] == '\n' {
        JoinCons("", rest, "<br>");
      } else {
        JoinPrependToFirst(s[0], rest, "<br>");
      }
    }
  }

  /** A text without newlines is left as it is. */
  lemma {:induction false} ReplaceNewlinesNoNewline(s: string)
    requires '\n' !in s
    ensures ReplaceNewlines(s) == s
  {
    if |s| > 0 {
      ReplaceNewlinesNoNewline(s[1..]);
      assert [s[0]] + s[1..] == s;
    }
  }

  /** JavaScript's `v || fallback` on an optional string: an absent or
      empty value is falsy. */
  function OrElse(v: Option<string>, fallback: string): (r: string)
    ensures v.None? || v.value == "" ==> r == fallback
    ensures v.Some? && v.value != "" ==> r == v.value
    ensures fallback != "" ==> r != ""
  {
    if v.Some? && v.value != "" then v.value else fallback
  }

  /** How the page's request to the transcription service ended: a reply
      whose JSON body the page parsed (with `response.ok`), or a rejected
      `fetch` or `response.json()`, which aborts `requestTranscription`. */
  datatype Reply =
    | Answered(ok: bool, title: Option<string>, transcription: Option<string>, error: Option<string>)
    | Rejected

  /** The part of the page `requestTranscription` writes: the title line,
      the transcription output, the video frame's source and whether the
      video section is displayed. */
  datatype Page = Page(titleText: string, outputHtml: string, frameSrc: string, sectionShown: bool)

  /** One run of `requestTranscription`: the URL posted to the service (if
      a request was sent), the alert raised (if any), the page afterwards,
      and the transcription handed on to article generation (if any). */
  datatype Step = Step(requestedUrl: Option<string>, alert: Option<string>, page: Page, forwarded: Option<string>)

  const EmptyUrlAlert: string := "Please enter a valid YouTube URL"
  const NoTitle: string := "N/A"
  const NoTranscription: string := "No transcription available."
  const TitlePrefix: string := "Vidéo: "

  /** The page once the previous title, transcription and video are
      cleared, before the request is sent; the section stays as it was. */
  function Cleared(before: Page): (r: Page)
    ensures r.titleText == TitlePrefix + NoTitle && r.outputHtml == "" && r.frameSrc == ""
    ensures r.sectionShown == before.sectionShown
  {
    Page(TitlePrefix + NoTitle, "", "", before.sectionShown)
  }

  /** `'Error: ' + result.error` shows a missing field as `undefined`. */
  function ShowOrUndefined(v: Option<string>): (r: string)
    ensures v.Some? ==> r == v.value
    ensures v.None? ==> r == "undefined"
  {
    match v
    case Some(s) => s
    case None => "undefined"
  }

  /** The embed address of the id `extractVideoId` returned, or of `null`. */
  function EmbedUrl(videoId: Option<string>): (r: string)
    ensures StartsWith(r, "https://www.youtube.com/embed/")
    ensures videoId.Some? ==> r[30..] == videoId.value
    ensures videoId.None? ==> r[30..] == "null"
  {
    "https://www.youtube.com/embed/" + match videoId case Some(id) => id case None => "null"
  }

  /** `requestTranscription` on the page `before`, given how the request
      ended. An empty URL is alerted and nothing else happens. Otherwise
      the page is cleared and the request sent; a rejection leaves the
      cleared page without an alert, an error reply alerts its message,
      and a success shows the section with the title or `N/A`, the
      embedded video and the formatted transcription or its fallback. */
  function RequestTranscription(videoUrl: string, before: Page, reply: Reply): (r: Step)
    ensures r.requestedUrl.None? <==> videoUrl == ""
    ensures r.requestedUrl.Some? ==> r.requestedUrl.value == videoUrl
    ensures videoUrl == "" ==>
              r.alert == Some(EmptyUrlAlert) && r.page == before && r.forwarded.None?
    ensures videoUrl != "" && reply.Rejected? ==>
              r.alert.None? && r.page == Cleared(before) && r.forwarded.None?
    ensures videoUrl != "" && reply.Answered? && !reply.ok ==>
              && r.alert == Some("Error: " + ShowOrUndefined(reply.error))
              && r.page == Cleared(before) && r.forwarded.None?
    ensures videoUrl != "" && reply.Answered? && reply.ok ==>
              && r.alert.None?
              && r.forwarded == Some(OrElse(reply.transcription, NoTranscription))
              && r.page.titleText == TitlePrefix + OrElse(reply.title, NoTitle)
              && r.page.outputHtml == FormattedTranscription(r.forwarded.value)
              && r.page.frameSrc == EmbedUrl(ExtractVideoId(videoUrl))
              && r.page.sectionShown
  {
    if videoUrl == "" then Step(None, Some(EmptyUrlAlert), before, None)
    else
      var cleared := Cleared(before);
      match reply
      case Rejected => Step(Some(videoUrl), None, cleared, None)
      case Answered(ok, title, transcription, error) =>
        if !ok then Step(Some(videoUrl), Some("Error: " + ShowOrUndefined(error)), cleared, None)
        else
          var t := OrElse(transcription, NoTranscription);
          var shown := cleared.(sectionShown := true, frameSrc := EmbedUrl(ExtractVideoId(videoUrl)));
          var titled := shown.(titleText := TitlePrefix + OrElse(title, NoTitle));
          Step(Some(videoUrl), None, titled.(outputHtml := cleared.outputHtml + FormattedTranscription(t)), Some(t))
  }

  /** Once a request is sent, nothing of the previous result survives:
      the title, output and frame depend only on the URL and the reply. */
  lemma NoStaleResult(videoUrl: string, b1: Page, b2: Page, reply: Reply)
    requires videoUrl != ""
    ensures var p1 := RequestTranscription(videoUrl, b1, reply).page;
            var p2 := RequestTranscription(videoUrl, b2, reply).page;
            p1.titleText == p2.titleText && p1.outputHtml == p2.outputHtml && p1.frameSrc == p2.frameSrc
  {
  }

  /** A transcription goes on to article generation exactly when the
      service answered with a 2xx status. */
  lemma ForwardedIff(videoUrl: string, before: Page, reply: Reply)
    ensures RequestTranscription(videoUrl, before, reply).forwarded.Some? <==>
              videoUrl != "" && reply.Answered? && reply.ok
  {
  }
}
