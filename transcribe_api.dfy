/** The Flask transcription service: `POST /transcribe` checks the URL,
    extracts the video id with `re.search` and returns the transcript
    entries' texts joined by single spaces.

    Python's `\w` on `str` patterns matches Unicode word characters. The
    Unicode character database is not part of this model: `isWord` stands
    for it, and `IsUnicodeWordClass` fixes the only part the model relies
    on, that on ASCII `\w` is `[A-Za-z0-9_]`. */
module TranscribeApi {
  import opened Wrappers
  import opened Strings
  import IdScan
  import LegacyScript

  /** `isWord` is a `\w` class: it agrees with `[A-Za-z0-9_]` below U+0080. */
  ghost predicate IsUnicodeWordClass(isWord: char -> bool) {
    forall c: char :: c < '\U{80}' ==> (isWord(c) <==> IsAsciiWordChar(c))
  }

  /** `[\w-]` for the word class `isWord`. */
  function IdClass(isWord: char -> bool): char -> bool {
    c => isWord(c) || c == '-'
  }

  /** `extract_video_id`: exactly 11 `[\w-]` characters, or `None`. */
  function ExtractVideoId(url: string, isWord: char -> bool): (r: Option<string>)
    ensures r.Some? ==> |r.value| == 11
    ensures r.Some? ==> forall k :: 0 <= k < 11 ==> isWord(r.value[k]) || r.value[k] == '-'
  {
    IdScan.Search(url, IdClass(isWord))
  }

  /** On an all-ASCII URL the service and the page script extract the
      same id. */
  lemma AsciiUrlSameAsScript(url: string, isWord: char -> bool)
    requires IsUnicodeWordClass(isWord)
    requires forall k :: 0 <= k < |url| ==> url[k] < '\U{80}'
    ensures ExtractVideoId(url, isWord) == LegacyScript.ExtractVideoId(url)
  {
    forall k | 0 <= k < |url|
      ensures IdClass(isWord)(url[k]) <==> LegacyScript.IsJsIdChar(url[k])
    {
      assert isWord(url[k]) <==> IsAsciiWordChar(url[k]);
    }
    IdScan.AgreeingClassesSameResult(url, IdClass(isWord), LegacyScript.IsJsIdChar);
  }

  /** Whenever the page script finds an id, the service finds one too. */
  lemma ServiceAcceptsWhatScriptAccepts(url: string, isWord: char -> bool)
    requires IsUnicodeWordClass(isWord)
    requires LegacyScript.ExtractVideoId(url).Some?
    ensures ExtractVideoId(url, isWord).Some?
  {
    forall c | LegacyScript.IsJsIdChar(c)
      ensures IdClass(isWord)(c)
    {
      if c != '-' {
        assert c < '\U{80}';
      }
    }
    IdScan.WiderClassStillMatches(url, LegacyScript.IsJsIdChar, IdClass(isWord));
  }

  /** A word class that, like Python's, counts `é` as a letter. */
  predicate WithEAcute(c: char) {
    IsAsciiWordChar(c) || c == 'é'
  }

  lemma WithEAcuteIsWordClass()
    ensures IsUnicodeWordClass(WithEAcute)
  {
  }

  /** A `v=` link whose id is eleven `é`. */
  function EAcuteUrl(): (u: string)
    ensures |u| == 13 && u[0] == 'v' && u[1] == '='
    ensures forall k :: 2 <= k < 13 ==> u[k] == 'é'
  {
    "v=" + Repeat('é', 11)
  }

  /** The service accepts the non-ASCII id. */
  lemma ServiceAcceptsEAcuteId()
    ensures ExtractVideoId(EAcuteUrl(), WithEAcute) == Some(Repeat('é', 11))
  {
    var u := EAcuteUrl();
    assert IdScan.MarkerLength(u, 0) == 2;
    forall k | 2 <= k < 13
      ensures IdClass(WithEAcute)(u[k])
    {
      assert WithEAcute(u[k]);
    }
    assert IdScan.IdRunAt(u, 2, IdClass(WithEAcute));
    assert u[2..13] == Repeat('é', 11);
    assert IdScan.LeftmostCapture(u, 0, IdClass(WithEAcute), Repeat('é', 11));
    IdScan.SearchSpec(u, IdClass(WithEAcute), Repeat('é', 11));
  }

  /** The page script finds no id in the same link, and then embeds
      `.../embed/null`. */
  lemma ScriptRejectsEAcuteId()
    ensures LegacyScript.ExtractVideoId(EAcuteUrl()).None?
  {
    var u := EAcuteUrl();
    forall i: nat
      ensures !IdScan.MatchesAt(u, i, LegacyScript.IsJsIdChar)
    {
      if i == 0 {
        assert !LegacyScript.IsJsIdChar(u[2]);
      } else if i + 2 <= |u| {
        assert u[i] == '=' || u[i] == 'é';
      }
    }
    IdScan.SearchNoneIff(u, LegacyScript.IsJsIdChar);
  }

  /** `request.get_json().get('url')`: absent, or a string. */
  datatype Request = Request(url: Option<string>)

  /** What `YouTubeTranscriptApi.get_transcript` and the JSON file write
      came to: the entries' `text` values, or the message of the exception
      raised by either. */
  datatype Fetch = Entries(texts: seq<string>) | Raised(message: string)

  const NoUrlMessage: string := "No URL provided"
  const InvalidUrlMessage: string := "Invalid YouTube URL"

  datatype Body = ErrorBody(error: string) | TranscriptionBody(transcription: string)

  datatype Response = Response(status: int, body: Body)

  /** `transcribe`. `fetch` is the outcome of the calls made with the
      extracted id; it is not consulted when validation fails. */
  function Transcribe(request: Request, fetch: Fetch, isWord: char -> bool): (r: Response)
    ensures request.url.None? || request.url.value == "" ==>
              r == Response(400, ErrorBody(NoUrlMessage))
    ensures request.url.Some? && request.url.value != "" && ExtractVideoId(request.url.value, isWord).None? ==>
              r == Response(400, ErrorBody(InvalidUrlMessage))
    ensures r.status == 200 <==>
              && request.url.Some? && request.url.value != ""
              && ExtractVideoId(request.url.value, isWord).Some?
              && fetch.Entries?
    ensures r.status == 200 ==> r.body == TranscriptionBody(Join(fetch.texts, " "))
    ensures request.url.Some? && request.url.value != "" && ExtractVideoId(request.url.value, isWord).Some?
            && fetch.Raised? ==>
              r == Response(500, ErrorBody(fetch.message))
    ensures r.status != 200 ==> r.body.ErrorBody?
  {
    if request.url.None? || request.url.value == "" then Response(400, ErrorBody(NoUrlMessage))
    else
      match ExtractVideoId(request.url.value, isWord)
      case None => Response(400, ErrorBody(InvalidUrlMessage))
      case Some(_) =>
        match fetch
        case Raised(message) => Response(500, ErrorBody(message))
        case Entries(texts) => Response(200, TranscriptionBody(Join(texts, " ")))
  }

  /** The reply as the page script reads it: the service always answers
      with JSON, `response.ok` is a 2xx status, and a key absent from the
      body reads as missing. */
  function AsReply(response: Response): (r: LegacyScript.Reply)
    ensures r.Answered?
    ensures r.ok <==> 200 <= response.status < 300
    ensures r.title.None?
    ensures response.body.ErrorBody? ==> r.error == Some(response.body.error)
    ensures response.body.TranscriptionBody? ==> r.transcription == Some(response.body.transcription)
  {
    match response.body
    case ErrorBody(e) => LegacyScript.Answered(200 <= response.status < 300, None, None, Some(e))
    case TranscriptionBody(t) => LegacyScript.Answered(200 <= response.status < 300, None, Some(t), None)
  }

  /** What the page script ends up with when it posts `url` to this
      service from the page `before`. */
  function ScriptStep(url: string, before: LegacyScript.Page, fetch: Fetch, isWord: char -> bool): LegacyScript.Step {
    LegacyScript.RequestTranscription(url, before, AsReply(Transcribe(Request(Some(url)), fetch, isWord)))
  }

  /** The service never sends a title, so after any request the page
      shows `Vidéo: N/A`. */
  lemma ScriptShowsNoTitle(url: string, before: LegacyScript.Page, fetch: Fetch, isWord: char -> bool)
    requires url != ""
    ensures ScriptStep(url, before, fetch, isWord).requestedUrl == Some(url)
    ensures ScriptStep(url, before, fetch, isWord).page.titleText == LegacyScript.TitlePrefix + LegacyScript.NoTitle
  {
    var reply := AsReply(Transcribe(Request(Some(url)), fetch, isWord));
    assert LegacyScript.OrElse(reply.title, LegacyScript.NoTitle) == LegacyScript.NoTitle;
  }

  /** A URL the service cannot read is alerted with the service's
      message, on the cleared page. */
  lemma ScriptAlertsRejectedUrl(url: string, before: LegacyScript.Page, fetch: Fetch, isWord: char -> bool)
    requires url != "" && ExtractVideoId(url, isWord).None?
    ensures ScriptStep(url, before, fetch, isWord).alert == Some("Error: " + InvalidUrlMessage)
    ensures ScriptStep(url, before, fetch, isWord).page == LegacyScript.Cleared(before)
  {
    var response := Transcribe(Request(Some(url)), fetch, isWord);
    assert response == Response(400, ErrorBody(InvalidUrlMessage));
    var reply := AsReply(response);
    assert !reply.ok && reply.error == Some(InvalidUrlMessage);
  }

  /** A non-empty transcript is shown and handed on as the service joined
      it. */
  lemma ScriptForwardsTranscript(url: string, before: LegacyScript.Page, texts: seq<string>, isWord: char -> bool)
    requires url != "" && ExtractVideoId(url, isWord).Some? && Join(texts, " ") != ""
    ensures ScriptStep(url, before, Entries(texts), isWord).alert.None?
    ensures ScriptStep(url, before, Entries(texts), isWord).page.sectionShown
    ensures ScriptStep(url, before, Entries(texts), isWord).forwarded == Some(Join(texts, " "))
  {
    var response := Transcribe(Request(Some(url)), Entries(texts), isWord);
    assert response == Response(200, TranscriptionBody(Join(texts, " ")));
    var reply := AsReply(response);
    assert reply.ok && reply.transcription == Some(Join(texts, " "));
  }

  /** The joined transcription splits back into the entries when no entry
      holds a space. */
  lemma TranscriptionSplitsBack(texts: seq<string>)
    requires |texts| >= 1
    requires forall k :: 0 <= k < |texts| ==> ' ' !in texts[k]
    ensures Split(Join(texts, " "), ' ') == texts
  {
    SplitJoin(texts, ' ');
  }
}
