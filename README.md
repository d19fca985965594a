# blogifyai in Dafny

This is a Dafny model of the logic in blogifyai, a web application that
turns a YouTube video into a blog article. It covers the following parts:

- **Conversion page** (`src/pages/Convert.tsx`). The page pulls a video id
  out of the URL and creates an article. The article starts as
  `processing` with a placeholder title and a thumbnail URL. A timer
  later adds a transcript and moves it to `draft`.
- **Editor page** (`src/pages/EditArticle.tsx`). The page loads one of the
  user's articles and lets the user edit the title and content. Save
  writes them back as `draft`. Generate moves the article to `generating`,
  and a timer later writes a fixed title and content and moves it back to
  `draft`. The model also covers the rules for which buttons and fields
  the page offers, and the status badge.
- **Dashboard** (`src/pages/Dashboard.tsx`). It lists the user's articles,
  newest first, and deletes them. It also holds the status label and
  colour mappings and the fallback from the `maxresdefault` thumbnail to
  `hqdefault`.
- **Standalone page script** (`java.js`). It extracts the video id, turns
  a transcript into timestamped lines, applies the fallbacks when the
  transcription service's reply lacks a field, and turns newlines into
  `<br>`.
- **Transcription service** (`app.py`). It extracts the video id with
  Python's Unicode `\w`, checks the request in a fixed order, and joins
  the transcript entries with spaces.
- **Supabase client set-up** (`src/lib/supabase.ts`). Both environment
  values must be present, and a URL that does not start with `http` gets
  `https://` in front.

The `articles` table is the class `Articles.ArticleStore`, a map from id
to record. Every request to the backend becomes a boolean parameter that
says whether the request succeeded. Every `setTimeout` callback becomes a
"Complete" method that the caller invokes later. The timers still
pending are a first-in-first-out queue of the ids they will write.

There are three video-id extractors.

- **Convert.tsx's regular expression.** It is modelled as a right-to-left
  scan with JavaScript's string semantics. The `.` of `^.*` matches one
  UTF-16 code unit other than a line terminator. The greedy `^.*` makes
  the capture follow the rightmost marker that no line terminator
  precedes. After the marker comes the longest run of characters other
  than `#`, `&` and `?`. The id is accepted only if that run's `length`,
  counted in UTF-16 code units, is exactly 11. A character above U+FFFF
  counts twice.
- **java.js and app.py.** They share one leftmost-match scanner,
  `IdScan.Search`, whose id character class is a parameter.
- **Python's `\w`.** Its Unicode character database is a parameter too.
  The model assumes only that it agrees with `[A-Za-z0-9_]` below U+0080.

Each extractor is proved equal to a declarative reading of its pattern,
in both directions. The lemmas then relate the extractors to each other:

- on an ASCII URL the service and the page script extract the same id;
- the service accepts every URL the script accepts;
- there is a URL the service accepts and the script rejects.

Where the code and the design description disagree, the model follows the
code:

- Writes and deletes are keyed by the article id alone. There is no owner
  check.
- Convert.tsx's id alphabet is not restricted to `[A-Za-z0-9_-]`. Any
  character other than `#`, `&` and `?` passes, and so does any character
  of one code unit, other than a line terminator, at the dot of
  `youtu.be`.
- The generate handler does not check the current status. Only the page
  layout keeps the generate button away from `processing` and `generating`
  articles.
- Save works while the article is `processing` and writes `draft`.
- Loading uses `.single()`, so an id with no row of the user is an error
  of the request. It takes the "Failed to load article" path, not the
  "Article not found" path.

The page locks itself after a failed generation. If the generation
timer's write fails, the record stays `generating`. On every later load,
`EditArticle.GeneratingLocksPage` shows that the page then offers no
save, no field and no generate button.

## Model

| member | source | states |
|---|---|---|
| Articles.StatusNameInjective | src/pages/Dashboard.tsx:10 | The four stored status names are distinct. |
| Articles.ArticleStore.constructor | src/lib/supabase.ts:18 | The store starts empty and consistent. |
| Articles.ArticleStore.Insert | src/pages/Convert.tsx:28-41 | `insert().select().single()` files the new row under a fresh id with no content and no transcript, and nothing else changes. |
| Articles.ArticleStore.SetTranscriptAndStatus | src/pages/Convert.tsx:65-71 | One update sets the transcript and the status of the record with that id. An absent id changes nothing. |
| Articles.ArticleStore.SetStatus | src/pages/EditArticle.tsx:92-97 | The update sets only the status of the record with that id. An absent id changes nothing. |
| Articles.ArticleStore.SetTitleContentStatus | src/pages/EditArticle.tsx:64-71 | The update sets title, content and status of the record with that id, keyed by id alone. |
| Articles.ArticleStore.Delete | src/pages/Dashboard.tsx:50-53 | The record with that id is removed whoever owns it, and every other record stays. |
| Convert.MarkerLength | src/pages/Convert.tsx:89 | A match has a length of 2 to 9, fits in the string, and never starts at a line terminator. |
| Convert.MarkerLengthIff | src/pages/Convert.tsx:89 | The length is 9 exactly at `youtu`, a `.`-character and `be/`; 2 exactly at `v/`; 4 exactly at `u/`, an ASCII word character and `/`; 6 exactly at `embed/`; 8 exactly at `watch?v=`; 3 exactly at `&v=`; and 0 exactly where no alternative matches. |
| Convert.AtMostOneAlternative | src/pages/Convert.tsx:89 | At most one of the six alternatives matches at any position. |
| Convert.LineEnd | src/pages/Convert.tsx:89 | `^.*` reaches up to the first line terminator, or to the end of the string. |
| Convert.LastMarkerAtOrBefore | src/pages/Convert.tsx:89 | The backward scan returns a position at or before its start where a marker begins. |
| Convert.LastMarkerSpec | src/pages/Convert.tsx:89 | The backward scan finds a marker with none after it up to the start point, or there is no marker at all. This is the greedy `^.*`. |
| Convert.RunEnd | src/pages/Convert.tsx:89 | `([^#&?]*)` captures up to the first `#`, `&` or `?`, or to the end of the string. |
| Convert.RunAfter | src/pages/Convert.tsx:89 | The capture after a marker holds no `#`, `&` or `?`. |
| Convert.ReachableIff | src/pages/Convert.tsx:89 | `^.*` can cover the text before a position exactly when no line terminator comes before it. |
| Convert.ExtractVideoId | src/pages/Convert.tsx:88-92 | A result has a UTF-16 `length` of exactly 11, so 6 to 11 characters, and contains no `#`, `&` or `?`. |
| Convert.LastMarkerFound | src/pages/Convert.tsx:89 | Started at the first line terminator, the scan returns the last position `^.*` can reach where a marker begins. |
| Convert.RunEndUnique | src/pages/Convert.tsx:89 | The captured run is the maximal one. |
| Convert.ExtractVideoIdSound | src/pages/Convert.tsx:89-91 | Every returned id follows the rightmost reachable marker and is a maximal run of non-delimiters. |
| Convert.ExtractVideoIdComplete | src/pages/Convert.tsx:89-91 | Every maximal run of UTF-16 length 11 after the rightmost reachable marker is returned. |
| Convert.ExtractVideoIdSpec | src/pages/Convert.tsx:88-92 | The extractor returns `id` if and only if `id` has UTF-16 length 11 and is the capture after the rightmost marker that no line terminator precedes. |
| Convert.WrongLengthNoId | src/pages/Convert.tsx:91 | A run after the last reachable marker whose UTF-16 length is not 11 gives no id, whatever earlier markers are followed by. |
| Convert.NoMarkerNoId | src/pages/Convert.tsx:89-91 | A URL without any of the six markers before its first line terminator gives no id. |
| Convert.WatchUrlExample | src/pages/Convert.tsx:89-91 | `watch?v=dQw4w9WgXcQ` yields `dQw4w9WgXcQ`. |
| Convert.LaterMarkerWinsExample | src/pages/Convert.tsx:89-91 | A later `&v=abc` takes over from the earlier `watch?v=`, so there is no id. |
| Convert.NotAVideoUrlExample | src/pages/Convert.tsx:89-91 | A URL without a marker is rejected. |
| Convert.LooseShortLinkExample | src/pages/Convert.tsx:89 | A letter can stand at the dot of `youtu.be`, and punctuation is accepted in the id. |
| Convert.EmojiMakesIdTooLongExample | src/pages/Convert.tsx:91 | After `v/`, an emoji and ten digits are eleven characters but 12 code units, so there is no id. |
| Convert.EmojiIdFitsExample | src/pages/Convert.tsx:91 | After `v/`, an emoji and nine digits, ten characters, have `length` 11 and are the id. |
| Convert.LineBreakBeforeMarkerExample | src/pages/Convert.tsx:89 | A line break before the marker stops `^.*`, so `\nv/abcdefghijk` has no id. |
| Convert.ThumbnailUrl | src/pages/Convert.tsx:25 | The thumbnail is the image host, then the id, then `/maxresdefault.jpg`. |
| Convert.NewRecord | src/pages/Convert.tsx:28-38 | The inserted row: the user, the placeholder title, no content, `processing`, the URL as typed, the thumbnail and the id, and no transcript. |
| Convert.ConvertForm.constructor | src/pages/Convert.tsx:8-11 | The form starts with an empty URL, not loading, and no pending timer. |
| Convert.ConvertForm.SetYoutubeUrl | src/pages/Convert.tsx:113 | The input's change handler sets the URL as typed. |
| Convert.ConvertForm.HandleSubmit | src/pages/Convert.tsx:13-86 | An invalid URL inserts nothing. A failed insert changes nothing. On success a fresh `processing` record is inserted with the placeholder title, the URL as typed, the extracted id and its thumbnail, and its transcript timer is queued. `loading` is false on every exit. |
| Convert.ConvertForm.CompleteTranscript | src/pages/Convert.tsx:47-77 | The oldest timer fires: one update sets the transcript and `draft` on that id. A failed update changes nothing. |
| IdScan.MarkerLength | java.js:50 | A marker match has a length of 2 to 9 and fits in the string. |
| IdScan.MarkerLengthIff | java.js:50 | The length is 2 exactly at `v=`, 9 exactly at `youtu.be/` with a literal dot, 6 exactly at `embed/`, and 0 exactly where none of the three begins. |
| IdScan.FirstMatchSpec | java.js:50-52 | The forward scan stops at the leftmost match, or finds none. |
| IdScan.Search | java.js:49-53 | A result is 11 characters of the id class. |
| IdScan.SearchSpec | java.js:50-52 | The search returns `id` if and only if `id` is the capture of the leftmost match. |
| IdScan.SearchNoneIff | java.js:50-52 | The search fails if and only if the pattern matches nowhere. |
| IdScan.WiderClassStillMatches | app.py:11 | A wider id class finds an id whenever a narrower one does. |
| IdScan.AgreeingClassesSameResult | app.py:11 | Id classes that agree on the URL's characters give the same result. |
| LegacyScript.ExtractVideoId | java.js:49-53 | A result is 11 `[A-Za-z0-9_-]` characters. |
| LegacyScript.WatchUrlExample | java.js:50-52 | `watch?v=dQw4w9WgXcQ` yields `dQw4w9WgXcQ`. |
| LegacyScript.TwelfthCharacterIgnoredExample | java.js:50-52 | An earlier `v=` with a short run is skipped, and characters after the eleventh are not looked at. |
| LegacyScript.Timestamp | java.js:62 | The stamp is `String(minute).padStart(2, '0')`, a colon, and `String(0).padStart(2, '0')`. |
| LegacyScript.TimestampShape | java.js:62 | A stamp is the minute in decimal, zero-padded to at least two digits, then `:00`, and the minute can be read back from it. |
| LegacyScript.TimestampInjective | java.js:62 | Different minutes give different stamps. |
| Strings.DecimalRoundTrip | java.js:62 | `String(minute)` writes the minute in decimal digits that read back as the minute. |
| Strings.PadStart | java.js:62 | `padStart(2, '0')` keeps a string of two or more characters and otherwise fills it on the left to exactly two. |
| LegacyScript.FirstTimestamps | java.js:62 | Minutes 0 and 1 are stamped `00:00` and `01:00`. |
| LegacyScript.Entry | java.js:63 | The text for a kept line is `<strong>`, the stamp, `</strong>`, a space, the line and `<br>`. |
| LegacyScript.FormatTranscriptionWithTimestamps | java.js:55-69 | The loop emits, in input order, one entry `<strong>TS</strong> line<br>` per non-blank line, with the untrimmed line. The k-th emitted line (counting from 0) gets minute k, and blank lines emit nothing. |
| LegacyScript.NonBlankAppend | java.js:60-61 | Keeping the non-blank lines commutes with concatenation, so entries keep input order. |
| LegacyScript.NonBlankMembers | java.js:61 | A line is kept if and only if it is one of the input lines and its trimmed form is non-empty. |
| LegacyScript.NonBlankEmptyIff | java.js:61 | Nothing is kept if and only if every line is blank. |
| LegacyScript.RenderEmptyIff | java.js:63 | The rendered text is empty if and only if no line was kept. |
| LegacyScript.FormattedEmptyIff | java.js:55-68 | A transcription formats to `""` if and only if it is empty or all blank. |
| LegacyScript.BlankLineSkipped | java.js:58-64 | With a blank line between two lines, the second line gets minute 1. |
| LegacyScript.ReplaceNewlines | java.js:95 | No newline is left in the result. |
| LegacyScript.ReplaceNewlinesIsSplitJoin | java.js:95 | Every newline is replaced by `<br>` and nothing else changes. |
| LegacyScript.ReplaceNewlinesNoNewline | java.js:95 | A text without newlines is left as it is. |
| LegacyScript.OrElse | java.js:24-25 | JavaScript's `\|\|`: an absent or empty value gives the fallback, and any other value is kept. |
| LegacyScript.Cleared | java.js:9-12 | Before the request the title reads `Vidéo: N/A`, and the output and the frame are emptied. The section keeps its display. |
| LegacyScript.ShowOrUndefined | java.js:45 | A missing `error` reads `undefined` in the alert. |
| LegacyScript.EmbedUrl | java.js:31-33 | The frame address is the embed prefix followed by the extracted id, or by `null` when there is none. |
| LegacyScript.RequestTranscription | java.js:1-47 | An empty URL is alerted, the page is untouched and no request is sent. Otherwise the page is cleared first. A rejected `fetch` or `json()` leaves the cleared page with no alert. An error reply is alerted with its message on the cleared page. A success shows the section, `Vidéo: ` with the title or `N/A`, the transcription or `No transcription available.` formatted with stamps, and the embed URL of the extracted id, and hands the transcription on. |
| LegacyScript.NoStaleResult | java.js:9-12 | Once a request is sent, the title, output and frame depend only on the URL and the reply, not on the previous page. |
| LegacyScript.ForwardedIff | java.js:22-43 | The transcription is handed on to article generation exactly when the URL is non-empty and the service answered with a 2xx status. |
| TranscribeApi.ExtractVideoId | app.py:10-13 | A result is exactly 11 `\w` or `-` characters. |
| TranscribeApi.AsciiUrlSameAsScript | app.py:11 | On an all-ASCII URL the service extracts what the page script extracts. |
| TranscribeApi.ServiceAcceptsWhatScriptAccepts | app.py:11 | Every URL the page script accepts, the service accepts too. |
| TranscribeApi.WithEAcuteIsWordClass | app.py:11 | A Unicode word class may count `é` as a letter. |
| TranscribeApi.EAcuteUrl | app.py:11 | The sample link is `v=` followed by eleven `é`. |
| TranscribeApi.ServiceAcceptsEAcuteId | app.py:11-13 | With such a class the service returns eleven `é` from `v=ééééééééééé`. |
| TranscribeApi.ScriptRejectsEAcuteId | java.js:50-52 | The page script finds no id in that link. |
| TranscribeApi.Transcribe | app.py:15-40 | A missing or empty `url` gives 400 "No URL provided" before any extraction. A failed extraction gives 400 "Invalid YouTube URL". An exception gives 500 with its message. Status 200 comes exactly on success, with only a transcription: the entries' texts joined by single spaces. |
| TranscribeApi.AsReply | java.js:20-25 | The service always answers. The page reads a 2xx status as success, never finds a title, and reads the error or the transcription from the body. |
| TranscribeApi.ScriptShowsNoTitle | java.js:10-36 | Against this service the page sends every non-empty URL and afterwards always shows `Vidéo: N/A`. |
| TranscribeApi.ScriptAlertsRejectedUrl | java.js:10-46 | A URL the service rejects is alerted as `Error: Invalid YouTube URL`, on the cleared page. |
| TranscribeApi.ScriptForwardsTranscript | java.js:28-43 | A non-empty joined transcript is shown with no alert and handed on unchanged. |
| Strings.Split | java.js:56 | `split('\n')` gives at least one part, and no part holds the separator. |
| Strings.JoinSplit | java.js:56 | Joining the parts of a split with the separator gives back the text. |
| Strings.Join | app.py:31 | `' '.join` puts the separator between consecutive parts only. |
| Strings.IsJsWhitespace | java.js:61 | The characters `trim()` removes: ECMAScript white space and line terminators. |
| Strings.IsBlank | java.js:61 | `line.trim()` is empty, so falsy, when every character is white space. |
| Strings.NatToDecimal | java.js:62 | `String(n)` is at least one decimal digit, with a leading `0` only for zero. |
| Strings.Includes | src/pages/Dashboard.tsx:135 | `includes` succeeds when the search finds an occurrence. |
| Strings.IncludesIff | src/pages/Dashboard.tsx:135 | `includes` holds exactly when the pattern occurs at some index. |
| Strings.ReplaceFirst | src/pages/Dashboard.tsx:137 | With no occurrence the text is unchanged. Otherwise exactly the first occurrence is replaced. |
| TranscribeApi.TranscriptionSplitsBack | app.py:31 | If no entry contains a space, the joined transcription splits back into the entries. |
| Supabase.FormatUrl | src/lib/supabase.ts:14-16 | A URL starting with `http` is kept. Any other URL is prefixed with `https://`. The result always starts with `http`. |
| Supabase.FormatUrlIdempotent | src/lib/supabase.ts:14-16 | Formatting twice is the same as formatting once. |
| Supabase.BareHttpHostExample | src/lib/supabase.ts:14 | Only the four letters are checked, so `httpfoo.example` passes unchanged. |
| Supabase.Configure | src/lib/supabase.ts:6-18 | A missing or empty URL or key throws the "Connect to Supabase" error before any client exists. Otherwise the client gets the formatted URL and the key. |
| Dashboard.StatusText | src/pages/Dashboard.tsx:78-85 | `generating` reads "Generating content". Every other status reads as its stored name. |
| Dashboard.StatusTextInjective | src/pages/Dashboard.tsx:78-85 | No two statuses share a label. |
| Dashboard.StatusColor | src/pages/Dashboard.tsx:65-76 | `published` is green, `processing` yellow, `generating` purple and `draft` blue. |
| Dashboard.StatusColorInjective | src/pages/Dashboard.tsx:65-76 | No two statuses share a colour. |
| Dashboard.ThumbnailFallback | src/pages/Dashboard.tsx:133-139 | A source containing `maxresdefault` has its first occurrence replaced by `hqdefault`. Any other source is untouched. |
| Dashboard.FallbackOfStoredThumbnail | src/pages/Dashboard.tsx:133-139 | For the URL stored at conversion, with an id of at most 11 characters as every extracted id is, the fallback is the `hqdefault.jpg` image of the same id. |
| Dashboard.FallbackSettles | src/pages/Dashboard.tsx:135 | A second error on the fallback image changes nothing, so the handler cannot loop. |
| Dashboard.WithoutId | src/pages/Dashboard.tsx:58 | Exactly the entries with another id are kept. |
| Dashboard.WithoutIdAppend | src/pages/Dashboard.tsx:58 | The filter distributes over concatenation, so the kept entries stay in their original order. |
| Dashboard.WithoutAbsentId | src/pages/Dashboard.tsx:58 | Filtering out an id that is not in the list keeps the list whole. |
| Dashboard.WithoutIdNewestFirst | src/pages/Dashboard.tsx:58 | Filtering keeps a newest-first list newest first, with no id twice. |
| Dashboard.DeleteKeepsListing | src/pages/Dashboard.tsx:50-58 | Deleting a record and filtering it out of the user's listing leaves a listing of the store as it now is. |
| Dashboard.IsListingFor | src/pages/Dashboard.tsx:30-34 | A listing for a user is exactly that user's records, each once, newest first. |
| Dashboard.ArticleList.constructor | src/pages/Dashboard.tsx:17-19 | The page starts with an empty list and the spinner showing. |
| Dashboard.ArticleList.LoadArticles | src/pages/Dashboard.tsx:28-44 | On success the list becomes the returned rows, or `[]` if there are none, and shows exactly the user's records newest first. On error the list is kept. `loading` ends false either way. |
| Dashboard.ArticleList.HandleDelete | src/pages/Dashboard.tsx:46-63 | A declined confirmation and a failed delete change nothing. A successful delete removes the record by id and filters it out of the list, and an exact listing stays exact. |
| EditArticle.HasTranscript | src/pages/EditArticle.tsx:329 | `article.transcript` is truthy: present and non-empty. |
| EditArticle.FieldsOffered | src/pages/EditArticle.tsx:298-358 | The title and content fields are rendered outside the `processing` and `generating` panels. |
| EditArticle.SaveDisabled | src/pages/EditArticle.tsx:242 | Save is disabled while saving or while the article is `generating`. |
| EditArticle.GenerateShown | src/pages/EditArticle.tsx:329-345 | The generate button sits in the fields panel and needs a transcript. |
| EditArticle.GenerateDisabled | src/pages/EditArticle.tsx:337 | The generate button is disabled while a generation runs. |
| EditArticle.GeneratingLocksPage | src/pages/EditArticle.tsx:242-357 | A `generating` article gets no save, no field and no generate button. |
| EditArticle.GenerateShownIff | src/pages/EditArticle.tsx:298-347 | The generate button appears if and only if the article is `draft` or `published` and has a non-empty transcript. |
| EditArticle.BadgeText | src/pages/EditArticle.tsx:289 | `generating` reads "Generating content...". Every other status reads as its stored name. |
| EditArticle.BadgeTextAgreesWithDashboard | src/pages/EditArticle.tsx:289 | The badge is the dashboard's label, with an ellipsis while generating. |
| EditArticle.BadgeColor | src/pages/EditArticle.tsx:283-288 | Every status gets a colour class. |
| EditArticle.BadgeColorAgreesWithDashboard | src/pages/EditArticle.tsx:283-288 | The editor's chain of tests colours every status as the dashboard's switch does. |
| EditArticle.ArticleEditor.constructor | src/pages/EditArticle.tsx:19-25 | The page starts with no article, loading, and neither saving nor generating. |
| EditArticle.ArticleEditor.LoadArticle | src/pages/EditArticle.tsx:33-57 | The article is set if and only if the request succeeds and the record with the route id belongs to the user. Otherwise the page goes to the dashboard with no article set. `loading` ends false on every path. |
| EditArticle.ArticleEditor.EditTitle | src/pages/EditArticle.tsx:324 | Only the local title changes. It is offered only outside `processing` and `generating`. |
| EditArticle.ArticleEditor.EditContent | src/pages/EditArticle.tsx:355 | Only the local content changes. It is offered only outside `processing` and `generating`. |
| EditArticle.ArticleEditor.HandleSave | src/pages/EditArticle.tsx:59-81 | Without an article nothing happens. Otherwise the local title and content are written with `draft` to the record with that id, whatever its status. The local copy is unchanged, and `saving` ends false on both outcomes. |
| EditArticle.ArticleEditor.HandleGenerateContent | src/pages/EditArticle.tsx:83-215 | A missing or empty transcript changes nothing. A failed status write leaves the article unchanged and resets `generating`. Otherwise the record becomes `generating`, then the local copy does, and the timer is queued. After that, save, the fields and generate are all locked. |
| EditArticle.ArticleEditor.CompleteGeneration | src/pages/EditArticle.tsx:184-208 | On success the fixed title and content and `draft` go to the record and the local copy, and `generating` clears. On failure the local copy stays `generating` and so does the flag. |
| Lifecycle.Conversion | src/pages/Convert.tsx:13-77 | A valid URL submitted by the owner, with the insert and the timer's update succeeding, leaves the owner a `draft` record carrying the URL and the mock transcript, after `processing`. |
| Lifecycle.ArticleLifecycle | src/pages/EditArticle.tsx:83-209 | With every request succeeding, an article converted from any URL with a video id goes through `processing`, `draft`, `generating`, `draft`. The record ends as the owner's draft of that URL with the mock transcript and the generated title and content, and the editor's copy equals it. |

## Left out

- The Supabase client, authentication (`src/hooks/useAuth.ts`), `fetch`
  to the local services, `YouTubeTranscriptApi`, the JSON file write in
  app.py and the DOM. They are external. Their outcomes are parameters:
  a boolean that says whether a request succeeded, the rows a query
  returns, or the entries or exception message of a fetch.
- Timing. The 2- and 3-second delays and any interleaving of timers with
  clicks are not modelled. All timers of a page have the same delay, so
  the pending ones fire in the order they were started.
- Intermediate flag values. `loading`, `saving` and `generating` are true
  while a request is awaited. Each handler runs as one step, so only the
  value before and after the handler is modelled.
- Toasts, navigation, `console.error` and CSS other than the status
  colours. They are reduced to outcome tags.
- The mock texts. The French transcript and the generated Markdown
  article are short stand-in constants that start the same way. The
  generated title is exact. The unused French prompt
  (src/pages/EditArticle.tsx:107-123) is left out.
- Dates. `created_at` is an integer supplied by the caller, and
  `toLocaleDateString` is not modelled.
- TranscribeApi.ExtractVideoId: the Unicode character database behind
  Python's `\w` is the parameter `isWord`. Only its agreement with ASCII
  below U+0080 is assumed.
- Dashboard.ArticleList.LoadArticles: the query's filter on the user and
  its order by `created_at` are taken as a precondition on the returned
  rows. Ties in `created_at` are left in whatever order the backend
  returns them.
- The `if (!data)` branch of `loadArticle` ("Article not found"). It
  cannot be taken, because `.single()` reports a missing row as an error.
- Settings.tsx, useAuth.ts, App.tsx, Navbar.tsx and the static pages
  (Home, About, Blog, Pricing). They are routing, markup, or forwarding
  of form fields. The `published` status is declared, but no flow moves
  an article into it.
- `sendToChatGPTAndGenerateDocx` in java.js. Its request to the article
  generator is external. Only its newline-to-`<br>` rewrite of the reply
  (`LegacyScript.ReplaceNewlines`) is modelled, and the call it makes at
  the end of `requestTranscription` is not.
- Lone surrogates. A Dafny `char` is a Unicode scalar value, so a
  JavaScript string holding an unpaired surrogate has no counterpart.
  Every other string is modelled, with its UTF-16 length computed from
  its characters.
- Request body parsing in app.py. `request.get_json()` on a body that is
  not JSON, and a non-string `url`, are not modelled.
