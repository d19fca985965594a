/** The article editor page: it loads one of the user's articles, lets the
    user edit its title and content, saves them as a draft, and generates
    a title and content from the transcript after a delay. */
module EditArticle {
  import opened Wrappers
  import opened Articles
  import Dashboard

  /** `article.transcript` is truthy: present and non-empty. */
  predicate HasTranscript(a: Article) {
    a.transcript.Some? && a.transcript.value != ""
  }

  /** The title input and content area are rendered only outside the
      `processing` and `generating` panels. */
  predicate FieldsOffered(a: Article) {
    a.status != Processing && a.status != Generating
  }

  /** The Save button's `disabled`. */
  predicate SaveDisabled(a: Article, saving: bool) {
    saving || a.status == Generating
  }

  /** The generate button is rendered inside the fields panel, and only
      with a transcript. */
  predicate GenerateShown(a: Article) {
    FieldsOffered(a) && HasTranscript(a)
  }

  /** The generate button's `disabled`. */
  predicate GenerateDisabled(generating: bool) {
    generating
  }

  /** While an article is being generated the page offers nothing that
      writes it: no save, no field, no generate button. */
  lemma GeneratingLocksPage(a: Article, saving: bool)
    requires a.status == Generating
    ensures SaveDisabled(a, saving) && !FieldsOffered(a) && !GenerateShown(a)
  {
  }

  /** The generate button is shown exactly for a non-empty transcript of an
      article that is neither processing nor generating. */
  lemma GenerateShownIff(a: Article)
    ensures GenerateShown(a) <==>
              a.status in {Draft, Published} && a.transcript.Some? && |a.transcript.value| > 0
  {
  }

  /** The status badge's text. */
  function BadgeText(s: Status): (r: string)
    ensures s == Generating ==> r == "Generating content..."
    ensures s != Generating ==> r == StatusName(s)
  {
    if s == Generating then "Generating content..." else StatusName(s)
  }

  /** The badge's text is the dashboard's with an ellipsis while
      generating. */
  lemma BadgeTextAgreesWithDashboard(s: Status)
    ensures BadgeText(s) == Dashboard.StatusText(s) + (if s == Generating then "..." else "")
  {
  }

  /** The status badge's classes, written as a chain of tests. */
  function BadgeColor(s: Status): (r: string)
    ensures |r| > 0
  {
    if s == Processing then "bg-yellow-500/20 text-yellow-300"
    else if s == Generating then "bg-purple-500/20 text-purple-300"
    else if s == Published then "bg-green-500/20 text-green-300"
    else "bg-blue-500/20 text-blue-300"
  }

  /** The editor colours a status as the dashboard does. */
  lemma BadgeColorAgreesWithDashboard(s: Status)
    ensures BadgeColor(s) == Dashboard.StatusColor(s)
  {
  }

  /** The generated title. */
  const MockTitle: string := "Comment Optimiser Votre Présence en Ligne: Stratégies Efficaces pour 2025"

  /** Stand-in for the generated Markdown article, which opens with the
      generated title as a level-one heading. */
  const MockContent: string := "# " + MockTitle + "\n\n## Les clés du succès digital expliquées simplement\n"

  datatype LoadOutcome = Loaded | LoadFailed
  datatype SaveOutcome = NothingToSave | Saved | SaveFailed
  datatype GenerateOutcome = NoTranscript | GenerationStarted | StartFailed

  class ArticleEditor {
    const db: ArticleStore
    /** The `:id` route parameter. */
    const id: Id
    const user: UserId
    var article: Option<Article>
    var loading: bool
    var saving: bool
    var generating: bool
    /** The generation timers started and not yet fired, in firing order;
        each holds the id it will write. */
    var scheduled: seq<Id>

    /** The local copy, once loaded, is the record of the page's id, and
        every pending timer writes that id. */
    ghost predicate Valid()
      reads this, db
    {
      && db.Valid()
      && (article.Some? ==> article.value.id == id)
      && (forall k :: 0 <= k < |scheduled| ==> scheduled[k] == id)
    }

    /** The page is mounted with a route id and a signed-in user. */
    constructor (db: ArticleStore, id: Id, user: UserId)
      requires db.Valid()
      ensures Valid()
      ensures this.db == db && this.id == id && this.user == user
      ensures article.None? && loading && !saving && !generating && scheduled == []
    {
      this.db := db;
      this.id := id;
      this.user := user;
      article := None;
      loading := true;
      saving := false;
      generating := false;
      scheduled := [];
    }

    /** `loadArticle`: the query on id and user id with `.single()`. `ok`
        says whether the request itself succeeded; a request that finds no
        row is an error of `.single()`, so it fails like one. */
    method LoadArticle(ok: bool) returns (outcome: LoadOutcome)
      requires Valid()
      modifies this`article, this`loading
      ensures Valid() && !loading
      ensures outcome == Loaded <==> ok && id in db.records && db.records[id].userId == Some(user)
      ensures outcome == Loaded ==> article == Some(db.records[id])
      ensures outcome == LoadFailed ==> article == old(article)
    {
      if ok && id in db.records && db.records[id].userId == Some(user) {
        article := Some(db.records[id]);
        outcome := Loaded;
      } else {
        outcome := LoadFailed;
      }
      loading := false;
    }

    /** The title input's `onChange`. */
    method EditTitle(title: string)
      requires Valid() && article.Some? && FieldsOffered(article.value)
      modifies this`article
      ensures Valid()
      ensures article == Some(old(article).value.(title := title))
    {
      article := Some(article.value.(title := title));
    }

    /** The content area's `onChange`. */
    method EditContent(content: string)
      requires Valid() && article.Some? && FieldsOffered(article.value)
      modifies this`article
      ensures Valid()
      ensures article == Some(old(article).value.(content := Some(content)))
    {
      article := Some(article.value.(content := Some(content)));
    }

    /** `handleSave`. `ok` says whether the update succeeded. The update is
        keyed by id alone and always writes `draft`; the local copy keeps
        its status. */
    method HandleSave(ok: bool) returns (outcome: SaveOutcome)
      requires Valid()
      modifies db, this`saving
      ensures Valid() && article == old(article) && db.nextId == old(db.nextId)
      ensures article.None? ==> outcome == NothingToSave && saving == old(saving) && db.records == old(db.records)
      ensures article.Some? ==> !saving && outcome == (if ok then Saved else SaveFailed)
      ensures article.Some? && ok ==>
                db.records == if id in old(db.records)
                              then old(db.records)[id := old(db.records)[id].(title := article.value.title,
                                                                             content := article.value.content,
                                                                             status := Draft)]
                              else old(db.records)
      ensures article.Some? && !ok ==> db.records == old(db.records)
    {
      if article.None? {
        return NothingToSave;
      }
      saving := true;
      if ok {
        db.SetTitleContentStatus(article.value.id, article.value.title, article.value.content, Draft);
        outcome := Saved;
      } else {
        outcome := SaveFailed;
      }
      saving := false;
    }

    /** `handleGenerateContent`. `statusOk` says whether the status update
        succeeded; on success a timer is started for the generation. */
    method HandleGenerateContent(statusOk: bool) returns (outcome: GenerateOutcome)
      requires Valid()
      modifies db, this`article, this`generating, this`scheduled
      ensures Valid() && db.nextId == old(db.nextId)
      ensures old(article).None? || !HasTranscript(old(article).value) ==>
                && outcome == NoTranscript
                && db.records == old(db.records) && article == old(article)
                && generating == old(generating) && scheduled == old(scheduled)
      ensures old(article).Some? && HasTranscript(old(article).value) && !statusOk ==>
                && outcome == StartFailed
                && db.records == old(db.records) && article == old(article)
                && !generating && scheduled == old(scheduled)
      ensures old(article).Some? && HasTranscript(old(article).value) && statusOk ==>
                && outcome == GenerationStarted
                && db.records == (if id in old(db.records)
                                  then old(db.records)[id := old(db.records)[id].(status := Generating)]
                                  else old(db.records))
                && article == Some(old(article).value.(status := Generating))
                && generating && scheduled == old(scheduled) + [id]
      ensures outcome == GenerationStarted ==>
                SaveDisabled(article.value, saving) && !FieldsOffered(article.value) && GenerateDisabled(generating)
    {
      if article.None? || !HasTranscript(article.value) {
        return NoTranscript;
      }
      generating := true;
      if !statusOk {
        generating := false;
        return StartFailed;
      }
      db.SetStatus(article.value.id, Generating);
      article := Some(article.value.(status := Generating));
      scheduled := scheduled + [article.value.id];
      outcome := GenerationStarted;
    }

    /** The oldest pending generation timer fires. `writeOk` says whether
        the update succeeded; on failure nothing else happens, so the local
        copy stays `generating` and so does the flag. */
    method CompleteGeneration(writeOk: bool)
      requires Valid() && |scheduled| > 0
      modifies db, this`article, this`generating, this`scheduled
      ensures Valid() && db.nextId == old(db.nextId)
      ensures scheduled == old(scheduled)[1..]
      ensures writeOk ==>
                && db.records == (if id in old(db.records)
                                  then old(db.records)[id := old(db.records)[id].(title := MockTitle,
                                                                                 content := Some(MockContent),
                                                                                 status := Draft)]
                                  else old(db.records))
                && article == (if old(article).Some?
                               then Some(old(article).value.(title := MockTitle, content := Some(MockContent), status := Draft))
                               else None)
                && !generating
      ensures !writeOk ==>
                db.records == old(db.records) && article == old(article) && generating == old(generating)
    {
      var target := scheduled[0];
      scheduled := scheduled[1..];
      if writeOk {
        db.SetTitleContentStatus(target, MockTitle, Some(MockContent), Draft);
        if article.Some? {
          article := Some(article.value.(title := MockTitle, content := Some(MockContent), status := Draft));
        }
        generating := false;
      }
    }
  }
}
