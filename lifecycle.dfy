/** One article's whole life across the three pages: conversion creates it
    as `processing`, the transcript makes it a `draft`, the editor moves it
    to `generating` and the generated content makes it a `draft` again. */
module Lifecycle {
  import opened Wrappers
  import opened Articles
  import Convert
  import EditArticle

  const Owner: UserId := "user-a"

  /** The conversion page, every request succeeding: the record is created
      as `processing` and its transcript makes it a `draft`. */
  method Conversion(url: string) returns (db: ArticleStore, id: Id, statuses: seq<Status>)
    requires Convert.ExtractVideoId(url).Some?
    ensures fresh(db) && db.Valid() && id in db.records
    ensures db.records[id].userId == Some(Owner) && db.records[id].youtubeUrl == url
    ensures db.records[id].transcript == Some(Convert.MockTranscript)
    ensures db.records[id].status == Draft
    ensures statuses == [Processing, Draft]
  {
    db := new ArticleStore();
    var form := new Convert.ConvertForm(db, Some(Owner));
    form.SetYoutubeUrl(url);
    var submitted := form.HandleSubmit(true, 0);
    id := submitted.articleId;
    statuses := [db.records[id].status];
    form.CompleteTranscript(true);
    statuses := statuses + [db.records[id].status];
  }

  /** The statuses the record of any URL with a video id passes through
      when every request succeeds, with the owner's editor page between
      the two drafts. The stored record ends as the generated draft of
      that URL, and the editor's copy equals it. */
  method ArticleLifecycle(url: string) returns (statuses: seq<Status>, record: Article, copy: Article)
    requires Convert.ExtractVideoId(url).Some?
    ensures statuses == [Processing, Draft, Generating, Draft]
    ensures record == copy
    ensures record.userId == Some(Owner) && record.youtubeUrl == url
    ensures record.title == EditArticle.MockTitle && record.content == Some(EditArticle.MockContent)
    ensures record.transcript == Some(Convert.MockTranscript) && record.status == Draft
  {
    var db, id, converted := Conversion(url);
    statuses := converted;

    var editor := new EditArticle.ArticleEditor(db, id, Owner);
    var loaded := editor.LoadArticle(true);
    assert EditArticle.GenerateShown(editor.article.value);
    var started := editor.HandleGenerateContent(true);
    statuses := statuses + [db.records[id].status];

    editor.CompleteGeneration(true);
    statuses := statuses + [db.records[id].status];
    record := db.records[id];
    copy := editor.article.value;
  }
}
