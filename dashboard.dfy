/** The dashboard page: the signed-in user's articles, newest first, with
    a status badge, a thumbnail whose failed `maxresdefault` image falls
    back to `hqdefault`, and a delete button. */
module Dashboard {
  import opened Wrappers
  import opened Strings
  import opened Articles
  import Convert

  /** `getStatusText`: the stored name, except for `generating`. */
  function StatusText(s: Status): (r: string)
    ensures s == Generating ==> r == "Generating content"
    ensures s != Generating ==> r == StatusName(s)
  {
    match s
    case Generating => "Generating content"
    case _ => StatusName(s)
  }

  /** Every status gets its own label. */
  lemma StatusTextInjective(s: Status, t: Status)
    ensures StatusText(s) == StatusText(t) <==> s == t
  {
    StatusNameInjective(s, t);
  }

  /** `getStatusColor`: green, yellow and purple for the three named
      statuses, blue for the rest (only `draft`). */
  function StatusColor(s: Status): (r: string)
    ensures s == Published ==> r == "bg-green-500/20 text-green-300"
    ensures s == Processing ==> r == "bg-yellow-500/20 text-yellow-300"
    ensures s == Generating ==> r == "bg-purple-500/20 text-purple-300"
    ensures s == Draft ==> r == "bg-blue-500/20 text-blue-300"
  {
    match s
    case Published => "bg-green-500/20 text-green-300"
    case Processing => "bg-yellow-500/20 text-yellow-300"
    case Generating => "bg-purple-500/20 text-purple-300"
    case _ => "bg-blue-500/20 text-blue-300"
  }

  /** No two statuses share a colour. */
  lemma StatusColorInjective(s: Status, t: Status)
    ensures StatusColor(s) == StatusColor(t) <==> s == t
  {
    if s != t {
      ColorInitial(s);
      ColorInitial(t);
    }
  }

  /** The fourth character of each colour class names its colour. */
  lemma ColorInitial(s: Status)
    ensures StatusColor(s)[3] == match s
                                 case Published => 'g'
                                 case Processing => 'y'
                                 case Generating => 'p'
                                 case Draft => 'b'
  {
  }

  const MaxRes: string := "maxresdefault"
  const HqRes: string := "hqdefault"

  /** The image's `onError` handler: the first `maxresdefault` becomes
      `hqdefault`; any other source is left alone. */
  function ThumbnailFallback(src: string): (r: string)
    ensures !Includes(src, MaxRes) ==> r == src
    ensures Includes(src, MaxRes) ==>
              var i := FindFrom(src, MaxRes, 0).value;
              && (forall j: nat :: j < i ==> !OccursAt(src, MaxRes, j))
              && r == src[..i] + HqRes + src[i + |MaxRes|..]
  {
    if Includes(src, MaxRes) then ReplaceFirst(src, MaxRes, HqRes) else src
  }

  /** No `maxresdefault` starts before the `/` at index `m` of a URL that
      begins with the thumbnail host, whatever the at most twelve
      characters between the host and that `/`. */
  lemma NoMaxResBeforeSlash(u: string, m: nat)
    requires 27 <= m <= 39 && m < |u| && u[..27] == Convert.ThumbnailHost && u[m] == '/'
    ensures forall j: nat :: j < m ==> !OccursAt(u, MaxRes, j)
  {
    forall j: nat | j < m
      ensures !OccursAt(u, MaxRes, j)
    {
      if j + 13 <= |u| {
        // `k` is a position in the window where `u` and `maxresdefault`
        // differ: one of the `/` of the host or the `/` at `m`, which
        // `maxresdefault` does not contain, or a letter of `img`.
        var k: nat;
        if j <= 6 { k := 6; }                      // the first `/` of `https://`
        else if j == 7 { k := 7; }                 // the second `/` of `https://`
        else if j <= 10 { k := if j == 9 then 10 else j; }  // `i` or `g` where `m` or `a` is needed
        else if j <= 23 { k := 23; }               // the `/` after `img.youtube.com`
        else if j <= 26 { k := 26; }               // the `/` that ends the host
        else { k := m; }                           // the `/` after the id
        assert u[k] == (u[..27] + u[27..])[k];
        assert u[j..j + 13][k - j] == u[k];
        assert u[k] != MaxRes[k - j];
      }
    }
  }

  /** The first occurrence is the one with none before it. */
  lemma FirstOccurrence(s: string, pat: string, i: nat)
    requires OccursAt(s, pat, i)
    requires forall j: nat :: j < i ==> !OccursAt(s, pat, j)
    ensures FindFrom(s, pat, 0) == Some(i)
  {
  }

  /** The fallback turns the thumbnail stored at conversion into the
      `hqdefault` image of the same video. Every id the conversion page
      extracts has at most 11 characters. */
  lemma FallbackOfStoredThumbnail(videoId: string)
    requires |videoId| <= 11
    ensures ThumbnailFallback(Convert.ThumbnailUrl(videoId)) == Convert.ThumbnailHost + videoId + "/hqdefault.jpg"
  {
    var u := Convert.ThumbnailUrl(videoId);
    var m := 27 + |videoId|;
    assert u[..27] == Convert.ThumbnailHost;
    MaxResAfterSlash(u, m);
    NoMaxResBeforeSlash(u, m);
    FirstOccurrence(u, MaxRes, m + 1);
    assert ThumbnailFallback(u) == u[..m + 1] + HqRes + u[m + 14..];
    assert u[..m + 1] == Convert.ThumbnailHost + videoId + "/" by {
      assert u[..27] + u[27..m] + [u[m]] == u[..m + 1];
    }
  }

  /** A URL ending in `/maxresdefault.jpg` from index `m` has
      `maxresdefault` right after that `/` and `.jpg` after it. */
  lemma MaxResAfterSlash(u: string, m: nat)
    requires |u| == m + 18 && u[m..] == "/maxresdefault.jpg"
    ensures u[m] == '/' && OccursAt(u, MaxRes, m + 1) && u[m + 14..] == ".jpg"
  {
    var tail := u[m..];
    assert u[m] == tail[0];
    assert u[m + 1..m + 14] == tail[1..14] == MaxRes;
    assert u[m + 14..] == tail[14..];
  }

  /** A second failing load of the fallback image changes nothing, so the
      handler does not loop. */
  lemma FallbackSettles(videoId: string)
    requires |videoId| <= 11
    ensures var hq := ThumbnailFallback(Convert.ThumbnailUrl(videoId));
            ThumbnailFallback(hq) == hq
  {
    FallbackOfStoredThumbnail(videoId);
    var hq := Convert.ThumbnailHost + videoId + "/hqdefault.jpg";
    var m := 27 + |videoId|;
    assert hq[..27] == Convert.ThumbnailHost;
    assert hq[m..] == "/hqdefault.jpg";
    NoMaxResBeforeSlash(hq, m);
    NoMaxResFromSlash(hq, m);
    assert FindFrom(hq, MaxRes, 0).None?;
  }

  /** No `maxresdefault` begins in the last 14 characters of a URL that
      ends in `/hqdefault.jpg`. */
  lemma NoMaxResFromSlash(hq: string, m: nat)
    requires |hq| == m + 14 && hq[m..] == "/hqdefault.jpg"
    ensures forall j: nat :: m <= j ==> !OccursAt(hq, MaxRes, j)
  {
    assert hq[m] == '/' && hq[m + 1] == 'h';
    forall j: nat | m <= j
      ensures !OccursAt(hq, MaxRes, j)
    {
      if j + 13 <= |hq| {
        assert hq[j..j + 13][0] == hq[j];
      }
    }
  }

  /** `articles.filter(article => article.id !== articleId)`. */
  function WithoutId(s: seq<Article>, id: Id): (r: seq<Article>)
    ensures |r| <= |s|
    ensures forall a :: a in r <==> a in s && a.id != id
  {
    if |s| == 0 then []
    else if s[0].id == id then WithoutId(s[1..], id)
    else [s[0]] + WithoutId(s[1..], id)
  }

  /** Filtering distributes over concatenation: the kept entries stay in
      their original order. */
  lemma {:induction false} WithoutIdAppend(s: seq<Article>, t: seq<Article>, id: Id)
    ensures WithoutId(s + t, id) == WithoutId(s, id) + WithoutId(t, id)
  {
    if |s| > 0 {
      assert (s + t)[1..] == s[1..] + t;
      WithoutIdAppend(s[1..], t, id);
    } else {
      assert s + t == t;
    }
  }

  /** A list without the id is kept whole. */
  lemma {:induction false} WithoutAbsentId(s: seq<Article>, id: Id)
    requires forall k :: 0 <= k < |s| ==> s[k].id != id
    ensures WithoutId(s, id) == s
  {
    if |s| > 0 {
      WithoutAbsentId(s[1..], id);
    }
  }

  /** Newest first, no id twice. */
  ghost predicate NewestFirst(rows: seq<Article>) {
    forall j, k :: 0 <= j < k < |rows| ==> rows[j].createdAt >= rows[k].createdAt && rows[j].id != rows[k].id
  }

  /** What the query `.eq('user_id', user).order('created_at', desc)`
      returns: every row of the user, only those, as stored, newest first. */
  ghost predicate IsListingFor(records: map<Id, Article>, user: UserId, rows: seq<Article>) {
    && (forall k :: 0 <= k < |rows| ==>
          rows[k].id in records && records[rows[k].id] == rows[k] && rows[k].userId == Some(user))
    && (forall id :: id in records && records[id].userId == Some(user) ==>
          exists k :: 0 <= k < |rows| && rows[k].id == id)
    && NewestFirst(rows)
  }

  lemma NewestFirstTail(s: seq<Article>)
    requires |s| > 0 && NewestFirst(s)
    ensures NewestFirst(s[1..])
  {
    forall j, k | 0 <= j < k < |s[1..]|
      ensures s[1..][j].createdAt >= s[1..][k].createdAt && s[1..][j].id != s[1..][k].id
    {
      assert s[1..][j] == s[j + 1] && s[1..][k] == s[k + 1];
    }
  }

  lemma NewestFirstCons(x: Article, rest: seq<Article>)
    requires NewestFirst(rest)
    requires forall k :: 0 <= k < |rest| ==> x.createdAt >= rest[k].createdAt && x.id != rest[k].id
    ensures NewestFirst([x] + rest)
  {
    var r := [x] + rest;
    forall j, k | 0 <= j < k < |r|
      ensures r[j].createdAt >= r[k].createdAt && r[j].id != r[k].id
    {
      assert r[k] == rest[k - 1];
      if j > 0 {
        assert r[j] == rest[j - 1];
      }
    }
  }

  lemma {:induction false} WithoutIdNewestFirst(s: seq<Article>, id: Id)
    requires NewestFirst(s)
    ensures NewestFirst(WithoutId(s, id))
  {
    if |s| > 0 {
      NewestFirstTail(s);
      WithoutIdNewestFirst(s[1..], id);
      if s[0].id != id {
        var rest := WithoutId(s[1..], id);
        forall k | 0 <= k < |rest|
          ensures s[0].createdAt >= rest[k].createdAt && s[0].id != rest[k].id
        {
          assert rest[k] in s[1..];
          var m :| 0 <= m < |s[1..]| && s[1..][m] == rest[k];
          assert s[m + 1] == rest[k];
        }
        NewestFirstCons(s[0], rest);
      }
    }
  }

  /** Deleting a record and filtering it out of a listing leaves a listing
      of the store as it now is. */
  lemma DeleteKeepsListing(records: map<Id, Article>, user: UserId, rows: seq<Article>, id: Id)
    requires IsListingFor(records, user, rows)
    ensures IsListingFor(records - {id}, user, WithoutId(rows, id))
  {
    var r := WithoutId(rows, id);
    forall k | 0 <= k < |r|
      ensures r[k].id in records - {id} && (records - {id})[r[k].id] == r[k] && r[k].userId == Some(user)
    {
      assert r[k] in rows;
      var m :| 0 <= m < |rows| && rows[m] == r[k];
    }
    forall i | i in records - {id} && (records - {id})[i].userId == Some(user)
      ensures exists k :: 0 <= k < |r| && r[k].id == i
    {
      var m :| 0 <= m < |rows| && rows[m].id == i;
      assert rows[m] in r;
      var k :| 0 <= k < |r| && r[k] == rows[m];
    }
    WithoutIdNewestFirst(rows, id);
  }

  datatype DeleteOutcome = Declined | Deleted | DeleteFailed

  class ArticleList {
    const db: ArticleStore
    const user: UserId
    var articles: seq<Article>
    var loading: bool

    /** The page is mounted with a signed-in user, an empty list and the
        spinner showing. */
    constructor (db: ArticleStore, user: UserId)
      ensures this.db == db && this.user == user
      ensures articles == [] && loading
    {
      this.db := db;
      this.user := user;
      articles := [];
      loading := true;
    }

    /** The list on screen is exactly the user's records in the store. */
    ghost predicate Shows()
      reads this, db
    {
      IsListingFor(db.records, user, articles)
    }

    /** `loadArticles`. `ok` says whether the query succeeded and `data` is
        the rows it returned; the backend's query guarantees the rows form
        a listing. */
    method LoadArticles(ok: bool, data: Option<seq<Article>>)
      requires ok && data.Some? ==> IsListingFor(db.records, user, data.value)
      modifies this`articles, this`loading
      ensures !loading
      ensures ok ==> articles == data.GetOr([])
      ensures !ok ==> articles == old(articles)
      ensures ok && data.Some? ==> Shows()
    {
      if ok {
        articles := data.GetOr([]);
      }
      loading := false;
    }

    /** `handleDelete`. `confirmed` is the answer to the confirmation
        dialog and `ok` whether the delete request succeeded. */
    method HandleDelete(articleId: Id, confirmed: bool, ok: bool) returns (outcome: DeleteOutcome)
      requires db.Valid()
      modifies db, this`articles
      ensures db.Valid()
      ensures !confirmed ==> outcome == Declined
      ensures confirmed && ok ==> outcome == Deleted
      ensures confirmed && !ok ==> outcome == DeleteFailed
      ensures outcome == Deleted ==>
                db.records == old(db.records) - {articleId} && articles == WithoutId(old(articles), articleId)
      ensures outcome != Deleted ==> db.records == old(db.records) && articles == old(articles)
      ensures db.nextId == old(db.nextId)
      ensures old(Shows()) ==> Shows()
    {
      if !confirmed {
        return Declined;
      }
      if !ok {
        return DeleteFailed;
      }
      ghost var before := articles;
      db.Delete(articleId);
      articles := WithoutId(articles, articleId);
      if old(Shows()) {
        DeleteKeepsListing(old(db.records), user, before, articleId);
      }
      outcome := Deleted;
    }
  }
}
