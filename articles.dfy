/** The `articles` table of the backend and the entity it holds.

    The store stands in for the Supabase table: a map from id to record.
    Ids are assigned by the store from a counter, which is enough to make
    every inserted id fresh. Each write is keyed by id alone, as every
    `.eq('id', …)` update and delete of the pages is; a write to an id that
    has no record changes nothing, as an update matching no row does. */
module Articles {
  import opened Wrappers

  type Id = nat
  type UserId = string

  /** `'processing' | 'generating' | 'draft' | 'published'`. No flow of the
      application ever writes `Published`. */
  datatype Status = Processing | Generating | Draft | Published

  /** The status as it is stored and displayed by default. */
  function StatusName(s: Status): (r: string)
    ensures |r| > 0
  {
    match s
    case Processing => "processing"
    case Generating => "generating"
    case Draft => "draft"
    case Published => "published"
  }

  lemma StatusNameInjective(s: Status, t: Status)
    ensures StatusName(s) == StatusName(t) <==> s == t
  {
  }

  /** One row of `articles`; optional columns are `None` when null. */
  datatype Article = Article(
    id: Id,
    userId: Option<UserId>,
    title: string,
    content: Option<string>,
    status: Status,
    youtubeUrl: string,
    thumbnailUrl: Option<string>,
    transcript: Option<string>,
    videoId: Option<string>,
    createdAt: int)

  class ArticleStore {
    var records: map<Id, Article>
    var nextId: Id

    /** Every record is filed under its own id, and the counter is past
        every id in use. */
    ghost predicate Valid()
      reads this
    {
      forall id :: id in records ==> id < nextId && records[id].id == id
    }

    constructor ()
      ensures Valid() && records == map[]
    {
      records := map[];
      nextId := 0;
    }

    /** `insert([...]).select().single()`: a new row under a fresh id. */
    method Insert(userId: Option<UserId>, title: string, status: Status, youtubeUrl: string,
                  thumbnailUrl: string, videoId: string, createdAt: int)
      returns (row: Article)
      requires Valid()
      modifies this
      ensures Valid()
      ensures row.id !in old(records)
      ensures row == Article(row.id, userId, title, None, status, youtubeUrl,
                             Some(thumbnailUrl), None, Some(videoId), createdAt)
      ensures records == old(records)[row.id := row]
    {
      row := Article(nextId, userId, title, None, status, youtubeUrl,
                     Some(thumbnailUrl), None, Some(videoId), createdAt);
      records := records[nextId := row];
      nextId := nextId + 1;
    }

    /** `update({ transcript, status }).eq('id', id)`. */
    method SetTranscriptAndStatus(id: Id, transcript: string, status: Status)
      requires Valid()
      modifies this
      ensures Valid() && nextId == old(nextId)
      ensures records == if id in old(records)
                         then old(records)[id := old(records)[id].(transcript := Some(transcript), status := status)]
                         else old(records)
    {
      if id in records {
        records := records[id := records[id].(transcript := Some(transcript), status := status)];
      }
    }

    /** `update({ status }).eq('id', id)`. */
    method SetStatus(id: Id, status: Status)
      requires Valid()
      modifies this
      ensures Valid() && nextId == old(nextId)
      ensures records == if id in old(records)
                         then old(records)[id := old(records)[id].(status := status)]
                         else old(records)
    {
      if id in records {
        records := records[id := records[id].(status := status)];
      }
    }

    /** `update({ title, content, status }).eq('id', id)`. */
    method SetTitleContentStatus(id: Id, title: string, content: Option<string>, status: Status)
      requires Valid()
      modifies this
      ensures Valid() && nextId == old(nextId)
      ensures records == if id in old(records)
                         then old(records)[id := old(records)[id].(title := title, content := content, status := status)]
                         else old(records)
    {
      if id in records {
        records := records[id := records[id].(title := title, content := content, status := status)];
      }
    }

    /** `delete().eq('id', id)`: removes the record whoever owns it. */
    method Delete(id: Id)
      requires Valid()
      modifies this
      ensures Valid() && nextId == old(nextId)
      ensures records == old(records) - {id}
    {
      records := records - {id};
    }
  }
}
