/** `MediaDbService`: reads and writes of the medias table. Only `get_many_media` is wrapped by
    `exc_handler`; on the other two the decorator is commented out. */
module MediaDb {
  import opened Wrappers
  import opened Exceptions
  import opened MediaModel
  import opened Tables
  import opened Store

  /** `settings.media_url`, the URL prefix of the stored files. */
  const MediaUrl: string := "/static/media"

  /** The link stored for an uploaded file. */
  function LinkFor(fileName: string): (link: string)
    ensures |link| == |MediaUrl| + 1 + |fileName|
    ensures link[..|MediaUrl|] == MediaUrl && link[|MediaUrl|] == '/' && link[|MediaUrl| + 1..] == fileName
  {
    MediaUrl + "/" + fileName
  }

  /** The filter `get_media` applies: on the hash if one is given, else on the id. */
  ghost predicate MediaMatches(m: Media, mediaId: int, hash: string)
  {
    if hash != "" then m.hash == hash else m.id == mediaId
  }

  /** `get_media(media_id, hash)`: no criterion raises INCORRECT_PARAMETERS; otherwise the row
      matching the hash (tried first) or the id, or None. Not wrapped. */
  function GetMedia(db: Database, mediaId: int, hash: string): (r: Outcome<Option<Media>>)
    requires db.MediasValid()
    reads db
    ensures hash == "" && mediaId == 0 ==> r == Throw(BackendException, IncorrectParameters)
    ensures (hash != "" || mediaId != 0) && !db.online ==> r == Raise(ConnectionRefusedError)
    ensures (hash != "" || mediaId != 0) && db.online ==>
              && r.Return?
              && (r.value.Some? <==> exists id :: id in db.medias && MediaMatches(db.medias[id], mediaId, hash))
              && (r.value.Some? ==> var m := r.value.value;
                    m.id in db.medias && db.medias[m.id] == m && MediaMatches(m, mediaId, hash))
  {
    MediaIndexExact(db, hash);
    if hash == "" && mediaId == 0 then Throw(BackendException, IncorrectParameters)
    else if !db.online then Raise(ConnectionRefusedError)
    else if hash != "" then Return(if hash in db.mediaIdByHash then Some(db.medias[db.mediaIdByHash[hash]]) else None)
    else Return(if mediaId in db.medias then Some(db.medias[mediaId]) else None)
  }

  /** `create_media(hash, file_name)`: inserts a row whose link is the file's URL. The driver's
      exceptions escape: the server refusing the connection, a link or hash too long for its
      column, a hash already stored. */
  method CreateMedia(db: Database, hash: string, fileName: string) returns (r: Outcome<Media>)
    requires db.Valid()
    modifies db
    ensures db.Valid()
    ensures db.authors == old(db.authors) && db.tweets == old(db.tweets)
    ensures !db.online ==> r == Raise(ConnectionRefusedError)
    ensures db.online && !MediaModel.FitsColumns(LinkFor(fileName), hash) ==> r == Raise(DataError)
    ensures (db.online && MediaModel.FitsColumns(LinkFor(fileName), hash) && HashTaken(old(db.medias), hash))
              ==> r == Raise(IntegrityError)
    ensures r.Return? <==> db.online && MediaModel.FitsColumns(LinkFor(fileName), hash) && !HashTaken(old(db.medias), hash)
    ensures r.Raise? ==> db.medias == old(db.medias)
    ensures r.Return? ==> r.value.id !in old(db.medias) && r.value.link == LinkFor(fileName) && r.value.hash == hash
                          && db.medias == old(db.medias)[r.value.id := r.value]
  {
    if !db.online {
      return Raise(ConnectionRefusedError);
    }
    var link := LinkFor(fileName);
    if !MediaModel.FitsColumns(link, hash) {
      return Raise(DataError);
    }
    MediaIndexExact(db, hash);
    if hash in db.mediaIdByHash {
      return Raise(IntegrityError);
    }
    var id := db.nextMediaId;
    var m := Media(id, link, hash);
    MediaInserted(db.medias, id, db.mediaIdByHash, m);
    db.medias, db.mediaIdByHash, db.nextMediaId := db.medias[id := m], db.mediaIdByHash[hash := id], id + 1;
    return Return(m);
  }

  /** The links of a sequence of rows. */
  function Links(s: seq<Media>): (r: seq<string>)
    ensures |r| == |s|
    ensures forall i :: 0 <= i < |s| ==> r[i] == s[i].link
  {
    if s == [] then [] else [s[0].link] + Links(s[1..])
  }

  /** The ids of the requested rows that exist. */
  ghost function RequestedIds(db: Database, ids: seq<int>): set<int>
    reads db
  {
    set id | id in db.medias && id in ids
  }

  /** The rows whose id is among `ids`, each once. */
  function RequestedRows(db: Database, ids: seq<int>): (rows: seq<Media>)
    requires db.MediasValid()
    reads db
    ensures |rows| == |RequestedIds(db, ids)|
    ensures forall i :: 0 <= i < |rows| ==> rows[i].id in RequestedIds(db, ids) && db.medias[rows[i].id] == rows[i]
    ensures forall id :: id in RequestedIds(db, ids) ==> db.medias[id] in rows
  {
    var p := (m: Media) => m.id in ids;
    var s := Scan(db.medias, 1, db.nextMediaId);
    FilterScanSize(db.medias, 1, db.nextMediaId, p);
    assert KeysWhere(db.medias, 1, db.nextMediaId, p) == RequestedIds(db, ids);
    var rows := Filter(s, p);
    assert forall i :: 0 <= i < |rows| ==> rows[i] in s;
    rows
  }

  /** The links of the requested rows that exist. */
  ghost function RequestedLinks(db: Database, ids: seq<int>): set<string>
    requires db.MediasValid()
    reads db
  {
    set id | id in RequestedIds(db, ids) :: db.medias[id].link
  }

  /** The links of the requested rows are exactly the requested links, one per row. */
  lemma RequestedRowLinks(db: Database, ids: seq<int>)
    requires db.MediasValid()
    ensures var links := Links(RequestedRows(db, ids));
            && |links| == |RequestedIds(db, ids)|
            && (forall i :: 0 <= i < |links| ==> links[i] in RequestedLinks(db, ids))
            && (forall id :: id in RequestedIds(db, ids) ==> db.medias[id].link in links)
  {
    var rows := RequestedRows(db, ids);
    var links := Links(rows);
    forall i | 0 <= i < |links| ensures links[i] in RequestedLinks(db, ids) {
      assert links[i] == db.medias[rows[i].id].link;
    }
    forall id | id in RequestedIds(db, ids) ensures db.medias[id].link in links {
      var j :| 0 <= j < |rows| && rows[j] == db.medias[id];
      assert links[j] == db.medias[id].link;
    }
  }

  /** The body of `get_many_media`, before the wrapper: building `Media.id.in_(ids)` fails for a
      missing list before any session opens; otherwise the links of the rows whose id is among
      `ids`, or None when there is none. */
  function GetManyMediaQuery(db: Database, ids: Option<seq<int>>): (r: Outcome<Option<seq<string>>>)
    requires db.MediasValid()
    reads db
    ensures ids.None? ==> r == Raise(ArgumentError)
    ensures ids.Some? && !db.online ==> r == Raise(ConnectionRefusedError)
    ensures ids.Some? && db.online ==> r.Return? && (r.value.None? <==> RequestedIds(db, ids.value) == {})
    ensures ids.Some? && db.online && r.value.Some? ==>
              && |r.value.value| == |RequestedIds(db, ids.value)|
              && (forall i :: 0 <= i < |r.value.value| ==> r.value.value[i] in RequestedLinks(db, ids.value))
              && (forall id :: id in RequestedIds(db, ids.value) ==> db.medias[id].link in r.value.value)
  {
    if ids.None? then Raise(ArgumentError)
    else if !db.online then Raise(ConnectionRefusedError)
    else
      var links := Links(RequestedRows(db, ids.value));
      RequestedRowLinks(db, ids.value);
      Return(if links == [] then None else Some(links))
  }

  /** `get_many_media(ids)`, wrapped: a missing list is POSTGRES_QUERY_ERROR, a refused connection
      CON_REFUSED. */
  function GetManyMedia(db: Database, ids: Option<seq<int>>): (r: Outcome<Option<seq<string>>>)
    requires db.MediasValid()
    reads db
    ensures ids.None? ==> r == Throw(BackendException, PostgresQueryError)
    ensures ids.Some? && !db.online ==> r == Throw(InternalServerException, ConnectionRefused)
    ensures ids.Some? && db.online ==> r == GetManyMediaQuery(db, ids)
  {
    ExcHandler(GetManyMediaQuery(db, ids))
  }
}
