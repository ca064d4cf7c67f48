/** `AuthorDbService`: reads and writes of the authors table. */
module AuthorDb {
  import opened Wrappers
  import opened Exceptions
  import opened Schemas
  import opened AuthorModel
  import opened Store

  /** The filter `get_author` applies: on the first of author_id, api_key, name that is given. */
  ghost predicate Matches(a: Author, authorId: int, apiKey: string, name: string)
  {
    if authorId != 0 then a.id == authorId
    else if apiKey != "" then a.apiKey == apiKey
    else a.name == name
  }

  /** `get_author(author_id, api_key, name)`: no criterion given raises INCORRECT_PARAMETERS before
      any session is opened; any failure inside the session becomes POSTGRES_QUERY_ERROR; otherwise
      the row matching the first given criterion, or None. */
  function GetAuthor(db: Database, authorId: int, apiKey: string, name: string): (r: Outcome<Option<Author>>)
    requires db.AuthorsValid()
    reads db
    ensures authorId == 0 && apiKey == "" && name == "" ==> r == Throw(BackendException, IncorrectParameters)
    ensures (authorId != 0 || apiKey != "" || name != "") && !db.online ==> r == Throw(BackendException, PostgresQueryError)
    ensures (authorId != 0 || apiKey != "" || name != "") && db.online ==>
              && r.Return?
              && (r.value.Some? <==> exists id :: id in db.authors && Matches(db.authors[id], authorId, apiKey, name))
              && (r.value.Some? ==> var a := r.value.value;
                    a.id in db.authors && db.authors[a.id] == a && Matches(a, authorId, apiKey, name))
  {
    AuthorIndexesExact(db, name, apiKey);
    if authorId == 0 && apiKey == "" && name == "" then
      Throw(BackendException, IncorrectParameters)
    else if !db.online then
      Throw(BackendException, PostgresQueryError)
    else if authorId != 0 then
      Return(if authorId in db.authors then Some(db.authors[authorId]) else None)
    else if apiKey != "" then
      Return(if apiKey in db.authorIdByApiKey then Some(db.authors[db.authorIdByApiKey[apiKey]]) else None)
    else
      Return(if name in db.authorIdByName then Some(db.authors[db.authorIdByName[name]]) else None)
  }

  /** On a reachable database, each of the three criteria finds a stored row again on its own: the
      id is the primary key and the api_key and name columns are unique, so the row matching a
      criterion is the one the criterion was taken from (the index maps of `AuthorTable`). */
  lemma GetAuthorFindsEveryRow(db: Database, authorId: int)
    requires db.AuthorsValid() && db.online && authorId in db.authors
    ensures var a := db.authors[authorId];
            && GetAuthor(db, a.id, "", "") == Return(Some(a))
            && (a.apiKey != "" ==> GetAuthor(db, 0, a.apiKey, "") == Return(Some(a)))
            && (a.name != "" ==> GetAuthor(db, 0, "", a.name) == Return(Some(a)))
  {
  }

  /** `create_author(name, api_key, password)`: inserts a row with the column defaults and returns
      it. It is not wrapped, so the driver's exceptions escape: the server refusing the connection,
      a value too long for its column, a name or api_key already taken. */
  method CreateAuthor(db: Database, name: string, apiKey: string, password: string) returns (r: Outcome<Author>)
    requires db.Valid()
    modifies db
    ensures db.Valid()
    ensures db.tweets == old(db.tweets) && db.medias == old(db.medias)
    ensures !db.online ==> r == Raise(ConnectionRefusedError)
    ensures db.online && !AuthorModel.FitsColumns(name, password, apiKey) ==> r == Raise(DataError)
    ensures (db.online && AuthorModel.FitsColumns(name, password, apiKey)
             && (NameTaken(old(db.authors), name) || ApiKeyTaken(old(db.authors), apiKey))) ==> r == Raise(IntegrityError)
    ensures r.Return? <==> db.online && AuthorModel.FitsColumns(name, password, apiKey)
                            && !NameTaken(old(db.authors), name) && !ApiKeyTaken(old(db.authors), apiKey)
    ensures r.Raise? ==> db.authors == old(db.authors)
    ensures r.Return? ==>
              var a := r.value;
              && a.id !in old(db.authors) && db.authors == old(db.authors)[a.id := a]
              && a.name == name && a.apiKey == apiKey && a.password == password
              && a.followerCount == 0 && a.followers == [] && a.following == [] && !a.softDelete
    ensures NoSelfEntry(old(db.authors)) ==> NoSelfEntry(db.authors)
  {
    if !db.online {
      return Raise(ConnectionRefusedError);
    }
    if !AuthorModel.FitsColumns(name, password, apiKey) {
      return Raise(DataError);
    }
    AuthorIndexesExact(db, name, apiKey);
    if name in db.authorIdByName || apiKey in db.authorIdByApiKey {
      return Raise(IntegrityError);
    }
    var id := db.nextAuthorId;
    var a := NewAuthor(id, name, apiKey, password);
    if NoSelfEntry(db.authors) {
      NewAuthorKeepsNoSelfEntry(db.authors, id, name, apiKey, password);
    }
    AuthorInserted(db.authors, id, db.authorIdByName, db.authorIdByApiKey, a);
    TweetAuthorsGrow(db.tweets, db.nextTweetId, db.authors, db.authors[id := a]);
    db.authors, db.authorIdByName, db.authorIdByApiKey, db.nextAuthorId :=
      db.authors[id := a], db.authorIdByName[name := id], db.authorIdByApiKey[apiKey := id], id + 1;
    return Return(a);
  }

  /** The authors table after `update_follow`: the reader's followers and the writer's following
      are replaced, and nothing else changes. */
  function FollowWritten(m: map<int, Author>, readerId: int, writerId: int,
                         followers: seq<FollowEntry>, following: seq<FollowEntry>): (r: map<int, Author>)
    ensures r.Keys == m.Keys
    ensures forall id :: id in m ==> r[id].followers == (if id == readerId then followers else m[id].followers)
    ensures forall id :: id in m ==> r[id].following == (if id == writerId then following else m[id].following)
    ensures forall id :: id in m ==> r[id].(followers := m[id].followers, following := m[id].following) == m[id]
  {
    var afterReader := if readerId in m then m[readerId := m[readerId].(followers := followers)] else m;
    if writerId in afterReader then afterReader[writerId := afterReader[writerId].(following := following)]
    else afterReader
  }

  /** `update_follow(reader, writer, followers, following)`: both updates run in one transaction. */
  method UpdateFollow(db: Database, readerId: int, writerId: int,
                      followers: seq<FollowEntry>, following: seq<FollowEntry>) returns (r: Outcome<Success>)
    requires db.Valid()
    modifies db
    ensures db.Valid()
    ensures db.tweets == old(db.tweets) && db.medias == old(db.medias)
    ensures !db.online ==> r == Raise(ConnectionRefusedError) && db.authors == old(db.authors)
    ensures db.online ==> r == Return(Success)
                           && db.authors == FollowWritten(old(db.authors), readerId, writerId, followers, following)
  {
    if !db.online {
      return Raise(ConnectionRefusedError);
    }
    var after := FollowWritten(db.authors, readerId, writerId, followers, following);
    assert forall id :: id in db.authors ==> after[id].(followers := db.authors[id].followers,
                                                        following := db.authors[id].following) == db.authors[id];
    AuthorsRewritten(db.authors, after, db.nextAuthorId, db.authorIdByName, db.authorIdByApiKey);
    TweetAuthorsGrow(db.tweets, db.nextTweetId, db.authors, after);
    db.authors := after;
    return Return(Success);
  }

  /** `verify_api_key_exist(api_key)`: it selects the api_key column and tests the value found for
      truthiness, so an empty key never counts as existing. Not wrapped. */
  function VerifyApiKeyExist(db: Database, apiKey: string): (r: Outcome<bool>)
    requires db.AuthorsValid()
    reads db
    ensures !db.online ==> r == Raise(ConnectionRefusedError)
    ensures db.online ==> r.Return? && (r.value <==> apiKey != "" && ApiKeyTaken(db.authors, apiKey))
  {
    if !db.online then Raise(ConnectionRefusedError)
    else
      AuthorIndexesExact(db, "", apiKey);
      Return(apiKey in db.authorIdByApiKey && apiKey != "")
  }
}
