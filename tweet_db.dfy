/** `TweetDbService`: reads and writes of the tweets table. Three of its methods are wrapped by
    `exc_handler`; `get_list` and `create_tweet` are not. */
module TweetDb {
  import opened Exceptions
  import opened Schemas
  import opened TweetModel
  import opened Tables
  import opened Store

  /** The filter of `get_list`: the author's tweets that are not soft-deleted. */
  predicate Listed(t: Tweet, authorId: int)
  {
    t.authorId == authorId && !t.softDelete
  }

  /** The filter of `get_tweet_by_id`: the tweet with this id, unless soft-deleted. */
  ghost predicate Visible(db: Database, tweetId: int)
    reads db
  {
    tweetId in db.tweets && !db.tweets[tweetId].softDelete
  }

  /** The ids of the author's tweets that are not soft-deleted. */
  ghost function ListedIds(tweets: map<int, Tweet>, authorId: int): set<int>
  {
    set id | id in tweets && Listed(tweets[id], authorId)
  }

  /** The rows `get_list` selects, in ascending id order. */
  function ListedRows(tweets: map<int, Tweet>, next: int, authorId: int): seq<Tweet>
  {
    Filter(Scan(tweets, 1, next), (t: Tweet) => Listed(t, authorId))
  }

  /** On a consistent tweets table the selected rows are exactly the listed tweets, each once. */
  lemma ListedRowsExact(tweets: map<int, Tweet>, next: int, authors: map<int, AuthorModel.Author>, authorId: int)
    requires TweetTable(tweets, next, authors)
    ensures var rows := ListedRows(tweets, next, authorId);
            && (forall i :: 0 <= i < |rows| ==>
                  rows[i].id in tweets && tweets[rows[i].id] == rows[i] && Listed(rows[i], authorId))
            && (forall id :: id in tweets && Listed(tweets[id], authorId) ==> tweets[id] in rows)
            && |rows| == |ListedIds(tweets, authorId)|
  {
    var p := (t: Tweet) => Listed(t, authorId);
    var s := Scan(tweets, 1, next);
    var rows := Filter(s, p);
    FilterScanSize(tweets, 1, next, p);
    assert KeysWhere(tweets, 1, next, p) == ListedIds(tweets, authorId);
    forall i | 0 <= i < |rows| ensures rows[i].id in tweets && tweets[rows[i].id] == rows[i] {
      assert rows[i] in s;
    }
  }

  /** `get_list(author_id)`: every non-deleted tweet of the author, each once. */
  function GetList(db: Database, authorId: int): (r: Outcome<seq<Tweet>>)
    requires db.TweetsValid()
    reads db
    ensures !db.online ==> r == Raise(ConnectionRefusedError)
    ensures db.online ==> r.Return?
    ensures db.online ==> forall i :: 0 <= i < |r.value| ==>
              r.value[i].id in db.tweets && db.tweets[r.value[i].id] == r.value[i] && Listed(r.value[i], authorId)
    ensures db.online ==> forall id :: id in db.tweets && Listed(db.tweets[id], authorId) ==> db.tweets[id] in r.value
    ensures db.online ==> |r.value| == |ListedIds(db.tweets, authorId)|
  {
    if !db.online then Raise(ConnectionRefusedError)
    else
      ListedRowsExact(db.tweets, db.nextTweetId, db.authors, authorId);
      Return(ListedRows(db.tweets, db.nextTweetId, authorId))
  }

  /** `create_tweet(new_tweet, author_id, attachments)`: inserts a tweet without likes. It is not
      wrapped, so the driver's exceptions escape: the server refusing the connection, or the
      foreign key rejecting an unknown author. */
  method CreateTweet(db: Database, content: string, authorId: int, attachments: seq<string>) returns (r: Outcome<Tweet>)
    requires db.Valid()
    modifies db
    ensures db.Valid()
    ensures db.authors == old(db.authors) && db.medias == old(db.medias)
    ensures !db.online ==> r == Raise(ConnectionRefusedError)
    ensures db.online && authorId !in db.authors ==> r == Raise(IntegrityError)
    ensures r.Return? <==> db.online && authorId in db.authors
    ensures r.Raise? ==> db.tweets == old(db.tweets)
    ensures r.Return? ==>
              var t := r.value;
              && t.id !in old(db.tweets) && db.tweets == old(db.tweets)[t.id := t]
              && t.content == content && t.authorId == authorId && t.attachments == attachments
              && t.likes == [] && !t.softDelete
  {
    if !db.online {
      return Raise(ConnectionRefusedError);
    }
    if authorId !in db.authors {
      return Raise(IntegrityError);
    }
    var id := db.nextTweetId;
    var t := NewTweet(id, content, authorId, attachments);
    TweetInserted(db.tweets, id, db.authors, t);
    db.tweets := db.tweets[id := t];
    db.nextTweetId := id + 1;
    return Return(t);
  }

  /** The body of `get_tweet_by_id`, before the wrapper. */
  function GetTweetByIdQuery(db: Database, tweetId: int): (r: Outcome<Tweet>)
    reads db
    ensures !db.online ==> r == Raise(ConnectionRefusedError)
    ensures db.online && Visible(db, tweetId) ==> r == Return(db.tweets[tweetId])
    ensures db.online && !Visible(db, tweetId) ==> r == Throw(BackendException, TweetNotExists)
  {
    if !db.online then Raise(ConnectionRefusedError)
    else if tweetId in db.tweets && !db.tweets[tweetId].softDelete then Return(db.tweets[tweetId])
    else Throw(BackendException, TweetNotExists)
  }

  /** `get_tweet_by_id(tweet_id)`: the wrapper turns TWEET_NOT_EXIST into POSTGRES_QUERY_ERROR. */
  function GetTweetById(db: Database, tweetId: int): (r: Outcome<Tweet>)
    reads db
    ensures !db.online ==> r == Throw(InternalServerException, ConnectionRefused)
    ensures db.online && Visible(db, tweetId) ==> r == Return(db.tweets[tweetId])
    ensures db.online && !Visible(db, tweetId) ==> r == Throw(BackendException, PostgresQueryError)
  {
    ExcHandler(GetTweetByIdQuery(db, tweetId))
  }

  /** The tweets table after `delete_tweet`: the rows with this id and this author are flagged
      deleted; every other row and every other column is unchanged. */
  function SoftDeleted(m: map<int, Tweet>, tweetId: int, authorId: int): (r: map<int, Tweet>)
    ensures r.Keys == m.Keys
    ensures forall id :: id in m ==> r[id].softDelete == (m[id].softDelete || (id == tweetId && m[id].authorId == authorId))
    ensures forall id :: id in m ==> r[id].(softDelete := m[id].softDelete) == m[id]
  {
    if tweetId in m && m[tweetId].authorId == authorId then m[tweetId := m[tweetId].(softDelete := true)] else m
  }

  /** `delete_tweet(tweet_id, author_id)`: a soft delete that succeeds whether or not a row
      matched. */
  method DeleteTweet(db: Database, tweetId: int, authorId: int) returns (r: Outcome<Success>)
    requires db.Valid()
    modifies db
    ensures db.Valid()
    ensures db.authors == old(db.authors) && db.medias == old(db.medias)
    ensures !db.online ==> r == Throw(InternalServerException, ConnectionRefused) && db.tweets == old(db.tweets)
    ensures db.online ==> r == Return(Success) && db.tweets == SoftDeleted(old(db.tweets), tweetId, authorId)
  {
    if !db.online {
      return ExcHandler(Raise(ConnectionRefusedError));
    }
    var after := SoftDeleted(db.tweets, tweetId, authorId);
    assert forall id :: id in db.tweets ==> after[id].(softDelete := db.tweets[id].softDelete) == db.tweets[id];
    TweetsRewritten(db.tweets, after, db.nextTweetId, db.authors);
    db.tweets := after;
    return ExcHandler(Return(Success));
  }

  /** The tweets table after `update_like_in_tweet`: the likes of the row with this id are
      replaced; every other row and every other column is unchanged. */
  function LikesWritten(m: map<int, Tweet>, tweetId: int, likes: seq<LikeEntry>): (r: map<int, Tweet>)
    ensures r.Keys == m.Keys
    ensures forall id :: id in m ==> r[id].likes == (if id == tweetId then likes else m[id].likes)
    ensures forall id :: id in m ==> r[id].(likes := m[id].likes) == m[id]
  {
    if tweetId in m then m[tweetId := m[tweetId].(likes := likes)] else m
  }

  /** `update_like_in_tweet(tweet_id, likes)`: the update filters on the id only, so it also
      rewrites the likes of a soft-deleted tweet. */
  method UpdateLikeInTweet(db: Database, tweetId: int, likes: seq<LikeEntry>) returns (r: Outcome<Success>)
    requires db.Valid()
    modifies db
    ensures db.Valid()
    ensures db.authors == old(db.authors) && db.medias == old(db.medias)
    ensures !db.online ==> r == Throw(InternalServerException, ConnectionRefused) && db.tweets == old(db.tweets)
    ensures db.online ==> r == Return(Success) && db.tweets == LikesWritten(old(db.tweets), tweetId, likes)
  {
    if !db.online {
      return ExcHandler(Raise(ConnectionRefusedError));
    }
    var after := LikesWritten(db.tweets, tweetId, likes);
    assert forall id :: id in db.tweets ==> after[id].(likes := db.tweets[id].likes) == db.tweets[id];
    TweetsRewritten(db.tweets, after, db.nextTweetId, db.authors);
    db.tweets := after;
    return ExcHandler(Return(Success));
  }

  /** Once deleted, a tweet can no longer be read by id and is no longer listed. */
  lemma DeletedTweetHidden(m: map<int, Tweet>, tweetId: int, authorId: int)
    requires tweetId in m && m[tweetId].authorId == authorId
    ensures SoftDeleted(m, tweetId, authorId)[tweetId].softDelete
    ensures !Listed(SoftDeleted(m, tweetId, authorId)[tweetId], authorId)
  {
  }

  /** Deleting twice is the same as deleting once. */
  lemma SoftDeleteIdempotent(m: map<int, Tweet>, tweetId: int, authorId: int)
    ensures SoftDeleted(SoftDeleted(m, tweetId, authorId), tweetId, authorId) == SoftDeleted(m, tweetId, authorId)
  {
  }

  /** Writing likes back does not touch the deleted flag, so it neither revives nor hides a tweet. */
  lemma LikesWrittenKeepsVisibility(m: map<int, Tweet>, tweetId: int, likes: seq<LikeEntry>, id: int)
    requires id in m
    ensures LikesWritten(m, tweetId, likes)[id].softDelete == m[id].softDelete
    ensures LikesWritten(m, tweetId, likes)[id].authorId == m[id].authorId
  {
  }
}
