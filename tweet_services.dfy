/** `TweetService`: the caller's tweets, creating and deleting tweets, and likes. The caller is
    always looked up by api-key through `AuthorService.get_author`. */
module TweetServices {
  import opened Wrappers
  import opened Exceptions
  import opened Schemas
  import opened Lists
  import opened TweetModel
  import opened Store
  import opened UserServices
  import TweetDb
  import MediaServices

  /** `AuthorLikeSchema(user_id=..., name=...)` of the caller. */
  function LikeOf(p: Profile): LikeEntry
  {
    LikeEntry(p.id, p.name)
  }

  /** `get_list(api_key)`: every non-deleted tweet of the caller, each once. */
  function GetList(db: Database, apiKey: string): (r: Outcome<seq<Tweet>>)
    requires db.Valid()
    reads db
    ensures GetAuthorProfile(db, 0, apiKey, "").Raise? ==> r == Raise(GetAuthorProfile(db, 0, apiKey, "").exc)
    ensures GetAuthorProfile(db, 0, apiKey, "").Return? ==>
              var authorId := GetAuthorProfile(db, 0, apiKey, "").value.id;
              && r.Return?
              && (forall i :: 0 <= i < |r.value| ==>
                    r.value[i].id in db.tweets && db.tweets[r.value[i].id] == r.value[i] && TweetDb.Listed(r.value[i], authorId))
              && (forall id :: id in db.tweets && TweetDb.Listed(db.tweets[id], authorId) ==> db.tweets[id] in r.value)
              && |r.value| == |TweetDb.ListedIds(db.tweets, authorId)|
  {
    var author :- GetAuthorProfile(db, 0, apiKey, "");
    TweetDb.GetList(db, author.id)
  }

  /** `get_tweet(tweet_id)`: its own TWEET_NOT_EXIST branch is never reached, because the wrapped
      store call raises POSTGRES_QUERY_ERROR first. */
  function GetTweet(db: Database, tweetId: int): (r: Outcome<Tweet>)
    reads db
    ensures TweetDb.Visible(db, tweetId) && db.online <==> r.Return?
    ensures r.Return? ==> r.value == db.tweets[tweetId]
    ensures !db.online ==> r == Throw(InternalServerException, ConnectionRefused)
    ensures db.online && !TweetDb.Visible(db, tweetId) ==> r == Throw(BackendException, PostgresQueryError)
    ensures r != Throw(BackendException, TweetNotExists)
  {
    var tweet :- TweetDb.GetTweetById(db, tweetId);
    Return(tweet)
  }

  /** `check_belongs_tweet_to_author(tweet_id, author_id)`: true exactly when the readable tweet
      has that author. */
  function CheckBelongsTweetToAuthor(db: Database, tweetId: int, authorId: int): (r: Outcome<bool>)
    reads db
    ensures r.Return? <==> db.online && TweetDb.Visible(db, tweetId) && db.tweets[tweetId].authorId == authorId
    ensures r.Return? ==> r.value
    ensures db.online && TweetDb.Visible(db, tweetId) && db.tweets[tweetId].authorId != authorId ==>
              r == Throw(BackendException, NotSelfTweetRemove)
    ensures !(db.online && TweetDb.Visible(db, tweetId)) ==> r == TweetDb.GetTweetById(db, tweetId).PropagateFailure()
  {
    var tweet :- TweetDb.GetTweetById(db, tweetId);
    if tweet.authorId != authorId then Throw(BackendException, NotSelfTweetRemove) else Return(true)
  }

  /** `create_tweet(new_tweet, api_key)`: a tweet of the caller whose attachments are the links of
      the requested media. `tweet_media_ids` is optional in the request, and a missing list makes
      the media lookup fail. The result is the new tweet's id. */
  method CreateTweet(db: Database, apiKey: string, content: string, mediaIds: Option<seq<int>>) returns (r: Outcome<int>)
    requires db.Valid()
    modifies db
    ensures db.Valid()
    ensures db.authors == old(db.authors) && db.medias == old(db.medias)
    ensures old(GetAuthorProfile(db, 0, apiKey, "")).Raise? ==>
              r == Raise(old(GetAuthorProfile(db, 0, apiKey, "")).exc) && db.tweets == old(db.tweets)
    ensures old(GetAuthorProfile(db, 0, apiKey, "")).Return? && mediaIds.None? ==>
              r == Throw(BackendException, PostgresQueryError) && db.tweets == old(db.tweets)
    ensures old(GetAuthorProfile(db, 0, apiKey, "")).Return? && mediaIds.Some? ==>
              && r.Return? && r.value !in old(db.tweets)
              && db.tweets == old(db.tweets)[r.value :=
                   NewTweet(r.value, content, old(GetAuthorProfile(db, 0, apiKey, "")).value.id,
                            old(MediaServices.GetManyMedia(db, mediaIds)).value)]
  {
    var author :- GetAuthorProfile(db, 0, apiKey, "");
    var attachments :- MediaServices.GetManyMedia(db, mediaIds);
    // The caller was found, so the database is reachable (its state is fixed for the whole call)
    // and the caller's row exists: the insert cannot raise.
    var created := TweetDb.CreateTweet(db, content, author.id, attachments);
    assert created.value == NewTweet(created.value.id, content, author.id, attachments);
    return Return(created.value.id);
  }

  /** `delete_tweet(tweet_id, api_key)`: only the author of a readable tweet may delete it, and
      deleting only sets its deleted flag. */
  method DeleteTweet(db: Database, tweetId: int, apiKey: string) returns (r: Outcome<Success>)
    requires db.Valid()
    modifies db
    ensures db.Valid()
    ensures db.authors == old(db.authors) && db.medias == old(db.medias)
    ensures r.Raise? ==> db.tweets == old(db.tweets)
    ensures old(GetAuthorProfile(db, 0, apiKey, "")).Raise? ==> r == Raise(old(GetAuthorProfile(db, 0, apiKey, "")).exc)
    ensures old(GetAuthorProfile(db, 0, apiKey, "")).Return? ==>
              var authorId := old(GetAuthorProfile(db, 0, apiKey, "")).value.id;
              && (!old(TweetDb.Visible(db, tweetId)) ==> r == Throw(BackendException, PostgresQueryError))
              && (old(TweetDb.Visible(db, tweetId)) && old(db.tweets)[tweetId].authorId != authorId ==>
                    r == Throw(BackendException, NotSelfTweetRemove))
              && (old(TweetDb.Visible(db, tweetId)) && old(db.tweets)[tweetId].authorId == authorId ==>
                    && r == Return(Success)
                    && db.tweets == old(db.tweets)[tweetId := old(db.tweets)[tweetId].(softDelete := true)])
  {
    var author :- GetAuthorProfile(db, 0, apiKey, "");
    var tweet :- TweetDb.GetTweetById(db, tweetId);
    if tweet.authorId != author.id {
      return Throw(BackendException, NotSelfTweetRemove);
    }
    r := TweetDb.DeleteTweet(db, tweetId, author.id);
  }

  /** `add_like_to_tweet(tweet_id, api_key)`: appends the caller's like to a readable tweet; a
      second like by the same caller is DOUBLE_LIKE_ERROR. */
  method AddLikeToTweet(db: Database, tweetId: int, apiKey: string) returns (r: Outcome<Success>)
    requires db.Valid()
    modifies db
    ensures db.Valid()
    ensures db.authors == old(db.authors) && db.medias == old(db.medias)
    ensures r.Raise? ==> db.tweets == old(db.tweets)
    ensures old(GetAuthorProfile(db, 0, apiKey, "")).Raise? ==> r == Raise(old(GetAuthorProfile(db, 0, apiKey, "")).exc)
    ensures old(GetAuthorProfile(db, 0, apiKey, "")).Return? ==>
              var like := LikeOf(old(GetAuthorProfile(db, 0, apiKey, "")).value);
              && (!old(TweetDb.Visible(db, tweetId)) ==> r == Throw(BackendException, PostgresQueryError))
              && (old(TweetDb.Visible(db, tweetId)) && like in old(db.tweets)[tweetId].likes ==>
                    r == Throw(BackendException, DoubleLike))
              && (old(TweetDb.Visible(db, tweetId)) && like !in old(db.tweets)[tweetId].likes ==>
                    && r == Return(Success)
                    && db.tweets == TweetDb.LikesWritten(old(db.tweets), tweetId, old(db.tweets)[tweetId].likes + [like]))
  {
    var author :- GetAuthorProfile(db, 0, apiKey, "");
    var tweet :- TweetDb.GetTweetById(db, tweetId);
    var like := LikeOf(author);
    if like in tweet.likes {
      return Throw(BackendException, DoubleLike);
    }
    r := TweetDb.UpdateLikeInTweet(db, tweetId, tweet.likes + [like]);
  }

  /** `remove_like_from_tweet(tweet_id, api_key)`: removes the caller's like from a readable
      tweet; removing a like that is not there is REMOVE_NOT_EXITS_LIKE. */
  method RemoveLikeFromTweet(db: Database, tweetId: int, apiKey: string) returns (r: Outcome<Success>)
    requires db.Valid()
    modifies db
    ensures db.Valid()
    ensures db.authors == old(db.authors) && db.medias == old(db.medias)
    ensures r.Raise? ==> db.tweets == old(db.tweets)
    ensures old(GetAuthorProfile(db, 0, apiKey, "")).Raise? ==> r == Raise(old(GetAuthorProfile(db, 0, apiKey, "")).exc)
    ensures old(GetAuthorProfile(db, 0, apiKey, "")).Return? ==>
              var like := LikeOf(old(GetAuthorProfile(db, 0, apiKey, "")).value);
              && (!old(TweetDb.Visible(db, tweetId)) ==> r == Throw(BackendException, PostgresQueryError))
              && (old(TweetDb.Visible(db, tweetId)) && like !in old(db.tweets)[tweetId].likes ==>
                    r == Throw(BackendException, RemoveNotExistLike))
              && (old(TweetDb.Visible(db, tweetId)) && like in old(db.tweets)[tweetId].likes ==>
                    && r == Return(Success)
                    && db.tweets == TweetDb.LikesWritten(old(db.tweets), tweetId, RemoveFirst(old(db.tweets)[tweetId].likes, like)))
  {
    var author :- GetAuthorProfile(db, 0, apiKey, "");
    var tweet :- TweetDb.GetTweetById(db, tweetId);
    var like := LikeOf(author);
    if like !in tweet.likes {
      return Throw(BackendException, RemoveNotExistLike);
    }
    r := TweetDb.UpdateLikeInTweet(db, tweetId, RemoveFirst(tweet.likes, like));
  }

  /** A like list without duplicates keeps having none after a like is added or removed. */
  lemma LikesKeepNoDup(likes: seq<LikeEntry>, like: LikeEntry)
    requires NoDup(likes)
    ensures like !in likes ==> NoDup(likes + [like])
    ensures like in likes ==> NoDup(RemoveFirst(likes, like)) && like !in RemoveFirst(likes, like)
  {
    if like !in likes {
      assert AppendIfAbsent(likes, like) == likes + [like];
    }
  }

  /** Writing a tweet's likes and then writing them back restores the tweets table. */
  lemma LikesWrittenBack(m: map<int, Tweet>, tweetId: int, likes: seq<LikeEntry>)
    requires tweetId in m
    ensures TweetDb.LikesWritten(TweetDb.LikesWritten(m, tweetId, likes), tweetId, m[tweetId].likes) == m
  {
    var once := TweetDb.LikesWritten(m, tweetId, likes);
    var back := TweetDb.LikesWritten(once, tweetId, m[tweetId].likes);
    forall id | id in m ensures back[id] == m[id] {
      assert back[id].(likes := once[id].likes) == once[id];
      assert once[id].(likes := m[id].likes) == m[id];
    }
  }

  /** A like followed by an unlike by the same caller restores the tweets table exactly. */
  method LikeThenUnlike(db: Database, tweetId: int, apiKey: string) returns (liked: Outcome<Success>, unliked: Outcome<Success>)
    requires db.Valid()
    modifies db
    ensures liked.Return? ==> unliked == Return(Success) && db.tweets == old(db.tweets)
  {
    ghost var before := db.tweets;
    liked := AddLikeToTweet(db, tweetId, apiKey);
    if liked.Return? {
      var like := LikeOf(GetAuthorProfile(db, 0, apiKey, "").value);
      RemoveLastAppended(before[tweetId].likes, like);
      LikesWrittenBack(before, tweetId, before[tweetId].likes + [like]);
    }
    unliked := RemoveLikeFromTweet(db, tweetId, apiKey);
  }
}
