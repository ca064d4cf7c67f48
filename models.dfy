/** A row of the `authors` table. */
module AuthorModel {

  /** An `{id, name}` entry of the `followers` and `following` JSON lists: a snapshot of another
      author, not a foreign key. */
  datatype FollowEntry = FollowEntry(id: int, name: string)

  datatype Author = Author(
    id: int,
    name: string,
    password: string,  // the password hash
    apiKey: string,
    followerCount: int,
    followers: seq<FollowEntry>,
    following: seq<FollowEntry>,
    softDelete: bool)

  /** Widths of the VARCHAR columns name, password and api_key. */
  const NameWidth: nat := 100
  const PasswordWidth: nat := 100
  const ApiKeyWidth: nat := 100

  predicate FitsColumns(name: string, password: string, apiKey: string)
  {
    |name| <= NameWidth && |password| <= PasswordWidth && |apiKey| <= ApiKeyWidth
  }

  /** The row that inserting `Author(name=..., api_key=..., password=...)` produces; the column
      defaults fill in the rest. */
  function NewAuthor(id: int, name: string, apiKey: string, password: string): Author
  {
    Author(id, name, password, apiKey, 0, [], [], false)
  }

  /** The `{id, name}` entry that stands for `a` in another author's list. */
  function EntryOf(a: Author): FollowEntry
  {
    FollowEntry(a.id, a.name)
  }

  /** No author appears in its own followers or following: `add_follow` refuses a reader who is
      also the writer, so neither list stored under an id holds an entry with that id. */
  ghost predicate NoSelfEntry(m: map<int, Author>)
  {
    && (forall id, e :: id in m && e in m[id].followers ==> e.id != id)
    && (forall id, e :: id in m && e in m[id].following ==> e.id != id)
  }

  /** A newly registered author starts with empty lists, so adding the row keeps `NoSelfEntry`. */
  lemma NewAuthorKeepsNoSelfEntry(m: map<int, Author>, id: int, name: string, apiKey: string, password: string)
    requires NoSelfEntry(m)
    ensures NoSelfEntry(m[id := NewAuthor(id, name, apiKey, password)])
  {
  }
}

/** A row of the `tweets` table. */
module TweetModel {

  /** A `{user_id, name}` entry of the `likes` JSON list. */
  datatype LikeEntry = LikeEntry(userId: int, name: string)

  datatype Tweet = Tweet(
    id: int,
    content: string,
    authorId: int,
    likes: seq<LikeEntry>,
    attachments: seq<string>,
    softDelete: bool)

  /** The row that inserting a tweet with the given content, author and attachments produces. */
  function NewTweet(id: int, content: string, authorId: int, attachments: seq<string>): Tweet
  {
    Tweet(id, content, authorId, [], attachments, false)
  }
}

/** A row of the `medias` table. */
module MediaModel {

  datatype Media = Media(id: int, link: string, hash: string)

  /** Widths of the VARCHAR columns link and hash. */
  const LinkWidth: nat := 100
  const HashWidth: nat := 64

  predicate FitsColumns(link: string, hash: string)
  {
    |link| <= LinkWidth && |hash| <= HashWidth
  }
}
