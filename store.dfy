/** The PostgreSQL database behind the three store services: the authors, tweets and medias tables,
    their serial id counters and their unique indexes. */
module Store {
  import opened AuthorModel
  import opened TweetModel
  import opened MediaModel

  /** The authors table: every row sits under its own serial id below `next` and fits its columns,
      and the two unique indexes are exactly the inverse of the name and api_key columns. */
  ghost predicate AuthorTable(authors: map<int, Author>, next: int, byName: map<string, int>, byApiKey: map<string, int>)
  {
    && 0 < next
    && (forall id :: id in authors ==>
          0 < id < next && authors[id].id == id
          && AuthorModel.FitsColumns(authors[id].name, authors[id].password, authors[id].apiKey))
    && (forall n :: n in byName ==> byName[n] in authors && authors[byName[n]].name == n)
    && (forall id :: id in authors ==> authors[id].name in byName && byName[authors[id].name] == id)
    && (forall k :: k in byApiKey ==> byApiKey[k] in authors && authors[byApiKey[k]].apiKey == k)
    && (forall id :: id in authors ==> authors[id].apiKey in byApiKey && byApiKey[authors[id].apiKey] == id)
  }

  /** The tweets table: every row sits under its own serial id below `next`, and its author_id
      refers to an author row (the foreign key). */
  ghost predicate TweetTable(tweets: map<int, Tweet>, next: int, authors: map<int, Author>)
  {
    && 0 < next
    && forall id :: id in tweets ==> 0 < id < next && tweets[id].id == id && tweets[id].authorId in authors
  }

  /** The medias table: every row sits under its own serial id below `next` and fits its columns,
      and the hash index is exactly the inverse of the hash column. */
  ghost predicate MediaTable(medias: map<int, Media>, next: int, byHash: map<string, int>)
  {
    && 0 < next
    && (forall id :: id in medias ==>
          0 < id < next && medias[id].id == id && MediaModel.FitsColumns(medias[id].link, medias[id].hash))
    && (forall h :: h in byHash ==> byHash[h] in medias && medias[byHash[h]].hash == h)
    && (forall id :: id in medias ==> medias[id].hash in byHash && byHash[medias[id].hash] == id)
  }

  class Database {
    /** Whether the database server accepts connections; when it does not, every session raises
        `ConnectionRefusedError`. */
    const online: bool

    var authors: map<int, Author>
    var nextAuthorId: int
    var authorIdByName: map<string, int>    // unique index on authors.name
    var authorIdByApiKey: map<string, int>  // unique index on authors.api_key

    var tweets: map<int, Tweet>
    var nextTweetId: int

    var medias: map<int, Media>
    var nextMediaId: int
    var mediaIdByHash: map<string, int>     // unique index on medias.hash

    ghost predicate AuthorsValid()
      reads this
    {
      AuthorTable(authors, nextAuthorId, authorIdByName, authorIdByApiKey)
    }

    ghost predicate TweetsValid()
      reads this
    {
      TweetTable(tweets, nextTweetId, authors)
    }

    ghost predicate MediasValid()
      reads this
    {
      MediaTable(medias, nextMediaId, mediaIdByHash)
    }

    ghost predicate Valid()
      reads this
    {
      AuthorsValid() && TweetsValid() && MediasValid()
    }

    /** A freshly created schema: all three tables empty. */
    constructor (online: bool)
      ensures Valid()
      ensures this.online == online
      ensures authors == map[] && tweets == map[] && medias == map[]
    {
      this.online := online;
      authors, nextAuthorId, authorIdByName, authorIdByApiKey := map[], 1, map[], map[];
      tweets, nextTweetId := map[], 1;
      medias, nextMediaId, mediaIdByHash := map[], 1, map[];
    }
  }

  /** Inserting a row under the next serial id, with a free name and a free api_key, keeps the
      authors table consistent. */
  lemma AuthorInserted(authors: map<int, Author>, next: int, byName: map<string, int>, byApiKey: map<string, int>, a: Author)
    requires AuthorTable(authors, next, byName, byApiKey)
    requires a.id == next && a.name !in byName && a.apiKey !in byApiKey
    requires AuthorModel.FitsColumns(a.name, a.password, a.apiKey)
    ensures AuthorTable(authors[next := a], next + 1, byName[a.name := next], byApiKey[a.apiKey := next])
  {
  }

  /** Rewriting rows without touching their id, name, password or api_key keeps the authors table
      consistent. */
  lemma AuthorsRewritten(authors: map<int, Author>, authors': map<int, Author>, next: int,
                         byName: map<string, int>, byApiKey: map<string, int>)
    requires AuthorTable(authors, next, byName, byApiKey)
    requires authors'.Keys == authors.Keys
    requires forall id :: id in authors ==>
               && authors'[id].id == authors[id].id && authors'[id].name == authors[id].name
               && authors'[id].password == authors[id].password && authors'[id].apiKey == authors[id].apiKey
    ensures AuthorTable(authors', next, byName, byApiKey)
  {
  }

  /** Every tweet keeps a valid author when authors are only added. */
  lemma TweetAuthorsGrow(tweets: map<int, Tweet>, next: int, authors: map<int, Author>, authors': map<int, Author>)
    requires TweetTable(tweets, next, authors) && authors.Keys <= authors'.Keys
    ensures TweetTable(tweets, next, authors')
  {
  }

  /** Inserting a row of a known author under the next serial id keeps the tweets table consistent. */
  lemma TweetInserted(tweets: map<int, Tweet>, next: int, authors: map<int, Author>, t: Tweet)
    requires TweetTable(tweets, next, authors) && t.id == next && t.authorId in authors
    ensures TweetTable(tweets[next := t], next + 1, authors)
  {
  }

  /** Rewriting rows without touching their id or author keeps the tweets table consistent. */
  lemma TweetsRewritten(tweets: map<int, Tweet>, tweets': map<int, Tweet>, next: int, authors: map<int, Author>)
    requires TweetTable(tweets, next, authors) && tweets'.Keys == tweets.Keys
    requires forall id :: id in tweets ==> tweets'[id].id == tweets[id].id && tweets'[id].authorId == tweets[id].authorId
    ensures TweetTable(tweets', next, authors)
  {
  }

  /** Inserting a row with a free hash under the next serial id keeps the medias table consistent. */
  lemma MediaInserted(medias: map<int, Media>, next: int, byHash: map<string, int>, m: Media)
    requires MediaTable(medias, next, byHash)
    requires m.id == next && m.hash !in byHash && MediaModel.FitsColumns(m.link, m.hash)
    ensures MediaTable(medias[next := m], next + 1, byHash[m.hash := next])
  {
  }

  /** Some author row holds this name. */
  ghost predicate NameTaken(authors: map<int, Author>, name: string)
  {
    exists id :: id in authors && authors[id].name == name
  }

  /** Some author row holds this api_key. */
  ghost predicate ApiKeyTaken(authors: map<int, Author>, apiKey: string)
  {
    exists id :: id in authors && authors[id].apiKey == apiKey
  }

  /** Some media row holds this hash. */
  ghost predicate HashTaken(medias: map<int, Media>, hash: string)
  {
    exists id :: id in medias && medias[id].hash == hash
  }

  /** The unique indexes hold exactly the names and api_keys that the rows hold. */
  lemma AuthorIndexesExact(db: Database, name: string, apiKey: string)
    requires db.AuthorsValid()
    ensures name in db.authorIdByName <==> NameTaken(db.authors, name)
    ensures apiKey in db.authorIdByApiKey <==> ApiKeyTaken(db.authors, apiKey)
  {
    if name in db.authorIdByName {
      var id := db.authorIdByName[name];
      assert id in db.authors && db.authors[id].name == name;
    }
    if apiKey in db.authorIdByApiKey {
      var id := db.authorIdByApiKey[apiKey];
      assert id in db.authors && db.authors[id].apiKey == apiKey;
    }
  }

  /** The hash index holds exactly the hashes that the rows hold. */
  lemma MediaIndexExact(db: Database, hash: string)
    requires db.MediasValid()
    ensures hash in db.mediaIdByHash <==> HashTaken(db.medias, hash)
  {
    if hash in db.mediaIdByHash {
      var id := db.mediaIdByHash[hash];
      assert id in db.medias && db.medias[id].hash == hash;
    }
  }

  /** The unique indexes make name and api_key identify an author row. */
  lemma {:induction false} AuthorKeysUnique(db: Database)
    requires db.AuthorsValid()
    ensures forall i, j :: i in db.authors && j in db.authors && db.authors[i].name == db.authors[j].name ==> i == j
    ensures forall i, j :: i in db.authors && j in db.authors && db.authors[i].apiKey == db.authors[j].apiKey ==> i == j
  {
    forall i, j | i in db.authors && j in db.authors && db.authors[i].name == db.authors[j].name
      ensures i == j
    {
      assert db.authorIdByName[db.authors[i].name] == i && db.authorIdByName[db.authors[j].name] == j;
    }
    forall i, j | i in db.authors && j in db.authors && db.authors[i].apiKey == db.authors[j].apiKey
      ensures i == j
    {
      assert db.authorIdByApiKey[db.authors[i].apiKey] == i && db.authorIdByApiKey[db.authors[j].apiKey] == j;
    }
  }

  /** The unique index makes the hash identify a media row. */
  lemma {:induction false} MediaHashUnique(db: Database)
    requires db.MediasValid()
    ensures forall i, j :: i in db.medias && j in db.medias && db.medias[i].hash == db.medias[j].hash ==> i == j
  {
    forall i, j | i in db.medias && j in db.medias && db.medias[i].hash == db.medias[j].hash
      ensures i == j
    {
      assert db.mediaIdByHash[db.medias[i].hash] == i && db.mediaIdByHash[db.medias[j].hash] == j;
    }
  }
}
