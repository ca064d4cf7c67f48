/** `PermissionService` and `AuthorService`: the api-key of a request, registration and login,
    profiles, and the follow graph. */
module UserServices {
  import opened Wrappers
  import opened Exceptions
  import opened Schemas
  import opened Lists
  import opened AuthorModel
  import opened Store
  import AuthorDb

  // ---------------------------------------------------------------- the api-key of a request

  /** A `PermissionService` after its constructor: `apiKey` is None when the constructor never
      assigned the attribute, which it does only for a non-empty `api-key` header. */
  datatype Permission = Permission(apiKey: Option<string>)

  /** `PermissionService(request, response)`, given the request's `api-key` header. */
  function NewPermission(header: Option<string>): (p: Permission)
    ensures p.apiKey.Some? <==> header.Some? && header.value != ""
    ensures p.apiKey.Some? ==> p.apiKey == header
  {
    if header.Some? && header.value != "" then Permission(header) else Permission(None)
  }

  /** `get_api_key()` as written: the truthiness test reads the attribute, which raises
      AttributeError when the constructor did not assign it. */
  function GetApiKey(p: Permission): (r: Outcome<string>)
    ensures p.apiKey.None? ==> r == Raise(AttributeError)
    ensures p.apiKey.Some? && p.apiKey.value != "" ==> r == Return(p.apiKey.value)
    ensures p.apiKey.Some? && p.apiKey.value == "" ==> r == Throw(AuthException, NotAuthorized)
  {
    match p.apiKey
    case None => Raise(AttributeError)
    case Some(k) => if k != "" then Return(k) else Throw(AuthException, NotAuthorized)
  }

  /** A request without the header, or with an empty one, makes `get_api_key` raise
      AttributeError instead of the AuthException it was written to raise. */
  lemma GetApiKeyWithoutHeader(header: Option<string>)
    requires header.None? || header.value == ""
    ensures GetApiKey(NewPermission(header)) == Raise(AttributeError)
    ensures GetApiKey(NewPermission(header)) != Throw(AuthException, NotAuthorized)
  {
  }

  /** `get_api_key()` as intended: an absent attribute counts as no key. */
  function GetApiKeyIntended(p: Permission): (r: Outcome<string>)
    ensures r.Return? <==> p.apiKey.Some? && p.apiKey.value != ""
    ensures r.Return? ==> r.value == p.apiKey.value
    ensures r.Raise? ==> r == Throw(AuthException, NotAuthorized)
  {
    if p.apiKey.Some? && p.apiKey.value != "" then Return(p.apiKey.value) else Throw(AuthException, NotAuthorized)
  }

  /** With the correction, the key is returned exactly when the request carried a non-empty one,
      and every other request is refused as unauthorized; where the request did carry a key the
      two versions agree. */
  lemma GetApiKeyIntendedBehaviour(header: Option<string>)
    ensures GetApiKeyIntended(NewPermission(header)).Return? <==> header.Some? && header.value != ""
    ensures header.Some? && header.value != "" ==>
              GetApiKeyIntended(NewPermission(header)) == GetApiKey(NewPermission(header)) == Return(header.value)
    ensures !(header.Some? && header.value != "") ==>
              GetApiKeyIntended(NewPermission(header)) == Throw(AuthException, NotAuthorized)
  {
  }

  /** `PermissionService.verify_api_key(api_key)`: whether some author holds the key. */
  function VerifyApiKey(db: Database, apiKey: string): (r: Outcome<bool>)
    requires db.AuthorsValid()
    reads db
    ensures !db.online ==> r == Raise(ConnectionRefusedError)
    ensures db.online ==> r.Return? && (r.value <==> apiKey != "" && ApiKeyTaken(db.authors, apiKey))
  {
    AuthorDb.VerifyApiKeyExist(db, apiKey)
  }

  // ---------------------------------------------------------------- passwords and keys

  /** The `CryptContext(schemes=["bcrypt"])` pair. bcrypt itself is not modelled; what the code
      relies on is that a hash is 60 characters long and that a password verifies against its own
      hash. */
  datatype PasswordContext = PasswordContext(hash: string -> string, verify: (string, string) -> bool)

  const BcryptHashLength: nat := 60

  ghost predicate Sound(ctx: PasswordContext)
  {
    forall p :: |ctx.hash(p)| == BcryptHashLength && ctx.verify(p, ctx.hash(p))
  }

  /** `string.ascii_lowercase`, `string.ascii_uppercase` and `string.digits`. */
  const Lowercase: string := "abcdefghijklmnopqrstuvwxyz"
  const Uppercase: string := "ABCDEFGHIJKLMNOPQRSTUVWXYZ"
  const Digits: string := "0123456789"

  /** The population of `generate_api_key`: `ascii_letters + ascii_uppercase + digits`, which holds
      each upper-case letter twice. */
  const Pool: string := Lowercase + Uppercase + Uppercase + Digits

  /** Distinct positions, each inside a population of `size` elements: what `random.sample` picks. */
  predicate IsSample(picks: seq<int>, size: int)
  {
    && (forall i :: 0 <= i < |picks| ==> 0 <= picks[i] < size)
    && (forall i, j :: 0 <= i < j < |picks| ==> picks[i] != picks[j])
  }

  /** The elements of `s` at the picked positions, in pick order. */
  function Select<T>(s: seq<T>, picks: seq<int>): (r: seq<T>)
    requires forall i :: 0 <= i < |picks| ==> 0 <= picks[i] < |s|
    ensures |r| == |picks|
    ensures forall i :: 0 <= i < |r| ==> r[i] == s[picks[i]]
  {
    if picks == [] then [] else [s[picks[0]]] + Select(s, picks[1..])
  }

  /** The positions of `picks` once position `p` is deleted from the population. */
  function Shift(picks: seq<int>, p: int): (r: seq<int>)
    ensures |r| == |picks|
    ensures forall i :: 0 <= i < |r| ==> r[i] == if picks[i] < p then picks[i] else picks[i] - 1
  {
    seq(|picks|, i requires 0 <= i < |picks| => if picks[i] < p then picks[i] else picks[i] - 1)
  }

  lemma ShiftIsSample(picks: seq<int>, p: int, size: int)
    requires 0 <= p < size
    requires IsSample(picks, size) && forall i :: 0 <= i < |picks| ==> picks[i] != p
    ensures IsSample(Shift(picks, p), size - 1)
  {
    var r := Shift(picks, p);
    forall i, j | 0 <= i < j < |r| ensures r[i] != r[j] {
      assert picks[i] != picks[j];
    }
  }

  lemma SelectAfterDelete<T>(s: seq<T>, picks: seq<int>, p: int)
    requires 0 <= p < |s| && IsSample(picks, |s|) && forall i :: 0 <= i < |picks| ==> picks[i] != p
    ensures IsSample(Shift(picks, p), |s| - 1)
    ensures Select(s[..p] + s[p + 1..], Shift(picks, p)) == Select(s, picks)
  {
    ShiftIsSample(picks, p, |s|);
    var rest := s[..p] + s[p + 1..];
    var shifted := Shift(picks, p);
    forall i | 0 <= i < |picks| ensures rest[shifted[i]] == s[picks[i]] {
      if picks[i] < p {
        assert rest[shifted[i]] == s[..p][picks[i]];
      } else {
        assert rest[shifted[i]] == s[p + 1..][picks[i] - 1 - p];
      }
    }
  }

  /** Deleting position `p` takes one occurrence of `s[p]` out of the multiset. */
  lemma MultisetDelete<T>(s: seq<T>, p: int)
    requires 0 <= p < |s|
    ensures multiset(s) == multiset(s[..p] + s[p + 1..]) + multiset{s[p]}
  {
    assert s == s[..p] + [s[p]] + s[p + 1..];
  }

  /** A sample draws each element of the population at most as often as it occurs there. */
  lemma {:induction false} SampleWithinPopulation<T>(s: seq<T>, picks: seq<int>)
    requires IsSample(picks, |s|)
    ensures multiset(Select(s, picks)) <= multiset(s)
    decreases |picks|
  {
    if picks != [] {
      var p := picks[0];
      var tail := picks[1..];
      assert IsSample(tail, |s|) && forall i :: 0 <= i < |tail| ==> tail[i] != p by {
        forall i | 0 <= i < |tail| ensures tail[i] != p {
          assert picks[0] != picks[i + 1];
        }
      }
      SelectAfterDelete(s, tail, p);
      var rest := s[..p] + s[p + 1..];
      SampleWithinPopulation(rest, Shift(tail, p));
      MultisetDelete(s, p);
      assert Select(s, picks) == [s[p]] + Select(s, tail);
    }
  }

  /** A sample draws each element at most as often as the population holds it. */
  lemma SampleOccurrences<T>(s: seq<T>, picks: seq<int>)
    requires IsSample(picks, |s|)
    ensures forall x :: Occurrences(Select(s, picks), x) <= Occurrences(s, x)
  {
    SampleWithinPopulation(s, picks);
    forall x ensures Occurrences(Select(s, picks), x) <= Occurrences(s, x) {
      OccurrencesIsMultiplicity(Select(s, picks), x);
      OccurrencesIsMultiplicity(s, x);
    }
  }

  /** `generate_api_key(length)`: `random.sample` raises ValueError for a length outside
      [0, 88]; otherwise the key has exactly `length` letters and digits, none drawn more often
      than it occurs in the pool. `picks` are the positions the generator chooses. */
  function GenerateApiKey(length: int, picks: seq<int>): (r: Outcome<string>)
    requires 0 <= length <= |Pool| ==> |picks| == length && IsSample(picks, |Pool|)
    ensures length < 0 || length > |Pool| ==> r == Raise(ValueError)
    ensures 0 <= length <= |Pool| ==>
              && r.Return? && |r.value| == length
              && (forall i :: 0 <= i < |r.value| ==> r.value[i] in Pool)
              && (forall c :: Occurrences(r.value, c) <= Occurrences(Pool, c))
  {
    if length < 0 || length > |Pool| then Raise(ValueError)
    else
      SampleOccurrences(Pool, picks);
      Return(Select(Pool, picks))
  }

  /** Length of the keys `get_or_create_user` hands out. */
  const KeyLength: nat := 64

  // ---------------------------------------------------------------- registration and login

  /** `get_or_create_user(name, password)`: a known name logs in when the password verifies and is
      refused otherwise; an unknown name registers a new author under a fresh 64-character key. The
      boolean says whether the author was created. */
  method GetOrCreateUser(db: Database, name: string, password: string, ctx: PasswordContext, picks: seq<int>)
    returns (r: Outcome<(string, bool)>)
    requires db.Valid() && Sound(ctx)
    requires |picks| == KeyLength && IsSample(picks, |Pool|)
    modifies db
    ensures db.Valid()
    ensures db.tweets == old(db.tweets) && db.medias == old(db.medias)
    ensures r.Raise? ==> db.authors == old(db.authors)
    ensures name == "" ==> r == Throw(BackendException, IncorrectParameters)
    ensures name != "" && !db.online ==> r == Throw(BackendException, PostgresQueryError)
    ensures name != "" && db.online ==> forall id :: id in old(db.authors) && old(db.authors)[id].name == name ==>
              && db.authors == old(db.authors)
              && (ctx.verify(password, old(db.authors)[id].password) ==> r == Return((old(db.authors)[id].apiKey, false)))
              && (!ctx.verify(password, old(db.authors)[id].password) ==> r == Throw(AuthException, NotAuthorized))
    ensures name != "" && db.online && !NameTaken(old(db.authors), name) ==>
              var key := Select(Pool, picks);
              && (|name| > NameWidth ==> r == Raise(DataError))
              && (|name| <= NameWidth && ApiKeyTaken(old(db.authors), key) ==> r == Raise(IntegrityError))
              && (|name| <= NameWidth && !ApiKeyTaken(old(db.authors), key) ==>
                    && r == Return((key, true))
                    && exists id :: id !in old(db.authors)
                                    && db.authors == old(db.authors)[id := NewAuthor(id, name, key, ctx.hash(password))])
    ensures NoSelfEntry(old(db.authors)) ==> NoSelfEntry(db.authors)
  {
    AuthorKeysUnique(db);
    var author :- AuthorDb.GetAuthor(db, 0, "", name);
    if author.Some? {
      if ctx.verify(password, author.value.password) {
        return Return((author.value.apiKey, false));
      }
      return Throw(AuthException, NotAuthorized);
    }
    var apiKey := GenerateApiKey(KeyLength, picks).value;  // 64 is within the pool: no ValueError
    assert |ctx.hash(password)| == BcryptHashLength;
    var created :- AuthorDb.CreateAuthor(db, name, apiKey, ctx.hash(password));
    assert created == NewAuthor(created.id, name, apiKey, ctx.hash(password));
    return Return((apiKey, true));
  }

  /** Logging in right after registering, with the same password, returns the key just handed out
      and says that nothing was created. */
  method RegisterThenLogin(db: Database, name: string, password: string, ctx: PasswordContext, picks: seq<int>)
    returns (first: Outcome<(string, bool)>, second: Outcome<(string, bool)>)
    requires db.Valid() && Sound(ctx) && db.online && name != "" && !NameTaken(db.authors, name)
    requires |picks| == KeyLength && IsSample(picks, |Pool|)
    modifies db
    ensures first.Return? ==> first.value.1 && second == Return((first.value.0, false))
  {
    first := GetOrCreateUser(db, name, password, ctx, picks);
    if first.Return? {
      ghost var id :| id !in old(db.authors) && db.authors == old(db.authors)[id := NewAuthor(id, name, first.value.0, ctx.hash(password))];
      assert db.authors[id].name == name;
      AuthorKeysUnique(db);
    }
    second := GetOrCreateUser(db, name, password, ctx, picks);
  }

  // ---------------------------------------------------------------- profiles

  /** `AuthorProfileSchema`: the public part of an author. */
  datatype Profile = Profile(id: int, name: string, followers: seq<FollowEntry>, following: seq<FollowEntry>)

  function ProfileOf(a: Author): Profile
  {
    Profile(a.id, a.name, a.followers, a.following)
  }

  /** `me(api_key)`: the caller's profile; an unknown key is AUTHOR_NOT_EXIST. */
  function Me(db: Database, apiKey: string): (r: Outcome<Profile>)
    requires db.AuthorsValid()
    reads db
    ensures apiKey == "" ==> r == Throw(BackendException, IncorrectParameters)
    ensures apiKey != "" && !db.online ==> r == Throw(BackendException, PostgresQueryError)
    ensures apiKey != "" && db.online && !ApiKeyTaken(db.authors, apiKey) ==> r == Throw(BackendException, AuthorNotExists)
    ensures apiKey != "" && db.online ==>
              forall id :: id in db.authors && db.authors[id].apiKey == apiKey ==> r == Return(ProfileOf(db.authors[id]))
  {
    AuthorKeysUnique(db);
    var user :- AuthorDb.GetAuthor(db, 0, apiKey, "");
    if user.Some? then Return(ProfileOf(user.value)) else Throw(BackendException, AuthorNotExists)
  }

  /** `AuthorService.get_author(author_id, api_key, name)`: the profile of the author the store
      finds; when it finds none the error is POSTGRES_QUERY_ERROR. */
  function GetAuthorProfile(db: Database, authorId: int, apiKey: string, name: string): (r: Outcome<Profile>)
    requires db.AuthorsValid()
    reads db
    ensures authorId == 0 && apiKey == "" && name == "" ==> r == Throw(BackendException, IncorrectParameters)
    ensures (authorId != 0 || apiKey != "" || name != "") && !db.online ==> r == Throw(BackendException, PostgresQueryError)
    ensures (authorId != 0 || apiKey != "" || name != "") && db.online ==>
              && (r.Return? <==> exists id :: id in db.authors && AuthorDb.Matches(db.authors[id], authorId, apiKey, name))
              && (r.Raise? ==> r == Throw(BackendException, PostgresQueryError))
              && forall id :: id in db.authors && AuthorDb.Matches(db.authors[id], authorId, apiKey, name) ==>
                   r == Return(ProfileOf(db.authors[id]))
  {
    AuthorKeysUnique(db);
    var user :- AuthorDb.GetAuthor(db, authorId, apiKey, name);
    if user.Some? then Return(ProfileOf(user.value)) else Throw(BackendException, PostgresQueryError)
  }

  // ---------------------------------------------------------------- the follow graph

  /** `_check_follower_authors(reader, writer)`: both must exist and differ; every failure,
      including a missing author, is RECURSIVE_FOLLOW. */
  function CheckFollowerAuthors(reader: Option<Author>, writer: Option<Author>): (r: Outcome<()>)
    ensures r.Return? <==> reader.Some? && writer.Some? && reader.value.id != writer.value.id
    ensures r.Raise? ==> r == Throw(BackendException, RecursiveFollow)
  {
    if reader.None? || writer.None? then Throw(BackendException, RecursiveFollow)
    else if reader.value.id == writer.value.id then Throw(BackendException, RecursiveFollow)
    else Return(())
  }

  /** The two lookups and the check that `add_follow` and `remove_follow` start with: the reader by
      api_key, the writer by id. The result holds the two ids. */
  function FollowPair(db: Database, writerId: int, apiKey: string): (r: Outcome<(int, int)>)
    requires db.AuthorsValid()
    reads db
    ensures apiKey == "" ==> r == Throw(BackendException, IncorrectParameters)
    ensures apiKey != "" && !db.online ==> r == Throw(BackendException, PostgresQueryError)
    ensures apiKey != "" && db.online && writerId == 0 ==> r == Throw(BackendException, IncorrectParameters)
    ensures r.Return? <==> && apiKey != "" && db.online && writerId != 0
                           && ApiKeyTaken(db.authors, apiKey) && writerId in db.authors
                           && db.authors[writerId].apiKey != apiKey
    ensures (apiKey != "" && db.online && writerId != 0 && r.Raise?) ==> r == Throw(BackendException, RecursiveFollow)
    ensures r.Return? ==> && r.value.1 == writerId && r.value.0 in db.authors
                          && db.authors[r.value.0].apiKey == apiKey && r.value.0 != writerId
  {
    var reader :- AuthorDb.GetAuthor(db, 0, apiKey, "");
    var writer :- AuthorDb.GetAuthor(db, writerId, "", "");
    var checked :- CheckFollowerAuthors(reader, writer);
    Return((reader.value.id, writer.value.id))
  }

  /** The authors table after a successful `add_follow`: the writer's entry is appended to the
      reader's followers and the reader's entry to the writer's following, each only if absent. */
  function Followed(m: map<int, Author>, readerId: int, writerId: int): map<int, Author>
    requires readerId in m && writerId in m
  {
    AuthorDb.FollowWritten(m, readerId, writerId,
                           AppendIfAbsent(m[readerId].followers, EntryOf(m[writerId])),
                           AppendIfAbsent(m[writerId].following, EntryOf(m[readerId])))
  }

  /** The authors table after a successful `remove_follow`: the writer's entry is removed from the
      reader's followers and the reader's entry from the writer's following, each only if present. */
  function Unfollowed(m: map<int, Author>, readerId: int, writerId: int): map<int, Author>
    requires readerId in m && writerId in m
  {
    AuthorDb.FollowWritten(m, readerId, writerId,
                           RemoveIfPresent(m[readerId].followers, EntryOf(m[writerId])),
                           RemoveIfPresent(m[writerId].following, EntryOf(m[readerId])))
  }

  /** `add_follow(writing_author_id, api_key)`. */
  method AddFollow(db: Database, writerId: int, apiKey: string) returns (r: Outcome<Success>)
    requires db.Valid()
    modifies db
    ensures db.Valid()
    ensures db.tweets == old(db.tweets) && db.medias == old(db.medias)
    ensures old(FollowPair(db, writerId, apiKey)).Raise? ==>
              r == Raise(old(FollowPair(db, writerId, apiKey)).exc) && db.authors == old(db.authors)
    ensures old(FollowPair(db, writerId, apiKey)).Return? ==>
              r == Return(Success) && db.authors == Followed(old(db.authors), old(FollowPair(db, writerId, apiKey)).value.0, writerId)
    ensures NoSelfEntry(old(db.authors)) ==> NoSelfEntry(db.authors)
  {
    var reader :- AuthorDb.GetAuthor(db, 0, apiKey, "");
    var writer :- AuthorDb.GetAuthor(db, writerId, "", "");
    var checked :- CheckFollowerAuthors(reader, writer);
    var followers := reader.value.followers;
    var newFollower := EntryOf(writer.value);
    if newFollower !in followers {
      followers := followers + [newFollower];
    }
    var following := writer.value.following;
    var newFollowing := EntryOf(reader.value);
    if newFollowing !in following {
      following := following + [newFollowing];
    }
    if NoSelfEntry(db.authors) {
      FollowedKeepsNoSelfEntry(db.authors, reader.value.id, writer.value.id);
    }
    r := AuthorDb.UpdateFollow(db, reader.value.id, writer.value.id, followers, following);
  }

  /** `remove_follow(writing_author_id, api_key)`. */
  method RemoveFollow(db: Database, writerId: int, apiKey: string) returns (r: Outcome<Success>)
    requires db.Valid()
    modifies db
    ensures db.Valid()
    ensures db.tweets == old(db.tweets) && db.medias == old(db.medias)
    ensures old(FollowPair(db, writerId, apiKey)).Raise? ==>
              r == Raise(old(FollowPair(db, writerId, apiKey)).exc) && db.authors == old(db.authors)
    ensures old(FollowPair(db, writerId, apiKey)).Return? ==>
              r == Return(Success) && db.authors == Unfollowed(old(db.authors), old(FollowPair(db, writerId, apiKey)).value.0, writerId)
    ensures NoSelfEntry(old(db.authors)) ==> NoSelfEntry(db.authors)
  {
    var reader :- AuthorDb.GetAuthor(db, 0, apiKey, "");
    var writer :- AuthorDb.GetAuthor(db, writerId, "", "");
    var checked :- CheckFollowerAuthors(reader, writer);
    var followers := reader.value.followers;
    var oldFollower := EntryOf(writer.value);
    if oldFollower in followers {
      followers := RemoveFirst(followers, oldFollower);
    }
    var following := writer.value.following;
    var oldFollowing := EntryOf(reader.value);
    if oldFollowing in following {
      following := RemoveFirst(following, oldFollowing);
    }
    if NoSelfEntry(db.authors) {
      UnfollowedKeepsNoSelfEntry(db.authors, reader.value.id, writer.value.id);
    }
    r := AuthorDb.UpdateFollow(db, reader.value.id, writer.value.id, followers, following);
  }

  /** After a follow, the writer's entry is among the reader's followers and the reader's entry
      among the writer's following; the reader's following, the writer's followers and every other
      author are untouched. */
  lemma FollowedLinksBoth(m: map<int, Author>, readerId: int, writerId: int)
    requires readerId in m && writerId in m && readerId != writerId
    ensures Followed(m, readerId, writerId).Keys == m.Keys
    ensures EntryOf(m[writerId]) in Followed(m, readerId, writerId)[readerId].followers
    ensures EntryOf(m[readerId]) in Followed(m, readerId, writerId)[writerId].following
    ensures Followed(m, readerId, writerId)[readerId].following == m[readerId].following
    ensures Followed(m, readerId, writerId)[writerId].followers == m[writerId].followers
    ensures forall id :: id in m && id != readerId && id != writerId ==> Followed(m, readerId, writerId)[id] == m[id]
  {
    var r := Followed(m, readerId, writerId);
    forall id | id in m && id != readerId && id != writerId ensures r[id] == m[id] {
      assert r[id].(followers := m[id].followers, following := m[id].following) == m[id];
    }
  }

  /** A follow changes no author's id or name, so the entries it writes stay the same. */
  lemma FollowWrittenKeepsEntries(m: map<int, Author>, readerId: int, writerId: int,
                                  followers: seq<FollowEntry>, following: seq<FollowEntry>, id: int)
    requires id in m
    ensures var r := AuthorDb.FollowWritten(m, readerId, writerId, followers, following);
            EntryOf(r[id]) == EntryOf(m[id])
  {
    var r := AuthorDb.FollowWritten(m, readerId, writerId, followers, following);
    assert r[id].(followers := m[id].followers, following := m[id].following) == m[id];
  }

  /** Following twice is the same as following once: the second call appends nothing. */
  lemma FollowIdempotent(m: map<int, Author>, readerId: int, writerId: int)
    requires readerId in m && writerId in m && readerId != writerId
    ensures Followed(Followed(m, readerId, writerId), readerId, writerId) == Followed(m, readerId, writerId)
  {
    var f1 := AppendIfAbsent(m[readerId].followers, EntryOf(m[writerId]));
    var g1 := AppendIfAbsent(m[writerId].following, EntryOf(m[readerId]));
    var once := AuthorDb.FollowWritten(m, readerId, writerId, f1, g1);
    FollowWrittenKeepsEntries(m, readerId, writerId, f1, g1, readerId);
    FollowWrittenKeepsEntries(m, readerId, writerId, f1, g1, writerId);
    assert once[readerId].followers == f1 && once[writerId].following == g1;
    AppendIfAbsentIdempotent(m[readerId].followers, EntryOf(m[writerId]));
    AppendIfAbsentIdempotent(m[writerId].following, EntryOf(m[readerId]));
    FollowWrittenTwice(m, readerId, writerId, f1, g1, f1, g1);
  }

  /** Removing a follow leaves neither entry behind when the lists held no duplicates, and leaves
      the reader's following, the writer's followers and every other author untouched. When the
      entries were absent, nothing changes at all. */
  lemma UnfollowedUnlinksBoth(m: map<int, Author>, readerId: int, writerId: int)
    requires readerId in m && writerId in m && readerId != writerId
    requires NoDup(m[readerId].followers) && NoDup(m[writerId].following)
    ensures EntryOf(m[writerId]) !in Unfollowed(m, readerId, writerId)[readerId].followers
    ensures EntryOf(m[readerId]) !in Unfollowed(m, readerId, writerId)[writerId].following
    ensures Unfollowed(m, readerId, writerId)[readerId].following == m[readerId].following
    ensures Unfollowed(m, readerId, writerId)[writerId].followers == m[writerId].followers
    ensures forall id :: id in m && id != readerId && id != writerId ==> Unfollowed(m, readerId, writerId)[id] == m[id]
    ensures EntryOf(m[writerId]) !in m[readerId].followers && EntryOf(m[readerId]) !in m[writerId].following ==>
              Unfollowed(m, readerId, writerId) == m
  {
    var r := Unfollowed(m, readerId, writerId);
    forall id | id in m && id != readerId && id != writerId ensures r[id] == m[id] {
      assert r[id].(followers := m[id].followers, following := m[id].following) == m[id];
    }
    if EntryOf(m[writerId]) !in m[readerId].followers && EntryOf(m[readerId]) !in m[writerId].following {
      forall id | id in m ensures r[id] == m[id] {
        assert r[id].(followers := m[id].followers, following := m[id].following) == m[id];
      }
    }
  }

  /** A follow between two different authors keeps `NoSelfEntry`: the entry added to the reader's
      followers carries the writer's id and the one added to the writer's following the reader's. */
  lemma FollowedKeepsNoSelfEntry(m: map<int, Author>, readerId: int, writerId: int)
    requires readerId in m && writerId in m && readerId != writerId
    requires forall id :: id in m ==> m[id].id == id
    requires NoSelfEntry(m)
    ensures NoSelfEntry(Followed(m, readerId, writerId))
  {
    var r := Followed(m, readerId, writerId);
    forall id, e | id in r && e in r[id].followers ensures e.id != id {
      if id == readerId {
        var i :| 0 <= i < |r[id].followers| && r[id].followers[i] == e;
        assert e in m[id].followers || e == EntryOf(m[writerId]);
      }
    }
    forall id, e | id in r && e in r[id].following ensures e.id != id {
      if id == writerId {
        var i :| 0 <= i < |r[id].following| && r[id].following[i] == e;
        assert e in m[id].following || e == EntryOf(m[readerId]);
      }
    }
  }

  /** An unfollow only removes entries, so it keeps `NoSelfEntry`. */
  lemma UnfollowedKeepsNoSelfEntry(m: map<int, Author>, readerId: int, writerId: int)
    requires readerId in m && writerId in m
    requires NoSelfEntry(m)
    ensures NoSelfEntry(Unfollowed(m, readerId, writerId))
  {
    var r := Unfollowed(m, readerId, writerId);
    forall id, e | id in r && e in r[id].followers ensures e.id != id {
      if id == readerId {
        var i :| 0 <= i < |r[id].followers| && r[id].followers[i] == e;
        assert e in m[id].followers;
      }
    }
    forall id, e | id in r && e in r[id].following ensures e.id != id {
      if id == writerId {
        var i :| 0 <= i < |r[id].following| && r[id].following[i] == e;
        assert e in m[id].following;
      }
    }
  }

  /** Of two follow writes to the same pair, the second one wins. */
  lemma FollowWrittenTwice(m: map<int, Author>, readerId: int, writerId: int,
                           f1: seq<FollowEntry>, g1: seq<FollowEntry>, f2: seq<FollowEntry>, g2: seq<FollowEntry>)
    ensures AuthorDb.FollowWritten(AuthorDb.FollowWritten(m, readerId, writerId, f1, g1), readerId, writerId, f2, g2)
            == AuthorDb.FollowWritten(m, readerId, writerId, f2, g2)
  {
    var once := AuthorDb.FollowWritten(m, readerId, writerId, f1, g1);
    var twice := AuthorDb.FollowWritten(once, readerId, writerId, f2, g2);
    var direct := AuthorDb.FollowWritten(m, readerId, writerId, f2, g2);
    forall id | id in m ensures twice[id] == direct[id] {
      assert twice[id].(followers := once[id].followers, following := once[id].following) == once[id];
      assert once[id].(followers := m[id].followers, following := m[id].following) == m[id];
      assert direct[id].(followers := m[id].followers, following := m[id].following) == m[id];
    }
  }

  /** Writing back the lists an author already has changes nothing. */
  lemma FollowWrittenSame(m: map<int, Author>, readerId: int, writerId: int)
    requires readerId in m && writerId in m
    ensures AuthorDb.FollowWritten(m, readerId, writerId, m[readerId].followers, m[writerId].following) == m
  {
    var r := AuthorDb.FollowWritten(m, readerId, writerId, m[readerId].followers, m[writerId].following);
    forall id | id in m ensures r[id] == m[id] {
      assert r[id].(followers := m[id].followers, following := m[id].following) == m[id];
    }
  }

  /** Following and then unfollowing an unrelated pair restores the authors table exactly. */
  lemma FollowThenUnfollow(m: map<int, Author>, readerId: int, writerId: int)
    requires readerId in m && writerId in m && readerId != writerId
    requires EntryOf(m[writerId]) !in m[readerId].followers && EntryOf(m[readerId]) !in m[writerId].following
    ensures Unfollowed(Followed(m, readerId, writerId), readerId, writerId) == m
  {
    var f1 := AppendIfAbsent(m[readerId].followers, EntryOf(m[writerId]));
    var g1 := AppendIfAbsent(m[writerId].following, EntryOf(m[readerId]));
    var once := AuthorDb.FollowWritten(m, readerId, writerId, f1, g1);
    FollowWrittenKeepsEntries(m, readerId, writerId, f1, g1, readerId);
    FollowWrittenKeepsEntries(m, readerId, writerId, f1, g1, writerId);
    assert once[readerId].followers == f1 && once[writerId].following == g1;
    AppendIfAbsentThenRemove(m[readerId].followers, EntryOf(m[writerId]));
    AppendIfAbsentThenRemove(m[writerId].following, EntryOf(m[readerId]));
    FollowWrittenTwice(m, readerId, writerId, f1, g1, m[readerId].followers, m[writerId].following);
    FollowWrittenSame(m, readerId, writerId);
  }

  /** Follow lists without duplicates keep having none. */
  lemma FollowKeepsNoDup(m: map<int, Author>, readerId: int, writerId: int)
    requires readerId in m && writerId in m && readerId != writerId
    requires NoDup(m[readerId].followers) && NoDup(m[writerId].following)
    ensures NoDup(Followed(m, readerId, writerId)[readerId].followers)
    ensures NoDup(Followed(m, readerId, writerId)[writerId].following)
    ensures NoDup(Unfollowed(m, readerId, writerId)[readerId].followers)
    ensures NoDup(Unfollowed(m, readerId, writerId)[writerId].following)
  {
  }
}
