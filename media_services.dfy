/** `MediaService`: storing an uploaded file once per content, and resolving media ids to links. */
module MediaServices {
  import opened Wrappers
  import opened Exceptions
  import opened MediaModel
  import opened Store
  import MediaDb

  newtype byte = b: int | 0 <= b < 256

  /** A digit of `hexdigest()`: 0-9, then lower-case a-f. */
  predicate IsHexDigit(c: char)
  {
    '0' <= c <= '9' || 'a' <= c <= 'f'
  }

  /** The hex digit of a nibble. */
  function HexDigit(n: int): (c: char)
    requires 0 <= n < 16
    ensures IsHexDigit(c)
  {
    if n < 10 then ('0' as int + n) as char else ('a' as int + n - 10) as char
  }

  /** The nibble of a hex digit. */
  function DigitValue(c: char): (n: int)
    requires IsHexDigit(c)
    ensures 0 <= n < 16 && HexDigit(n) == c
  {
    if c <= '9' then c as int - '0' as int else c as int - 'a' as int + 10
  }

  /** `hashlib.sha256(...).hexdigest()` applied to a digest: two lower-case hex digits per byte,
      the high nibble first. */
  function HexDigest(d: seq<byte>): (h: string)
    ensures |h| == 2 * |d|
    ensures forall i :: 0 <= i < |h| ==> IsHexDigit(h[i])
  {
    if d == [] then [] else [HexDigit(d[0] as int / 16), HexDigit(d[0] as int % 16)] + HexDigest(d[1..])
  }

  /** The inverse of `HexDigest`. */
  function HexDecode(h: string): (d: seq<byte>)
    requires |h| % 2 == 0
    requires forall i :: 0 <= i < |h| ==> IsHexDigit(h[i])
    ensures |d| == |h| / 2
  {
    if h == [] then [] else [(16 * DigitValue(h[0]) + DigitValue(h[1])) as byte] + HexDecode(h[2..])
  }

  /** The hex digit determines the nibble. */
  lemma DigitValueOfDigit(n: int)
    requires 0 <= n < 16
    ensures DigitValue(HexDigit(n)) == n
  {
  }

  /** Decoding the hex digest gives back the digest. */
  lemma {:induction false} HexRoundTrip(d: seq<byte>)
    ensures HexDecode(HexDigest(d)) == d
  {
    if d != [] {
      var h := HexDigest(d);
      assert h[2..] == HexDigest(d[1..]);
      HexRoundTrip(d[1..]);
      DigitValueOfDigit(d[0] as int / 16);
      DigitValueOfDigit(d[0] as int % 16);
      assert (16 * DigitValue(h[0]) + DigitValue(h[1])) as byte == d[0];
    }
  }

  /** Different digests give different hashes, so a stored hash names one file content. */
  lemma HexDigestInjective(a: seq<byte>, b: seq<byte>)
    requires HexDigest(a) == HexDigest(b)
    ensures a == b
  {
    HexRoundTrip(a);
    HexRoundTrip(b);
  }

  /** Length of a SHA-256 digest in bytes. */
  const DigestLength: nat := 32

  /** How writing the uploaded file into the media folder ends. */
  datatype FileWrite =
    | Written
    | OpenFailed  // the file cannot be opened for writing
    | CopyFailed  // copying the upload into the opened file raised

  /** `get_or_create_media(file)`: a file whose content hash is already stored gets the stored
      id; otherwise the file is written to the media folder and a new row created. `digest` is the
      SHA-256 digest of the upload and `write` how writing it ends. */
  method GetOrCreateMedia(db: Database, digest: seq<byte>, fileName: string, write: FileWrite) returns (r: Outcome<int>)
    requires db.Valid() && |digest| == DigestLength
    modifies db
    ensures db.Valid()
    ensures db.authors == old(db.authors) && db.tweets == old(db.tweets)
    ensures r.Raise? ==> db.medias == old(db.medias)
    ensures !db.online ==> r == Raise(ConnectionRefusedError)
    ensures db.online && HashTaken(old(db.medias), HexDigest(digest)) ==>
              r.Return? && r.value in old(db.medias) && old(db.medias)[r.value].hash == HexDigest(digest)
              && db.medias == old(db.medias)
    ensures db.online && !HashTaken(old(db.medias), HexDigest(digest)) ==>
              match write
              case OpenFailed => r == Raise(OSError)
              case CopyFailed => r == Throw(BackendException, MediaImportError)
              case Written =>
                if |MediaDb.LinkFor(fileName)| > LinkWidth then r == Raise(DataError)
                else r.Return? && r.value !in old(db.medias)
                     && db.medias == old(db.medias)[r.value := Media(r.value, MediaDb.LinkFor(fileName), HexDigest(digest))]
  {
    var hash := HexDigest(digest);
    var found :- MediaDb.GetMedia(db, 0, hash);
    if found.Some? {
      return Return(found.value.id);
    }
    match write
    case OpenFailed => return Raise(OSError);
    case CopyFailed => return Throw(BackendException, MediaImportError);
    case Written =>
      var media :- MediaDb.CreateMedia(db, hash, fileName);
      return Return(media.id);
  }

  /** Uploading the same content twice yields the same media id and stores it once. */
  method UploadTwice(db: Database, digest: seq<byte>, first: string, second: string) returns (a: Outcome<int>, b: Outcome<int>)
    requires db.Valid() && db.online && |digest| == DigestLength
    modifies db
    ensures a.Return? ==> b == a && a.value in db.medias && db.medias[a.value].hash == HexDigest(digest)
    ensures a.Return? ==> db.medias.Keys <= old(db.medias).Keys + {a.value}
  {
    a := GetOrCreateMedia(db, digest, first, Written);
    if a.Return? {
      assert db.medias[a.value].hash == HexDigest(digest);
      assert HashTaken(db.medias, HexDigest(digest));
    }
    b := GetOrCreateMedia(db, digest, second, Written);
    if a.Return? {
      MediaHashUnique(db);
      assert db.medias[b.value].hash == db.medias[a.value].hash;
      assert b.value == a.value;
      assert b == a;
    }
  }

  /** `get_many_media(ids)`: the links of the requested media, an empty list when none exists. A
      missing list fails inside the wrapped store call. */
  function GetManyMedia(db: Database, ids: Option<seq<int>>): (r: Outcome<seq<string>>)
    requires db.MediasValid()
    reads db
    ensures ids.None? ==> r == Throw(BackendException, PostgresQueryError)
    ensures ids.Some? && !db.online ==> r == Throw(InternalServerException, ConnectionRefused)
    ensures ids.Some? && db.online ==> r.Return? && |r.value| == |MediaDb.RequestedIds(db, ids.value)|
    ensures ids.Some? && db.online ==>
              forall id :: id in MediaDb.RequestedIds(db, ids.value) ==> db.medias[id].link in r.value
    ensures ids.Some? && db.online ==>
              forall i :: 0 <= i < |r.value| ==> r.value[i] in MediaDb.RequestedLinks(db, ids.value)
  {
    var attachments :- MediaDb.GetManyMedia(db, ids);
    Return(if attachments.Some? then attachments.value else [])
  }
}
