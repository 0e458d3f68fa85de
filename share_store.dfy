/**
  The engines the routes talk to, as in-memory values: the share table with
  the queries the routes issue against it, the code cache with per-entry
  expiry, and the URL signer as an opaque token. Time is an integer number
  of milliseconds.
 */
module ShareStore {

  import opened Wrappers

  datatype ContentType = TEXT | FILE

  /** A row of the share table. */
  datatype Share = Share(id: nat, shareIP: string, contentType: ContentType, content: string, timestamp: int)

  /** A code-cache entry: the share id stored under a code, and when it stops being returned. */
  datatype CodeEntry = CodeEntry(id: nat, expiresAt: int)

  /** The recall window: three minutes, in milliseconds. */
  const RecallWindowMs: int := 1000 * 60 * 3

  /** The code cache's `EX` option, in seconds, and the same in milliseconds. */
  const CodeTtlSeconds: int := 180
  const CodeTtlMs: int := CodeTtlSeconds * 1000

  /** The validity given to upload URLs, in seconds. */
  const UploadExpirySeconds: nat := 300

  datatype S3Operation = GetObject | PutObject

  /**
    A signed URL, reduced to what it was signed for: the operation, the
    object key and the validity the request asked for (`None` leaves the
    signer's default).
   */
  datatype SignedUrl = Signed(operation: S3Operation, key: string, expires: Option<nat>)

  /** The upload URL for an object key. */
  function SignUpload(key: string): SignedUrl
  {
    Signed(PutObject, key, Some(UploadExpirySeconds))
  }

  /** The download URL for an object key. */
  function SignDownload(key: string): SignedUrl
  {
    Signed(GetObject, key, None)
  }

  /** The download URL for a key is never the upload URL for it, nor for any other key. */
  lemma DownloadIsNotUpload(k1: string, k2: string)
    ensures SignDownload(k1) != SignUpload(k2)
  {
  }

  /** A signed URL names one object: two URLs signed for the same operation agree exactly when their keys do. */
  lemma SignedUrlDeterminesKey(k1: string, k2: string)
    ensures SignUpload(k1) == SignUpload(k2) <==> k1 == k2
    ensures SignDownload(k1) == SignDownload(k2) <==> k1 == k2
  {
  }

  // ---------------------------------------------------------------------------
  // The code cache
  // ---------------------------------------------------------------------------

  /**
    `get(code)`: the id stored under `code` while its entry lives; a code
    never set and a code whose entry expired both miss.
   */
  function CacheGet(cache: map<string, CodeEntry>, code: string, now: int): Option<nat>
  {
    if code in cache && now < cache[code].expiresAt then Some(cache[code].id) else None
  }

  /** `set(code, id, {EX: 180})` at `t`: `code` then yields `id` until `t` + 180 s and nothing after; other codes are unaffected. */
  lemma CacheSetThenGet(cache: map<string, CodeEntry>, code: string, id: nat, t: int, other: string, now: int)
    ensures CacheGet(cache[code := CodeEntry(id, t + CodeTtlMs)], code, now) ==
      (if now < t + CodeTtlMs then Some(id) else None)
    ensures other != code ==>
      CacheGet(cache[code := CodeEntry(id, t + CodeTtlMs)], other, now) == CacheGet(cache, other, now)
  {
  }

  // ---------------------------------------------------------------------------
  // The share table
  // ---------------------------------------------------------------------------

  /**
    The table's invariant: ids grow strictly along the table (so they are
    unique) and all lie below the next id to be handed out.
   */
  ghost predicate WellFormed(shares: seq<Share>, nextId: nat)
  {
    (forall i, j :: 0 <= i < j < |shares| ==> shares[i].id < shares[j].id) &&
    (forall i :: 0 <= i < |shares| ==> shares[i].id < nextId)
  }

  /** `findFirst({where: {id}})`: the share with that id, if any. */
  function FindById(shares: seq<Share>, id: nat): (r: Option<Share>)
    ensures r.Some? ==> r.value in shares && r.value.id == id
    ensures r.None? ==> forall s :: s in shares ==> s.id != id
    decreases |shares|
  {
    if shares == [] then None
    else if shares[0].id == id then Some(shares[0])
    else FindById(shares[1..], id)
  }

  /** In a well-formed table, any share carrying the id is the one found. */
  lemma {:induction false} FindByIdUnique(shares: seq<Share>, nextId: nat, s: Share)
    requires WellFormed(shares, nextId)
    requires s in shares
    ensures FindById(shares, s.id) == Some(s)
  {
  }

  /** Appending a share with a fresh id keeps the table well formed and makes that share findable. */
  lemma {:induction false} AppendFresh(shares: seq<Share>, nextId: nat, s: Share)
    requires WellFormed(shares, nextId)
    requires s.id == nextId
    ensures WellFormed(shares + [s], nextId + 1)
    ensures FindById(shares + [s], s.id) == Some(s)
    ensures forall id :: id != s.id ==> FindById(shares + [s], id) == FindById(shares, id)
  {
    FindByIdUnique(shares + [s], nextId + 1, s);
    forall id | id != s.id
      ensures FindById(shares + [s], id) == FindById(shares, id)
    {
      AppendOther(shares, s, id);
    }
  }

  /** Looking up an id other than the appended share's is unaffected by the append. */
  lemma {:induction false} AppendOther(shares: seq<Share>, s: Share, id: nat)
    requires id != s.id
    ensures FindById(shares + [s], id) == FindById(shares, id)
    decreases |shares|
  {
    if shares == [] {
      assert FindById([s][1..], id) == None;
    } else {
      assert (shares + [s])[1..] == shares[1..] + [s];
      AppendOther(shares[1..], s, id);
    }
  }

  /** Whether a share belongs to the recall query: created from `ip`, strictly after `cutoff`. */
  predicate InWindow(s: Share, ip: string, cutoff: int)
  {
    s.shareIP == ip && s.timestamp > cutoff
  }

  /**
    `findFirst({where: {shareIP: ip, timestamp: {gt: cutoff}}, orderBy: {timestamp: "desc"}})`:
    a share of the window with the largest timestamp, if the window holds any.
   */
  function LatestWithin(shares: seq<Share>, ip: string, cutoff: int): (r: Option<Share>)
    ensures r.Some? ==> r.value in shares && InWindow(r.value, ip, cutoff)
    ensures r.Some? ==> forall t :: t in shares && InWindow(t, ip, cutoff) ==> t.timestamp <= r.value.timestamp
    ensures r.None? <==> forall t :: t in shares ==> !InWindow(t, ip, cutoff)
    decreases |shares|
  {
    if shares == [] then None
    else
      var rest := LatestWithin(shares[1..], ip, cutoff);
      assert forall t :: t in shares ==> t == shares[0] || t in shares[1..];
      if !InWindow(shares[0], ip, cutoff) then rest
      else if rest.Some? && rest.value.timestamp > shares[0].timestamp then rest
      else Some(shares[0])
  }

  /** `deleteMany({where: {shareIP: ip}})`: the table without the rows of `ip`, in their order. */
  function Remaining(shares: seq<Share>, ip: string): (rest: seq<Share>)
    ensures |rest| <= |shares|
    ensures forall i :: 0 <= i < |rest| ==> rest[i].shareIP != ip
    decreases |shares|
  {
    if shares == [] then []
    else (if shares[0].shareIP == ip then [] else [shares[0]]) + Remaining(shares[1..], ip)
  }

  /** The number of rows created from `ip`. */
  function Matching(shares: seq<Share>, ip: string): (n: nat)
    ensures n <= |shares|
    ensures n == 0 <==> forall s :: s in shares ==> s.shareIP != ip
    decreases |shares|
  {
    if shares == [] then 0
    else (if shares[0].shareIP == ip then 1 else 0) + Matching(shares[1..], ip)
  }

  /** A share survives the purge exactly when it was in the table and not created from `ip`. */
  lemma {:induction false} RemainingExactly(shares: seq<Share>, ip: string)
    ensures forall s :: s in Remaining(shares, ip) <==> s in shares && s.shareIP != ip
    decreases |shares|
  {
    if shares != [] {
      RemainingExactly(shares[1..], ip);
      assert forall s :: s in shares <==> s == shares[0] || s in shares[1..];
    }
  }

  /** The purge removes as many rows as there are rows of `ip`. */
  lemma {:induction false} RemovedCount(shares: seq<Share>, ip: string)
    ensures |shares| - |Remaining(shares, ip)| == Matching(shares, ip)
    decreases |shares|
  {
    if shares != [] {
      RemovedCount(shares[1..], ip);
    }
  }

  /** Nothing of `ip` is left after the purge, so purging again removes nothing. */
  lemma {:induction false} PurgeIdempotent(shares: seq<Share>, ip: string)
    ensures Matching(Remaining(shares, ip), ip) == 0
    ensures Remaining(Remaining(shares, ip), ip) == Remaining(shares, ip)
    decreases |shares|
  {
    if shares != [] {
      PurgeIdempotent(shares[1..], ip);
      var head := if shares[0].shareIP == ip then [] else [shares[0]];
      var tail := Remaining(shares[1..], ip);
      assert Remaining(shares, ip) == head + tail;
      if head != [] {
        var r := head + tail;
        assert r[0] == shares[0] && r[1..] == tail;
        assert Remaining(r, ip) == [shares[0]] + Remaining(tail, ip);
        assert Matching(r, ip) == Matching(tail, ip);
      } else {
        assert Remaining(shares, ip) == tail;
      }
    }
  }

  /** The purge keeps the table well formed: the survivors keep their order. */
  lemma {:induction false} RemainingWellFormed(shares: seq<Share>, ip: string, nextId: nat)
    requires WellFormed(shares, nextId)
    ensures WellFormed(Remaining(shares, ip), nextId)
    decreases |shares|
  {
    if shares != [] {
      assert WellFormed(shares[1..], nextId);
      RemainingWellFormed(shares[1..], ip, nextId);
      RemainingExactly(shares[1..], ip);
      var tail := Remaining(shares[1..], ip);
      if shares[0].shareIP != ip {
        assert Remaining(shares, ip) == [shares[0]] + tail;
        forall j | 0 <= j < |tail|
          ensures shares[0].id < tail[j].id
        {
          assert tail[j] in shares[1..];
        }
      }
    }
  }
}
