/**
  The share routes: create a share, look one up by code or by id, recall the
  latest share of an address, and purge an address's shares. Each route runs
  its queries against the share table and the code cache, then hands either
  its result or the message it threw to the response handler.

  The request's address, the random code word, the unique suffix and the
  current time (in milliseconds) are parameters of each route.
 */
module Routes {

  import opened Wrappers
  import opened Handler
  import opened ObjectKey
  import opened ShareStore

  /** The objects the routes pass to the handler as their result. */
  datatype Doc =
    | ShareDoc(share: Share)
    | FileCreated(docs: Share, signedUrl: SignedUrl, code: string)
    | TextCreated(docs: Share, code: string)
    | UrlDoc(url: SignedUrl)
    | CountDoc(count: nat)

  /** The messages the routes throw. */
  const NoShareFound: string := "No share found"
  const NotFound: string := "Not found"
  const NotAValidShareCode: string := "Not a valid share code"

  /** How a route's `try` block ends: with a result for the handler, or with a thrown message. */
  datatype Outcome = Done(doc: Doc) | Thrown(msg: string)

  /** Whether a message is one of those the routes throw. */
  predicate RouteMessage(msg: string)
  {
    msg == NoShareFound || msg == NotFound || msg == NotAValidShareCode
  }

  /**
    The handler call that ends each route: the result with a null error, or,
    from the `catch`, the thrown message with a null result. A result object
    is always a success and a thrown message always a server error, so no
    route ever answers 400.
   */
  function Reply(o: Outcome): (r: Response<Doc>)
    requires o.Thrown? ==> RouteMessage(o.msg)
    ensures r.status != 400
    ensures o.Done? ==> r == Response(200, true, Obj(o.doc))
    ensures o.Thrown? ==> r == Response(500, false, Str(o.msg))
  {
    match o
    case Done(doc) => Handle(Null, Obj(doc))
    case Thrown(msg) => Handle(Str(msg), Null)
  }

  /** The row the create route inserts: the object key for a FILE, the text itself otherwise. */
  function NewShare(id: nat, ip: string, contentType: string, content: string, fileName: string,
                    uuid: string, now: int): (s: Share)
    ensures s.id == id && s.shareIP == ip && s.timestamp == now
    ensures contentType == "FILE" ==>
      s.contentType == FILE && |s.content| == |fileName| + |uuid| + 2 && s.content != fileName
    ensures contentType != "FILE" ==> s.contentType == TEXT && s.content == content
  {
    if contentType == "FILE" then Share(id, ip, FILE, DeriveObjectKey(fileName, uuid), now)
    else Share(id, ip, TEXT, content, now)
  }

  /** The share-by-code route up to the handler: cache first, then the table. */
  function CodeLookup(shares: seq<Share>, cache: map<string, CodeEntry>, code: string, now: int): (o: Outcome)
    ensures o.Thrown? ==> RouteMessage(o.msg)
    ensures o == Thrown(NotFound) <==> code !in cache || now >= cache[code].expiresAt
    ensures o == Thrown(NotAValidShareCode) <==>
      code in cache && now < cache[code].expiresAt && forall s :: s in shares ==> s.id != cache[code].id
    ensures o.Done? ==>
      o.doc.ShareDoc? && o.doc.share in shares && code in cache && o.doc.share.id == cache[code].id
  {
    match CacheGet(cache, code, now)
    case None => Thrown(NotFound)
    case Some(id) =>
      match FindById(shares, id)
      case None => Thrown(NotAValidShareCode)
      case Some(share) => Done(ShareDoc(share))
  }

  /** The share-by-id route up to the handler: a download URL for the share's content. */
  function IdLookup(shares: seq<Share>, id: nat): (o: Outcome)
    ensures o.Thrown? <==> forall s :: s in shares ==> s.id != id
    ensures o.Thrown? ==> o.msg == NotAValidShareCode
    ensures o.Done? ==>
      o.doc.UrlDoc? && o.doc.url.operation == GetObject && o.doc.url.expires.None? &&
      exists s :: s in shares && s.id == id && o.doc.url.key == s.content
  {
    match FindById(shares, id)
    case None => Thrown(NotAValidShareCode)
    case Some(share) => Done(UrlDoc(SignDownload(share.content)))
  }

  /** The recall route up to the handler: the latest share of `ip` in the last three minutes. */
  function RecallLookup(shares: seq<Share>, ip: string, now: int): (o: Outcome)
    ensures o.Thrown? <==> forall t :: t in shares ==> !InWindow(t, ip, now - RecallWindowMs)
    ensures o.Thrown? ==> o.msg == NoShareFound
    ensures o.Done? ==>
      o.doc.ShareDoc? && o.doc.share in shares && InWindow(o.doc.share, ip, now - RecallWindowMs) &&
      forall t :: t in shares && InWindow(t, ip, now - RecallWindowMs) ==> t.timestamp <= o.doc.share.timestamp
  {
    match LatestWithin(shares, ip, now - RecallWindowMs)
    case None => Thrown(NoShareFound)
    case Some(share) => Done(ShareDoc(share))
  }

  /**
    The service's state: the share table in insertion order, the code cache
    and the next id the table hands out.
   */
  class ShareService {
    var shares: seq<Share>
    var cache: map<string, CodeEntry>
    var nextId: nat

    /** Ids are unique and increasing, and every cached code points at an id that was handed out. */
    ghost predicate Valid()
      reads this
    {
      WellFormed(shares, nextId) &&
      forall code :: code in cache ==> cache[code].id < nextId
    }

    constructor()
      ensures Valid()
      ensures shares == [] && cache == map[] && nextId == 0
    {
      shares := [];
      cache := map[];
      nextId := 0;
    }

    /** `prisma.share.create`: appends a row carrying the next id. */
    method InsertShare(s: Share)
      requires Valid() && s.id == nextId
      modifies this
      ensures Valid()
      ensures shares == old(shares) + [s] && nextId == old(nextId) + 1 && cache == old(cache)
    {
      AppendFresh(shares, nextId, s);
      shares := shares + [s];
      nextId := nextId + 1;
    }

    /** `redisClient.set(code, id, {EX: 180})`: stores `id` under `code`, replacing any entry. */
    method SetCode(code: string, id: nat, now: int)
      requires Valid() && id < nextId
      modifies this
      ensures Valid()
      ensures cache == old(cache)[code := CodeEntry(id, now + CodeTtlMs)]
      ensures shares == old(shares) && nextId == old(nextId)
    {
      cache := cache[code := CodeEntry(id, now + CodeTtlMs)];
    }

    /**
      POST /share. Inserts one row from `ip` (for a FILE the derived object
      key, signed for upload first; otherwise the text, stored as TEXT
      whatever type was sent), then stores its id under `code` for 180
      seconds, replacing whatever the code held.
     */
    method Create(ip: string, contentType: string, content: string, fileName: string,
                  code: string, uuid: string, now: int) returns (r: Response<Doc>)
      requires Valid()
      modifies this
      ensures Valid()
      ensures nextId == old(nextId) + 1
      ensures shares == old(shares) + [NewShare(old(nextId), ip, contentType, content, fileName, uuid, now)]
      ensures var s := NewShare(old(nextId), ip, contentType, content, fileName, uuid, now);
        s.id == old(nextId) && s.shareIP == ip && s.timestamp == now &&
        (contentType == "FILE" ==> s.contentType == FILE && s.content == DeriveObjectKey(fileName, uuid)) &&
        (contentType != "FILE" ==> s.contentType == TEXT && s.content == content)
      ensures cache == old(cache)[code := CodeEntry(old(nextId), now + CodeTtlMs)]
      ensures var s := NewShare(old(nextId), ip, contentType, content, fileName, uuid, now);
        r == Response(200, true, Obj(if contentType == "FILE" then FileCreated(s, SignUpload(s.content), code)
                                     else TextCreated(s, code)))
    {
      if contentType == "FILE" {
        var newFileName := DeriveObjectKey(fileName, uuid);
        var signedUrl := SignUpload(newFileName);
        var docs := Share(nextId, ip, FILE, newFileName, now);
        InsertShare(docs);
        SetCode(code, docs.id, now);
        r := Reply(Done(FileCreated(docs, signedUrl, code)));
      } else {
        var docs := Share(nextId, ip, TEXT, content, now);
        InsertShare(docs);
        SetCode(code, docs.id, now);
        r := Reply(Done(TextCreated(docs, code)));
      }
    }

    /**
      GET /share/code. A code that was never set or has expired fails with
      "Not found"; a live code whose share is gone fails with "Not a valid
      share code"; otherwise the share stored under the code is returned.
     */
    method LookupByCode(code: string, now: int) returns (r: Response<Doc>)
      ensures r == Reply(CodeLookup(shares, cache, code, now))
      ensures (code !in cache || now >= cache[code].expiresAt) ==> r == Response(500, false, Str(NotFound))
      ensures code in cache && now < cache[code].expiresAt && (forall s :: s in shares ==> s.id != cache[code].id)
        ==> r == Response(500, false, Str(NotAValidShareCode))
      ensures (exists s :: s in shares && code in cache && now < cache[code].expiresAt && s.id == cache[code].id)
        ==> r.status == 200
      ensures r.status == 200 || r.status == 500
      ensures r.status == 200 ==>
        r.success && r.response.Obj? && r.response.o.ShareDoc? &&
        code in cache && now < cache[code].expiresAt &&
        r.response.o.share in shares && r.response.o.share.id == cache[code].id
    {
      var id := CacheGet(cache, code, now);
      if id.None? {
        r := Reply(Thrown(NotFound));
        return;
      }
      var share := FindById(shares, id.value);
      if share.None? {
        r := Reply(Thrown(NotAValidShareCode));
        return;
      }
      r := Reply(Done(ShareDoc(share.value)));
    }

    /**
      GET /share/id/:id. A missing id fails with "Not a valid share code";
      otherwise the answer is a download URL for the share's content,
      whatever its content type.
     */
    method LookupById(id: nat) returns (r: Response<Doc>)
      requires Valid()
      ensures r == Reply(IdLookup(shares, id))
      ensures (forall s :: s in shares ==> s.id != id) <==> r == Response(500, false, Str(NotAValidShareCode))
      ensures forall s :: s in shares && s.id == id ==>
        r == Response(200, true, Obj(UrlDoc(Signed(GetObject, s.content, None))))
    {
      var share := FindById(shares, id);
      if share.None? {
        r := Reply(Thrown(NotAValidShareCode));
        return;
      }
      forall s | s in shares && s.id == id
        ensures s == share.value
      {
        FindByIdUnique(shares, nextId, s);
      }
      var url := SignDownload(share.value.content);
      r := Reply(Done(UrlDoc(url)));
    }

    /**
      GET /share/ip. The share of `ip` with the latest timestamp strictly
      after `now` minus three minutes; "No share found" when there is none
      in that window, however many older shares of `ip` remain.
     */
    method RecallByIp(ip: string, now: int) returns (r: Response<Doc>)
      ensures r == Reply(RecallLookup(shares, ip, now))
      ensures r.status == 200 <==> exists t :: t in shares && InWindow(t, ip, now - RecallWindowMs)
      ensures r.status != 200 ==> r == Response(500, false, Str(NoShareFound))
      ensures r.status == 200 ==>
        r.success && r.response.Obj? && r.response.o.ShareDoc? &&
        var s := r.response.o.share;
        s in shares && s.shareIP == ip && s.timestamp > now - RecallWindowMs &&
        forall t :: t in shares && t.shareIP == ip && t.timestamp > now - RecallWindowMs ==> t.timestamp <= s.timestamp
    {
      var share := LatestWithin(shares, ip, now - RecallWindowMs);
      if share.None? {
        r := Reply(Thrown(NoShareFound));
        return;
      }
      r := Reply(Done(ShareDoc(share.value)));
    }

    /**
      DELETE /share. Removes exactly the rows of `ip`, keeping the others in
      order, and answers with the number removed (0 is a success too). The
      code cache is left as it is.
     */
    method PurgeByIp(ip: string) returns (r: Response<Doc>)
      requires Valid()
      modifies this
      ensures Valid()
      ensures shares == Remaining(old(shares), ip)
      ensures forall s :: s in shares <==> s in old(shares) && s.shareIP != ip
      ensures cache == old(cache) && nextId == old(nextId)
      ensures r == Response(200, true, Obj(CountDoc(Matching(old(shares), ip))))
      ensures Matching(old(shares), ip) == |old(shares)| - |shares|
    {
      var remaining := Remaining(shares, ip);
      RemovedCount(shares, ip);
      RemainingExactly(shares, ip);
      RemainingWellFormed(shares, ip, nextId);
      var count := |shares| - |remaining|;
      shares := remaining;
      r := Reply(Done(CountDoc(count)));
    }
  }

  // ---------------------------------------------------------------------------
  // Properties that relate several routes
  // ---------------------------------------------------------------------------

  /**
    After a create at `now`, looking its code up succeeds exactly while
    `later` is before `now` plus 180 seconds, and returns the new share,
    whose content is the submitted text or the derived object key.
   */
  lemma {:induction false} CreateThenLookupByCode(shares: seq<Share>, cache: map<string, CodeEntry>, nextId: nat,
                               ip: string, contentType: string, content: string, fileName: string,
                               code: string, uuid: string, now: int, later: int)
    requires WellFormed(shares, nextId)
    ensures var s := NewShare(nextId, ip, contentType, content, fileName, uuid, now);
      var o := CodeLookup(shares + [s], cache[code := CodeEntry(nextId, now + CodeTtlMs)], code, later);
      (later < now + CodeTtlMs ==> o == Done(ShareDoc(s))) &&
      (later >= now + CodeTtlMs ==> o == Thrown(NotFound)) &&
      s.shareIP == ip &&
      (contentType == "FILE" ==> s.content == DeriveObjectKey(fileName, uuid)) &&
      (contentType != "FILE" ==> s.content == content)
  {
    var s := NewShare(nextId, ip, contentType, content, fileName, uuid, now);
    AppendFresh(shares, nextId, s);
  }

  /**
    Two creates under the same code: the code then resolves to the second
    share only, while the first stays reachable by its id.
   */
  lemma {:induction false} SameCodeLastWriteWins(shares: seq<Share>, cache: map<string, CodeEntry>, nextId: nat,
                              first: Share, second: Share, code: string, now1: int, now2: int, later: int)
    requires WellFormed(shares, nextId)
    requires first.id == nextId && second.id == nextId + 1
    requires later < now2 + CodeTtlMs
    ensures var table := shares + [first] + [second];
      var codes := cache[code := CodeEntry(first.id, now1 + CodeTtlMs)][code := CodeEntry(second.id, now2 + CodeTtlMs)];
      CodeLookup(table, codes, code, later) == Done(ShareDoc(second)) &&
      IdLookup(table, first.id) == Done(UrlDoc(SignDownload(first.content)))
  {
    AppendFresh(shares, nextId, first);
    AppendFresh(shares + [first], nextId + 1, second);
  }

  /**
    A FILE create hands out an upload URL for the derived key, and looking
    the new share up by id mints a download URL for that same key, which is
    never the upload URL.
   */
  lemma {:induction false} FileUploadThenDownload(shares: seq<Share>, nextId: nat, ip: string, fileName: string,
                               uuid: string, now: int)
    requires WellFormed(shares, nextId)
    ensures var s := NewShare(nextId, ip, "FILE", "", fileName, uuid, now);
      var key := DeriveObjectKey(fileName, uuid);
      s.content == key && key != fileName &&
      IdLookup(shares + [s], nextId) == Done(UrlDoc(Signed(GetObject, key, None))) &&
      SignDownload(key) != SignUpload(key)
  {
    var s := NewShare(nextId, ip, "FILE", "", fileName, uuid, now);
    AppendFresh(shares, nextId, s);
    DerivedKeyShape(fileName, uuid);
  }

  /**
    Purging an address while one of its codes is still live leaves the code
    in the cache, so looking it up now fails with "Not a valid share code".
   */
  lemma PurgedShareCodeIsInvalid(shares: seq<Share>, cache: map<string, CodeEntry>, nextId: nat,
                                 ip: string, code: string, now: int)
    requires WellFormed(shares, nextId)
    requires CodeLookup(shares, cache, code, now).Done?
    requires CodeLookup(shares, cache, code, now).doc.share.shareIP == ip
    ensures CodeLookup(Remaining(shares, ip), cache, code, now) == Thrown(NotAValidShareCode)
  {
    var s := CodeLookup(shares, cache, code, now).doc.share;
    RemainingExactly(shares, ip);
    forall t | t in Remaining(shares, ip)
      ensures t.id != s.id
    {
      if t.id == s.id {
        FindByIdUnique(shares, nextId, t);
      }
    }
  }

  /**
    Purging twice in a row: the second purge removes nothing and still
    answers with success.
   */
  lemma SecondPurgeRemovesNothing(shares: seq<Share>, ip: string)
    ensures Matching(Remaining(shares, ip), ip) == 0
    ensures Reply(Done(CountDoc(Matching(Remaining(shares, ip), ip)))) == Response(200, true, Obj(CountDoc(0)))
  {
    PurgeIdempotent(shares, ip);
  }

  /**
    Recall right after a create (time not going backwards) finds a share as
    recent as the new one while the three minutes run; from then on it fails
    with "No share found" although the address's shares are all still there.
   */
  lemma RecallAfterCreate(shares: seq<Share>, nextId: nat, ip: string, contentType: string,
                          content: string, fileName: string, uuid: string, now: int, later: int)
    requires WellFormed(shares, nextId)
    requires forall t :: t in shares && t.shareIP == ip ==> t.timestamp <= now
    requires now <= later
    ensures var s := NewShare(nextId, ip, contentType, content, fileName, uuid, now);
      var o := RecallLookup(shares + [s], ip, later);
      (later < now + RecallWindowMs ==> o.Done? && o.doc.share.shareIP == ip && o.doc.share.timestamp == now) &&
      (later >= now + RecallWindowMs ==> o == Thrown(NoShareFound) && s in shares + [s])
  {
    var s := NewShare(nextId, ip, contentType, content, fileName, uuid, now);
    var table := shares + [s];
    assert s in table;
    assert forall t :: t in table ==> t in shares || t == s;
  }
}
