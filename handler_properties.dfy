/** What the handler of api/index.go promises, stated about `Handler.Respond`
    (which `Handler.HandleRequest` computes): which requests are turned away
    before any outside call, when the cache answers, the order of the side
    effects, when the cache is written and under which key, and what is
    uploaded. */
module HandlerProperties {
  import opened Wrappers
  import Raster
  import ChromaKey
  import CacheKey
  import Inputs
  import opened Handler

  /** The key the handler derives for a request. */
  function KeyOf(req: Request, w: World): string {
    CacheKey.RedisKey(w.sha256, req.base, req.overlay)
  }

  /** A non-POST request gets 405, a POST whose form does not parse or lacks
      `base` or `overlay` gets 400; none of them touches the cache, the
      network or MineSkin. (That these are the only requests with no effect
      at all is part of the contract of `Respond`.) */
  lemma RejectedUpFront(req: Request, w: World)
    requires Raster.KeepsSize(w.draw)
    ensures req.httpMethod != MethodPost ==> Respond(req, w) == Outcome(HttpError("Method not allowed", 405), [])
    ensures req.httpMethod == MethodPost && !req.formParsed ==>
              Respond(req, w) == Outcome(HttpError("Failed to parse form", 400), [])
    ensures req.httpMethod == MethodPost && req.formParsed && (req.base == "" || req.overlay == "") ==>
              Respond(req, w) == Outcome(HttpError("Missing base URL or overlay image", 400), [])
  {
  }

  /** A cache read with no error and a non-empty value is the answer: status
      200, the value verbatim as JSON, and nothing fetched, decoded or sent.
      Any other read (an error, `redis.Nil`, an empty value) is a miss, and
      the base image is fetched next. */
  lemma CacheDecides(req: Request, w: World)
    requires Raster.KeepsSize(w.draw) && Accepted(req)
    ensures var o := Respond(req, w);
            var cached := Get(w.redis, KeyOf(req, w));
            (IsHit(cached) ==> o == Outcome(JsonResponse(200, cached.val), [CacheLookup(KeyOf(req, w))])) &&
            (!IsHit(cached) ==> |o.effects| >= 2 && o.effects[1] == FetchBase(req.base))
  {
    var o := Respond(req, w);
    if !IsHit(Get(w.redis, KeyOf(req, w))) {
      assert |o.effects| >= 2;
    }
  }

  /** `file` is what the handler's steps make of this world's inputs: the
      base image fetched and decoded, the overlay decoded, both drawn over a
      zeroed buffer of the base's bounds, the chroma key applied, and the
      result PNG-encoded. */
  predicate SendsKeyedComposite(req: Request, w: World, file: seq<byte>)
    requires Raster.KeepsSize(w.draw)
  {
    && Inputs.FetchImage(w.fetched, w.decodePng).Success?
    && Inputs.Base64ToPng(req.overlay, w.decodePng).Success?
    && var baseImg := Inputs.FetchImage(w.fetched, w.decodePng).value;
       var overlayImg := Inputs.Base64ToPng(req.overlay, w.decodePng).value;
       var blank := seq(Raster.PixLen(baseImg.bounds), _ => 0);
       var drawn := w.draw(baseImg.bounds, w.draw(baseImg.bounds, blank, baseImg), overlayImg);
       w.encodePng(baseImg.bounds, ChromaKey.KeyedOut(drawn)) == Some(file)
  }

  /** A request that reached the upload got past the cache, the fetch, the
      overlay and the encoder, and the file it sent is the PNG encoding of the
      composite with the chroma key applied. */
  lemma UploadCarriesKeyedComposite(req: Request, w: World)
    requires Raster.KeepsSize(w.draw)
    requires |Respond(req, w).effects| >= 3
    ensures Accepted(req) && !IsHit(Get(w.redis, KeyOf(req, w)))
    ensures Respond(req, w).effects[2].Upload?
    ensures SendsKeyedComposite(req, w, Respond(req, w).effects[2].file)
  {
    var o := Respond(req, w);
    RejectedUpFront(req, w);
    assert Accepted(req);
    var key := KeyOf(req, w);
    if IsHit(Get(w.redis, key)) {
      CacheDecides(req, w);
      assert false;
    }
    var fetched := [CacheLookup(key), FetchBase(req.base)];
    match Inputs.FetchImage(w.fetched, w.decodePng)
    case Failure(_) =>
    case Success(baseImg) =>
      match Inputs.Base64ToPng(req.overlay, w.decodePng)
      case Failure(_) =>
      case Success(overlayImg) =>
        match w.encodePng(baseImg.bounds, Composite(w.draw, baseImg, overlayImg))
        case None =>
        case Some(png) =>
          assert o == UploadAndStore(req, w, fetched, png);
          assert o.effects[2] == Upload(png);
  }

  /** A base image that cannot be fetched or decoded, or an overlay that is
      not base64 of a PNG, is the client's fault: 400, with the fetch error
      reported first, after only the lookup and the fetch, and nothing sent
      to MineSkin. */
  lemma InputFailureIs400(req: Request, w: World)
    requires Raster.KeepsSize(w.draw) && Accepted(req) && !IsHit(Get(w.redis, KeyOf(req, w)))
    requires Inputs.FetchImage(w.fetched, w.decodePng).Failure? || Inputs.Base64ToPng(req.overlay, w.decodePng).Failure?
    ensures var o := Respond(req, w);
            var fetchResult := Inputs.FetchImage(w.fetched, w.decodePng);
            o.resp.status == 400 && o.effects == [CacheLookup(KeyOf(req, w)), FetchBase(req.base)] &&
            o.resp.body == (if fetchResult.Failure? then "Failed to fetch base image: " + fetchResult.error
                            else "Failed to decode overlay image: " + Inputs.Base64ToPng(req.overlay, w.decodePng).error) + "\n"
  {
  }

  /** When both images are good but the composite does not PNG-encode, the
      answer is 500 and nothing is sent to MineSkin. */
  lemma EncodeFailureIs500(req: Request, w: World)
    requires Raster.KeepsSize(w.draw) && Accepted(req) && !IsHit(Get(w.redis, KeyOf(req, w)))
    requires Inputs.FetchImage(w.fetched, w.decodePng).Success? && Inputs.Base64ToPng(req.overlay, w.decodePng).Success?
    requires var baseImg := Inputs.FetchImage(w.fetched, w.decodePng).value;
             w.encodePng(baseImg.bounds, Composite(w.draw, baseImg, Inputs.Base64ToPng(req.overlay, w.decodePng).value)).None?
    ensures Respond(req, w) ==
              Outcome(HttpError("Failed to encode composite image", 500), [CacheLookup(KeyOf(req, w)), FetchBase(req.base)])
  {
  }

  /** Once `skin.png` has gone out, only MineSkin's reply and the cache write
      decide: a reply other than 200 gives 500 with the reply's body appended
      and writes nothing; a 200 writes the body under the lookup's key, and a
      failed write still gives 500 although the upload happened. */
  lemma AfterUpload(req: Request, w: World)
    requires Raster.KeepsSize(w.draw)
    requires |Respond(req, w).effects| >= 3
    ensures var o := Respond(req, w);
            match w.upload
            case Replied(status, body) =>
              if status != 200 then
                o.resp == HttpError("Failed to upload skin to MineSkin: " + body, 500) && |o.effects| == 3
              else
                |o.effects| == 4 && o.effects[3] == CacheStore(KeyOf(req, w), body) &&
                o.resp == (if w.redis.setErr.Some? then HttpError("Failed to set cache: " + w.redis.setErr.value, 500)
                           else JsonResponse(200, body))
            case SendFailed(err) => o.resp == HttpError("Failed to send request to MineSkin: " + err, 500) && |o.effects| == 3
            case ReadFailed => o.resp == HttpError("Failed to read MineSkin response", 500) && |o.effects| == 3
            case _ => false
  {
    var o := Respond(req, w);
    UploadCarriesKeyedComposite(req, w);
    var key := KeyOf(req, w);
    var baseImg := Inputs.FetchImage(w.fetched, w.decodePng).value;
    var overlayImg := Inputs.Base64ToPng(req.overlay, w.decodePng).value;
    var png := w.encodePng(baseImg.bounds, Composite(w.draw, baseImg, overlayImg)).value;
    assert o == UploadAndStore(req, w, [CacheLookup(key), FetchBase(req.base)], png);
  }

  /** The cache is written only after MineSkin answered 200, and then with
      exactly its reply body under the key the lookup used. */
  lemma StoreOnlyAfterSuccess(req: Request, w: World, k: string, v: string)
    requires Raster.KeepsSize(w.draw)
    requires CacheStore(k, v) in Respond(req, w).effects
    ensures w.upload == Replied(200, v) && k == KeyOf(req, w)
    ensures Respond(req, w).effects[0] == CacheLookup(k)
  {
    StoreIsLast(Respond(req, w).effects, KeyOf(req, w), req.base, k, v);
  }

  /** In an ordered log, a cache store can only be the fourth and last entry. */
  lemma StoreIsLast(effects: seq<Effect>, key: string, base: string, k: string, v: string)
    requires InOrder(effects, key, base) && CacheStore(k, v) in effects
    ensures |effects| == 4 && effects[3] == CacheStore(k, v) && k == key
  {
    var i :| 0 <= i < |effects| && effects[i] == CacheStore(k, v);
    assert i == 3;
  }

  /** Every answer is 200, 400, 405 or 500, and a 200 carries either the cached
      value or MineSkin's reply. */
  lemma StatusCodes(req: Request, w: World)
    requires Raster.KeepsSize(w.draw)
    ensures var o := Respond(req, w);
            o.resp.status in {200, 400, 405, 500} &&
            (o.resp.status == 200 ==>
               (o.resp.contentType == JsonType &&
                ((IsHit(Get(w.redis, KeyOf(req, w))) && o.resp.body == Get(w.redis, KeyOf(req, w)).val) ||
                 (w.upload.Replied? && o.resp.body == w.upload.body))))
  {
    var o := Respond(req, w);
    if |o.effects| >= 3 {
      AfterUpload(req, w);
    } else if Accepted(req) {
      CacheDecides(req, w);
    }
  }

  /** Redis after the handler ran: every `Set` it made, in order, unless
      writes fail. A `Set` that returned an error is taken to have written
      nothing. Either way no entry is lost, and a key nobody wrote keeps its
      value. */
  function Stored(redis: Redis, effects: seq<Effect>): (entries: map<string, string>)
    ensures redis.entries.Keys <= entries.Keys
    ensures forall k :: k in redis.entries && (forall e :: e in effects && e.CacheStore? ==> e.key != k) ==>
              entries[k] == redis.entries[k]
  {
    if redis.setErr.Some? then redis.entries else Apply(redis.entries, effects)
  }

  /** The entries after the writes in `effects`: no entry is lost, a key
      nobody wrote keeps its value, the last write wins, and a log without a
      write changes nothing. */
  function Apply(entries: map<string, string>, effects: seq<Effect>): (r: map<string, string>)
    ensures entries.Keys <= r.Keys
    ensures forall e :: e in effects && e.CacheStore? ==> e.key in r
    ensures forall k :: k in entries && (forall e :: e in effects && e.CacheStore? ==> e.key != k) ==> r[k] == entries[k]
    ensures |effects| > 0 && effects[|effects| - 1].CacheStore? ==>
              r[effects[|effects| - 1].key] == effects[|effects| - 1].value
    ensures (forall e :: e in effects ==> !e.CacheStore?) ==> r == entries
  {
    if effects == [] then entries
    else
      var last := effects[|effects| - 1];
      var before := Apply(entries, effects[..|effects| - 1]);
      assert forall e :: e in effects ==> e in effects[..|effects| - 1] || e == last;
      if last.CacheStore? then before[last.key := last.value] else before
  }

  /** A log whose only write is its last entry leaves that one write. */
  lemma ApplyLastWrite(entries: map<string, string>, effects: seq<Effect>)
    requires |effects| > 0 && effects[|effects| - 1].CacheStore?
    requires forall i :: 0 <= i < |effects| - 1 ==> !effects[i].CacheStore?
    ensures Apply(entries, effects) == entries[effects[|effects| - 1].key := effects[|effects| - 1].value]
  {
    var before := effects[..|effects| - 1];
    assert forall e :: e in before ==> !e.CacheStore?;
  }

  /** What one request leaves in Redis: a successful write of MineSkin's
      reply under the request's key after a 200, and otherwise the entries
      as they were. */
  lemma StoreEffect(req: Request, w: World)
    requires Raster.KeepsSize(w.draw)
    ensures var o := Respond(req, w);
            Stored(w.redis, o.effects) ==
              if |o.effects| == 4 && w.redis.setErr.None? then w.redis.entries[KeyOf(req, w) := w.upload.body]
              else w.redis.entries
  {
    var o := Respond(req, w);
    if |o.effects| < 4 {
      assert forall e :: e in o.effects ==> !e.CacheStore?;
    } else if w.redis.setErr.None? {
      ApplyLastWrite(w.redis.entries, o.effects);
    }
  }

  /** A request with the same key as an earlier one that was answered 200
      with a non-empty body, sent to a Redis that holds what the first
      answer stored and reads without error, is answered from the cache with
      that body and no fetch or upload. */
  lemma SameKeyServedFromCache(req: Request, req2: Request, w: World)
    requires Raster.KeepsSize(w.draw)
    requires Respond(req, w).resp.status == 200 && Respond(req, w).resp.body != ""
    requires w.redis.getErr.None?
    requires Accepted(req2) && KeyOf(req2, w) == KeyOf(req, w)
    ensures var o := Respond(req, w);
            var w2 := w.(redis := w.redis.(entries := Stored(w.redis, o.effects)));
            Respond(req2, w2) == Outcome(JsonResponse(200, o.resp.body), [CacheLookup(KeyOf(req, w))])
  {
    var o := Respond(req, w);
    var key := KeyOf(req, w);
    var w2 := w.(redis := w.redis.(entries := Stored(w.redis, o.effects)));
    StatusCodes(req, w);
    RejectedUpFront(req, w);
    assert Accepted(req);
    if |o.effects| >= 3 {
      AfterUpload(req, w);
      assert w.upload.Replied? && w.upload.status == 200 && w.redis.setErr.None?;
      assert o.effects[|o.effects| - 1] == CacheStore(key, o.resp.body);
    } else {
      CacheDecides(req, w);
      assert IsHit(Get(w.redis, key));
    }
    assert Get(w2.redis, key) == GetValue(o.resp.body);
    CacheDecides(req2, w2);
  }

  /** Sending the same request again, after a 200 with a non-empty body, is
      answered from the cache with the same body and no upload. */
  lemma RepeatServedFromCache(req: Request, w: World)
    requires Raster.KeepsSize(w.draw)
    requires Respond(req, w).resp.status == 200 && Respond(req, w).resp.body != ""
    requires w.redis.getErr.None?
    ensures var o := Respond(req, w);
            var w2 := w.(redis := w.redis.(entries := Stored(w.redis, o.effects)));
            Respond(req, w2) == Outcome(JsonResponse(200, o.resp.body), [CacheLookup(KeyOf(req, w))])
  {
    RejectedUpFront(req, w);
    SameKeyServedFromCache(req, req, w);
  }

  /** A 200 from MineSkin with an empty body is stored, but a stored empty
      value reads as a miss: the same request sent again fetches the base
      image and goes on to upload again. */
  lemma EmptyReplyNotServedFromCache(req: Request, w: World)
    requires Raster.KeepsSize(w.draw)
    requires Respond(req, w).resp == JsonResponse(200, "")
    requires w.redis.getErr.None?
    ensures var o := Respond(req, w);
            var w2 := w.(redis := w.redis.(entries := Stored(w.redis, o.effects)));
            |o.effects| == 4 && |Respond(req, w2).effects| >= 2 && Respond(req, w2).effects[1] == FetchBase(req.base)
  {
    var o := Respond(req, w);
    var key := KeyOf(req, w);
    var w2 := w.(redis := w.redis.(entries := Stored(w.redis, o.effects)));
    RejectedUpFront(req, w);
    CacheDecides(req, w);
    AfterUpload(req, w);
    StoreEffect(req, w);
    assert Get(w2.redis, key) == GetValue("");
    CacheDecides(req, w2);
  }

  /** As written, the key joins the two fields with an unescaped `:`, so a
      request whose base URL takes the text up to the next `:` of another
      request's overlay gets that request's cached answer, although its
      overlay is a different string. */
  lemma CollidingRequestServedFromCache(req: Request, w: World, a: string, b: string, c: string)
    requires Raster.KeepsSize(w.draw)
    requires req.base == a && req.overlay == b + ":" + c && c != ""
    requires Respond(req, w).resp.status == 200 && Respond(req, w).resp.body != ""
    requires w.redis.getErr.None?
    ensures var o := Respond(req, w);
            var w2 := w.(redis := w.redis.(entries := Stored(w.redis, o.effects)));
            var req2 := req.(base := a + ":" + b, overlay := c);
            req2.overlay != req.overlay &&
            Respond(req2, w2) == Outcome(JsonResponse(200, o.resp.body), [CacheLookup(KeyOf(req, w))])
  {
    var req2 := req.(base := a + ":" + b, overlay := c);
    RejectedUpFront(req, w);
    CacheKey.RedisKeyJoinCollides(w.sha256, a, b, c);
    assert |req2.overlay| < |req.overlay|;
    SameKeyServedFromCache(req, req2, w);
  }
}
