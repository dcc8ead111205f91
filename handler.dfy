/** `Handler` of api/index.go: one request, a linear chain of early returns.
    Every outside service is an outcome the caller supplies (the `World`);
    the handler's side effects are recorded, in order, in a ghost log. */
module Handler {
  import opened Wrappers
  import Raster
  import ChromaKey
  import CacheKey
  import Inputs

  /** The parts of `*http.Request` the handler reads. `formParsed` is false
      when `r.ParseForm()` fails; `base` and `overlay` are `r.FormValue`,
      the empty string when the field is absent. */
  datatype Request = Request(httpMethod: string, formParsed: bool, base: string, overlay: string)

  /** What is written to the `http.ResponseWriter`. */
  datatype Response = Response(status: int, contentType: string, body: string)

  /** A side effect on the outside world, in the order the handler performs it. */
  datatype Effect =
    | CacheLookup(key: string)                // redisC.Get
    | FetchBase(url: string)                  // client.Get of the base image
    | Upload(file: seq<byte>)                 // client.Do of the MineSkin upload, with skin.png
    | CacheStore(key: string, value: string)  // redisC.Set with no expiry

  /** What `redisC.Get` returns: an error (including `redis.Nil` for a
      missing key) or a value. */
  datatype CacheGet = GetFailed(err: string) | GetValue(val: string)

  /** The Redis store as the request finds it: its entries, and the error a
      `Get` or a `Set` would return, if any. */
  datatype Redis = Redis(entries: map<string, string>, getErr: Option<string>, setErr: Option<string>)

  /** The outcome of the MineSkin upload, stage by stage. */
  datatype UploadOutcome =
    | FormFileFailed                    // writer.CreateFormFile
    | CopyFailed                        // io.Copy into the form part
    | NewRequestFailed                  // http.NewRequest
    | SendFailed(err: string)           // client.Do
    | ReadFailed                        // io.ReadAll of the reply body
    | Replied(status: int, body: string)

  /** Everything outside the handler's own code. */
  datatype World = World(
    sha256: CacheKey.Hasher,
    redis: Redis,
    fetched: Inputs.FetchResult,
    decodePng: Inputs.PngDecoder,
    draw: Raster.Drawer,
    encodePng: (Raster.Bounds, seq<byte>) -> Option<seq<byte>>,
    upload: UploadOutcome)

  /** The handler's reply together with its effect log. */
  datatype Outcome = Outcome(resp: Response, effects: seq<Effect>)

  const MethodPost := "POST"
  const JsonType := "application/json"
  const TextType := "text/plain; charset=utf-8"

  /** `redisC.Get(ctx, key)`. */
  function Get(redis: Redis, key: string): (r: CacheGet)
    ensures r.GetValue? <==> redis.getErr.None? && key in redis.entries
    ensures r.GetValue? ==> r.val == redis.entries[key]
    ensures redis.getErr.None? && key !in redis.entries ==> r == GetFailed("redis: nil")
  {
    if redis.getErr.Some? then GetFailed(redis.getErr.value)
    else if key in redis.entries then GetValue(redis.entries[key])
    else GetFailed("redis: nil")
  }

  /** `http.Error(w, msg, code)`: a plain-text body ending in a newline. */
  function HttpError(msg: string, code: int): Response {
    Response(code, TextType, msg + "\n")
  }

  /** A JSON body written with the given status. */
  function JsonResponse(code: int, body: string): Response {
    Response(code, JsonType, body)
  }

  /** A cache read counts as a hit only without error and with a non-empty value. */
  predicate IsHit(cached: CacheGet) {
    cached.GetValue? && cached.val != ""
  }

  /** The composite buffer handed to `png.Encode`: a fresh RGBA buffer of the
      base's bounds, the base drawn over it, the overlay drawn over that, then
      the chroma-key pass. */
  function Composite(draw: Raster.Drawer, base: Raster.Image, overlay: Raster.Image): (pix: seq<byte>)
    requires Raster.KeepsSize(draw)
    ensures |pix| == Raster.PixLen(base.bounds)
  {
    var blank := seq(Raster.PixLen(base.bounds), _ => 0);
    ChromaKey.KeyedOut(draw(base.bounds, draw(base.bounds, blank, base), overlay))
  }

  /** The request passes the method, form and empty-input checks. */
  predicate Accepted(req: Request) {
    req.httpMethod == MethodPost && req.formParsed && req.base != "" && req.overlay != ""
  }

  /** The only order the handler's effects can come in: a prefix of
      lookup, fetch of the base, upload, store. The store uses the lookup's key. */
  predicate InOrder(effects: seq<Effect>, key: string, base: string) {
    |effects| <= 4 &&
    (|effects| > 0 ==> effects[0] == CacheLookup(key)) &&
    (|effects| > 1 ==> effects[1] == FetchBase(base)) &&
    (|effects| > 2 ==> effects[2].Upload?) &&
    (|effects| > 3 ==> effects[3].CacheStore? && effects[3].key == key)
  }

  /** The handler as one expression: what it answers and what it does, for
      every combination of outcomes. Whatever happens, the effects come in the
      handler's order, the cache is read and written under the same key, and
      only a request turned away by the first three checks does nothing. */
  function Respond(req: Request, w: World): (o: Outcome)
    requires Raster.KeepsSize(w.draw)
    ensures InOrder(o.effects, CacheKey.RedisKey(w.sha256, req.base, req.overlay), req.base)
    ensures o.effects == [] <==> !Accepted(req)
    ensures |o.effects| == 4 ==>
              w.upload.Replied? && w.upload.status == 200 && o.effects[3].value == w.upload.body
  {
    if req.httpMethod != MethodPost then Outcome(HttpError("Method not allowed", 405), [])
    else if !req.formParsed then Outcome(HttpError("Failed to parse form", 400), [])
    else if req.base == "" || req.overlay == "" then
      Outcome(HttpError("Missing base URL or overlay image", 400), [])
    else
      var key := CacheKey.RedisKey(w.sha256, req.base, req.overlay);
      var cached := Get(w.redis, key);
      if IsHit(cached) then Outcome(JsonResponse(200, cached.val), [CacheLookup(key)])
      else
        var fetched := [CacheLookup(key), FetchBase(req.base)];
        match Inputs.FetchImage(w.fetched, w.decodePng)
        case Failure(err) => Outcome(HttpError("Failed to fetch base image: " + err, 400), fetched)
        case Success(baseImg) =>
          match Inputs.Base64ToPng(req.overlay, w.decodePng)
          case Failure(err) => Outcome(HttpError("Failed to decode overlay image: " + err, 400), fetched)
          case Success(overlayImg) => Publish(req, w, fetched, baseImg, overlayImg)
  }

  /** The part of `Respond` after both images decoded: encode the keyed
      composite, then upload and store it. */
  function Publish(req: Request, w: World, before: seq<Effect>, baseImg: Raster.Image, overlayImg: Raster.Image): (o: Outcome)
    requires Raster.KeepsSize(w.draw)
    ensures |before| <= |o.effects| <= |before| + 2
    ensures forall i :: 0 <= i < |before| ==> o.effects[i] == before[i]
    ensures |o.effects| > |before| ==> o.effects[|before|].Upload?
    ensures |o.effects| == |before| + 2 ==>
              w.upload.Replied? && w.upload.status == 200 &&
              o.effects[|before| + 1] == CacheStore(CacheKey.RedisKey(w.sha256, req.base, req.overlay), w.upload.body)
  {
    match w.encodePng(baseImg.bounds, Composite(w.draw, baseImg, overlayImg))
    case None => Outcome(HttpError("Failed to encode composite image", 500), before)
    case Some(png) => UploadAndStore(req, w, before, png)
  }

  /** The second half of `Respond`: send `skin.png`, check the reply, write
      the cache. The effects so far are kept; at most the upload of `png` and
      then, only after a 200, one write of the reply under the request's key
      follow. */
  function UploadAndStore(req: Request, w: World, before: seq<Effect>, png: seq<byte>): (o: Outcome)
    ensures |before| <= |o.effects| <= |before| + 2
    ensures forall i :: 0 <= i < |before| ==> o.effects[i] == before[i]
    ensures |o.effects| > |before| ==> o.effects[|before|] == Upload(png)
    ensures |o.effects| == |before| + 2 ==>
              w.upload.Replied? && w.upload.status == 200 &&
              o.effects[|before| + 1] == CacheStore(CacheKey.RedisKey(w.sha256, req.base, req.overlay), w.upload.body)
  {
    var sent := before + [Upload(png)];
    match w.upload
    case FormFileFailed => Outcome(HttpError("Failed to create form file", 500), before)
    case CopyFailed => Outcome(HttpError("Failed to copy image data", 500), before)
    case NewRequestFailed => Outcome(HttpError("Failed to create MineSkin request", 500), before)
    case SendFailed(err) => Outcome(HttpError("Failed to send request to MineSkin: " + err, 500), sent)
    case ReadFailed => Outcome(HttpError("Failed to read MineSkin response", 500), sent)
    case Replied(status, body) =>
      if status != 200 then Outcome(HttpError("Failed to upload skin to MineSkin: " + body, 500), sent)
      else
        var stored := sent + [CacheStore(CacheKey.RedisKey(w.sha256, req.base, req.overlay), body)];
        if w.redis.setErr.Some? then Outcome(HttpError("Failed to set cache: " + w.redis.setErr.value, 500), stored)
        else Outcome(JsonResponse(status, body), stored)
  }

  /** The handler, step by step as api/index.go writes it, with the
      chroma-key pass run in place on an RGBA buffer. */
  method HandleRequest(req: Request, w: World) returns (resp: Response, ghost effects: seq<Effect>)
    requires Raster.KeepsSize(w.draw)
    ensures resp == Respond(req, w).resp
    ensures effects == Respond(req, w).effects
  {
    effects := [];
    if req.httpMethod != MethodPost {
      return HttpError("Method not allowed", 405), effects;
    }
    if !req.formParsed {
      return HttpError("Failed to parse form", 400), effects;
    }
    if req.base == "" || req.overlay == "" {
      return HttpError("Missing base URL or overlay image", 400), effects;
    }

    var key := CacheKey.RedisKey(w.sha256, req.base, req.overlay);
    effects := effects + [CacheLookup(key)];
    var cachedResp := Get(w.redis, key);
    if cachedResp.GetValue? && cachedResp.val != "" {
      return JsonResponse(200, cachedResp.val), effects;
    }

    effects := effects + [FetchBase(req.base)];
    var baseImg := Inputs.FetchImage(w.fetched, w.decodePng);
    if baseImg.Failure? {
      return HttpError("Failed to fetch base image: " + baseImg.error, 400), effects;
    }
    var overlayImg := Inputs.Base64ToPng(req.overlay, w.decodePng);
    if overlayImg.Failure? {
      return HttpError("Failed to decode overlay image: " + overlayImg.error, 400), effects;
    }

    assert effects == [CacheLookup(key), FetchBase(req.base)];
    resp, effects := ComposeAndSend(req, w, effects, baseImg.value, overlayImg.value);
  }

  /** Lines 71-150 of the handler: build the composite, encode it, send it. */
  method ComposeAndSend(req: Request, w: World, ghost before: seq<Effect>, baseImg: Raster.Image, overlayImg: Raster.Image)
    returns (resp: Response, ghost effects: seq<Effect>)
    requires Raster.KeepsSize(w.draw)
    ensures resp == Publish(req, w, before, baseImg, overlayImg).resp
    ensures effects == Publish(req, w, before, baseImg, overlayImg).effects
  {
    var composite := DrawComposite(w.draw, baseImg, overlayImg);
    var encoded := w.encodePng(baseImg.bounds, composite.pix[..]);
    if encoded.None? {
      return HttpError("Failed to encode composite image", 500), before;
    }
    var png := encoded.value;
    effects := before;
    match w.upload {
      case FormFileFailed =>
        return HttpError("Failed to create form file", 500), effects;
      case CopyFailed =>
        return HttpError("Failed to copy image data", 500), effects;
      case NewRequestFailed =>
        return HttpError("Failed to create MineSkin request", 500), effects;
      case SendFailed(err) =>
        effects := effects + [Upload(png)];
        return HttpError("Failed to send request to MineSkin: " + err, 500), effects;
      case ReadFailed =>
        effects := effects + [Upload(png)];
        return HttpError("Failed to read MineSkin response", 500), effects;
      case Replied(status, respBody) =>
        effects := effects + [Upload(png)];
        if status != 200 {
          return HttpError("Failed to upload skin to MineSkin: " + respBody, 500), effects;
        }
        effects := effects + [CacheStore(CacheKey.RedisKey(w.sha256, req.base, req.overlay), respBody)];
        if w.redis.setErr.Some? {
          return HttpError("Failed to set cache: " + w.redis.setErr.value, 500), effects;
        }
        return JsonResponse(status, respBody), effects;
    }
  }

  /** Lines 71-89 of the handler: `image.NewRGBA(bounds)`, the two
      `draw.Draw` calls and the chroma-key pass. */
  method DrawComposite(draw: Raster.Drawer, baseImg: Raster.Image, overlayImg: Raster.Image) returns (composite: Raster.RGBA)
    requires Raster.KeepsSize(draw)
    ensures fresh(composite) && composite.Valid() && composite.rect == baseImg.bounds
    ensures composite.pix[..] == Composite(draw, baseImg, overlayImg)
  {
    var bounds := baseImg.bounds;
    composite := new Raster.RGBA(bounds);
    assert composite.pix[..] == seq(Raster.PixLen(bounds), _ => 0);
    composite.DrawOver(baseImg, draw);
    composite.DrawOver(overlayImg, draw);
    ChromaKey.ChromaKeyPass(composite);
  }
}
