# mineskin-overlay handler, modelled in Dafny

The service has one HTTP handler (`Handler` in api/index.go). It takes a base
skin URL and a base64 PNG overlay and draws the overlay over the base. Pixels
of the chroma-key colour (0, 0, 254) become transparent. The result is
uploaded to MineSkin, and MineSkin's reply is cached in Redis under a key
derived from the two inputs.

The model has six modules:

- `Wrappers`: Go's `byte`, plus `Option` and `Result` for Go's `(value, error)` returns.
- `Base64`: standard padded base64 (section 4 of RFC 4648).
  - The encoder that `hashString` calls, on 3-byte groups.
  - The decoder that `base64ToPNG` calls, as Go's non-strict `StdEncoding` behaves:
    - it skips `\r` and `\n`;
    - `=` may appear only in the last quantum;
    - unused low bits before the padding are ignored.
- `CacheKey`: `hashString` and `getRedisKey`. SHA-256 (FIPS 180-4) is a
  function parameter that maps a string to some 32-byte digest.
- `Raster`: the parts of `*image.RGBA` the handler uses.
  - `Pix` is an `array<byte>`, with `Stride` and `Rect`.
  - `At`, `Set` and `PixOffset` work on it.
  - `draw.Draw` is an opaque function that keeps the buffer size.
- `ChromaKey`: the nested `for y` / `for x` loops.
  - They run in place on the composite.
  - They are proved equal to `KeyedOut`, a function of the old buffer that keys each pixel on its own.
- `Inputs`: `fetchImage` after the transfer (the Content-Type check and PNG
  decoding) and `base64ToPNG` (one `TrimPrefix` of the data-URI marker of
  RFC 2397, then base64 and PNG decoding).
- `Handler`: the request as a chain of early returns.
  - `HandleRequest` is the step-by-step method.
  - `Respond` is the same handler as one expression. It gives the response and, in order, the side effects performed:
    - cache lookup;
    - fetch of the base;
    - upload;
    - cache store.
  - Every outside service is an outcome in a `World` value: the Redis state, the fetch result, the PNG codec, the draw step and the upload outcome.
  - `HandleRequest` is proved to return what `Respond` describes.
- `HandlerProperties`: what the handler promises, proved about `Respond`.

## Model

| member | source | states |
|---|---|---|
| `Base64.EncodeChar` | api/index.go:162 | every 6-bit value maps to a character of the base64 alphabet |
| `Base64.DecodeChar` | api/index.go:194 | every alphabet character maps to a 6-bit value that encodes back to it |
| `Base64.Encode` | api/index.go:162 | `n` bytes encode to `4 * ceil(n / 3)` characters |
| `Base64.EncodeAlphabet` | api/index.go:162 | the first `(4n + 2) / 3` characters of an encoding are alphabet characters, exactly those, and the rest are `=` |
| `Base64.DecodeFinal` | api/index.go:194 | the last quantum is accepted if and only if it is four alphabet characters, `xyz=` or `xy==`, and it gives 3, 2 or 1 bytes accordingly |
| `Base64.DecodeQuanta` | api/index.go:194 | newline-free text decodes only if its length is a multiple of four; `n` characters give between `(3n - 8) / 4` and `3n / 4` bytes; every character before the last two is an alphabet character, so padding sits only at the end |
| `Base64.Decode` | api/index.go:194 | `DecodeString` gives at most three bytes for every four characters of input |
| `Base64.QuantumRoundTrip` | api/index.go:194 | four characters of a full 3-byte group decode back to the three bytes |
| `Base64.TailRoundTrip` | api/index.go:194 | a final group of one or two bytes, padded with `=`, decodes back to those bytes |
| `Base64.DecodeQuantaEncode` | api/index.go:194 | decoding the quanta of an encoding gives back the encoded bytes |
| `Base64.RoundTrip` | api/index.go:194 | `DecodeString` of `EncodeToString(s)` succeeds and gives exactly `s` |
| `Base64.EncodeInjective` | api/index.go:162 | two byte strings have the same encoding if and only if they are equal |
| `Base64.EncodePrefix` | api/index.go:162-164 | the encoding of the first `3n` bytes is the first `4n` characters of the whole encoding |
| `CacheKey.HashString` | api/index.go:157-165 | the cut to 16 characters is always in range and gives 16 characters |
| `CacheKey.RedisKey` | api/index.go:153-155 | a key is 16 characters long, for every pair of inputs |
| `CacheKey.DigestEncoding` | api/index.go:160-162 | a 32-byte digest encodes to 44 characters, 43 from the alphabet, with the only `=` at position 43 |
| `CacheKey.KeyEncodesDigestPrefix` | api/index.go:157-165 | the key is the base64 encoding of the digest's first 12 bytes |
| `CacheKey.KeyAlphabet` | api/index.go:153-165 | every key is 16 alphabet characters and never contains `=` |
| `CacheKey.KeyDeterminedByDigestPrefix` | api/index.go:153-165 | two requests get the same key if and only if the first 12 bytes of SHA-256 of `base + ":" + overlay` agree |
| `CacheKey.RedisKeyJoinCollides` | api/index.go:153-155 | the pairs `(a + ":" + b, c)` and `(a, b + ":" + c)` get the same key, whatever the hash function |
| `CacheKey.EscapedJoinInjective` | api/index.go:153-155 | with `:` and `\` escaped in the base, the joined text determines both the base and the overlay |
| `CacheKey.EscapedKeySeparatesPairs` | api/index.go:153-165 | with the escaped join, different pairs hash different texts, and share a key if and only if the first 12 bytes of those two digests agree |
| `Raster.PixIndex` | api/index.go:72 | the row-major pixel number of an in-bounds point lies inside the buffer that `image.NewRGBA(bounds)` allocates |
| `Raster.High8Wide` | api/index.go:80-83 | `uint8(v >> 8)` of a channel widened by `RGBA()` is the stored byte itself |
| `Raster.WritePixel` | api/index.go:86 | writing a pixel sets its four bytes and leaves every other byte and pixel of the buffer as it was |
| `Raster.RGBA.constructor` | api/index.go:72 | `image.NewRGBA(bounds)` gives a zeroed buffer of `4 * width * height` bytes with stride `4 * width` |
| `Raster.RGBA.PixOffset` | api/index.go:80 | the byte offset of `(x, y)` is four times its row-major pixel number and the pixel fits in `Pix` |
| `Raster.RGBA.At` | api/index.go:80 | the stored colour of an in-bounds point, and transparent outside the bounds |
| `Raster.RGBA.Set` | api/index.go:86 | an in-bounds write changes exactly that pixel's four bytes; an out-of-bounds write changes nothing |
| `Raster.RGBA.DrawOver` | api/index.go:74-76 | the buffer becomes the draw step's result for the destination's bounds and its old contents |
| `ChromaKey.IsKeyColor` | api/index.go:80-85 | the test on the high bytes of `RGBA()` holds if and only if the stored R, G, B bytes are 0, 0, 254 |
| `ChromaKey.KeyedOut` | api/index.go:78-89 | the keyed buffer has the length of the buffer it keys |
| `ChromaKey.KeyedOutPixel` | api/index.go:78-89 | each pixel of the keyed buffer is the same pixel of the input, keyed on its own |
| `ChromaKey.KeyedPixelsCleared` | api/index.go:78-87 | every in-bounds pixel stored as (0, 0, 254) ends up (0, 0, 0, 0), whatever its alpha was |
| `ChromaKey.OtherPixelsKept` | api/index.go:78-89 | every other in-bounds pixel keeps all four of its bytes |
| `ChromaKey.KeyedOutIdempotent` | api/index.go:85-86 | keying an already keyed buffer changes nothing |
| `ChromaKey.KeyedPixelwise` | api/index.go:78-89 | a buffer whose every pixel is the keyed pixel of another buffer is that buffer keyed |
| `ChromaKey.KeyStep` | api/index.go:79-87 | keying the next pixel in row-major order extends the keyed prefix by one pixel and leaves the rest alone |
| `ChromaKey.KeyPoint` | api/index.go:80-87 | one loop body writes transparent to the pixel if it has the key colour, and otherwise changes nothing |
| `ChromaKey.KeyRow` | api/index.go:79-88 | one pass of the inner loop over row `y` extends the keyed prefix of the buffer by that whole row |
| `ChromaKey.ChromaKeyPass` | api/index.go:78-89 | after the loops the buffer is its old contents keyed pixel by pixel, and the bounds and stride are unchanged |
| `Inputs.TrimPrefix` | api/index.go:192 | `strings.TrimPrefix` never lengthens its input |
| `Inputs.FetchImage` | api/index.go:167-189 | a base image is accepted if and only if the transfer succeeded, its Content-Type starts with `image/png` and its body decodes; it is then the decoded image |
| `Inputs.Base64ToPng` | api/index.go:191-205 | corrupt base64 after the marker is reported as such; otherwise the overlay is accepted if and only if the decoded bytes are a PNG, and it is then the decoder's image |
| `Inputs.TrimAtMostOnce` | api/index.go:192 | the overlay loses at most one leading `data:image/png;base64,` and is otherwise unchanged; a doubled marker keeps its second copy |
| `Inputs.EncodingHasNoMarker` | api/index.go:192 | a base64 text never starts with the marker, so the strip leaves it alone |
| `Inputs.OverlayRoundTrip` | api/index.go:191-205 | the base64 text of some PNG bytes, with or without the marker, reaches the PNG decoder as exactly those bytes |
| `Handler.Get` | api/index.go:47 | a read gives a value if and only if Redis has no read error and holds the key, and then it is the stored value; a missing key is the error `redis: nil` |
| `Handler.Respond` | api/index.go:22-151 | effects are always a prefix of lookup, fetch, upload, store, with the store under the lookup's key; there are none if and only if the request is rejected before the lookup; a store happens only after a 200 from MineSkin and writes its body |
| `Handler.Composite` | api/index.go:71-89 | the keyed composite has the byte length of the base image's bounds |
| `Handler.DrawComposite` | api/index.go:71-89 | a fresh RGBA buffer with the base's bounds, drawn over twice, then keyed, equals `Composite` |
| `Handler.ComposeAndSend` | api/index.go:71-150 | building and encoding the composite, the upload, the reply check and the cache write answer exactly as the specification function `Publish` says |
| `Handler.HandleRequest` | api/index.go:22-151 | the handler's response and effect log are those `Respond` gives for the same request and world |
| `HandlerProperties.RejectedUpFront` | api/index.go:23-43 | a non-POST gets 405; a bad form or an empty `base` or `overlay` gets 400; none of them has any effect |
| `HandlerProperties.CacheDecides` | api/index.go:47-59 | a hit (no error, non-empty value) is answered 200 with the value verbatim and nothing else happens; any other read is a miss followed by the fetch |
| `HandlerProperties.InputFailureIs400` | api/index.go:59-69 | a failed or non-PNG fetch, or an overlay that is not base64 of a PNG, gives 400 with the fetch error first, after only the lookup and the fetch, and no upload |
| `HandlerProperties.EncodeFailureIs500` | api/index.go:91-96 | good images whose composite does not PNG-encode give 500 after only the lookup and the fetch, and no upload |
| `HandlerProperties.UploadCarriesKeyedComposite` | api/index.go:59-124 | an upload happens only after a miss, a good fetch and a good overlay, and the file sent is the PNG encoding of the chroma-keyed composite |
| `HandlerProperties.AfterUpload` | api/index.go:124-150 | after the upload, a non-200 reply gives 500 with the reply body and no store; a 200 stores the body under the lookup key and gives 200, or 500 if the write fails |
| `HandlerProperties.StoreOnlyAfterSuccess` | api/index.go:137-146 | a cache store happens only after a 200 from MineSkin, with its body, under the key that was looked up |
| `HandlerProperties.StatusCodes` | api/index.go:22-151 | every answer is 200, 400, 405 or 500, and a 200 is JSON carrying either the cached value or MineSkin's reply |
| `HandlerProperties.Apply` | api/index.go:142 | applying the logged writes loses no entry, stores every written key, keeps the value of every key nobody wrote, lets the last write win, and changes nothing without a write |
| `HandlerProperties.StoreEffect` | api/index.go:137-146 | after one request Redis holds MineSkin's reply under the request's key if the upload got a 200 and the write succeeded, and is otherwise unchanged |
| `HandlerProperties.SameKeyServedFromCache` | api/index.go:45-54 | a request whose key is that of an earlier request answered 200 with a non-empty body gets that body from the cache, with no fetch or upload |
| `HandlerProperties.RepeatServedFromCache` | api/index.go:45-146 | the same request repeated after a non-empty 200 is answered from the cache with the same body and no fetch or upload |
| `HandlerProperties.EmptyReplyNotServedFromCache` | api/index.go:49 | an empty 200 reply from MineSkin is stored, yet the same request sent again is a miss and fetches the base image again |
| `HandlerProperties.CollidingRequestServedFromCache` | api/index.go:45-54 | a request whose base and overlay split the same text at a different `:` gets the first request's cached answer, although its overlay differs |

## Left out

- main.go is not part of this model: server start-up, `.env` loading and route registration.
- The network is left out: the HTTP fetch with its 10-second timeout, the MineSkin upload, the multipart body, the request headers and the environment variables. Each stage is an outcome value in `World`.
- `redis.ParseURL`'s ignored error and client construction are not modelled. The model assumes a working client.
- Redis itself is an entry map with a fixed `Get` error and a fixed `Set` error. A missing key reads as the error `redis: nil`. No expiry and no other writer between requests are modelled.
- `png.Decode` and `png.Encode` are function parameters. An encoder failure is `None`.
- SHA-256 is a function parameter that returns 32 bytes. Its internals are not modelled.
- The blending inside `draw.Draw(..., draw.Over)` is an opaque function from the old buffer and the source image to a buffer of the same size.
- `fmt.Println` logging is not modelled.
- `http.Error`'s `X-Content-Type-Options` header is left out. Only status, Content-Type and body are modelled.
- `r.ParseForm` and `r.FormValue` are reduced to a parse-succeeded flag and the two field values. The empty string stands for an absent field.
- The text of Go's `CorruptInputError` is modelled without the byte offset it names.
- Integers are unbounded. Go's `int` overflow for images too large to allocate is not modelled.
- `Raster.RGBA.Set`: takes a colour already converted to `color.RGBA`. The handler only writes `color.Transparent`, which converts to (0, 0, 0, 0). Go's conversion of other colour models is not modelled.
- `Raster.RGBA.DrawOver`: states only that the buffer becomes the opaque draw step's result. The blending rules of `draw.Over` are not modelled.
- `HandlerProperties.Stored`: takes a `Set` that returned an error to have written nothing. The source does not say what Redis holds after a failed write, so this is an assumption of the model, not a promise of the handler.
- Go strings and `[]byte` are both modelled as Dafny strings of characters. `hashString` hashes `[]byte(input)`; the hash parameter takes the string itself, which is the same value byte for byte.
- The handler keeps the key as written, with the unescaped `:` join. `CacheKey.EscapedRedisKey` is the corrected key, and only the lemmas about it use it.
- `Handler.HandleRequest`: the effect log is ghost. The model records that a lookup, fetch, upload or store was attempted, not its wire format.

## Findings

| source | as written | input that shows it | evidently intended | confidence | as-written member | corrected member |
|---|---|---|---|---|---|---|
| api/index.go:153-155 | the key hashes `baseURL + ":" + overlayStr` with no escaping, and the cache is read before the overlay is decoded | with `X` the base64 text of a PNG that MineSkin accepts: base `https://h/s.png` with overlay `data:image/png;base64,X` is answered 200 and cached; then base `https://h/s.png:data` with overlay `image/png;base64,X` hashes the same text `https://h/s.png:data:image/png;base64,X`, so it gets the first reply from the cache although its overlay is not even valid base64 | different `(base, overlay)` pairs get different hash inputs | not executed | `CacheKey.RedisKeyJoinCollides`, `HandlerProperties.CollidingRequestServedFromCache` | `CacheKey.EscapedRedisKey`, proved by `CacheKey.EscapedJoinInjective` and `CacheKey.EscapedKeySeparatesPairs` |
