/** How the handler turns its two form values into images: `fetchImage`
    for the base URL and `base64ToPNG` for the overlay (api/index.go). The
    HTTP transfer and the PNG decoder are outside the model: the first is an
    outcome value, the second a function parameter. */
module Inputs {
  import opened Wrappers
  import Base64
  import Raster

  /** What `client.Get(url)` produced: a transport error (including the
      10-second timeout) or a response with its Content-Type and body. */
  datatype FetchResult = FetchFailed(err: string) | Fetched(contentType: string, body: seq<byte>)

  /** `png.Decode`: an image, or the decoder's error text. */
  type PngDecoder = seq<byte> -> Result<Raster.Image>

  /** The Content-Type prefix a base image must carry. */
  const PngContentType := "image/png"

  /** The data-URI marker (RFC 2397) an overlay may start with. */
  const DataUriPrefix := "data:image/png;base64,"

  /** `strings.HasPrefix`. */
  predicate HasPrefix(s: string, prefix: string) {
    |prefix| <= |s| && s[..|prefix|] == prefix
  }

  /** `strings.TrimPrefix`: drop one leading `prefix`, if there is one. */
  function TrimPrefix(s: string, prefix: string): (r: string)
    ensures |r| <= |s|
  {
    if HasPrefix(s, prefix) then s[|prefix|..] else s
  }

  /** `fetchImage`, after the transfer: reject a failed transfer, then a
      Content-Type that does not start with `image/png`, then a body that
      does not decode. A base image is accepted exactly when all three
      checks pass, and it is then the decoder's image. */
  function FetchImage(fetched: FetchResult, decodePng: PngDecoder): (r: Result<Raster.Image>)
    ensures r.Success? <==>
              fetched.Fetched? && HasPrefix(fetched.contentType, PngContentType) && decodePng(fetched.body).Success?
    ensures r.Success? ==> r == decodePng(fetched.body)
  {
    match fetched
    case FetchFailed(err) => Failure("failed to fetch image: " + err)
    case Fetched(contentType, body) =>
      if !HasPrefix(contentType, PngContentType) then
        Failure("invalid content type: " + contentType + " (expected image/png)")
      else
        match decodePng(body)
        case Failure(err) => Failure("failed to decode PNG: " + err)
        case Success(img) => Success(img)
  }

  /** The text of Go's `base64.CorruptInputError`; the byte offset it names
      is not modelled. */
  const CorruptInput := "illegal base64 data"

  /** `base64ToPNG`: strip one data-URI marker, decode the base64 text, then
      decode the PNG bytes. Corrupt base64 is reported as such; otherwise
      the image is the PNG decoder's verdict on the decoded bytes. */
  function Base64ToPng(b64: string, decodePng: PngDecoder): (r: Result<Raster.Image>)
    ensures var d := Base64.Decode(TrimPrefix(b64, DataUriPrefix));
            (d.None? ==> r == Failure("failed to decode base64: " + CorruptInput)) &&
            (d.Some? ==> (r.Success? <==> decodePng(d.value).Success?)) &&
            (r.Success? ==> d.Some? && r == decodePng(d.value))
  {
    var stripped := TrimPrefix(b64, DataUriPrefix);
    match Base64.Decode(stripped)
    case None => Failure("failed to decode base64: " + CorruptInput)
    case Some(decoded) =>
      match decodePng(decoded)
      case Failure(err) => Failure("failed to decode PNG: " + err)
      case Success(img) => Success(img)
  }

  /** The overlay loses at most one leading marker and is otherwise unchanged. */
  lemma TrimAtMostOnce(s: string)
    ensures var r := TrimPrefix(s, DataUriPrefix);
            (r == s && !HasPrefix(s, DataUriPrefix)) || (s == DataUriPrefix + r)
    ensures forall t :: s == DataUriPrefix + DataUriPrefix + t ==> TrimPrefix(s, DataUriPrefix) == DataUriPrefix + t
  {
    var r := TrimPrefix(s, DataUriPrefix);
    if HasPrefix(s, DataUriPrefix) {
      assert s == s[..|DataUriPrefix|] + s[|DataUriPrefix|..];
    }
    forall t | s == DataUriPrefix + DataUriPrefix + t
      ensures r == DataUriPrefix + t
    {
      assert s[..|DataUriPrefix|] == DataUriPrefix;
      assert s[|DataUriPrefix|..] == DataUriPrefix + t;
    }
  }

  /** A base64 encoding never starts with the marker (`:` and `;` are not in
      the alphabet), so it reaches the decoder untouched. */
  lemma EncodingHasNoMarker(png: seq<byte>)
    ensures TrimPrefix(Base64.Encode(png), DataUriPrefix) == Base64.Encode(png)
  {
    var e := Base64.Encode(png);
    Base64.EncodeAlphabet(png);
    assert |e| >= 5 ==> e[4] != ':';
  }

  /** An overlay sent as the base64 text of some PNG bytes, with or without
      the data-URI marker, reaches the PNG decoder as exactly those bytes. */
  lemma OverlayRoundTrip(png: seq<byte>, decodePng: PngDecoder)
    ensures Base64ToPng(Base64.Encode(png), decodePng) == Base64ToPng(DataUriPrefix + Base64.Encode(png), decodePng)
    ensures Base64ToPng(Base64.Encode(png), decodePng).Success? <==> decodePng(png).Success?
    ensures Base64ToPng(Base64.Encode(png), decodePng).Success? ==> Base64ToPng(Base64.Encode(png), decodePng) == decodePng(png)
  {
    var e := Base64.Encode(png);
    EncodingHasNoMarker(png);
    Base64.RoundTrip(png);
    TrimAtMostOnce(DataUriPrefix + e);
    assert HasPrefix(DataUriPrefix + e, DataUriPrefix);
  }
}
