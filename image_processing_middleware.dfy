/**
 * The image-processing middleware. It lets the rest of the pipeline write the origin
 * response into a buffer, then either passes the buffered bytes through unchanged,
 * answers 304 Not Modified when `If-None-Match` equals the computed ETag, or re-encodes
 * the image at the requested size and writes it with caching headers.
 *
 * SkiaSharp, `ImageHelper.EnsureImageDimensions`, MD5, Base64, `CMS.IO.Path.GetExtension`
 * and `FileExtensionContentTypeProvider` are outside the model: a `Platform` value carries
 * them as functions, and a call that may throw returns a `Call`.
 */
module ImageProcessingMiddleware {
  import opened Wrappers
  import opened Text
  import opened Int32
  import opened Seqs

  /** The content types the middleware transforms. */
  const SupportedContentTypes: seq<string> := ["image/jpeg", "image/png", "image/gif", "image/webp"]

  /** Content type of a path whose extension the provider does not know. */
  const DefaultContentType: string := "application/octet-stream"

  /** Only content-item assets under this path segment are transformed. */
  const ContentAssetSegment: string := "/getContentAsset"

  /** `Cache-Control` of a transformed image: one year, shared caches allowed. */
  const CacheControlValue: string := "public, max-age=31536000"

  /** Encoder quality; fixed in the code. */
  const EncodeQuality: int := 80

  const Status304NotModified: int := 304

  /** `SKEncodedImageFormat` values the middleware encodes to. */
  datatype ImageFormat = Jpeg | Png | Gif | Webp

  /** The outcome of a call into code outside the model: a returned value or a thrown exception. */
  datatype Call<T> = Returned(value: T) | Threw

  /**
   * The collaborators. `decode` and `resize` return `None` for a null bitmap; `encode`
   * stands for `Encode(format, quality).SaveTo(stream)`, a null `SKData` being a throw.
   */
  datatype Platform<!Bitmap> = Platform(
    getExtension: string -> string,
    tryGetContentType: string -> Option<string>,
    md5: seq<byte> -> seq<byte>,
    toBase64: seq<byte> -> string,
    decode: seq<byte> -> Call<Option<Bitmap>>,
    widthOf: Bitmap -> int,
    heightOf: Bitmap -> int,
    ensureImageDimensions: (int, int, int, int, int) -> Call<seq<int>>,
    resize: (Bitmap, int, int) -> Call<Option<Bitmap>>,
    encode: (Bitmap, ImageFormat, int) -> Call<seq<byte>>)

  /** One entry of the query collection: a parameter name and its values. */
  datatype QueryParameter = QueryParameter(name: string, values: seq<string>)

  /**
   * What the middleware observes of one request: the path, the query, the values of the
   * `If-None-Match` header, the bytes the origin wrote and the status code it set.
   */
  datatype Request = Request(
    path: string,
    query: seq<QueryParameter>,
    ifNoneMatch: seq<string>,
    buffered: seq<byte>,
    statusCode: int)

  /**
   * What reaches the client. `PassThrough`: the buffered bytes are copied unchanged.
   * `NotModified`: status 304, an `ETag` header, no body. `Transformed`: the headers set
   * on line 82-85 and the bytes actually written to the body.
   */
  datatype Outcome =
    | PassThrough(body: seq<byte>)
    | NotModified(etag: string)
    | Transformed(contentType: string, etag: string, cacheControl: string, contentLength: int, written: seq<byte>)

  // ---------------------------------------------------------------- content types

  /** `GetContentTypeFromPath`: the provider's type for the lower-cased extension, or the default. */
  function GetContentTypeFromPath<Bitmap>(platform: Platform<Bitmap>, path: string): string
  {
    match platform.tryGetContentType(ToLower(platform.getExtension(path)))
    case Some(contentType) => contentType
    case None => DefaultContentType
  }

  /** `IsSupportedContentType`: some allow-listed type equals `contentType` ignoring case. */
  function IsSupportedContentType(contentType: string): (supported: bool)
    ensures supported <==> ToLower(contentType) in SupportedContentTypes
  {
    forall k | 0 <= k < |SupportedContentTypes| ensures ToLower(SupportedContentTypes[k]) == SupportedContentTypes[k] {
      LowerCaseIsFixed(SupportedContentTypes[k]);
    }
    forall k | 0 <= k < |SupportedContentTypes|
      ensures EqualsIgnoreCase(SupportedContentTypes[k], contentType) <==> ToLower(contentType) == SupportedContentTypes[k]
    {
      EqualsIgnoreCaseIsLowerEquality(SupportedContentTypes[k], contentType);
    }
    exists k :: 0 <= k < |SupportedContentTypes| && EqualsIgnoreCase(SupportedContentTypes[k], contentType)
  }

  predicate NoUpperCase(s: string)
  {
    forall i :: 0 <= i < |s| ==> !('A' <= s[i] <= 'Z')
  }

  lemma LowerCaseIsFixed(s: string)
    requires NoUpperCase(s)
    ensures ToLower(s) == s
  {
  }

  /** The default content type is never transformed. */
  lemma DefaultContentTypeUnsupported()
    ensures !IsSupportedContentType(DefaultContentType)
  {
    LowerCaseIsFixed(DefaultContentType);
  }

  /** `GetImageFormat`: an exact, case-sensitive switch with PNG as the fallback. */
  function GetImageFormat(contentType: string): (format: ImageFormat)
    ensures format == Jpeg <==> contentType == "image/jpeg"
    ensures format == Gif <==> contentType == "image/gif"
    ensures format == Webp <==> contentType == "image/webp"
    ensures format == Png <==> contentType !in ["image/jpeg", "image/gif", "image/webp"]
  {
    match contentType
    case "image/jpeg" => Jpeg
    case "image/png" => Png
    case "image/gif" => Gif
    case "image/webp" => Webp
    case _ => Png
  }

  /** The switch does not ignore case: an upper-cased JPEG type is encoded as PNG. */
  lemma ImageFormatIsCaseSensitive()
    ensures IsSupportedContentType("IMAGE/JPEG")
    ensures GetImageFormat("IMAGE/JPEG") == Png
  {
    assert ToLower("IMAGE/JPEG") == "image/jpeg";
  }

  // ---------------------------------------------------------------- request path and query

  /** `PathString.StartsWithSegments(segment)`: a prefix ignoring case that ends on a segment boundary. */
  predicate StartsWithSegments(path: string, segment: string)
  {
    StartsWithIgnoreCase(path, segment) && (|path| == |segment| || path[|segment|] == '/')
  }

  /**
   * `Query.ContainsKey(name)` and the indexer. The query collection keeps one entry per name
   * compared ignoring case, so the values of every matching entry are merged, in order.
   */
  function FindParameter(query: seq<QueryParameter>, name: string): (values: Option<seq<string>>)
    ensures values.Some? <==> exists i :: 0 <= i < |query| && EqualsIgnoreCase(query[i].name, name)
    ensures values.Some? ==> forall v :: v in values.value <==>
      exists i :: 0 <= i < |query| && EqualsIgnoreCase(query[i].name, name) && v in query[i].values
  {
    if query == [] then None
    else
      var later := FindParameter(query[1..], name);
      assert forall i :: 1 <= i < |query| ==> query[i] == query[1..][i - 1];
      if EqualsIgnoreCase(query[0].name, name) then
        Some(query[0].values + if later.Some? then later.value else [])
      else later
  }

  /** A name that matches exactly one entry of the query has that entry's values, unchanged. */
  lemma {:induction false} SingleMatch(query: seq<QueryParameter>, name: string, k: nat)
    requires k < |query| && EqualsIgnoreCase(query[k].name, name)
    requires forall i :: 0 <= i < |query| && i != k ==> !EqualsIgnoreCase(query[i].name, name)
    ensures FindParameter(query, name) == Some(query[k].values)
  {
    if k == 0 {
      assert FindParameter(query[1..], name).None? by {
        assert forall i :: 0 <= i < |query[1..]| ==> query[1..][i] == query[i + 1];
      }
      assert query[0].values + [] == query[0].values;
    } else {
      assert forall i :: 0 <= i < |query[1..]| ==> query[1..][i] == query[i + 1];
      SingleMatch(query[1..], name, k - 1);
    }
  }

  /** The values separated by commas. */
  function JoinWithCommas(values: seq<string>): string
  {
    if values == [] then ""
    else if |values| == 1 then values[0]
    else values[0] + "," + JoinWithCommas(values[1..])
  }

  predicate IsNonEmpty(value: string)
  {
    value != ""
  }

  /**
   * The implicit conversion of `StringValues` to `string`: null for no value, the value itself
   * for one, and for several the values that are not empty, separated by commas.
   */
  function StringValuesToString(values: seq<string>): Option<string>
  {
    if values == [] then None
    else if |values| == 1 then Some(values[0])
    else Some(JoinWithCommas(Filter(IsNonEmpty, values)))
  }

  /** Two non-empty values both survive the filter. */
  lemma {:induction false} TwoNonEmptyKept(values: seq<string>, i: nat, j: nat)
    requires i < j < |values| && values[i] != "" && values[j] != ""
    ensures |Filter(IsNonEmpty, values)| >= 2
  {
    var rest := values[1..];
    assert Filter(IsNonEmpty, values) == (if IsNonEmpty(values[0]) then [values[0]] else []) + Filter(IsNonEmpty, rest);
    if i == 0 {
      assert rest[j - 1] == values[j];
      FilterMembership(IsNonEmpty, rest, values[j]);
    } else {
      assert rest[i - 1] == values[i] && rest[j - 1] == values[j];
      TwoNonEmptyKept(rest, i - 1, j - 1);
    }
  }

  /** When every value but one is empty, the filter keeps that one, if it is not empty itself. */
  lemma {:induction false} OnlyNonEmptyKept(values: seq<string>, k: nat)
    requires k < |values|
    requires forall i :: 0 <= i < |values| && i != k ==> values[i] == ""
    ensures Filter(IsNonEmpty, values) == if values[k] == "" then [] else [values[k]]
  {
    var rest := values[1..];
    assert Filter(IsNonEmpty, values) == (if IsNonEmpty(values[0]) then [values[0]] else []) + Filter(IsNonEmpty, rest);
    if k == 0 {
      FilterNone(IsNonEmpty, rest);
    } else {
      assert forall i :: 0 <= i < |rest| && i != k - 1 ==> rest[i] == values[i + 1];
      OnlyNonEmptyKept(rest, k - 1);
    }
  }

  /** Several values of which all but one are empty convert to that one value. */
  lemma EmptyValuesSkipped(values: seq<string>, k: nat)
    requires k < |values|
    requires forall i :: 0 <= i < |values| && i != k ==> values[i] == ""
    ensures StringValuesToString(values) == Some(values[k])
  {
    if |values| > 1 {
      OnlyNonEmptyKept(values, k);
    }
  }

  /** Line 47-60: a parameter counts as given when present and `int.TryParse` accepts it. */
  function ParseDimension(query: seq<QueryParameter>, name: string): (given: Option<int>)
    ensures given.Some? ==> InRange(given.value)
  {
    match FindParameter(query, name)
    case None => None
    case Some(values) => TryParse(StringValuesToString(values))
  }

  /**
   * A parameter written once, wherever it stands in the query, counts as given exactly when its
   * value is a 32-bit integer, zero and negatives included.
   */
  lemma EveryIntegerIsGiven(query: seq<QueryParameter>, name: string, k: nat, n: int)
    requires k < |query| && EqualsIgnoreCase(query[k].name, name) && query[k].values == [ToText(n)]
    requires forall i :: 0 <= i < |query| && i != k ==> !EqualsIgnoreCase(query[i].name, name)
    ensures ParseDimension(query, name) == if InRange(n) then Some(n) else None
  {
    SingleMatch(query, name, k);
    assert StringValuesToString([ToText(n)]) == Some(ToText(n));
    TryParseToText(n);
  }

  /**
   * A parameter with two or more non-empty values is never given: they are joined with a comma,
   * which `int.TryParse` rejects.
   */
  lemma RepeatedParameterIsNotGiven(query: seq<QueryParameter>, name: string, i: nat, j: nat)
    requires FindParameter(query, name).Some?
    requires var values := FindParameter(query, name).value;
      i < j < |values| && values[i] != "" && values[j] != ""
    ensures ParseDimension(query, name) == None
  {
    var values := FindParameter(query, name).value;
    var kept := Filter(IsNonEmpty, values);
    TwoNonEmptyKept(values, i, j);
    var joined := JoinWithCommas(kept);
    assert joined == kept[0] + "," + JoinWithCommas(kept[1..]);
    assert joined[|kept[0]|] == ',';
    StrayCharacterRejected(joined, |kept[0]|);
  }

  /**
   * Empty repeats of a parameter are skipped: a parameter written once with the decimal text of an
   * integer and otherwise only empty is given exactly when that integer fits in 32 bits.
   */
  lemma EmptyRepeatsAreSkipped(query: seq<QueryParameter>, name: string, k: nat, n: int)
    requires FindParameter(query, name).Some?
    requires var values := FindParameter(query, name).value;
      && k < |values| && values[k] == ToText(n)
      && forall i :: 0 <= i < |values| && i != k ==> values[i] == ""
    ensures ParseDimension(query, name) == if InRange(n) then Some(n) else None
  {
    EmptyValuesSkipped(FindParameter(query, name).value, k);
    TryParseToText(n);
  }

  /** `?width=&width=100`: the empty value is skipped and the width is 100. */
  lemma EmptyWidthIsSkipped(query: seq<QueryParameter>)
    requires query == [QueryParameter("width", ["", "100"])]
    ensures ParseDimension(query, "width") == Some(100)
  {
    var values := ["", "100"];
    assert FindParameter(query, "width") == Some(values) by {
      assert EqualsIgnoreCase("width", "width");
      assert query[1..] == [];
      assert values + [] == values;
    }
    EmptyValuesSkipped(values, 1);
    HundredParses("100");
  }

  /** `?width=1&WIDTH=2`: the two spellings are one parameter with the value `1,2`, so no width is given. */
  lemma CaseVariantsMerge(query: seq<QueryParameter>)
    requires query == [QueryParameter("width", ["1"]), QueryParameter("WIDTH", ["2"])]
    ensures FindParameter(query, "width") == Some(["1", "2"])
    ensures ParseDimension(query, "width") == None
  {
    assert EqualsIgnoreCase("WIDTH", "width");
    assert FindParameter(query[1..], "width") == Some(["2"]) by {
      assert query[1..][0] == QueryParameter("WIDTH", ["2"]);
      assert query[1..][1..] == [];
      assert ["2"] + [] == ["2"];
    }
    assert ["1"] + ["2"] == ["1", "2"];
    RepeatedParameterIsNotGiven(query, "width", 0, 1);
  }

  /** A parameter that is not in the query is not given. */
  lemma AbsentIsNotGiven(query: seq<QueryParameter>, name: string)
    requires forall i :: 0 <= i < |query| ==> !EqualsIgnoreCase(query[i].name, name)
    ensures ParseDimension(query, name) == None
  {
  }

  // ---------------------------------------------------------------- ETag

  /** The bytes `GenerateETag` hashes: the image, then width, height and maxSideSize as little-endian int32. */
  function ETagPreimage(image: seq<byte>, width: int, height: int, maxSideSize: int): (preimage: seq<byte>)
    requires InRange(width) && InRange(height) && InRange(maxSideSize)
    ensures |preimage| == |image| + 12
    ensures preimage[..|image|] == image
  {
    image + LittleEndian(width) + LittleEndian(height) + LittleEndian(maxSideSize)
  }

  /** `GenerateETag`: Base64 of the MD5 digest of the preimage. */
  function GenerateETag<Bitmap>(platform: Platform<Bitmap>, image: seq<byte>, width: int, height: int, maxSideSize: int): string
    requires InRange(width) && InRange(height) && InRange(maxSideSize)
  {
    platform.toBase64(platform.md5(ETagPreimage(image, width, height, maxSideSize)))
  }

  /**
   * Different images or dimensions always give different hash inputs, so two ETags can only
   * coincide through an MD5 collision.
   */
  lemma ETagPreimageInjective(image1: seq<byte>, width1: int, height1: int, maxSideSize1: int,
                              image2: seq<byte>, width2: int, height2: int, maxSideSize2: int)
    requires InRange(width1) && InRange(height1) && InRange(maxSideSize1)
    requires InRange(width2) && InRange(height2) && InRange(maxSideSize2)
    requires ETagPreimage(image1, width1, height1, maxSideSize1) == ETagPreimage(image2, width2, height2, maxSideSize2)
    ensures image1 == image2 && width1 == width2 && height1 == height2 && maxSideSize1 == maxSideSize2
  {
    var p := ETagPreimage(image1, width1, height1, maxSideSize1);
    var n := |image1|;
    assert |image2| == n;
    assert image1 == p[..n] == image2;
    assert LittleEndian(width1) == p[n..n + 4] == LittleEndian(width2);
    assert LittleEndian(height1) == p[n + 4..n + 8] == LittleEndian(height2);
    assert LittleEndian(maxSideSize1) == p[n + 8..n + 12] == LittleEndian(maxSideSize2);
    LittleEndianInjective(width1, width2);
    LittleEndianInjective(height1, height2);
    LittleEndianInjective(maxSideSize1, maxSideSize2);
  }

  // ---------------------------------------------------------------- resizing

  /**
   * The bytes `ResizeImageAsync` returns: the encoder output at quality 80 when every step
   * succeeds, and the input unchanged on every early return and every caught exception.
   */
  function ResizedImage<Bitmap>(platform: Platform<Bitmap>, image: seq<byte>, width: int, height: int,
                                maxSideSize: int, contentType: string): seq<byte>
  {
    if |image| == 0 || !IsSupportedContentType(contentType) then image
    else if width <= 0 && height <= 0 && maxSideSize <= 0 then image
    else
      match platform.decode(image)
      case Threw => image
      case Returned(None) => image
      case Returned(Some(original)) =>
        match platform.ensureImageDimensions(width, height, maxSideSize, platform.widthOf(original), platform.heightOf(original))
        case Threw => image
        case Returned(dims) =>
          if |dims| < 2 then image
          else
            match platform.resize(original, dims[0], dims[1])
            case Threw => image
            case Returned(None) => image
            case Returned(Some(resized)) =>
              match platform.encode(resized, GetImageFormat(contentType), EncodeQuality)
              case Threw => image
              case Returned(output) => output
  }

  /** `ResizeImageAsync`: the step sequence with its early returns and its catch-all handler. */
  method ResizeImageAsync<Bitmap>(platform: Platform<Bitmap>, imageBytes: seq<byte>, width: int, height: int,
                                  maxSideSize: int, contentType: string) returns (result: seq<byte>)
    ensures result == ResizedImage(platform, imageBytes, width, height, maxSideSize, contentType)
  {
    if |imageBytes| == 0 || !IsSupportedContentType(contentType) {
      return imageBytes;
    }
    if width <= 0 && height <= 0 && maxSideSize <= 0 {
      return imageBytes;
    }
    // try
    var decoded := platform.decode(imageBytes);
    if decoded.Threw? {
      return imageBytes;
    }
    if decoded.value.None? {
      return imageBytes;  // "Failed to decode image."
    }
    var originalBitmap := decoded.value.value;
    var newDims := platform.ensureImageDimensions(width, height, maxSideSize,
                                                  platform.widthOf(originalBitmap), platform.heightOf(originalBitmap));
    if newDims.Threw? || |newDims.value| < 2 {
      return imageBytes;
    }
    var resizedBitmap := platform.resize(originalBitmap, newDims.value[0], newDims.value[1]);
    if resizedBitmap.Threw? {
      return imageBytes;
    }
    if resizedBitmap.value.None? {
      return imageBytes;  // "Failed to resize image."
    }
    var imageFormat := GetImageFormat(contentType);
    var encoded := platform.encode(resizedBitmap.value.value, imageFormat, EncodeQuality);
    if encoded.Threw? {
      return imageBytes;
    }
    result := encoded.value;
  }

  /** Every early return and every failure of a collaborator yields the input bytes. */
  lemma ResizeFallsBackToInput<Bitmap>(platform: Platform<Bitmap>, image: seq<byte>, width: int, height: int,
                                       maxSideSize: int, contentType: string)
    requires
      || |image| == 0
      || !IsSupportedContentType(contentType)
      || (width <= 0 && height <= 0 && maxSideSize <= 0)
      || platform.decode(image) == Threw
      || platform.decode(image) == Returned(None)
      || (platform.decode(image).Returned? && platform.decode(image).value.Some? &&
          var original := platform.decode(image).value.value;
          var dims := platform.ensureImageDimensions(width, height, maxSideSize, platform.widthOf(original), platform.heightOf(original));
          || dims == Threw
          || |dims.value| < 2
          || platform.resize(original, dims.value[0], dims.value[1]) in {Threw, Returned(None)}
          || (platform.resize(original, dims.value[0], dims.value[1]).value.Some? &&
              platform.encode(platform.resize(original, dims.value[0], dims.value[1]).value.value,
                              GetImageFormat(contentType), EncodeQuality) == Threw))
    ensures ResizedImage(platform, image, width, height, maxSideSize, contentType) == image
  {
  }

  /** When every step succeeds the result is the encoder output, in the content type's format, at quality 80. */
  lemma ResizeSucceeds<Bitmap>(platform: Platform<Bitmap>, image: seq<byte>, width: int, height: int,
                               maxSideSize: int, contentType: string, original: Bitmap, dims: seq<int>,
                               resized: Bitmap, output: seq<byte>)
    requires |image| > 0 && IsSupportedContentType(contentType)
    requires width > 0 || height > 0 || maxSideSize > 0
    requires platform.decode(image) == Returned(Some(original))
    requires platform.ensureImageDimensions(width, height, maxSideSize, platform.widthOf(original), platform.heightOf(original)) == Returned(dims)
    requires |dims| >= 2
    requires platform.resize(original, dims[0], dims[1]) == Returned(Some(resized))
    requires platform.encode(resized, GetImageFormat(contentType), 80) == Returned(output)
    ensures ResizedImage(platform, image, width, height, maxSideSize, contentType) == output
  {
  }

  // ---------------------------------------------------------------- the decision

  /** The three dimensions as `InvokeAsync` reads them from the query. */
  function WidthOf(request: Request): Option<int> { ParseDimension(request.query, "width") }
  function HeightOf(request: Request): Option<int> { ParseDimension(request.query, "height") }
  function MaxSideSizeOf(request: Request): Option<int> { ParseDimension(request.query, "maxSideSize") }

  /** Whether the middleware goes past the pass-through checks: a supported type, a content asset, a dimension. */
  predicate Eligible<Bitmap>(platform: Platform<Bitmap>, request: Request)
  {
    && IsSupportedContentType(GetContentTypeFromPath(platform, request.path))
    && StartsWithSegments(request.path, ContentAssetSegment)
    && (WidthOf(request).Some? || HeightOf(request).Some? || MaxSideSizeOf(request).Some?)
  }

  /** The ETag of a request; an absent dimension is hashed as 0. */
  function ETagOf<Bitmap>(platform: Platform<Bitmap>, request: Request): string
  {
    GenerateETag(platform, request.buffered, WidthOf(request).GetOr(0), HeightOf(request).GetOr(0), MaxSideSizeOf(request).GetOr(0))
  }

  /** The bytes the transform path produces for a request. */
  function ResizedOf<Bitmap>(platform: Platform<Bitmap>, request: Request): seq<byte>
  {
    ResizedImage(platform, request.buffered, WidthOf(request).GetOr(0), HeightOf(request).GetOr(0),
                 MaxSideSizeOf(request).GetOr(0), GetContentTypeFromPath(platform, request.path))
  }

  /** What `InvokeAsync` sends for a request. */
  function Respond<Bitmap>(platform: Platform<Bitmap>, request: Request): Outcome
  {
    if !Eligible(platform, request) then PassThrough(request.buffered)
    else if request.ifNoneMatch == [ETagOf(platform, request)] then NotModified(ETagOf(platform, request))
    else
      var resized := ResizedOf(platform, request);
      Transformed(GetContentTypeFromPath(platform, request.path), ETagOf(platform, request), CacheControlValue,
                  |resized|, if request.statusCode != Status304NotModified then resized else [])
  }

  /**
   * `InvokeAsync`, with the buffer swap and the stream copies replaced by the outcome they
   * produce. `resizeCalled` records whether `ResizeImageAsync` ran.
   */
  method InvokeAsync<Bitmap>(platform: Platform<Bitmap>, request: Request) returns (outcome: Outcome, ghost resizeCalled: bool)
    ensures outcome == Respond(platform, request)
    ensures resizeCalled <==> outcome.Transformed?
  {
    resizeCalled := false;
    var contentType := GetContentTypeFromPath(platform, request.path);
    var responseBody := request.buffered;  // what `_next` wrote into the buffer

    if !IsSupportedContentType(contentType) {
      return PassThrough(responseBody), resizeCalled;
    }

    if StartsWithSegments(request.path, ContentAssetSegment) {
      var width: Option<int> := None;
      var height: Option<int> := None;
      var maxSideSize: Option<int> := None;

      if FindParameter(request.query, "width").Some? {
        var parsed := TryParse(StringValuesToString(FindParameter(request.query, "width").value));
        if parsed.Some? { width := parsed; }
      }
      assert width == WidthOf(request);
      if FindParameter(request.query, "height").Some? {
        var parsed := TryParse(StringValuesToString(FindParameter(request.query, "height").value));
        if parsed.Some? { height := parsed; }
      }
      assert height == HeightOf(request);
      if FindParameter(request.query, "maxSideSize").Some? {
        var parsed := TryParse(StringValuesToString(FindParameter(request.query, "maxSideSize").value));
        if parsed.Some? { maxSideSize := parsed; }
      }
      assert maxSideSize == MaxSideSizeOf(request);

      if width.Some? || height.Some? || maxSideSize.Some? {
        var originalImageBytes := responseBody;
        var eTag := GenerateETag(platform, originalImageBytes, width.GetOr(0), height.GetOr(0), maxSideSize.GetOr(0));

        if request.ifNoneMatch == [eTag] {
          return NotModified(eTag), resizeCalled;
        }

        var resizedImageBytes := ResizeImageAsync(platform, originalImageBytes, width.GetOr(0), height.GetOr(0),
                                                  maxSideSize.GetOr(0), contentType);
        resizeCalled := true;
        var written := if request.statusCode != Status304NotModified then resizedImageBytes else [];
        return Transformed(contentType, eTag, CacheControlValue, |resizedImageBytes|, written), resizeCalled;
      }
    }

    outcome := PassThrough(responseBody);
  }

  // ---------------------------------------------------------------- properties of the decision

  /**
   * The middleware passes the buffered bytes through unchanged exactly when the content type is
   * unsupported, the path is not a content asset, or no dimension was given.
   */
  lemma PassThroughIff<Bitmap>(platform: Platform<Bitmap>, request: Request)
    ensures Respond(platform, request).PassThrough? <==>
      || !IsSupportedContentType(GetContentTypeFromPath(platform, request.path))
      || !StartsWithSegments(request.path, ContentAssetSegment)
      || (WidthOf(request).None? && HeightOf(request).None? && MaxSideSizeOf(request).None?)
    ensures Respond(platform, request).PassThrough? ==> Respond(platform, request).body == request.buffered
  {
  }

  /** A path whose extension the provider does not know is passed through. */
  lemma UnknownExtensionPassesThrough<Bitmap>(platform: Platform<Bitmap>, request: Request)
    requires platform.tryGetContentType(ToLower(platform.getExtension(request.path))) == None
    ensures Respond(platform, request) == PassThrough(request.buffered)
  {
    DefaultContentTypeUnsupported();
  }

  /** A 304 is sent exactly when the request is eligible and `If-None-Match` is the single value ETag. */
  lemma NotModifiedIff<Bitmap>(platform: Platform<Bitmap>, request: Request)
    ensures Respond(platform, request).NotModified? <==>
      Eligible(platform, request) && request.ifNoneMatch == [ETagOf(platform, request)]
    ensures Respond(platform, request).NotModified? ==> Respond(platform, request).etag == ETagOf(platform, request)
  {
  }

  /** The platforms agree on everything but the codec. */
  ghost predicate SameExceptCodec<Bitmap>(p: Platform<Bitmap>, q: Platform<Bitmap>)
  {
    p.getExtension == q.getExtension && p.tryGetContentType == q.tryGetContentType &&
    p.md5 == q.md5 && p.toBase64 == q.toBase64
  }

  /** A 304 answer does not depend on the codec at all: it is decided before any image work. */
  lemma NotModifiedIgnoresCodec<Bitmap>(p: Platform<Bitmap>, q: Platform<Bitmap>, request: Request)
    requires SameExceptCodec(p, q)
    requires Respond(p, request).NotModified?
    ensures Respond(q, request) == Respond(p, request)
  {
  }

  /**
   * On the transform path the response carries the path's content type, the ETag, the
   * one-year cache policy and the length of the resized bytes; those bytes are written only
   * when the status is not already 304.
   */
  lemma TransformedHeaders<Bitmap>(platform: Platform<Bitmap>, request: Request)
    requires Respond(platform, request).Transformed?
    ensures var r := Respond(platform, request);
      && r.contentType == GetContentTypeFromPath(platform, request.path)
      && IsSupportedContentType(r.contentType)
      && r.etag == ETagOf(platform, request)
      && request.ifNoneMatch != [r.etag]
      && r.cacheControl == "public, max-age=31536000"
      && r.contentLength == |ResizedOf(platform, request)|
      && (r.written == if request.statusCode == 304 then [] else ResizedOf(platform, request))
  {
  }

  /** An absent dimension and a dimension of 0 give the same ETag. */
  lemma AbsentAndZeroShareETag<Bitmap>(platform: Platform<Bitmap>, request1: Request, request2: Request)
    requires request1.buffered == request2.buffered
    requires WidthOf(request1).GetOr(0) == WidthOf(request2).GetOr(0)
    requires HeightOf(request1).GetOr(0) == HeightOf(request2).GetOr(0)
    requires MaxSideSizeOf(request1).GetOr(0) == MaxSideSizeOf(request2).GetOr(0)
    ensures ETagOf(platform, request1) == ETagOf(platform, request2)
  {
  }
}
