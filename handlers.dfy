/**
 * The image request handler (`handle_image`): resolve the source file,
 * negotiate the output format from `Accept`, derive the ETag, answer a
 * matching `If-None-Match` with 304 before any transform work, and otherwise
 * take a permit, run the transform and assemble the 200 response.
 *
 * The filesystem, the hasher, the permit pool, the worker task and libvips
 * are inputs (`Env`). `Outcome.trace` records the steps the handler reached,
 * so that what a response skipped can be stated.
 */
module Handlers {
  import opened Base
  import opened Text
  import opened AppErrors
  import opened ImageProcessing

  /** Output formats as (suffix, mime), highest priority first. */
  const PRIORITIZED_FORMATS: seq<(string, string)> :=
    [(".avif", "image/avif"), (".webp", "image/webp"), (".png", "image/png"), (".jpg", "image/jpeg")]

  /** The format used when `Accept` is absent, unreadable or names none of the table's mimes. */
  const DEFAULT_FORMAT: (string, string) := (".jpg", "image/jpeg")

  const CACHE_CONTROL_VALUE: string := "public, max-age=31536000, immutable"

  /** The algorithm-version tag hashed into every ETag. */
  const ETAG_VERSION: string := "v1"

  const OK: nat := 200
  const NOT_MODIFIED: nat := 304

  /** The query parameters. */
  datatype ResizeParams = ResizeParams(width: Option<i32>, height: Option<i32>)

  /** The one configuration field the handler reads. */
  datatype Config = Config(imagesDirectory: string)

  /** A file modification time. */
  datatype SystemTime = SystemTime(secondsSinceEpoch: int, nanoseconds: nat)

  /** What `fs::metadata` reports: the modification time (which the platform may fail to give) and the length. */
  datatype Metadata = Metadata(modified: Result<SystemTime, string>, len: u64)

  /** The raw first value of each of the two request headers the handler reads, as `HeaderMap::get` returns it. */
  datatype RequestHeaders = RequestHeaders(accept: Option<seq<byte>>, ifNoneMatch: Option<seq<byte>>)

  /** One value fed to the hasher. */
  datatype HashItem =
    | HashTime(time: SystemTime)
    | HashU64(n: u64)
    | HashStr(s: string)
    | HashOptionI32(o: Option<i32>)

  /**
   * The handler's collaborators: the files whose metadata can be read (a
   * path outside `files` is one `fs::metadata` fails on), the hash the hasher
   * computes over the values fed to it, whether the permit pool is closed,
   * whether the blocking task fails to join, and libvips.
   */
  datatype Env = Env(
    files: map<string, Metadata>,
    hash: seq<HashItem> -> u64,
    semaphoreClosed: bool,
    joinError: Option<string>,
    lib: Vips)

  datatype HeaderName = ContentType | CacheControl | Vary | ETag

  datatype Response = Response(status: nat, headers: map<HeaderName, string>, body: seq<byte>)

  /** The handler's observable steps, in order. */
  datatype Step =
    | StatFile(path: string)
    | HashMetadata
    | AcquirePermit
    | SpawnTransform(options: ProcessOptions)

  /** The handler's result, the steps it reached, and the libvips calls the transform made. */
  datatype Outcome = Outcome(result: Result<Response, AppError>, trace: seq<Step>, vipsCalls: seq<VipsCall>)

  // ---------------------------------------------------------------------------
  // Format negotiation
  // ---------------------------------------------------------------------------

  /** The first row from index `i` on whose mime occurs in `accept`, or the default. */
  function FirstAccepted(accept: string, i: nat): (r: (string, string))
    requires i <= |PRIORITIZED_FORMATS|
    ensures r in PRIORITIZED_FORMATS
    decreases |PRIORITIZED_FORMATS| - i
  {
    if i == |PRIORITIZED_FORMATS| then DEFAULT_FORMAT
    else if Contains(accept, PRIORITIZED_FORMATS[i].1) then PRIORITIZED_FORMATS[i]
    else FirstAccepted(accept, i + 1)
  }

  /**
   * The (suffix, mime) pair chosen for an `Accept` header. It is always a
   * row of the table, so suffix and mime never mismatch.
   */
  function Negotiate(accept: Option<seq<byte>>): (r: (string, string))
    ensures r in PRIORITIZED_FORMATS
  {
    match accept
    case None => DEFAULT_FORMAT
    case Some(v) =>
      match ToStr(v)
      case None => DEFAULT_FORMAT
      case Some(text) => FirstAccepted(text, 0)
  }

  /** Row `k` is the highest-priority row whose mime occurs in `accept`. */
  predicate IsFirstMatch(accept: string, k: int)
  {
    && 0 <= k < |PRIORITIZED_FORMATS|
    && Contains(accept, PRIORITIZED_FORMATS[k].1)
    && forall j :: 0 <= j < k ==> !Contains(accept, PRIORITIZED_FORMATS[j].1)
  }

  predicate NoneMatch(accept: string)
  {
    forall j :: 0 <= j < |PRIORITIZED_FORMATS| ==> !Contains(accept, PRIORITIZED_FORMATS[j].1)
  }

  lemma {:induction false} FirstAcceptedFrom(accept: string, i: nat)
    requires i <= |PRIORITIZED_FORMATS|
    requires forall j :: 0 <= j < i ==> !Contains(accept, PRIORITIZED_FORMATS[j].1)
    ensures forall k :: IsFirstMatch(accept, k) ==> FirstAccepted(accept, i) == PRIORITIZED_FORMATS[k]
    ensures NoneMatch(accept) ==> FirstAccepted(accept, i) == DEFAULT_FORMAT
    ensures NoneMatch(accept) || exists k :: IsFirstMatch(accept, k)
    decreases |PRIORITIZED_FORMATS| - i
  {
    if i < |PRIORITIZED_FORMATS| {
      if Contains(accept, PRIORITIZED_FORMATS[i].1) {
        assert IsFirstMatch(accept, i);
      } else {
        FirstAcceptedFrom(accept, i + 1);
      }
    }
  }

  /**
   * With a readable `Accept` text, negotiation picks the first row, in the
   * order avif, webp, png, jpg, whose mime occurs in the text as a substring,
   * whatever later rows also occur; when no mime occurs it picks the default.
   * One of the two cases always applies.
   */
  lemma NegotiatePicksFirstMatch(v: seq<byte>, text: string)
    requires ToStr(v) == Some(text)
    ensures forall k :: IsFirstMatch(text, k) ==> Negotiate(Some(v)) == PRIORITIZED_FORMATS[k]
    ensures NoneMatch(text) ==> Negotiate(Some(v)) == DEFAULT_FORMAT
    ensures NoneMatch(text) || exists k :: IsFirstMatch(text, k)
  {
    FirstAcceptedFrom(text, 0);
  }

  /** An absent or unreadable `Accept` gives the default, jpg as `image/jpeg`. */
  lemma NegotiateDefault(accept: Option<seq<byte>>)
    requires accept.None? || ToStr(accept.value).None?
    ensures Negotiate(accept) == DEFAULT_FORMAT == (".jpg", "image/jpeg")
  {
  }

  /** AVIF wins whenever its mime occurs, even beside the others. */
  lemma AvifHasPriority(v: seq<byte>, text: string)
    requires ToStr(v) == Some(text) && Contains(text, "image/avif")
    ensures Negotiate(Some(v)) == (".avif", "image/avif")
  {
    assert IsFirstMatch(text, 0);
    NegotiatePicksFirstMatch(v, text);
  }

  /** The negotiation loop: scan the table in order and stop at the first mime the header contains. */
  method NegotiateFormat(accept: Option<seq<byte>>) returns (chosenFormat: string, chosenMime: string)
    ensures (chosenFormat, chosenMime) == Negotiate(accept)
  {
    chosenFormat, chosenMime := ".jpg", "image/jpeg";
    if accept.Some? {
      var text := ToStr(accept.value);
      if text.Some? {
        var i := 0;
        while i < |PRIORITIZED_FORMATS|
          invariant 0 <= i <= |PRIORITIZED_FORMATS|
          invariant forall j :: 0 <= j < i ==> !Contains(text.value, PRIORITIZED_FORMATS[j].1)
          invariant (chosenFormat, chosenMime) == DEFAULT_FORMAT
        {
          var (suffix, mime) := PRIORITIZED_FORMATS[i];
          if Contains(text.value, mime) {
            assert IsFirstMatch(text.value, i);
            chosenFormat, chosenMime := suffix, mime;
            break;
          }
          i := i + 1;
        }
        NegotiatePicksFirstMatch(accept.value, text.value);
      }
    }
  }

  // ---------------------------------------------------------------------------
  // ETag
  // ---------------------------------------------------------------------------

  /** The values fed to the hasher, in order: mtime, length, suffix, width, height, version tag. */
  function ETagInputs(mtime: SystemTime, len: u64, suffix: string, params: ResizeParams): seq<HashItem>
  {
    [HashTime(mtime), HashU64(len), HashStr(suffix), HashOptionI32(params.width), HashOptionI32(params.height),
     HashStr(ETAG_VERSION)]
  }

  /** `format!("\"{:x}\"", digest)`: the digest in lower-case hexadecimal between double quotes. */
  function Quoted(digest: u64): (etag: string)
    ensures |etag| >= 3 && etag[0] == '"' && etag[|etag| - 1] == '"'
    ensures etag[1..|etag| - 1] == LowerHex(digest)
  {
    "\"" + LowerHex(digest) + "\""
  }

  /** An ETag is a legal header value, so both responses always carry it. */
  lemma QuotedIsValidHeaderValue(digest: u64)
    ensures ValidHeaderValue(Quoted(digest))
    ensures NoEdgeWhitespace(Quoted(digest))
    ensures IsVisibleText(Quoted(digest))
  {
    var etag := Quoted(digest);
    RadixIsNumeral(digest, 16);
    forall i | 0 <= i < |etag|
      ensures ' ' <= etag[i] <= '~'
    {
      if 0 < i < |etag| - 1 {
        assert etag[i] == LowerHex(digest)[i - 1];
      }
    }
  }

  /** Distinct digests give distinct ETags: the quoting and hex formatting lose nothing. */
  lemma QuotedInjective(d1: u64, d2: u64)
    requires Quoted(d1) == Quoted(d2)
    ensures d1 == d2
  {
    var e := Quoted(d1);
    assert LowerHex(d1) == e[1..|e| - 1] == LowerHex(d2);
    RadixInjective(d1, d2, 16);
  }

  /** The hasher, fed one value at a time. */
  class Hasher {
    var written: seq<HashItem>

    constructor ()
      ensures written == []
    {
      written := [];
    }

    method Write(item: HashItem)
      modifies this
      ensures written == old(written) + [item]
    {
      written := written + [item];
    }

    /** The digest of everything written so far. */
    function Finish(hash: seq<HashItem> -> u64): u64
      reads this
    {
      hash(written)
    }
  }

  // ---------------------------------------------------------------------------
  // Conditional requests
  // ---------------------------------------------------------------------------

  /** `If-None-Match` is present, readable, and equal to the ETag once surrounding whitespace is trimmed. */
  predicate CacheHit(ifNoneMatch: Option<seq<byte>>, etag: string)
  {
    && ifNoneMatch.Some?
    && ToStr(ifNoneMatch.value).Some?
    && Trim(ToStr(ifNoneMatch.value).value) == etag
  }

  /**
   * A readable `If-None-Match` hits exactly when its text is the ETag with
   * nothing but whitespace around it; quotes are not stripped.
   */
  lemma CacheHitIffPadded(v: seq<byte>, digest: u64)
    requires ToStr(v).Some?
    ensures CacheHit(Some(v), Quoted(digest)) <==>
      exists pre, post :: AllWhitespace(pre) && AllWhitespace(post) && ToStr(v).value == pre + Quoted(digest) + post
  {
    var text := ToStr(v).value;
    var etag := Quoted(digest);
    QuotedIsValidHeaderValue(digest);
    TrimIsPadded(text);
    forall pre, post | AllWhitespace(pre) && AllWhitespace(post) && text == pre + etag + post
      ensures Trim(text) == etag
    {
      TrimOfPadded(pre, etag, post);
    }
  }

  /** Sending an ETag back as issued, padded with spaces or tabs, is a hit. */
  lemma EchoedETagHits(digest: u64, pre: string, post: string)
    requires forall i :: 0 <= i < |pre| ==> pre[i] == ' ' || pre[i] == '\t'
    requires forall i :: 0 <= i < |post| ==> post[i] == ' ' || post[i] == '\t'
    ensures IsAscii(pre + Quoted(digest) + post)
    ensures CacheHit(Some(AsciiBytes(pre + Quoted(digest) + post)), Quoted(digest))
  {
    var etag := Quoted(digest);
    QuotedIsValidHeaderValue(digest);
    VisibleTextConcat(pre, etag);
    VisibleTextConcat(pre + etag, post);
    ToStrOfAsciiBytes(pre + etag + post);
    TrimOfPadded(pre, etag, post);
  }

  /** A hex digest is visible text that begins with a digit and survives trimming. */
  lemma LowerHexIsVisibleText(n: nat)
    ensures IsVisibleText(LowerHex(n)) && IsDigitChar(LowerHex(n)[0])
    ensures Trim(LowerHex(n)) == LowerHex(n)
  {
    var hex := LowerHex(n);
    RadixIsNumeral(n, 16);
    forall i | 0 <= i < |hex|
      ensures ' ' <= hex[i] <= '~'
    {
      assert IsDigitChar(hex[i]);
    }
    TrimOfPadded([], hex, []);
    assert [] + hex + [] == hex;
  }

  /** The bare hex digest, without its quotes, never matches. */
  lemma UnquotedDigestMisses(digest: u64, other: u64)
    ensures IsAscii(LowerHex(other))
    ensures !CacheHit(Some(AsciiBytes(LowerHex(other))), Quoted(digest))
  {
    var hex := LowerHex(other);
    LowerHexIsVisibleText(other);
    ToStrOfAsciiBytes(hex);
    assert Quoted(digest)[0] != hex[0];
  }

  // ---------------------------------------------------------------------------
  // Responses
  // ---------------------------------------------------------------------------

  /** A header map filled by successive `insert` calls; a later insert replaces an earlier value. */
  class HeaderMap {
    var entries: map<HeaderName, string>

    constructor ()
      ensures entries == map[]
    {
      entries := map[];
    }

    method Insert(name: HeaderName, value: string)
      modifies this
      ensures entries == old(entries)[name := value]
    {
      entries := entries[name := value];
    }
  }

  /** The 304 answer: the ETag header if it is a legal header value, and an empty body. */
  function NotModified(etag: string): Response
  {
    Response(NOT_MODIFIED, if ValidHeaderValue(etag) then map[ETag := etag] else map[], [])
  }

  /** The 200 answer: content type, long-lived immutable caching, `Vary: Accept`, the ETag, and the image. */
  function Fresh(mime: string, etag: string, body: seq<byte>): Response
  {
    var headers := map[ContentType := mime, CacheControl := CACHE_CONTROL_VALUE, Vary := "Accept"];
    Response(OK, if ValidHeaderValue(etag) then headers[ETag := etag] else headers, body)
  }

  // ---------------------------------------------------------------------------
  // The handler
  // ---------------------------------------------------------------------------

  /** `{images_directory}/{id}.png`. */
  function SourcePath(config: Config, imageId: string): string
  {
    config.imagesDirectory + "/" + imageId + ".png"
  }

  /** `handle_image`, as a function of the request and its collaborators. */
  function Handle(config: Config, imageId: string, params: ResizeParams, headers: RequestHeaders, env: Env): Outcome
  {
    var sourcePath := SourcePath(config, imageId);
    if sourcePath !in env.files then Outcome(Err(NotFound), [StatFile(sourcePath)], [])
    else
      var metadata := env.files[sourcePath];
      var (suffix, mime) := Negotiate(headers.accept);
      match metadata.modified
      case Err(cause) => Outcome(Err(IoError(cause)), [StatFile(sourcePath)], [])
      case Ok(mtime) =>
        var etag := Quoted(env.hash(ETagInputs(mtime, metadata.len, suffix, params)));
        var validated := [StatFile(sourcePath), HashMetadata];
        if CacheHit(headers.ifNoneMatch, etag) then Outcome(Ok(NotModified(etag)), validated, [])
        else if env.semaphoreClosed then Outcome(Err(ServerBusy), validated, [])
        else
          var options := ProcessOptions(params.width, params.height, suffix);
          var dispatched := validated + [AcquirePermit, SpawnTransform(options)];
          match env.joinError
          case Some(cause) => Outcome(Err(UnexpectedError(cause)), dispatched, [])
          case None =>
            var processed := Process(env.lib, sourcePath, options);
            match processed.result
            case Err(e) => Outcome(Err(e), dispatched, processed.calls)
            case Ok(bytes) => Outcome(Ok(Fresh(mime, etag, bytes)), dispatched, processed.calls)
  }

  /** Feeds the six ETag inputs to a fresh hasher and quotes the digest. */
  method ComputeETag(mtime: SystemTime, len: u64, suffix: string, params: ResizeParams, hash: seq<HashItem> -> u64)
    returns (etag: string)
    ensures etag == Quoted(hash(ETagInputs(mtime, len, suffix, params)))
  {
    var hasher := new Hasher();
    hasher.Write(HashTime(mtime));
    hasher.Write(HashU64(len));
    hasher.Write(HashStr(suffix));
    hasher.Write(HashOptionI32(params.width));
    hasher.Write(HashOptionI32(params.height));
    hasher.Write(HashStr(ETAG_VERSION));
    assert hasher.written == ETagInputs(mtime, len, suffix, params);
    etag := Quoted(hasher.Finish(hash));
  }

  /** The 304 header map: the ETag alone, inserted only if it is a legal header value. */
  method BuildNotModified(etag: string) returns (response: Response)
    ensures response == NotModified(etag)
  {
    var cacheHeaders := new HeaderMap();
    if ValidHeaderValue(etag) {
      cacheHeaders.Insert(ETag, etag);
    }
    response := Response(NOT_MODIFIED, cacheHeaders.entries, []);
  }

  /** The 200 header map, inserted one header at a time. */
  method BuildFresh(mime: string, etag: string, body: seq<byte>) returns (response: Response)
    ensures response == Fresh(mime, etag, body)
  {
    var responseHeaders := new HeaderMap();
    responseHeaders.Insert(ContentType, mime);
    responseHeaders.Insert(CacheControl, CACHE_CONTROL_VALUE);
    responseHeaders.Insert(Vary, "Accept");
    if ValidHeaderValue(etag) {
      responseHeaders.Insert(ETag, etag);
    }
    response := Response(OK, responseHeaders.entries, body);
  }

  /**
   * `handle_image` step by step: the negotiation loop, the ETag, the early
   * returns, the permit and the transform, then the response.
   */
  method HandleImage(config: Config, imageId: string, params: ResizeParams, headers: RequestHeaders, env: Env)
    returns (outcome: Outcome)
    ensures outcome == Handle(config, imageId, params, headers, env)
  {
    var sourcePath := SourcePath(config, imageId);
    var trace := [StatFile(sourcePath)];
    if sourcePath !in env.files {
      return Outcome(Err(NotFound), trace, []);
    }
    var metadata := env.files[sourcePath];

    var chosenFormat, chosenMime := NegotiateFormat(headers.accept);

    if metadata.modified.Err? {
      return Outcome(Err(IoError(metadata.modified.error)), trace, []);
    }
    var etagValue := ComputeETag(metadata.modified.value, metadata.len, chosenFormat, params, env.hash);
    trace := trace + [HashMetadata];

    if headers.ifNoneMatch.Some? {
      var value := ToStr(headers.ifNoneMatch.value);
      if value.Some? && Trim(value.value) == etagValue {
        var notModified := BuildNotModified(etagValue);
        return Outcome(Ok(notModified), trace, []);
      }
    }

    if env.semaphoreClosed {
      return Outcome(Err(ServerBusy), trace, []);
    }
    trace := trace + [AcquirePermit];

    var options := ProcessOptions(params.width, params.height, chosenFormat);
    trace := trace + [SpawnTransform(options)];
    if env.joinError.Some? {
      return Outcome(Err(UnexpectedError(env.joinError.value)), trace, []);
    }
    var imageBytes, calls := ProcessImage(env.lib, sourcePath, options);
    if imageBytes.Err? {
      return Outcome(Err(imageBytes.error), trace, calls);
    }
    var response := BuildFresh(chosenMime, etagValue, imageBytes.value);
    outcome := Outcome(Ok(response), trace, calls);
  }

  // ---------------------------------------------------------------------------
  // Properties of the handler
  // ---------------------------------------------------------------------------

  /** The ETag for a source with modification time `mtime` and length `len`. */
  function RequestETag(env: Env, mtime: SystemTime, len: u64, headers: RequestHeaders, params: ResizeParams): string
  {
    Quoted(env.hash(ETagInputs(mtime, len, Negotiate(headers.accept).0, params)))
  }

  /** A source whose metadata cannot be read is NotFound (a 404), before negotiation, hashing or any permit. */
  lemma MissingSourceIsNotFound(config: Config, imageId: string, params: ResizeParams, headers: RequestHeaders, env: Env)
    requires SourcePath(config, imageId) !in env.files
    ensures var o := Handle(config, imageId, params, headers, env);
      && o == Outcome(Err(NotFound), [StatFile(SourcePath(config, imageId))], [])
      && IntoResponse(o.result.error).status == 404
      && ErrorField(IntoResponse(o.result.error), "code") == Some(JNumber(404))
  {
  }

  /** A source whose modification time cannot be read is a storage error, before hashing or any permit. */
  lemma UnreadableMtimeIsIoError(config: Config, imageId: string, params: ResizeParams, headers: RequestHeaders, env: Env)
    requires SourcePath(config, imageId) in env.files
    requires env.files[SourcePath(config, imageId)].modified.Err?
    ensures Handle(config, imageId, params, headers, env)
         == Outcome(Err(IoError(env.files[SourcePath(config, imageId)].modified.error)), [StatFile(SourcePath(config, imageId))], [])
  {
  }

  /**
   * A conditional hit is answered 304 with the ETag as its only header and an
   * empty body; no permit is taken, no transform is spawned, libvips is not called.
   */
  lemma NotModifiedShortCircuits(config: Config, imageId: string, params: ResizeParams, headers: RequestHeaders, env: Env,
                                 mtime: SystemTime, len: u64)
    requires SourcePath(config, imageId) in env.files
    requires env.files[SourcePath(config, imageId)] == Metadata(Ok(mtime), len)
    requires CacheHit(headers.ifNoneMatch, RequestETag(env, mtime, len, headers, params))
    ensures var o := Handle(config, imageId, params, headers, env);
      && o.result == Ok(Response(NOT_MODIFIED, map[ETag := RequestETag(env, mtime, len, headers, params)], []))
      && o.trace == [StatFile(SourcePath(config, imageId)), HashMetadata]
      && AcquirePermit !in o.trace
      && o.vipsCalls == []
  {
    QuotedIsValidHeaderValue(env.hash(ETagInputs(mtime, len, Negotiate(headers.accept).0, params)));
  }

  /** The handler answers 304 exactly when the source is readable and `If-None-Match` hits its ETag. */
  lemma NotModifiedIffHit(config: Config, imageId: string, params: ResizeParams, headers: RequestHeaders, env: Env)
    ensures var o := Handle(config, imageId, params, headers, env);
      var path := SourcePath(config, imageId);
      (o.result.Ok? && o.result.value.status == NOT_MODIFIED)
      <==> (&& path in env.files
            && env.files[path].modified.Ok?
            && CacheHit(headers.ifNoneMatch,
                        RequestETag(env, env.files[path].modified.value, env.files[path].len, headers, params)))
  {
  }

  /**
   * On a miss with a successful transform the answer is 200 with the
   * negotiated content type, the immutable caching directive, `Vary: Accept`
   * and the ETag, and the transformed bytes as body; the transform got the
   * query's width and height unchanged and the negotiated suffix.
   */
  lemma MissServesTransformedImage(config: Config, imageId: string, params: ResizeParams, headers: RequestHeaders,
                                   env: Env, mtime: SystemTime, len: u64, bytes: seq<byte>)
    requires SourcePath(config, imageId) in env.files
    requires env.files[SourcePath(config, imageId)] == Metadata(Ok(mtime), len)
    requires !CacheHit(headers.ifNoneMatch, RequestETag(env, mtime, len, headers, params))
    requires !env.semaphoreClosed && env.joinError.None?
    requires Process(env.lib, SourcePath(config, imageId),
                     ProcessOptions(params.width, params.height, Negotiate(headers.accept).0)).result == Ok(bytes)
    ensures var o := Handle(config, imageId, params, headers, env);
      var (suffix, mime) := Negotiate(headers.accept);
      && o.result == Ok(Response(OK, map[ContentType := mime, CacheControl := "public, max-age=31536000, immutable",
                                         Vary := "Accept", ETag := RequestETag(env, mtime, len, headers, params)], bytes))
      && o.trace == [StatFile(SourcePath(config, imageId)), HashMetadata, AcquirePermit,
                     SpawnTransform(ProcessOptions(params.width, params.height, suffix))]
  {
    QuotedIsValidHeaderValue(env.hash(ETagInputs(mtime, len, Negotiate(headers.accept).0, params)));
  }

  /** A closed permit pool is ServerBusy (a 503) and spawns no transform. */
  lemma ClosedPoolIsServerBusy(config: Config, imageId: string, params: ResizeParams, headers: RequestHeaders,
                               env: Env, mtime: SystemTime, len: u64)
    requires SourcePath(config, imageId) in env.files
    requires env.files[SourcePath(config, imageId)] == Metadata(Ok(mtime), len)
    requires !CacheHit(headers.ifNoneMatch, RequestETag(env, mtime, len, headers, params))
    requires env.semaphoreClosed
    ensures var o := Handle(config, imageId, params, headers, env);
      o == Outcome(Err(ServerBusy), [StatFile(SourcePath(config, imageId)), HashMetadata], [])
      && IntoResponse(o.result.error).status == 503
  {
  }

  /** A transform failure is the handler's failure, unchanged. */
  lemma TransformErrorPropagates(config: Config, imageId: string, params: ResizeParams, headers: RequestHeaders,
                                 env: Env, mtime: SystemTime, len: u64, e: AppError)
    requires SourcePath(config, imageId) in env.files
    requires env.files[SourcePath(config, imageId)] == Metadata(Ok(mtime), len)
    requires !CacheHit(headers.ifNoneMatch, RequestETag(env, mtime, len, headers, params))
    requires !env.semaphoreClosed && env.joinError.None?
    requires Process(env.lib, SourcePath(config, imageId),
                     ProcessOptions(params.width, params.height, Negotiate(headers.accept).0)).result == Err(e)
    ensures Handle(config, imageId, params, headers, env).result == Err(e)
  {
  }

  /**
   * Over all inputs: a transform is spawned only right after a permit was
   * acquired, only with the query's sizes and the negotiated suffix, and
   * never for a 304; libvips is called only under a permit, and only as the
   * transform of that request calls it.
   */
  lemma PermitOnlyOnMiss(config: Config, imageId: string, params: ResizeParams, headers: RequestHeaders, env: Env)
    ensures var o := Handle(config, imageId, params, headers, env);
      var options := ProcessOptions(params.width, params.height, Negotiate(headers.accept).0);
      && (forall i :: 0 <= i < |o.trace| && o.trace[i].SpawnTransform? ==>
            0 < i && o.trace[i - 1] == AcquirePermit && o.trace[i].options == options)
      && (AcquirePermit in o.trace ==> !(o.result.Ok? && o.result.value.status == NOT_MODIFIED))
      && (o.vipsCalls != [] ==>
            AcquirePermit in o.trace && o.vipsCalls == Process(env.lib, SourcePath(config, imageId), options).calls)
  {
  }

  /**
   * Every successful answer carries the ETag derived from exactly the source's
   * modification time and length, the negotiated suffix, the requested width
   * and height and the version tag.
   */
  lemma ResponseCarriesETag(config: Config, imageId: string, params: ResizeParams, headers: RequestHeaders, env: Env)
    requires Handle(config, imageId, params, headers, env).result.Ok?
    ensures SourcePath(config, imageId) in env.files && env.files[SourcePath(config, imageId)].modified.Ok?
    ensures var md := env.files[SourcePath(config, imageId)];
      var response := Handle(config, imageId, params, headers, env).result.value;
      ETag in response.headers && response.headers[ETag] == RequestETag(env, md.modified.value, md.len, headers, params)
  {
    var md := env.files[SourcePath(config, imageId)];
    QuotedIsValidHeaderValue(env.hash(ETagInputs(md.modified.value, md.len, Negotiate(headers.accept).0, params)));
  }

  /**
   * Repeating a successful request with `If-None-Match` set to the ETag it
   * returned gets 304 with an empty body, without a permit or a transform.
   */
  lemma RepeatWithETagIsNotModified(config: Config, imageId: string, params: ResizeParams, accept: Option<seq<byte>>,
                                    ifNoneMatch: Option<seq<byte>>, env: Env)
    requires Handle(config, imageId, params, RequestHeaders(accept, ifNoneMatch), env).result.Ok?
    ensures var first := Handle(config, imageId, params, RequestHeaders(accept, ifNoneMatch), env).result.value;
      && ETag in first.headers
      && IsAscii(first.headers[ETag])
      && var again := Handle(config, imageId, params, RequestHeaders(accept, Some(AsciiBytes(first.headers[ETag]))), env);
         && again.result == Ok(Response(NOT_MODIFIED, map[ETag := first.headers[ETag]], []))
         && AcquirePermit !in again.trace
         && again.vipsCalls == []
  {
    var headers := RequestHeaders(accept, ifNoneMatch);
    ResponseCarriesETag(config, imageId, params, headers, env);
    var md := env.files[SourcePath(config, imageId)];
    var mtime := md.modified.value;
    var digest := env.hash(ETagInputs(mtime, md.len, Negotiate(accept).0, params));
    EchoedETagHits(digest, [], []);
    assert [] + Quoted(digest) + [] == Quoted(digest);
    var repeated := RequestHeaders(accept, Some(AsciiBytes(Quoted(digest))));
    assert RequestETag(env, mtime, md.len, repeated, params) == Quoted(digest);
    NotModifiedShortCircuits(config, imageId, params, repeated, env, mtime, md.len);
  }
}
