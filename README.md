# image-converter: a Dafny model of the request path

This project models the request path of the image-converter web service.

The service answers `GET /images/{id}?width=&height=` with the source PNG
`{images_directory}/{id}.png`, converted to the best format the client's
`Accept` header allows. Each answer carries an ETag. A repeated request whose
`If-None-Match` carries that ETag is answered `304 Not Modified` before any
conversion work starts.

The model has three parts, one per source file:

- `Handlers` (src/web/handlers.rs):
  - resolve the source path, and map a missing file to `NotFound`;
  - negotiate the format by walking the priority table avif, webp, png, jpg;
  - feed the six ETag inputs to a hasher and quote the hex digest;
  - compare the trimmed `If-None-Match` value with the ETag;
  - return 304 early, or take a permit, run the transform and build the 200 header map.
- `ImageProcessing` (src/domain/image_processing.rs):
  - the 5000-pixel input ceiling and the 4000-pixel output ceiling;
  - the width-before-height choice;
  - the rule that an image is only ever shrunk;
  - the save string for each format.
- `AppErrors` (src/error.rs): the status, message and JSON body for each error.

Two helper modules support these:

- `Text` holds the parts of Rust's `str` and of the `http` crate that the handler relies on:
  - substring search (`contains`);
  - `trim` over Unicode White_Space;
  - `{:x}` and `{}` number formatting;
  - `HeaderValue::to_str`, which accepts visible ASCII and tab;
  - the validity test in `HeaderValue::from_str`.
- `Base` holds the integer types and the `Option` and `Result` datatypes.

Each imperative part of the source appears as a method, proved equal to a specification function:

| Method | What it does | Specification function |
|---|---|---|
| `NegotiateFormat` | the `for` loop with `break` | `Negotiate` |
| `ComputeETag` | feeds a `Hasher` object step by step | `Quoted` |
| `BuildNotModified`, `BuildFresh` | fill a `HeaderMap` object insert by insert | `NotModified`, `Fresh` |
| `ProcessImage` | reassigns `image` | `Process` |
| `HandleImage` | the whole handler | `Handle` |

The properties are lemmas about those specification functions.

Collaborators the model cannot see are inputs to it:

- The filesystem is a map from path to `Metadata`. The metadata holds a modification time, which may fail to be read, and a length.
- The `DefaultHasher` digest is a function of the sequence of values fed to it.
- The permit pool may be closed.
- The blocking task may fail to join.
- Each libvips operation is a total function that returns an image, bytes, or the library's error text.

The handler returns an `Outcome`, which holds:

- the result;
- the trace of steps it reached (stat, hash, permit, spawn);
- the libvips calls made, in order.

This is how the model can state that a 304 never reaches the permit or the transform.

The model follows the code in these places:

- **Quotes are not stripped.** The code trims whitespace from `If-None-Match` and then compares it with the quoted ETag. Quotes are not stripped. The model follows the code: a bare digest never matches (`UnquotedDigestMisses`).
- **An unreadable modification time is a storage error.** When the file exists but its modification time cannot be read, the code's `?` turns the failure into a storage error (500). The model does the same (`UnreadableMtimeIsIoError`).
- **Heights are rejected with the width message.** The source rejects a too-large height with the text "Requested width (…) exceeds the limit of 4000". The model keeps that wording (`HeightCeiling`).

## Model

| member | source | states |
|---|---|---|
| AppErrors.IntoResponse | src/error.rs:33-65 | client variants get a 4xx status and server variants a 5xx one; the body's `error.code` equals the status; `error.type` is the status's reason phrase, never the "Unknown" fallback; `error.message` is the variant's message, and for a validation error it is the caller's text verbatim |
| AppErrors.ErrorBodyMembers | src/error.rs:56-62 | the JSON body is an object whose `error` member holds `code`, `type` and `message` with the given values |
| AppErrors.ResponseTable | src/error.rs:35-53 | NotFound gives 404 "Image not found"; ValidationError(msg) gives 400 msg; ServerBusy gives 503 "Server is busy (Semaphore timeout)"; IoError, VipsError and UnexpectedError give 500 "Storage error", "Image Processing Failed" and "Internal Server Error" |
| AppErrors.OnlyValidationForwardsText | src/error.rs:35-53 | every variant except ValidationError has one of five fixed messages |
| AppErrors.NoCauseLeak | src/error.rs:41-52 | two server errors of one variant with different causes give identical responses, so no cause reaches the client |
| ImageProcessing.EncoderOptions | src/domain/image_processing.rs:69-80 | the save string starts with the suffix; it is ".avif[Q=50,speed=6]" for avif and ".webp[Q=75]" for webp; it equals the suffix exactly when the suffix is neither of those |
| ImageProcessing.ProcessImage | src/domain/image_processing.rs:26-87 | the step-by-step transform gives the result and libvips call sequence of `Process` |
| ImageProcessing.DecimalCeilings | src/domain/image_processing.rs:6-7 | the two ceilings print in decimal as "5000" and "4000" |
| ImageProcessing.CeilingMessages | src/domain/image_processing.rs:35-47 | the rejection texts are "Image exceed the max allowed size of 5000x5000" and, for every target N, "Requested width (N) exceeds the limit of 4000" |
| ImageProcessing.InputCeiling | src/domain/image_processing.rs:31-39 | a source over 5000 in either dimension is a validation error whatever the options, and no libvips call follows the open |
| ImageProcessing.InputCeilingInclusive | src/domain/image_processing.rs:34 | a source of at most 5000 by 5000 is never refused as too large |
| ImageProcessing.WidthCeiling | src/domain/image_processing.rs:43-48 | a width over 4000 is a validation error naming it, and no libvips call follows the open |
| ImageProcessing.WidthIgnoresHeight | src/domain/image_processing.rs:43-54 | when a width is given, any height, or none, gives the same result and calls |
| ImageProcessing.WidthShrinks | src/domain/image_processing.rs:50-53 | a permitted width below the source width makes exactly one thumbnail call, and its output is what gets encoded; a thumbnail failure is a libvips error |
| ImageProcessing.WidthNoUpscale | src/domain/image_processing.rs:50 | a width at or above the source width encodes the source unchanged, with no resize call |
| ImageProcessing.HeightCeiling | src/domain/image_processing.rs:54-59 | with no width, a height over 4000 is a validation error, and its text still begins "Requested width (" |
| ImageProcessing.HeightShrinks | src/domain/image_processing.rs:61-65 | with no width, a permitted height below the source height makes exactly one resize from the source height to the target height, and its output is what gets encoded |
| ImageProcessing.HeightNoUpscale | src/domain/image_processing.rs:54-66 | with no width, a height at or above the source height, or no height, encodes the source unchanged |
| ImageProcessing.CallsShrinkAtMostOnce | src/domain/image_processing.rs:26-87 | for all inputs: the open comes first; at most one resizing call is made, right after it, and it always shrinks; the source is opened only once; an encode can only be the last call, and a success ends with it, using the suffix's save string |
| Handlers.FirstAccepted | src/web/handlers.rs:53-59 | the scan from any row on returns a row of the priority table |
| Handlers.Negotiate | src/web/handlers.rs:48-60 | the chosen (suffix, mime) is always one row of the table, so the two never mismatch |
| Handlers.FirstAcceptedFrom | src/web/handlers.rs:53-59 | if no earlier row matched, the scan returns the first matching row, or the default when no mime occurs |
| Handlers.NegotiatePicksFirstMatch | src/web/handlers.rs:22-27 | with readable `Accept` text, the result is the highest-priority row whose mime occurs as a substring, whatever later rows also occur; with no such row it is (".jpg", "image/jpeg") |
| Handlers.NegotiateDefault | src/web/handlers.rs:48-52 | an absent or unreadable `Accept` gives (".jpg", "image/jpeg") |
| Handlers.AvifHasPriority | src/web/handlers.rs:22-27 | whenever "image/avif" occurs in the header, avif is chosen |
| Handlers.NegotiateFormat | src/web/handlers.rs:48-60 | the loop with `break` gives the pair `Negotiate` specifies |
| Handlers.Quoted | src/web/handlers.rs:71 | the ETag is the lower-case hex digest between double quotes |
| Handlers.QuotedIsValidHeaderValue | src/web/handlers.rs:79-81 | every ETag is a legal header value of visible ASCII with no edge whitespace, so the insert of the ETag header always happens |
| Handlers.QuotedInjective | src/web/handlers.rs:71 | distinct digests give distinct ETags |
| Handlers.Hasher.constructor | src/web/handlers.rs:63 | a new hasher has been fed nothing |
| Handlers.Hasher.Write | src/web/handlers.rs:64-69 | feeding a value appends it to what the hasher has been fed |
| Handlers.ComputeETag | src/web/handlers.rs:62-71 | feeding mtime, length, suffix, width, height and "v1" in that order and quoting the digest gives `Quoted` of the hash of exactly those inputs |
| Handlers.CacheHitIffPadded | src/web/handlers.rs:74-76 | readable `If-None-Match` text hits exactly when it is the quoted ETag with only whitespace around it |
| Handlers.EchoedETagHits | src/web/handlers.rs:74-76 | an ETag sent back as issued, padded with spaces or tabs, is a hit |
| Handlers.LowerHexIsVisibleText | src/web/handlers.rs:71 | a hex digest is visible ASCII that starts with a digit and is unchanged by trimming |
| Handlers.UnquotedDigestMisses | src/web/handlers.rs:76 | a bare digest without quotes never hits |
| Handlers.HeaderMap.constructor | src/web/handlers.rs:78 | a new header map is empty |
| Handlers.HeaderMap.Insert | src/web/handlers.rs:111-123 | an insert sets one header and replaces any earlier value of it |
| Handlers.BuildNotModified | src/web/handlers.rs:78-87 | the 304's header map holds the ETag alone, set only if it is a legal value, and the body is empty |
| Handlers.BuildFresh | src/web/handlers.rs:111-130 | the 200 has the content type, the caching directive, `Vary: Accept`, the ETag if legal, and the bytes |
| Handlers.HandleImage | src/web/handlers.rs:38-132 | the step-by-step handler gives the result, step trace and libvips calls of `Handle` |
| Handlers.MissingSourceIsNotFound | src/web/handlers.rs:44-46 | a path `{dir}/{id}.png` with no metadata is NotFound, which renders as 404, before negotiation, hashing or any permit |
| Handlers.UnreadableMtimeIsIoError | src/web/handlers.rs:64 | an unreadable modification time is a storage error, before hashing or any permit |
| Handlers.NotModifiedShortCircuits | src/web/handlers.rs:73-90 | on a hit the answer is 304 whose header map holds the ETag alone, with an empty body; no permit is taken and no libvips call is made |
| Handlers.NotModifiedIffHit | src/web/handlers.rs:73-90 | the handler answers 304 exactly when the source's metadata is readable and `If-None-Match` hits its ETag |
| Handlers.MissServesTransformedImage | src/web/handlers.rs:92-130 | on a miss with a successful transform the answer is 200 with the negotiated mime, "public, max-age=31536000, immutable", `Vary: Accept`, the ETag and the transformed bytes; the transform got the query's width and height unchanged and the negotiated suffix |
| Handlers.ClosedPoolIsServerBusy | src/web/handlers.rs:94 | a closed permit pool on a miss is ServerBusy, which renders as 503, and nothing is spawned |
| Handlers.TransformErrorPropagates | src/web/handlers.rs:104-108 | a transform failure is the handler's error, unchanged |
| Handlers.PermitOnlyOnMiss | src/web/handlers.rs:92-108 | for all inputs: a spawn always directly follows a permit and carries the query's sizes and the negotiated suffix; a permit never precedes a 304; libvips is called only under a permit, as the transform of that request |
| Handlers.ResponseCarriesETag | src/web/handlers.rs:62-124 | every success carries the ETag of exactly the source's mtime and length, the negotiated suffix, the width, the height and "v1" |
| Handlers.RepeatWithETagIsNotModified | src/web/handlers.rs:73-90 | repeating a successful request with `If-None-Match` set to its ETag gives 304 with an empty body, no permit and no libvips call |
| Text.ContainsIsSubstring | src/web/handlers.rs:54 | `contains` holds exactly when the needle occurs at some index |
| Text.TrimIsPadded | src/web/handlers.rs:76 | `trim` gives a string with no whitespace at either edge, and the input is that string with only whitespace around it |
| Text.TrimOfPadded | src/web/handlers.rs:76 | trimming a string with no edge whitespace, padded with whitespace, gives back the string |
| Text.RadixIsNumeral | src/web/handlers.rs:71 | `{:x}` formatting gives a non-empty run of digits with no leading zero except for 0 itself |
| Text.ParseRadixInverse | src/web/handlers.rs:71 | reading the formatted digits back gives the number |
| Text.RadixInjective | src/web/handlers.rs:71 | distinct numbers format differently |
| Text.ToStr | src/web/handlers.rs:51-52 | `to_str` succeeds exactly when every byte is visible ASCII or tab, and then returns the text of those bytes |
| Text.ToStrOfAsciiBytes | src/web/handlers.rs:75 | header bytes made from visible text read back as that text |

## Left out

- The permit pool, `spawn_blocking` and the 5-second request timeout are not modelled as concurrency. The pool is an input saying whether it is closed. A join failure is an input. A timeout is not modelled; it is configured in src/web/mod.rs, which is not part of this model.
- When the blocking task fails to join, the model records no libvips calls, because it cannot say how far the task got.
- libvips decoding, `thumbnail_image`, `resize` and `image_write_to_buffer` are opaque functions of the image and their arguments. The model does not describe their output beyond what the functions return.
- The `f64` scale in the height resize is not computed. `resize` receives the target height and the source height whose quotient it is.
- The `DefaultHasher` algorithm is opaque: the digest is a function of the values fed to it. Nothing is claimed about collisions.
- Reading the filesystem is an input: a map from path to metadata. A path missing from the map stands for any `fs::metadata` failure.
- `tracing` logging in src/error.rs and src/web/handlers.rs has no observable effect on the response and is not modelled.
- The `Display` texts of `AppError` are not modelled; they never reach a response.
- Query-string parsing by axum is not modelled. A width or height that does not parse as `i32` is rejected before the handler runs.
- Headers: `Response.headers` is the header map the handler builds. Headers that axum adds when it converts the (status, headers, body) tuple, such as the `content-type` of the byte body, and headers added by the middleware in src/web/mod.rs are not modelled.
- Reason phrases: `CanonicalReason` lists only the statuses this service produces (200, 304, 400, 404, 500, 503). In the model, every other status gives the "Unknown" fallback.
- src/config.rs, src/main.rs, src/web/mod.rs and src/domain/mod.rs are not part of this model. They cover environment variables, start-up, routing and middleware, and the libvips cache settings.
