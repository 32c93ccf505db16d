# artifact-download-page, modelled in Dafny

The server lets a browser list the build artifacts of one repository and download
them. Two handlers hold the logic that is modelled here:

- `GET /api/artifacts` asks upstream for completed artifacts and for in-progress
  workflow runs. It turns every run into a pending placeholder (`id = "run-<run id>"`,
  size 0, not expired, `is_pending` set). It puts the placeholders in front of the
  artifacts, sorts the whole list latest first by `created_at` and keeps the first
  `limit` items. A failed upstream call is answered with the upstream status, or with
  500 when there is none.
- `GET /api/download/:id` works in one of two modes. Redirect mode (the default)
  sends the browser to the signed URL in the upstream `Location` header. Proxy mode,
  chosen only by the exact setting `proxy`, sets `Content-Type`,
  `Content-Disposition` and, for a non-zero size, `Content-Length`, then relays the
  zip. Every failure is a 500 with the message "Failed to retrieve download link".

Files and modules:

- `wrappers.dfy` (`Wrappers`): `Option`, `Result`, and the `x || default` reading of
  a missing value.
- `decimal.dfy` (`Decimal`): how a non-negative safe integer prints in a template
  literal or a header, with its inverse.
- `percent_encoding.dfy` (`PercentEncoding`): `encodeURIComponent` on Unicode
  scalar values (UTF-8 octets, upper-case hex). Also the `value-chars` grammar of
  section 3.2.1 of RFC 8187 and a percent-decoder.
- `upstream.dfy` (`Upstream`): an upstream failure and the status it reports.
- `artifact_list.dfy` (`ArtifactList`): the listing handler. The sort is an in-place
  insertion sort on an array, because `Array.prototype.sort` works in place. The
  result is specified as "the first `limit` items of some newest-first permutation
  of the placeholders followed by the artifacts".
- `artifact_download.dfy` (`ArtifactDownload`): mode choice, redirect target, proxy
  headers, Node's check on header values and the download handler. The
  `Content-Disposition` header comes in two styles, `AsWritten` (what the code
  builds) and `Corrected` (see Findings). `Download(AsWritten, ...)` is the handler
  as the code has it.

Upstream calls are not performed. Each handler takes as input what those calls
returned. Timestamps are integers that have already been parsed. Falsy JavaScript
values are modelled where the code tests them:

- a run name that is absent or `""` becomes `'Building...'`;
- a status of 0 becomes 500;
- an empty `DOWNLOAD_MODE` means redirect;
- an empty `Location` is an error;
- a size of 0 means no `Content-Length`.

An upstream artifact's `is_pending` field is absent, and the model writes that as
`false`. The code fetches only runs with status `in_progress`, although the comment
on line 39 also mentions `queued`. The model follows the code: it takes the runs
list it is given and filters nothing.

## Model

| member | source | states |
|---|---|---|
| `ArtifactList.PendingItemName` | server.js:58 | the placeholder name is the run's name when present and non-empty, and `Building...` otherwise |
| `ArtifactList.PendingItem` | server.js:56-64 | the placeholder for a run has id `"run-" + decimal(run.id)`, the run's name or `Building...`, the run's `created_at`, size 0, not expired, `is_pending`, and `workflow_run.id = run.id` |
| `ArtifactList.PendingItems` | server.js:56-64 | one placeholder per run, in order; each has id `"run-" + decimal(run.id)`, the run's name or `Building...`, the run's `created_at`, size 0, not expired, `is_pending`, and `workflow_run.id = run.id` |
| `ArtifactList.PendingIdNamesRun` | server.js:57 | a placeholder id starts with `run-`, and the run id can be read back from the rest of it |
| `ArtifactList.PendingIdsDistinct` | server.js:57 | runs with different ids get different placeholder ids |
| `ArtifactList.Merged` | server.js:52-67 | the merged list holds one placeholder per run, in run order, followed by the artifacts unchanged; a missing array counts as empty |
| `ArtifactList.MissingArraysAreEmpty` | server.js:52-53 | a missing `artifacts` or `workflow_runs` array gives the same merged list as an empty one |
| `ArtifactList.SortNewestFirst` | server.js:67-69 | after the in-place sort the array is ordered by `created_at`, newest first, and is a permutation of its old contents |
| `ArtifactList.ShapeList` | server.js:52-72 | the result is the first `min(limit, \|runs\| + \|artifacts\|)` items of some newest-first permutation of placeholders followed by artifacts |
| `ArtifactList.NewestFirstPrefixFacts` | server.js:67-72 | such a result is sorted, has at most `limit` items (and exactly `limit` unless every item fits), invents and duplicates no item, and no left-out item is newer than a kept one |
| `ArtifactList.ArrangementUnique` | server.js:67-69 | a newest-first permutation is unique when the timestamps are pairwise distinct |
| `ArtifactList.PrefixDetermined` | server.js:67-72 | with pairwise distinct timestamps the listed items are exactly the first `limit` of the one strictly newest-first order |
| `ArtifactList.InterleavingExample` | server.js:56-72 | runs started at 50 and 25 with artifacts created at 40 and 20 list as run, artifact, run, artifact under the default limit of 10 |
| `ArtifactList.TruncationExample` | server.js:67-72 | with a limit of 2 the same inputs keep only the newer run and the newer artifact |
| `ArtifactList.ListArtifacts` | server.js:50-88 | both calls fulfilled gives the shaped list; a rejected call gives an error with status `ErrorStatus`, message "Failed to fetch artifacts" and the upstream body as details |
| `Upstream.ErrorStatus` | server.js:88 | the reported status is the upstream status when a response with a non-zero status exists, 500 otherwise, never 0 |
| `Upstream.ErrorDetails` | server.js:88 | the details are the upstream response body, and absent when no response arrived |
| `Decimal.NatToDecimal` | server.js:57 | a number renders (as in the placeholder id, and in `Content-Length` at line 130) as a non-empty string of decimal digits without a leading zero (except `0` itself) |
| `Decimal.DecimalRoundTrip` | server.js:57 | reading back the decimal rendering of a number gives that number |
| `Decimal.NatToDecimalInjective` | server.js:57 | different numbers never render to the same text |
| `ArtifactDownload.ModeOf` | server.js:95-98 | proxy mode exactly when the setting is the string `proxy`; redirect mode for every other value, including none |
| `ArtifactDownload.RedirectTarget` | server.js:138-153 | succeeds exactly when upstream answered 200-399 with a non-empty `Location`, and returns that value; a missing or empty `Location` after an accepted status is the no-redirect-location error |
| `ArtifactDownload.AsciiFallback` | server.js:126-128 | the fallback name has the length of the name, consists of quoted-string text only, and keeps exactly those characters of the name that are such text |
| `ArtifactDownload.ContentDisposition` | server.js:126-128 | Node accepts the header exactly when it is the corrected one or the raw name passes Node's header-character check |
| `ArtifactDownload.ProxyHeaders` | server.js:125-131 | `Content-Type` is `application/zip`; `Content-Disposition` is the attachment header of the chosen style; `Content-Length` is present iff the size is non-zero and then reads back as the size; no other header; Node accepts all of them iff it accepts the name (always, in the corrected style) |
| `ArtifactDownload.ContentDispositionParts` | server.js:127-128 | both styles begin `attachment; filename="<quoted name>.zip"; filename*=UTF-8''`, and the rest percent-decodes to the UTF-8 octets of `<name>.zip`; in the corrected style the quoted name is plain quoted text and the rest is RFC 8187 value-chars |
| `ArtifactDownload.ContentDispositionAgrees` | server.js:127-128 | for a name of printable ASCII without `"`, `\`, `*`, `'`, `(` or `)` the corrected header equals the header the code writes |
| `ArtifactDownload.ContentDispositionAsWrittenInvalid` | server.js:127-128 | for the name `a'` the extended filename the code writes is not RFC 8187 value-chars |
| `ArtifactDownload.Download` | server.js:93-160 | every failure is 500 "Failed to retrieve download link"; redirect mode redirects iff `RedirectTarget` succeeds, to the upstream `Location`, and never sends an attachment; proxy mode sends an attachment iff metadata and zip requests both succeed and Node accepts the headers, with `ProxyHeaders` of the metadata, and never redirects |
| `ArtifactDownload.NonLatin1NameFails` | server.js:126-128 | proxy mode with the artifact name `日` answers 500 (the catch at lines 156-159) although both upstream calls succeeded; the corrected header sends the attachment |
| `PercentEncoding.Encode` | server.js:127 | the encoding of any text is visible ASCII and at least as long as the text |
| `PercentEncoding.DecodeEncode` | server.js:127 | percent-decoding the output of either encoder gives back the UTF-8 octets of the input |
| `PercentEncoding.ExtValueEncodingIsValueChars` | server.js:127 | the corrected encoder always produces RFC 8187 value-chars |
| `PercentEncoding.EncodersAgree` | server.js:127 | the two encoders agree on text without `*`, `'`, `(` or `)` |
| `PercentEncoding.EncodeKeepsUnreserved` | server.js:127 | text made only of characters the encoder keeps is left unchanged |
| `PercentEncoding.UriComponentNotValueChars` | server.js:127 | `encodeURIComponent("a'.zip")` is `a'.zip`, which is not RFC 8187 value-chars |

## Findings

| source | as written | input that shows it | evidently intended | confidence | as-written member | corrected member |
|---|---|---|---|---|---|---|
| server.js:127-128 | `filename*=UTF-8''` is followed by `encodeURIComponent(name + '.zip')`, which leaves `*`, `'`, `(` and `)` unescaped; section 3.2.1 of RFC 8187 allows none of them in an ext-value | artifact name `a'` gives `filename*=UTF-8''a'.zip` | the extended filename is a valid RFC 8187 ext-value, so those four characters are percent-encoded too | medium, not executed (many clients accept the malformed value) | `ArtifactDownload.ContentDispositionAsWrittenInvalid` | `ArtifactDownload.ContentDispositionParts` |
| server.js:126-128 | the raw name goes into `filename="..."`, although the comment says the encoding is there to handle special characters; Node's `setHeader` throws for any character above U+00FF, and the handler then answers 500; a `"` in the name also ends the quoted string early | artifact name `日` with both upstream calls succeeding gives 500 "Failed to retrieve download link" | the quoted name is an ASCII fallback (section 4.3 of RFC 6266), and the exact name travels only in `filename*` | medium, not executed | `ArtifactDownload.NonLatin1NameFails` | `ArtifactDownload.ContentDisposition` |

The model keeps both styles. `Download(AsWritten, ...)` is the handler as written;
`Download(Corrected, ...)` is the handler with both corrections.
`ArtifactDownload.ContentDispositionAgrees` shows that the two styles write the same
header for every name of printable ASCII without `"`, `\`, `*`, `'`, `(` or `)`.

## Left out

- HTTP plumbing is not modelled: Express routing, static file serving, `app.listen`
  and the axios requests (server.js:20, 28-48, 102-122, 138-149, 163-167). They are
  network I/O. Their outcomes are inputs to `ListArtifacts` and `Download`.
- `Promise.all` (server.js:50) is reduced to its settled outcome: both calls
  fulfilled, or one rejected. Which rejection wins a race is not modelled.
- Relaying the zip (`response.data.pipe(res)`, server.js:133) is left out, and so is
  client-disconnect handling. The bytes are not modelled, only the headers.
- Environment loading, `process.exit` on missing configuration and all
  `console.error` diagnostics (server.js:1, 7-17, 76-86, 157-158) are left out
  because they have no effect on responses.
- `new Date(...)` parsing of `created_at` and its NaN behaviour (server.js:68) are
  left out. Timestamps are integers.
- `ARTIFACT_LIMIT` string coercion (server.js:25, 72) is left out. `limit` is a
  natural number.
- The `per_page` caps (the artifact limit, and 5 runs) are applied by upstream
  (server.js:29, 41). The model accepts lists of any length.
- Upstream artifact objects are passed through with all their fields. The model
  keeps only the seven fields that the placeholders also have.
- Missing `name` or `size_in_bytes` in the artifact metadata (server.js:109-110) is
  left out. Metadata always carries a name and a natural-number size.
- A name holding a lone UTF-16 surrogate (a JSON `\uD800`) is not modelled. For it
  `encodeURIComponent` throws a URIError and the handler answers 500. Dafny
  characters are Unicode scalar values, so the model cannot express such a name.
- Only the status and message of a failed download are modelled, not its headers.
  When Node refuses `Content-Disposition`, `Content-Type: application/zip` has
  already been set, and the 500 JSON body goes out under it.
- `Decimal.NatToDecimal`: ids and sizes are assumed to be safe integers, below 2^53.
  JavaScript prints numbers of 10^21 and above in exponent form, and it cannot hold
  every integer above 2^53 exactly; the model renders every natural number in plain
  digits.
- `ArtifactList.ShapeList`: does not promise any order among items with equal
  timestamps. The code does not rely on one, although JavaScript's sort is stable.
- `ArtifactList.SortNewestFirst`: does not promise stability, for the same reason.
- Node's check on header names, and its check that the value is not `undefined`,
  are not modelled. Every header name here is a constant, and every value is
  defined.
