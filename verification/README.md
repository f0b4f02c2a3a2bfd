# HTML-to-DOCX image pass, modelled in Dafny

This project models the backend core of a small HTML-to-DOCX converter. The
core is the image extraction and rewrite pass `processImages` in
`routes.js`. It walks the `img` elements of a parsed HTML document in
document order. For each element whose `src` is a `data:image/` URI, it takes
the base64 payload, decodes it, re-encodes it as PNG and writes it under a
generated `<uuid>.png` name in an output directory. It then points the node's
`src` at the written file and appends `/out_images/<uuid>.png` to the list it
returns. After each stored image it logs the progress figure
`processed / total * 100`. A failure anywhere inside one image's `try` block
skips that image and the pass carries on.

The model also covers the four POST handlers around the pass:

- `/convert` and `/upload` turn HTML into a DOCX file.
- `/upload-images` returns the extracted image paths as JSON.
- `/base64-to-png` converts one data URI to a PNG file.

For these handlers the model covers their checks and the order in which they
make them.

Modules:

- `Wrappers`: `Option`, standing for JavaScript's `undefined`/`null`.
- `JsText`: `startsWith`, `split` on one character (with its inverse `Join`),
  and `SecondSegment`, the `split(',')[1]` idiom.
- `Progress`: a progress report as the integer pair `(processed, total)` and
  its exact percentage.
- `ImageRewrite`: the pass as a left fold (`Step`, `Run`, `ProcessImages`)
  over the `img` nodes. It is parameterised by `Effects`, which holds the
  base64 decoder, the PNG re-encoder, the name supply (`uuid(k)` is the k-th
  call to `uuidv4()`), `path.join` and the file write.
  `OutcomeAt`/`NamesBefore`/`StoredBefore` describe the same pass one node at
  a time, and lemmas connect the two descriptions.
- `ImageFacts`: properties of the pass. They cover:
  - untouched nodes and failure containment;
  - pairing of generated names;
  - counts and progress;
  - distinct paths, given a name supply that never repeats.
- `ImageSkip`: deleting a node that failed without drawing a name leaves the
  returned paths, the processed count and the other nodes unchanged; only the
  progress totals drop by one.
- `ImageLoop`: the pass written as the source's imperative loop. It is proved
  equal to the fold.
- `Routes`: the handlers as functions from the request field and an `Env` to
  a `Response`.

On these points the model follows the code's literal behaviour:

- The payload is the text strictly between the first and second comma, as
  `split(',')[1]` gives it, not "everything after the first comma".
- `processedImages` counts stored images only. It does not count attempted
  ones. The progress denominator is the number of all `img` nodes, including
  ordinary ones. As a result the last report stays below 100% whenever the
  document has an ordinary image (`ImageFacts.OrdinaryImageCapsProgress`).
- The percentage is not floored. The code logs `processed / total * 100` with
  two decimals.
- `/upload` and `/upload-images` do not reject an empty file. Only `/convert`
  answers 400 for empty HTML.
- A generated name is used up as soon as the PNG re-encoding succeeds, even
  when the write that follows fails. This is because `uuidv4()` runs before
  `writeFileSync`.

## Model

| member | source | states |
|---|---|---|
| JsText.SplitSingle | routes.js:44 | `split(',')` yields exactly one part, the whole string, iff the string has no comma |
| JsText.SplitPartsFree | routes.js:44 | no part of `split(',')` contains the separator |
| JsText.JoinSplit | routes.js:44 | joining the parts of a split with the separator gives back the original string |
| JsText.SplitJoin | routes.js:44 | splitting a join of separator-free parts gives back the parts |
| JsText.SplitCount | routes.js:44 | a split has one more part than the string has separators |
| JsText.SecondSegment | routes.js:44 | `split(',')[1]` is defined iff the string contains a comma, and it is comma-free and shorter than the string |
| JsText.SecondSegmentBetweenCommas | routes.js:44 | the payload is exactly the text strictly between the first comma and the next comma or the end of the string |
| JsText.SecondSegmentOfDataUri | routes.js:44 | on `data:image/png;base64,QUJD` the payload is `QUJD` |
| JsText.SecondSegmentStopsAtComma | routes.js:172 | on `a,b,c` the payload is `b`: text after a second comma is dropped |
| JsText.SecondSegmentEmpty | routes.js:172-173 | `x,` and `x,,y` give an empty payload, not a missing one |
| Progress.Percent | routes.js:55 | the percentage is non-negative, at most 100 iff processed <= total, and exactly 100 iff processed == total |
| Progress.PercentStrictlyIncreasing | routes.js:54-55 | with the same total, a larger processed count gives a strictly larger percentage |
| ImageRewrite.Attempt | routes.js:41-59 | a node is attempted iff its `src` is present and starts with `data:image/`; it is stored iff it is embedded, has a comma, its payload re-encodes to PNG and the write to `join(outputDir, uuid(k) + ".png")` succeeds, and then that name and path are its own; it draws a name and fails iff the re-encoding succeeded but the write failed; a missing comma fails before a name is drawn |
| ImageRewrite.Run | routes.js:40-61 | after n nodes the state has n nodes, processed equals the number of paths and of reports (at most n), at most n names were drawn, and every path starts with `/out_images/` |
| ImageRewrite.ProcessImages | routes.js:34-64 | the pass returns one node per input node, at most one path per node, one progress report per path, and only `/out_images/` paths |
| ImageRewrite.ProcessImagesNodes | routes.js:40-61 | every node ends up as the input node rewritten by its own outcome: only a stored node changes, and only its `src` |
| ImageRewrite.ProcessImagesPaths | routes.js:47-63 | the number of paths equals the number of stored nodes, and each stored node's public path sits at the position given by the number of nodes stored before it, so the paths follow document order |
| ImageRewrite.PathComesFromStoredNode | routes.js:52 | every returned path is the public path of some stored node, in its document-order position |
| ImageRewrite.ProcessImagesProgress | routes.js:54-55 | the k-th progress report is `(k + 1, number of img nodes)` |
| ImageFacts.NotEmbeddedUntouched | routes.js:41-42 | a node with no `src`, or one not starting with `data:image/`, is unchanged, adds no path, does not raise the count and draws no name |
| ImageFacts.FailureContained | routes.js:43-59 | a node whose decoding, re-encoding or write fails keeps its `src`, and adds neither a path nor a count |
| ImageFacts.NoCommaSkipped | routes.js:44-59 | an embedded `src` without a comma fails before a name is drawn and is left unchanged |
| ImageFacts.StoredNodePairsName | routes.js:47-52 | a stored node's `src` becomes `join(outputDir, N)` and its path is `/out_images/N` for the same `N = uuid + ".png"`, whatever `outputDir` is; its other attributes are kept |
| ImageFacts.ChangedOnlyIfStored | routes.js:42-50 | a node that differs from its input was stored and has an embedded `src` with a comma |
| ImageFacts.PathCountIsStoredCount | routes.js:52-63 | the number of paths equals the processed count and the number of stored nodes, is at most the number of `img` nodes, and equals that number iff every node was stored |
| ImageFacts.ProgressWellDefined | routes.js:36-55 | every report divides by the total number of `img` nodes, which is positive whenever a report exists; with no `img` nodes there are no reports and no paths |
| ImageFacts.ProgressIncreases | routes.js:54-55 | the reported percentages strictly increase from report to report and never exceed 100 |
| ImageFacts.ProgressHundredIffAllStored | routes.js:36-55 | some report says 100% iff there are `img` nodes and every one of them was stored |
| ImageFacts.OrdinaryImageCapsProgress | routes.js:36-55 | a single ordinary (non-data) `img` keeps every report below 100% |
| ImageFacts.DistinctPaths | routes.js:47-52 | if the name supply never repeats, no two returned paths are equal |
| ImageSkip.SkippedNodeInvisible | routes.js:40-61 | deleting a node that was not stored and drew no name leaves the paths, the processed count and every other node's rewrite unchanged |
| ImageLoop.ProcessImagesInPlace | routes.js:34-64 | the loop with in-place `src` updates, `imagePaths.push` and the `processedImages` counter computes exactly the fold's nodes, paths and progress reports |
| Routes.ConvertGate | routes.js:69-76 | `/convert` answers 400 iff `html` is missing or empty, 500 iff `html` is present but the images directory is not writable, and proceeds otherwise |
| Routes.UploadGate | routes.js:105-111 | without an uploaded file the handler fails with 500; with one, an unwritable directory gives 500 with the directory message; every rejection is a 500 |
| Routes.Convert | routes.js:66-101 | 400 iff `html` is missing or empty; 500 with the directory message iff `html` is present but the images directory is not writable; past those checks it is a download iff encoding the rewritten document succeeds, and 500 Internal Server Error otherwise; a download carries that encoding |
| Routes.Upload | routes.js:103-136 | `/upload` never answers 400; no file gives 500 Internal Server Error; 500 with the directory message iff a file arrived but the directory is not writable; otherwise a download iff encoding the rewritten document succeeds, carrying that encoding, and 500 Internal Server Error otherwise |
| Routes.UploadImages | routes.js:138-158 | JSON is returned iff a file arrived and `out_images` is writable; no file gives 500 Internal Server Error; an unwritable directory gives the directory message; the JSON holds the pass's paths: at most one per `img` node, all under `/out_images/` |
| Routes.CheckBase64 | routes.js:162-176 | the `base64` field is "required" (400) iff missing or empty, "invalid" (400) iff it has no comma or an empty second segment, and passes iff present with a non-empty second segment, whose text is then the payload |
| Routes.Base64ToPng | routes.js:160-191 | a failed validation is answered `Text(400, message)` with the validation's own message, and a 400 comes only from validation; a validated payload is downloaded as `image.png` iff its PNG re-encoding succeeds, the download holding that encoding, and is otherwise answered 500 Internal Server Error |
| Routes.ConvertChecksFirst | routes.js:69-81 | a `/convert` rejection does not depend on the parser, the image pass or the encoder |
| Routes.MissingHtmlBeforePermission | routes.js:69-76 | with an unwritable images directory, missing or empty HTML still gets 400; only present HTML gets the 500 |
| Routes.UploadIsConvertOnFileText | routes.js:105-116 | `/upload` answers non-empty file text exactly as `/convert` answers it as `html`; an empty file is converted where `/convert` answers 400 |
| Routes.UploadImagesReturnsStoredPaths | routes.js:144-153 | with a writable `out_images`, any uploaded text, even empty, gets JSON holding exactly one public path per stored `img` node, in document order |
| Routes.Base64ValidationFirst | routes.js:163-182 | a `/base64-to-png` bad request gets the same 400 whatever the decoder and re-encoder do |
| Routes.Base64BadRequests | routes.js:163-176 | no field and `""` are "required" errors; `not-base64-no-comma`, `x,` and `x,,y` are "invalid" errors |
| Routes.Base64DataUriPayload | routes.js:172-176 | a PNG data URI passes validation with its payload |
| Routes.Base64PayloadStopsAtComma | routes.js:172-176 | `a,b,c` passes validation with payload `b` |

## Left out

- HTML parsing and serialisation (`JSDOM`, `outerHTML`). The document is
  `Env.parse`, which gives the `img` nodes in document order. The DOCX
  encoder `Env.toDocx` takes the original HTML and the rewritten nodes.
- Base64 decoding and PNG re-encoding (`Buffer.from`, `sharp`). They are
  foreign libraries, modelled as the uninterpreted `Effects.decodeBase64`,
  which is total because Node's decoder does not throw on a string, and
  `Effects.toPng`, which may fail.
- `uuidv4` randomness. It is the injected supply `Effects.uuid`. That names
  never repeat is an assumption, stated as the precondition of
  `ImageFacts.DistinctPaths`.
- The file system (`writeFileSync`, `unlinkSync`, `mkdirSync`, `accessSync`).
  The image write is `Effects.writeFile`, a function of its path and bytes
  only, not of the disk's changing state. `checkWritePermissions` is
  `Env.writable`. Writing `output.docx` is folded into `Env.toDocx`. The
  temporary-file deletions and the startup directory creation are not
  modelled.
- `res.download` send errors and the cleanup callback. A download response
  stands for the file handed to Express.
- Non-string JSON values in the `html` and `base64` fields. Request fields
  are `Option<string>`.
- Console logging, floating-point division and `toFixed(2)`. Progress is the
  integer pair, read as an exact rational.
- Express routing, multer, CORS, body-size limits and static serving of
  `/out_images` (index.js). The React front end.
- Concurrency between requests, such as the shared `output.docx` path. Each
  handler is modelled as one sequential call.
