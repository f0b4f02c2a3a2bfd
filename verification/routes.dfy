/**
 The four POST handlers of routes.js (lines 66-191) as functions from the
 request field and the server's environment to the response. The order of
 their checks is what matters here: which answer a request gets before any
 parsing, image processing or decoding happens.
 */
module Routes {
  import opened Wrappers
  import opened JsText
  import opened ImageRewrite

  /** What the handlers use besides the request. */
  datatype Env = Env(
    /** the collaborators of the image pass */
    fx: Effects,
    /** `path.join(__dirname, 'images')` */
    imagesDir: string,
    /** `path.join(__dirname, 'out_images')` */
    outImagesDir: string,
    /** `checkWritePermissions(dir)` */
    writable: string -> bool,
    /** `new JSDOM(html)` then `querySelectorAll('img')`, in document order */
    parse: string -> seq<ImgNode>,
    /**
     serialising the document with its rewritten `img` nodes, `htmlDocx.asBlob`
     and writing `output.docx`; `None` when any of it throws
     */
    toDocx: (string, seq<ImgNode>) -> Option<Bytes>
  )

  /** What a handler sends. */
  datatype Response =
    | Text(status: nat, body: string)          // res.status(code).send(body)
    | Download(fileName: string, bytes: Bytes) // a file attachment
    | Json(images: seq<string>)                // res.status(200).json({ images })

  const HtmlRequired: string := "HTML content is required"
  const NoImagesDirWrite: string := "No write permissions for images directory"
  const NoOutImagesDirWrite: string := "No write permissions for out_images directory"
  const InternalError: string := "Internal Server Error"
  const Base64Required: string := "Base64 content is required"
  const Base64Invalid: string := "Invalid Base64 content"
  const DocxName: string := "output.docx"
  const PngName: string := "image.png"

  /** JavaScript truthiness of an optional string: present and not empty. */
  predicate Truthy(s: Option<string>) {
    s.Some? && s.value != ""
  }

  /** The outcome of a handler's checks, before any parsing or image work. */
  datatype Gate = Reject(status: nat, message: string) | Proceed

  /** `/convert`: a missing or empty `html` is rejected (400) before the images directory is checked (500). */
  function ConvertGate(html: Option<string>, imagesWritable: bool): (g: Gate)
    ensures g == Reject(400, HtmlRequired) <==> !Truthy(html)
    ensures g == Reject(500, NoImagesDirWrite) <==> Truthy(html) && !imagesWritable
    ensures g.Proceed? <==> Truthy(html) && imagesWritable
  {
    if !Truthy(html) then Reject(400, HtmlRequired)
    else if !imagesWritable then Reject(500, NoImagesDirWrite)
    else Proceed
  }

  /**
   `/upload` and `/upload-images`: without a readable uploaded file the
   handler throws (500); then the target directory is checked (500). The
   file's contents are not checked for emptiness.
   */
  function UploadGate(file: Option<string>, dirWritable: bool, noWriteMessage: string): (g: Gate)
    ensures file.None? ==> g == Reject(500, InternalError)
    ensures g.Reject? ==> g.status == 500
    ensures g.Proceed? <==> file.Some? && dirWritable
    ensures file.Some? && !dirWritable ==> g == Reject(500, noWriteMessage)
  {
    if file.None? then Reject(500, InternalError)
    else if !dirWritable then Reject(500, noWriteMessage)
    else Proceed
  }

  /** Parse, rewrite the images into `imagesDir`, and encode the rewritten document. */
  function DocxFor(env: Env, html: string): Response {
    var pass := ProcessImages(env.fx, env.imagesDir, env.parse(html));
    match env.toDocx(html, pass.nodes)
    case None => Text(500, InternalError)
    case Some(bytes) => Download(DocxName, bytes)
  }

  /** `POST /convert` with body field `html`. */
  function Convert(env: Env, html: Option<string>): (r: Response)
    ensures r == Text(400, HtmlRequired) <==> !Truthy(html)
    ensures r == Text(500, NoImagesDirWrite) <==> Truthy(html) && !env.writable(env.imagesDir)
    ensures r.Download? ==>
              && Truthy(html) && env.writable(env.imagesDir) && r.fileName == DocxName
              && env.toDocx(html.value, ProcessImages(env.fx, env.imagesDir, env.parse(html.value)).nodes)
                 == Some(r.bytes)
    ensures Truthy(html) && env.writable(env.imagesDir) ==>
              var docx := env.toDocx(html.value, ProcessImages(env.fx, env.imagesDir, env.parse(html.value)).nodes);
              && (r.Download? <==> docx.Some?)
              && (!r.Download? ==> r == Text(500, InternalError))
  {
    match ConvertGate(html, env.writable(env.imagesDir))
    case Reject(code, message) => Text(code, message)
    case Proceed => DocxFor(env, html.value)
  }

  /** `POST /upload`: `file` is the uploaded file's text, `None` when there is none or it cannot be read. */
  function Upload(env: Env, file: Option<string>): (r: Response)
    ensures r.Text? ==> r.status == 500
    ensures r == Text(500, NoImagesDirWrite) <==> file.Some? && !env.writable(env.imagesDir)
    ensures r.Download? ==>
              && file.Some? && env.writable(env.imagesDir) && r.fileName == DocxName
              && env.toDocx(file.value, ProcessImages(env.fx, env.imagesDir, env.parse(file.value)).nodes)
                 == Some(r.bytes)
    ensures file.None? ==> r == Text(500, InternalError)
    ensures file.Some? && env.writable(env.imagesDir) ==>
              var docx := env.toDocx(file.value, ProcessImages(env.fx, env.imagesDir, env.parse(file.value)).nodes);
              && (r.Download? <==> docx.Some?)
              && (!r.Download? ==> r == Text(500, InternalError))
  {
    match UploadGate(file, env.writable(env.imagesDir), NoImagesDirWrite)
    case Reject(code, message) => Text(code, message)
    case Proceed => DocxFor(env, file.value)
  }

  /** `POST /upload-images`: the rewritten images go to `outImagesDir` and their public paths are returned. */
  function UploadImages(env: Env, file: Option<string>): (r: Response)
    ensures r.Json? <==> file.Some? && env.writable(env.outImagesDir)
    ensures file.None? ==> r == Text(500, InternalError)
    ensures r.Text? ==> r.status == 500
    ensures r == Text(500, NoOutImagesDirWrite) <==> file.Some? && !env.writable(env.outImagesDir)
    ensures r.Json? ==>
              && r.images == ProcessImages(env.fx, env.outImagesDir, env.parse(file.value)).paths
              && |r.images| <= |env.parse(file.value)|
              && forall k :: 0 <= k < |r.images| ==> StartsWith(r.images[k], PublicPrefix)
  {
    match UploadGate(file, env.writable(env.outImagesDir), NoOutImagesDirWrite)
    case Reject(code, message) => Text(code, message)
    case Proceed => Json(ProcessImages(env.fx, env.outImagesDir, env.parse(file.value)).paths)
  }

  /** The validation prefix of `/base64-to-png`. */
  datatype Base64Check = BadRequest(message: string) | Decode(payload: string)

  /**
   A missing or empty `base64` field, or one whose `split(',')[1]` is missing
   or empty, is a bad request; otherwise that segment is the payload.
   */
  function CheckBase64(base64: Option<string>): (c: Base64Check)
    ensures c == BadRequest(Base64Required) <==> !Truthy(base64)
    ensures c == BadRequest(Base64Invalid) <==>
              Truthy(base64) && (',' !in base64.value || SecondSegment(base64.value) == Some(""))
    ensures c.Decode? <==> Truthy(base64) && ',' in base64.value && SecondSegment(base64.value) != Some("")
    ensures c.Decode? ==> && ',' in base64.value && c.payload != "" && ',' !in c.payload
                          && SecondSegment(base64.value) == Some(c.payload)
  {
    if !Truthy(base64) then BadRequest(Base64Required)
    else match SecondSegment(base64.value)
      case None => BadRequest(Base64Invalid)
      case Some(payload) => if payload == "" then BadRequest(Base64Invalid) else Decode(payload)
  }

  /** `POST /base64-to-png` with body field `base64`. */
  function Base64ToPng(env: Env, base64: Option<string>): (r: Response)
    ensures r.Text? && r.status == 400 <==> CheckBase64(base64).BadRequest?
    ensures r.Text? ==> r.status == 400 || r == Text(500, InternalError)
    ensures r.Download? ==>
              && r.fileName == PngName
              && env.fx.toPng(env.fx.decodeBase64(CheckBase64(base64).payload)) == Some(r.bytes)
    ensures CheckBase64(base64).Decode? ==>
              (r.Download? <==> env.fx.toPng(env.fx.decodeBase64(CheckBase64(base64).payload)).Some?)
    ensures CheckBase64(base64).Decode? && !r.Download? ==> r == Text(500, InternalError)
    ensures CheckBase64(base64).BadRequest? ==> r == Text(400, CheckBase64(base64).message)
  {
    match CheckBase64(base64)
    case BadRequest(message) => Text(400, message)
    case Decode(payload) =>
      match env.fx.toPng(env.fx.decodeBase64(payload))
      case None => Text(500, InternalError)
      case Some(png) => Download(PngName, png)
  }

  // ---------------------------------------------------------------------
  // Properties of the handlers

  /**
   `/convert` answers its 400 and 500 checks without consulting the parser,
   the image pass or the encoder: any two environments that agree on the
   images directory's permission give the same rejection.
   */
  lemma ConvertChecksFirst(env1: Env, env2: Env, html: Option<string>)
    requires env1.writable(env1.imagesDir) == env2.writable(env2.imagesDir)
    requires ConvertGate(html, env1.writable(env1.imagesDir)).Reject?
    ensures Convert(env1, html) == Convert(env2, html)
    ensures Convert(env1, html).Text?
  {
  }

  /** A missing `html` is answered with 400 even when the images directory is not writable. */
  lemma MissingHtmlBeforePermission(env: Env)
    requires !env.writable(env.imagesDir)
    ensures Convert(env, None) == Text(400, HtmlRequired)
    ensures Convert(env, Some("")) == Text(400, HtmlRequired)
    ensures Convert(env, Some("<p/>")) == Text(500, NoImagesDirWrite)
  {
  }

  /**
   `/upload` treats non-empty HTML exactly as `/convert` does, but accepts an
   empty file where `/convert` answers 400.
   */
  lemma UploadIsConvertOnFileText(env: Env, html: string)
    ensures html != "" ==> Upload(env, Some(html)) == Convert(env, Some(html))
    ensures env.writable(env.imagesDir) ==> Upload(env, Some("")) == DocxFor(env, "")
    ensures Convert(env, Some("")) == Text(400, HtmlRequired)
  {
  }

  /**
   `/upload-images` returns exactly the public paths of the stored images of
   the uploaded document, one per stored `img` node and in document order;
   an empty file gives an empty list rather than an error.
   */
  lemma UploadImagesReturnsStoredPaths(env: Env, html: string)
    requires env.writable(env.outImagesDir)
    ensures var imgs := env.parse(html);
            var r := UploadImages(env, Some(html));
            && r.Json?
            && |r.images| == StoredBefore(env.fx, env.outImagesDir, imgs, |imgs|)
            && forall i :: 0 <= i < |imgs| && OutcomeAt(env.fx, env.outImagesDir, imgs, i).Stored? ==>
                 && StoredBefore(env.fx, env.outImagesDir, imgs, i) < |r.images|
                 && r.images[StoredBefore(env.fx, env.outImagesDir, imgs, i)]
                    == PublicPath(OutcomeAt(env.fx, env.outImagesDir, imgs, i).name)
  {
    ProcessImagesPaths(env.fx, env.outImagesDir, env.parse(html));
  }

  /**
   `/base64-to-png` answers 400 without decoding: any two environments, with
   any decoder and re-encoder, give the same answer to a bad request.
   */
  lemma Base64ValidationFirst(env1: Env, env2: Env, base64: Option<string>)
    requires CheckBase64(base64).BadRequest?
    ensures Base64ToPng(env1, base64) == Base64ToPng(env2, base64)
    ensures Base64ToPng(env1, base64) == Text(400, CheckBase64(base64).message)
  {
  }

  /** The bad requests the handler recognises: no field, empty, no comma, nothing after the comma, two commas in a row. */
  lemma Base64BadRequests(env: Env)
    ensures Base64ToPng(env, None) == Text(400, Base64Required)
    ensures Base64ToPng(env, Some("")) == Text(400, Base64Required)
    ensures Base64ToPng(env, Some("not-base64-no-comma")) == Text(400, Base64Invalid)
    ensures Base64ToPng(env, Some("x,")) == Text(400, Base64Invalid)
    ensures Base64ToPng(env, Some("x,,y")) == Text(400, Base64Invalid)
  {
    assert ',' !in "not-base64-no-comma";
    SecondSegmentEmpty();
  }

  /** A data URI gets past validation with exactly its payload. */
  lemma Base64DataUriPayload()
    ensures CheckBase64(Some("data:image/png;base64,QUJD")) == Decode("QUJD")
  {
    SecondSegmentOfDataUri();
  }

  /** Only the text up to a second comma is decoded. */
  lemma Base64PayloadStopsAtComma()
    ensures CheckBase64(Some("a,b,c")) == Decode("b")
  {
    SecondSegmentStopsAtComma();
  }
}
