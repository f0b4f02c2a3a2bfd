/**
 `processImages` written the way the source writes it: one `for` loop over the
 `img` elements, `processedImages` and `imagePaths` updated in place, and the
 node's `src` set on success. The nested `if`s stand for the `try` block: a
 failing step leaves the node as it was, as the empty `catch` does. The
 method is proved to compute exactly what the fold `ProcessImages` computes.
 */
module ImageLoop {
  import opened Wrappers
  import opened JsText
  import opened Progress
  import opened ImageRewrite

  method ProcessImagesInPlace(fx: Effects, outputDir: string, images: seq<ImgNode>)
    returns (doc: seq<ImgNode>, imagePaths: seq<string>, reports: seq<Report>)
    ensures var r := ProcessImages(fx, outputDir, images);
            doc == r.nodes && imagePaths == r.paths && reports == r.progress
    ensures |doc| == |images| && |imagePaths| == |reports| <= |images|
  {
    var totalImages := |images|;
    var processedImages := 0;
    var uuidCalls := 0;
    doc := images;
    imagePaths := [];
    reports := [];
    var i := 0;
    while i < |images|
      invariant 0 <= i <= |images|
      invariant |doc| == |images|
      invariant doc[i..] == images[i..]
      invariant var st := Run(fx, outputDir, images, i);
                && doc[..i] == st.nodes && imagePaths == st.paths && reports == st.progress
                && processedImages == st.processed && uuidCalls == st.namesUsed
    {
      var img := doc[i];
      assert img == images[i];
      var before := Run(fx, outputDir, images, i);
      StepShape(fx, outputDir, totalImages, before, img);
      ghost var outcome := NotEmbedded;
      var src := img.src;
      if src.Some? && StartsWith(src.value, DataImagePrefix) {
        var base64Data := SecondSegment(src.value);
        outcome := Failed(false);
        if base64Data.Some? {
          var buffer := fx.decodeBase64(base64Data.value);
          var pngBuffer := fx.toPng(buffer);
          if pngBuffer.Some? {
            var imageName := fx.uuid(uuidCalls) + PngSuffix;
            uuidCalls := uuidCalls + 1;
            var imagePath := fx.joinPath(outputDir, imageName);
            outcome := Failed(true);
            if fx.writeFile(imagePath, pngBuffer.value) {
              outcome := Stored(imageName, imagePath);
              doc := doc[i := img.(src := Some(imagePath))];
              imagePaths := imagePaths + [PublicPrefix + imageName];
              processedImages := processedImages + 1;
              reports := reports + [Report(processedImages, totalImages)];
            }
          }
        }
      }
      assert outcome == Attempt(fx, outputDir, img.src, before.namesUsed);
      assert Run(fx, outputDir, images, i + 1) == Step(fx, outputDir, totalImages, before, img);
      assert doc[..i + 1] == doc[..i] + [doc[i]];
      assert doc[i + 1..] == images[i + 1..] by {
        assert doc[i + 1..] == doc[i..][1..];
      }
      i := i + 1;
    }
    assert doc == doc[..|images|];
  }
}
