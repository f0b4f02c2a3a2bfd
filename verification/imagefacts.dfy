/**
 Properties of the image pass, stated for all inputs and all behaviours of
 its collaborators: which nodes change, what the returned paths are, how the
 progress figure moves, and that a skipped node leaves no trace.
 */
module ImageFacts {
  import opened Wrappers
  import opened Progress
  import opened ImageRewrite

  /** A node that is not an embedded image is left as it is and adds nothing to the result or the count. */
  lemma NotEmbeddedUntouched(fx: Effects, outputDir: string, imgs: seq<ImgNode>, i: nat)
    requires i < |imgs| && !IsEmbedded(imgs[i].src)
    ensures ProcessImages(fx, outputDir, imgs).nodes[i] == imgs[i]
    ensures StoredBefore(fx, outputDir, imgs, i + 1) == StoredBefore(fx, outputDir, imgs, i)
    ensures NamesBefore(fx, outputDir, imgs, i + 1) == NamesBefore(fx, outputDir, imgs, i)
  {
    ProcessImagesNodes(fx, outputDir, imgs);
  }

  /**
   A node whose decode, re-encode or write fails keeps its `src`, adds no
   path and does not raise the processed count.
   */
  lemma FailureContained(fx: Effects, outputDir: string, imgs: seq<ImgNode>, i: nat)
    requires i < |imgs| && OutcomeAt(fx, outputDir, imgs, i).Failed?
    ensures ProcessImages(fx, outputDir, imgs).nodes[i] == imgs[i]
    ensures StoredBefore(fx, outputDir, imgs, i + 1) == StoredBefore(fx, outputDir, imgs, i)
  {
    ProcessImagesNodes(fx, outputDir, imgs);
  }

  /** A data URI without a comma has no payload: it fails before any name is generated and is left as it is. */
  lemma NoCommaSkipped(fx: Effects, outputDir: string, imgs: seq<ImgNode>, i: nat)
    requires i < |imgs| && IsEmbedded(imgs[i].src) && ',' !in imgs[i].src.value
    ensures OutcomeAt(fx, outputDir, imgs, i) == Failed(false)
    ensures ProcessImages(fx, outputDir, imgs).nodes[i] == imgs[i]
    ensures NamesBefore(fx, outputDir, imgs, i + 1) == NamesBefore(fx, outputDir, imgs, i)
  {
    ProcessImagesNodes(fx, outputDir, imgs);
  }

  /**
   A stored node's `src` becomes `join(outputDir, N)` and the result gets
   `/out_images/N` for the same generated name `N = uuid + ".png"`, whatever
   `outputDir` is; its other attributes are kept.
   */
  lemma StoredNodePairsName(fx: Effects, outputDir: string, imgs: seq<ImgNode>, i: nat)
    requires i < |imgs| && OutcomeAt(fx, outputDir, imgs, i).Stored?
    ensures var r := ProcessImages(fx, outputDir, imgs);
            var name := fx.uuid(NamesBefore(fx, outputDir, imgs, i)) + PngSuffix;
            && r.nodes[i] == ImgNode(Some(fx.joinPath(outputDir, name)), imgs[i].attrs)
            && StoredBefore(fx, outputDir, imgs, i) < |r.paths|
            && r.paths[StoredBefore(fx, outputDir, imgs, i)] == "/out_images/" + name
  {
    ProcessImagesNodes(fx, outputDir, imgs);
    ProcessImagesPaths(fx, outputDir, imgs);
  }

  /** Only a stored node can differ from its input. */
  lemma ChangedOnlyIfStored(fx: Effects, outputDir: string, imgs: seq<ImgNode>, i: nat)
    requires i < |imgs|
    requires ProcessImages(fx, outputDir, imgs).nodes[i] != imgs[i]
    ensures OutcomeAt(fx, outputDir, imgs, i).Stored?
    ensures IsEmbedded(imgs[i].src) && ',' in imgs[i].src.value
  {
    ProcessImagesNodes(fx, outputDir, imgs);
  }

  // ---------------------------------------------------------------------
  // Counting

  lemma {:induction false} StoredBeforeMonotone(fx: Effects, outputDir: string, imgs: seq<ImgNode>, a: nat, b: nat)
    requires a <= b <= |imgs|
    ensures StoredBefore(fx, outputDir, imgs, a) <= StoredBefore(fx, outputDir, imgs, b)
    decreases b
  {
    if a < b {
      StoredBeforeMonotone(fx, outputDir, imgs, a, b - 1);
    }
  }

  lemma {:induction false} NamesBeforeMonotone(fx: Effects, outputDir: string, imgs: seq<ImgNode>, a: nat, b: nat)
    requires a <= b <= |imgs|
    ensures NamesBefore(fx, outputDir, imgs, a) <= NamesBefore(fx, outputDir, imgs, b)
    decreases b
  {
    if a < b {
      NamesBeforeMonotone(fx, outputDir, imgs, a, b - 1);
    }
  }

  lemma {:induction false} AllStoredCount(fx: Effects, outputDir: string, imgs: seq<ImgNode>, n: nat)
    requires n <= |imgs|
    ensures (forall i :: 0 <= i < n ==> OutcomeAt(fx, outputDir, imgs, i).Stored?)
            ==> StoredBefore(fx, outputDir, imgs, n) == n
    decreases n
  {
    if n > 0 {
      AllStoredCount(fx, outputDir, imgs, n - 1);
    }
  }

  lemma {:induction false} UnstoredLowersCount(fx: Effects, outputDir: string, imgs: seq<ImgNode>, n: nat, j: nat)
    requires j < n <= |imgs|
    ensures !OutcomeAt(fx, outputDir, imgs, j).Stored? ==> StoredBefore(fx, outputDir, imgs, n) < n
    decreases n
  {
    if j < n - 1 {
      UnstoredLowersCount(fx, outputDir, imgs, n - 1, j);
    } else {
      StoredBeforeBounded(fx, outputDir, imgs, n - 1);
    }
  }

  /** `n` nodes stored out of `n` exactly when every one of them was stored. */
  lemma AllStoredIff(fx: Effects, outputDir: string, imgs: seq<ImgNode>, n: nat)
    requires n <= |imgs|
    ensures StoredBefore(fx, outputDir, imgs, n) == n
            <==> forall i :: 0 <= i < n ==> OutcomeAt(fx, outputDir, imgs, i).Stored?
  {
    forall i | 0 <= i < n
      ensures StoredBefore(fx, outputDir, imgs, n) == n ==> OutcomeAt(fx, outputDir, imgs, i).Stored?
    {
      UnstoredLowersCount(fx, outputDir, imgs, n, i);
    }
    AllStoredCount(fx, outputDir, imgs, n);
  }

  /** The number of returned paths is the number of stored nodes, at most the number of `img` nodes. */
  lemma PathCountIsStoredCount(fx: Effects, outputDir: string, imgs: seq<ImgNode>)
    ensures var r := ProcessImages(fx, outputDir, imgs);
            && |r.paths| == r.processed == StoredBefore(fx, outputDir, imgs, |imgs|) <= |imgs|
            && (|r.paths| == |imgs| <==> forall i :: 0 <= i < |imgs| ==> OutcomeAt(fx, outputDir, imgs, i).Stored?)
  {
    ProcessImagesPaths(fx, outputDir, imgs);
    AllStoredIff(fx, outputDir, imgs, |imgs|);
  }

  // ---------------------------------------------------------------------
  // Progress

  /**
   Every report divides by the number of `img` nodes, which is positive
   whenever a report is made (so with no `img` nodes nothing is reported),
   and never counts more than that.
   */
  lemma ProgressWellDefined(fx: Effects, outputDir: string, imgs: seq<ImgNode>)
    ensures var r := ProcessImages(fx, outputDir, imgs);
            && (|imgs| == 0 ==> r.progress == [] && r.paths == [])
            && forall k :: 0 <= k < |r.progress| ==>
                 0 < r.progress[k].total == |imgs| && r.progress[k].processed <= r.progress[k].total
  {
    ProcessImagesProgress(fx, outputDir, imgs);
  }

  /** The reported percentage strictly increases from one report to the next and never exceeds 100. */
  lemma ProgressIncreases(fx: Effects, outputDir: string, imgs: seq<ImgNode>)
    ensures var r := ProcessImages(fx, outputDir, imgs);
            forall k :: 0 <= k < |r.progress| ==> r.progress[k].total > 0
    ensures var r := ProcessImages(fx, outputDir, imgs);
            && (forall k :: 0 <= k < |r.progress| ==> Percent(r.progress[k]) <= 100.0)
            && (forall a, b :: 0 <= a < b < |r.progress| ==> Percent(r.progress[a]) < Percent(r.progress[b]))
  {
    ProgressWellDefined(fx, outputDir, imgs);
    ProcessImagesProgress(fx, outputDir, imgs);
    var r := ProcessImages(fx, outputDir, imgs);
    forall a, b | 0 <= a < b < |r.progress|
      ensures Percent(r.progress[a]) < Percent(r.progress[b])
    {
      PercentStrictlyIncreasing(r.progress[a], r.progress[b]);
    }
  }

  /** Some report says 100% exactly when there are images and every one of them was stored. */
  lemma ProgressHundredIffAllStored(fx: Effects, outputDir: string, imgs: seq<ImgNode>)
    ensures var r := ProcessImages(fx, outputDir, imgs);
            forall k :: 0 <= k < |r.progress| ==> r.progress[k].total > 0
    ensures var r := ProcessImages(fx, outputDir, imgs);
            (exists k :: 0 <= k < |r.progress| && Percent(r.progress[k]) == 100.0)
            <==> (|imgs| > 0 && forall i :: 0 <= i < |imgs| ==> OutcomeAt(fx, outputDir, imgs, i).Stored?)
  {
    ProgressWellDefined(fx, outputDir, imgs);
    ProcessImagesProgress(fx, outputDir, imgs);
    PathCountIsStoredCount(fx, outputDir, imgs);
    var r := ProcessImages(fx, outputDir, imgs);
    if |imgs| > 0 && forall i :: 0 <= i < |imgs| ==> OutcomeAt(fx, outputDir, imgs, i).Stored? {
      var k := |r.progress| - 1;
      assert r.progress[k] == Report(|imgs|, |imgs|);
      assert Percent(r.progress[k]) == 100.0;
    }
    if exists k :: 0 <= k < |r.progress| && Percent(r.progress[k]) == 100.0 {
      var k :| 0 <= k < |r.progress| && Percent(r.progress[k]) == 100.0;
      assert r.progress[k] == Report(k + 1, |imgs|);
      assert |r.paths| == |imgs|;
    }
  }

  /**
   The denominator counts every `img` node, so one ordinary (non-data) image
   keeps every report below 100%, even when all embedded images are stored.
   */
  lemma OrdinaryImageCapsProgress(fx: Effects, outputDir: string, imgs: seq<ImgNode>, j: nat)
    requires j < |imgs| && !IsEmbedded(imgs[j].src)
    ensures var r := ProcessImages(fx, outputDir, imgs);
            forall k :: 0 <= k < |r.progress| ==> r.progress[k].total > 0
    ensures var r := ProcessImages(fx, outputDir, imgs);
            forall k :: 0 <= k < |r.progress| ==> Percent(r.progress[k]) < 100.0
  {
    ProgressHundredIffAllStored(fx, outputDir, imgs);
    ProgressIncreases(fx, outputDir, imgs);
    assert !OutcomeAt(fx, outputDir, imgs, j).Stored?;
  }

  // ---------------------------------------------------------------------
  // Naming

  lemma SuffixCancels(a: string, b: string, s: string)
    requires a + s == b + s
    ensures a == b
  {
    assert |a| == |b|;
    assert a == (a + s)[..|a|];
    assert b == (b + s)[..|b|];
  }

  lemma PrefixCancels(p: string, a: string, b: string)
    requires p + a == p + b
    ensures a == b
  {
    assert a == (p + a)[|p|..];
    assert b == (p + b)[|p|..];
  }

  /** A later stored node was given a later name. */
  lemma StoredNamesIncrease(fx: Effects, outputDir: string, imgs: seq<ImgNode>, i: nat, j: nat)
    requires i < j < |imgs|
    requires OutcomeAt(fx, outputDir, imgs, i).Stored?
    ensures NamesBefore(fx, outputDir, imgs, i) < NamesBefore(fx, outputDir, imgs, j)
    ensures StoredBefore(fx, outputDir, imgs, i) < StoredBefore(fx, outputDir, imgs, j)
  {
    NamesBeforeMonotone(fx, outputDir, imgs, i + 1, j);
    StoredBeforeMonotone(fx, outputDir, imgs, i + 1, j);
  }

  /**
   If the name supply never repeats a name, no two returned paths are equal:
   the pass itself draws a fresh name for every attempt that gets that far.
   */
  lemma DistinctPaths(fx: Effects, outputDir: string, imgs: seq<ImgNode>)
    requires forall a: nat, b: nat :: a != b ==> fx.uuid(a) != fx.uuid(b)
    ensures var r := ProcessImages(fx, outputDir, imgs);
            forall k1, k2 :: 0 <= k1 < k2 < |r.paths| ==> r.paths[k1] != r.paths[k2]
  {
    var r := ProcessImages(fx, outputDir, imgs);
    forall k1, k2 | 0 <= k1 < k2 < |r.paths|
      ensures r.paths[k1] != r.paths[k2]
    {
      PathComesFromStoredNode(fx, outputDir, imgs, k1);
      PathComesFromStoredNode(fx, outputDir, imgs, k2);
      var i1 :| && 0 <= i1 < |imgs| && OutcomeAt(fx, outputDir, imgs, i1).Stored?
                && StoredBefore(fx, outputDir, imgs, i1) == k1
                && r.paths[k1] == PublicPath(OutcomeAt(fx, outputDir, imgs, i1).name);
      var i2 :| && 0 <= i2 < |imgs| && OutcomeAt(fx, outputDir, imgs, i2).Stored?
                && StoredBefore(fx, outputDir, imgs, i2) == k2
                && r.paths[k2] == PublicPath(OutcomeAt(fx, outputDir, imgs, i2).name);
      if i2 <= i1 {
        StoredBeforeMonotone(fx, outputDir, imgs, i2, i1);
      }
      StoredNamesIncrease(fx, outputDir, imgs, i1, i2);
      var n1 := NamesBefore(fx, outputDir, imgs, i1);
      var n2 := NamesBefore(fx, outputDir, imgs, i2);
      if r.paths[k1] == r.paths[k2] {
        PrefixCancels(PublicPrefix, OutcomeAt(fx, outputDir, imgs, i1).name, OutcomeAt(fx, outputDir, imgs, i2).name);
        SuffixCancels(fx.uuid(n1), fx.uuid(n2), PngSuffix);
      }
    }
  }
}
