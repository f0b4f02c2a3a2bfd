/**
 Failure containment as a relation between two runs: a node that is not
 stored and draws no name can be deleted from the document without changing
 what the pass does to any other node or what it returns.
 */
module ImageSkip {
  import opened ImageRewrite

  /** `s` with the element at position `d` removed. */
  function Without<T>(s: seq<T>, d: nat): (r: seq<T>)
    requires d < |s|
    ensures |r| == |s| - 1
  {
    s[..d] + s[d + 1..]
  }

  /** Two loop states with the same returned paths, processed count and number of names drawn. */
  predicate SameResults(a: Pass, b: Pass) {
    a.paths == b.paths && a.processed == b.processed && a.namesUsed == b.namesUsed
  }

  /** The same node processed from states that agree gives states that agree, appending the same node. */
  lemma StepAgrees(fx: Effects, outputDir: string, t1: nat, t2: nat, s1: Pass, s2: Pass, img: ImgNode)
    requires SameResults(s1, s2)
    ensures SameResults(Step(fx, outputDir, t1, s1, img), Step(fx, outputDir, t2, s2, img))
    ensures exists x :: && Step(fx, outputDir, t1, s1, img).nodes == s1.nodes + [x]
                        && Step(fx, outputDir, t2, s2, img).nodes == s2.nodes + [x]
  {
    var o := Attempt(fx, outputDir, img.src, s1.namesUsed);
    assert Step(fx, outputDir, t1, s1, img).nodes == s1.nodes + [Rewrite(img, o)];
  }

  /** Before the deleted position both runs are the same. */
  lemma {:induction false} BeforeDeleted(fx: Effects, outputDir: string, imgs: seq<ImgNode>, d: nat, n: nat)
    requires n <= d < |imgs|
    ensures var a := Run(fx, outputDir, Without(imgs, d), n);
            var b := Run(fx, outputDir, imgs, n);
            SameResults(a, b) && a.nodes == b.nodes
    decreases n
  {
    if n > 0 {
      BeforeDeleted(fx, outputDir, imgs, d, n - 1);
      assert Without(imgs, d)[n - 1] == imgs[n - 1];
      StepAgrees(fx, outputDir, |imgs| - 1, |imgs|, Run(fx, outputDir, Without(imgs, d), n - 1),
                 Run(fx, outputDir, imgs, n - 1), imgs[n - 1]);
    }
  }

  lemma WithoutAppend<T>(s: seq<T>, x: T, d: nat)
    requires d < |s|
    ensures Without(s + [x], d) == Without(s, d) + [x]
  {
    assert (s + [x])[..d] == s[..d];
    assert (s + [x])[d + 1..] == s[d + 1..] + [x];
  }

  /** Just past the deleted position: the full run appended the node unchanged and nothing else. */
  lemma AtDeleted(fx: Effects, outputDir: string, imgs: seq<ImgNode>, d: nat)
    requires d < |imgs|
    requires !OutcomeAt(fx, outputDir, imgs, d).Stored?
    requires NamesUsed(OutcomeAt(fx, outputDir, imgs, d)) == 0
    ensures var a := Run(fx, outputDir, Without(imgs, d), d);
            var b := Run(fx, outputDir, imgs, d + 1);
            SameResults(a, b) && a.nodes == Without(b.nodes, d)
  {
    BeforeDeleted(fx, outputDir, imgs, d, d);
    RunCounters(fx, outputDir, imgs, d);
    var prev := Run(fx, outputDir, imgs, d);
    StepShape(fx, outputDir, |imgs|, prev, imgs[d]);
    assert Run(fx, outputDir, imgs, d + 1) == Step(fx, outputDir, |imgs|, prev, imgs[d]);
    assert Without(prev.nodes + [imgs[d]], d) == prev.nodes;
  }

  /** From the deleted position on, the shorter run lags the full one by exactly the deleted node. */
  lemma {:induction false} AfterDeleted(fx: Effects, outputDir: string, imgs: seq<ImgNode>, d: nat, n: nat)
    requires d < n <= |imgs|
    requires !OutcomeAt(fx, outputDir, imgs, d).Stored?
    requires NamesUsed(OutcomeAt(fx, outputDir, imgs, d)) == 0
    ensures var a := Run(fx, outputDir, Without(imgs, d), n - 1);
            var b := Run(fx, outputDir, imgs, n);
            SameResults(a, b) && a.nodes == Without(b.nodes, d)
    decreases n
  {
    if n == d + 1 {
      AtDeleted(fx, outputDir, imgs, d);
    } else {
      AfterDeleted(fx, outputDir, imgs, d, n - 1);
      var short := Without(imgs, d);
      assert short[n - 2] == imgs[n - 1];
      var a := Run(fx, outputDir, short, n - 2);
      var b := Run(fx, outputDir, imgs, n - 1);
      assert Run(fx, outputDir, short, n - 1) == Step(fx, outputDir, |short|, a, imgs[n - 1]);
      assert Run(fx, outputDir, imgs, n) == Step(fx, outputDir, |imgs|, b, imgs[n - 1]);
      StepAgrees(fx, outputDir, |short|, |imgs|, a, b, imgs[n - 1]);
      var x :| && Step(fx, outputDir, |short|, a, imgs[n - 1]).nodes == a.nodes + [x]
               && Step(fx, outputDir, |imgs|, b, imgs[n - 1]).nodes == b.nodes + [x];
      WithoutAppend(b.nodes, x, d);
    }
  }

  /**
   Deleting a node that was not stored and drew no name (not an embedded
   image, no payload, or rejected by the re-encoder) leaves the returned
   paths, the processed count and every other node's rewrite unchanged:
   a failure does not disturb the rest of the pass.
   */
  lemma SkippedNodeInvisible(fx: Effects, outputDir: string, imgs: seq<ImgNode>, d: nat)
    requires d < |imgs|
    requires !OutcomeAt(fx, outputDir, imgs, d).Stored?
    requires NamesUsed(OutcomeAt(fx, outputDir, imgs, d)) == 0
    ensures var full := ProcessImages(fx, outputDir, imgs);
            var short := ProcessImages(fx, outputDir, Without(imgs, d));
            && short.paths == full.paths
            && short.processed == full.processed
            && short.nodes == Without(full.nodes, d)
  {
    var short := Without(imgs, d);
    AfterDeleted(fx, outputDir, imgs, d, |imgs|);
    assert |short| == |imgs| - 1;
    var a := Run(fx, outputDir, short, |short|);
    var b := Run(fx, outputDir, imgs, |imgs|);
    assert SameResults(a, b) && a.nodes == Without(b.nodes, d);
  }
}
