/**
 The image extraction and rewrite pass (`processImages`, routes.js:34-64).

 The document is abstracted to its `img` elements in document order. Every
 collaborator whose code is not part of the model (the base64 decoder, the
 PNG re-encoder, the UUID generator, `path.join` and the file write) is a
 parameter, collected in `Effects`. The pass is a left fold of `Step` over the
 nodes; `OutcomeAt` describes the same pass node by node, without the fold's
 accumulated state: it reuses the per-node `Attempt` and recomputes only the
 number of names drawn before the node. The `ProcessImages*` lemmas connect
 the two.
 */
module ImageRewrite {
  import opened Wrappers
  import opened JsText
  import opened Progress

  type Bytes = seq<bv8>

  /** The prefix a `src` must start with to be treated as an embedded image. */
  const DataImagePrefix: string := "data:image/"
  /** The public URL prefix of every returned path, whatever the output directory. */
  const PublicPrefix: string := "/out_images/"
  /** The extension appended to every generated name. */
  const PngSuffix: string := ".png"

  /** An `img` element: its `src` attribute (`None` when absent) and its other attributes. */
  datatype ImgNode = ImgNode(src: Option<string>, attrs: map<string, string>)

  /** The collaborators the pass calls. */
  datatype Effects = Effects(
    /** `Buffer.from(payload, 'base64')`; lenient, it never throws on a string */
    decodeBase64: string -> Bytes,
    /** `sharp(buffer).png().toBuffer()`; `None` when it rejects the bytes */
    toPng: Bytes -> Option<Bytes>,
    /** the result of the k-th call to `uuidv4()` */
    uuid: nat -> string,
    /** `path.join(dir, name)` */
    joinPath: (string, string) -> string,
    /** `fs.writeFileSync(path, bytes)`; `false` when it throws */
    writeFile: (string, Bytes) -> bool
  )

  /** `src && src.startsWith('data:image/')`. */
  predicate IsEmbedded(src: Option<string>) {
    src.Some? && StartsWith(src.value, DataImagePrefix)
  }

  /** What happened to one node. */
  datatype Outcome =
    | NotEmbedded                        // not a data:image/ URI: never attempted
    | Failed(usedName: bool)             // an exception inside the try; usedName when uuidv4() had already run
    | Stored(name: string, path: string) // written as `path`, generated file name `name`

  /** The public path returned for a stored image. */
  function PublicPath(name: string): string {
    PublicPrefix + name
  }

  /**
   One iteration of the loop body for a node with attribute `src`, when `k`
   names have been generated so far. The payload is `src.split(',')[1]`; a
   missing payload makes `Buffer.from` throw, so the node fails before any
   name is generated.
   */
  function Attempt(fx: Effects, outputDir: string, src: Option<string>, k: nat): (o: Outcome)
    ensures o.NotEmbedded? <==> !IsEmbedded(src)
    ensures IsEmbedded(src) && ',' !in src.value ==> o == Failed(false)
    ensures o.Stored? ==>
              && o.name == fx.uuid(k) + PngSuffix
              && o.path == fx.joinPath(outputDir, o.name)
              && ',' in src.value
              && var png := fx.toPng(fx.decodeBase64(SecondSegment(src.value).value));
                 png.Some? && fx.writeFile(o.path, png.value)
    ensures o.Stored? <==>
              && IsEmbedded(src) && ',' in src.value
              && var png := fx.toPng(fx.decodeBase64(SecondSegment(src.value).value));
                 png.Some? && fx.writeFile(fx.joinPath(outputDir, fx.uuid(k) + PngSuffix), png.value)
    ensures (o.Failed? && o.usedName) <==>
              && IsEmbedded(src) && ',' in src.value
              && var png := fx.toPng(fx.decodeBase64(SecondSegment(src.value).value));
                 png.Some? && !fx.writeFile(fx.joinPath(outputDir, fx.uuid(k) + PngSuffix), png.value)
  {
    if !IsEmbedded(src) then NotEmbedded
    else match SecondSegment(src.value)
      case None => Failed(false)
      case Some(payload) =>
        match fx.toPng(fx.decodeBase64(payload))
        case None => Failed(false)
        case Some(png) =>
          var name := fx.uuid(k) + PngSuffix;
          var path := fx.joinPath(outputDir, name);
          if fx.writeFile(path, png) then Stored(name, path) else Failed(true)
  }

  /** How many calls to `uuidv4()` the node's iteration made. */
  function NamesUsed(o: Outcome): nat {
    if o.Stored? || (o.Failed? && o.usedName) then 1 else 0
  }

  /** The node after its iteration: only a stored node gets a new `src`. */
  function Rewrite(img: ImgNode, o: Outcome): ImgNode {
    if o.Stored? then img.(src := Some(o.path)) else img
  }

  /**
   The loop state: the nodes seen so far as they now stand, `imagePaths`,
   the progress reports logged, `processedImages`, and the number of
   names generated.
   */
  datatype Pass = Pass(nodes: seq<ImgNode>, paths: seq<string>, progress: seq<Report>,
                       processed: nat, namesUsed: nat)

  const Start: Pass := Pass([], [], [], 0, 0)

  /** One iteration of the `for` loop over the `img` elements. */
  function Step(fx: Effects, outputDir: string, total: nat, st: Pass, img: ImgNode): Pass {
    var o := Attempt(fx, outputDir, img.src, st.namesUsed);
    var names := st.namesUsed + NamesUsed(o);
    if o.Stored? then
      var processed := st.processed + 1;
      Pass(st.nodes + [Rewrite(img, o)], st.paths + [PublicPath(o.name)],
           st.progress + [Report(processed, total)], processed, names)
    else
      Pass(st.nodes + [img], st.paths, st.progress, st.processed, names)
  }

  /** The loop state after the first `n` nodes. */
  function Run(fx: Effects, outputDir: string, imgs: seq<ImgNode>, n: nat): (st: Pass)
    requires n <= |imgs|
    ensures |st.nodes| == n
    ensures st.processed == |st.paths| == |st.progress| <= n
    ensures st.namesUsed <= n
    ensures forall k :: 0 <= k < |st.paths| ==> StartsWith(st.paths[k], PublicPrefix)
    decreases n
  {
    if n == 0 then Start
    else Step(fx, outputDir, |imgs|, Run(fx, outputDir, imgs, n - 1), imgs[n - 1])
  }

  /** What one iteration appends, in terms of the node's outcome. */
  lemma StepShape(fx: Effects, outputDir: string, total: nat, st: Pass, img: ImgNode)
    ensures var o := Attempt(fx, outputDir, img.src, st.namesUsed);
            var next := Step(fx, outputDir, total, st, img);
            && next.nodes == st.nodes + [Rewrite(img, o)]
            && next.namesUsed == st.namesUsed + NamesUsed(o)
            && (o.Stored? ==> && next.paths == st.paths + [PublicPath(o.name)]
                              && next.progress == st.progress + [Report(st.processed + 1, total)]
                              && next.processed == st.processed + 1)
            && (!o.Stored? ==> next.paths == st.paths && next.progress == st.progress
                               && next.processed == st.processed)
  {
  }

  /**
   `processImages(document, outputDir)`: the rewritten nodes, the returned
   `imagePaths` and the progress log, with the loop's final counters.
   */
  function ProcessImages(fx: Effects, outputDir: string, imgs: seq<ImgNode>): (r: Pass)
    ensures |r.nodes| == |imgs|
    ensures |r.paths| == |r.progress| == r.processed <= |imgs|
    ensures forall k :: 0 <= k < |r.paths| ==> StartsWith(r.paths[k], PublicPrefix)
  {
    Run(fx, outputDir, imgs, |imgs|)
  }

  // ---------------------------------------------------------------------
  // The same pass described node by node.

  /** Names generated by the nodes before position `i`. */
  function NamesBefore(fx: Effects, outputDir: string, imgs: seq<ImgNode>, i: nat): nat
    requires i <= |imgs|
  {
    if i == 0 then 0
    else
      var k := NamesBefore(fx, outputDir, imgs, i - 1);
      k + NamesUsed(Attempt(fx, outputDir, imgs[i - 1].src, k))
  }

  /** The outcome of node `i`: its own attempt, given the names generated before it. */
  function OutcomeAt(fx: Effects, outputDir: string, imgs: seq<ImgNode>, i: nat): Outcome
    requires i < |imgs|
  {
    Attempt(fx, outputDir, imgs[i].src, NamesBefore(fx, outputDir, imgs, i))
  }

  /** Nodes stored before position `i`. */
  function StoredBefore(fx: Effects, outputDir: string, imgs: seq<ImgNode>, i: nat): nat
    requires i <= |imgs|
  {
    if i == 0 then 0
    else StoredBefore(fx, outputDir, imgs, i - 1)
         + (if OutcomeAt(fx, outputDir, imgs, i - 1).Stored? then 1 else 0)
  }

  lemma {:induction false} StoredBeforeBounded(fx: Effects, outputDir: string, imgs: seq<ImgNode>, i: nat)
    requires i <= |imgs|
    ensures StoredBefore(fx, outputDir, imgs, i) <= i
  {
    if i > 0 {
      StoredBeforeBounded(fx, outputDir, imgs, i - 1);
    }
  }

  /** The fold's counters are the per-node counts. */
  lemma {:induction false} RunCounters(fx: Effects, outputDir: string, imgs: seq<ImgNode>, n: nat)
    requires n <= |imgs|
    ensures Run(fx, outputDir, imgs, n).namesUsed == NamesBefore(fx, outputDir, imgs, n)
    ensures Run(fx, outputDir, imgs, n).processed == StoredBefore(fx, outputDir, imgs, n)
    decreases n
  {
    if n > 0 {
      RunCounters(fx, outputDir, imgs, n - 1);
    }
  }

  /** The step for node `n - 1` is that node's own outcome. */
  lemma RunLastStep(fx: Effects, outputDir: string, imgs: seq<ImgNode>, n: nat)
    requires 0 < n <= |imgs|
    ensures var prev := Run(fx, outputDir, imgs, n - 1);
            var st := Run(fx, outputDir, imgs, n);
            var o := OutcomeAt(fx, outputDir, imgs, n - 1);
            && st.nodes == prev.nodes + [Rewrite(imgs[n - 1], o)]
            && (o.Stored? ==> && st.paths == prev.paths + [PublicPath(o.name)]
                              && st.progress == prev.progress + [Report(prev.processed + 1, |imgs|)])
            && (!o.Stored? ==> st.paths == prev.paths && st.progress == prev.progress)
  {
    RunCounters(fx, outputDir, imgs, n - 1);
    StepShape(fx, outputDir, |imgs|, Run(fx, outputDir, imgs, n - 1), imgs[n - 1]);
  }

  /** Node `i` ends up as `imgs[i]` rewritten by its own outcome. */
  lemma {:induction false} RunNodes(fx: Effects, outputDir: string, imgs: seq<ImgNode>, n: nat)
    requires n <= |imgs|
    ensures forall i :: 0 <= i < n ==>
              Run(fx, outputDir, imgs, n).nodes[i] == Rewrite(imgs[i], OutcomeAt(fx, outputDir, imgs, i))
    decreases n
  {
    if n > 0 {
      RunNodes(fx, outputDir, imgs, n - 1);
      forall i | 0 <= i < n
        ensures Run(fx, outputDir, imgs, n).nodes[i] == Rewrite(imgs[i], OutcomeAt(fx, outputDir, imgs, i))
      {
        RunNodeStable(fx, outputDir, imgs, n, i);
      }
    }
  }

  /** Appending node `n - 1` leaves the nodes before it as they were. */
  lemma RunNodeStable(fx: Effects, outputDir: string, imgs: seq<ImgNode>, n: nat, i: nat)
    requires 0 < n <= |imgs| && i < n
    requires i < n - 1 ==>
               Run(fx, outputDir, imgs, n - 1).nodes[i] == Rewrite(imgs[i], OutcomeAt(fx, outputDir, imgs, i))
    ensures Run(fx, outputDir, imgs, n).nodes[i] == Rewrite(imgs[i], OutcomeAt(fx, outputDir, imgs, i))
  {
    RunLastStep(fx, outputDir, imgs, n);
    var prev := Run(fx, outputDir, imgs, n - 1);
    var st := Run(fx, outputDir, imgs, n);
    if i < n - 1 {
      assert st.nodes[i] == prev.nodes[i];
    } else {
      assert st.nodes[i] == Rewrite(imgs[n - 1], OutcomeAt(fx, outputDir, imgs, n - 1));
    }
  }

  /** The stored node `i` owns the path at position `StoredBefore(i)`. */
  lemma {:induction false} RunPathsOfStored(fx: Effects, outputDir: string, imgs: seq<ImgNode>, n: nat)
    requires n <= |imgs|
    ensures var st := Run(fx, outputDir, imgs, n);
            forall i :: 0 <= i < n && OutcomeAt(fx, outputDir, imgs, i).Stored? ==>
              && StoredBefore(fx, outputDir, imgs, i) < |st.paths|
              && st.paths[StoredBefore(fx, outputDir, imgs, i)]
                 == PublicPath(OutcomeAt(fx, outputDir, imgs, i).name)
    decreases n
  {
    if n > 0 {
      RunPathsOfStored(fx, outputDir, imgs, n - 1);
      forall i | 0 <= i < n && OutcomeAt(fx, outputDir, imgs, i).Stored?
        ensures && StoredBefore(fx, outputDir, imgs, i) < |Run(fx, outputDir, imgs, n).paths|
                && Run(fx, outputDir, imgs, n).paths[StoredBefore(fx, outputDir, imgs, i)]
                   == PublicPath(OutcomeAt(fx, outputDir, imgs, i).name)
      {
        RunPathStable(fx, outputDir, imgs, n, i);
      }
    }
  }

  /** Appending node `n - 1` keeps the paths already returned and adds its own when it is stored. */
  lemma RunPathStable(fx: Effects, outputDir: string, imgs: seq<ImgNode>, n: nat, i: nat)
    requires 0 < n <= |imgs| && i < n && OutcomeAt(fx, outputDir, imgs, i).Stored?
    requires i < n - 1 ==>
               && StoredBefore(fx, outputDir, imgs, i) < |Run(fx, outputDir, imgs, n - 1).paths|
               && Run(fx, outputDir, imgs, n - 1).paths[StoredBefore(fx, outputDir, imgs, i)]
                  == PublicPath(OutcomeAt(fx, outputDir, imgs, i).name)
    ensures && StoredBefore(fx, outputDir, imgs, i) < |Run(fx, outputDir, imgs, n).paths|
            && Run(fx, outputDir, imgs, n).paths[StoredBefore(fx, outputDir, imgs, i)]
               == PublicPath(OutcomeAt(fx, outputDir, imgs, i).name)
  {
    RunPathsPrefix(fx, outputDir, imgs, n);
    if i == n - 1 {
      RunPathOfLast(fx, outputDir, imgs, n);
    }
  }

  /** The paths after `n - 1` nodes are a prefix of the paths after `n`. */
  lemma RunPathsPrefix(fx: Effects, outputDir: string, imgs: seq<ImgNode>, n: nat)
    requires 0 < n <= |imgs|
    ensures var prev := Run(fx, outputDir, imgs, n - 1).paths;
            var st := Run(fx, outputDir, imgs, n).paths;
            |prev| <= |st| && forall k :: 0 <= k < |prev| ==> st[k] == prev[k]
  {
    RunLastStep(fx, outputDir, imgs, n);
  }

  /** When node `n - 1` is stored, its path is appended at position `StoredBefore(n - 1)`. */
  lemma RunPathOfLast(fx: Effects, outputDir: string, imgs: seq<ImgNode>, n: nat)
    requires 0 < n <= |imgs| && OutcomeAt(fx, outputDir, imgs, n - 1).Stored?
    ensures && StoredBefore(fx, outputDir, imgs, n - 1) < |Run(fx, outputDir, imgs, n).paths|
            && Run(fx, outputDir, imgs, n).paths[StoredBefore(fx, outputDir, imgs, n - 1)]
               == PublicPath(OutcomeAt(fx, outputDir, imgs, n - 1).name)
  {
    RunLastStep(fx, outputDir, imgs, n);
    RunCounters(fx, outputDir, imgs, n - 1);
  }

  /** Every count below `StoredBefore(n)` is reached at some stored node before `n`. */
  lemma {:induction false} StoredIndexExists(fx: Effects, outputDir: string, imgs: seq<ImgNode>, n: nat, k: nat)
    requires n <= |imgs|
    requires k < StoredBefore(fx, outputDir, imgs, n)
    ensures exists i :: && 0 <= i < n && OutcomeAt(fx, outputDir, imgs, i).Stored?
                        && StoredBefore(fx, outputDir, imgs, i) == k
    decreases n
  {
    if k < StoredBefore(fx, outputDir, imgs, n - 1) {
      StoredIndexExists(fx, outputDir, imgs, n - 1, k);
    } else {
      assert OutcomeAt(fx, outputDir, imgs, n - 1).Stored?;
    }
  }

  /** The `k`-th progress report says `k + 1` images out of all the `img` nodes. */
  lemma {:induction false} RunProgress(fx: Effects, outputDir: string, imgs: seq<ImgNode>, n: nat)
    requires n <= |imgs|
    ensures var st := Run(fx, outputDir, imgs, n);
            forall k :: 0 <= k < |st.progress| ==> st.progress[k] == Report(k + 1, |imgs|)
    decreases n
  {
    if n > 0 {
      RunProgress(fx, outputDir, imgs, n - 1);
      RunLastStep(fx, outputDir, imgs, n);
      var prev := Run(fx, outputDir, imgs, n - 1);
      var st := Run(fx, outputDir, imgs, n);
      forall k | 0 <= k < |st.progress| ensures st.progress[k] == Report(k + 1, |imgs|) {
        if k < |prev.progress| {
          assert st.progress[k] == prev.progress[k];
        }
      }
    }
  }

  /** Every node ends up as itself rewritten by its own outcome. */
  lemma ProcessImagesNodes(fx: Effects, outputDir: string, imgs: seq<ImgNode>)
    ensures forall i :: 0 <= i < |imgs| ==>
              ProcessImages(fx, outputDir, imgs).nodes[i]
              == Rewrite(imgs[i], OutcomeAt(fx, outputDir, imgs, i))
  {
    RunNodes(fx, outputDir, imgs, |imgs|);
  }

  /**
   Each stored node's public path is in the result, at the position given by
   the number of nodes stored before it, so the result is in document order;
   and there are no other paths.
   */
  lemma ProcessImagesPaths(fx: Effects, outputDir: string, imgs: seq<ImgNode>)
    ensures |ProcessImages(fx, outputDir, imgs).paths| == StoredBefore(fx, outputDir, imgs, |imgs|)
    ensures forall i :: 0 <= i < |imgs| && OutcomeAt(fx, outputDir, imgs, i).Stored? ==>
              && StoredBefore(fx, outputDir, imgs, i) < |ProcessImages(fx, outputDir, imgs).paths|
              && ProcessImages(fx, outputDir, imgs).paths[StoredBefore(fx, outputDir, imgs, i)]
                 == PublicPath(OutcomeAt(fx, outputDir, imgs, i).name)
  {
    var n := |imgs|;
    assert ProcessImages(fx, outputDir, imgs) == Run(fx, outputDir, imgs, n);
    RunCounters(fx, outputDir, imgs, n);
    RunPathsOfStored(fx, outputDir, imgs, n);
  }

  /** Every returned path is the public path of a stored node. */
  lemma PathComesFromStoredNode(fx: Effects, outputDir: string, imgs: seq<ImgNode>, k: nat)
    requires k < |ProcessImages(fx, outputDir, imgs).paths|
    ensures exists i :: && 0 <= i < |imgs| && OutcomeAt(fx, outputDir, imgs, i).Stored?
                        && StoredBefore(fx, outputDir, imgs, i) == k
                        && ProcessImages(fx, outputDir, imgs).paths[k]
                           == PublicPath(OutcomeAt(fx, outputDir, imgs, i).name)
  {
    ProcessImagesPaths(fx, outputDir, imgs);
    StoredIndexExists(fx, outputDir, imgs, |imgs|, k);
  }

  /** The `k`-th progress report says `k + 1` stored out of all the `img` nodes. */
  lemma ProcessImagesProgress(fx: Effects, outputDir: string, imgs: seq<ImgNode>)
    ensures var r := ProcessImages(fx, outputDir, imgs);
            forall k :: 0 <= k < |r.progress| ==> r.progress[k] == Report(k + 1, |imgs|)
  {
    assert ProcessImages(fx, outputDir, imgs) == Run(fx, outputDir, imgs, |imgs|);
    RunProgress(fx, outputDir, imgs, |imgs|);
  }
}
