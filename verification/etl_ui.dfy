/** The browser side of the pipeline (`ETL_UI.js`): the list of chosen steps,
    the colour of the arrow between consecutive steps, the rule that keeps
    results after a backward (red) arrow hidden, and what a click on a step
    sends to `run_etl`. The drawing, dragging and asynchronous requests are
    not modelled. */
module EtlUi {
  import opened Wrappers
  import opened Seqs
  import StepGate

  // ----- Canonical positions -----

  /** `stepOrder.indexOf(step)`: the first position of `step` in the
      browser's step list, which is the server's hierarchy list, or -1. */
  function CanonicalIndex(step: string): int {
    if step in StepGate.Canonical then FirstIndex(StepGate.Canonical, step) else -1
  }

  /** The browser and the server number the steps alike. */
  lemma CanonicalIndexIsStepOrder(step: string)
    ensures CanonicalIndex(step) == StepGate.StepOrder(step)
  {
    var c := StepGate.Canonical;
    var i := CanonicalIndex(step);
    if i >= 0 {
      assert c[i] == step;
      StepGate.CanonicalOrder(i);
    }
  }

  /** The arrow from the `i`-th to the next step points backwards under the
      numbering `rank`. The arrow rules are stated for any numbering and used
      with `CanonicalIndex`. */
  predicate Descends(rank: string -> int, steps: seq<string>, i: int)
    requires 0 <= i && i + 1 < |steps|
  {
    rank(steps[i + 1]) < rank(steps[i])
  }

  // ----- findFirstRedArrowIndex -----

  /** `findFirstRedArrowIndex(steps)`: the position after the first backward
      arrow, or -1 when every arrow points forwards. The page numbers the
      steps with `CanonicalIndex`. */
  method FindFirstRedArrowIndex(rank: string -> int, steps: seq<string>) returns (r: int)
    ensures r == -1 <==> forall i :: 0 <= i && i + 1 < |steps| ==> !Descends(rank, steps, i)
    ensures r != -1 ==> 1 <= r < |steps| && Descends(rank, steps, r - 1)
    ensures r != -1 ==> forall i :: 0 <= i < r - 1 ==> !Descends(rank, steps, i)
  {
    var i := 0;
    while i < |steps| - 1
      invariant 0 <= i <= |steps| && (i > 0 ==> i < |steps|)
      invariant forall k :: 0 <= k < i ==> !Descends(rank, steps, k)
    {
      var fromIdx := rank(steps[i]);
      var toIdx := rank(steps[i + 1]);
      if toIdx < fromIdx {
        assert Descends(rank, steps, i);
        return i + 1;
      }
      i := i + 1;
    }
    return -1;
  }

  // ----- The arrows of renderPipeline -----

  /** Red for a backward arrow, blue for one that skips steps, green for a
      step to the next one (or to the same level). */
  datatype Color = Red | Blue | Green

  function Classify(rank: string -> int, steps: seq<string>, i: nat): Color
    requires i + 1 < |steps|
  {
    var fromIdx := rank(steps[i]);
    var toIdx := rank(steps[i + 1]);
    if toIdx < fromIdx then Red
    else if toIdx - fromIdx > 1 then Blue
    else Green
  }

  /** The flags `renderPipeline` computes and keeps for `fetchResultForStep`. */
  datatype View = View(
    arrowColors: seq<Color>,
    processBlocked: bool,
    blockedIdx: int,
    showSkipMessage: bool,
    showReverseMessage: bool)

  /** The arrow loop of `renderPipeline`, from the `i`-th arrow on. */
  function ArrowLoop(rank: string -> int, steps: seq<string>, i: nat, v: View): (w: View)
    decreases |steps| - i
  {
    if i + 1 >= |steps| then v
    else
      var c := Classify(rank, steps, i);
      var next :=
        if c == Red then
          v.(arrowColors := v.arrowColors + [c], showReverseMessage := true, processBlocked := true, blockedIdx := i + 1)
        else if c == Blue then
          v.(arrowColors := v.arrowColors + [c], showSkipMessage := true)
        else
          v.(arrowColors := v.arrowColors + [c]);
      ArrowLoop(rank, steps, i + 1, next)
  }

  /** What `renderPipeline()` leaves behind for the list, under `rank`. */
  function Render(rank: string -> int, steps: seq<string>): View {
    ArrowLoop(rank, steps, 0, View([], false, -1, false, false))
  }

  /** What `renderPipeline()` leaves behind for the current list. */
  function RenderPipeline(steps: seq<string>): View {
    Render(CanonicalIndex, steps)
  }

  /** The number of arrows: one per consecutive pair. */
  function Arrows(steps: seq<string>): nat {
    if |steps| == 0 then 0 else |steps| - 1
  }

  /** Some backward arrow starts at `i` or later. */
  predicate RedFrom(rank: string -> int, steps: seq<string>, i: nat) {
    exists k :: i <= k && k + 1 < |steps| && Descends(rank, steps, k)
  }

  /** The loop appends one colour per remaining arrow, each the colour of
      its arrow. */
  lemma {:induction false} ArrowLoopColors(rank: string -> int, steps: seq<string>, i: nat, v: View)
    requires i <= Arrows(steps)
    ensures |ArrowLoop(rank, steps, i, v).arrowColors| == |v.arrowColors| + Arrows(steps) - i
    ensures ArrowLoop(rank, steps, i, v).arrowColors[..|v.arrowColors|] == v.arrowColors
    ensures forall k :: i <= k < Arrows(steps) ==>
      ArrowLoop(rank, steps, i, v).arrowColors[|v.arrowColors| + k - i] == Classify(rank, steps, k)
    decreases |steps| - i
  {
    if i + 1 < |steps| {
      var c := Classify(rank, steps, i);
      var next := ArrowStep(rank, steps, i, v);
      ArrowLoopColors(rank, steps, i + 1, next);
      var w := ArrowLoop(rank, steps, i, v);
      assert w == ArrowLoop(rank, steps, i + 1, next);
      assert next.arrowColors == v.arrowColors + [c];
      assert w.arrowColors[..|v.arrowColors|] == next.arrowColors[..|next.arrowColors|][..|v.arrowColors|];
    }
  }

  /** The flags after the `i`-th arrow. */
  function ArrowStep(rank: string -> int, steps: seq<string>, i: nat, v: View): (next: View)
    requires i + 1 < |steps|
    ensures ArrowLoop(rank, steps, i, v) == ArrowLoop(rank, steps, i + 1, next)
    ensures next.arrowColors == v.arrowColors + [Classify(rank, steps, i)]
  {
    var c := Classify(rank, steps, i);
    if c == Red then
      v.(arrowColors := v.arrowColors + [c], showReverseMessage := true, processBlocked := true, blockedIdx := i + 1)
    else if c == Blue then
      v.(arrowColors := v.arrowColors + [c], showSkipMessage := true)
    else
      v.(arrowColors := v.arrowColors + [c])
  }

  /** The loop blocks exactly when a backward arrow is found, and then at the
      position after the LAST backward arrow. */
  lemma {:induction false} ArrowLoopBlocked(rank: string -> int, steps: seq<string>, i: nat, v: View)
    requires v.processBlocked <==> v.blockedIdx != -1
    requires v.showReverseMessage == v.processBlocked
    ensures var w := ArrowLoop(rank, steps, i, v);
      && (w.processBlocked <==> v.processBlocked || RedFrom(rank, steps, i))
      && w.showReverseMessage == w.processBlocked
      && (RedFrom(rank, steps, i) ==> LastRedAt(rank, steps, w.blockedIdx))
      && (!RedFrom(rank, steps, i) ==> w.blockedIdx == v.blockedIdx)
    decreases |steps| - i
  {
    if i + 1 < |steps| {
      var next := ArrowStep(rank, steps, i, v);
      ArrowLoopBlocked(rank, steps, i + 1, next);
      if RedFrom(rank, steps, i) && !RedFrom(rank, steps, i + 1) {
        var k :| i <= k && k + 1 < |steps| && Descends(rank, steps, k);
        assert k == i;
      }
      if RedFrom(rank, steps, i + 1) {
        var k :| i + 1 <= k && k + 1 < |steps| && Descends(rank, steps, k);
        assert RedFrom(rank, steps, i);
      }
      if Descends(rank, steps, i) {
        assert RedFrom(rank, steps, i);
      }
    } else {
      assert !RedFrom(rank, steps, i);
    }
  }

  /** `b` is the position after a backward arrow and no later arrow points
      backwards. */
  predicate LastRedAt(rank: string -> int, steps: seq<string>, b: int) {
    && 1 <= b < |steps| && Descends(rank, steps, b - 1)
    && forall k :: b <= k && k + 1 < |steps| ==> !Descends(rank, steps, k)
  }

  /** `renderPipeline` colours arrow `k` by its direction, blocks exactly
      when some arrow points backwards, and then sets `blockedIdx` after the
      last backward arrow. */
  lemma RenderSpec(rank: string -> int, steps: seq<string>)
    ensures var v := Render(rank, steps);
      && |v.arrowColors| == Arrows(steps)
      && (forall k :: 0 <= k < Arrows(steps) ==> v.arrowColors[k] == Classify(rank, steps, k))
      && (v.processBlocked <==> RedFrom(rank, steps, 0))
      && v.showReverseMessage == v.processBlocked
      && (v.processBlocked ==> LastRedAt(rank, steps, v.blockedIdx))
      && (!v.processBlocked ==> v.blockedIdx == -1)
  {
    var init := View([], false, -1, false, false);
    ArrowLoopColors(rank, steps, 0, init);
    ArrowLoopBlocked(rank, steps, 0, init);
  }

  /** An arrow is red exactly when it points backwards, blue exactly when it
      skips at least one step forwards, green when it goes up by at most one. */
  lemma ClassifyIff(rank: string -> int, steps: seq<string>, i: nat)
    requires i + 1 < |steps|
    ensures Classify(rank, steps, i) == Red <==> Descends(rank, steps, i)
    ensures Classify(rank, steps, i) == Blue <==> rank(steps[i + 1]) > rank(steps[i]) + 1
    ensures Classify(rank, steps, i) == Green <==> rank(steps[i]) <= rank(steps[i + 1]) <= rank(steps[i]) + 1
  {
  }

  // ----- fetchResultForStep -----

  /** What a request for the result of step `idx` does: nothing is shown,
      nothing is sent, or the steps up to `idx` are sent to `run_etl`. */
  datatype Fetch = Hidden | NotSent | Sent(steps: seq<string>)

  /** `fetchResultForStep(idx)` with the flags of the last render. */
  function FetchResultForStep(v: View, csvPath: Option<string>, pipeline: seq<string>, idx: nat): (f: Fetch)
  {
    if v.processBlocked && v.blockedIdx != -1 && idx >= v.blockedIdx then Hidden
    else if csvPath.None? || csvPath.value == "" || pipeline == [] then NotSent
    else Sent(pipeline[..if idx + 1 <= |pipeline| then idx + 1 else |pipeline|])
  }

  /** What is sent is the list up to and including step `idx`, so its last
      entry is the step whose result is asked for. */
  lemma FetchSendsPrefix(v: View, csvPath: Option<string>, pipeline: seq<string>, idx: nat)
    requires idx < |pipeline|
    requires FetchResultForStep(v, csvPath, pipeline, idx).Sent?
    ensures var s := FetchResultForStep(v, csvPath, pipeline, idx).steps;
      |s| == idx + 1 && s[idx] == pipeline[idx] && forall k :: 0 <= k <= idx ==> s[k] == pipeline[k]
  {
  }

  /** With the flags a render leaves, a step is hidden exactly when it lies
      at or after the position after the LAST backward arrow; a step between
      two backward arrows is still sent. */
  lemma FetchHiddenAsWritten(rank: string -> int, csvPath: Option<string>, pipeline: seq<string>, idx: nat)
    ensures FetchResultForStep(Render(rank, pipeline), csvPath, pipeline, idx) == Hidden <==>
      exists b :: LastRedAt(rank, pipeline, b) && b <= idx
  {
    var v := Render(rank, pipeline);
    RenderSpec(rank, pipeline);
    if exists b :: LastRedAt(rank, pipeline, b) && b <= idx {
      var b :| LastRedAt(rank, pipeline, b) && b <= idx;
      assert RedFrom(rank, pipeline, 0);
      LastRedUnique(rank, pipeline, b, v.blockedIdx);
    }
  }

  /** Only one position is after the last backward arrow. */
  lemma LastRedUnique(rank: string -> int, steps: seq<string>, b: int, c: int)
    requires LastRedAt(rank, steps, b) && LastRedAt(rank, steps, c)
    ensures b == c
  {
  }

  /** The first backward arrow, as `findFirstRedArrowIndex` finds it: the
      position after it, or -1. */
  function FirstRed(rank: string -> int, steps: seq<string>, i: nat): (r: int)
    ensures r == -1 <==> !RedFrom(rank, steps, i)
    ensures r != -1 ==> i + 1 <= r < |steps| && Descends(rank, steps, r - 1)
    ensures r != -1 ==> forall k :: i <= k < r - 1 ==> !Descends(rank, steps, k)
    decreases |steps| - i
  {
    if i + 1 >= |steps| then -1
    else if Descends(rank, steps, i) then i + 1
    else
      var r := FirstRed(rank, steps, i + 1);
      assert RedFrom(rank, steps, i) ==> RedFrom(rank, steps, i + 1) by {
        if RedFrom(rank, steps, i) {
          var k :| i <= k && k + 1 < |steps| && Descends(rank, steps, k);
          assert k != i;
        }
      }
      r
  }

  /** The flags with `blockedIdx` after the FIRST backward arrow, as the
      comment above the loop says it should be. */
  function RenderFirstRed(rank: string -> int, steps: seq<string>): (v: View)
    ensures v.blockedIdx == FirstRed(rank, steps, 0)
    ensures v.processBlocked <==> RedFrom(rank, steps, 0)
    ensures v.arrowColors == Render(rank, steps).arrowColors
  {
    var w := Render(rank, steps);
    RenderSpec(rank, steps);
    w.(blockedIdx := FirstRed(rank, steps, 0))
  }

  /** The corrected `renderPipeline()` for the current list. */
  function RenderPipelineFirstRed(steps: seq<string>): View {
    RenderFirstRed(CanonicalIndex, steps)
  }

  /** With the first backward arrow, a step is hidden exactly when some
      backward arrow comes before it. */
  lemma FetchHiddenFirstRed(rank: string -> int, csvPath: Option<string>, pipeline: seq<string>, idx: nat)
    ensures FetchResultForStep(RenderFirstRed(rank, pipeline), csvPath, pipeline, idx) == Hidden <==>
      exists k :: 0 <= k && k + 1 < |pipeline| && k + 1 <= idx && Descends(rank, pipeline, k)
  {
    var v := RenderFirstRed(rank, pipeline);
    if exists k :: 0 <= k && k + 1 < |pipeline| && k + 1 <= idx && Descends(rank, pipeline, k) {
      var k :| 0 <= k && k + 1 < |pipeline| && k + 1 <= idx && Descends(rank, pipeline, k);
      assert RedFrom(rank, pipeline, 0);
      assert v.blockedIdx <= k + 1;
    }
    if v.processBlocked && idx >= v.blockedIdx {
      assert Descends(rank, pipeline, v.blockedIdx - 1);
    }
  }

  /** The list clean, 2nf, fd, 3nf, 1nf has backward arrows into fd and into
      1nf. Asking for the 3nf result sends clean, 2nf, fd, 3nf, which the
      server accepts because it ends on its highest step, so a result after
      a backward arrow is shown. With the first backward arrow it is hidden. */
  lemma StepAfterRedArrowShown(p: seq<string>)
    requires p == ["clean", "2nf", "fd", "3nf", "1nf"]
    ensures Descends(CanonicalIndex, p, 1)
    ensures FetchResultForStep(RenderPipeline(p), Some("data.csv"), p, 3) == Sent(p[..4])
    ensures StepGate.Gate(Some("data.csv"), p[..4]).None?
    ensures FetchResultForStep(RenderPipelineFirstRed(p), Some("data.csv"), p, 3) == Hidden
  {
    ExampleArrows(p);
    ExampleSent(p);
    ExampleAdmitted(p);
    FetchHiddenFirstRed(CanonicalIndex, Some("data.csv"), p, 3);
  }

  /** As written, the 3nf result of the example list is requested. */
  lemma ExampleSent(p: seq<string>)
    requires p == ["clean", "2nf", "fd", "3nf", "1nf"]
    ensures FetchResultForStep(RenderPipeline(p), Some("data.csv"), p, 3) == Sent(p[..4])
  {
    ExampleArrows(p);
    RenderSpec(CanonicalIndex, p);
    LastRedUnique(CanonicalIndex, p, 4, RenderPipeline(p).blockedIdx);
  }

  /** The server accepts the request of the example. */
  lemma ExampleAdmitted(p: seq<string>)
    requires p == ["clean", "2nf", "fd", "3nf", "1nf"]
    ensures StepGate.Gate(Some("data.csv"), p[..4]).None?
  {
    assert p[..4] == ["clean", "2nf", "fd", "3nf"];
    StepGate.EarlierDescentPasses(p[..4]);
  }

  /** The arrows of the example list: into fd and into 1nf backwards, the
      others forwards. */
  lemma ExampleArrows(p: seq<string>)
    requires p == ["clean", "2nf", "fd", "3nf", "1nf"]
    ensures !Descends(CanonicalIndex, p, 0) && Descends(CanonicalIndex, p, 1)
    ensures !Descends(CanonicalIndex, p, 2) && Descends(CanonicalIndex, p, 3)
    ensures LastRedAt(CanonicalIndex, p, 4)
  {
    CanonicalRanks();
  }

  /** The numbers the browser gives the six steps. */
  lemma CanonicalRanks()
    ensures CanonicalIndex("clean") == 0 && CanonicalIndex("fd") == 1 && CanonicalIndex("1nf") == 2
    ensures CanonicalIndex("2nf") == 3 && CanonicalIndex("3nf") == 4 && CanonicalIndex("er") == 5
  {
    CanonicalIndexIsStepOrder("clean");
    CanonicalIndexIsStepOrder("fd");
    CanonicalIndexIsStepOrder("1nf");
    CanonicalIndexIsStepOrder("2nf");
    CanonicalIndexIsStepOrder("3nf");
    CanonicalIndexIsStepOrder("er");
  }

  // ----- The step list -----

  /** The page state the handlers share: the uploaded file's path, the
      chosen steps and whether an upload has finished. */
  datatype Page = Page(csvPath: Option<string>, pipeline: seq<string>, uploaded: bool)

  /** A sidebar button: before an upload nothing happens; otherwise the step
      is appended when absent and the result of the last step is fetched. */
  function ClickStep(p: Page, step: string): (r: (Page, Option<Fetch>))
  {
    if !p.uploaded then (p, None)
    else
      var pipeline := if step !in p.pipeline then p.pipeline + [step] else p.pipeline;
      var q := p.(pipeline := pipeline);
      (q, Some(FetchResultForStep(RenderPipeline(pipeline), q.csvPath, pipeline, |pipeline| - 1)))
  }

  /** After a click the step is appended at the end when it was absent and
      the list is unchanged otherwise, so a list without repeats stays so;
      the request is for the last step of the list. */
  lemma ClickStepSpec(p: Page, step: string)
    requires p.uploaded
    ensures var (q, f) := ClickStep(p, step);
      && (step !in p.pipeline ==> q.pipeline == p.pipeline + [step])
      && (step in p.pipeline ==> q.pipeline == p.pipeline)
      && (NoDup(p.pipeline) ==> NoDup(q.pipeline))
      && f == Some(FetchResultForStep(RenderPipeline(q.pipeline), p.csvPath, q.pipeline, |q.pipeline| - 1))
  {
  }

  /** "Clear pipeline" empties the list. */
  function ClearPipeline(p: Page): (q: Page)
    ensures q.pipeline == [] && q.csvPath == p.csvPath && q.uploaded == p.uploaded
  {
    p.(pipeline := [])
  }

  /** A finished upload records the new path and starts an empty list. */
  function UploadDone(p: Page, path: Option<string>): (q: Page)
    ensures q.pipeline == [] && q.csvPath == path && q.uploaded
  {
    Page(path, [], true)
  }

  datatype Event = Click(step: string) | Clear | Upload(path: Option<string>)

  /** The page after a run of events, starting from the page as loaded. */
  function Replay(p: Page, events: seq<Event>): Page
    decreases |events|
  {
    if events == [] then p
    else
      var q :=
        match events[0]
        case Click(s) => ClickStep(p, s).0
        case Clear => ClearPipeline(p)
        case Upload(path) => UploadDone(p, path);
      Replay(q, events[1..])
  }

  /** No sequence of clicks, clears and uploads puts a step in the list
      twice. */
  lemma {:induction false} ReplayNoDup(p: Page, events: seq<Event>)
    requires NoDup(p.pipeline)
    ensures NoDup(Replay(p, events).pipeline)
    decreases |events|
  {
    if events != [] {
      match events[0]
      case Click(s) =>
        if p.uploaded {
          ClickStepSpec(p, s);
        }
        ReplayNoDup(ClickStep(p, s).0, events[1..]);
      case Clear =>
        ReplayNoDup(ClearPipeline(p), events[1..]);
      case Upload(path) =>
        ReplayNoDup(UploadDone(p, path), events[1..]);
    }
  }
}
