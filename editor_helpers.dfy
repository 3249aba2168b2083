/**
 * The keyframe interpolation engine (`interpolateElementsStates`) and the template catalog
 * merge of `loadTemplates` (src/js/components/Editor/EditorHelpers.ts).
 *
 * The imperative method `InterpolateElementsStates` follows the source loop by loop and is
 * proved equal to `Resolve`, a declarative definition: element `e` is posed at frame `i` by
 * the segment that starts at the last keyframe of `e` at or before `i` and runs toward the
 * next keyframe (or the end of the timeline), cut short by a truthy `lastFrameIndex`.
 */
module EditorHelpers {
  import opened Wrappers
  import opened Types

  // ---------------------------------------------------------------------------------------
  // Keyframe search

  /** The last keyframe of `id` strictly before frame `n`. */
  function LastKeyBefore(frames: seq<Frame>, id: string, n: nat): (r: Option<nat>)
    requires n <= |frames|
    ensures r.Some? ==> r.value < n && id in frames[r.value]
    ensures r.Some? ==> forall q :: r.value < q < n ==> id !in frames[q]
    ensures r.None? ==> forall q :: 0 <= q < n ==> id !in frames[q]
  {
    if n == 0 then None
    else if id in frames[n - 1] then Some(n - 1)
    else LastKeyBefore(frames, id, n - 1)
  }

  /** The first keyframe of `id` at or after frame `n`. */
  function NextKeyFrom(frames: seq<Frame>, id: string, n: nat): (r: Option<nat>)
    requires n <= |frames|
    ensures r.Some? ==> n <= r.value < |frames| && id in frames[r.value]
    ensures r.Some? ==> forall q :: n <= q < r.value ==> id !in frames[q]
    ensures r.None? ==> forall q :: n <= q < |frames| ==> id !in frames[q]
    decreases |frames| - n
  {
    if n == |frames| then None
    else if id in frames[n] then Some(n)
    else NextKeyFrom(frames, id, n + 1)
  }

  // ---------------------------------------------------------------------------------------
  // One segment (`interpolateState`)

  /** JavaScript truthiness of `lastFrameIndex`: present and not 0. */
  predicate Truthy(last: Option<int>) {
    last.Some? && last.value != 0
  }

  /** `lastFrameIndex ? Math.min(lastFrameIndex, to) : to`. */
  function Cut(last: Option<int>, to: int): int {
    if Truthy(last) && last.value < to then last.value else to
  }

  /**
   * The key `templates[element.templateId]` reads: a missing `templateId` is `undefined`,
   * which JavaScript turns into the property name "undefined".
   */
  function TemplateKey(e: Element): string {
    if e.templateId.Some? then e.templateId.value else "undefined"
  }

  /** `templates[element.templateId]?.url`. */
  function TemplateUrl(templates: map<string, Template>, e: Element): Option<string> {
    var key := TemplateKey(e);
    if key in templates then Some(templates[key].url) else None
  }

  /** `(frames[to] && frames[to][id]) || statePrev`: the pose interpolated toward. */
  function TargetState(frames: seq<Frame>, id: string, from: nat, to: int): Element
    requires from < |frames| && id in frames[from]
  {
    if 0 <= to < |frames| && id in frames[to] then frames[to][id] else frames[from][id]
  }

  /**
   * The element pushed `step` frames into a segment of length `span` running from pose
   * `prev` toward pose `next`: every field of the registry element `e`, the template URL
   * as `image`, and geometry moved by `step` increments of `(next - prev) / span`.
   */
  function Interpolated(e: Element, templates: map<string, Template>, prev: Element, next: Element,
                        step: int, span: int): Element
    requires span > 0
  {
    e.(image := TemplateUrl(templates, e),
       position := Vec(Advance(prev.position.x, next.position.x, step, span),
                       Advance(prev.position.y, next.position.y, step, span)),
       scale := Vec(Advance(prev.scale.x, next.scale.x, step, span),
                    Advance(prev.scale.y, next.scale.y, step, span)),
       rotation := Advance(prev.rotation, next.rotation, step, span))
  }

  /** One coordinate `step` increments of `(b - a) * (1 / span)` past `a`, as the source computes it. */
  function Advance(a: real, b: real, step: int, span: int): real
    requires span > 0
  {
    a + (b - a) * (1.0 / span as real) * step as real
  }

  /** The source's vector step arithmetic computes the coordinates of `Interpolated`. */
  lemma VecStep(prev: Vec, next: Vec, step: int, span: int)
    requires span > 0
    ensures Plus(prev, Times(Times(Minus(next, prev), 1.0 / span as real), step as real))
      == Vec(Advance(prev.x, next.x, step, span), Advance(prev.y, next.y, step, span))
  {
  }

  /** The source's scalar step arithmetic computes the rotation of `Interpolated`. */
  lemma RealStep(a: real, b: real, koef: real, step: int, span: int)
    requires span > 0 && koef == 1.0 / span as real
    ensures a + (b - a) * koef * step as real == Advance(a, b, step, span)
  {
  }

  /** The entry the source builds at `step` of a segment of `span` frames is `Interpolated`. */
  lemma PushedIsInterpolated(e: Element, templates: map<string, Template>, prev: Element, next: Element,
                             koef: real, stepPosition: Vec, stepScale: Vec, stepRotation: real,
                             step: int, span: int)
    requires span > 0 && koef == 1.0 / span as real
    requires stepPosition == Times(Minus(next.position, prev.position), koef)
    requires stepScale == Times(Minus(next.scale, prev.scale), koef)
    requires stepRotation == (next.rotation - prev.rotation) * koef
    ensures e.(image := TemplateUrl(templates, e),
               position := Plus(prev.position, Times(stepPosition, step as real)),
               scale := Plus(prev.scale, Times(stepScale, step as real)),
               rotation := prev.rotation + stepRotation * step as real)
      == Interpolated(e, templates, prev, next, step, span)
  {
    VecStep(prev.position, next.position, step, span);
    VecStep(prev.scale, next.scale, step, span);
    RealStep(prev.rotation, next.rotation, koef, step, span);
  }

  /** What `interpolateState(e, from, to)` pushes into frame `i` (nothing when `i >= to`). */
  function SegmentPose(e: Element, frames: seq<Frame>, templates: map<string, Template>,
                       from: nat, to: int, i: nat): Option<Element>
    requires from <= i && from < |frames| && e.id in frames[from]
  {
    if i < to then
      Some(Interpolated(e, templates, frames[from][e.id], TargetState(frames, e.id, from, to), i - from, to - from))
    else None
  }

  // ---------------------------------------------------------------------------------------
  // The specification of the whole engine

  /**
   * The entry element `e` gets in frame `i`: none before its first keyframe; inside a
   * segment `[p, k)` between consecutive keyframes the interpolated pose, unless `i` is at
   * or after `Cut(lastFrameIndex, k)`; after the last keyframe `p` the held pose up to
   * `Cut(lastFrameIndex, |frames|)`, but only when `p` is not the final frame.
   */
  function PoseAt(e: Element, frames: seq<Frame>, templates: map<string, Template>, i: nat): Option<Element>
    requires i < |frames|
  {
    match LastKeyBefore(frames, e.id, i + 1)
    case None => None
    case Some(p) =>
      match NextKeyFrom(frames, e.id, i + 1)
      case Some(k) => SegmentPose(e, frames, templates, p, Cut(e.lastFrameIndex, k), i)
      case None =>
        if p < |frames| - 1 then SegmentPose(e, frames, templates, p, Cut(e.lastFrameIndex, |frames|), i)
        else None
  }

  /** A present pose as a one-entry list, an absent one as the empty list. */
  function Entry(o: Option<Element>): seq<Element> {
    if o.Some? then [o.value] else []
  }

  /** Frame `i` of the result: the entries of `es`, in registry order. */
  function RenderList(es: seq<Element>, frames: seq<Frame>, templates: map<string, Template>, i: nat): seq<Element>
    requires i < |frames|
  {
    if es == [] then []
    else RenderList(es[..|es| - 1], frames, templates, i) + Entry(PoseAt(es[|es| - 1], frames, templates, i))
  }

  /** The dense per-frame render lists of a scene. */
  function Resolve(es: seq<Element>, frames: seq<Frame>, templates: map<string, Template>): seq<seq<Element>> {
    seq(|frames|, i requires 0 <= i < |frames| => RenderList(es, frames, templates, i))
  }

  // ---------------------------------------------------------------------------------------
  // The source algorithm

  /**
   * `interpolateState(element, from, to)`: pushes one interpolated entry into every frame
   * of `[from, to)`.
   */
  method InterpolateState(byFrames: seq<seq<Element>>, e: Element, frames: seq<Frame>,
                          templates: map<string, Template>, from: nat, to: int)
    returns (r: seq<seq<Element>>)
    requires |byFrames| == |frames|
    requires from < |frames| && e.id in frames[from]
    requires to <= |frames|
    ensures |r| == |frames|
    ensures forall i :: 0 <= i < |frames| ==>
      r[i] == byFrames[i] + (if from <= i then Entry(SegmentPose(e, frames, templates, from, to, i)) else [])
  {
    var statePrev := frames[from][e.id];
    var stateNext := TargetState(frames, e.id, from, to);
    // The source divides by `to - from` even when it is 0; the loop then pushes nothing.
    var stepKoef := if from < to then 1.0 / (to - from) as real else 0.0;
    var stepPosition := Times(Minus(stateNext.position, statePrev.position), stepKoef);
    var stepScale := Times(Minus(stateNext.scale, statePrev.scale), stepKoef);
    var stepRotation := (stateNext.rotation - statePrev.rotation) * stepKoef;
    r := byFrames;
    var i, step := from, 0;
    while i < to
      invariant from <= i && step == i - from
      invariant i <= to || i == from
      invariant |r| == |frames|
      invariant forall j :: 0 <= j < |frames| ==>
        r[j] == byFrames[j] + (if from <= j < i then Entry(SegmentPose(e, frames, templates, from, to, j)) else [])
    {
      var pushed := e.(image := TemplateUrl(templates, e),
                       position := Plus(statePrev.position, Times(stepPosition, step as real)),
                       scale := Plus(statePrev.scale, Times(stepScale, step as real)),
                       rotation := statePrev.rotation + stepRotation * step as real);
      PushedIsInterpolated(e, templates, statePrev, stateNext, stepKoef, stepPosition, stepScale, stepRotation,
                           step, to - from);
      r := r[i := r[i] + [pushed]];
      i, step := i + 1, step + 1;
    }
  }

  /**
   * `interpolateElementsStates(elements, frames, templates)`: allocates one empty list per
   * frame, then lets every element, in registry order, push its entries.
   */
  method InterpolateElementsStates(elements: seq<Element>, frames: seq<Frame>, templates: map<string, Template>)
    returns (elementsByFrames: seq<seq<Element>>)
    ensures |elementsByFrames| == |frames|
    ensures elementsByFrames == Resolve(elements, frames, templates)
  {
    elementsByFrames := seq(|frames|, _ => []);
    var n := 0;
    while n < |elements|
      invariant 0 <= n <= |elements|
      invariant |elementsByFrames| == |frames|
      invariant forall i :: 0 <= i < |frames| ==> elementsByFrames[i] == RenderList(elements[..n], frames, templates, i)
    {
      elementsByFrames := InterpolateElement(elementsByFrames, elements[n], frames, templates);
      assert elements[..n + 1][..n] == elements[..n];
      n := n + 1;
    }
    assert elements[..n] == elements;
  }

  /**
   * The body of `elements.forEach(element => ...)`: scans the frames for the keyframes of
   * `element`, fills each segment between consecutive keyframes, then the tail after the
   * last one.
   */
  method InterpolateElement(byFrames: seq<seq<Element>>, element: Element, frames: seq<Frame>,
                            templates: map<string, Template>)
    returns (r: seq<seq<Element>>)
    requires |byFrames| == |frames|
    ensures |r| == |frames|
    ensures forall i :: 0 <= i < |frames| ==> r[i] == byFrames[i] + Entry(PoseAt(element, frames, templates, i))
  {
    r := byFrames;
    var statePrevFrameIndex: Option<nat> := None;
    var frameIndex := 0;
    while frameIndex < |frames|
      invariant 0 <= frameIndex <= |frames|
      invariant statePrevFrameIndex == LastKeyBefore(frames, element.id, frameIndex)
      invariant |r| == |frames|
      invariant forall i :: 0 <= i < |frames| ==>
        r[i] == byFrames[i] + ClosedEntry(element, frames, templates, statePrevFrameIndex, i)
    {
      if element.id in frames[frameIndex] {
        if statePrevFrameIndex.Some? {
          var lastIndex := Cut(element.lastFrameIndex, frameIndex);
          ghost var r0 := r;
          r := InterpolateState(r, element, frames, templates, statePrevFrameIndex.value, lastIndex);
          SegmentStep(byFrames, r0, r, element, frames, templates, statePrevFrameIndex.value, frameIndex);
        } else {
          FirstKeyStep(byFrames, r, element, frames, templates, frameIndex);
        }
        statePrevFrameIndex := Some(frameIndex);
      }
      frameIndex := frameIndex + 1;
    }
    if statePrevFrameIndex.Some? && statePrevFrameIndex.value < |frames| - 1 {
      var lastIndex := Cut(element.lastFrameIndex, |frames|);
      ghost var r0 := r;
      r := InterpolateState(r, element, frames, templates, statePrevFrameIndex.value, lastIndex);
      TailStep(byFrames, r0, r, element, frames, templates, statePrevFrameIndex.value);
    } else {
      NoTailStep(byFrames, r, element, frames, templates, statePrevFrameIndex);
    }
  }

  /** The entries of `e` already pushed once the scan has seen keyframe `prev`. */
  function ClosedEntry(e: Element, frames: seq<Frame>, templates: map<string, Template>, prev: Option<nat>, i: nat): seq<Element>
    requires i < |frames|
  {
    if prev.Some? && i < prev.value then Entry(PoseAt(e, frames, templates, i)) else []
  }

  /**
   * Filling the segment from keyframe `p` up to the next keyframe `k` closes every frame
   * before `k`.
   */
  lemma SegmentStep(byFrames: seq<seq<Element>>, r0: seq<seq<Element>>, r: seq<seq<Element>>, e: Element,
                    frames: seq<Frame>, templates: map<string, Template>, p: nat, k: nat)
    requires |byFrames| == |frames| && |r0| == |frames| && |r| == |frames|
    requires k < |frames| && e.id in frames[k] && Some(p) == LastKeyBefore(frames, e.id, k)
    requires forall i :: 0 <= i < |frames| ==> r0[i] == byFrames[i] + ClosedEntry(e, frames, templates, Some(p), i)
    requires forall i :: 0 <= i < |frames| ==>
      r[i] == r0[i] + (if p <= i then Entry(SegmentPose(e, frames, templates, p, Cut(e.lastFrameIndex, k), i)) else [])
    ensures forall i :: 0 <= i < |frames| ==> r[i] == byFrames[i] + ClosedEntry(e, frames, templates, Some(k), i)
  {
    SegmentClosed(e, frames, templates, p, k);
    forall i | 0 <= i < |frames|
      ensures r[i] == byFrames[i] + ClosedEntry(e, frames, templates, Some(k), i)
    {
      if p <= i < k {
        assert r[i] == r0[i] + Entry(SegmentPose(e, frames, templates, p, Cut(e.lastFrameIndex, k), i));
      } else {
        assert r[i] == r0[i];
      }
    }
  }

  /** Reaching the first keyframe `k` closes every frame before it, all of them empty. */
  lemma FirstKeyStep(byFrames: seq<seq<Element>>, r: seq<seq<Element>>, e: Element,
                     frames: seq<Frame>, templates: map<string, Template>, k: nat)
    requires |byFrames| == |frames| && |r| == |frames|
    requires k < |frames| && LastKeyBefore(frames, e.id, k).None?
    requires forall i :: 0 <= i < |frames| ==> r[i] == byFrames[i] + ClosedEntry(e, frames, templates, None, i)
    ensures forall i :: 0 <= i < |frames| ==> r[i] == byFrames[i] + ClosedEntry(e, frames, templates, Some(k), i)
  {
    forall i | 0 <= i < k
      ensures PoseAt(e, frames, templates, i).None?
    {
      assert LastKeyBefore(frames, e.id, i + 1).None?;
    }
  }

  /** Filling the tail after the last keyframe `p` closes every frame. */
  lemma TailStep(byFrames: seq<seq<Element>>, r0: seq<seq<Element>>, r: seq<seq<Element>>, e: Element,
                 frames: seq<Frame>, templates: map<string, Template>, p: nat)
    requires |byFrames| == |frames| && |r0| == |frames| && |r| == |frames|
    requires Some(p) == LastKeyBefore(frames, e.id, |frames|) && p < |frames| - 1
    requires forall i :: 0 <= i < |frames| ==> r0[i] == byFrames[i] + ClosedEntry(e, frames, templates, Some(p), i)
    requires forall i :: 0 <= i < |frames| ==>
      r[i] == r0[i] + (if p <= i then Entry(SegmentPose(e, frames, templates, p, Cut(e.lastFrameIndex, |frames|), i)) else [])
    ensures forall i :: 0 <= i < |frames| ==> r[i] == byFrames[i] + Entry(PoseAt(e, frames, templates, i))
  {
    forall i | 0 <= i < |frames|
      ensures r[i] == byFrames[i] + Entry(PoseAt(e, frames, templates, i))
    {
      TailAt(byFrames[i], r0[i], r[i], e, frames, templates, p, i);
    }
  }

  /** `TailStep` for one frame. */
  lemma TailAt(b: seq<Element>, c0: seq<Element>, c: seq<Element>, e: Element,
               frames: seq<Frame>, templates: map<string, Template>, p: nat, i: nat)
    requires Some(p) == LastKeyBefore(frames, e.id, |frames|) && p < |frames| - 1 && i < |frames|
    requires c0 == b + ClosedEntry(e, frames, templates, Some(p), i)
    requires c == c0 + (if p <= i then Entry(SegmentPose(e, frames, templates, p, Cut(e.lastFrameIndex, |frames|), i)) else [])
    ensures c == b + Entry(PoseAt(e, frames, templates, i))
  {
    if p <= i {
      HeldPose(e, frames, templates, p, i);
      assert c0 == b;
    } else {
      assert c == c0;
    }
  }

  /** From the last keyframe `p` on, `PoseAt` is the pose of the tail segment. */
  lemma HeldPose(e: Element, frames: seq<Frame>, templates: map<string, Template>, p: nat, i: nat)
    requires Some(p) == LastKeyBefore(frames, e.id, |frames|) && p < |frames| - 1 && p <= i < |frames|
    ensures PoseAt(e, frames, templates, i) == SegmentPose(e, frames, templates, p, Cut(e.lastFrameIndex, |frames|), i)
  {
    assert LastKeyBefore(frames, e.id, i + 1) == Some(p);
    assert NextKeyFrom(frames, e.id, i + 1).None?;
  }

  /** Without a tail to fill, the scan has already closed every frame. */
  lemma NoTailStep(byFrames: seq<seq<Element>>, r: seq<seq<Element>>, e: Element,
                   frames: seq<Frame>, templates: map<string, Template>, prev: Option<nat>)
    requires |byFrames| == |frames| && |r| == |frames|
    requires prev == LastKeyBefore(frames, e.id, |frames|) && (prev.None? || prev.value >= |frames| - 1)
    requires forall i :: 0 <= i < |frames| ==> r[i] == byFrames[i] + ClosedEntry(e, frames, templates, prev, i)
    ensures forall i :: 0 <= i < |frames| ==> r[i] == byFrames[i] + Entry(PoseAt(e, frames, templates, i))
  {
    TailClosed(e, frames, templates, prev);
    forall i | 0 <= i < |frames|
      ensures r[i] == byFrames[i] + Entry(PoseAt(e, frames, templates, i))
    {
      assert ClosedEntry(e, frames, templates, prev, i) + [] == ClosedEntry(e, frames, templates, prev, i);
    }
  }

  /** Inside a segment `[p, k)` between consecutive keyframes, `PoseAt` is that segment's pose. */
  lemma SegmentClosed(e: Element, frames: seq<Frame>, templates: map<string, Template>, p: nat, k: nat)
    requires p < k < |frames| && e.id in frames[p] && e.id in frames[k]
    requires forall q :: p < q < k ==> e.id !in frames[q]
    ensures forall i :: p <= i < k ==>
      PoseAt(e, frames, templates, i) == SegmentPose(e, frames, templates, p, Cut(e.lastFrameIndex, k), i)
  {
    forall i | p <= i < k
      ensures PoseAt(e, frames, templates, i) == SegmentPose(e, frames, templates, p, Cut(e.lastFrameIndex, k), i)
    {
      var last := LastKeyBefore(frames, e.id, i + 1);
      var next := NextKeyFrom(frames, e.id, i + 1);
      assert last == Some(p);
      assert next == Some(k);
    }
  }

  /** After the scan and the tail, every frame holds exactly the entry `PoseAt` gives. */
  lemma TailClosed(e: Element, frames: seq<Frame>, templates: map<string, Template>, prev: Option<nat>)
    requires prev == LastKeyBefore(frames, e.id, |frames|)
    ensures forall i :: 0 <= i < |frames| ==>
      ClosedEntry(e, frames, templates, prev, i)
      + (if prev.Some? && prev.value < |frames| - 1 && prev.value <= i
         then Entry(SegmentPose(e, frames, templates, prev.value, Cut(e.lastFrameIndex, |frames|), i))
         else [])
      == Entry(PoseAt(e, frames, templates, i))
  {
    forall i | 0 <= i < |frames|
      ensures ClosedEntry(e, frames, templates, prev, i)
      + (if prev.Some? && prev.value < |frames| - 1 && prev.value <= i
         then Entry(SegmentPose(e, frames, templates, prev.value, Cut(e.lastFrameIndex, |frames|), i))
         else [])
      == Entry(PoseAt(e, frames, templates, i))
    {
      if prev.Some? && prev.value <= i {
        var last := LastKeyBefore(frames, e.id, i + 1);
        assert last == prev;
        var next := NextKeyFrom(frames, e.id, i + 1);
        assert next.None?;
      } else if prev.None? {
        var last := LastKeyBefore(frames, e.id, i + 1);
        assert last.None?;
      }
    }
  }

  // ---------------------------------------------------------------------------------------
  // Properties of the resolved timeline

  /** Geometry of an element: what interpolation changes. */
  function Geometry(e: Element): (Vec, Vec, real) {
    (e.position, e.scale, e.rotation)
  }

  /**
   * An entry is the registry element with its template URL as `image` and new geometry:
   * every other field comes from the registry, whatever the keyframes hold.
   */
  lemma EntryKeepsRegistryFields(e: Element, frames: seq<Frame>, templates: map<string, Template>, i: nat)
    requires i < |frames| && PoseAt(e, frames, templates, i).Some?
    ensures var x := PoseAt(e, frames, templates, i).value;
      x.(position := e.position, scale := e.scale, rotation := e.rotation) == e.(image := TemplateUrl(templates, e))
  {
  }

  /** Frame `i` lists an entry exactly when some registry element is posed at `i`. */
  lemma {:induction false} RenderListMembers(es: seq<Element>, frames: seq<Frame>, templates: map<string, Template>, i: nat, x: Element)
    requires i < |frames|
    ensures x in RenderList(es, frames, templates, i) <==>
      exists j :: 0 <= j < |es| && PoseAt(es[j], frames, templates, i) == Some(x)
  {
    if es != [] {
      var init := es[..|es| - 1];
      var last := PoseAt(es[|es| - 1], frames, templates, i);
      RenderListMembers(init, frames, templates, i, x);
      assert x in RenderList(es, frames, templates, i) <==> x in RenderList(init, frames, templates, i) || last == Some(x);
      if x in RenderList(init, frames, templates, i) {
        var j :| 0 <= j < |init| && PoseAt(init[j], frames, templates, i) == Some(x);
        assert es[j] == init[j];
      }
      if exists j :: 0 <= j < |es| && PoseAt(es[j], frames, templates, i) == Some(x) {
        var j :| 0 <= j < |es| && PoseAt(es[j], frames, templates, i) == Some(x);
        if j < |es| - 1 {
          assert init[j] == es[j];
        }
      }
    }
  }

  /** An entry carries the id of the element it poses. */
  lemma PoseKeepsId(e: Element, frames: seq<Frame>, templates: map<string, Template>, i: nat)
    requires i < |frames| && PoseAt(e, frames, templates, i).Some?
    ensures PoseAt(e, frames, templates, i).value.id == e.id
  {
  }

  /** Before the first keyframe of `id`, no frame lists an entry with that id. */
  lemma AbsentBeforeFirstKeyframe(es: seq<Element>, frames: seq<Frame>, templates: map<string, Template>,
                                  id: string, i: nat)
    requires i < |frames|
    requires forall q :: 0 <= q <= i ==> id !in frames[q]
    ensures forall x :: x in RenderList(es, frames, templates, i) ==> x.id != id
  {
    forall x | x in RenderList(es, frames, templates, i) ensures x.id != id {
      RenderListMembers(es, frames, templates, i, x);
      var j :| 0 <= j < |es| && PoseAt(es[j], frames, templates, i) == Some(x);
      PoseKeepsId(es[j], frames, templates, i);
      // Relabelled with `id`, the element has no pose; were its id `id`, that would be itself.
      NoPoseBeforeFirstKey(es[j].(id := id), frames, templates, i);
      assert es[j].id != id;
    }
  }

  /** An element with no keyframe up to frame `i` has no pose at `i`. */
  lemma NoPoseBeforeFirstKey(e: Element, frames: seq<Frame>, templates: map<string, Template>, i: nat)
    requires i < |frames|
    requires forall q :: 0 <= q <= i ==> e.id !in frames[q]
    ensures PoseAt(e, frames, templates, i).None?
  {
    assert LastKeyBefore(frames, e.id, i + 1).None?;
  }

  /** `Ids` distributes over concatenation. */
  lemma IdsAppend(a: seq<Element>, b: seq<Element>)
    ensures Ids(a + b) == Ids(a) + Ids(b)
  {
  }

  /** At a keyframe that starts a segment, the entry is posed exactly as the keyframe. */
  lemma SegmentStartIsKeyframe(e: Element, frames: seq<Frame>, templates: map<string, Template>, p: nat)
    requires p < |frames| && e.id in frames[p]
    requires PoseAt(e, frames, templates, p).Some?
    ensures Geometry(PoseAt(e, frames, templates, p).value) == Geometry(frames[p][e.id])
  {
    var last := LastKeyBefore(frames, e.id, p + 1);
    assert last == Some(p);
  }

  /**
   * Between consecutive keyframes at `p < k`, frame `i` is listed exactly when it lies
   * before `Cut(lastFrameIndex, k)`.
   */
  lemma PresenceInSegment(e: Element, frames: seq<Frame>, templates: map<string, Template>, p: nat, k: nat, i: nat)
    requires p <= i < k < |frames| && e.id in frames[p] && e.id in frames[k]
    requires forall q :: p < q < k ==> e.id !in frames[q]
    ensures PoseAt(e, frames, templates, i).Some? <==> i < Cut(e.lastFrameIndex, k)
  {
    SegmentClosed(e, frames, templates, p, k);
  }

  /** The point `s / span` of the way from `a` to `b`. */
  function Lerp(a: real, b: real, s: nat, span: nat): real
    requires span > 0
  {
    a + s as real * (b - a) / span as real
  }

  /** The geometry `Interpolated` produces, written as a fraction of the span. */
  lemma InterpolatedGeometry(e: Element, templates: map<string, Template>, prev: Element, next: Element, s: nat, span: nat)
    requires span > 0
    ensures var x := Interpolated(e, templates, prev, next, s, span);
      && x.position == Vec(Lerp(prev.position.x, next.position.x, s, span), Lerp(prev.position.y, next.position.y, s, span))
      && x.scale == Vec(Lerp(prev.scale.x, next.scale.x, s, span), Lerp(prev.scale.y, next.scale.y, s, span))
      && x.rotation == Lerp(prev.rotation, next.rotation, s, span)
  {
    AdvanceIsLerp(prev.position.x, next.position.x, s, span);
    AdvanceIsLerp(prev.position.y, next.position.y, s, span);
    AdvanceIsLerp(prev.scale.x, next.scale.x, s, span);
    AdvanceIsLerp(prev.scale.y, next.scale.y, s, span);
    AdvanceIsLerp(prev.rotation, next.rotation, s, span);
  }

  lemma AdvanceIsLerp(a: real, b: real, s: nat, span: nat)
    requires span > 0
    ensures Advance(a, b, s, span) == Lerp(a, b, s, span)
  {
    ScaledStep(b - a, span as real, s as real);
  }

  /** `d * (1 / span) * s == s * d / span`. */
  lemma ScaledStep(d: real, span: real, s: real)
    requires span > 0.0
    ensures d * (1.0 / span) * s == s * d / span
  {
    calc {
      d * (1.0 / span) * s;
      (d * s) * (1.0 / span);
      (d * s) / span;
      s * d / span;
    }
  }

  /**
   * Linear interpolation: between consecutive keyframes at `p < k` of an element that is
   * not truncated before `k`, frame `p + s` gets `prev + s * (next - prev) / (k - p)` for
   * position, scale and rotation.
   */
  lemma LinearInterpolation(e: Element, frames: seq<Frame>, templates: map<string, Template>, p: nat, k: nat, s: nat)
    requires p < k < |frames| && e.id in frames[p] && e.id in frames[k]
    requires forall q :: p < q < k ==> e.id !in frames[q]
    requires s < k - p
    requires !Truthy(e.lastFrameIndex) || e.lastFrameIndex.value >= k
    ensures PoseAt(e, frames, templates, p + s).Some?
    ensures var x := PoseAt(e, frames, templates, p + s).value;
      var prev := frames[p][e.id];
      var next := frames[k][e.id];
      && x.position == Vec(Lerp(prev.position.x, next.position.x, s, k - p), Lerp(prev.position.y, next.position.y, s, k - p))
      && x.scale == Vec(Lerp(prev.scale.x, next.scale.x, s, k - p), Lerp(prev.scale.y, next.scale.y, s, k - p))
      && x.rotation == Lerp(prev.rotation, next.rotation, s, k - p)
  {
    PoseInSegment(e, frames, templates, p, k, s);
    InterpolatedGeometry(e, templates, frames[p][e.id], frames[k][e.id], s, k - p);
  }

  /** Frame `p + s` of an untruncated segment `[p, k)` gets the `s`-th interpolation step. */
  lemma PoseInSegment(e: Element, frames: seq<Frame>, templates: map<string, Template>, p: nat, k: nat, s: nat)
    requires p < k < |frames| && e.id in frames[p] && e.id in frames[k]
    requires forall q :: p < q < k ==> e.id !in frames[q]
    requires s < k - p
    requires !Truthy(e.lastFrameIndex) || e.lastFrameIndex.value >= k
    ensures PoseAt(e, frames, templates, p + s) == Some(Interpolated(e, templates, frames[p][e.id], frames[k][e.id], s, k - p))
  {
    var last := LastKeyBefore(frames, e.id, p + s + 1);
    var next := NextKeyFrom(frames, e.id, p + s + 1);
    assert last == Some(p);
    assert next == Some(k);
    assert Cut(e.lastFrameIndex, k) == k;
  }

  /** Interpolating from a pose toward itself holds it. */
  lemma InterpolatedHold(e: Element, templates: map<string, Template>, prev: Element, s: nat, span: nat)
    requires span > 0
    ensures Geometry(Interpolated(e, templates, prev, prev, s, span)) == Geometry(prev)
  {
  }

  /**
   * After the last keyframe `p` the pose is held: frame `i >= p` is listed exactly when
   * `p` is not the final frame and `i` lies before `Cut(lastFrameIndex, |frames|)`, and
   * then with the geometry of keyframe `p`.
   */
  lemma HeldAfterLastKeyframe(e: Element, frames: seq<Frame>, templates: map<string, Template>, p: nat, i: nat)
    requires p <= i < |frames| && e.id in frames[p]
    requires forall q :: p < q < |frames| ==> e.id !in frames[q]
    ensures PoseAt(e, frames, templates, i).Some? <==> p < |frames| - 1 && i < Cut(e.lastFrameIndex, |frames|)
    ensures PoseAt(e, frames, templates, i).Some? ==>
      Geometry(PoseAt(e, frames, templates, i).value) == Geometry(frames[p][e.id])
  {
    var last := LastKeyBefore(frames, e.id, i + 1);
    assert last == Some(p);
    var next := NextKeyFrom(frames, e.id, i + 1);
    assert next.None?;
    var to := Cut(e.lastFrameIndex, |frames|);
    if p < |frames| - 1 && i < to {
      assert TargetState(frames, e.id, p, to) == frames[p][e.id];
      assert PoseAt(e, frames, templates, i)
        == Some(Interpolated(e, templates, frames[p][e.id], frames[p][e.id], i - p, to - p));
      InterpolatedHold(e, templates, frames[p][e.id], i - p, to - p);
    }
  }

  /** A keyframe on the final frame is never shown: frame `|frames| - 1` gets no entry for it. */
  lemma FinalKeyframeNotShown(e: Element, frames: seq<Frame>, templates: map<string, Template>)
    requires |frames| > 0 && e.id in frames[|frames| - 1]
    ensures PoseAt(e, frames, templates, |frames| - 1).None?
  {
    var last := LastKeyBefore(frames, e.id, |frames|);
    assert last == Some(|frames| - 1);
  }

  /** With a truthy `lastFrameIndex` L, the element is absent from every frame from L on. */
  lemma TruncatedFromLastFrameIndex(e: Element, frames: seq<Frame>, templates: map<string, Template>, i: nat)
    requires i < |frames| && Truthy(e.lastFrameIndex) && e.lastFrameIndex.value <= i
    ensures PoseAt(e, frames, templates, i).None?
  {
  }

  /** `lastFrameIndex` 0 counts as unset: it places the element exactly as an absent one. */
  lemma ZeroLastFrameIndexIsUnset(e: Element, frames: seq<Frame>, templates: map<string, Template>, i: nat)
    requires i < |frames|
    ensures var zero := PoseAt(e.(lastFrameIndex := Some(0)), frames, templates, i);
      var unset := PoseAt(e.(lastFrameIndex := None), frames, templates, i);
      && (zero.Some? <==> unset.Some?)
      && (zero.Some? ==> zero.value == unset.value.(lastFrameIndex := Some(0)))
  {
    var z := e.(lastFrameIndex := Some(0));
    var u := e.(lastFrameIndex := None);
    var last := LastKeyBefore(frames, e.id, i + 1);
    var next := NextKeyFrom(frames, e.id, i + 1);
    if last.Some? && (next.Some? || last.value < |frames| - 1) {
      var p := last.value;
      var to := if next.Some? then next.value else |frames|;
      assert Cut(z.lastFrameIndex, to) == to == Cut(u.lastFrameIndex, to);
      if i < to {
        var target := TargetState(frames, e.id, p, to);
        InterpolatedRelabel(e, templates, frames[p][e.id], target, i - p, to - p);
        assert PoseAt(z, frames, templates, i) == Some(Interpolated(z, templates, frames[p][e.id], target, i - p, to - p));
        assert PoseAt(u, frames, templates, i) == Some(Interpolated(u, templates, frames[p][e.id], target, i - p, to - p));
      }
    }
  }

  /** `lastFrameIndex` passes through interpolation untouched. */
  lemma InterpolatedRelabel(e: Element, templates: map<string, Template>, prev: Element, next: Element, step: int, span: int)
    requires span > 0
    ensures Interpolated(e.(lastFrameIndex := Some(0)), templates, prev, next, step, span)
      == Interpolated(e.(lastFrameIndex := None), templates, prev, next, step, span).(lastFrameIndex := Some(0))
  {
    assert TemplateUrl(templates, e.(lastFrameIndex := Some(0))) == TemplateUrl(templates, e.(lastFrameIndex := None));
  }

  /** `a` is a subsequence of `b`. */
  predicate IsSubsequence(a: seq<string>, b: seq<string>) {
    if a == [] then true
    else if b == [] then false
    else if a[|a| - 1] == b[|b| - 1] then IsSubsequence(a[..|a| - 1], b[..|b| - 1])
    else IsSubsequence(a, b[..|b| - 1])
  }

  /** Each frame lists its entries in registry order, at most one per registry element. */
  lemma {:induction false} RenderListFollowsRegistry(es: seq<Element>, frames: seq<Frame>, templates: map<string, Template>, i: nat)
    requires i < |frames|
    ensures IsSubsequence(Ids(RenderList(es, frames, templates, i)), Ids(es))
  {
    if es != [] {
      var init := es[..|es| - 1];
      var last := es[|es| - 1];
      RenderListFollowsRegistry(init, frames, templates, i);
      RenderIdsStep(es, frames, templates, i);
      var rs := Ids(RenderList(init, frames, templates, i));
      if PoseAt(last, frames, templates, i).None? {
        assert Ids(RenderList(es, frames, templates, i)) == rs + [] == rs;
        SubsequenceOfPrefix(rs, Ids(init), last.id);
      } else {
        SubsequenceAppend(rs, Ids(init), last.id);
      }
    }
  }

  /** The ids of a frame's list grow with the last registry element exactly when it is posed. */
  lemma RenderIdsStep(es: seq<Element>, frames: seq<Frame>, templates: map<string, Template>, i: nat)
    requires i < |frames| && es != []
    ensures var init := es[..|es| - 1];
      var last := es[|es| - 1];
      && Ids(es) == Ids(init) + [last.id]
      && Ids(RenderList(es, frames, templates, i)) == Ids(RenderList(init, frames, templates, i))
         + (if PoseAt(last, frames, templates, i).Some? then [last.id] else [])
  {
    var init := es[..|es| - 1];
    var last := es[|es| - 1];
    var o := PoseAt(last, frames, templates, i);
    IdsAppend(RenderList(init, frames, templates, i), Entry(o));
    assert es == init + [last];
    IdsAppend(init, [last]);
    if o.Some? {
      PoseKeepsId(last, frames, templates, i);
    }
  }

  /** Appending the same id to both sides keeps a subsequence. */
  lemma SubsequenceAppend(a: seq<string>, b: seq<string>, x: string)
    requires IsSubsequence(a, b)
    ensures IsSubsequence(a + [x], b + [x])
  {
    assert (a + [x])[..|a|] == a;
    assert (b + [x])[..|b|] == b;
  }

  /** A subsequence of `b` is a subsequence of `b + [x]`. */
  lemma SubsequenceOfPrefix(a: seq<string>, b: seq<string>, x: string)
    requires IsSubsequence(a, b)
    ensures IsSubsequence(a, b + [x])
  {
    if a == [] {
    } else {
      assert (b + [x])[..|b|] == b;
      if a[|a| - 1] == x {
        SubsequenceShorter(a, b);
      }
    }
  }

  /** Dropping the last element of a subsequence keeps it a subsequence. */
  lemma {:induction false} SubsequenceShorter(a: seq<string>, b: seq<string>)
    requires IsSubsequence(a, b) && a != []
    ensures IsSubsequence(a[..|a| - 1], b)
    decreases |b|
  {
    var a' := a[..|a| - 1];
    var b' := b[..|b| - 1];
    if a[|a| - 1] == b[|b| - 1] {
      if a' != [] {
        SubsequenceShorter(a', b');
      }
    } else {
      SubsequenceShorter(a, b');
      if a' != [] {
        SubsequenceShorter(a', b');
      }
    }
  }

  /** Every element of a subsequence occurs in the sequence. */
  lemma {:induction false} SubsequenceMembers(a: seq<string>, b: seq<string>)
    requires IsSubsequence(a, b)
    ensures forall x :: x in a ==> x in b
    decreases |b|
  {
    if a != [] {
      var b' := b[..|b| - 1];
      if a[|a| - 1] == b[|b| - 1] {
        SubsequenceMembers(a[..|a| - 1], b');
        assert a == a[..|a| - 1] + [a[|a| - 1]];
      } else {
        SubsequenceMembers(a, b');
      }
    }
  }

  /** A subsequence of a list of distinct ids has distinct ids. */
  lemma {:induction false} SubsequenceDistinct(a: seq<string>, b: seq<string>)
    requires IsSubsequence(a, b) && Distinct(b)
    ensures Distinct(a)
    decreases |b|
  {
    if a != [] {
      var a' := a[..|a| - 1];
      var b' := b[..|b| - 1];
      assert Distinct(b') by {
        forall j, k | 0 <= j < k < |b'| ensures b'[j] != b'[k] {
          assert b'[j] == b[j] && b'[k] == b[k];
        }
      }
      if a[|a| - 1] == b[|b| - 1] {
        SubsequenceDistinct(a', b');
        SubsequenceMembers(a', b');
        forall j | 0 <= j < |a'| ensures a'[j] != a[|a| - 1] {
          assert a'[j] in b';
          var k :| 0 <= k < |b'| && b'[k] == a'[j];
          assert b[k] == b'[k];
        }
        assert a == a' + [a[|a| - 1]];
      } else {
        SubsequenceDistinct(a, b');
      }
    }
  }

  /** With distinct registry ids, every frame lists each element at most once. */
  lemma RenderListDistinct(es: seq<Element>, frames: seq<Frame>, templates: map<string, Template>, i: nat)
    requires i < |frames| && Distinct(Ids(es))
    ensures Distinct(Ids(RenderList(es, frames, templates, i)))
  {
    RenderListFollowsRegistry(es, frames, templates, i);
    SubsequenceDistinct(Ids(RenderList(es, frames, templates, i)), Ids(es));
  }

  // ---------------------------------------------------------------------------------------
  // The template catalog (`loadTemplates`)

  /** A file uploaded by the user, as the browser store returns it. */
  datatype LoadedFile = LoadedFile(category: string, content: string, name: string)

  /** Templates by id, and the templates of each category in listing order. */
  datatype Catalog = Catalog(templates: map<string, Template>, categories: map<string, seq<Template>>)

  /** Why the merge fails: an upload names a category the bundle does not have. */
  datatype LoadError = UnknownCategory(category: string)

  /** A bundled image is the template whose id and URL are both its path. */
  function Bundled(url: string): Template {
    Template(url, url)
  }

  /** The templates of one bundled category, in listing order. */
  function BundledList(urls: seq<string>): (r: seq<Template>)
    ensures |r| == |urls| && forall j :: 0 <= j < |urls| ==> r[j] == Bundled(urls[j])
  {
    seq(|urls|, j requires 0 <= j < |urls| => Bundled(urls[j]))
  }

  /** The catalog of the bundled images alone: the `reduce` over the categories. */
  function BundledCatalog(elements: map<string, seq<string>>): (r: Catalog)
    ensures r.categories.Keys == elements.Keys
    ensures forall c :: c in elements ==> r.categories[c] == BundledList(elements[c])
    ensures forall u :: u in r.templates <==> exists c :: c in elements && u in elements[c]
    ensures forall u :: u in r.templates ==> r.templates[u] == Bundled(u)
  {
    Catalog(map c, u | c in elements && u in elements[c] :: u := Bundled(u),
            map c | c in elements :: BundledList(elements[c]))
  }

  /** The template an upload becomes: its name as id, its content as URL. */
  function Uploaded(f: LoadedFile): Template {
    Template(f.name, f.content)
  }

  /**
   * `base` with the uploads written over it in order: each upload is keyed by its name, a
   * later upload replacing an earlier one with the same name.
   */
  function Overlay(base: map<string, Template>, files: seq<LoadedFile>): (r: map<string, Template>)
    ensures r.Keys == base.Keys + set f | f in files :: f.name
  {
    if files == [] then base
    else
      var init := files[..|files| - 1];
      assert files == init + [files[|files| - 1]];
      Overlay(base, init)[files[|files| - 1].name := Uploaded(files[|files| - 1])]
  }

  /** The uploads of category `c`, in upload order. */
  function UploadsOf(files: seq<LoadedFile>, c: string): (r: seq<Template>)
    ensures |r| <= |files|
  {
    if files == [] then []
    else UploadsOf(files[..|files| - 1], c)
         + (if files[|files| - 1].category == c then [Uploaded(files[|files| - 1])] else [])
  }

  /** The catalog `loadTemplates` resolves to when every upload names a bundled category. */
  function Merged(elements: map<string, seq<string>>, files: seq<LoadedFile>): Catalog {
    WithUploads(BundledCatalog(elements), files)
  }

  /** `base` with every upload written over its templates and appended to its category. */
  function WithUploads(base: Catalog, files: seq<LoadedFile>): Catalog {
    Catalog(Overlay(base.templates, files),
            map c | c in base.categories :: base.categories[c] + UploadsOf(files, c))
  }

  /** The first upload whose category is not bundled, if any. */
  function FirstUnknown(elements: map<string, seq<string>>, files: seq<LoadedFile>): (r: Option<nat>)
    ensures r.Some? ==> r.value < |files| && files[r.value].category !in elements
    ensures r.Some? ==> forall j :: 0 <= j < r.value ==> files[j].category in elements
    ensures r.None? <==> forall j :: 0 <= j < |files| ==> files[j].category in elements
  {
    if files == [] then None
    else
      var r := FirstUnknown(elements, files[..|files| - 1]);
      assert forall j :: 0 <= j < |files| - 1 ==> files[..|files| - 1][j] == files[j];
      if r.Some? then r
      else if files[|files| - 1].category !in elements then Some(|files| - 1)
      else None
  }

  /**
   * `loadTemplates()` once the browser store has answered with `customFiles` (`None` for
   * `undefined`): the bundled catalog, then every upload added under its name and appended
   * to its category. An upload naming an unknown category makes `push` throw, which rejects
   * the whole promise.
   */
  method LoadTemplates(elements: map<string, seq<string>>, customFiles: Option<seq<LoadedFile>>)
    returns (r: Result<Catalog, LoadError>)
    ensures var files := if customFiles.Some? then customFiles.value else [];
      && (r.Failure? <==> FirstUnknown(elements, files).Some?)
      && (r.Failure? ==> r.error == UnknownCategory(files[FirstUnknown(elements, files).value].category))
      && (r.Success? ==> r.value == Merged(elements, files))
  {
    var bundled := BundledCatalog(elements);
    var files := if customFiles.Some? then customFiles.value else [];
    r := AddUploads(elements, bundled, files);
  }

  /**
   * The `customFiles.forEach` of `loadTemplates`: writes each upload into `templates` under
   * its name, then appends it to its category, throwing at the first unknown category.
   */
  method AddUploads(elements: map<string, seq<string>>, bundled: Catalog, files: seq<LoadedFile>)
    returns (r: Result<Catalog, LoadError>)
    requires bundled.categories.Keys == elements.Keys
    ensures r.Failure? <==> FirstUnknown(elements, files).Some?
    ensures r.Failure? ==> r.error == UnknownCategory(files[FirstUnknown(elements, files).value].category)
    ensures r.Success? ==> r.value == WithUploads(bundled, files)
  {
    var templates := bundled.templates;
    var categories := bundled.categories;
    var j := 0;
    assert WithUploads(bundled, files[..0]).categories == bundled.categories by {
      assert files[..0] == [];
      assert forall c :: c in bundled.categories ==> bundled.categories[c] + UploadsOf([], c) == bundled.categories[c];
    }
    while j < |files|
      invariant 0 <= j <= |files|
      invariant FirstUnknown(elements, files[..j]).None?
      invariant Catalog(templates, categories) == WithUploads(bundled, files[..j])
    {
      var f := files[j];
      UnknownStep(elements, files, j);
      templates := templates[f.name := Uploaded(f)];
      if f.category !in categories {
        FirstUnknownPrefix(elements, files, j + 1);
        return Failure(UnknownCategory(f.category));
      }
      UploadStep(bundled, files, j);
      categories := categories[f.category := categories[f.category] + [templates[f.name]]];
      j := j + 1;
    }
    assert files[..j] == files;
    r := Success(Catalog(templates, categories));
  }

  /** One more upload, to a known category, writes its template and appends it to that category. */
  lemma UploadStep(base: Catalog, files: seq<LoadedFile>, j: nat)
    requires j < |files| && files[j].category in base.categories
    ensures var w := WithUploads(base, files[..j]);
      WithUploads(base, files[..j + 1])
      == Catalog(w.templates[files[j].name := Uploaded(files[j])],
                 w.categories[files[j].category := w.categories[files[j].category] + [Uploaded(files[j])]])
  {
    var f := files[j];
    assert files[..j + 1][..j] == files[..j];
    var w := WithUploads(base, files[..j]);
    var expected := w.categories[f.category := w.categories[f.category] + [Uploaded(f)]];
    var after := WithUploads(base, files[..j + 1]).categories;
    forall c | c in base.categories ensures after[c] == expected[c] {
      assert UploadsOf(files[..j + 1], c)
        == UploadsOf(files[..j], c) + (if f.category == c then [Uploaded(f)] else []);
    }
    assert after == expected;
  }

  /** One more upload extends the search for an unknown category by one index. */
  lemma UnknownStep(elements: map<string, seq<string>>, files: seq<LoadedFile>, j: nat)
    requires j < |files|
    ensures FirstUnknown(elements, files[..j]).None? ==>
      FirstUnknown(elements, files[..j + 1]) == (if files[j].category in elements then None else Some(j))
  {
    assert files[..j + 1][..j] == files[..j];
  }

  /** Once a prefix of the uploads holds an unknown category, so do all the uploads, at the same index. */
  lemma {:induction false} FirstUnknownPrefix(elements: map<string, seq<string>>, files: seq<LoadedFile>, n: nat)
    requires n <= |files| && FirstUnknown(elements, files[..n]).Some?
    ensures FirstUnknown(elements, files) == FirstUnknown(elements, files[..n])
    decreases |files| - n
  {
    if n < |files| {
      assert files[..n + 1][..n] == files[..n];
      FirstUnknownPrefix(elements, files, n + 1);
    } else {
      assert files[..n] == files;
    }
  }

  /** The template named `n` is the last upload so named. */
  lemma LastUploadWins(elements: map<string, seq<string>>, files: seq<LoadedFile>, j: nat)
    requires j < |files|
    requires forall q :: j < q < |files| ==> files[q].name != files[j].name
    ensures var t := Merged(elements, files).templates;
      files[j].name in t && t[files[j].name] == Uploaded(files[j])
  {
    OverlayLast(BundledCatalog(elements).templates, files, j);
  }

  /** `Overlay` keeps, for each name, the last upload with that name. */
  lemma {:induction false} OverlayLast(base: map<string, Template>, files: seq<LoadedFile>, j: nat)
    requires j < |files|
    requires forall q :: j < q < |files| ==> files[q].name != files[j].name
    ensures files[j].name in Overlay(base, files) && Overlay(base, files)[files[j].name] == Uploaded(files[j])
  {
    if j < |files| - 1 {
      var init := files[..|files| - 1];
      assert init[j] == files[j];
      OverlayLast(base, init, j);
    }
  }

  /** A name no upload carries keeps the value it has in `base`. */
  lemma {:induction false} OverlayKeepsBase(base: map<string, Template>, files: seq<LoadedFile>, n: string)
    requires forall j :: 0 <= j < |files| ==> files[j].name != n
    ensures n in Overlay(base, files) <==> n in base
    ensures n in base ==> Overlay(base, files)[n] == base[n]
  {
    if files != [] {
      OverlayKeepsBase(base, files[..|files| - 1], n);
    }
  }

  /** A bundled image no upload is named after keeps its path as its URL. */
  lemma BundledUnlessUploaded(elements: map<string, seq<string>>, files: seq<LoadedFile>, c: string, u: string)
    requires c in elements && u in elements[c]
    requires forall j :: 0 <= j < |files| ==> files[j].name != u
    ensures var t := Merged(elements, files).templates;
      u in t && t[u] == Bundled(u)
  {
    OverlayKeepsBase(BundledCatalog(elements).templates, files, u);
  }

  /**
   * Every category lists its bundled images first and then exactly the uploads of that
   * category, in upload order: every upload of the category is there, and every entry after
   * the bundled ones is an upload of the category.
   */
  lemma {:induction false} UploadsListedInCategory(elements: map<string, seq<string>>, files: seq<LoadedFile>, c: string)
    requires c in elements
    ensures var list := Merged(elements, files).categories[c];
      && list[..|elements[c]|] == BundledList(elements[c])
      && list[|elements[c]|..] == UploadsOf(files, c)
      && (forall j :: 0 <= j < |files| && files[j].category == c ==> Uploaded(files[j]) in list[|elements[c]|..])
      && (forall t :: t in list[|elements[c]|..] ==> exists j :: 0 <= j < |files| && files[j].category == c && t == Uploaded(files[j]))
  {
    var list := Merged(elements, files).categories[c];
    assert list[|elements[c]|..] == UploadsOf(files, c);
    forall j | 0 <= j < |files| && files[j].category == c
      ensures Uploaded(files[j]) in UploadsOf(files, c)
    {
      UploadsOfMembers(files, c, j);
    }
    forall t | t in UploadsOf(files, c)
      ensures exists j :: 0 <= j < |files| && files[j].category == c && t == Uploaded(files[j])
    {
      UploadsOfOnlyCategory(files, c, t);
    }
  }

  /** Every entry of `UploadsOf(files, c)` is the upload of a file of category `c`. */
  lemma {:induction false} UploadsOfOnlyCategory(files: seq<LoadedFile>, c: string, t: Template)
    requires t in UploadsOf(files, c)
    ensures exists j :: 0 <= j < |files| && files[j].category == c && t == Uploaded(files[j])
    decreases |files|
  {
    var init := files[..|files| - 1];
    if t in UploadsOf(init, c) {
      UploadsOfOnlyCategory(init, c, t);
      var j :| 0 <= j < |init| && init[j].category == c && t == Uploaded(init[j]);
      assert files[j] == init[j];
    } else {
      assert files[|files| - 1].category == c && t == Uploaded(files[|files| - 1]);
    }
  }

  /** Each upload of category `c` is listed among `UploadsOf(files, c)`. */
  lemma {:induction false} UploadsOfMembers(files: seq<LoadedFile>, c: string, j: nat)
    requires j < |files| && files[j].category == c
    ensures Uploaded(files[j]) in UploadsOf(files, c)
  {
    var init := files[..|files| - 1];
    if j < |files| - 1 {
      assert init[j] == files[j];
      UploadsOfMembers(init, c, j);
    }
  }
}
