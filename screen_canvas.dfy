/**
 * `ScreenCanvas.draw` of src/js/components/Screen/ScreenCanvas.tsx: one pass that paints the
 * canvas white, then draws each element of a resolved frame when its image finishes
 * loading, and hands the context to `onDraw` once every image has been drawn.
 *
 * The closure state of one pass (the `waitImagesCount` counter shared by the `onload`
 * callbacks) is the class `DrawPass`; each `image.onload` callback is one call of `Load`.
 */
module ScreenCanvas {
  import opened Wrappers
  import opened Types
  import opened Canvas
  import opened ScreenHelpers

  /** The two calls that paint the whole canvas white. */
  function WhiteFill(width: real, height: real): (r: seq<Op>)
    ensures NoTransforms(r)
  {
    [SetFillStyle(White), FillRect(0.0, 0.0, width, height)]
  }

  /**
   * What one `onload` callback draws: the element's image, or for an effect its repeated
   * tile, centred on the element's anchor and rotated by its rotation. Unlike
   * `drawElement`, this path draws an image for every element, speech or not.
   */
  function ImageOps(width: real, height: real, e: Element, img: Bitmap, noise: real): seq<Op>
    requires Measurable(width, height, Some(img))
  {
    var a := Anchor(width, height, e);
    var s := Scaled(width, height, e, Some(img));
    var source := if IsEffect(e) then Tile(e, img, noise) else Picture(img.url);
    Framed(a.x, a.y, e.rotation, [DrawImage(source, -s.x * 0.5, -s.y * 0.5, s.x, s.y)])
  }

  /**
   * For an element without a speech text, the callback draws exactly what `drawElement`
   * draws for it with the same decoded image: the two paths place, size and rotate
   * identically.
   */
  lemma ImageOpsAgreeWithDrawElement(width: real, height: real, measure: (real, string) -> real,
                                     lineHeight: real -> real, e: Element, img: Bitmap, noise: real)
    requires Measurable(width, height, Some(img)) && 0.0 <= noise < 1.0
    requires !IsSpeech(e)
    ensures ImageOps(width, height, e, img, noise)
      == ElementOps(width, height, measure, lineHeight, e, Some(img), noise)
  {
    BodyCases(width, height, measure, lineHeight, e, Some(img), noise);
  }

  /**
   * One element's callback translates to the anchor and rotates, draws one image centred
   * at the origin with the scaled size, then undoes the rotation and the translation, so
   * the context's net transform after it is the one before it.
   */
  lemma ImageOpsKeepTransform(ops: seq<Op>, width: real, height: real, e: Element, img: Bitmap, noise: real)
    requires Measurable(width, height, Some(img))
    ensures var r := ImageOps(width, height, e, img, noise);
      var a := Anchor(width, height, e);
      var s := Scaled(width, height, e, Some(img));
      |r| == 5
      && r[0] == Translate(a.x, a.y) && r[1] == Rotate(e.rotation)
      && r[2].DrawImage? && r[2].x == -s.x / 2.0 && r[2].y == -s.y / 2.0
      && r[2].w == s.x && r[2].h == s.y
      && (r[2].source.Tiled? <==> IsEffect(e))
      && r[3] == Rotate(-e.rotation) && r[4] == Translate(-a.x, -a.y)
      && Net(ops + r) == Net(ops)
  {
    var a := Anchor(width, height, e);
    var s := Scaled(width, height, e, Some(img));
    var source := if IsEffect(e) then Tile(e, img, noise) else Picture(img.url);
    var body := [DrawImage(source, -s.x * 0.5, -s.y * 0.5, s.x, s.y)];
    assert NoTransforms(body);
    NetAfterFramed(ops, a.x, a.y, e.rotation, body);
  }

  /**
   * A set of indices below `n` has at most `n` members, and has `n` exactly when it holds
   * every index below `n`.
   */
  lemma {:induction false} IndexSetSize(s: set<nat>, n: nat)
    requires forall j | j in s :: j < n
    ensures |s| <= n
    ensures |s| == n <==> forall j: nat | j < n :: j in s
    decreases n
  {
    if n == 0 {
      assert s == {};
    } else {
      var t := s - {n - 1};
      IndexSetSize(t, n - 1);
      if n - 1 in s {
        assert s == t + {n - 1};
      } else {
        assert t == s;
      }
    }
  }

  /** Appending to a log keeps its prefix. */
  lemma LogKeepsPrefix(prefix: seq<Op>, ops: seq<Op>, more: seq<Op>)
    requires |prefix| <= |ops| && ops[..|prefix|] == prefix
    ensures |prefix| <= |ops + more| && (ops + more)[..|prefix|] == prefix
  {
    assert (ops + more)[..|prefix|] == ops[..|prefix|];
  }

  /**
   * Loading a new index `i` of `n` grows the loaded set by one; before it, not every index
   * was loaded, and afterwards every index is loaded exactly when the set has `n` members.
   */
  lemma LoadCounts(loaded: set<nat>, i: nat, n: nat)
    requires forall j | j in loaded :: j < n
    requires i < n && i !in loaded
    ensures |loaded + {i}| == |loaded| + 1
    ensures !(forall j: nat | j < n :: j in loaded)
    ensures (forall j: nat | j < n :: j in loaded + {i}) <==> |loaded| + 1 == n
  {
    IndexSetSize(loaded + {i}, n);
  }

  /**
   * The state one `draw` call leaves behind while its images load: the context, the
   * elements, the pending-image counter, and (as ghost state) which images have loaded and
   * the log the context held before the pass began.
   */
  class DrawPass {
    const ctx: Context
    const elements: seq<Element>
    /** `waitImagesCount`: images not yet drawn. */
    var waitImagesCount: int
    /** The logs the context held at each `onDraw(context)` call, in order. */
    var onDrawCalls: seq<seq<Op>>
    /** Indices of the elements whose image has loaded. */
    ghost var loaded: set<nat>
    /** The context's log before the pass painted anything. */
    ghost const before: seq<Op>

    /** Every element's image has loaded. */
    ghost predicate AllLoaded()
      reads this
    {
      forall j: nat | j < |elements| :: j in loaded
    }

    /**
     * The counter is the number of images still to load; `onDraw` has been called once,
     * with everything drawn, when all have loaded and never before; the white fill comes
     * before any element; and the context's net transform is the one the pass found.
     */
    ghost predicate Valid()
      reads this, ctx
    {
      && ctx.width > 0.0 && ctx.height > 0.0
      && (forall j | j in loaded :: j < |elements|)
      && waitImagesCount == |elements| - |loaded|
      && |onDrawCalls| == (if |elements| > 0 && AllLoaded() then 1 else 0)
      && (|onDrawCalls| == 1 ==> onDrawCalls[0] == ctx.ops)
      && |before| + 2 <= |ctx.ops|
      && ctx.ops[..|before| + 2] == before + WhiteFill(ctx.width, ctx.height)
      && Net(ctx.ops) == Net(before)
    }

    /**
     * The synchronous part of `draw` on a present canvas with an `onDraw` handler: the
     * counter starts at the number of elements (every element, speech or not), and the
     * canvas is painted white.
     */
    constructor(canvas: Context, elements: seq<Element>)
      requires canvas.width > 0.0 && canvas.height > 0.0
      modifies canvas
      ensures Valid()
      ensures ctx == canvas && this.elements == elements
      ensures waitImagesCount == |elements| && loaded == {} && onDrawCalls == []
      ensures before == old(canvas.ops)
      ensures canvas.ops == old(canvas.ops) + WhiteFill(canvas.width, canvas.height)
      ensures canvas.font == old(canvas.font)
    {
      ctx := canvas;
      this.elements := elements;
      waitImagesCount := |elements|;
      onDrawCalls := [];
      loaded := {};
      before := canvas.ops;
      new;
      assert |elements| > 0 ==> !AllLoaded() by {
        assert 0 !in loaded;
      }
      canvas.Do(SetFillStyle(White));
      canvas.Do(FillRect(0.0, 0.0, canvas.width, canvas.height));
      assert ctx.ops == before + WhiteFill(ctx.width, ctx.height);
      NetAfterDrawing(before, WhiteFill(ctx.width, ctx.height));
    }

    /**
     * `image.onload` of element `i`, with the decoded image `img` and `noise` the
     * `Math.random()` draw of an effect's tile offset: draws the element, decrements the
     * counter and calls `onDraw` when it reaches zero.
     */
    method Load(i: nat, img: Bitmap, noise: real)
      requires Valid()
      requires i < |elements| && i !in loaded
      requires img.height > 0.0
      modifies this, ctx
      ensures Valid()
      ensures loaded == old(loaded) + {i}
      ensures waitImagesCount == old(waitImagesCount) - 1
      ensures ctx.ops == old(ctx.ops) + ImageOps(ctx.width, ctx.height, elements[i], img, noise)
      ensures ctx.font == old(ctx.font)
      ensures onDrawCalls == old(onDrawCalls) + (if waitImagesCount == 0 then [ctx.ops] else [])
    {
      ghost var start := ctx.ops;
      PaintElement(ctx, elements[i], img, noise);
      ImageOpsKeepTransform(start, ctx.width, ctx.height, elements[i], img, noise);
      LogKeepsPrefix(before + WhiteFill(ctx.width, ctx.height), start, ImageOps(ctx.width, ctx.height, elements[i], img, noise));

      LoadCounts(loaded, i, |elements|);
      loaded := loaded + {i};
      waitImagesCount := waitImagesCount - 1;

      if waitImagesCount == 0 {
        onDrawCalls := onDrawCalls + [ctx.ops];
      }
    }
  }

  /** The body of one `onload` callback up to the counter: the element's image, placed. */
  method PaintElement(ctx: Context, e: Element, img: Bitmap, noise: real)
    requires Measurable(ctx.width, ctx.height, Some(img))
    modifies ctx
    ensures ctx.ops == old(ctx.ops) + ImageOps(ctx.width, ctx.height, e, img, noise)
    ensures ctx.font == old(ctx.font)
  {
    var isEffect := e.repeatX != 1.0 || e.repeatY != 1.0;
    var anchor := Anchor(ctx.width, ctx.height, e);
    var scaled := Scaled(ctx.width, ctx.height, e, Some(img));
    var source := if isEffect then Tile(e, img, noise) else Picture(img.url);
    ghost var start := ctx.ops;
    ghost var body := [DrawImage(source, -scaled.x * 0.5, -scaled.y * 0.5, scaled.x, scaled.y)];

    ctx.Do(Translate(anchor.x, anchor.y));
    ctx.Do(Rotate(e.rotation));
    ctx.Do(DrawImage(source, -scaled.x * 0.5, -scaled.y * 0.5, scaled.x, scaled.y));
    ctx.Do(Rotate(-e.rotation));
    ctx.Do(Translate(-anchor.x, -anchor.y));
    AppendFramed(start, anchor.x, anchor.y, e.rotation, body);
  }

  /**
   * `draw()`: nothing at all happens without a canvas or without an `onDraw` handler;
   * otherwise a pass starts, with every element pending.
   */
  method Draw(canvas: Option<Context>, hasOnDraw: bool, elements: seq<Element>) returns (pass: Option<DrawPass>)
    requires canvas.Some? ==> canvas.value.width > 0.0 && canvas.value.height > 0.0
    modifies if canvas.Some? then {canvas.value} else {}
    ensures canvas.None? || !hasOnDraw ==> pass.None?
    ensures canvas.Some? && !hasOnDraw ==> canvas.value.ops == old(canvas.value.ops)
    ensures canvas.Some? && hasOnDraw ==>
      && pass.Some? && fresh(pass.value) && pass.value.Valid()
      && pass.value.ctx == canvas.value && pass.value.elements == elements
      && pass.value.waitImagesCount == |elements|
      && pass.value.loaded == {} && pass.value.onDrawCalls == []
      && canvas.value.ops == old(canvas.value.ops) + WhiteFill(canvas.value.width, canvas.value.height)
  {
    if canvas.None? || !hasOnDraw {
      return None;
    }
    var p := new DrawPass(canvas.value, elements);
    pass := Some(p);
  }
}
