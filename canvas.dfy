/**
 * The 2D drawing context the screen code draws on, as a log of abstract operations.
 *
 * Only what the compositor relies on is kept: the order of the calls, their arguments,
 * the current font size, a width measure and a line height. Translations and rotations
 * are kept as uninterpreted generators; `Net` reduces a log to the word of transforms it
 * leaves in force, so "every transform is undone" becomes "the net word is unchanged".
 */
module Canvas {
  /** Fill colours the drawing code selects. */
  datatype Style = White | Black

  /** Corner radii of a rounded rectangle. */
  datatype Radii = Radii(leftTop: real, leftBottom: real, rightTop: real, rightBottom: real)

  /**
   * What `drawImage` copies from: the decoded image itself, or an offscreen canvas of
   * `width` x `height` filled with the image repeated and shifted down by `offset`.
   */
  datatype Source =
    | Picture(url: string)
    | Tiled(url: string, width: real, height: real, offset: real)

  /** One call on the context. Path construction is summarised by `RoundedRect`. */
  datatype Op =
    | Translate(dx: real, dy: real)
    | Rotate(angle: real)
    | SetFont(px: real)
    | SetFillStyle(style: Style)
    | SetLineWidth(lineWidth: real)
    | RoundedRect(x: real, y: real, w: real, h: real, radii: Radii)
    | Fill
    | Stroke
    | FillText(text: string, x: real, y: real)
    | FillRect(x: real, y: real, w: real, h: real)
    | DrawImage(source: Source, x: real, y: real, w: real, h: real)

  /** The font size a fresh 2D context starts with (`10px sans-serif`). */
  const DefaultFontPx: real := 10.0

  /**
   * A canvas and its 2D context. `measure(px, s)` is the width `measureText` reports for
   * `s` in a `px`-pixel font and `lineHeight(px)` the rendered height of that font; both
   * come from the browser and are left uninterpreted.
   */
  class Context {
    const width: real
    const height: real
    const measure: (real, string) -> real
    const lineHeight: real -> real
    var font: real
    var ops: seq<Op>

    constructor (width: real, height: real, measure: (real, string) -> real, lineHeight: real -> real)
      ensures this.width == width && this.height == height
      ensures this.measure == measure && this.lineHeight == lineHeight
      ensures font == DefaultFontPx && ops == []
    {
      this.width := width;
      this.height := height;
      this.measure := measure;
      this.lineHeight := lineHeight;
      font := DefaultFontPx;
      ops := [];
    }

    /** Issues one call; only `SetFont` changes the current font. */
    method Do(op: Op)
      modifies this
      ensures ops == old(ops) + [op]
      ensures font == if op.SetFont? then op.px else old(font)
    {
      ops := ops + [op];
      if op.SetFont? {
        font := op.px;
      }
    }
  }

  // ---------------------------------------------------------------------------
  // Net transform

  predicate IsTransform(o: Op) {
    o.Translate? || o.Rotate?
  }

  predicate IsIdentity(o: Op) {
    o == Translate(0.0, 0.0) || o == Rotate(0.0)
  }

  predicate SameKind(a: Op, b: Op) {
    (a.Translate? && b.Translate?) || (a.Rotate? && b.Rotate?)
  }

  /** Two consecutive transforms of one kind combine into one. */
  function Compose(a: Op, b: Op): (r: Op)
    requires SameKind(a, b)
    ensures SameKind(r, a)
    ensures IsIdentity(b) ==> r == a
  {
    if a.Translate? then Translate(a.dx + b.dx, a.dy + b.dy) else Rotate(a.angle + b.angle)
  }

  /** The transform that undoes `o`. */
  function Inverse(o: Op): (r: Op)
    requires IsTransform(o)
    ensures SameKind(r, o)
    ensures IsIdentity(Compose(o, r)) && IsIdentity(Compose(r, o))
    ensures IsIdentity(r) <==> IsIdentity(o)
  {
    if o.Translate? then Translate(-o.dx, -o.dy) else Rotate(-o.angle)
  }

  /**
   * A reduced word of transforms: no identity letter and no two neighbours of the same
   * kind. The empty word is the identity transform.
   */
  predicate Normal(w: seq<Op>) {
    forall i | 0 <= i < |w| ::
      IsTransform(w[i]) && !IsIdentity(w[i]) && (i + 1 < |w| ==> !SameKind(w[i], w[i + 1]))
  }

  /** Appends one operation to a reduced word, reducing again; drawing calls leave it as is. */
  function Push(w: seq<Op>, g: Op): (r: seq<Op>)
    requires Normal(w)
    ensures Normal(r)
  {
    if !IsTransform(g) then w
    else if |w| > 0 && SameKind(w[|w| - 1], g) then
      var c := Compose(w[|w| - 1], g);
      if IsIdentity(c) then w[..|w| - 1] else w[..|w| - 1] + [c]
    else if IsIdentity(g) then w
    else w + [g]
  }

  /** The reduced word left in force after running `ops` from the reduced word `w`. */
  function Apply(w: seq<Op>, ops: seq<Op>): (r: seq<Op>)
    requires Normal(w)
    ensures Normal(r)
    decreases |ops|
  {
    if ops == [] then w else Apply(Push(w, ops[0]), ops[1..])
  }

  /** The net transform of a whole log. */
  function Net(ops: seq<Op>): (r: seq<Op>)
    ensures Normal(r)
  {
    Apply([], ops)
  }

  predicate NoTransforms(ops: seq<Op>) {
    forall i | 0 <= i < |ops| :: !IsTransform(ops[i])
  }

  /** Two logs free of transforms make one. */
  lemma NoTransformsAppend(a: seq<Op>, b: seq<Op>)
    requires NoTransforms(a) && NoTransforms(b)
    ensures NoTransforms(a + b)
  {
    forall i | 0 <= i < |a + b|
      ensures !IsTransform((a + b)[i])
    {
      if i >= |a| {
        assert (a + b)[i] == b[i - |a|];
      }
    }
  }

  /** Running two logs one after the other is running their concatenation. */
  lemma {:induction false} ApplyAppend(w: seq<Op>, a: seq<Op>, b: seq<Op>)
    requires Normal(w)
    ensures Apply(w, a + b) == Apply(Apply(w, a), b)
    decreases |a|
  {
    if a == [] {
      assert a + b == b;
    } else {
      assert (a + b)[0] == a[0];
      assert (a + b)[1..] == a[1..] + b;
      ApplyAppend(Push(w, a[0]), a[1..], b);
    }
  }

  /** Drawing calls leave the transform alone. */
  lemma {:induction false} ApplyDrawing(w: seq<Op>, ops: seq<Op>)
    requires Normal(w) && NoTransforms(ops)
    ensures Apply(w, ops) == w
    decreases |ops|
  {
    if ops != [] {
      assert !IsTransform(ops[0]);
      assert NoTransforms(ops[1..]) by {
        forall i | 0 <= i < |ops| - 1
          ensures !IsTransform(ops[1..][i])
        {
          assert ops[1..][i] == ops[i + 1];
        }
      }
      ApplyDrawing(w, ops[1..]);
    }
  }

  /** A transform followed by its inverse changes nothing, whatever was in force before. */
  lemma PushInverse(w: seq<Op>, g: Op)
    requires Normal(w) && IsTransform(g)
    ensures Push(Push(w, g), Inverse(g)) == w
  {
    var n := |w|;
    if n > 0 && SameKind(w[n - 1], g) {
      if IsIdentity(Compose(w[n - 1], g)) {
        PushInverseCancel(w, g);
      } else {
        PushInverseMerge(w, g);
      }
    } else if !IsIdentity(g) {
      PushInverseFresh(w, g);
    }
  }

  /** `g` cancels the last letter; its inverse puts that letter back. */
  lemma PushInverseCancel(w: seq<Op>, g: Op)
    requires Normal(w) && IsTransform(g)
    requires |w| > 0 && SameKind(w[|w| - 1], g) && IsIdentity(Compose(w[|w| - 1], g))
    ensures Push(Push(w, g), Inverse(g)) == w
  {
    var n := |w|;
    var h := Inverse(g);
    var u := w[..n - 1];
    assert Push(w, g) == u;
    if n >= 2 {
      assert u[|u| - 1] == w[n - 2];
      assert !SameKind(w[n - 2], w[n - 1]);
    }
    assert h == w[n - 1];
    assert !IsIdentity(h);
    assert Push(u, h) == u + [h];
    assert u + [h] == w;
  }

  /** `g` merges into the last letter; its inverse restores that letter. */
  lemma PushInverseMerge(w: seq<Op>, g: Op)
    requires Normal(w) && IsTransform(g)
    requires |w| > 0 && SameKind(w[|w| - 1], g) && !IsIdentity(Compose(w[|w| - 1], g))
    ensures Push(Push(w, g), Inverse(g)) == w
  {
    var n := |w|;
    var c := Compose(w[n - 1], g);
    var u := w[..n - 1] + [c];
    assert Push(w, g) == u;
    assert u[|u| - 1] == c;
    assert Compose(c, Inverse(g)) == w[n - 1];
    assert u[..|u| - 1] == w[..n - 1];
    assert w[..n - 1] + [w[n - 1]] == w;
  }

  /** `g` starts a new letter; its inverse removes it again. */
  lemma PushInverseFresh(w: seq<Op>, g: Op)
    requires Normal(w) && IsTransform(g) && !IsIdentity(g)
    requires |w| == 0 || !SameKind(w[|w| - 1], g)
    ensures Push(Push(w, g), Inverse(g)) == w
  {
    var u := w + [g];
    assert Push(w, g) == u;
    assert u[|u| - 1] == g;
    assert u[..|u| - 1] == w;
  }

  /**
   * The frame `translate(x, y); rotate(a); body; rotate(-a); translate(-x, -y)` around a
   * drawing body.
   */
  function Framed(x: real, y: real, angle: real, body: seq<Op>): (r: seq<Op>)
    ensures |r| == |body| + 4
    ensures r[0] == Translate(x, y) && r[1] == Rotate(angle)
    ensures r[|r| - 2] == Rotate(-angle) && r[|r| - 1] == Translate(-x, -y)
  {
    [Translate(x, y), Rotate(angle)] + body + [Rotate(-angle), Translate(-x, -y)]
  }

  /** Logs appended one after another. */
  lemma AppendAssoc(a: seq<Op>, b: seq<Op>, c: seq<Op>)
    ensures (a + b) + c == a + (b + c)
  {
  }

  /** Issuing the frame call by call appends `Framed` to the log. */
  lemma AppendFramed(ops: seq<Op>, x: real, y: real, angle: real, body: seq<Op>)
    ensures ops + [Translate(x, y)] + [Rotate(angle)] + body + [Rotate(-angle)] + [Translate(-x, -y)]
      == ops + Framed(x, y, angle, body)
  {
  }

  /** Running a one-call log is pushing that call. */
  lemma ApplyOne(w: seq<Op>, g: Op)
    requires Normal(w)
    ensures Apply(w, [g]) == Push(w, g)
  {
    assert [g][1..] == [];
  }

  /** A framed drawing body leaves the net transform exactly as it found it. */
  lemma FramedRestores(w: seq<Op>, x: real, y: real, angle: real, body: seq<Op>)
    requires Normal(w) && NoTransforms(body)
    ensures Apply(w, Framed(x, y, angle, body)) == w
  {
    var t := Translate(x, y);
    var a := Rotate(angle);
    assert Framed(x, y, angle, body) == [t] + ([a] + (body + ([Inverse(a)] + [Inverse(t)])));
    var w1 := Push(w, t);
    var w2 := Push(w1, a);
    var w3 := Push(w2, Inverse(a));
    ApplyAppend(w, [t], [a] + (body + ([Inverse(a)] + [Inverse(t)])));
    ApplyOne(w, t);
    ApplyAppend(w1, [a], body + ([Inverse(a)] + [Inverse(t)]));
    ApplyOne(w1, a);
    ApplyAppend(w2, body, [Inverse(a)] + [Inverse(t)]);
    ApplyDrawing(w2, body);
    ApplyAppend(w2, [Inverse(a)], [Inverse(t)]);
    ApplyOne(w2, Inverse(a));
    ApplyOne(w3, Inverse(t));
    PushInverse(w1, a);
    PushInverse(w, t);
  }

  /** Appending a framed body to a log keeps its net transform. */
  lemma NetAfterFramed(ops: seq<Op>, x: real, y: real, angle: real, body: seq<Op>)
    requires NoTransforms(body)
    ensures Net(ops + Framed(x, y, angle, body)) == Net(ops)
  {
    ApplyAppend([], ops, Framed(x, y, angle, body));
    FramedRestores(Net(ops), x, y, angle, body);
  }

  /** Appending drawing calls keeps the net transform. */
  lemma NetAfterDrawing(ops: seq<Op>, more: seq<Op>)
    requires NoTransforms(more)
    ensures Net(ops + more) == Net(ops)
  {
    ApplyAppend([], ops, more);
    ApplyDrawing(Net(ops), more);
  }
}
