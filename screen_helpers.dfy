/**
 * The compositor helpers of src/js/components/Screen/helpers.ts: greedy word wrap of a
 * speech text (`drawText`), the speech bubble (`drawSpeech`) and the placement of one
 * scene element on the canvas (`drawElement`).
 */
module ScreenHelpers {
  import opened Wrappers
  import opened Types
  import opened Canvas

  // ---------------------------------------------------------------------------
  // Splitting a text into words

  /**
   * The character class of the split pattern, as written: a space, U+8629, the three
   * characters `â`, `†` and `µ`, carriage return and line feed.
   */
  predicate IsSeparator(c: char) {
    c == ' ' || c == '\U{8629}' || c == '\U{00E2}' || c == '\U{2020}' || c == '\U{00B5}'
    || c == '\r' || c == '\n'
  }

  predicate NoSeparator(w: string) {
    forall i | 0 <= i < |w| :: !IsSeparator(w[i])
  }

  /** Number of separator characters in `s`. */
  function Separators(s: string): nat {
    if s == [] then 0 else (if IsSeparator(s[0]) then 1 else 0) + Separators(s[1..])
  }

  /** `s` with every separator character removed. */
  function Stripped(s: string): string {
    if s == [] then [] else (if IsSeparator(s[0]) then [] else [s[0]]) + Stripped(s[1..])
  }

  /** The pieces joined without anything between them. */
  function Concat(ws: seq<string>): string {
    if ws == [] then [] else ws[0] + Concat(ws[1..])
  }

  /**
   * `String.prototype.split` with the separator class: one piece more than there are
   * separators, empty pieces kept, no piece holding a separator.
   */
  function Split(s: string): (r: seq<string>)
    ensures |r| == Separators(s) + 1
    ensures forall k | 0 <= k < |r| :: NoSeparator(r[k])
  {
    if s == [] then [""]
    else
      var rest := Split(s[1..]);
      if IsSeparator(s[0]) then [""] + rest
      else [[s[0]] + rest[0]] + rest[1..]
  }

  /** The pieces of a split are the text's other characters, in order. */
  lemma {:induction false} SplitKeepsText(s: string)
    ensures Concat(Split(s)) == Stripped(s)
  {
    if s == [] {
      assert Concat([""]) == "" + Concat([]);
    } else {
      var rest := Split(s[1..]);
      SplitKeepsText(s[1..]);
      if IsSeparator(s[0]) {
        var r := [""] + rest;
        assert r[0] == "" && r[1..] == rest;
      } else {
        var r := [[s[0]] + rest[0]] + rest[1..];
        assert r[0] == [s[0]] + rest[0] && r[1..] == rest[1..];
        assert Concat(rest) == rest[0] + Concat(rest[1..]);
      }
    }
  }

  /** The separator characters of `s`, in order. */
  function SeparatorChars(s: string): (r: string)
    ensures |r| == Separators(s)
    ensures forall i | 0 <= i < |r| :: IsSeparator(r[i])
  {
    if s == [] then [] else (if IsSeparator(s[0]) then [s[0]] else []) + SeparatorChars(s[1..])
  }

  /** The pieces with the given separators put back between them, in order. */
  function Rejoin(ws: seq<string>, seps: string): string
    requires |ws| == |seps| + 1
    decreases |seps|
  {
    if seps == [] then ws[0] else ws[0] + [seps[0]] + Rejoin(ws[1..], seps[1..])
  }

  /**
   * The split breaks exactly at the separators: putting each separator of `s` back between
   * consecutive pieces gives `s` again. With no piece holding a separator, this fixes
   * every piece (`SplitUnique`).
   */
  lemma {:induction false} SplitRoundTrip(s: string)
    ensures Rejoin(Split(s), SeparatorChars(s)) == s
  {
    if s != [] {
      SplitRoundTrip(s[1..]);
      var rest := Split(s[1..]);
      var seps := SeparatorChars(s[1..]);
      if IsSeparator(s[0]) {
        var ws := [""] + rest;
        var ss := [s[0]] + seps;
        assert Split(s) == ws && SeparatorChars(s) == ss;
        assert ws[1..] == rest && ss[1..] == seps;
        assert Rejoin(ws, ss) == [s[0]] + Rejoin(rest, seps);
      } else {
        RejoinConsFirst([s[0]], rest, seps);
        assert Split(s) == rest[0 := [s[0]] + rest[0]];
        assert SeparatorChars(s) == seps;
      }
      assert s == [s[0]] + s[1..];
    }
  }

  /** Prefixing the first piece prefixes the rejoined text. */
  lemma RejoinConsFirst(c: string, ws: seq<string>, seps: string)
    requires |ws| == |seps| + 1
    ensures Rejoin(ws[0 := c + ws[0]], seps) == c + Rejoin(ws, seps)
  {
    var v := ws[0 := c + ws[0]];
    if seps != [] {
      assert v[1..] == ws[1..];
    }
  }

  /**
   * Any pieces without separators that rejoin to `s` with its separators are the split of
   * `s`: the split is the only such division.
   */
  lemma {:induction false} SplitUnique(s: string, ws: seq<string>)
    requires |ws| == Separators(s) + 1
    requires forall k | 0 <= k < |ws| :: NoSeparator(ws[k])
    requires Rejoin(ws, SeparatorChars(s)) == s
    ensures ws == Split(s)
    decreases |s|
  {
    if s == [] {
      assert ws == [""];
    } else if IsSeparator(s[0]) {
      LeadingSeparator(s, ws);
      SplitUnique(s[1..], ws[1..]);
      assert ws == [""] + ws[1..];
    } else {
      var w' := LeadingCharacter(s, ws);
      SplitUnique(s[1..], w');
      assert ws == [ws[0]] + ws[1..];
    }
  }

  /** A text starting with a separator has an empty first piece, and the rest rejoins to its tail. */
  lemma LeadingSeparator(s: string, ws: seq<string>)
    requires s != [] && IsSeparator(s[0])
    requires |ws| == Separators(s) + 1 && NoSeparator(ws[0])
    requires forall k | 0 <= k < |ws| :: NoSeparator(ws[k])
    requires Rejoin(ws, SeparatorChars(s)) == s
    ensures ws[0] == [] && |ws[1..]| == Separators(s[1..]) + 1
    ensures forall k | 0 <= k < |ws[1..]| :: NoSeparator(ws[1..][k])
    ensures Rejoin(ws[1..], SeparatorChars(s[1..])) == s[1..]
  {
    var seps := SeparatorChars(s);
    assert seps == [s[0]] + SeparatorChars(s[1..]);
    assert seps[1..] == SeparatorChars(s[1..]);
    var tail := Rejoin(ws[1..], seps[1..]);
    assert s == ws[0] + [seps[0]] + tail;
    assert ws[0] == [];
    assert s[1..] == tail;
    assert forall k | 0 <= k < |ws[1..]| :: ws[1..][k] == ws[k + 1];
  }

  /**
   * A text starting with another character has that character first in its first piece;
   * with it removed, the pieces rejoin to the tail.
   */
  lemma LeadingCharacter(s: string, ws: seq<string>) returns (w': seq<string>)
    requires s != [] && !IsSeparator(s[0])
    requires |ws| == Separators(s) + 1
    requires forall k | 0 <= k < |ws| :: NoSeparator(ws[k])
    requires Rejoin(ws, SeparatorChars(s)) == s
    ensures ws[0] != [] && ws[0][0] == s[0] && w' == ws[0 := ws[0][1..]]
    ensures ws[0] == [s[0]] + w'[0] && ws[1..] == w'[1..]
    ensures |w'| == Separators(s[1..]) + 1
    ensures forall k | 0 <= k < |w'| :: NoSeparator(w'[k])
    ensures Rejoin(w', SeparatorChars(s[1..])) == s[1..]
  {
    var seps := SeparatorChars(s);
    assert seps == SeparatorChars(s[1..]);
    FirstPieceStarts(ws, seps, s);
    var w0 := ws[0];
    w' := ws[0 := w0[1..]];
    assert NoSeparator(w0[1..]) by {
      forall i | 0 <= i < |w0[1..]| ensures !IsSeparator(w0[1..][i]) {
        assert w0[1..][i] == w0[i + 1];
      }
    }
    RejoinConsFirst([w0[0]], w', seps);
    assert w'[0 := [w0[0]] + w'[0]] == ws by {
      assert [w0[0]] + w0[1..] == w0;
    }
    assert s == [s[0]] + s[1..];
  }

  /** A non-empty text whose first character is no separator starts inside the first piece. */
  lemma FirstPieceStarts(ws: seq<string>, seps: string, s: string)
    requires |ws| == |seps| + 1 && Rejoin(ws, seps) == s && s != []
    requires forall i | 0 <= i < |seps| :: IsSeparator(seps[i])
    requires !IsSeparator(s[0])
    ensures ws[0] != [] && s[0] == ws[0][0]
  {
    if seps != [] {
      assert s == ws[0] + ([seps[0]] + Rejoin(ws[1..], seps[1..]));
    }
  }

  // ---------------------------------------------------------------------------
  // Greedy wrap

  /** The words, each followed by one space. */
  function Spaced(words: seq<string>): string {
    if words == [] then [] else words[0] + " " + Spaced(words[1..])
  }

  /**
   * The lines `drawText` emits for `words` when the line being built already holds
   * `line`: a word is appended with a trailing space while the measured width of the
   * result stays within `width`; otherwise the current line is emitted and a new one is
   * started with the word. The last line is emitted when the words run out.
   */
  function Lines(measure: (real, string) -> real, px: real, width: real, line: string, words: seq<string>): (r: seq<string>)
    ensures |r| >= 1
    decreases |words|
  {
    if words == [] then [line]
    else
      var test := line + words[0] + " ";
      if measure(px, test) > width then [line] + Lines(measure, px, width, words[0] + " ", words[1..])
      else Lines(measure, px, width, test, words[1..])
  }

  /** How many times the line overflows and is emitted before the words run out. */
  function Flushes(measure: (real, string) -> real, px: real, width: real, line: string, words: seq<string>): nat
    decreases |words|
  {
    if words == [] then 0
    else
      var test := line + words[0] + " ";
      if measure(px, test) > width then 1 + Flushes(measure, px, width, words[0] + " ", words[1..])
      else Flushes(measure, px, width, test, words[1..])
  }

  /** The emitted lines, read one after another, are the words each followed by one space. */
  lemma {:induction false} LinesKeepWords(measure: (real, string) -> real, px: real, width: real, line: string, words: seq<string>)
    ensures Concat(Lines(measure, px, width, line, words)) == line + Spaced(words)
    decreases |words|
  {
    if words == [] {
      assert Concat([line]) == line + Concat([]);
    } else {
      var test := line + words[0] + " ";
      if measure(px, test) > width {
        var rest := Lines(measure, px, width, words[0] + " ", words[1..]);
        LinesKeepWords(measure, px, width, words[0] + " ", words[1..]);
        assert ([line] + rest)[1..] == rest;
      } else {
        LinesKeepWords(measure, px, width, test, words[1..]);
      }
    }
  }

  /** One line is emitted per overflow, plus the final one. */
  lemma {:induction false} LineCount(measure: (real, string) -> real, px: real, width: real, line: string, words: seq<string>)
    ensures |Lines(measure, px, width, line, words)| == Flushes(measure, px, width, line, words) + 1
    decreases |words|
  {
    if words != [] {
      var test := line + words[0] + " ";
      if measure(px, test) > width {
        LineCount(measure, px, width, words[0] + " ", words[1..]);
      } else {
        LineCount(measure, px, width, test, words[1..]);
      }
    }
  }

  /** The first emitted line starts with what the line held already. */
  lemma {:induction false} FirstLineExtends(measure: (real, string) -> real, px: real, width: real, line: string, words: seq<string>)
    ensures line <= Lines(measure, px, width, line, words)[0]
    decreases |words|
  {
    if words != [] {
      var test := line + words[0] + " ";
      if measure(px, test) <= width {
        FirstLineExtends(measure, px, width, test, words[1..]);
        assert line <= test;
      }
    }
  }

  /**
   * Starting from an empty line, the first emitted line is empty exactly when there are
   * no words or the first word with its space is already too wide.
   */
  lemma EmptyFirstLine(measure: (real, string) -> real, px: real, width: real, words: seq<string>)
    ensures Lines(measure, px, width, "", words)[0] == ""
        <==> words == [] || measure(px, words[0] + " ") > width
  {
    if words != [] {
      var test := "" + words[0] + " ";
      assert test == words[0] + " ";
      if measure(px, test) <= width {
        FirstLineExtends(measure, px, width, test, words[1..]);
        assert |Lines(measure, px, width, "", words)[0]| >= |test| > 0;
      }
    }
  }

  /** A word with its trailing space: the only space is the last character. */
  predicate OneWord(l: string) {
    |l| > 0 && l[|l| - 1] == ' ' && forall i | 0 <= i < |l| - 1 :: l[i] != ' '
  }

  /** A line the wrap may emit: it fits, or it holds a single word, or it is empty. */
  predicate Admissible(measure: (real, string) -> real, px: real, width: real, l: string) {
    l == "" || measure(px, l) <= width || OneWord(l)
  }

  /**
   * Every emitted line fits the box unless it is one word too wide to fit on any line;
   * only the first line can be empty.
   */
  lemma {:induction false} LinesFit(measure: (real, string) -> real, px: real, width: real, line: string, words: seq<string>)
    requires Admissible(measure, px, width, line)
    requires forall k | 0 <= k < |words| :: NoSeparator(words[k])
    ensures forall k | 0 <= k < |Lines(measure, px, width, line, words)| ::
      Admissible(measure, px, width, Lines(measure, px, width, line, words)[k])
    ensures forall k | 1 <= k < |Lines(measure, px, width, line, words)| ::
      Lines(measure, px, width, line, words)[k] != ""
    decreases |words|
  {
    var r := Lines(measure, px, width, line, words);
    if words == [] {
      assert r == [line];
    } else {
      var test := line + words[0] + " ";
      assert forall k | 0 <= k < |words[1..]| :: NoSeparator(words[1..][k]) by {
        forall k | 0 <= k < |words[1..]|
          ensures NoSeparator(words[1..][k])
        {
          assert words[1..][k] == words[k + 1];
        }
      }
      if measure(px, test) > width {
        var w := words[0] + " ";
        assert OneWord(w) by {
          assert NoSeparator(words[0]);
          forall i | 0 <= i < |w| - 1
            ensures w[i] != ' '
          {
            assert w[i] == words[0][i];
          }
        }
        var rest := Lines(measure, px, width, w, words[1..]);
        LinesFit(measure, px, width, w, words[1..]);
        FirstLineExtends(measure, px, width, w, words[1..]);
        assert r == [line] + rest;
        forall k | 0 <= k < |r|
          ensures Admissible(measure, px, width, r[k]) && (k >= 1 ==> r[k] != "")
        {
          if k >= 1 {
            assert r[k] == rest[k - 1];
            if k == 1 {
              assert |rest[0]| >= |w|;
            }
          }
        }
      } else {
        var rest := Lines(measure, px, width, test, words[1..]);
        assert r == rest;
        LinesFit(measure, px, width, test, words[1..]);
      }
    }
  }

  /**
   * The wrap of three words when the box holds the first two but not the third: two
   * lines, the third word alone on the second.
   */
  lemma ThirdWordWraps(measure: (real, string) -> real, px: real, width: real, a: string, b: string, c: string)
    requires measure(px, a + " ") <= width
    requires measure(px, a + " " + b + " ") <= width
    requires measure(px, a + " " + b + " " + c + " ") > width
    ensures Lines(measure, px, width, "", [a, b, c]) == [a + " " + b + " ", c + " "]
  {
    var ws := [a, b, c];
    assert "" + a + " " == a + " ";
    assert ws[1..] == [b, c] && ws[1..][1..] == [c] && [c][1..] == [];
    assert Lines(measure, px, width, "", ws) == Lines(measure, px, width, a + " ", [b, c]);
    assert Lines(measure, px, width, a + " ", [b, c]) == Lines(measure, px, width, a + " " + b + " ", [c]);
    assert Lines(measure, px, width, a + " " + b + " ", [c])
      == [a + " " + b + " "] + Lines(measure, px, width, c + " ", []);
  }

  /** The `fillText` calls for `lines`, the first at `top` and each next one a line height lower. */
  function FillTexts(lines: seq<string>, x: real, top: real, lineHeight: real): (r: seq<Op>)
    ensures |r| == |lines|
  {
    if lines == [] then []
    else [FillText(lines[0], x, top)] + FillTexts(lines[1..], x, top + lineHeight, lineHeight)
  }

  lemma {:induction false} FillTextsOnlyDraw(lines: seq<string>, x: real, top: real, lineHeight: real)
    ensures NoTransforms(FillTexts(lines, x, top, lineHeight))
    decreases |lines|
  {
    if lines != [] {
      var r := FillTexts(lines, x, top, lineHeight);
      var rest := FillTexts(lines[1..], x, top + lineHeight, lineHeight);
      FillTextsOnlyDraw(lines[1..], x, top + lineHeight, lineHeight);
      assert r == [FillText(lines[0], x, top)] + rest;
      forall i | 0 <= i < |r|
        ensures !IsTransform(r[i])
      {
        if i > 0 {
          assert r[i] == rest[i - 1];
        }
      }
    }
  }

  /** The k-th line is drawn `k` line heights below the first. */
  lemma {:induction false} LineTops(lines: seq<string>, x: real, top: real, lineHeight: real, k: nat)
    requires k < |lines|
    ensures FillTexts(lines, x, top, lineHeight)[k] == FillText(lines[k], x, top + k as real * lineHeight)
    decreases k
  {
    if k > 0 {
      LineTops(lines[1..], x, top + lineHeight, lineHeight, k - 1);
      LineStep(top, lineHeight, k);
    }
  }

  lemma LineStep(top: real, lineHeight: real, k: nat)
    requires k > 0
    ensures top + lineHeight + (k - 1) as real * lineHeight == top + k as real * lineHeight
  {
  }

  /** One step of the wrap loop, as an equation between the lines still to come. */
  lemma LinesStep(measure: (real, string) -> real, px: real, width: real, line: string, words: seq<string>, n: nat)
    requires n < |words|
    ensures var test := line + words[n] + " ";
      Lines(measure, px, width, line, words[n..])
      == if measure(px, test) > width then [line] + Lines(measure, px, width, words[n] + " ", words[n + 1..])
         else Lines(measure, px, width, test, words[n + 1..])
  {
    assert words[n..][0] == words[n] && words[n..][1..] == words[n + 1..];
  }

  /** One step of the wrap loop, as an equation between the draw calls still to come. */
  lemma WrapStep(measure: (real, string) -> real, px: real, width: real, line: string, words: seq<string>, n: nat, x: real, top: real, lineHeight: real)
    requires n < |words|
    ensures var test := line + words[n] + " ";
      FillTexts(Lines(measure, px, width, line, words[n..]), x, top, lineHeight)
      == if measure(px, test) > width
         then [FillText(line, x, top)] + FillTexts(Lines(measure, px, width, words[n] + " ", words[n + 1..]), x, top + lineHeight, lineHeight)
         else FillTexts(Lines(measure, px, width, test, words[n + 1..]), x, top, lineHeight)
  {
    LinesStep(measure, px, width, line, words, n);
    var rest := Lines(measure, px, width, words[n] + " ", words[n + 1..]);
    assert ([line] + rest)[0] == line && ([line] + rest)[1..] == rest;
  }

  /** What is drawn so far plus what is still to come stays the same across one step of the wrap loop. */
  lemma WrapProgress(done: seq<Op>, goal: seq<Op>, measure: (real, string) -> real, px: real, width: real,
                     line: string, words: seq<string>, n: nat, x: real, top: real, lineHeight: real)
    requires n < |words|
    requires done + FillTexts(Lines(measure, px, width, line, words[n..]), x, top, lineHeight) == goal
    ensures var test := line + words[n] + " ";
      if measure(px, test) > width
      then (done + [FillText(line, x, top)])
        + FillTexts(Lines(measure, px, width, words[n] + " ", words[n + 1..]), x, top + lineHeight, lineHeight) == goal
      else done + FillTexts(Lines(measure, px, width, test, words[n + 1..]), x, top, lineHeight) == goal
  {
    WrapStep(measure, px, width, line, words, n, x, top, lineHeight);
    var test := line + words[n] + " ";
    if measure(px, test) > width {
      var rest := FillTexts(Lines(measure, px, width, words[n] + " ", words[n + 1..]), x, top + lineHeight, lineHeight);
      assert (done + [FillText(line, x, top)]) + rest == done + ([FillText(line, x, top)] + rest);
    }
  }

  /** The text lines of `text` wrapped to `width` and drawn downwards from (`x`, `y`) in a `px` font. */
  function TextOps(measure: (real, string) -> real, lineHeight: real -> real, px: real, text: string, x: real, y: real, width: real): seq<Op> {
    FillTexts(Lines(measure, px, width, "", Split(text)), x, y, lineHeight(px))
  }

  /** `drawText`: wraps `text` to `width` and draws the lines downwards from (`x`, `y`). */
  method DrawText(ctx: Context, text: string, x: real, y: real, width: real)
    modifies ctx
    ensures ctx.font == old(ctx.font)
    ensures ctx.ops == old(ctx.ops) + TextOps(ctx.measure, ctx.lineHeight, ctx.font, text, x, y, width)
  {
    var measure, px := ctx.measure, ctx.font;
    var lineHeight := ctx.lineHeight(px);
    var words := Split(text);
    var line := "";
    var top := y;
    ghost var goal := ctx.ops + TextOps(measure, ctx.lineHeight, px, text, x, y, width);
    var n := 0;
    while n < |words|
      invariant 0 <= n <= |words|
      invariant ctx.font == px
      invariant ctx.ops + FillTexts(Lines(measure, px, width, line, words[n..]), x, top, lineHeight) == goal
    {
      var word := words[n];
      var testLine := line + word + " ";
      var testWidth := measure(px, testLine);
      WrapProgress(ctx.ops, goal, measure, px, width, line, words, n, x, top, lineHeight);
      if testWidth > width {
        ctx.Do(FillText(line, x, top));
        line := word + " ";
        top := top + lineHeight;
      } else {
        line := testLine;
      }
      n := n + 1;
    }
    assert words[n..] == [];
    assert FillTexts([line], x, top, lineHeight) == [FillText(line, x, top)];
    ctx.Do(FillText(line, x, top));
  }

  // ---------------------------------------------------------------------------
  // Speech bubble

  /** The radius of one of the four listed corners. */
  function RadiusAt(r: Radii, c: Corner): real
    requires c != Unlisted
  {
    match c
    case LeftTop => r.leftTop
    case LeftBottom => r.leftBottom
    case RightTop => r.rightTop
    case RightBottom => r.rightBottom
  }

  /** The bubble is rounded by a third of its width everywhere except the corner it points from. */
  function CornerRadii(corner: Corner, width: real): (r: Radii)
    ensures forall c | c != Unlisted :: c == corner ==> RadiusAt(r, c) == 0.0
    ensures forall c | c != Unlisted :: c != corner ==> RadiusAt(r, c) == width / 3.0
    ensures width != 0.0 ==> forall c | c != Unlisted :: RadiusAt(r, c) == 0.0 <==> c == corner
  {
    var radius := width / 3.0;
    Radii(
      if corner == LeftTop then 0.0 else radius,
      if corner == LeftBottom then 0.0 else radius,
      if corner == RightTop then 0.0 else radius,
      if corner == RightBottom then 0.0 else radius)
  }

  /** The inset of the text from the bubble's left and top edges. */
  function TextPadding(width: real): (r: real)
    ensures width - 2.0 * r == 0.8 * width
  {
    width * 0.1
  }

  /** The bubble's font size: the speech size scaled by the element's horizontal scale. */
  function FontPx(e: Element): real
    requires e.speech.Some?
  {
    e.speech.value.size * e.scale.x
  }

  /** The bubble outline: font, white fill, 2-pixel stroke, then black 1-pixel for the text. */
  function BubbleOps(e: Element, width: real, height: real, x: real, y: real): (r: seq<Op>)
    requires e.speech.Some?
    ensures |r| == 8
  {
    var speech := e.speech.value;
    [SetFont(FontPx(e)), SetFillStyle(White), SetLineWidth(2.0),
     RoundedRect(x, y, width, height, CornerRadii(speech.corner, width)),
     Fill, Stroke, SetFillStyle(Black), SetLineWidth(1.0)]
  }

  /** Everything `drawSpeech` draws. */
  function SpeechOps(measure: (real, string) -> real, lineHeight: real -> real, e: Element, width: real, height: real, x: real, y: real): seq<Op>
    requires e.speech.Some?
  {
    var speech := e.speech.value;
    var padding := TextPadding(width);
    BubbleOps(e, width, height, x, y)
      + TextOps(measure, lineHeight, FontPx(e), speech.text, x + padding, y + padding, width - padding * 2.0)
  }

  lemma SpeechIsBubbleThenText(measure: (real, string) -> real, lineHeight: real -> real, e: Element, width: real, height: real, x: real, y: real)
    requires e.speech.Some?
    ensures var padding := TextPadding(width);
      SpeechOps(measure, lineHeight, e, width, height, x, y)
      == BubbleOps(e, width, height, x, y)
         + TextOps(measure, lineHeight, FontPx(e), e.speech.value.text, x + padding, y + padding, width - padding * 2.0)
  {
  }

  /** The bubble, then the text. */
  lemma SpeechParts(measure: (real, string) -> real, lineHeight: real -> real, e: Element, width: real, height: real, x: real, y: real)
    requires e.speech.Some?
    ensures var px := FontPx(e);
      var padding := TextPadding(width);
      SpeechOps(measure, lineHeight, e, width, height, x, y)
      == BubbleOps(e, width, height, x, y)
         + FillTexts(Lines(measure, px, width - padding * 2.0, "", Split(e.speech.value.text)), x + padding, y + padding, lineHeight(px))
  {
    var px := FontPx(e);
    var padding := TextPadding(width);
    assert SpeechOps(measure, lineHeight, e, width, height, x, y) == BubbleOps(e, width, height, x, y)
      + TextOps(measure, lineHeight, px, e.speech.value.text, x + padding, y + padding, width - padding * 2.0);
    assert TextOps(measure, lineHeight, px, e.speech.value.text, x + padding, y + padding, width - padding * 2.0)
      == FillTexts(Lines(measure, px, width - padding * 2.0, "", Split(e.speech.value.text)), x + padding, y + padding, lineHeight(px));
  }

  /**
   * The bubble is outlined and filled before any text; the text is set in the bubble's
   * font, wrapped to 80% of the bubble width and inset by a tenth of the width on the
   * left and top, one line height per line.
   */
  lemma SpeechLayout(measure: (real, string) -> real, lineHeight: real -> real, e: Element, width: real, height: real, x: real, y: real)
    requires e.speech.Some?
    ensures var r := SpeechOps(measure, lineHeight, e, width, height, x, y);
      var px := FontPx(e);
      var lines := Lines(measure, px, 0.8 * width, "", Split(e.speech.value.text));
      |r| == 8 + |lines|
      && r[0] == SetFont(px)
      && r[3] == RoundedRect(x, y, width, height, CornerRadii(e.speech.value.corner, width))
      && r[8..] == FillTexts(lines, x + width / 10.0, y + width / 10.0, lineHeight(px))
  {
    var px := FontPx(e);
    var padding := TextPadding(width);
    var inner := width - padding * 2.0;
    assert inner == 0.8 * width;
    assert padding == width / 10.0;
    var lines := Lines(measure, px, inner, "", Split(e.speech.value.text));
    var texts := FillTexts(lines, x + padding, y + padding, lineHeight(px));
    var bubble := BubbleOps(e, width, height, x, y);
    SpeechParts(measure, lineHeight, e, width, height, x, y);
    assert (bubble + texts)[8..] == texts;
  }

  /** Neither the bubble nor the text moves or rotates the context. */
  lemma SpeechOnlyDraws(measure: (real, string) -> real, lineHeight: real -> real, e: Element, width: real, height: real, x: real, y: real)
    requires e.speech.Some?
    ensures NoTransforms(SpeechOps(measure, lineHeight, e, width, height, x, y))
  {
    var px := FontPx(e);
    var padding := TextPadding(width);
    var lines := Lines(measure, px, width - padding * 2.0, "", Split(e.speech.value.text));
    var bubble := BubbleOps(e, width, height, x, y);
    SpeechIsBubbleThenText(measure, lineHeight, e, width, height, x, y);
    assert NoTransforms(bubble) by {
      forall i | 0 <= i < 8
        ensures !IsTransform(bubble[i])
      {
      }
    }
    FillTextsOnlyDraw(lines, x + padding, y + padding, lineHeight(px));
    NoTransformsAppend(bubble, FillTexts(lines, x + padding, y + padding, lineHeight(px)));
  }

  /** The first half of `drawSpeech`: sets the font and draws the rounded, outlined bubble. */
  method DrawBubble(ctx: Context, e: Element, width: real, height: real, x: real, y: real)
    requires e.speech.Some?
    modifies ctx
    ensures ctx.font == FontPx(e)
    ensures ctx.ops == old(ctx.ops) + BubbleOps(e, width, height, x, y)
  {
    var speech := e.speech.value;
    var radii := CornerRadii(speech.corner, width);
    ghost var start := ctx.ops;
    ghost var outline := [SetFont(FontPx(e)), SetFillStyle(White), SetLineWidth(2.0),
      RoundedRect(x, y, width, height, radii)];
    ghost var paint := [Fill, Stroke, SetFillStyle(Black), SetLineWidth(1.0)];
    ctx.Do(SetFont(FontPx(e)));
    ctx.Do(SetFillStyle(White));
    ctx.Do(SetLineWidth(2.0));
    ctx.Do(RoundedRect(x, y, width, height, radii));
    assert ctx.ops == start + outline;
    ctx.Do(Fill);
    ctx.Do(Stroke);
    ctx.Do(SetFillStyle(Black));
    ctx.Do(SetLineWidth(1.0));
    assert ctx.ops == start + (outline + paint);
    ghost var bubble := BubbleOps(e, width, height, x, y);
    assert forall i | 0 <= i < 8 :: bubble[i] == (outline + paint)[i];
    assert outline + paint == bubble;
  }

  /** `drawSpeech`: the bubble, then the wrapped text inside it. */
  method DrawSpeech(ctx: Context, e: Element, width: real, height: real, x: real, y: real)
    requires e.speech.Some?
    modifies ctx
    ensures ctx.font == FontPx(e)
    ensures ctx.ops == old(ctx.ops) + SpeechOps(ctx.measure, ctx.lineHeight, e, width, height, x, y)
  {
    ghost var start := ctx.ops;
    DrawBubble(ctx, e, width, height, x, y);
    var padding := TextPadding(width);
    DrawText(ctx, e.speech.value.text, x + padding, y + padding, width - padding * 2.0);
    SpeechIsBubbleThenText(ctx.measure, ctx.lineHeight, e, width, height, x, y);
    AppendAssoc(start, BubbleOps(e, width, height, x, y),
      TextOps(ctx.measure, ctx.lineHeight, FontPx(e), e.speech.value.text, x + padding, y + padding, width - padding * 2.0));
  }

  // ---------------------------------------------------------------------------
  // Element placement

  /** A decoded image: its URL and natural size. */
  datatype Bitmap = Bitmap(url: string, width: real, height: real)

  /** Element sizes and positions are percentages, positions of the element's own size. */
  const Koef: real := 0.01

  /** An effect repeats its image; everything else draws it once. */
  predicate IsEffect(e: Element) {
    e.repeatX != 1.0 || e.repeatY != 1.0
  }

  /** A speech bubble is drawn when the element carries a non-empty speech text. */
  predicate IsSpeech(e: Element) {
    e.speech.Some? && e.speech.value.text != ""
  }

  /**
   * The canvas point the element is drawn around: the canvas centre, moved by the
   * position taken as hundredths of a percent of the element's size.
   */
  function Anchor(canvasWidth: real, canvasHeight: real, e: Element): Vec {
    Vec(canvasWidth * (0.5 + e.width * e.position.x * Koef * Koef),
        canvasHeight * (0.5 + e.height * e.position.y * Koef * Koef))
  }

  /**
   * An element at position zero is anchored at the canvas centre; otherwise the anchor is
   * off the centre by position x size / 10000 of the canvas dimension.
   */
  lemma AnchorOffset(canvasWidth: real, canvasHeight: real, e: Element)
    ensures var a := Anchor(canvasWidth, canvasHeight, e);
      a.x - canvasWidth / 2.0 == canvasWidth * e.width * e.position.x / 10000.0
      && a.y - canvasHeight / 2.0 == canvasHeight * e.height * e.position.y / 10000.0
      && (e.position.x == 0.0 ==> a.x == canvasWidth / 2.0)
      && (e.position.y == 0.0 ==> a.y == canvasHeight / 2.0)
  {
  }

  /** Canvas sizes and image sizes the geometry can divide by. */
  predicate Measurable(canvasWidth: real, canvasHeight: real, img: Option<Bitmap>) {
    img.Some? ==> canvasWidth > 0.0 && canvasHeight > 0.0 && img.value.height > 0.0
  }

  /** The element's width and height after the aspect correction for a decoded image. */
  function Corrected(canvasWidth: real, canvasHeight: real, e: Element, img: Option<Bitmap>): Vec
    requires Measurable(canvasWidth, canvasHeight, img)
  {
    if img.None? then Vec(e.width, e.height)
    else
      var ratio := img.value.width / img.value.height;
      var canvasRatio := canvasWidth / canvasHeight;
      Vec(e.width * (if ratio >= canvasRatio then 1.0 else 1.0 / canvasRatio),
          e.height * (if ratio < canvasRatio then 1.0 else canvasRatio))
  }

  /**
   * The correction leaves the size alone without an image; with one, an image at least as
   * wide (relative to its height) as the canvas keeps the width and multiplies the height
   * by the canvas ratio, and a narrower one divides the width by it and keeps the height.
   */
  lemma AspectCorrection(canvasWidth: real, canvasHeight: real, e: Element, img: Option<Bitmap>)
    requires Measurable(canvasWidth, canvasHeight, img)
    ensures var c := Corrected(canvasWidth, canvasHeight, e, img);
      (img.None? ==> c == Vec(e.width, e.height))
      && (img.Some? ==>
            var canvasRatio := canvasWidth / canvasHeight;
            && (img.value.width / img.value.height >= canvasRatio ==> c == Vec(e.width, e.height * canvasRatio))
            && (img.value.width / img.value.height < canvasRatio ==> c == Vec(e.width / canvasRatio, e.height)))
  {
  }

  /** The drawn size in canvas pixels. */
  function Scaled(canvasWidth: real, canvasHeight: real, e: Element, img: Option<Bitmap>): Vec
    requires Measurable(canvasWidth, canvasHeight, img)
  {
    var c := Corrected(canvasWidth, canvasHeight, e, img);
    Vec(canvasWidth * c.x * Koef * e.scale.x, canvasHeight * c.y * Koef * e.scale.y)
  }

  /**
   * With an image, the drawn rectangle has the pixel aspect of the element's own
   * width x height (times its scale), whatever the image's natural ratio; without one it
   * is stretched by the canvas ratio.
   */
  lemma DrawnAspect(canvasWidth: real, canvasHeight: real, e: Element, img: Option<Bitmap>)
    requires Measurable(canvasWidth, canvasHeight, img)
    ensures var s := Scaled(canvasWidth, canvasHeight, e, img);
      (img.Some? ==> s.x * (e.height * e.scale.y) == s.y * (e.width * e.scale.x))
      && (img.None? ==> s.x * (canvasHeight * e.height * e.scale.y) == s.y * (canvasWidth * e.width * e.scale.x))
  {
    var s := Scaled(canvasWidth, canvasHeight, e, img);
    var c := Corrected(canvasWidth, canvasHeight, e, img);
    if img.Some? {
      var canvasRatio := canvasWidth / canvasHeight;
      if img.value.width / img.value.height >= canvasRatio {
        assert c == Vec(e.width, e.height * canvasRatio);
        assert canvasHeight * canvasRatio == canvasWidth;
        assert s.y == canvasWidth * e.height * Koef * e.scale.y;
      } else {
        assert c == Vec(e.width / canvasRatio, e.height);
        assert canvasWidth / canvasRatio == canvasHeight;
        assert s.x == canvasHeight * e.width * Koef * e.scale.x;
      }
    }
  }

  /** The offscreen tile an effect draws from: the image repeated over `repeat` times its size. */
  function Tile(e: Element, img: Bitmap, noise: real): Source {
    Tiled(img.url, img.width * e.repeatX, img.height * e.repeatY, noise * img.height)
  }

  /** What `drawElement` needs: a measurable canvas, and an image unless it only draws a bubble. */
  predicate Drawable(canvasWidth: real, canvasHeight: real, e: Element, img: Option<Bitmap>, noise: real) {
    Measurable(canvasWidth, canvasHeight, img)
    && ((IsEffect(e) || !IsSpeech(e)) ==> img.Some?)
    && 0.0 <= noise < 1.0
  }

  /** The calls between the element's transform and its inverse. */
  function ElementBody(canvasWidth: real, canvasHeight: real, measure: (real, string) -> real, lineHeight: real -> real, e: Element, img: Option<Bitmap>, noise: real): seq<Op>
    requires Drawable(canvasWidth, canvasHeight, e, img, noise)
  {
    var s := Scaled(canvasWidth, canvasHeight, e, img);
    if IsSpeech(e) then SpeechOps(measure, lineHeight, e, s.x, s.y, -s.x * 0.5, -s.y * 0.5)
    else
      var source := if IsEffect(e) then Tile(e, img.value, noise) else Picture(img.value.url);
      [DrawImage(source, -s.x * 0.5, -s.y * 0.5, s.x, s.y)]
  }

  /** The body is the bubble for a speech element and one image draw otherwise. */
  lemma BodyCases(canvasWidth: real, canvasHeight: real, measure: (real, string) -> real, lineHeight: real -> real, e: Element, img: Option<Bitmap>, noise: real)
    requires Drawable(canvasWidth, canvasHeight, e, img, noise)
    ensures var s := Scaled(canvasWidth, canvasHeight, e, img);
      var body := ElementBody(canvasWidth, canvasHeight, measure, lineHeight, e, img, noise);
      (IsSpeech(e) ==> body == SpeechOps(measure, lineHeight, e, s.x, s.y, -s.x * 0.5, -s.y * 0.5))
      && (!IsSpeech(e) && IsEffect(e) ==> body == [DrawImage(Tile(e, img.value, noise), -s.x * 0.5, -s.y * 0.5, s.x, s.y)])
      && (!IsSpeech(e) && !IsEffect(e) ==> body == [DrawImage(Picture(img.value.url), -s.x * 0.5, -s.y * 0.5, s.x, s.y)])
  {
  }

  /** Everything `drawElement` draws. */
  function ElementOps(canvasWidth: real, canvasHeight: real, measure: (real, string) -> real, lineHeight: real -> real, e: Element, img: Option<Bitmap>, noise: real): seq<Op>
    requires Drawable(canvasWidth, canvasHeight, e, img, noise)
  {
    var a := Anchor(canvasWidth, canvasHeight, e);
    Framed(a.x, a.y, e.rotation, ElementBody(canvasWidth, canvasHeight, measure, lineHeight, e, img, noise))
  }

  /**
   * Drawing an element translates to its anchor and rotates by its rotation, draws, then
   * undoes both, so the context's net transform is what it was before.
   */
  lemma ElementKeepsTransform(ops: seq<Op>, canvasWidth: real, canvasHeight: real, measure: (real, string) -> real, lineHeight: real -> real, e: Element, img: Option<Bitmap>, noise: real)
    requires Drawable(canvasWidth, canvasHeight, e, img, noise)
    ensures var r := ElementOps(canvasWidth, canvasHeight, measure, lineHeight, e, img, noise);
      var a := Anchor(canvasWidth, canvasHeight, e);
      r[0] == Translate(a.x, a.y) && r[1] == Rotate(e.rotation)
      && r[|r| - 2] == Rotate(-e.rotation) && r[|r| - 1] == Translate(-a.x, -a.y)
      && Net(ops + r) == Net(ops)
  {
    var a := Anchor(canvasWidth, canvasHeight, e);
    var s := Scaled(canvasWidth, canvasHeight, e, img);
    var body := ElementBody(canvasWidth, canvasHeight, measure, lineHeight, e, img, noise);
    var r := Framed(a.x, a.y, e.rotation, body);
    if IsSpeech(e) {
      SpeechOnlyDraws(measure, lineHeight, e, s.x, s.y, -s.x * 0.5, -s.y * 0.5);
    }
    assert NoTransforms(body);
    NetAfterFramed(ops, a.x, a.y, e.rotation, body);
  }

  /**
   * The drawn rectangle (the image, or the bubble outline) is centred on the anchor and
   * has the scaled size; an image is drawn from the repeated tile exactly when the element
   * is an effect, the tile being the image size times the repeat counts.
   */
  lemma ElementPlacement(canvasWidth: real, canvasHeight: real, measure: (real, string) -> real, lineHeight: real -> real, e: Element, img: Option<Bitmap>, noise: real)
    requires Drawable(canvasWidth, canvasHeight, e, img, noise)
    ensures var r := ElementOps(canvasWidth, canvasHeight, measure, lineHeight, e, img, noise);
      var s := Scaled(canvasWidth, canvasHeight, e, img);
      var op := r[if IsSpeech(e) then 5 else 2];
      (if IsSpeech(e) then op.RoundedRect? else op.DrawImage?)
      && op.x + op.w / 2.0 == 0.0 && op.y + op.h / 2.0 == 0.0
      && op.w == s.x && op.h == s.y
      && (op.DrawImage? ==> (op.source.Tiled? <==> IsEffect(e)))
      && (op.DrawImage? && IsEffect(e) ==>
            op.source.width == img.value.width * e.repeatX && op.source.height == img.value.height * e.repeatY)
  {
    if IsSpeech(e) {
      BubbleCall(canvasWidth, canvasHeight, measure, lineHeight, e, img, noise);
    } else {
      ImageCall(canvasWidth, canvasHeight, measure, lineHeight, e, img, noise);
    }
  }

  /** Call 2 of a non-speech element is its one image draw. */
  lemma ImageCall(canvasWidth: real, canvasHeight: real, measure: (real, string) -> real, lineHeight: real -> real, e: Element, img: Option<Bitmap>, noise: real)
    requires Drawable(canvasWidth, canvasHeight, e, img, noise) && !IsSpeech(e)
    ensures var s := Scaled(canvasWidth, canvasHeight, e, img);
      ElementOps(canvasWidth, canvasHeight, measure, lineHeight, e, img, noise)[2]
      == DrawImage(if IsEffect(e) then Tile(e, img.value, noise) else Picture(img.value.url), -s.x * 0.5, -s.y * 0.5, s.x, s.y)
  {
    var a := Anchor(canvasWidth, canvasHeight, e);
    var body := ElementBody(canvasWidth, canvasHeight, measure, lineHeight, e, img, noise);
    assert Framed(a.x, a.y, e.rotation, body)[2] == body[0];
  }

  /** Call 5 of a speech element is its bubble outline. */
  lemma BubbleCall(canvasWidth: real, canvasHeight: real, measure: (real, string) -> real, lineHeight: real -> real, e: Element, img: Option<Bitmap>, noise: real)
    requires Drawable(canvasWidth, canvasHeight, e, img, noise) && IsSpeech(e)
    ensures var s := Scaled(canvasWidth, canvasHeight, e, img);
      ElementOps(canvasWidth, canvasHeight, measure, lineHeight, e, img, noise)[5]
      == RoundedRect(-s.x * 0.5, -s.y * 0.5, s.x, s.y, CornerRadii(e.speech.value.corner, s.x))
  {
    var a := Anchor(canvasWidth, canvasHeight, e);
    var s := Scaled(canvasWidth, canvasHeight, e, img);
    var body := ElementBody(canvasWidth, canvasHeight, measure, lineHeight, e, img, noise);
    SpeechLayout(measure, lineHeight, e, s.x, s.y, -s.x * 0.5, -s.y * 0.5);
    assert Framed(a.x, a.y, e.rotation, body)[5] == body[3];
  }

  /** `drawElement`: one scene element, placed, rotated and drawn. */
  method DrawElement(ctx: Context, e: Element, img: Option<Bitmap>, noise: real)
    requires Drawable(ctx.width, ctx.height, e, img, noise)
    modifies ctx
    ensures ctx.font == if IsSpeech(e) then FontPx(e) else old(ctx.font)
    ensures ctx.ops == old(ctx.ops) + ElementOps(ctx.width, ctx.height, ctx.measure, ctx.lineHeight, e, img, noise)
  {
    var anchor := Anchor(ctx.width, ctx.height, e);
    ghost var before := ctx.ops;
    ghost var body := ElementBody(ctx.width, ctx.height, ctx.measure, ctx.lineHeight, e, img, noise);
    ctx.Do(Translate(anchor.x, anchor.y));
    ctx.Do(Rotate(e.rotation));
    DrawBody(ctx, e, img, noise);
    ghost var font := ctx.font;
    ctx.Do(Rotate(-e.rotation));
    ctx.Do(Translate(-anchor.x, -anchor.y));
    assert ctx.font == font;
    AppendFramed(before, anchor.x, anchor.y, e.rotation, body);
    assert ElementOps(ctx.width, ctx.height, ctx.measure, ctx.lineHeight, e, img, noise)
      == Framed(anchor.x, anchor.y, e.rotation, body);
  }

  /**
   * The part of `drawElement` between the transform and its inverse: the bubble for a
   * speech element, otherwise the image, or for an effect its repeated tile.
   */
  method DrawBody(ctx: Context, e: Element, img: Option<Bitmap>, noise: real)
    requires Drawable(ctx.width, ctx.height, e, img, noise)
    modifies ctx
    ensures ctx.font == if IsSpeech(e) then FontPx(e) else old(ctx.font)
    ensures ctx.ops == old(ctx.ops) + ElementBody(ctx.width, ctx.height, ctx.measure, ctx.lineHeight, e, img, noise)
  {
    var isEffect := e.repeatX != 1.0 || e.repeatY != 1.0;
    var isSpeech := e.speech.Some? && e.speech.value.text != "";
    var scaled := Scaled(ctx.width, ctx.height, e, img);
    if isSpeech {
      DrawSpeech(ctx, e, scaled.x, scaled.y, -scaled.x * 0.5, -scaled.y * 0.5);
    } else {
      var source := if isEffect then Tile(e, img.value, noise) else Picture(img.value.url);
      ctx.Do(DrawImage(source, -scaled.x * 0.5, -scaled.y * 0.5, scaled.x, scaled.y));
    }
  }
}
