/**
 * `_looks_bold` and `_reconstruct_line_with_bold`: one line of glyphs,
 * ordered by `x0`, becomes a string. A space goes before a glyph that starts
 * well after the previous one ends, and runs of bold glyphs are wrapped in
 * `<bold>` and `</bold>`.
 *
 * The output buffer `out` holds strings; here each entry is a `Piece`, so
 * that the markers can be told apart from glyph text, and `Render` is
 * `"".join(out)`.
 */
module LineReconstruction {
  import opened Wrappers
  import opened Strings
  import opened Glyphs

  // ----------------------------------------------------------------------
  // _looks_bold

  /** `_BOLD_TOKENS`. */
  const BoldTokens: seq<string> := ["bold", "bd", "black", "heavy", "semibold", "demi", "mediumbold"]

  /** `any(tok in fn for tok in toks)`. */
  function AnyIn(fn: string, toks: seq<string>): bool
  {
    if toks == [] then false else Contains(fn, toks[0]) || AnyIn(fn, toks[1..])
  }

  /** `_looks_bold(fontname)`: an empty name is not bold. */
  function LooksBold(font: string): bool
  {
    if font == [] then false else AnyIn(Lower(font), BoldTokens)
  }

  lemma {:induction false} AnyInExists(fn: string, toks: seq<string>)
    ensures AnyIn(fn, toks) <==> exists i :: 0 <= i < |toks| && Contains(fn, toks[i])
  {
    if toks != [] {
      AnyInExists(fn, toks[1..]);
      if exists i :: 0 <= i < |toks| && Contains(fn, toks[i]) {
        var i :| 0 <= i < |toks| && Contains(fn, toks[i]);
        if i > 0 {
          assert toks[1..][i - 1] == toks[i];
        }
      }
      if exists i :: 0 <= i < |toks[1..]| && Contains(fn, toks[1..][i]) {
        var i :| 0 <= i < |toks[1..]| && Contains(fn, toks[1..][i]);
        assert toks[1..][i] == toks[i + 1];
      }
    }
  }

  /** A font name is bold exactly when it is non-empty and its lower-cased form contains one of the tokens. */
  lemma LooksBoldIff(font: string)
    ensures LooksBold(font) <==> font != [] && exists i :: 0 <= i < |BoldTokens| && Contains(Lower(font), BoldTokens[i])
  {
    AnyInExists(Lower(font), BoldTokens);
  }

  /** Case does not matter. */
  lemma LooksBoldLower(font: string)
    ensures LooksBold(Lower(font)) == LooksBold(font)
  {
    LowerIdempotent(font);
  }

  // ----------------------------------------------------------------------
  // The pieces of a line

  /** An entry of the output buffer. */
  datatype Piece = Space | Open | Close | Text(s: string)

  function PieceText(p: Piece): string {
    match p
    case Space => " "
    case Open => "<bold>"
    case Close => "</bold>"
    case Text(s) => s
  }

  /** `"".join(out)`. */
  function Render(ps: seq<Piece>): string
  {
    if ps == [] then [] else Render(ps[..|ps| - 1]) + PieceText(ps[|ps| - 1])
  }

  /** `max(0.0, x1 - x0)` when both ends are known. */
  function Width(g: Glyph): Option<real> {
    if g.x0.Some? && g.x1.Some? then
      Some(if g.x1.value - g.x0.value > 0.0 then g.x1.value - g.x0.value else 0.0)
    else None
  }

  /** `avg_char_w`: the previous glyph's width when it is positive, else 3.0. */
  function RefWidth(prevW: Option<real>): real {
    if prevW.Some? && prevW.value > 0.0 then prevW.value else 3.0
  }

  /** The space test: both positions known and the gap wider than `gapRatio` of the reference width. */
  predicate Gap(prevX1: Option<real>, prevW: Option<real>, x0: Option<real>, gapRatio: real) {
    prevX1.Some? && x0.Some? && x0.value - prevX1.value > gapRatio * RefWidth(prevW)
  }

  /** The loop's state: `out`, `in_bold`, `prev_x1` and `prev_w`. */
  datatype LineState = LineState(out: seq<Piece>, inBold: bool, prevX1: Option<real>, prevW: Option<real>)

  /** The space, if any, that goes before a glyph starting at `x0`. */
  function SpaceBefore(st: LineState, x0: Option<real>, gapRatio: real): seq<Piece> {
    if Gap(st.prevX1, st.prevW, x0, gapRatio) then [Space] else []
  }

  /** The marker, if any, that goes before a glyph whose weight is `isBold`. */
  function Marker(isBold: bool, inBold: bool): seq<Piece> {
    if isBold && !inBold then [Open] else if !isBold && inBold then [Close] else []
  }

  /** `in_bold` after that marker. */
  function BoldAfter(isBold: bool, inBold: bool): bool {
    if isBold && !inBold then true else if !isBold && inBold then false else inBold
  }

  /** One iteration for glyph `g`; a glyph with empty text is skipped. */
  function Emit(st: LineState, g: Glyph, gapRatio: real): LineState {
    if g.text == [] then st
    else
      var isBold := LooksBold(g.font);
      LineState(st.out + SpaceBefore(st, g.x0, gapRatio) + Marker(isBold, st.inBold) + [Text(g.text)],
                BoldAfter(isBold, st.inBold), g.x1, Width(g))
  }

  /** The state after the loop has seen all of `line`. */
  function Run(line: seq<Glyph>, gapRatio: real): LineState
  {
    if line == [] then LineState([], false, None, None)
    else Emit(Run(line[..|line| - 1], gapRatio), line[|line| - 1], gapRatio)
  }

  /** The buffer at the end, with the closing tag when the line ended in bold. */
  function Pieces(line: seq<Glyph>, gapRatio: real): seq<Piece>
  {
    var st := Run(line, gapRatio);
    if st.inBold then st.out + [Close] else st.out
  }

  /** `_reconstruct_line_with_bold(line_chars, gap_ratio)`. */
  function ReconstructLine(line: seq<Glyph>, gapRatio: real): string
  {
    Render(Pieces(line, gapRatio))
  }

  /** The loop body as written for a glyph with non-empty text: space, marker, text, then the new `prev_x1` and `prev_w`. */
  method EmitGlyph(out: seq<Piece>, inBold: bool, prevX1: Option<real>, prevW: Option<real>, ch: Glyph, gapRatio: real)
    returns (out': seq<Piece>, inBold': bool, prevX1': Option<real>, prevW': Option<real>)
    requires ch.text != []
    ensures LineState(out', inBold', prevX1', prevW') == Emit(LineState(out, inBold, prevX1, prevW), ch, gapRatio)
  {
    ghost var before := LineState(out, inBold, prevX1, prevW);
    var x0, x1 := ch.x0, ch.x1;
    var w: Option<real> := None;
    if x0.Some? && x1.Some? {
      w := Some(if x1.value - x0.value > 0.0 then x1.value - x0.value else 0.0);
    }
    out' := out;
    if prevX1.Some? && x0.Some? {
      var avgCharW := if prevW.Some? && prevW.value > 0.0 then prevW.value else 3.0;
      if x0.value - prevX1.value > gapRatio * avgCharW {
        out' := out' + [Space];
      }
    }
    assert out' == out + SpaceBefore(before, x0, gapRatio);
    var isBold := LooksBold(ch.font);
    inBold' := inBold;
    if isBold && !inBold {
      out' := out' + [Open];
      inBold' := true;
    } else if !isBold && inBold {
      out' := out' + [Close];
      inBold' := false;
    }
    out' := out' + [Text(ch.text)];
    prevX1' := x1;
    prevW' := w;
  }

  /** The loop as written. */
  method ReconstructLineWithBold(lineChars: seq<Glyph>, gapRatio: real) returns (s: string)
    ensures s == ReconstructLine(lineChars, gapRatio)
  {
    if lineChars == [] {
      return "";
    }
    var out: seq<Piece> := [];
    var inBold := false;
    var prevX1: Option<real> := None;
    var prevW: Option<real> := None;
    for i := 0 to |lineChars|
      invariant Run(lineChars[..i], gapRatio) == LineState(out, inBold, prevX1, prevW)
    {
      assert lineChars[..i + 1][..i] == lineChars[..i];
      var ch := lineChars[i];
      if ch.text == [] {
        continue;
      }
      out, inBold, prevX1, prevW := EmitGlyph(out, inBold, prevX1, prevW, ch, gapRatio);
    }
    assert lineChars[..|lineChars|] == lineChars;
    if inBold {
      out := out + [Close];
    }
    s := Render(out);
  }

  // ----------------------------------------------------------------------
  // Glyphs with empty text are skipped

  /** The glyphs that produce output: those with non-empty text, in order. */
  function Kept(line: seq<Glyph>): (r: seq<Glyph>)
    ensures forall i :: 0 <= i < |r| ==> r[i].text != [] && r[i] in line
  {
    if line == [] then []
    else
      var p := Kept(line[..|line| - 1]);
      assert forall g :: g in line[..|line| - 1] ==> g in line;
      if line[|line| - 1].text == [] then p else p + [line[|line| - 1]]
  }

  lemma {:induction false} KeptAppend(a: seq<Glyph>, b: seq<Glyph>)
    ensures Kept(a + b) == Kept(a) + Kept(b)
  {
    if b != [] {
      var p := b[..|b| - 1];
      KeptAppend(a, p);
      assert (a + b)[..|a + b| - 1] == a + p;
    } else {
      assert a + b == a;
    }
  }

  lemma {:induction false} RunKept(line: seq<Glyph>, gapRatio: real)
    ensures Run(Kept(line), gapRatio) == Run(line, gapRatio)
  {
    if line != [] {
      var p, g := line[..|line| - 1], line[|line| - 1];
      RunKept(p, gapRatio);
      if g.text != [] {
        var k := Kept(p) + [g];
        assert k[..|k| - 1] == Kept(p);
      }
    }
  }

  /** A glyph with empty text changes nothing, wherever it stands: the line reads as if it were not there. */
  lemma SkipEmpty(a: seq<Glyph>, g: Glyph, b: seq<Glyph>, gapRatio: real)
    requires g.text == []
    ensures Pieces(a + [g] + b, gapRatio) == Pieces(a + b, gapRatio)
  {
    KeptAppend(a + [g], b);
    KeptAppend(a, [g]);
    KeptAppend(a, b);
    assert [g][..0] == [];
    RunKept(a + [g] + b, gapRatio);
    RunKept(a + b, gapRatio);
  }

  // ----------------------------------------------------------------------
  // What the buffer says

  /** A glyph's text as the reader sees it: whether it is inside `<bold>` and whether a space precedes it. */
  datatype Word = Word(text: string, bold: bool, spaced: bool)

  /** A reader's state: inside bold, a space seen, a marker seen since the last text, and the words so far. */
  datatype Reading = Reading(inBold: bool, pending: bool, marked: bool, words: seq<Word>)

  /**
   * One piece read. A space must follow a text and come before any marker;
   * `<bold>` only outside bold, `</bold>` only inside, at most one marker
   * between texts; texts are non-empty. Anything else is malformed.
   */
  function ReadPiece(r: Reading, p: Piece): Option<Reading> {
    match p
    case Space => if r.words == [] || r.pending || r.marked then None else Some(r.(pending := true))
    case Open => if r.inBold || r.marked then None else Some(r.(inBold := true, marked := true))
    case Close => if !r.inBold || r.marked then None else Some(r.(inBold := false, marked := true))
    case Text(s) =>
      if s == [] then None else Some(Reading(r.inBold, false, false, r.words + [Word(s, r.inBold, r.pending)]))
  }

  /** Reads a buffer from the start; `None` when it is malformed. */
  function Read(ps: seq<Piece>): Option<Reading>
  {
    if ps == [] then Some(Reading(false, false, false, []))
    else
      match Read(ps[..|ps| - 1])
      case None => None
      case Some(r) => ReadPiece(r, ps[|ps| - 1])
  }

  /** The space test between two consecutive kept glyphs. */
  predicate GapBetween(a: Glyph, b: Glyph, gapRatio: real) {
    Gap(a.x1, Width(a), b.x0, gapRatio)
  }

  /**
   * What each kept glyph should read as: its own text, bold exactly when its
   * font looks bold, and spaced exactly when it is not the first and the gap
   * from the kept glyph before it is wide enough.
   */
  function Words(ks: seq<Glyph>, gapRatio: real): (r: seq<Word>)
    ensures |r| == |ks|
  {
    if ks == [] then []
    else
      var n := |ks|;
      Words(ks[..n - 1], gapRatio)
        + [Word(ks[n - 1].text, LooksBold(ks[n - 1].font), n > 1 && GapBetween(ks[n - 2], ks[n - 1], gapRatio))]
  }

  lemma {:induction false} WordsAt(ks: seq<Glyph>, gapRatio: real, i: int)
    requires 0 <= i < |ks|
    ensures Words(ks, gapRatio)[i] == Word(ks[i].text, LooksBold(ks[i].font), i > 0 && GapBetween(ks[i - 1], ks[i], gapRatio))
  {
    if i < |ks| - 1 {
      var p := ks[..|ks| - 1];
      WordsAt(p, gapRatio, i);
    }
  }

  /** The state after the kept glyphs `ks`: the buffer reads as their words, and the loop variables describe the last of them. */
  predicate RunOk(ks: seq<Glyph>, st: LineState, gapRatio: real) {
    Read(st.out) == Some(Reading(st.inBold, false, false, Words(ks, gapRatio)))
    && st.prevX1 == (if ks == [] then None else ks[|ks| - 1].x1)
    && st.prevW == (if ks == [] then None else Width(ks[|ks| - 1]))
    && st.inBold == (ks != [] && LooksBold(ks[|ks| - 1].font))
  }

  lemma ReadText(r: Reading, out: seq<Piece>, s: string)
    requires Read(out) == Some(r) && s != []
    ensures Read(out + [Text(s)]) == Some(Reading(r.inBold, false, false, r.words + [Word(s, r.inBold, r.pending)]))
  {
    assert (out + [Text(s)])[..|out|] == out;
  }

  lemma ReadSpace(r: Reading, out: seq<Piece>, sp: seq<Piece>, pending: bool)
    requires Read(out) == Some(r) && !r.pending && !r.marked
    requires sp == (if pending then [Space] else [])
    requires pending ==> r.words != []
    ensures Read(out + sp) == Some(r.(pending := pending))
  {
    if pending {
      assert (out + sp)[..|out|] == out;
    } else {
      assert out + sp == out;
    }
  }

  lemma ReadMarker(r: Reading, out: seq<Piece>, isBold: bool)
    requires Read(out) == Some(r) && !r.marked
    ensures Read(out + Marker(isBold, r.inBold)).Some?
    ensures var r' := Read(out + Marker(isBold, r.inBold)).value;
            r'.inBold == BoldAfter(isBold, r.inBold) && r'.pending == r.pending && r'.words == r.words
  {
    var m := Marker(isBold, r.inBold);
    if m == [] {
      assert out + m == out;
    } else {
      assert (out + m)[..|out|] == out;
    }
  }

  /** One kept glyph keeps `RunOk`. */
  lemma EmitOk(ks: seq<Glyph>, st: LineState, g: Glyph, gapRatio: real)
    requires RunOk(ks, st, gapRatio) && g.text != []
    ensures RunOk(ks + [g], Emit(st, g, gapRatio), gapRatio)
  {
    var ks' := ks + [g];
    assert ks'[..|ks|] == ks;
    var sp := SpaceBefore(st, g.x0, gapRatio);
    var pending := Gap(st.prevX1, st.prevW, g.x0, gapRatio);
    var r := Reading(st.inBold, false, false, Words(ks, gapRatio));
    ReadSpace(r, st.out, sp, pending);
    var isBold := LooksBold(g.font);
    var r1 := r.(pending := pending);
    ReadMarker(r1, st.out + sp, isBold);
    var r2 := Read(st.out + sp + Marker(isBold, st.inBold)).value;
    ReadText(r2, st.out + sp + Marker(isBold, st.inBold), g.text);
    assert pending == (|ks'| > 1 && GapBetween(ks'[|ks'| - 2], g, gapRatio));
  }

  lemma {:induction false} RunOkAll(ks: seq<Glyph>, gapRatio: real)
    requires forall i :: 0 <= i < |ks| ==> ks[i].text != []
    ensures RunOk(ks, Run(ks, gapRatio), gapRatio)
  {
    if ks != [] {
      var p, g := ks[..|ks| - 1], ks[|ks| - 1];
      RunOkAll(p, gapRatio);
      EmitOk(p, Run(p, gapRatio), g, gapRatio);
      assert p + [g] == ks;
      assert Run(ks, gapRatio) == Emit(Run(p, gapRatio), g, gapRatio);
    }
  }

  /**
   * The reconstructed line is well-formed markup: `<bold>` and `</bold>`
   * alternate, starting with `<bold>`, and the line ends outside bold; every
   * space is followed by a glyph's text; and the texts, in order, are those
   * of the glyphs with non-empty text, each inside bold exactly when its font
   * looks bold and preceded by a space exactly when the gap rule says so.
   */
  lemma PiecesRead(line: seq<Glyph>, gapRatio: real)
    ensures Read(Pieces(line, gapRatio)).Some?
    ensures var r := Read(Pieces(line, gapRatio)).value;
            !r.inBold && !r.pending && r.words == Words(Kept(line), gapRatio)
  {
    var ks := Kept(line);
    RunKept(line, gapRatio);
    RunOkAll(ks, gapRatio);
    var st := Run(line, gapRatio);
    if st.inBold {
      assert (st.out + [Close])[..|st.out|] == st.out;
    }
  }

  /** No glyphs, empty line. */
  lemma ReconstructEmpty(gapRatio: real)
    ensures ReconstructLine([], gapRatio) == ""
  {
  }

  // ----------------------------------------------------------------------
  // An example

  /** A string that lacks the first character of `t` does not contain `t`. */
  lemma MissingFirstChar(s: string, t: string)
    requires t != [] && t[0] !in s
    ensures !Contains(s, t)
  {
    forall i
      ensures !OccursAt(s, t, i)
    {
      if 0 <= i <= |s| - |t| {
        assert s[i..i + |t|][0] == s[i] && s[i] in s;
      }
    }
    ContainsAt(s, t);
  }

  lemma ArialBoldIsBold(f: string)
    requires f == "Arial-Bold"
    ensures LooksBold(f)
  {
    var l := Lower(f);
    assert l[6..10] == "bold";
    assert OccursAt(l, "bold", 6);
    ContainsAt(l, "bold");
    LooksBoldIff(f);
    assert BoldTokens[0] == "bold";
  }

  lemma ArialIsNotBold(f: string)
    requires f == "Arial"
    ensures !LooksBold(f)
  {
    var l := Lower(f);
    assert l == "arial";
    forall i | 0 <= i < |BoldTokens|
      ensures !Contains(l, BoldTokens[i])
    {
      var t := BoldTokens[i];
      if |t| > |l| {
      } else {
        assert t[0] in "bhd";
        MissingFirstChar(l, t);
      }
    }
    LooksBoldIff(f);
  }

  /** The buffer of the example renders as its pieces one after the other. */
  lemma RenderExample(ps: seq<Piece>)
    requires ps == [Open, Text("A"), Close, Text("B"), Open, Text("C"), Close]
    ensures Render(ps) == "<bold>" + "A" + "</bold>" + "B" + "<bold>" + "C" + "</bold>"
  {
    var o, a, c, b, cc := "<bold>", "A", "</bold>", "B", "C";
    assert Render(ps[..1]) == o by { assert ps[..1][..0] == []; }
    assert Render(ps[..2]) == o + a by { assert ps[..2][..1] == ps[..1]; }
    assert Render(ps[..3]) == o + a + c by { assert ps[..3][..2] == ps[..2]; }
    assert Render(ps[..4]) == o + a + c + b by { assert ps[..4][..3] == ps[..3]; }
    assert Render(ps[..5]) == o + a + c + b + o by { assert ps[..5][..4] == ps[..4]; }
    assert Render(ps[..6]) == o + a + c + b + o + cc by { assert ps[..6][..5] == ps[..5]; }
    assert ps[..7] == ps && ps[..7][..6] == ps[..6];
  }

  /** Touching glyphs `A`, `B`, `C` in a bold, a regular and a bold font. */
  lemma BoldRunsExample(line: seq<Glyph>, bold: string, regular: string)
    requires bold == "Arial-Bold" && regular == "Arial"
    requires line == [Glyph("A", Some(0.0), Some(5.0), 10.0, bold),
                      Glyph("B", Some(5.0), Some(10.0), 10.0, regular),
                      Glyph("C", Some(10.0), Some(15.0), 10.0, bold)]
    ensures ReconstructLine(line, 0.5) == "<bold>" + "A" + "</bold>" + "B" + "<bold>" + "C" + "</bold>"
  {
    ArialBoldIsBold(bold);
    ArialIsNotBold(regular);
    var a, b, cc := line[0], line[1], line[2];
    var s0 := LineState([], false, None, None);
    var s1 := LineState([Open, Text("A")], true, Some(5.0), Some(5.0));
    var s2 := LineState([Open, Text("A"), Close, Text("B")], false, Some(10.0), Some(5.0));
    var ps := [Open, Text("A"), Close, Text("B"), Open, Text("C"), Close];
    assert Run(line[..1], 0.5) == s1 by {
      assert line[..1] == [a] && [a][..0] == [];
      assert Run(line[..1], 0.5) == Emit(s0, a, 0.5);
    }
    assert Run(line[..2], 0.5) == s2 by {
      assert line[..2][..1] == line[..1];
      assert Run(line[..2], 0.5) == Emit(s1, b, 0.5);
    }
    assert Pieces(line, 0.5) == ps by {
      assert line[..2] == line[..|line| - 1];
      assert Run(line, 0.5) == Emit(s2, cc, 0.5);
    }
    RenderExample(ps);
  }
}
