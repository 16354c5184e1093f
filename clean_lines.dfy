/**
 * `clean_lines`: splits a text into lines, right-strips each line, drops every
 * blank line that directly follows another blank line, joins the lines with
 * newlines and strips the whole result.
 */
module Cleanup {
  import opened Strings

  /** `[ln.rstrip() for ln in lines]`. */
  function RStripAll(ls: seq<string>): (r: seq<string>)
    ensures |r| == |ls|
  {
    if ls == [] then [] else [RStrip(ls[0])] + RStripAll(ls[1..])
  }

  lemma {:induction false} RStripAllAt(ls: seq<string>)
    ensures forall k :: 0 <= k < |ls| ==> RStripAll(ls)[k] == RStrip(ls[k])
  {
    if ls != [] {
      RStripAllAt(ls[1..]);
    }
  }

  /** Line `i` is a blank line directly after another blank line. */
  predicate Dropped(ls: seq<string>, i: int) {
    0 < i < |ls| && IsBlank(ls[i - 1]) && IsBlank(ls[i])
  }

  /** The lines that the `last_blank` loop keeps, in order. */
  function Collapse(ls: seq<string>): seq<string>
  {
    if ls == [] then []
    else Collapse(ls[..|ls| - 1]) + (if Dropped(ls, |ls| - 1) then [] else [ls[|ls| - 1]])
  }

  /** What `clean_lines(text)` returns (lines split at `'\n'`). */
  function Cleaned(text: string): string {
    Strip(Join(Collapse(RStripAll(Split(text, '\n'))), "\n"))
  }

  predicate NoDoubleBlank(ls: seq<string>) {
    forall i, j :: 0 <= i && j == i + 1 < |ls| ==> !(IsBlank(ls[i]) && IsBlank(ls[j]))
  }

  function DropLeadingBlanks(ls: seq<string>): (r: seq<string>)
    ensures |r| <= |ls|
  {
    if ls != [] && IsBlank(ls[0]) then DropLeadingBlanks(ls[1..]) else ls
  }

  function DropTrailingBlanks(ls: seq<string>): (r: seq<string>)
    ensures |r| <= |ls|
  {
    if ls != [] && IsBlank(ls[|ls| - 1]) then DropTrailingBlanks(ls[..|ls| - 1]) else ls
  }

  /** Dropping the leading blank lines keeps a suffix that starts non-blank; what goes is all blank. */
  lemma {:induction false} DropLeadingShape(ls: seq<string>)
    ensures var r := DropLeadingBlanks(ls);
            r == ls[|ls| - |r|..] && (r == [] || !IsBlank(r[0])) && AllBlank(ls[..|ls| - |r|])
  {
    if ls != [] && IsBlank(ls[0]) {
      var t := ls[1..];
      DropLeadingShape(t);
      assert ls[..|ls| - |DropLeadingBlanks(ls)|] == [ls[0]] + t[..|t| - |DropLeadingBlanks(t)|];
    }
  }

  /** Dropping the trailing blank lines keeps a prefix that ends non-blank; what goes is all blank. */
  lemma {:induction false} DropTrailingShape(ls: seq<string>)
    ensures var r := DropTrailingBlanks(ls);
            r == ls[..|r|] && (r == [] || !IsBlank(r[|r| - 1])) && AllBlank(ls[|r|..])
  {
    if ls != [] && IsBlank(ls[|ls| - 1]) {
      var p := ls[..|ls| - 1];
      DropTrailingShape(p);
      assert ls[|DropTrailingBlanks(ls)|..] == p[|DropTrailingBlanks(p)|..] + [ls[|ls| - 1]];
    }
  }

  function LStripFirst(ls: seq<string>): seq<string> {
    if ls == [] then [] else [LStrip(ls[0])] + ls[1..]
  }

  /** `clean_lines` as written: the `last_blank` loop over the right-stripped lines. */
  method CleanLines(text: string) returns (r: string)
    ensures r == Cleaned(text)
  {
    if text == [] {
      return [];
    }
    var lines := RStripAll(Split(text, '\n'));
    var out: seq<string> := [];
    var lastBlank := false;
    for i := 0 to |lines|
      invariant out == Collapse(lines[..i])
      invariant lastBlank == (i > 0 && IsBlank(lines[i - 1]))
    {
      var ln := lines[i];
      StripEmptyIffBlank(ln);
      var blank := Strip(ln) == [];
      assert lines[..i + 1][..i] == lines[..i];
      if blank && lastBlank {
        continue;
      }
      out := out + [ln];
      lastBlank := blank;
    }
    assert lines[..|lines|] == lines;
    r := Strip(Join(out, "\n"));
  }

  // ----------------------------------------------------------------------
  // Properties of the blank-line collapse

  lemma {:induction false} CollapseLast(ls: seq<string>)
    requires ls != []
    ensures Collapse(ls) != []
    ensures IsBlank(Collapse(ls)[|Collapse(ls)| - 1]) == IsBlank(ls[|ls| - 1])
  {
    var p := ls[..|ls| - 1];
    if Dropped(ls, |ls| - 1) {
      CollapseLast(p);
    }
  }

  /** No two adjacent lines of the result are blank. */
  lemma {:induction false} CollapseNoDoubleBlank(ls: seq<string>)
    ensures NoDoubleBlank(Collapse(ls))
  {
    if ls != [] {
      var p := ls[..|ls| - 1];
      CollapseNoDoubleBlank(p);
      if p != [] {
        CollapseLast(p);
      }
    }
  }

  /** A list with no two adjacent blank lines is left as it is. */
  lemma {:induction false} CollapseFixpoint(ls: seq<string>)
    requires NoDoubleBlank(ls)
    ensures Collapse(ls) == ls
  {
    if ls != [] {
      var p := ls[..|ls| - 1];
      CollapseFixpoint(p);
      assert ls == p + [ls[|ls| - 1]];
    }
  }

  /** Every non-blank line survives, in its original order. */
  lemma {:induction false} CollapseKeepsNonBlanks(ls: seq<string>)
    ensures NonBlanks(Collapse(ls)) == NonBlanks(ls)
  {
    if ls != [] {
      var p := ls[..|ls| - 1];
      var x := ls[|ls| - 1];
      CollapseKeepsNonBlanks(p);
      NonBlanksAppend(Collapse(p), if Dropped(ls, |ls| - 1) then [] else [x]);
      assert NonBlanks([x]) == (if IsBlank(x) then [] else [x]) by {
        assert [x][..0] == [];
      }
    }
  }

  /** Every line of the result is a line of the input. */
  lemma {:induction false} CollapseSubset(ls: seq<string>)
    ensures forall x :: x in Collapse(ls) ==> x in ls
  {
    if ls != [] {
      CollapseSubset(ls[..|ls| - 1]);
    }
  }

  /** A line list cut before a non-blank line collapses as its two halves do. */
  lemma {:induction false} CollapseAppend(a: seq<string>, q: seq<string>)
    requires q == [] || !IsBlank(q[0])
    ensures Collapse(a + q) == Collapse(a) + Collapse(q)
    decreases |q|
  {
    if q == [] {
      assert a + q == a;
    } else {
      var q' := q[..|q| - 1];
      assert (a + q)[..|a + q| - 1] == a + q';
      CollapseAppend(a, q');
      assert (a + q)[|a + q| - 1] == q[|q| - 1];
      if |q| > 1 {
        assert (a + q)[|a + q| - 2] == q[|q| - 2];
      }
    }
  }

  /** Of a run of blank lines after a non-blank line (or at the start), only the first is kept. */
  lemma {:induction false} CollapseBlankRun(p: seq<string>, w: seq<string>)
    requires p == [] || !IsBlank(p[|p| - 1])
    requires w != [] && AllBlank(w)
    ensures Collapse(p + w) == Collapse(p) + [w[0]]
    decreases |w|
  {
    var w' := w[..|w| - 1];
    assert (p + w)[..|p + w| - 1] == p + w';
    assert (p + w)[|p + w| - 1] == w[|w| - 1];
    if |w| == 1 {
      assert p + w' == p;
    } else {
      CollapseBlankRun(p, w');
      assert IsBlank(w[|w| - 2]) && IsBlank(w[|w| - 1]);
      assert (p + w)[|p + w| - 2] == w[|w| - 2];
    }
  }

  /**
   * Paragraphs are preserved: a run of blank lines between two non-blank lines
   * leaves exactly its first blank line, and each side collapses on its own.
   */
  lemma CollapseKeepsRunHead(p: seq<string>, w: seq<string>, q: seq<string>)
    requires w != [] && AllBlank(w)
    requires p == [] || !IsBlank(p[|p| - 1])
    requires q == [] || !IsBlank(q[0])
    ensures Collapse(p + w + q) == Collapse(p) + [w[0]] + Collapse(q)
  {
    CollapseAppend(p + w, q);
    CollapseBlankRun(p, w);
  }

  /** The first line is always kept. */
  lemma {:induction false} CollapseHead(ls: seq<string>)
    requires ls != []
    ensures Collapse(ls) != [] && Collapse(ls)[0] == ls[0]
  {
    if |ls| > 1 {
      CollapseHead(ls[..|ls| - 1]);
    } else {
      assert ls[..0] == [];
    }
  }

  // ----------------------------------------------------------------------
  // Properties of the whole of `clean_lines`

  /** No line contains a newline and every line is right-stripped. */
  predicate LinesOk(ls: seq<string>) {
    forall k :: 0 <= k < |ls| ==> '\n' !in ls[k] && RightTrimmed(ls[k])
  }

  /** The shape of every `clean_lines` result, line by line. */
  predicate CleanForm(t: seq<string>) {
    LinesOk(t) && NoDoubleBlank(t)
    && (t != [] ==> !IsBlank(t[0]) && !IsWs(t[0][0]) && !IsBlank(t[|t| - 1]))
  }

  /** The collapsed lines without the blank lines at either end. */
  function Body(text: string): seq<string> {
    DropLeadingBlanks(DropTrailingBlanks(Collapse(RStripAll(Split(text, '\n')))))
  }

  /** The lines of `clean_lines(text)`: the body lines, the first one also left-stripped by the final `strip()`. */
  function OutputLines(text: string): seq<string> {
    LStripFirst(Body(text))
  }

  lemma RStripJoinBlankLast(p: seq<string>)
    requires p != []
    ensures RStrip(Join(p + [""], "\n")) == RStrip(Join(p, "\n"))
  {
    JoinSnoc(p, "", "\n");
    assert Join(p, "\n") + "\n" + "" == Join(p, "\n") + "\n";
    RStripBlankSuffix(Join(p, "\n"), "\n");
  }

  lemma RStripJoinNonBlankLast(p: seq<string>, x: string)
    requires RightTrimmed(x) && x != []
    ensures RStrip(Join(p + [x], "\n")) == Join(p + [x], "\n")
  {
    if p != [] {
      JoinSnoc(p, x, "\n");
    } else {
      assert p + [x] == [x];
    }
  }

  lemma {:induction false} RStripJoin(c: seq<string>)
    requires LinesOk(c)
    ensures RStrip(Join(c, "\n")) == Join(DropTrailingBlanks(c), "\n")
    decreases |c|
  {
    if c != [] {
      var p, x := c[..|c| - 1], c[|c| - 1];
      assert c == p + [x];
      if IsBlank(x) {
        assert x == [];
        if p != [] {
          RStripJoinBlankLast(p);
          RStripJoin(p);
        }
      } else {
        RStripJoinNonBlankLast(p, x);
      }
    }
  }

  lemma LStripJoinBlankHead(x: string, r: seq<string>)
    requires IsBlank(x) && r != []
    ensures LStrip(Join([x] + r, "\n")) == LStrip(Join(r, "\n"))
  {
    JoinCons(x, r, "\n");
    assert Join([x] + r, "\n") == (x + "\n") + Join(r, "\n");
    LStripBlankPrefix(x + "\n", Join(r, "\n"));
  }

  lemma LStripJoinNonBlankHead(x: string, r: seq<string>)
    requires !IsBlank(x)
    ensures LStrip(Join([x] + r, "\n")) == Join([LStrip(x)] + r, "\n")
  {
    if r != [] {
      JoinCons(x, r, "\n");
      assert Join([x] + r, "\n") == x + ("\n" + Join(r, "\n"));
      LStripAppend(x, "\n" + Join(r, "\n"));
      JoinCons(LStrip(x), r, "\n");
    }
  }

  lemma {:induction false} LStripJoin(d: seq<string>)
    ensures LStrip(Join(d, "\n")) == Join(LStripFirst(DropLeadingBlanks(d)), "\n")
    decreases |d|
  {
    if d != [] {
      var x, r := d[0], d[1..];
      assert d == [x] + r;
      if IsBlank(x) {
        if r == [] {
          BlankLStrip(x);
        } else {
          LStripJoinBlankHead(x, r);
          LStripJoin(r);
        }
      } else {
        LStripJoinNonBlankHead(x, r);
      }
    }
  }

  lemma {:induction false} JoinEnds(t: seq<string>, sep: string)
    requires t != [] && t[0] != [] && t[|t| - 1] != []
    ensures Join(t, sep) != []
    ensures Join(t, sep)[0] == t[0][0]
    ensures Join(t, sep)[|Join(t, sep)| - 1] == t[|t| - 1][|t[|t| - 1]| - 1]
  {
    if |t| > 1 {
      var p := t[..|t| - 1];
      JoinSnoc(p, t[|t| - 1], sep);
      assert t == p + [t[|t| - 1]];
      assert Join(t, sep) == t[0] + sep + Join(t[1..], sep);
    }
  }

  lemma LStripKeepsForm(x: string)
    requires '\n' !in x && RightTrimmed(x) && !IsBlank(x)
    ensures '\n' !in LStrip(x) && RightTrimmed(LStrip(x)) && !IsBlank(LStrip(x))
    ensures !IsWs(LStrip(x)[0])
  {
    var y := LStrip(x);
    var i :| 0 <= i < |x| && !IsWs(x[i]);
    LStripRemovesBlank(x);
    LStripSuffix(x);
    assert y[|y| - 1] == x[|x| - 1];
    assert y[0] == x[|x| - |y|];
    assert forall j :: 0 <= j < |y| ==> y[j] == x[|x| - |y| + j];
  }

  lemma RStripAllLinesOk(ls: seq<string>)
    requires forall k :: 0 <= k < |ls| ==> '\n' !in ls[k]
    ensures LinesOk(RStripAll(ls))
  {
    var r := RStripAll(ls);
    RStripAllAt(ls);
    forall k | 0 <= k < |r|
      ensures '\n' !in r[k] && RightTrimmed(r[k])
    {
      RStripPrefix(ls[k]);
    }
  }

  lemma CollapseLinesOk(r: seq<string>)
    requires LinesOk(r)
    ensures LinesOk(Collapse(r)) && NoDoubleBlank(Collapse(r))
  {
    var c := Collapse(r);
    CollapseSubset(r);
    CollapseNoDoubleBlank(r);
    forall k | 0 <= k < |c|
      ensures '\n' !in c[k] && RightTrimmed(c[k])
    {
      assert c[k] in r;
    }
  }

  /** The collapsed lines of any text: no newline inside, right-stripped, no two adjacent blanks. */
  lemma CollapsedLinesOk(text: string)
    ensures var c := Collapse(RStripAll(Split(text, '\n')));
            LinesOk(c) && NoDoubleBlank(c)
  {
    RStripAllLinesOk(Split(text, '\n'));
    CollapseLinesOk(RStripAll(Split(text, '\n')));
  }

  /** Cutting blank lines off both ends keeps the line shape and leaves non-blank ends. */
  lemma TrimEndsOk(c: seq<string>)
    requires LinesOk(c) && NoDoubleBlank(c)
    ensures var d := DropLeadingBlanks(DropTrailingBlanks(c));
            LinesOk(d) && NoDoubleBlank(d) && (d != [] ==> !IsBlank(d[0]) && !IsBlank(d[|d| - 1]))
  {
    var d1 := DropTrailingBlanks(c);
    var d := DropLeadingBlanks(d1);
    DropTrailingShape(c);
    DropLeadingShape(d1);
    var off := |d1| - |d|;
    assert forall k :: 0 <= k < |d| ==> d[k] == c[off + k];
    if d != [] {
      assert d[|d| - 1] == d1[|d1| - 1];
    }
  }

  lemma LStripFirstOk(d: seq<string>)
    requires LinesOk(d) && NoDoubleBlank(d) && (d != [] ==> !IsBlank(d[0]) && !IsBlank(d[|d| - 1]))
    ensures CleanForm(LStripFirst(d))
  {
    if d != [] {
      var t := LStripFirst(d);
      LStripKeepsForm(d[0]);
      assert forall k :: 0 < k < |t| ==> t[k] == d[k];
      assert LinesOk(t) by {
        forall k | 0 <= k < |t|
          ensures '\n' !in t[k] && RightTrimmed(t[k])
        {
          if k > 0 {
            assert t[k] == d[k];
          }
        }
      }
      assert NoDoubleBlank(t) by {
        forall i, j | 0 <= i && j == i + 1 < |t|
          ensures !(IsBlank(t[i]) && IsBlank(t[j]))
        {
          assert t[j] == d[j];
          if i > 0 {
            assert t[i] == d[i];
          }
        }
      }
      assert t[|t| - 1] == d[|d| - 1] || |t| == 1;
    }
  }

  lemma CleanedAsJoin(text: string)
    ensures Cleaned(text) == Join(OutputLines(text), "\n")
  {
    var c := Collapse(RStripAll(Split(text, '\n')));
    CollapsedLinesOk(text);
    RStripJoin(c);
    LStripJoin(DropTrailingBlanks(c));
  }

  /** `clean_lines(text)` is `"\n".join` of its output lines, which have the clean shape. */
  lemma CleanedIsJoinOfLines(text: string)
    ensures Cleaned(text) == Join(OutputLines(text), "\n")
    ensures CleanForm(OutputLines(text))
  {
    CleanedAsJoin(text);
    var c := Collapse(RStripAll(Split(text, '\n')));
    CollapsedLinesOk(text);
    TrimEndsOk(c);
    LStripFirstOk(Body(text));
  }

  lemma RStripAllFixed(t: seq<string>)
    requires LinesOk(t)
    ensures RStripAll(t) == t
  {
  }

  /** A text already in clean form is left unchanged by `clean_lines`. */
  lemma CleanFormFixed(t: seq<string>)
    requires CleanForm(t)
    ensures Cleaned(Join(t, "\n")) == Join(t, "\n")
  {
    if t != [] {
      SplitJoin(t, '\n');
      RStripAllFixed(t);
      CollapseFixpoint(t);
      assert t[0] != [] && t[|t| - 1] != [];
      JoinEnds(t, "\n");
      TrimmedStrip(Join(t, "\n"));
    } else {
      CleanedEmpty();
    }
  }

  // ----------------------------------------------------------------------
  // The promised properties of `clean_lines`

  /** Empty input gives the empty string. */
  lemma CleanedEmpty()
    ensures Cleaned("") == ""
  {
    assert Split("", '\n') == [""];
    assert RStripAll([""]) == [""];
    assert Collapse([""]) == [""] by {
      assert [""][..0] == [];
    }
  }

  /** Cleaning twice is cleaning once, so the second call on a column text changes nothing. */
  lemma CleanedIdempotent(text: string)
    ensures Cleaned(Cleaned(text)) == Cleaned(text)
  {
    CleanedIsJoinOfLines(text);
    CleanFormFixed(OutputLines(text));
  }

  /** The result has no leading or trailing white space and no two adjacent blank lines. */
  lemma CleanedShape(text: string)
    ensures Trimmed(Cleaned(text))
    ensures NoDoubleBlank(Split(Cleaned(text), '\n'))
  {
    StripIsTrimmed(Join(Collapse(RStripAll(Split(text, '\n'))), "\n"));
    CleanedIsJoinOfLines(text);
    var t := OutputLines(text);
    if t != [] {
      SplitJoin(t, '\n');
    } else {
      assert Split("", '\n') == [""];
    }
  }

  lemma RStripBlank(x: string)
    ensures IsBlank(RStrip(x)) <==> IsBlank(x)
  {
    var r := RStrip(x);
    if IsBlank(r) {
      RStripRemovesBlank(x);
      assert r == [];
      assert x[|r|..] == x;
    }
    if IsBlank(x) {
      BlankRStrip(x);
    }
  }

  lemma {:induction false} RStripAllSnoc(p: seq<string>, x: string)
    ensures RStripAll(p + [x]) == RStripAll(p) + [RStrip(x)]
  {
    if p == [] {
      assert p + [x] == [x];
    } else {
      assert (p + [x])[1..] == p[1..] + [x];
      RStripAllSnoc(p[1..], x);
    }
  }

  lemma {:induction false} NonBlanksRStripAll(ls: seq<string>)
    ensures NonBlanks(RStripAll(ls)) == RStripAll(NonBlanks(ls))
  {
    if ls != [] {
      var p, x := ls[..|ls| - 1], ls[|ls| - 1];
      NonBlanksRStripAll(p);
      assert ls == p + [x];
      RStripAllSnoc(p, x);
      RStripBlank(x);
      var q := RStripAll(p) + [RStrip(x)];
      assert q[..|q| - 1] == RStripAll(p);
      assert NonBlanks(q) == NonBlanks(RStripAll(p)) + (if IsBlank(x) then [] else [RStrip(x)]);
      assert NonBlanks(ls) == NonBlanks(p) + (if IsBlank(x) then [] else [x]);
      if !IsBlank(x) {
        RStripAllSnoc(NonBlanks(p), x);
      } else {
        assert NonBlanks(ls) == NonBlanks(p);
        assert NonBlanks(RStripAll(ls)) == NonBlanks(RStripAll(p));
      }
    }
  }

  lemma NonBlanksDropTrailing(c: seq<string>)
    ensures NonBlanks(DropTrailingBlanks(c)) == NonBlanks(c)
  {
    var d := DropTrailingBlanks(c);
    DropTrailingShape(c);
    assert c == d + c[|d|..];
    NonBlanksAppend(d, c[|d|..]);
    NonBlanksOfBlanks(c[|d|..]);
  }

  lemma NonBlanksDropLeading(c: seq<string>)
    ensures NonBlanks(DropLeadingBlanks(c)) == NonBlanks(c)
  {
    var d := DropLeadingBlanks(c);
    DropLeadingShape(c);
    assert c == c[..|c| - |d|] + d;
    NonBlanksAppend(c[..|c| - |d|], d);
    NonBlanksOfBlanks(c[..|c| - |d|]);
  }

  lemma {:induction false} NonBlanksFront(x: string, r: seq<string>)
    requires !IsBlank(x)
    ensures NonBlanks([x] + r) == [x] + NonBlanks(r)
  {
    NonBlanksAppend([x], r);
    assert [x][..0] == [];
  }

  /** The non-blank lines of the body are the input's non-blank lines, right-stripped. */
  lemma BodyNonBlanks(text: string)
    ensures NonBlanks(Body(text)) == RStripAll(NonBlanks(Split(text, '\n')))
  {
    var r := RStripAll(Split(text, '\n'));
    NonBlanksDropTrailing(Collapse(r));
    NonBlanksDropLeading(DropTrailingBlanks(Collapse(r)));
    CollapseKeepsNonBlanks(r);
    NonBlanksRStripAll(Split(text, '\n'));
  }

  lemma NonBlanksLStripFirst(d: seq<string>)
    requires d != [] && '\n' !in d[0] && RightTrimmed(d[0]) && !IsBlank(d[0])
    ensures NonBlanks(LStripFirst(d)) == LStripFirst(NonBlanks(d))
  {
    LStripKeepsForm(d[0]);
    NonBlanksFront(d[0], d[1..]);
    NonBlanksFront(LStrip(d[0]), d[1..]);
    assert d == [d[0]] + d[1..];
  }

  /** The non-blank output lines are the non-blank input lines, right-stripped, the first one also left-stripped. */
  lemma OutputNonBlanks(text: string)
    ensures NonBlanks(OutputLines(text)) == LStripFirst(RStripAll(NonBlanks(Split(text, '\n'))))
  {
    BodyNonBlanks(text);
    var d := Body(text);
    if d != [] {
      var c := Collapse(RStripAll(Split(text, '\n')));
      CollapsedLinesOk(text);
      TrimEndsOk(c);
      NonBlanksLStripFirst(d);
    }
  }

  /**
   * Every non-blank input line survives right-stripped and in its original
   * order, and nothing else is non-blank; the first one also loses its
   * leading white space to the final `strip()`.
   */
  lemma CleanedKeepsNonBlankLines(text: string)
    ensures NonBlanks(Split(Cleaned(text), '\n'))
         == LStripFirst(RStripAll(NonBlanks(Split(text, '\n'))))
  {
    CleanedIsJoinOfLines(text);
    OutputNonBlanks(text);
    NonBlanksSplitJoin(OutputLines(text));
  }

  lemma NonBlanksSplitJoin(t: seq<string>)
    requires LinesOk(t)
    ensures NonBlanks(Split(Join(t, "\n"), '\n')) == NonBlanks(t)
  {
    if t == [] {
      assert Split("", '\n') == [""];
      assert NonBlanks([""]) == [] by { assert [""][..0] == []; }
    } else {
      SplitJoin(t, '\n');
    }
  }

  // ----------------------------------------------------------------------
  // Paragraph breaks survive `clean_lines`

  lemma {:induction false} RStripAllAppend(a: seq<string>, b: seq<string>)
    ensures RStripAll(a + b) == RStripAll(a) + RStripAll(b)
  {
    if a != [] {
      assert (a + b)[1..] == a[1..] + b;
      RStripAllAppend(a[1..], b);
    } else {
      assert a + b == b;
    }
  }

  /** Trailing blank lines are cut only from a tail that starts non-blank. */
  lemma {:induction false} DropTrailingAppend(a: seq<string>, b: seq<string>)
    requires b != [] && !IsBlank(b[0])
    ensures DropTrailingBlanks(a + b) == a + DropTrailingBlanks(b)
    decreases |b|
  {
    assert (a + b)[|a + b| - 1] == b[|b| - 1];
    if IsBlank(b[|b| - 1]) {
      var b' := b[..|b| - 1];
      assert (a + b)[..|a + b| - 1] == a + b';
      DropTrailingAppend(a, b');
    }
  }

  /** Leading blank lines are cut only from a head that ends non-blank. */
  lemma {:induction false} DropLeadingAppend(a: seq<string>, m: seq<string>, b: seq<string>)
    requires a != [] && !IsBlank(a[|a| - 1])
    ensures DropLeadingBlanks(a + m + b) == DropLeadingBlanks(a) + m + b
    decreases |a|
  {
    assert (a + m + b)[0] == a[0];
    if IsBlank(a[0]) {
      assert (a + m + b)[1..] == a[1..] + m + b;
      DropLeadingAppend(a[1..], m, b);
    }
  }

  /** Cutting leading blank lines from a list that ends non-blank leaves that last line. */
  lemma {:induction false} DropLeadingKeepsLast(c: seq<string>)
    requires c != [] && !IsBlank(c[|c| - 1])
    ensures DropLeadingBlanks(c) != []
  {
    if IsBlank(c[0]) {
      DropLeadingKeepsLast(c[1..]);
    }
  }

  /** What is left after cutting trailing blank lines from a list that starts non-blank begins with that line. */
  lemma {:induction false} DropTrailingHead(c: seq<string>)
    requires c != [] && !IsBlank(c[0])
    ensures DropTrailingBlanks(c) != [] && DropTrailingBlanks(c)[0] == c[0]
  {
    if IsBlank(c[|c| - 1]) {
      DropTrailingHead(c[..|c| - 1]);
    }
  }

  /** The collapsed, right-stripped lines of `p + w + q`, with the blank run `w` reduced to one empty line. */
  lemma CollapsedRun(p: seq<string>, w: seq<string>, q: seq<string>)
    requires p != [] && !IsBlank(p[|p| - 1])
    requires w != [] && AllBlank(w)
    requires q != [] && !IsBlank(q[0])
    ensures Collapse(RStripAll(p + w + q)) == Collapse(RStripAll(p)) + [""] + Collapse(RStripAll(q))
    ensures RStripAll(q)[0] == RStrip(q[0]) && !IsBlank(RStrip(q[0]))
    ensures !IsBlank(RStripAll(p)[|p| - 1])
  {
    var pp, ww, qq := RStripAll(p), RStripAll(w), RStripAll(q);
    RStripAllAppend(p + w, q);
    RStripAllAppend(p, w);
    RStripAllAt(p);
    RStripAllAt(w);
    RStripAllAt(q);
    RStripBlank(p[|p| - 1]);
    RStripBlank(q[0]);
    forall k | 0 <= k < |ww|
      ensures IsBlank(ww[k])
    {
      assert IsBlank(w[k]);
      RStripBlank(w[k]);
    }
    BlankRStrip(w[0]);
    CollapseKeepsRunHead(pp, ww, qq);
  }

  lemma SplitJoinRun(p: seq<string>, w: seq<string>, q: seq<string>)
    requires forall k :: 0 <= k < |p| ==> '\n' !in p[k]
    requires forall k :: 0 <= k < |w| ==> '\n' !in w[k]
    requires forall k :: 0 <= k < |q| ==> '\n' !in q[k]
    requires p != []
    ensures Split(Join(p + w + q, "\n"), '\n') == p + w + q
    ensures Split(Join(p, "\n"), '\n') == p
  {
    var ls := p + w + q;
    forall k | 0 <= k < |ls|
      ensures '\n' !in ls[k]
    {
      if k < |p| {
        assert ls[k] == p[k];
      } else if k < |p| + |w| {
        assert ls[k] == w[k - |p|];
      } else {
        assert ls[k] == q[k - |p| - |w|];
      }
    }
    SplitJoin(ls, '\n');
    SplitJoin(p, '\n');
  }

  /** The body lines of `p + w + q`: those of `p`, one empty line, then those of `q` without its trailing blanks. */
  lemma BodyRun(cp: seq<string>, cq: seq<string>)
    requires cp != [] && !IsBlank(cp[|cp| - 1])
    requires cq != [] && !IsBlank(cq[0])
    ensures var tail := DropTrailingBlanks(cq);
            && DropLeadingBlanks(DropTrailingBlanks(cp + [""] + cq)) == DropLeadingBlanks(DropTrailingBlanks(cp)) + [""] + tail
            && DropLeadingBlanks(DropTrailingBlanks(cp)) != []
            && tail != [] && tail[0] == cq[0]
  {
    var tail := DropTrailingBlanks(cq);
    DropTrailingHead(cq);
    DropTrailingAppend(cp + [""], cq);
    assert DropTrailingBlanks(cp) == cp;
    DropLeadingAppend(cp, [""], tail);
    DropLeadingKeepsLast(cp);
  }

  lemma LStripFirstRun(d: seq<string>, t: seq<string>)
    requires d != []
    ensures LStripFirst(d + [""] + t) == LStripFirst(d) + [""] + t
  {
    assert (d + [""] + t)[0] == d[0];
    assert (d + [""] + t)[1..] == d[1..] + [""] + t;
  }

  /** The output lines of `p + w + q`: those of `p`, one empty line, then the body lines of `q`. */
  lemma OutputRun(p: seq<string>, w: seq<string>, q: seq<string>)
    requires forall k :: 0 <= k < |p| ==> '\n' !in p[k]
    requires forall k :: 0 <= k < |w| ==> '\n' !in w[k]
    requires forall k :: 0 <= k < |q| ==> '\n' !in q[k]
    requires p != [] && !IsBlank(p[|p| - 1])
    requires w != [] && AllBlank(w)
    requires q != [] && !IsBlank(q[0])
    ensures var tail := DropTrailingBlanks(Collapse(RStripAll(q)));
            && OutputLines(Join(p + w + q, "\n")) == OutputLines(Join(p, "\n")) + [""] + tail
            && tail != [] && tail[0] == RStrip(q[0]) && !IsBlank(tail[0])
  {
    SplitJoinRun(p, w, q);
    CollapsedRun(p, w, q);
    var cp := Collapse(RStripAll(p));
    var cq := Collapse(RStripAll(q));
    CollapseHead(RStripAll(q));
    CollapseLast(RStripAll(p));
    BodyRun(cp, cq);
    var d := DropLeadingBlanks(DropTrailingBlanks(cp));
    var tail := DropTrailingBlanks(cq);
    assert Body(Join(p + w + q, "\n")) == d + [""] + tail;
    assert Body(Join(p, "\n")) == d;
    LStripFirstRun(d, tail);
  }

  /**
   * Paragraphs are preserved: when a run of blank lines stands between a
   * non-blank line and the next one, the output lines are those of the text
   * before the run, one empty line, and the lines after it (right-stripped,
   * collapsed, trailing blanks cut), which start with the next non-blank line.
   */
  lemma CleanedKeepsParagraphBreak(p: seq<string>, w: seq<string>, q: seq<string>)
    requires forall k :: 0 <= k < |p| ==> '\n' !in p[k]
    requires forall k :: 0 <= k < |w| ==> '\n' !in w[k]
    requires forall k :: 0 <= k < |q| ==> '\n' !in q[k]
    requires p != [] && !IsBlank(p[|p| - 1])
    requires w != [] && AllBlank(w)
    requires q != [] && !IsBlank(q[0])
    ensures var head := OutputLines(Join(p, "\n"));
            var tail := DropTrailingBlanks(Collapse(RStripAll(q)));
            && Split(Cleaned(Join(p + w + q, "\n")), '\n') == head + [""] + tail
            && head != [] && !IsBlank(head[|head| - 1])
            && tail != [] && tail[0] == RStrip(q[0]) && !IsBlank(tail[0])
  {
    var text := Join(p + w + q, "\n");
    OutputRun(p, w, q);
    CleanedIsJoinOfLines(text);
    SplitJoin(OutputLines(text), '\n');
    CleanedIsJoinOfLines(Join(p, "\n"));
  }
}
