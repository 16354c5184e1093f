/**
 * `_group_chars_into_lines`: glyphs sorted by `(top, x0)` are cut into lines.
 * The first glyph of a line is its anchor; a glyph whose `top` is more than
 * `tol` away from the anchor starts the next line. Each finished line is
 * re-sorted by `x0`.
 */
module LineGrouping {
  import opened Wrappers
  import opened Sorting
  import opened Glyphs

  function Abs(x: real): real {
    if x < 0.0 then -x else x
  }

  /** The lines one after the other. */
  function Flatten(ls: seq<seq<Glyph>>): seq<Glyph>
  {
    if ls == [] then [] else Flatten(ls[..|ls| - 1]) + ls[|ls| - 1]
  }

  // ----------------------------------------------------------------------
  // The loop, as a fold over the sorted glyphs

  /**
   * The loop's state: the finished lines (before their re-sort by `x0`),
   * `current_line` and `current_top`.
   */
  datatype Scan = Scan(lines: seq<seq<Glyph>>, current: seq<Glyph>, anchor: Option<real>)

  /** One iteration of the loop for glyph `g`. */
  function Step(st: Scan, g: Glyph, tol: real): Scan {
    if st.current != [] && st.anchor.Some? then
      if Abs(g.top - st.anchor.value) > tol then Scan(st.lines + [st.current], [g], Some(g.top))
      else Scan(st.lines, st.current + [g], st.anchor)
    else Scan(st.lines, [g], Some(g.top))
  }

  /** The state after the loop has seen all of `gs`. */
  function RunScan(gs: seq<Glyph>, tol: real): Scan
  {
    if gs == [] then Scan([], [], None) else Step(RunScan(gs[..|gs| - 1], tol), gs[|gs| - 1], tol)
  }

  /** The lines of `gs` in the order of `gs`, the last one included. */
  function RawLines(gs: seq<Glyph>, tol: real): seq<seq<Glyph>>
  {
    var st := RunScan(gs, tol);
    if st.current != [] then st.lines + [st.current] else st.lines
  }

  /** `sorted(line, key=x0)` for each line. */
  function SortEach(ls: seq<seq<Glyph>>): (r: seq<seq<Glyph>>)
    ensures |r| == |ls|
  {
    if ls == [] then [] else SortEach(ls[..|ls| - 1]) + [SortBy(ls[|ls| - 1], ByX0Key())]
  }

  /** `_group_chars_into_lines(chars, tol)`. */
  function GroupLines(chars: seq<Glyph>, tol: real): seq<seq<Glyph>>
  {
    SortEach(RawLines(SortBy(chars, ByTopX0()), tol))
  }

  /** The loop as written, appending to `lines` and updating `current_line` and `current_top`. */
  method GroupCharsIntoLines(chars: seq<Glyph>, lineTol: real) returns (lines: seq<seq<Glyph>>)
    ensures lines == GroupLines(chars, lineTol)
  {
    if chars == [] {
      return [];
    }
    var sorted := SortBy(chars, ByTopX0());
    lines := [];
    var current: seq<Glyph> := [];
    var currentTop: Option<real> := None;
    for i := 0 to |sorted|
      invariant RunScan(sorted[..i], lineTol).current == current
      invariant RunScan(sorted[..i], lineTol).anchor == currentTop
      invariant lines == SortEach(RunScan(sorted[..i], lineTol).lines)
    {
      assert sorted[..i + 1][..i] == sorted[..i];
      var ch := sorted[i];
      if current != [] && currentTop.Some? {
        if Abs(ch.top - currentTop.value) > lineTol {
          lines := lines + [SortBy(current, ByX0Key())];
          current := [ch];
          currentTop := Some(ch.top);
        } else {
          current := current + [ch];
        }
      } else {
        current := [ch];
        currentTop := Some(ch.top);
      }
    }
    assert sorted[..|sorted|] == sorted;
    if current != [] {
      lines := lines + [SortBy(current, ByX0Key())];
    }
  }

  // ----------------------------------------------------------------------
  // What a grouping is

  /** No line is empty. */
  predicate NonEmptyLines(ls: seq<seq<Glyph>>) {
    forall i :: 0 <= i < |ls| ==> ls[i] != []
  }

  /** Every later glyph of a line is within `tol` of the line's first glyph. */
  predicate LinesNear(ls: seq<seq<Glyph>>, tol: real) {
    forall i, k :: 0 <= i < |ls| && 0 < k < |ls[i]| ==> Abs(ls[i][k].top - ls[i][0].top) <= tol
  }

  /** The first glyph of each line is more than `tol` away from the first glyph of the line before. */
  predicate AnchorsFar(ls: seq<seq<Glyph>>, tol: real) {
    forall i, j :: 0 <= i && j == i + 1 < |ls| && ls[i] != [] && ls[j] != [] ==> Abs(ls[j][0].top - ls[i][0].top) > tol
  }

  /** `ls` cuts `gs` into consecutive non-empty lines that are near inside and far apart. */
  predicate IsGrouping(gs: seq<Glyph>, ls: seq<seq<Glyph>>, tol: real) {
    Flatten(ls) == gs && NonEmptyLines(ls) && LinesNear(ls, tol) && AnchorsFar(ls, tol)
  }

  /** A glyph far from the last anchor opens a new line. */
  lemma GroupingNewLine(gs: seq<Glyph>, ls: seq<seq<Glyph>>, g: Glyph, tol: real)
    requires IsGrouping(gs, ls, tol) && ls != []
    requires Abs(g.top - ls[|ls| - 1][0].top) > tol
    ensures IsGrouping(gs + [g], ls + [[g]], tol)
  {
    var ls' := ls + [[g]];
    assert ls'[..|ls'| - 1] == ls;
    forall i, k | 0 <= i < |ls'| && 0 < k < |ls'[i]|
      ensures Abs(ls'[i][k].top - ls'[i][0].top) <= tol
    {
      if i < |ls| {
        assert ls'[i] == ls[i];
      }
    }
  }

  lemma ExtendNear(ls: seq<seq<Glyph>>, g: Glyph, tol: real)
    requires LinesNear(ls, tol) && NonEmptyLines(ls) && ls != []
    requires Abs(g.top - ls[|ls| - 1][0].top) <= tol
    ensures LinesNear(ls[..|ls| - 1] + [ls[|ls| - 1] + [g]], tol)
  {
    var n := |ls|;
    var last := ls[n - 1];
    var ls': seq<seq<Glyph>> := ls[..n - 1] + [last + [g]];
    forall i: int, k: int | 0 <= i < n && 0 < k < |ls'[i]|
      ensures Abs(ls'[i][k].top - ls'[i][0].top) <= tol
    {
      if i == n - 1 && k == |last| {
        assert ls'[i][k] == g;
      } else {
        assert ls'[i][k] == ls[i][k];
      }
    }
  }

  lemma ExtendFar(ls: seq<seq<Glyph>>, g: Glyph, tol: real)
    requires AnchorsFar(ls, tol) && NonEmptyLines(ls) && ls != []
    ensures AnchorsFar(ls[..|ls| - 1] + [ls[|ls| - 1] + [g]], tol)
    ensures NonEmptyLines(ls[..|ls| - 1] + [ls[|ls| - 1] + [g]])
  {
    var n := |ls|;
    var ls' := ls[..n - 1] + [ls[n - 1] + [g]];
    forall i | 0 <= i < n
      ensures ls'[i] != [] && ls'[i][0] == ls[i][0]
    {
    }
  }

  /** A glyph near the last anchor joins the last line. */
  lemma GroupingExtend(gs: seq<Glyph>, ls: seq<seq<Glyph>>, g: Glyph, tol: real)
    requires IsGrouping(gs, ls, tol) && ls != []
    requires Abs(g.top - ls[|ls| - 1][0].top) <= tol
    ensures IsGrouping(gs + [g], ls[..|ls| - 1] + [ls[|ls| - 1] + [g]], tol)
  {
    var n := |ls|;
    var p := ls[..n - 1];
    var ls' := p + [ls[n - 1] + [g]];
    assert ls'[..n - 1] == p;
    assert Flatten(ls') == Flatten(p) + (ls[n - 1] + [g]);
    ExtendNear(ls, g, tol);
    ExtendFar(ls, g, tol);
  }

  /** The loop's state after `gs`: the finished lines and the open line, anchored at its first glyph, group `gs`. */
  predicate ScanOk(gs: seq<Glyph>, st: Scan, tol: real) {
    (st.current == [] <==> gs == [])
    && (st.current != [] ==> st.anchor == Some(st.current[0].top) && IsGrouping(gs, st.lines + [st.current], tol))
    && (st.current == [] ==> st.lines == [])
  }

  /** A single glyph is a single line. */
  lemma SingleLine(g: Glyph, tol: real)
    ensures IsGrouping([g], [[g]], tol)
  {
    var ls := [[g]];
    assert ls[..0] == [];
    assert Flatten(ls) == Flatten(ls[..0]) + ls[0] == [g];
  }

  /** One iteration keeps `ScanOk`. */
  lemma StepOk(gs: seq<Glyph>, st: Scan, g: Glyph, tol: real)
    requires ScanOk(gs, st, tol)
    ensures ScanOk(gs + [g], Step(st, g, tol), tol)
  {
    if st.current == [] {
      SingleLine(g, tol);
      assert gs + [g] == [g];
    } else {
      var ls := st.lines + [st.current];
      if Abs(g.top - st.anchor.value) > tol {
        GroupingNewLine(gs, ls, g, tol);
      } else {
        GroupingExtend(gs, ls, g, tol);
        assert ls[..|ls| - 1] == st.lines;
      }
    }
  }

  /** The loop's state always describes a grouping of the glyphs seen so far, with the open line last. */
  lemma {:induction false} RunScanGrouping(gs: seq<Glyph>, tol: real)
    ensures ScanOk(gs, RunScan(gs, tol), tol)
  {
    if gs != [] {
      var p := gs[..|gs| - 1];
      RunScanGrouping(p, tol);
      StepOk(p, RunScan(p, tol), gs[|gs| - 1], tol);
      assert gs == p + [gs[|gs| - 1]];
    }
  }

  /** The loop's lines are a grouping of the sorted glyphs. */
  lemma RawLinesGrouping(gs: seq<Glyph>, tol: real)
    ensures IsGrouping(gs, RawLines(gs, tol), tol)
  {
    RunScanGrouping(gs, tol);
  }

  /** The first line comes first in the glyphs. */
  lemma {:induction false} FlattenFront(ls: seq<seq<Glyph>>)
    requires ls != []
    ensures Flatten(ls) == ls[0] + Flatten(ls[1..])
  {
    if |ls| > 1 {
      var p := ls[..|ls| - 1];
      FlattenFront(p);
      assert p[1..] == ls[1..][..|ls[1..]| - 1];
    } else {
      assert ls[..0] == [] && ls[1..] == [];
    }
  }

  /** Dropping the first line leaves a grouping of the remaining glyphs. */
  lemma GroupingRest(gs: seq<Glyph>, ls: seq<seq<Glyph>>, tol: real)
    requires IsGrouping(gs, ls, tol) && ls != []
    ensures |ls[0]| <= |gs| && gs[..|ls[0]|] == ls[0]
    ensures IsGrouping(gs[|ls[0]|..], ls[1..], tol)
  {
    FlattenFront(ls);
    var r: seq<seq<Glyph>> := ls[1..];
    forall i: int, k: int | 0 <= i < |r| && 0 < k < |r[i]|
      ensures Abs(r[i][k].top - r[i][0].top) <= tol
    {
      assert r[i] == ls[i + 1];
    }
    forall i: int, j: int | 0 <= i && j == i + 1 < |r| && r[i] != [] && r[j] != []
      ensures Abs(r[j][0].top - r[i][0].top) > tol
    {
      assert r[i] == ls[i + 1] && r[j] == ls[j + 1];
    }
  }

  /** The second line starts right after the first. */
  lemma CutStartsNext(gs: seq<Glyph>, ls: seq<seq<Glyph>>, tol: real)
    requires IsGrouping(gs, ls, tol) && |ls| > 1
    ensures |ls[0]| < |gs| && ls[1][0] == gs[|ls[0]|]
    ensures Abs(gs[|ls[0]|].top - ls[0][0].top) > tol
  {
    GroupingRest(gs, ls, tol);
    var r: seq<seq<Glyph>> := ls[1..];
    FlattenFront(r);
    assert gs[|ls[0]|..][0] == r[0][0];
  }

  /** The first line runs up to the first glyph too far from `gs[0]`, or to the end. */
  lemma FirstLineExtent(gs: seq<Glyph>, ls: seq<seq<Glyph>>, tol: real)
    requires IsGrouping(gs, ls, tol) && ls != []
    ensures 0 < |ls[0]| <= |gs|
    ensures forall k :: 0 < k < |ls[0]| ==> Abs(gs[k].top - gs[0].top) <= tol
    ensures |ls[0]| < |gs| ==> Abs(gs[|ls[0]|].top - gs[0].top) > tol
  {
    GroupingRest(gs, ls, tol);
    var a := ls[0];
    forall k | 0 < k < |a|
      ensures Abs(gs[k].top - gs[0].top) <= tol
    {
      assert gs[k] == a[k] && gs[0] == a[0];
    }
    if |ls| > 1 {
      CutStartsNext(gs, ls, tol);
    } else {
      assert ls[1..] == [];
    }
  }

  /** The glyphs determine their grouping: there is exactly one. */
  lemma {:induction false} GroupingUnique(gs: seq<Glyph>, ls1: seq<seq<Glyph>>, ls2: seq<seq<Glyph>>, tol: real)
    requires IsGrouping(gs, ls1, tol) && IsGrouping(gs, ls2, tol)
    ensures ls1 == ls2
    decreases |gs|
  {
    if ls1 != [] && ls2 != [] {
      GroupingRest(gs, ls1, tol);
      GroupingRest(gs, ls2, tol);
      FirstLineExtent(gs, ls1, tol);
      FirstLineExtent(gs, ls2, tol);
      var a, b := ls1[0], ls2[0];
      assert |a| == |b|;
      assert a == b;
      GroupingUnique(gs[|a|..], ls1[1..], ls2[1..], tol);
      assert ls1 == [a] + ls1[1..] && ls2 == [b] + ls2[1..];
    } else if ls1 != [] {
      GroupingRest(gs, ls1, tol);
    } else if ls2 != [] {
      GroupingRest(gs, ls2, tol);
    }
  }

  // ----------------------------------------------------------------------
  // The result of `_group_chars_into_lines`

  /** No glyphs, no lines. */
  lemma GroupLinesEmpty(tol: real)
    ensures GroupLines([], tol) == []
  {
  }

  lemma {:induction false} SortEachAt(ls: seq<seq<Glyph>>, i: int)
    requires 0 <= i < |ls|
    ensures SortEach(ls)[i] == SortBy(ls[i], ByX0Key())
  {
    if i < |ls| - 1 {
      SortEachAt(ls[..|ls| - 1], i);
    }
  }

  /** Re-sorting each line keeps the glyphs. */
  lemma {:induction false} SortEachMultiset(ls: seq<seq<Glyph>>)
    ensures multiset(Flatten(SortEach(ls))) == multiset(Flatten(ls))
  {
    if ls != [] {
      var p := ls[..|ls| - 1];
      SortEachMultiset(p);
      var r := SortEach(ls);
      assert r[..|r| - 1] == SortEach(p);
      ByX0KeyTotalPreorder();
      SortByCorrect(ls[|ls| - 1], ByX0Key());
    }
  }

  /**
   * The lines are the one grouping of the glyphs in `(top, x0)` order, each
   * re-sorted by `x0`: no line is empty, each is ordered by `x0` and holds the
   * glyphs of its group, and together they hold every input glyph once.
   */
  lemma GroupLinesCorrect(chars: seq<Glyph>, tol: real)
    ensures var raw := RawLines(SortBy(chars, ByTopX0()), tol);
            var r := GroupLines(chars, tol);
            IsGrouping(SortBy(chars, ByTopX0()), raw, tol)
            && |r| == |raw|
            && (forall i :: 0 <= i < |r| ==> r[i] != [] && SortedBy(r[i], ByX0Key()) && multiset(r[i]) == multiset(raw[i]))
            && multiset(Flatten(r)) == multiset(chars)
  {
    var sorted := SortBy(chars, ByTopX0());
    var raw := RawLines(sorted, tol);
    var r := GroupLines(chars, tol);
    RawLinesGrouping(sorted, tol);
    ByX0KeyTotalPreorder();
    forall i | 0 <= i < |r|
      ensures r[i] != [] && SortedBy(r[i], ByX0Key()) && multiset(r[i]) == multiset(raw[i])
    {
      SortEachAt(raw, i);
      SortByCorrect(raw[i], ByX0Key());
      assert raw[i] != [];
      assert |r[i]| == |raw[i]|;
    }
    SortEachMultiset(raw);
    ByTopX0TotalPreorder();
    SortByCorrect(chars, ByTopX0());
  }

  /** Any grouping of the sorted glyphs, re-sorted line by line, is what `_group_chars_into_lines` returns. */
  lemma GroupLinesUnique(chars: seq<Glyph>, tol: real, ls: seq<seq<Glyph>>)
    requires IsGrouping(SortBy(chars, ByTopX0()), ls, tol)
    ensures GroupLines(chars, tol) == SortEach(ls)
  {
    var sorted := SortBy(chars, ByTopX0());
    RawLinesGrouping(sorted, tol);
    GroupingUnique(sorted, ls, RawLines(sorted, tol), tol);
  }
}
