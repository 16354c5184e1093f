/**
 * `extract_text_with_bold` and `extract_page_columns`: the text of one page,
 * column box by column box. pdfplumber's `page.crop(bbox).chars` is the
 * page's `chars` function, which this model does not look inside.
 */
module PageColumns {
  import opened Wrappers
  import opened Strings
  import opened Glyphs
  import opened Cleanup
  import opened ColumnSpec
  import opened LineGrouping
  import opened LineReconstruction

  /** A crop box `(x0, top, x1, bottom)`. */
  datatype Rect = Rect(x0: real, top: real, x1: real, bottom: real)

  /** A page: its size and the glyphs inside a crop box. */
  datatype Page = Page(width: real, height: real, chars: Rect -> seq<Glyph>)

  /** The default `gap_ratio` of `_reconstruct_line_with_bold`. */
  const DefaultGapRatio: real := 0.5

  function Max(a: real, b: real): real {
    if a >= b then a else b
  }

  function Min(a: real, b: real): real {
    if a <= b then a else b
  }

  // ----------------------------------------------------------------------
  // extract_text_with_bold

  /** The reconstructed string of each line, in order. */
  function LineStrings(lines: seq<seq<Glyph>>): (r: seq<string>)
    ensures |r| == |lines|
  {
    if lines == [] then []
    else LineStrings(lines[..|lines| - 1]) + [ReconstructLine(lines[|lines| - 1], DefaultGapRatio)]
  }

  /** `extract_text_with_bold(page, bbox, line_tol)`. */
  function TextWithBold(page: Page, bbox: Rect, lineTol: real): string {
    Cleaned(Join(LineStrings(GroupLines(page.chars(bbox), lineTol)), "\n"))
  }

  /** The function as written: group, rebuild each line in a loop, join and clean. */
  method ExtractTextWithBold(page: Page, bbox: Rect, lineTol: real) returns (t: string)
    ensures t == TextWithBold(page, bbox, lineTol)
  {
    var chars := page.chars(bbox);
    var lines := GroupCharsIntoLines(chars, lineTol);
    var sLines: seq<string> := [];
    for i := 0 to |lines|
      invariant sLines == LineStrings(lines[..i])
    {
      assert lines[..i + 1][..i] == lines[..i];
      var s := ReconstructLineWithBold(lines[i], DefaultGapRatio);
      sLines := sLines + [s];
    }
    assert lines[..|lines|] == lines;
    t := CleanLines(Join(sLines, "\n"));
  }

  /** The text of a box is already clean, so cleaning it again changes nothing. */
  lemma TextWithBoldClean(page: Page, bbox: Rect, lineTol: real)
    ensures Cleaned(TextWithBold(page, bbox, lineTol)) == TextWithBold(page, bbox, lineTol)
  {
    CleanedIdempotent(Join(LineStrings(GroupLines(page.chars(bbox), lineTol)), "\n"));
  }

  // ----------------------------------------------------------------------
  // extract_page_columns

  /** The vertical extent `(y0, y1)` of every crop box on a page. */
  datatype Band = Band(y0: real, y1: real)

  /** `(y0, y1)`, or the whole height `(0, h)` when `y1 <= y0`. */
  function BandOf(y0: real, y1: real, h: real): Band {
    if y1 <= y0 then Band(0.0, h) else Band(y0, y1)
  }

  /** The band with the header and footer cut off, or the whole height when the two ratios leave nothing. */
  function CropBand(h: real, headerRatio: real, footerRatio: real): Band {
    BandOf(h * headerRatio, h * (1.0 - footerRatio), h)
  }

  lemma BandOfNonEmpty(y0: real, y1: real, h: real)
    requires h > 0.0
    ensures BandOf(y0, y1, h).y0 < BandOf(y0, y1, h).y1
  {
  }

  /** On a page of positive height the band is never empty. */
  lemma BandNonEmpty(h: real, headerRatio: real, footerRatio: real)
    requires h > 0.0
    ensures CropBand(h, headerRatio, footerRatio).y0 < CropBand(h, headerRatio, footerRatio).y1
  {
    BandOfNonEmpty(h * headerRatio, h * (1.0 - footerRatio), h);
  }

  lemma BandOfInPage(y0: real, y1: real, h: real)
    requires h > 0.0 && 0.0 <= y0 && y1 <= h
    ensures 0.0 <= BandOf(y0, y1, h).y0 && BandOf(y0, y1, h).y1 <= h
  {
  }

  /** With ratios that are not negative the band lies inside the page. */
  lemma BandInPage(h: real, headerRatio: real, footerRatio: real)
    requires h > 0.0 && 0.0 <= headerRatio && 0.0 <= footerRatio
    ensures 0.0 <= CropBand(h, headerRatio, footerRatio).y0
    ensures CropBand(h, headerRatio, footerRatio).y1 <= h
  {
    assert h * headerRatio >= 0.0;
    assert h * (1.0 - footerRatio) == h - h * footerRatio;
    assert h * footerRatio >= 0.0;
    BandOfInPage(h * headerRatio, h * (1.0 - footerRatio), h);
  }

  /** `max(0.0, min(W, x))`. */
  function Clamp(x: real, w: real): real {
    Max(0.0, Min(w, x))
  }

  /** A clamped position lies in `[0, w]`, and a position already there is kept. */
  lemma ClampBounds(x: real, w: real)
    requires w >= 0.0
    ensures 0.0 <= Clamp(x, w) <= w
    ensures 0.0 <= x <= w ==> Clamp(x, w) == x
    ensures Clamp(Clamp(x, w), w) == Clamp(x, w)
  {
  }

  /** `max(1.0, y_tolerance)`: lines are never split on less than one point. */
  function LineTol(yTolerance: real): (r: real)
    ensures r >= 1.0 && r >= yTolerance
    ensures r == yTolerance || r == 1.0
  {
    Max(1.0, yTolerance)
  }

  /** The text of box `b` once cleaned again, or `None` when the clamped box is empty or its text is empty. */
  function ColumnText(page: Page, b: Box, y0: real, y1: real, lineTol: real): Option<string> {
    var xx0 := Clamp(b.x0, page.width);
    var xx1 := Clamp(b.x1, page.width);
    if xx1 <= xx0 then None
    else
      var t := TextWithBold(page, Rect(xx0, y0, xx1, y1), lineTol);
      if t != [] then Some(Cleaned(t)) else None
  }

  /** `col_texts` after the loop has seen `boxes`. */
  function ColumnTexts(page: Page, boxes: seq<Box>, y0: real, y1: real, lineTol: real): seq<string>
  {
    if boxes == [] then []
    else
      var p := ColumnTexts(page, boxes[..|boxes| - 1], y0, y1, lineTol);
      match ColumnText(page, boxes[|boxes| - 1], y0, y1, lineTol)
      case None => p
      case Some(t) => p + [t]
  }

  /** `[t for t in ts if t]`. */
  function NonEmpty(ts: seq<string>): (r: seq<string>)
    ensures forall i :: 0 <= i < |r| ==> r[i] != []
  {
    if ts == [] then []
    else NonEmpty(ts[..|ts| - 1]) + (if ts[|ts| - 1] != [] then [ts[|ts| - 1]] else [])
  }

  /** `extract_page_columns(page, col_boxes, header_ratio, footer_ratio, x_tolerance, y_tolerance)`. */
  function PageText(page: Page, boxes: seq<Box>, headerRatio: real, footerRatio: real, yTolerance: real): string {
    var band := CropBand(page.height, headerRatio, footerRatio);
    Join(NonEmpty(ColumnTexts(page, boxes, band.y0, band.y1, LineTol(yTolerance))), "\n\n")
  }

  /** The function as written: one loop over the boxes. */
  method ExtractPageColumns(page: Page, colBoxes: seq<Box>, headerRatio: real, footerRatio: real, yTolerance: real)
    returns (text: string)
    ensures text == PageText(page, colBoxes, headerRatio, footerRatio, yTolerance)
  {
    var band := CropBand(page.height, headerRatio, footerRatio);
    var y0, y1 := band.y0, band.y1;
    var lineTol := LineTol(yTolerance);
    var colTexts: seq<string> := [];
    for i := 0 to |colBoxes|
      invariant colTexts == ColumnTexts(page, colBoxes[..i], y0, y1, lineTol)
    {
      assert colBoxes[..i + 1][..i] == colBoxes[..i];
      var xx0 := Clamp(colBoxes[i].x0, page.width);
      var xx1 := Clamp(colBoxes[i].x1, page.width);
      if xx1 <= xx0 {
        assert ColumnText(page, colBoxes[i], y0, y1, lineTol) == None;
        continue;
      }
      var t := ExtractTextWithBold(page, Rect(xx0, y0, xx1, y1), lineTol);
      if t != [] {
        var c := CleanLines(t);
        colTexts := colTexts + [c];
        assert ColumnText(page, colBoxes[i], y0, y1, lineTol) == Some(c);
      } else {
        assert ColumnText(page, colBoxes[i], y0, y1, lineTol) == None;
      }
    }
    assert colBoxes[..|colBoxes|] == colBoxes;
    text := Join(NonEmpty(colTexts), "\n\n");
  }

  // ----------------------------------------------------------------------
  // Properties of a page's text

  /** A column's text, when there is one, is not empty. */
  lemma ColumnTextNonEmpty(page: Page, b: Box, y0: real, y1: real, lineTol: real)
    ensures ColumnText(page, b, y0, y1, lineTol).Some? ==> ColumnText(page, b, y0, y1, lineTol).value != []
  {
    var xx0, xx1 := Clamp(b.x0, page.width), Clamp(b.x1, page.width);
    TextWithBoldClean(page, Rect(xx0, y0, xx1, y1), lineTol);
  }

  /** Every collected column text is non-empty, and there are at most as many texts as boxes. */
  lemma {:induction false} ColumnTextsSpec(page: Page, boxes: seq<Box>, y0: real, y1: real, lineTol: real)
    ensures forall t :: t in ColumnTexts(page, boxes, y0, y1, lineTol) ==> t != []
    ensures |ColumnTexts(page, boxes, y0, y1, lineTol)| <= |boxes|
  {
    if boxes != [] {
      var p := ColumnTexts(page, boxes[..|boxes| - 1], y0, y1, lineTol);
      var c := ColumnText(page, boxes[|boxes| - 1], y0, y1, lineTol);
      ColumnTextsSpec(page, boxes[..|boxes| - 1], y0, y1, lineTol);
      ColumnTextNonEmpty(page, boxes[|boxes| - 1], y0, y1, lineTol);
      if c.Some? {
        var r := p + [c.value];
        assert ColumnTexts(page, boxes, y0, y1, lineTol) == r;
        forall t | t in r
          ensures t != []
        {
          if t !in p {
            assert t == c.value;
          }
        }
      } else {
        assert ColumnTexts(page, boxes, y0, y1, lineTol) == p;
      }
    }
  }

  /** A box that is empty once clamped contributes nothing. */
  lemma EmptyBoxSkipped(page: Page, boxes: seq<Box>, b: Box, y0: real, y1: real, lineTol: real)
    requires Clamp(b.x1, page.width) <= Clamp(b.x0, page.width)
    ensures ColumnTexts(page, boxes + [b], y0, y1, lineTol) == ColumnTexts(page, boxes, y0, y1, lineTol)
  {
    assert (boxes + [b])[..|boxes|] == boxes;
  }

  /** Filtering keeps the non-empty texts and drops only empty ones. */
  lemma {:induction false} NonEmptyOfNonEmpty(ts: seq<string>)
    requires forall i :: 0 <= i < |ts| ==> ts[i] != []
    ensures NonEmpty(ts) == ts
  {
    if ts != [] {
      NonEmptyOfNonEmpty(ts[..|ts| - 1]);
    }
  }

  /** Nothing is left after filtering exactly when every text is empty. */
  lemma {:induction false} NonEmptyAllEmpty(ts: seq<string>)
    ensures NonEmpty(ts) == [] <==> forall i :: 0 <= i < |ts| ==> ts[i] == []
  {
    if ts != [] {
      var p := ts[..|ts| - 1];
      NonEmptyAllEmpty(p);
      assert forall i :: 0 <= i < |p| ==> p[i] == ts[i];
    }
  }

  /** Texts joined by a separator are empty exactly when there are none, provided none is empty. */
  lemma {:induction false} JoinEmptyIff(ts: seq<string>, sep: string)
    requires sep != [] && forall i :: 0 <= i < |ts| ==> ts[i] != []
    ensures Join(ts, sep) == [] <==> ts == []
  {
    if |ts| >= 1 {
      assert |Join(ts, sep)| >= |ts[0]|;
    }
  }

  /**
   * The page's text joins, with a blank line between them, the texts of the
   * columns in box order; it is empty exactly when every column is.
   */
  lemma PageTextSpec(page: Page, boxes: seq<Box>, headerRatio: real, footerRatio: real, yTolerance: real)
    ensures var band := CropBand(page.height, headerRatio, footerRatio);
            var cs := ColumnTexts(page, boxes, band.y0, band.y1, LineTol(yTolerance));
            PageText(page, boxes, headerRatio, footerRatio, yTolerance) == Join(cs, "\n\n")
            && (PageText(page, boxes, headerRatio, footerRatio, yTolerance) == [] <==> cs == [])
  {
    var band := CropBand(page.height, headerRatio, footerRatio);
    var cs := ColumnTexts(page, boxes, band.y0, band.y1, LineTol(yTolerance));
    ColumnTextsSpec(page, boxes, band.y0, band.y1, LineTol(yTolerance));
    assert forall i :: 0 <= i < |cs| ==> cs[i] in cs;
    NonEmptyOfNonEmpty(cs);
    JoinEmptyIff(cs, "\n\n");
  }
}
