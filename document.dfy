/**
 * `pdf_to_txt_parity_boxes`: the text of a page range of a document, each
 * page split into columns by the odd-page spec, the even-page spec or equal
 * columns. The document is its sequence of pages; what the function would
 * write to `out_path` is the successful result.
 */
module Document {
  import opened Wrappers
  import opened Strings
  import opened ColumnSpec
  import opened PageColumns

  /** What can stop the run before anything is written. */
  datatype DocError =
    | Spec(e: SpecError)         // `parse_cols_spec` raised `ValueError`
    | ZeroColumns                // `equal_columns(W, 0)` divides by zero
    | PageOutOfRange(page: int)  // `pdf.pages[idx0]` raises `IndexError` (1-based page number)

  /** The keyword arguments of the function, except the paths and the unused `x_tolerance`. */
  datatype Params = Params(
    startPage: int,
    endPage: Option<int>,
    defaultCols: int,
    headerRatio: real,
    footerRatio: real,
    yTolerance: real,
    oddSpec: Option<string>,
    evenSpec: Option<string>)

  /** The defaults of the signature. */
  const DefaultParams := Params(6, None, 3, 0.08, 0.06, 2.0, None, None)

  /** The 1-based pages `first..last` that the loop visits. */
  datatype PageRange = PageRange(first: int, last: int)

  /** `sp = max(1, start_page)`, `ep = max(sp, min(end_page or total, total))`. */
  function Range(total: nat, startPage: int, endPage: Option<int>): (r: PageRange)
    ensures 1 <= r.first <= r.last
    ensures r.first <= total ==> r.last <= total
    ensures 1 <= startPage <= total && endPage == None ==> r == PageRange(startPage, total)
    ensures 1 <= startPage <= total && endPage.Some? && startPage <= endPage.value <= total
            ==> r == PageRange(startPage, endPage.value)
    ensures endPage.Some? && endPage.value <= startPage ==> r.first == r.last
  {
    var sp := if startPage >= 1 then startPage else 1;
    var e := endPage.GetOr(total);
    var m := if e <= total then e else total;
    PageRange(sp, if m >= sp then m else sp)
  }

  /** The 0-based indices `idx0` of `range(sp - 1, ep)`, in increasing order. */
  function Indices(r: PageRange): (ix: seq<nat>)
    requires 1 <= r.first <= r.last
    ensures |ix| == r.last - r.first + 1
    ensures forall k :: 0 <= k < |ix| ==> ix[k] == r.first - 1 + k
  {
    seq(r.last - r.first + 1, k requires 0 <= k => (r.first - 1 + k) as nat)
  }

  /** A spec is used when it is given and not empty (Python truthiness of `Optional[str]`). */
  predicate Given(spec: Option<string>) {
    spec.Some? && spec.value != []
  }

  /**
   * The boxes of a page's spec: the boxes its parts describe, reordered so that
   * they are non-empty, run left to right and do not overlap; or the spec's
   * `ValueError`, which is never one of the run's own errors.
   */
  function SpecBoxes(spec: string, width: real, num: string -> Option<real>): (r: Result<seq<Box>, DocError>)
    ensures r.Success? ==>
              && ParseBoxes(Parts(spec), width, num).Success?
              && multiset(r.value) == multiset(ParseBoxes(Parts(spec), width, num).value)
              && ValidBoxes(r.value)
    ensures r.Failure? ==> r.error.Spec?
  {
    match ColsSpec(spec, width, num)
    case Failure(e) => Failure(Spec(e))
    case Success(bs) => ColsSpecSound(spec, width, num); Success(bs)
  }

  /** The column boxes of 1-based page `pageNum`. */
  function ChooseBoxes(pageNum: int, width: real, p: Params, num: string -> Option<real>): Result<seq<Box>, DocError>
  {
    if pageNum % 2 == 1 && Given(p.oddSpec) then SpecBoxes(p.oddSpec.value, width, num)
    else if pageNum % 2 == 0 && Given(p.evenSpec) then SpecBoxes(p.evenSpec.value, width, num)
    else if p.defaultCols == 0 then Failure(ZeroColumns)
    else Success(EqualCols(width, p.defaultCols))
  }

  /** The text of the page at 0-based index `idx`, or why it cannot be produced. */
  function PageResult(pages: seq<Page>, idx: nat, p: Params, num: string -> Option<real>): Result<string, DocError>
  {
    if idx >= |pages| then Failure(PageOutOfRange(idx + 1))
    else
      match ChooseBoxes(idx + 1, pages[idx].width, p, num)
      case Failure(e) => Failure(e)
      case Success(boxes) => Success(PageText(pages[idx], boxes, p.headerRatio, p.footerRatio, p.yTolerance))
  }

  /** `PageResult` as the body of the page loop. */
  function PageFn(pages: seq<Page>, p: Params, num: string -> Option<real>): nat -> Result<string, DocError> {
    (idx: nat) => PageResult(pages, idx, p, num)
  }

  // ----------------------------------------------------------------------
  // The page loop, for any loop body `step` from a 0-based page index to its text or error

  /** The results of `step` over the range, in page order, stopping at the first error. */
  function LoopTexts(r: PageRange, step: nat -> Result<string, DocError>): Result<seq<string>, DocError>
    requires 1 <= r.first <= r.last
  {
    MapAll<nat, string, DocError>(Indices(r), step)
  }

  /** The non-empty texts joined by a blank line, or the first error. */
  function LoopOutput(r: PageRange, step: nat -> Result<string, DocError>): Result<string, DocError>
    requires 1 <= r.first <= r.last
  {
    match LoopTexts(r, step)
    case Failure(e) => Failure(e)
    case Success(ts) => Success(Join(NonEmpty(ts), "\n\n"))
  }

  /** The results of the first `n` rounds. */
  function LoopDone(r: PageRange, step: nat -> Result<string, DocError>, n: nat): Result<seq<string>, DocError>
    requires 1 <= r.first <= r.last && n <= |Indices(r)|
  {
    MapAll<nat, string, DocError>(Indices(r)[..n], step)
  }

  /** One round: the error of page index `sp - 1 + n` ends the loop, or its text is appended. */
  lemma LoopDoneStep(r: PageRange, step: nat -> Result<string, DocError>, n: nat, texts: seq<string>)
    requires 1 <= r.first <= r.last && n < |Indices(r)|
    requires LoopDone(r, step, n) == Success(texts)
    ensures step(r.first - 1 + n).Failure? ==> LoopTexts(r, step) == Failure(step(r.first - 1 + n).error)
    ensures step(r.first - 1 + n).Success?
            ==> LoopDone(r, step, n + 1) == Success(texts + [step(r.first - 1 + n).value])
  {
    var ix := Indices(r);
    assert ix[n] == r.first - 1 + n;
    MapAllStep<nat, string, DocError>(ix, n, texts, step);
  }

  /** One round seen from the loop: a failing round is the run's error, a successful one extends the texts. */
  lemma LoopRound(r: PageRange, step: nat -> Result<string, DocError>, n: nat, texts: seq<string>, res: Result<string, DocError>)
    requires 1 <= r.first <= r.last && n < |Indices(r)|
    requires LoopDone(r, step, n) == Success(texts) && step(r.first - 1 + n) == res
    ensures res.Failure? ==> LoopOutput(r, step) == Failure(res.error)
    ensures res.Success? ==> LoopDone(r, step, n + 1) == Success(texts + [res.value])
  {
    LoopDoneStep(r, step, n, texts);
  }

  /** After the last round the loop has the results of every page of the range. */
  lemma LoopDoneAll(r: PageRange, step: nat -> Result<string, DocError>)
    requires 1 <= r.first <= r.last
    ensures LoopDone(r, step, |Indices(r)|) == LoopTexts(r, step)
  {
    var ix := Indices(r);
    assert ix[..|ix|] == ix;
  }

  /** An error on the first page of the range is the error of the run. */
  lemma LoopFirstFails(r: PageRange, step: nat -> Result<string, DocError>)
    requires 1 <= r.first <= r.last && step(r.first - 1).Failure?
    ensures LoopOutput(r, step) == Failure(step(r.first - 1).error)
  {
    assert Indices(r)[..0] == [];
    LoopDoneStep(r, step, 0, []);
  }

  /** An error of the run is the error of the first page of the range that fails. */
  lemma LoopFailure(r: PageRange, step: nat -> Result<string, DocError>)
    requires 1 <= r.first <= r.last && LoopTexts(r, step).Failure?
    ensures exists idx: nat :: r.first - 1 <= idx < r.last
              && step(idx) == Failure(LoopTexts(r, step).error)
              && forall j: nat :: r.first - 1 <= j < idx ==> step(j).Success?
  {
    var ix := Indices(r);
    MapAllFailure<nat, string, DocError>(ix, step);
    var k :| 0 <= k < |ix| && step(ix[k]) == Failure(LoopTexts(r, step).error)
             && forall i :: 0 <= i < k ==> step(ix[i]).Success?;
    forall j: nat | r.first - 1 <= j < ix[k]
      ensures step(j).Success?
    {
      assert ix[j - (r.first - 1)] == j;
    }
  }

  /** The loop completes exactly when every page `idx0` of `range(sp - 1, ep)` yields a text. */
  lemma LoopSuccess(r: PageRange, step: nat -> Result<string, DocError>)
    requires 1 <= r.first <= r.last
    ensures LoopTexts(r, step).Success? <==> forall idx: nat :: r.first - 1 <= idx < r.last ==> step(idx).Success?
  {
    var ix := Indices(r);
    MapAllSuccess<nat, string, DocError>(ix, step);
    if LoopTexts(r, step).Success? {
      forall idx: nat | r.first - 1 <= idx < r.last
        ensures step(idx).Success?
      {
        assert ix[idx - (r.first - 1)] == idx;
      }
    }
  }

  /** On success there is one text per page of the range, in page order. */
  lemma LoopValues(r: PageRange, step: nat -> Result<string, DocError>)
    requires 1 <= r.first <= r.last && LoopTexts(r, step).Success?
    ensures var ts := LoopTexts(r, step).value;
            |ts| == r.last - r.first + 1
            && forall n :: 0 <= n < |ts| ==> step(r.first - 1 + n) == Success(ts[n])
  {
    var ix := Indices(r);
    MapAllValues<nat, string, DocError>(ix, step);
  }

  /**
   * On success the output is the non-empty page texts joined by a blank line,
   * and it is empty exactly when every page text is.
   */
  lemma LoopOutputSpec(r: PageRange, step: nat -> Result<string, DocError>)
    requires 1 <= r.first <= r.last
    ensures LoopOutput(r, step).Success? <==> LoopTexts(r, step).Success?
    ensures LoopOutput(r, step).Success? ==>
              var ts := LoopTexts(r, step).value;
              LoopOutput(r, step).value == Join(NonEmpty(ts), "\n\n")
              && (LoopOutput(r, step).value == [] <==> forall n :: 0 <= n < |ts| ==> ts[n] == [])
  {
    if LoopTexts(r, step).Success? {
      var ts := LoopTexts(r, step).value;
      NonEmptyAllEmpty(ts);
      JoinEmptyIff(NonEmpty(ts), "\n\n");
    }
  }

  // ----------------------------------------------------------------------
  // pdf_to_txt_parity_boxes

  /** The page texts over the range, in page order, or the first error. */
  function PageTexts(pages: seq<Page>, p: Params, num: string -> Option<real>): Result<seq<string>, DocError>
  {
    LoopTexts(Range(|pages|, p.startPage, p.endPage), PageFn(pages, p, num))
  }

  /** What `pdf_to_txt_parity_boxes` writes, or the error it raises first. */
  function DocumentText(pages: seq<Page>, p: Params, num: string -> Option<real>): Result<string, DocError>
  {
    LoopOutput(Range(|pages|, p.startPage, p.endPage), PageFn(pages, p, num))
  }

  /** The box choice as written: the odd spec, the even spec, or equal columns. */
  method SelectBoxes(pageNum: int, w: real, p: Params, num: string -> Option<real>) returns (r: Result<seq<Box>, DocError>)
    ensures r == ChooseBoxes(pageNum, w, p, num)
  {
    if pageNum % 2 == 1 && Given(p.oddSpec) {
      var b := ParseColsSpec(p.oddSpec.value, w, num);
      if b.Failure? {
        return Failure(Spec(b.error));
      }
      return Success(b.value);
    } else if pageNum % 2 == 0 && Given(p.evenSpec) {
      var b := ParseColsSpec(p.evenSpec.value, w, num);
      if b.Failure? {
        return Failure(Spec(b.error));
      }
      return Success(b.value);
    }
    if p.defaultCols == 0 {
      return Failure(ZeroColumns);
    }
    var cols := EqualColumns(w, p.defaultCols);
    return Success(cols);
  }

  /** Appending one page text adds it to the non-empty ones exactly when it is not empty. */
  lemma NonEmptySnoc(ts: seq<string>, t: string)
    ensures NonEmpty(ts + [t]) == NonEmpty(ts) + (if t != [] then [t] else [])
  {
    assert (ts + [t])[..|ts|] == ts;
  }

  /** The body of the page loop as written, for 0-based page index `idx0`. */
  method PageStep(pages: seq<Page>, idx0: nat, p: Params, num: string -> Option<real>) returns (res: Result<string, DocError>)
    ensures res == PageFn(pages, p, num)(idx0)
  {
    if idx0 >= |pages| {
      return Failure(PageOutOfRange(idx0 + 1));
    }
    var page := pages[idx0];
    var pageNum := idx0 + 1;
    var boxes := SelectBoxes(pageNum, page.width, p, num);
    if boxes.Failure? {
      return Failure(boxes.error);
    }
    var pageText := ExtractPageColumns(page, boxes.value, p.headerRatio, p.footerRatio, p.yTolerance);
    return Success(pageText);
  }

  /** The function as written: one loop over the page range that appends each non-empty page text. */
  method ParityBoxes(pages: seq<Page>, p: Params, num: string -> Option<real>) returns (r: Result<string, DocError>)
    ensures r == DocumentText(pages, p, num)
  {
    var range := Range(|pages|, p.startPage, p.endPage);
    var sp, ep := range.first, range.last;
    ghost var step := PageFn(pages, p, num);
    ghost var texts: seq<string> := [];
    var allText: seq<string> := [];
    for idx0 := sp - 1 to ep
      invariant LoopDone(range, step, idx0 - (sp - 1)) == Success(texts)
      invariant allText == NonEmpty(texts)
    {
      var res := PageStep(pages, idx0, p, num);
      LoopRound(range, step, idx0 - (sp - 1), texts, res);
      if res.Failure? {
        return Failure(res.error);
      }
      var pageText := res.value;
      NonEmptySnoc(texts, pageText);
      texts := texts + [pageText];
      if pageText != [] {
        allText := allText + [pageText];
      }
    }
    LoopDoneAll(range, step);
    r := Success(Join(allText, "\n\n"));
  }

  // ----------------------------------------------------------------------
  // Properties of the run

  /** An odd page never reads the even spec, and an even page never reads the odd spec. */
  lemma ChooseBoxesParity(pageNum: int, width: real, p: Params, num: string -> Option<real>, other: Option<string>)
    ensures pageNum % 2 == 1 ==> ChooseBoxes(pageNum, width, p.(evenSpec := other), num) == ChooseBoxes(pageNum, width, p, num)
    ensures pageNum % 2 == 0 ==> ChooseBoxes(pageNum, width, p.(oddSpec := other), num) == ChooseBoxes(pageNum, width, p, num)
  {
  }

  /** A page without a usable spec for its parity gets equal columns, or fails on zero columns. */
  lemma ChooseBoxesDefault(pageNum: int, width: real, p: Params, num: string -> Option<real>)
    requires (pageNum % 2 == 1 && !Given(p.oddSpec)) || (pageNum % 2 == 0 && !Given(p.evenSpec))
    ensures p.defaultCols == 0 <==> ChooseBoxes(pageNum, width, p, num) == Failure(ZeroColumns)
    ensures p.defaultCols != 0 ==> ChooseBoxes(pageNum, width, p, num) == Success(EqualCols(width, p.defaultCols))
  {
  }

  /** On a page of positive width the chosen boxes are non-empty, ordered by x0 and do not overlap. */
  lemma ChooseBoxesValid(pageNum: int, width: real, p: Params, num: string -> Option<real>)
    requires width > 0.0 && ChooseBoxes(pageNum, width, p, num).Success?
    ensures ValidBoxes(ChooseBoxes(pageNum, width, p, num).value)
  {
    if !(pageNum % 2 == 1 && Given(p.oddSpec)) && !(pageNum % 2 == 0 && Given(p.evenSpec)) && p.defaultCols > 0 {
      EqualColsValid(width, p.defaultCols);
    }
  }

  /** A page that exists fails only on its column spec or on zero columns. */
  lemma PageResultErrors(pages: seq<Page>, idx: nat, p: Params, num: string -> Option<real>)
    ensures idx >= |pages| <==> PageResult(pages, idx, p, num) == Failure(PageOutOfRange(idx + 1))
    ensures idx < |pages| && PageResult(pages, idx, p, num).Failure? ==>
              PageResult(pages, idx, p, num).error.Spec? || PageResult(pages, idx, p, num).error.ZeroColumns?
  {
  }

  /** With the default start and no end, a 10-page document is read from page 6 to page 10, in that order. */
  lemma TenPageRange()
    ensures Range(10, DefaultParams.startPage, DefaultParams.endPage) == PageRange(6, 10)
    ensures Indices(PageRange(6, 10)) == [5, 6, 7, 8, 9]
  {
  }

  /** When the range starts past the last page, the first page of the range is out of range. */
  lemma StartPastEnd(pages: seq<Page>, p: Params, num: string -> Option<real>)
    requires Range(|pages|, p.startPage, p.endPage).first > |pages|
    ensures DocumentText(pages, p, num) == Failure(PageOutOfRange(Range(|pages|, p.startPage, p.endPage).first))
  {
    var r := Range(|pages|, p.startPage, p.endPage);
    assert PageFn(pages, p, num)(r.first - 1) == PageResult(pages, r.first - 1, p, num);
    PageResultErrors(pages, r.first - 1, p, num);
    LoopFirstFails(r, PageFn(pages, p, num));
  }

  /** With the defaults a document of fewer than six pages fails on page 6. */
  lemma DefaultsShortDocument(pages: seq<Page>, num: string -> Option<real>)
    requires |pages| < 6
    ensures DocumentText(pages, DefaultParams, num) == Failure(PageOutOfRange(6))
  {
    StartPastEnd(pages, DefaultParams, num);
  }

  /** When the range starts within the document every page visited exists, so no page is out of range. */
  lemma StartWithinDocument(pages: seq<Page>, p: Params, num: string -> Option<real>)
    requires Range(|pages|, p.startPage, p.endPage).first <= |pages|
    ensures DocumentText(pages, p, num).Failure? ==> !DocumentText(pages, p, num).error.PageOutOfRange?
  {
    var r := Range(|pages|, p.startPage, p.endPage);
    var step := PageFn(pages, p, num);
    if LoopTexts(r, step).Failure? {
      LoopFailure(r, step);
      var idx: nat :| r.first - 1 <= idx < r.last && step(idx) == Failure(LoopTexts(r, step).error);
      assert step(idx) == PageResult(pages, idx, p, num);
      PageResultErrors(pages, idx, p, num);
    }
  }

  /**
   * The run succeeds exactly when every page of the range yields a text; the
   * output is then the non-empty page texts in page order, joined by a blank line.
   */
  lemma DocumentTextSpec(pages: seq<Page>, p: Params, num: string -> Option<real>)
    ensures var r := Range(|pages|, p.startPage, p.endPage);
            DocumentText(pages, p, num).Success?
            <==> forall idx: nat :: r.first - 1 <= idx < r.last ==> PageResult(pages, idx, p, num).Success?
    ensures DocumentText(pages, p, num).Success? ==>
              DocumentText(pages, p, num).value == Join(NonEmpty(PageTexts(pages, p, num).value), "\n\n")
  {
    var r := Range(|pages|, p.startPage, p.endPage);
    var step := PageFn(pages, p, num);
    LoopSuccess(r, step);
    LoopOutputSpec(r, step);
    forall idx: nat
      ensures step(idx) == PageResult(pages, idx, p, num)
    {
    }
  }
}
