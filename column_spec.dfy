/**
 * Column boxes: `_parse_coord`, `parse_cols_spec` and `equal_columns`.
 *
 * A column spec is a string such as `"0:180,180:360"` or `"0%:33.3%,33.3%:100%"`.
 * Each comma-separated part `x0:x1` becomes a box; a `%` endpoint is a
 * percentage of the page width. Python's `float()` is the parameter `num`.
 */
module ColumnSpec {
  import opened Wrappers
  import opened Strings
  import opened Sorting

  /** A column box `(x0, x1)`, in PDF points. */
  datatype Box = Box(x0: real, x1: real)

  /** One endpoint as written: a number of points, or a percentage of the page width. */
  datatype Coord = Abs(v: real) | Pct(p: real)

  /** The `ValueError`s that `parse_cols_spec` raises. */
  datatype SpecError =
    | MissingColon(part: string)
    | BadNumber(token: string)
    | EmptyBox(part: string, x0: real, x1: real)
    | Overlap(prev: Box, next: Box)

  // ----------------------------------------------------------------------
  // _parse_coord

  /** The endpoint a token denotes: strip it, then a trailing `%` makes it a percentage. */
  function ReadCoord(token: string, num: string -> Option<real>): Option<Coord>
  {
    var t := Strip(token);
    if t != [] && t[|t| - 1] == '%' then
      match num(t[..|t| - 1])
      case None => None
      case Some(v) => Some(Pct(v))
    else
      match num(t)
      case None => None
      case Some(v) => Some(Abs(v))
  }

  /** The position of an endpoint on a page of the given width. */
  function CoordValue(c: Coord, width: real): real
  {
    match c
    case Abs(v) => v
    case Pct(p) => p / 100.0 * width
  }

  /** `_parse_coord(token, width)`; `None` where `float()` raises. */
  function ParseCoord(token: string, width: real, num: string -> Option<real>): Option<real>
  {
    match ReadCoord(token, num)
    case None => None
    case Some(c) => Some(CoordValue(c, width))
  }

  /** A plain number is taken as points. */
  lemma ParseCoordPoints(t: string, width: real, num: string -> Option<real>)
    requires Trimmed(t) && (t == [] || t[|t| - 1] != '%')
    ensures ParseCoord(t, width, num) == num(t)
  {
    TrimmedStrip(t);
  }

  /** `"p%"` is `p / 100` of the width. */
  lemma ParseCoordPercent(t: string, width: real, num: string -> Option<real>)
    requires t == [] || !IsWs(t[0])
    ensures ParseCoord(t + "%", width, num)
         == (if num(t).Some? then Some(num(t).value / 100.0 * width) else None)
  {
    var u := t + "%";
    assert u[0] == if t == [] then '%' else t[0];
    assert u[|u| - 1] == '%';
    assert Trimmed(u);
    TrimmedStrip(u);
    assert u[..|u| - 1] == t;
    assert u[|u| - 1] == '%';
    assert ReadCoord(u, num) == if num(t).Some? then Some(Pct(num(t).value)) else None;
    if num(t).Some? {
      assert CoordValue(Pct(num(t).value), width) == num(t).value / 100.0 * width;
    }
  }

  /** White space around a token does not matter. */
  lemma ParseCoordStripped(token: string, width: real, num: string -> Option<real>)
    ensures ParseCoord(Strip(token), width, num) == ParseCoord(token, width, num)
  {
    StripIdempotent(token);
  }

  // ----------------------------------------------------------------------
  // parse_cols_spec as functions

  /** `[p for p in spec.split(",") if p.strip()]`. */
  function Parts(spec: string): seq<string>
  {
    NonBlanks(Split(spec, ','))
  }

  /** Every part is non-blank and holds no comma. */
  lemma PartsShape(spec: string)
    ensures forall p :: p in Parts(spec) ==> !IsBlank(p) && ',' !in p
  {
    NonBlanksMembers(Split(spec, ','));
  }

  /** One part `a:b`, split at its first `:`, as a box; the errors are checked in the order the source checks them. */
  function ParseBox(p: string, width: real, num: string -> Option<real>): Result<Box, SpecError>
  {
    if ':' !in p then Failure(MissingColon(p))
    else
      var i := IndexOf(p, ':');
      var a, b := p[..i], p[i + 1..];
      match ParseCoord(a, width, num)
      case None => Failure(BadNumber(a))
      case Some(x0) =>
        match ParseCoord(b, width, num)
        case None => Failure(BadNumber(b))
        case Some(x1) =>
          if x1 <= x0 then Failure(EmptyBox(p, x0, x1)) else Success(Box(x0, x1))
  }

  /** The boxes of the parts in order, or the error of the first part that fails. */
  function ParseBoxes(ps: seq<string>, width: real, num: string -> Option<real>): Result<seq<Box>, SpecError>
  {
    MapAll(ps, p => ParseBox(p, width, num))
  }

  /** The sort key of `sorted(boxes, key=lambda t: t[0])`. */
  function ByX0(): (Box, Box) -> bool {
    (a: Box, b: Box) => a.x0 <= b.x0
  }

  /** The first adjacent pair whose next box starts before the previous one ends. */
  function FirstOverlap(s: seq<Box>): Option<(Box, Box)>
  {
    if |s| < 2 then None
    else
      match FirstOverlap(s[..|s| - 1])
      case Some(pr) => Some(pr)
      case None =>
        if s[|s| - 1].x0 < s[|s| - 2].x1 then Some((s[|s| - 2], s[|s| - 1])) else None
  }

  /** The sorted boxes, or the first overlap the check after the sort raises. */
  function SortChecked(bs: seq<Box>): Result<seq<Box>, SpecError>
  {
    var sorted := SortBy(bs, ByX0());
    match FirstOverlap(sorted)
    case Some(pr) => Failure(Overlap(pr.0, pr.1))
    case None => Success(sorted)
  }

  /** What `parse_cols_spec(spec, width)` returns or raises. */
  function ColsSpec(spec: string, width: real, num: string -> Option<real>): Result<seq<Box>, SpecError>
  {
    if spec == [] then Success([])
    else
      match ParseBoxes(Parts(spec), width, num)
      case Failure(e) => Failure(e)
      case Success(bs) => SortChecked(bs)
  }

  // ----------------------------------------------------------------------
  // parse_cols_spec as written

  /** Once a prefix of the sorted boxes overlaps, the whole list reports that overlap. */
  lemma {:induction false} FirstOverlapPrefix(s: seq<Box>, k: nat)
    requires k <= |s| && FirstOverlap(s[..k]).Some?
    ensures FirstOverlap(s) == FirstOverlap(s[..k])
    decreases |s| - k
  {
    if k < |s| {
      assert s[..k + 1][..k] == s[..k];
      FirstOverlapPrefix(s, k + 1);
    } else {
      assert s[..k] == s;
    }
  }

  /** One more adjacent pair: it is reported if it overlaps, and then the whole list reports it. */
  lemma FirstOverlapStep(s: seq<Box>, i: nat)
    requires 1 <= i < |s| && FirstOverlap(s[..i]) == None
    ensures s[i].x0 < s[i - 1].x1 ==> FirstOverlap(s) == Some((s[i - 1], s[i]))
    ensures s[i].x0 >= s[i - 1].x1 ==> FirstOverlap(s[..i + 1]) == None
  {
    assert s[..i + 1][..i] == s[..i];
    if s[i].x0 < s[i - 1].x1 {
      FirstOverlapPrefix(s, i + 1);
    }
  }

  /** The body of the loop over the parts: read one part `a:b` as a box, or raise. */
  method ReadPart(p: string, width: real, num: string -> Option<real>) returns (r: Result<Box, SpecError>)
    ensures r == ParseBox(p, width, num)
  {
    if ':' !in p {
      return Failure(MissingColon(p));
    }
    var k := IndexOf(p, ':');
    var a, b := p[..k], p[k + 1..];
    var x0 := ParseCoord(a, width, num);
    if x0.None? {
      return Failure(BadNumber(a));
    }
    var x1 := ParseCoord(b, width, num);
    if x1.None? {
      return Failure(BadNumber(b));
    }
    if x1.value <= x0.value {
      return Failure(EmptyBox(p, x0.value, x1.value));
    }
    return Success(Box(x0.value, x1.value));
  }

  /** `parse_cols_spec`: a loop over the parts, a sort, and a loop over adjacent sorted boxes. */
  method ParseColsSpec(spec: string, width: real, num: string -> Option<real>) returns (r: Result<seq<Box>, SpecError>)
    ensures r == ColsSpec(spec, width, num)
  {
    var boxes: seq<Box> := [];
    if spec == [] {
      return Success(boxes);
    }
    var parts := Parts(spec);
    for i := 0 to |parts|
      invariant ParseBoxes(parts[..i], width, num) == Success(boxes)
    {
      MapAllStep(parts, i, boxes, p => ParseBox(p, width, num));
      var box := ReadPart(parts[i], width, num);
      if box.Failure? {
        return Failure(box.error);
      }
      boxes := boxes + [box.value];
    }
    assert parts[..|parts|] == parts;
    var sorted := SortBy(boxes, ByX0());
    var i := 1;
    while i < |sorted|
      invariant sorted == [] || (1 <= i <= |sorted| && FirstOverlap(sorted[..i]) == None)
    {
      FirstOverlapStep(sorted, i);
      if sorted[i].x0 < sorted[i - 1].x1 {
        return Failure(Overlap(sorted[i - 1], sorted[i]));
      }
      i := i + 1;
    }
    assert sorted != [] ==> sorted[..i] == sorted;
    return Success(sorted);
  }

  // ----------------------------------------------------------------------
  // What a successful parse guarantees, and when it fails

  /** Adjacent boxes do not overlap: each starts at or after the end of the previous one. */
  predicate NonOverlapping(s: seq<Box>) {
    forall i, j :: 0 <= i && j == i + 1 < |s| ==> s[i].x1 <= s[j].x0
  }

  /** Every box is non-empty, and the boxes run left to right without overlapping. */
  predicate ValidBoxes(s: seq<Box>) {
    (forall i :: 0 <= i < |s| ==> s[i].x0 < s[i].x1)
    && SortedBy(s, ByX0())
    && NonOverlapping(s)
  }

  lemma ByX0TotalPreorder()
    ensures TotalPreorder(ByX0())
  {
  }

  /** `FirstOverlap` finds nothing exactly when no two adjacent boxes overlap. */
  lemma {:induction false} FirstOverlapNone(s: seq<Box>)
    ensures FirstOverlap(s) == None <==> NonOverlapping(s)
  {
    if |s| >= 2 {
      var p := s[..|s| - 1];
      FirstOverlapNone(p);
      if NonOverlapping(s) {
        assert NonOverlapping(p) by {
          forall i, j | 0 <= i && j == i + 1 < |p|
            ensures p[i].x1 <= p[j].x0
          {
            assert p[i] == s[i] && p[j] == s[j];
          }
        }
      }
    }
  }

  /** What `FirstOverlap` reports is the first adjacent pair of the list that overlaps: no pair before it does. */
  lemma {:induction false} FirstOverlapSome(s: seq<Box>)
    requires FirstOverlap(s).Some?
    ensures exists i :: 0 < i < |s| && FirstOverlap(s).value == (s[i - 1], s[i]) && s[i].x0 < s[i - 1].x1
                        && NonOverlapping(s[..i])
  {
    var p := s[..|s| - 1];
    if FirstOverlap(p).Some? {
      FirstOverlapSome(p);
      var i :| 0 < i < |p| && FirstOverlap(p).value == (p[i - 1], p[i]) && p[i].x0 < p[i - 1].x1
               && NonOverlapping(p[..i]);
      assert p[i - 1] == s[i - 1] && p[i] == s[i];
      assert p[..i] == s[..i];
    } else {
      var i := |s| - 1;
      FirstOverlapNone(p);
      assert FirstOverlap(s).value == (s[i - 1], s[i]);
      assert p == s[..i];
    }
  }

  /** Each part fails for the reason the source checks first: no `:`, an unreadable endpoint, or `x1 <= x0`. */
  lemma ParseBoxCases(p: string, width: real, num: string -> Option<real>)
    ensures ':' !in p ==> ParseBox(p, width, num) == Failure(MissingColon(p))
    ensures ':' in p ==>
              var i := IndexOf(p, ':');
              p == p[..i] + ":" + p[i + 1..] && ':' !in p[..i]
              && (ParseBox(p, width, num).Success?
                  <==> ParseCoord(p[..i], width, num).Some? && ParseCoord(p[i + 1..], width, num).Some?
                       && ParseCoord(p[..i], width, num).value < ParseCoord(p[i + 1..], width, num).value)
    ensures ':' in p ==>
              var i := IndexOf(p, ':');
              var a, b := p[..i], p[i + 1..];
              && (ParseCoord(a, width, num).None? ==> ParseBox(p, width, num) == Failure(BadNumber(a)))
              && (ParseCoord(a, width, num).Some? && ParseCoord(b, width, num).None? ==>
                    ParseBox(p, width, num) == Failure(BadNumber(b)))
              && (ParseCoord(a, width, num).Some? && ParseCoord(b, width, num).Some?
                  && ParseCoord(b, width, num).value <= ParseCoord(a, width, num).value ==>
                    ParseBox(p, width, num)
                    == Failure(EmptyBox(p, ParseCoord(a, width, num).value, ParseCoord(b, width, num).value)))
  {
    if ':' in p {
      var i := IndexOf(p, ':');
      assert p == p[..i] + [p[i]] + p[i + 1..];
    }
  }

  /** A box read from one part is never empty, and reading a part never reports an overlap. */
  lemma ParseBoxShape(p: string, width: real, num: string -> Option<real>)
    ensures ParseBox(p, width, num).Success? ==> ParseBox(p, width, num).value.x0 < ParseBox(p, width, num).value.x1
    ensures ParseBox(p, width, num).Failure? ==> !ParseBox(p, width, num).error.Overlap?
  {
  }

  /** After the sort the boxes are a permutation of the input, ordered by x0; when the check passes none overlaps the next. */
  lemma SortCheckedSound(bs: seq<Box>)
    requires forall i :: 0 <= i < |bs| ==> bs[i].x0 < bs[i].x1
    requires SortChecked(bs).Success?
    ensures multiset(SortChecked(bs).value) == multiset(bs)
    ensures ValidBoxes(SortChecked(bs).value)
  {
    var r := SortBy(bs, ByX0());
    ByX0TotalPreorder();
    SortByCorrect(bs, ByX0());
    FirstOverlapNone(r);
    forall i | 0 <= i < |r|
      ensures r[i].x0 < r[i].x1
    {
      assert r[i] in multiset(bs);
    }
  }

  /** The check after the sort fails exactly on an overlap, and names the first overlapping adjacent pair. */
  lemma SortCheckedFailure(bs: seq<Box>)
    ensures SortChecked(bs).Success? <==> NonOverlapping(SortBy(bs, ByX0()))
    ensures SortChecked(bs).Failure? ==>
              var s := SortBy(bs, ByX0());
              var e := SortChecked(bs).error;
              e.Overlap? && exists i :: 0 < i < |s| && e.prev == s[i - 1] && e.next == s[i] && e.next.x0 < e.prev.x1
                                        && NonOverlapping(s[..i])
  {
    var s := SortBy(bs, ByX0());
    FirstOverlapNone(s);
    if FirstOverlap(s).Some? {
      FirstOverlapSome(s);
    }
  }

  /** A successful parse is the parsed boxes, reordered by x0, each non-empty and none overlapping the next. */
  lemma ColsSpecSound(spec: string, width: real, num: string -> Option<real>)
    requires ColsSpec(spec, width, num).Success?
    ensures ParseBoxes(Parts(spec), width, num).Success?
    ensures multiset(ColsSpec(spec, width, num).value) == multiset(ParseBoxes(Parts(spec), width, num).value)
    ensures ValidBoxes(ColsSpec(spec, width, num).value)
  {
    if spec == [] {
      assert Split("", ',') == [""];
      assert NonBlanks([""]) == [] by { assert [""][..0] == []; }
    } else {
      var ps := Parts(spec);
      var bs := ParseBoxes(ps, width, num).value;
      MapAllValues(ps, p => ParseBox(p, width, num));
      forall i | 0 <= i < |bs|
        ensures bs[i].x0 < bs[i].x1
      {
        ParseBoxShape(ps[i], width, num);
      }
      SortCheckedSound(bs);
    }
  }

  /** The empty spec has no parts, so the guard for it gives what parsing its parts would. */
  lemma ColsSpecByParts(spec: string, width: real, num: string -> Option<real>)
    ensures ColsSpec(spec, width, num)
         == match ParseBoxes(Parts(spec), width, num)
            case Failure(e) => Failure(e)
            case Success(bs) => SortChecked(bs)
  {
    if spec == [] {
      assert Split(spec, ',') == [""];
      assert NonBlanks([""]) == [] by { assert [""][..0] == []; }
    }
  }

  /**
   * The errors: with every part readable as a box, the spec is rejected exactly
   * when two adjacent sorted boxes overlap, and the error names the first such pair;
   * otherwise the error is that of the first part that cannot be read.
   */
  lemma ColsSpecErrors(spec: string, width: real, num: string -> Option<real>)
    ensures var ps := Parts(spec);
            ParseBoxes(ps, width, num).Failure? ==>
              ColsSpec(spec, width, num).Failure? && !ColsSpec(spec, width, num).error.Overlap?
              && exists k :: 0 <= k < |ps|
                   && ParseBox(ps[k], width, num) == Failure(ColsSpec(spec, width, num).error)
                   && forall i :: 0 <= i < k ==> ParseBox(ps[i], width, num).Success?
    ensures var ps := Parts(spec);
            ParseBoxes(ps, width, num).Success? ==>
              var s := SortBy(ParseBoxes(ps, width, num).value, ByX0());
              (ColsSpec(spec, width, num).Success? <==> NonOverlapping(s))
              && (ColsSpec(spec, width, num).Failure? ==>
                    var e := ColsSpec(spec, width, num).error;
                    e.Overlap? && exists i :: 0 < i < |s| && e.prev == s[i - 1] && e.next == s[i] && e.next.x0 < e.prev.x1
                                              && NonOverlapping(s[..i]))
  {
    ColsSpecByParts(spec, width, num);
    var ps := Parts(spec);
    var r := ParseBoxes(ps, width, num);
    if r.Failure? {
      MapAllFailure(ps, p => ParseBox(p, width, num));
      var k :| 0 <= k < |ps| && ParseBox(ps[k], width, num) == Failure(r.error);
      ParseBoxShape(ps[k], width, num);
    } else {
      SortCheckedFailure(r.value);
    }
  }

  /** An empty spec, or one made only of commas and white space, gives no boxes. */
  lemma ColsSpecBlank(spec: string, width: real, num: string -> Option<real>)
    requires forall i :: 0 <= i < |spec| ==> spec[i] == ',' || IsWs(spec[i])
    ensures ColsSpec(spec, width, num) == Success([])
  {
    if spec != [] {
      var ps := Split(spec, ',');
      SplitChars(spec, ',');
        assert AllBlank(ps) by {
        forall k, i | 0 <= k < |ps| && 0 <= i < |ps[k]|
          ensures IsWs(ps[k][i])
        {
          assert ps[k][i] in ps[k];
          assert ps[k][i] in spec;
        }
      }
      NonBlanksOfBlanks(ps);
    }
  }

  /** A blank part at the end of a spec is skipped. */
  lemma PartsSkipBlank(spec: string, w: string)
    requires IsBlank(w) && ',' !in w
    ensures Parts(spec + "," + w) == Parts(spec)
  {
    SplitAppend(spec, ',', w);
    SplitNoSep(w, ',');
    NonBlanksAppend(Split(spec, ','), [w]);
    assert NonBlanks([w]) == [] by { assert [w][..0] == []; }
  }

  lemma SplitTwo(a: string, b: string, sep: char)
    requires sep !in a && sep !in b
    ensures Split(a + [sep] + b, sep) == [a, b]
  {
    SplitAppend(a, sep, b);
    SplitNoSep(a, sep);
    SplitNoSep(b, sep);
  }

  lemma NonBlanksTwo(a: string, b: string)
    requires !IsBlank(a) && !IsBlank(b)
    ensures NonBlanks([a, b]) == [a, b]
  {
    assert [a, b][..1] == [a];
    assert [a][..0] == [];
    assert NonBlanks([a]) == [a];
  }

  /** A spec of two non-blank parts has exactly those parts. */
  lemma TwoParts(a: string, b: string)
    requires ',' !in a && ',' !in b && !IsBlank(a) && !IsBlank(b)
    ensures Parts(a + "," + b) == [a, b]
  {
    SplitTwo(a, b, ',');
    NonBlanksTwo(a, b);
  }

  lemma MapAllTwo<A, B, E>(u: A, v: A, f: A -> Result<B, E>, x: B, y: B)
    requires f(u) == Success(x) && f(v) == Success(y)
    ensures MapAll([u, v], f) == Success([x, y])
  {
    assert [u, v][..1] == [u];
    assert [u][..0] == [];
    assert MapAll([u][..0], f) == Success([]);
    assert MapAll([u], f) == Success([] + [x]);
    assert [] + [x] == [x];
    assert [u, v][1] == v;
    assert [x] + [y] == [x, y];
  }

  /** A two-part spec whose boxes read `x` then `y`. */
  lemma TwoBoxes(a: string, b: string, width: real, num: string -> Option<real>, x: Box, y: Box)
    requires ',' !in a && ',' !in b && !IsBlank(a) && !IsBlank(b)
    requires ParseBox(a, width, num) == Success(x) && ParseBox(b, width, num) == Success(y)
    ensures ColsSpec(a + "," + b, width, num) == SortChecked([x, y])
  {
    TwoParts(a, b);
    MapAllTwo(a, b, p => ParseBox(p, width, num), x, y);
    assert ParseBoxes(Parts(a + "," + b), width, num) == Success([x, y]);
  }

  /** The two-box check: in order and apart, in order and overlapping, or reversed and overlapping. */
  lemma SortCheckedTwo(x: Box, y: Box)
    ensures x.x0 <= y.x0 && x.x1 <= y.x0 ==> SortChecked([x, y]) == Success([x, y])
    ensures x.x0 <= y.x0 && y.x0 < x.x1 ==> SortChecked([x, y]) == Failure(Overlap(x, y))
    ensures y.x0 < x.x0 && x.x0 < y.x1 ==> SortChecked([x, y]) == Failure(Overlap(y, x))
  {
    assert [x, y][..1] == [x];
    assert [x][..0] == [];
    assert SortBy([x], ByX0()) == [x];
    var s := SortBy([x, y], ByX0());
    assert s == Insert(y, [x], ByX0());
    if x.x0 <= y.x0 {
      assert s == [x, y];
    } else {
      assert s == [y, x];
    }
    assert FirstOverlap(s[..1]) == None;
  }

  /** The first `c` in `a + [c] + b` is the one after `a` when `a` holds none. */
  lemma {:induction false} IndexOfAfter(a: string, c: char, b: string)
    requires c !in a
    ensures c in a + [c] + b && IndexOf(a + [c] + b, c) == |a|
  {
    var s := a + [c] + b;
    assert s[|a|] == c;
    if a != [] {
      assert s[1..] == a[1..] + [c] + b;
      assert c !in a[1..] by { assert forall ch :: ch in a[1..] ==> ch in a; }
      IndexOfAfter(a[1..], c, b);
    }
  }

  /** A part `a:b` whose endpoints read `va < vb` is the box `(va, vb)`. */
  lemma ReadBox(a: string, b: string, width: real, num: string -> Option<real>, va: real, vb: real)
    requires ':' !in a
    requires ParseCoord(a, width, num) == Some(va) && ParseCoord(b, width, num) == Some(vb) && va < vb
    ensures ParseBox(a + ":" + b, width, num) == Success(Box(va, vb))
  {
    var s := a + ":" + b;
    IndexOfAfter(a, ':', b);
    assert s[..|a|] == a && s[|a| + 1..] == b;
  }

  /** A part `p:q` of plain numbers is the box from `p` to `q` points. */
  lemma ReadPointBox(p: string, q: string, width: real, num: string -> Option<real>, vp: real, vq: real)
    requires Bare(p) && Bare(q) && num(p) == Some(vp) && num(q) == Some(vq) && vp < vq
    ensures ParseBox(p + ":" + q, width, num) == Success(Box(vp, vq))
  {
    ParseCoordPoints(p, width, num);
    ParseCoordPoints(q, width, num);
    ReadBox(p, q, width, num, vp, vq);
  }

  /** A bare number token such as `50`: no white space around it and no `:`, `,` or `%` in it. */
  predicate Bare(t: string) {
    t != [] && Trimmed(t) && ':' !in t && ',' !in t && '%' !in t
  }

  /** A part `p:q` that starts with a printing character and holds no comma. */
  lemma PartShape(p: string, q: string)
    requires p != [] && !IsWs(p[0]) && ',' !in p && ',' !in q
    ensures ',' !in p + ":" + q && !IsBlank(p + ":" + q)
  {
    var s := p + ":" + q;
    assert s[0] == p[0];
  }

  /** A bare token followed by `%`. */
  lemma PercentToken(t: string)
    requires Bare(t)
    ensures t + "%" != [] && !IsWs((t + "%")[0]) && ':' !in t + "%" && ',' !in t + "%"
  {
    assert (t + "%")[0] == t[0];
    assert forall i :: 0 <= i < |t| ==> (t + "%")[i] == t[i];
  }

  /**
   * Percentages of a 200-point page: a spec such as `"0%:50%,50%:100%"`,
   * whose numbers read 0, 50 and 100, is two 100-point columns.
   */
  lemma PercentExample(num: string -> Option<real>, u: string, v: string, w: string)
    requires Bare(u) && Bare(v) && Bare(w)
    requires num(u) == Some(0.0) && num(v) == Some(50.0) && num(w) == Some(100.0)
    ensures ColsSpec((u + "%") + ":" + (v + "%") + "," + ((v + "%") + ":" + (w + "%")), 200.0, num)
         == Success([Box(0.0, 100.0), Box(100.0, 200.0)])
  {
    var pu, pv, pw := u + "%", v + "%", w + "%";
    PercentToken(u);
    PercentToken(v);
    PercentToken(w);
    var a, b := pu + ":" + pv, pv + ":" + pw;
    assert ',' !in a && !IsBlank(a) by { PartShape(pu, pv); }
    assert ',' !in b && !IsBlank(b) by { PartShape(pv, pw); }
    assert ParseCoord(pu, 200.0, num) == Some(0.0) by { ParseCoordPercent(u, 200.0, num); }
    assert ParseCoord(pv, 200.0, num) == Some(100.0) by { ParseCoordPercent(v, 200.0, num); }
    assert ParseCoord(pw, 200.0, num) == Some(200.0) by { ParseCoordPercent(w, 200.0, num); }
    var x, y := Box(0.0, 100.0), Box(100.0, 200.0);
    ReadBox(pu, pv, 200.0, num, 0.0, 100.0);
    ReadBox(pv, pw, 200.0, num, 100.0, 200.0);
    TwoBoxes(a, b, 200.0, num, x, y);
    SortCheckedTwo(x, y);
  }

  /** The same boxes in points: a spec such as `"0:100,100:200"`. */
  lemma PointsExample(num: string -> Option<real>, u: string, v: string, w: string)
    requires Bare(u) && Bare(v) && Bare(w)
    requires num(u) == Some(0.0) && num(v) == Some(100.0) && num(w) == Some(200.0)
    ensures ColsSpec(u + ":" + v + "," + (v + ":" + w), 200.0, num)
         == Success([Box(0.0, 100.0), Box(100.0, 200.0)])
  {
    var a, b := u + ":" + v, v + ":" + w;
    assert ',' !in a && !IsBlank(a) by { PartShape(u, v); }
    assert ',' !in b && !IsBlank(b) by { PartShape(v, w); }
    var x, y := Box(0.0, 100.0), Box(100.0, 200.0);
    ReadPointBox(u, v, 200.0, num, 0.0, 100.0);
    ReadPointBox(v, w, 200.0, num, 100.0, 200.0);
    TwoBoxes(a, b, 200.0, num, x, y);
    SortCheckedTwo(x, y);
  }

  /** Overlapping boxes are rejected: a spec such as `"0:100,50:150"`. */
  lemma OverlapExample(num: string -> Option<real>, s: string, t: string, u: string, v: string)
    requires Bare(s) && Bare(t) && Bare(u) && Bare(v)
    requires num(s) == Some(0.0) && num(t) == Some(100.0) && num(u) == Some(50.0) && num(v) == Some(150.0)
    ensures ColsSpec(s + ":" + t + "," + (u + ":" + v), 200.0, num)
         == Failure(Overlap(Box(0.0, 100.0), Box(50.0, 150.0)))
  {
    var a, b := s + ":" + t, u + ":" + v;
    assert ',' !in a && !IsBlank(a) by { PartShape(s, t); }
    assert ',' !in b && !IsBlank(b) by { PartShape(u, v); }
    var x, y := Box(0.0, 100.0), Box(50.0, 150.0);
    ReadPointBox(s, t, 200.0, num, 0.0, 100.0);
    ReadPointBox(u, v, 200.0, num, 50.0, 150.0);
    TwoBoxes(a, b, 200.0, num, x, y);
    SortCheckedTwo(x, y);
  }

  /**
   * Boxes given out of order are sorted before the check, so the error names
   * the pair in sorted order: a spec such as `"50:150,0:100"`.
   */
  lemma UnorderedOverlapExample(num: string -> Option<real>, s: string, t: string, u: string, v: string)
    requires Bare(s) && Bare(t) && Bare(u) && Bare(v)
    requires num(s) == Some(50.0) && num(t) == Some(150.0) && num(u) == Some(0.0) && num(v) == Some(100.0)
    ensures ColsSpec(s + ":" + t + "," + (u + ":" + v), 200.0, num)
         == Failure(Overlap(Box(0.0, 100.0), Box(50.0, 150.0)))
  {
    var a, b := s + ":" + t, u + ":" + v;
    assert ',' !in a && !IsBlank(a) by { PartShape(s, t); }
    assert ',' !in b && !IsBlank(b) by { PartShape(u, v); }
    var x, y := Box(50.0, 150.0), Box(0.0, 100.0);
    ReadPointBox(s, t, 200.0, num, 50.0, 150.0);
    ReadPointBox(u, v, 200.0, num, 0.0, 100.0);
    TwoBoxes(a, b, 200.0, num, x, y);
    SortCheckedTwo(x, y);
  }

  // ----------------------------------------------------------------------
  // equal_columns

  /** `n` boxes of width `width / n` side by side from 0; no boxes for a negative `n`. */
  function EqualCols(width: real, n: int): (r: seq<Box>)
    requires n != 0
    ensures |r| == if n < 0 then 0 else n
  {
    if n <= 0 then [] else seq(n, i => Box(i as real * (width / n as real), (i + 1) as real * (width / n as real)))
  }

  /** `equal_columns(width, n)` as written: a loop that appends box `i`. */
  method EqualColumns(width: real, n: int) returns (cols: seq<Box>)
    requires n != 0
    ensures cols == EqualCols(width, n)
  {
    cols := [];
    var step := width / n as real;
    var i := 0;
    while i < n
      invariant 0 <= i <= |EqualCols(width, n)|
      invariant cols == EqualCols(width, n)[..i]
    {
      assert EqualCols(width, n)[i] == Box(i as real * step, (i + 1) as real * step);
      assert EqualCols(width, n)[..i + 1] == EqualCols(width, n)[..i] + [EqualCols(width, n)[i]];
      cols := cols + [Box(i as real * step, (i + 1) as real * step)];
      i := i + 1;
    }
    assert n > 0 ==> EqualCols(width, n)[..n] == EqualCols(width, n);
  }

  /** The boxes tile `[0, width]`: the first starts at 0, each ends where the next starts, the last ends at `width`. */
  lemma EqualColsTile(width: real, n: int)
    requires n > 0
    ensures var r := EqualCols(width, n);
            r[0].x0 == 0.0 && r[n - 1].x1 == width
            && (forall i :: 0 <= i < n - 1 ==> r[i].x1 == r[i + 1].x0)
            && (forall i :: 0 <= i < n ==> r[i].x1 - r[i].x0 == width / n as real)
  {
    var r := EqualCols(width, n);
    assert r[n - 1].x1 == n as real * (width / n as real);
  }

  lemma MulMono(a: real, b: real, c: real)
    requires a <= b && 0.0 <= c
    ensures a * c <= b * c
  {
  }

  lemma EqualColsStartsOrdered(width: real, n: int, i: int, j: int)
    requires n > 0 && width > 0.0 && 0 <= i < j < n
    ensures EqualCols(width, n)[i].x0 <= EqualCols(width, n)[j].x0
  {
    var step := width / n as real;
    assert step > 0.0;
    var a, b := i as real, j as real;
    assert EqualCols(width, n)[i].x0 == a * step && EqualCols(width, n)[j].x0 == b * step;
    MulMono(a, b, step);
  }

  /** On a page of positive width the equal columns pass `parse_cols_spec`'s own checks. */
  lemma EqualColsValid(width: real, n: int)
    requires n > 0 && width > 0.0
    ensures ValidBoxes(EqualCols(width, n))
  {
    var r := EqualCols(width, n);
    var step := width / n as real;
    assert step > 0.0;
    EqualColsTile(width, n);
    forall i, j | 0 <= i < j < n
      ensures r[i].x0 <= r[j].x0
    {
      EqualColsStartsOrdered(width, n, i, j);
    }
    assert SortedBy(r, ByX0());
    forall i | 0 <= i < n
      ensures r[i].x0 < r[i].x1
    {
      assert r[i].x1 - r[i].x0 == step;
    }
  }
}
