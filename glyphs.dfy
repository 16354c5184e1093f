/**
 * The glyphs that pdfplumber reports for a page (`page.chars`), reduced to
 * the keys the script reads, and the two sort orders it applies to them.
 */
module Glyphs {
  import opened Wrappers
  import opened Sorting

  /**
   * One character dict: its `text`, horizontal extent `x0`/`x1` (`None`
   * where the key is missing or `None`), `top` and `fontname`.
   */
  datatype Glyph = Glyph(text: string, x0: Option<real>, x1: Option<real>, top: real, font: string)

  /** `c.get("x0", 0.0)`: the horizontal sort key. */
  function X0Key(g: Glyph): real {
    g.x0.GetOr(0.0)
  }

  /** The key `(top, x0)`: tuples compare on `top` first, then on `x0`. */
  function ByTopX0(): (Glyph, Glyph) -> bool {
    (a: Glyph, b: Glyph) => a.top < b.top || (a.top == b.top && X0Key(a) <= X0Key(b))
  }

  /** The key `x0` alone, used to order the glyphs of one line. */
  function ByX0Key(): (Glyph, Glyph) -> bool {
    (a: Glyph, b: Glyph) => X0Key(a) <= X0Key(b)
  }

  lemma ByTopX0TotalPreorder()
    ensures TotalPreorder(ByTopX0())
  {
  }

  lemma ByX0KeyTotalPreorder()
    ensures TotalPreorder(ByX0Key())
  {
  }
}
