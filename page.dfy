/**
 * The scraped markup, reduced to the records the routes read from it.
 * Cheerio selection becomes these fields: `.attr(name)` is the attribute
 * of the first matching element (None when there is no such element or
 * it lacks the attribute), and `.next(selector)` is the immediately
 * following sibling when it matches the selector, else nothing.
 */
module Page {
  import opened Wrappers

  /** An `<a>` element: its href, its text, its class list and its id. */
  datatype Anchor = Anchor(href: Option<string>, text: string, classes: seq<string>, id: Option<string>)

  /** The element matches `a.btn`. */
  predicate IsBtn(a: Anchor) { "btn" in a.classes }

  /**
   * One `article.post`: the text of its `.entry-title a`, that anchor's
   * href, and the src of its `figure img`.
   */
  datatype Post = Post(titleText: string, titleHref: Option<string>, posterSrc: Option<string>)

  /**
   * One `.download-links-div h4`: its text, and the anchors (document
   * order) of its next sibling when that sibling is a `.downloads-btns-div`.
   */
  datatype Section = Section(heading: string, buttons: Option<seq<Anchor>>)

  /** The caller's `!html` test on a `fetchProxy` result: null and "" both fail. */
  predicate Fetched(html: Option<string>) { html.Some? && html.value != "" }
}
