/** The PDF document as the engine sees it through PyMuPDF. Every query the
    engine makes of a page is a field: its extracted text, its width, its words
    and per-character boxes, and the text-search, clipped-text and drawing calls
    as total functions of their arguments. A page is never changed by drawing on
    it, so the oracles answer the same way throughout one run. */
module Document {
  import opened Basics
  import opened Geometry

  /** One entry of `page.get_text("words")`: its box and its text. */
  datatype Word = Word(box: Rect, text: string)

  /** One entry of `page.get_text("chars")`: its box and its character. */
  datatype CharBox = CharBox(box: Rect, ch: char)

  datatype Page = Page(
    text: string,                           // page.get_text("text")
    width: real,                            // page.rect.width
    words: seq<Word>,                       // page.get_text("words")
    chars: Option<seq<CharBox>>,            // page.get_text("chars"); None when the build raises
    clipText: Rect -> string,               // page.get_text(clip=r)
    search: string -> seq<Rect>,            // page.search_for(t)
    searchIn: (string, Rect) -> seq<Rect>,  // page.search_for(t, clip=r)
    fillOk: Rect -> bool,                   // page.draw_rect(r, fill=black) returns normally
    shapeOk: Rect -> bool,                  // the new_shape/draw_rect/finish/commit fallback returns normally
    annotOk: Rect -> bool                   // page.add_redact_annot(r) returns normally
  )

  /** An opened document: `len(doc)` pages, `doc[i]` is `pages[i]`. */
  datatype Doc = Doc(pages: seq<Page>)

  /** The three label expressions of the learner, in the order it tries them:
      `số\s*cmnd[:\s]*([0-9]{9,12})`, `số\s*điện\s*thoại[:\s]*([0-9]{9,12})` and
      `sđt[:\s]*([0-9]{9,12})`, all case-insensitive. */
  datatype LabelPattern = CmndLabel | PhoneNumberLabel | SdtLabel

  /** One match of a label expression: `group(0)` and `group(1)`. */
  datatype LabelMatch = LabelMatch(whole: string, value: string)

  /** `re.finditer` of a label expression over a text. */
  type LabelFinder = (LabelPattern, string) -> seq<LabelMatch>

  /** The NER pipeline reduced to what the engine keeps of it: the `word` of
      every `PER` entity it reports for a text (an empty list when it fails). */
  type PersonFinder = string -> seq<string>
}
