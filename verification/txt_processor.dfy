/** Plain-text documents (src/txt_processor.py): the file's content is given
    as a string; reading the file is not part of the model. */
module TxtProcessor {
  import opened Text
  import opened Pagination

  /** `process_txt`: one page holding the stripped content, or `[""]` when the
      content is blank. */
  function ProcessTxt(content: string): (pages: seq<string>)
    ensures pages == [Strip(content)]
    ensures pages[0] == "" <==> IsBlank(content)
    ensures Stripped(pages[0]) && IsInfix(pages[0], content)
  {
    var c := Strip(content);
    if c == "" then [""] else [c]
  }

  /** `process_txt_with_pages`, with its own copy of the paragraph split and of
      the pagination loop (the loop is `Pagination.PagesOf`). */
  function ProcessTxtWithPages(content: string, target: int): (pages: seq<string>)
    ensures |pages| > 0
    ensures IsBlank(content) ==> pages == [""]
  {
    var c := Strip(content);
    if c == "" then [""]
    else
      var byBreak := StrippedNonBlank(Split(c, ParagraphBreak));
      var paragraphs := if |byBreak| > 0 then byBreak else StrippedNonBlank(Split(c, "\n"));
      if |paragraphs| == 0 then [c]
      else
        PagesOfSpec(paragraphs, target);
        PagesOf(paragraphs, target)
  }

  /** The paragraphs of a text file: the stripped, non-blank pieces of its
      stripped content between blank lines. */
  function TxtParagraphs(content: string): seq<string>
  {
    StrippedNonBlank(Split(Strip(content), ParagraphBreak))
  }

  /** For non-blank content the paragraph list is never empty (so neither
      fallback is taken), and the pages, rejoined with a blank line, are
      exactly the paragraphs rejoined with a blank line. */
  lemma TxtPagesLossless(content: string, target: int)
    requires !IsBlank(content)
    ensures |TxtParagraphs(content)| > 0
    ensures Join(ProcessTxtWithPages(content, target), ParagraphBreak)
         == Join(TxtParagraphs(content), ParagraphBreak)
    ensures |ProcessTxtWithPages(content, target)| <= |TxtParagraphs(content)|
  {
    var c := Strip(content);
    assert !IsBlank(c) by {
      StripIdempotent(content);
    }
    NonBlankSplitKeepsAPiece(c, ParagraphBreak);
    PagesOfSpec(TxtParagraphs(content), target);
  }

  /** `is_txt_file`: the lower-cased path ends in `.txt`. */
  predicate IsTxtFile(path: string) {
    EndsWithIgnoringCase(path, ".txt")
  }

  /** Case does not matter to the extension test. */
  lemma IsTxtFileIgnoresCase(path: string)
    ensures IsTxtFile(Lower(path)) == IsTxtFile(path)
  {
    LowerIdempotent(path);
  }
}
