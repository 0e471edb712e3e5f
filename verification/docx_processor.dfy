/** Word documents (src/docx_processor.py): the document is given as the
    list of its paragraphs' texts; loading it with python-docx is not part of
    the model. */
module DocxProcessor {
  import opened Text
  import opened Pagination
  import TxtProcessor

  /** The paragraphs both entry points keep: stripped, non-empty, in document order. */
  function KeptParagraphs(docParagraphs: seq<string>): (kept: seq<string>)
    ensures forall i :: 0 <= i < |kept| ==> kept[i] != "" && Stripped(kept[i])
    ensures kept == [] <==> forall i :: 0 <= i < |docParagraphs| ==> IsBlank(docParagraphs[i])
  {
    StrippedNonBlankElements(docParagraphs);
    StrippedNonBlankEmpty(docParagraphs);
    StrippedNonBlank(docParagraphs)
  }

  /** Each paragraph of the document is kept, stripped, in its own place
      unless it is blank; a document without paragraphs keeps none. */
  lemma KeptParagraphsInOrder(before: seq<string>, p: string, after: seq<string>)
    ensures KeptParagraphs([]) == []
    ensures KeptParagraphs(before + [p] + after) == KeptParagraphs(before) + KeptPiece(p) + KeptParagraphs(after)
  {
    StrippedNonBlankInOrder(before, p, after);
  }

  /** `process_docx`: the whole document as one page, the kept paragraphs
      joined by a blank line, or `[""]` when none is kept. */
  function ProcessDocx(docParagraphs: seq<string>): (pages: seq<string>)
    ensures |pages| == 1
    ensures pages[0] == "" <==> forall i :: 0 <= i < |docParagraphs| ==> IsBlank(docParagraphs[i])
  {
    var kept := KeptParagraphs(docParagraphs);
    if |kept| > 0 then
      assert |Join(kept, ParagraphBreak)| >= |kept[0]| by {
        if |kept| > 1 {
          assert Join(kept, ParagraphBreak) == kept[0] + ParagraphBreak + Join(kept[1..], ParagraphBreak);
        }
      }
      [Join(kept, ParagraphBreak)]
    else [""]
  }

  /** `process_docx_with_pages`: never empty, `[""]` when no paragraph is
      kept, and rejoining the pages gives back the kept paragraphs. */
  function ProcessDocxWithPages(docParagraphs: seq<string>, target: int): (pages: seq<string>)
    ensures |pages| > 0
    ensures KeptParagraphs(docParagraphs) == [] ==> pages == [""]
    ensures Join(pages, ParagraphBreak) == Join(KeptParagraphs(docParagraphs), ParagraphBreak)
  {
    var kept := KeptParagraphs(docParagraphs);
    if |kept| == 0 then [""]
    else
      PagesOfSpec(kept, target);
      PagesOf(kept, target)
  }

  /** The single-page reading is the paged reading rejoined, whatever the target. */
  lemma SinglePageIsRejoinedPages(docParagraphs: seq<string>, target: int)
    ensures ProcessDocx(docParagraphs) == [Join(ProcessDocxWithPages(docParagraphs, target), ParagraphBreak)]
  {
  }

  /** `is_docx_file`: the lower-cased path ends in `.docx` or `.doc`. */
  predicate IsDocxFile(path: string) {
    EndsWithIgnoringCase(path, ".docx") || EndsWithIgnoringCase(path, ".doc")
  }

  /** No path is taken for both a text file and a Word document. */
  lemma TxtAndDocxDisjoint(path: string)
    ensures !(IsDocxFile(path) && TxtProcessor.IsTxtFile(path))
  {
    var l := Lower(path);
    if TxtProcessor.IsTxtFile(path) {
      assert l[|l| - 1] == 't';
    }
  }
}
