/** Saving a translation (src/file_output.py). Creating directories, writing
    files and rendering the PDF are not modelled: the result names the file
    that would be written and what would go into it. Whether the PDF writer
    works (reportlab is installed and the document builds) is a parameter. */
module FileOutput {
  import opened Wrappers
  import opened Text
  import opened Pagination
  import opened TranslationService

  datatype Saved =
    | NothingToSave
    | NotRequested
    | TextFile(path: string, content: string)
    | PdfFile(path: string, paragraphs: seq<string>)

  /** Python's truth value of an optional string: present and non-empty. */
  predicate Given(s: Option<string>) {
    s.Some? && s.value != []
  }

  // ---------------------------------------------------------------------------
  // The PDF body

  /** The paragraphs `save_to_pdf` puts in the document: the stripped,
      non-blank pieces of the content between blank lines, in order. */
  function PdfParagraphs(content: string): (r: seq<string>)
    ensures forall i :: 0 <= i < |r| ==> r[i] != "" && Stripped(r[i])
    ensures r == [] <==> IsBlank(content)
  {
    var parts := Split(content, ParagraphBreak);
    StrippedNonBlankElements(parts);
    NoParagraphIffBlank(content);
    StrippedNonBlank(parts)
  }

  /** The paragraphs follow the pieces between blank lines: each piece
      gives its strip, unless it is blank, in its own place. */
  lemma PdfParagraphsInOrder(content: string, before: seq<string>, p: string, after: seq<string>)
    requires Split(content, ParagraphBreak) == before + [p] + after
    ensures Join(before + [p] + after, ParagraphBreak) == content
    ensures PdfParagraphs(content) == StrippedNonBlank(before) + KeptPiece(p) + StrippedNonBlank(after)
  {
    JoinSplit(content, ParagraphBreak);
    StrippedNonBlankInOrder(before, p, after);
  }

  /** Content has no paragraph exactly when it is blank. */
  lemma NoParagraphIffBlank(content: string)
    ensures StrippedNonBlank(Split(content, ParagraphBreak)) == [] <==> IsBlank(content)
  {
    if IsBlank(content) {
      BlankContentBlankPieces(content);
      StrippedNonBlankEmpty(Split(content, ParagraphBreak));
    } else {
      NonBlankSplitKeepsAPiece(content, ParagraphBreak);
    }
  }

  /** Every piece of blank content is blank. */
  lemma BlankContentBlankPieces(content: string)
    requires IsBlank(content)
    ensures var parts := Split(content, ParagraphBreak);
      forall i :: 0 <= i < |parts| ==> IsBlank(parts[i])
  {
    var parts := Split(content, ParagraphBreak);
    JoinSplit(content, ParagraphBreak);
    forall i | 0 <= i < |parts|
      ensures IsBlank(parts[i])
    {
      BlankJoinHasBlankParts(parts, ParagraphBreak, i);
    }
  }

  /** Every piece of a blank join is blank. */
  lemma {:induction false} BlankJoinHasBlankParts(parts: seq<string>, sep: string, i: nat)
    requires i < |parts|
    requires IsBlank(Join(parts, sep))
    ensures IsBlank(parts[i])
    decreases i
  {
    var joined := Join(parts, sep);
    if |parts| > 1 {
      assert joined == parts[0] + sep + Join(parts[1..], sep);
      assert forall k :: 0 <= k < |parts[0]| ==> parts[0][k] == joined[k];
      var tail := Join(parts[1..], sep);
      assert forall k :: 0 <= k < |tail| ==> tail[k] == joined[|parts[0]| + |sep| + k];
      if i > 0 {
        BlankJoinHasBlankParts(parts[1..], sep, i - 1);
      }
    }
  }

  // ---------------------------------------------------------------------------
  // Paths

  /** The text path of the non-PDF branch: `.txt` is appended only when the
      path does not already end in it, ignoring case. */
  function TextPath(path: string): (r: string)
    ensures EndsWithIgnoringCase(r, ".txt")
    ensures StartsWith(r, path)
    ensures EndsWithIgnoringCase(path, ".txt") <==> r == path
    ensures !EndsWithIgnoringCase(path, ".txt") ==> r == path + ".txt"
  {
    if EndsWithIgnoringCase(path, ".txt") then path
    else
      LowerAppend(path, ".txt");
      assert (path + ".txt")[..|path|] == path;
      path + ".txt"
  }

  /** Lower-casing works piece by piece. */
  lemma LowerAppend(a: string, b: string)
    ensures Lower(a + b) == Lower(a) + Lower(b)
  {
    var l, r := Lower(a + b), Lower(a) + Lower(b);
    forall k | 0 <= k < |l|
      ensures l[k] == r[k]
    {
      if k < |a| {
        assert (a + b)[k] == a[k];
      } else {
        assert (a + b)[k] == b[k - |a|];
      }
    }
  }

  /** Completing a text path twice completes it once. */
  lemma TextPathIdempotent(path: string)
    ensures TextPath(TextPath(path)) == TextPath(path)
  {
  }

  /** The path of the text file written when the PDF cannot be produced:
      `output_path.replace('.pdf', '.txt')`, which is case-sensitive and
      replaces every occurrence, not only the extension. */
  function FallbackPath(path: string): (r: string)
    ensures !Contains(path, ".pdf") ==> r == path
  {
    ReplaceAll(path, ".pdf", ".txt")
  }

  /** Every `.pdf` is replaced, not only the first or the last: the text
      before the first occurrence is kept, that occurrence becomes `.txt`, and
      the replacement goes on in the rest of the path. */
  lemma {:induction false} FallbackReplacesEach(before: string, after: string)
    requires !Contains(before, ".pdf")
    ensures FallbackPath(before + ".pdf" + after) == before + ".txt" + FallbackPath(after)
    decreases |before|
  {
    var s := before + ".pdf" + after;
    if before == [] {
      assert s[..4] == ".pdf";
      assert s[4..] == after;
    } else {
      NotPdfAtHead(before, after);
      PdfFreeTail(before);
      assert s[1..] == before[1..] + ".pdf" + after;
      calc {
        FallbackPath(s);
        [s[0]] + FallbackPath(s[1..]);
        { FallbackReplacesEach(before[1..], after); }
        [before[0]] + (before[1..] + ".txt" + FallbackPath(after));
        { assert before == [before[0]] + before[1..]; }
        before + ".txt" + FallbackPath(after);
      }
    }
  }

  /** A non-empty path with no `.pdf` in it does not start a `.pdf`
      occurrence when `.pdf` follows it. */
  lemma NotPdfAtHead(before: string, after: string)
    requires before != [] && !Contains(before, ".pdf")
    ensures (before + ".pdf" + after)[..4] != ".pdf"
  {
    if |before| >= 4 {
      assert Window(before, 0, 4) == (before + ".pdf" + after)[..4];
    } else {
      NoBorder(before, after);
    }
  }

  /** Dropping the first character keeps a path free of `.pdf`. */
  lemma PdfFreeTail(before: string)
    requires before != [] && !Contains(before, ".pdf")
    ensures !Contains(before[1..], ".pdf")
  {
    forall k: nat | k + 4 <= |before[1..]|
      ensures Window(before[1..], k, 4) != ".pdf"
    {
      assert Window(before[1..], k, 4) == Window(before, k + 1, 4);
    }
  }

  /** When `.pdf` occurs only as the extension, the fallback swaps the
      extension for `.txt` and keeps the rest of the path. */
  lemma FallbackOfStem(stem: string)
    requires !Contains(stem, ".pdf")
    ensures FallbackPath(stem + ".pdf") == stem + ".txt"
  {
    FallbackReplacesEach(stem, []);
    assert stem + ".pdf" + [] == stem + ".pdf";
    assert FallbackPath([]) == [];
  }

  /** `.pdf` does not overlap itself, so a short non-empty stem cannot make
      `stem + ".pdf" + rest` start with `.pdf`. */
  lemma NoBorder(stem: string, rest: string)
    requires 0 < |stem| < 4
    ensures (stem + ".pdf" + rest)[..4] != ".pdf"
  {
    var s := stem + ".pdf" + rest;
    var n := |stem|;
    assert s[..4][n] == '.';
    assert ".pdf"[n] != '.';
  }

  /** An upper-case `.PDF` extension is not replaced: the fallback text goes
      to the very path the PDF was meant for. */
  lemma UpperCaseExtensionKept(stem: string)
    requires '.' !in stem
    ensures FallbackPath(stem + ".PDF") == stem + ".PDF"
  {
    var s := stem + ".PDF";
    forall k: nat | k + 4 <= |s|
      ensures Window(s, k, 4) != ".pdf"
    {
      if k < |stem| {
        assert Window(s, k, 4)[0] == stem[k];
      } else {
        assert Window(s, k, 4)[1] == 'P';
      }
    }
  }

  // ---------------------------------------------------------------------------
  // Routing

  /** The output path `save_translation_output` settles on: the output file
      when given, else the generated name when auto-saving an input file,
      else none. */
  function Target(inputFile: Option<string>, outputFile: Option<string>, autoSave: bool,
                  sourceLang: string, targetLang: string,
                  generateOutputFilename: (string, string, string, string) -> string): (r: Option<string>)
    ensures Given(outputFile) ==> r == outputFile
    ensures !Given(outputFile) && autoSave && Given(inputFile)
            ==> r == Some(generateOutputFilename(inputFile.value, sourceLang, targetLang, ".txt"))
    ensures r.None? <==> !Given(outputFile) && !(autoSave && Given(inputFile))
  {
    if Given(outputFile) then outputFile
    else if autoSave && Given(inputFile) then
      Some(generateOutputFilename(inputFile.value, sourceLang, targetLang, ".txt"))
    else None
  }

  /** The write `save_translation_output` makes once it has a path: a
      `.pdf` path (ignoring case) gets the PDF, or the text at the fallback
      path when the PDF writer fails; any other path gets the text, with
      `.txt` appended when missing. */
  function SaveToPath(content: string, path: string, pdfWriterWorks: bool): (r: Saved)
    ensures r.PdfFile? || r.TextFile?
    ensures r.PdfFile? <==> EndsWithIgnoringCase(path, ".pdf") && pdfWriterWorks
    ensures r.PdfFile? ==> r.path == path && r.paragraphs == PdfParagraphs(content)
    ensures r.PdfFile? ==> (r.paragraphs == [] <==> IsBlank(content))
    ensures r.TextFile? ==> r.content == content
    ensures r.TextFile? && EndsWithIgnoringCase(path, ".pdf") ==> r.path == FallbackPath(path)
    ensures r.TextFile? && !EndsWithIgnoringCase(path, ".pdf") ==>
      r.path == TextPath(path) && EndsWithIgnoringCase(r.path, ".txt") && StartsWith(r.path, path) && |r.path| <= |path| + 4
  {
    if EndsWithIgnoringCase(path, ".pdf") then
      if pdfWriterWorks then PdfFile(path, PdfParagraphs(content))
      else TextFile(FallbackPath(path), content)
    else TextFile(TextPath(path), content)
  }

  /** `save_translation_output`: blank content saves nothing, and without a
      target nothing is saved. */
  function SaveTranslationOutput(content: string, inputFile: Option<string>, outputFile: Option<string>,
                                 autoSave: bool, sourceLang: string, targetLang: string,
                                 generateOutputFilename: (string, string, string, string) -> string,
                                 pdfWriterWorks: bool): (r: Saved)
    ensures r == NothingToSave <==> IsBlank(content)
    ensures var target := Target(inputFile, outputFile, autoSave, sourceLang, targetLang, generateOutputFilename);
      && (r == NotRequested <==> !IsBlank(content) && target.None?)
      && (!IsBlank(content) && target.Some? ==> r == SaveToPath(content, target.value, pdfWriterWorks))
  {
    if IsBlank(content) then NothingToSave
    else
      match Target(inputFile, outputFile, autoSave, sourceLang, targetLang, generateOutputFilename)
      case None => NotRequested
      case Some(path) => SaveToPath(content, path, pdfWriterWorks)
  }

  /** The format `translate_document` reports and the file actually saved
      agree, except that auto-saving without an input file reports `txt`
      but saves nothing, and an auto-saved file goes wherever the generated
      name says. */
  lemma FormatAgreesWithSave(content: string, inputFile: Option<string>, outputFile: Option<string>,
                             autoSave: bool, sourceLang: string, targetLang: string,
                             generateOutputFilename: (string, string, string, string) -> string,
                             pdfWriterWorks: bool)
    requires !IsBlank(content)
    ensures var r := SaveTranslationOutput(content, inputFile, outputFile, autoSave, sourceLang, targetLang,
                                           generateOutputFilename, pdfWriterWorks);
      match SelectOutputFormat(outputFile, autoSave)
      case PdfFormat =>
        r == (if pdfWriterWorks then PdfFile(outputFile.value, PdfParagraphs(content))
              else TextFile(FallbackPath(outputFile.value), content))
      case TxtFormat =>
        if Given(outputFile) then r == TextFile(outputFile.value, content)
        else if Given(inputFile)
        then r == SaveToPath(content, generateOutputFilename(inputFile.value, sourceLang, targetLang, ".txt"),
                             pdfWriterWorks)
        else r == NotRequested
      case FileFormat => r == TextFile(outputFile.value + ".txt", content)
      case Console => r == NotRequested
  {
    if Given(outputFile) {
      assert outputFile == Some(outputFile.value);
      NamedOutputSaved(content, inputFile, outputFile.value, autoSave, sourceLang, targetLang,
                       generateOutputFilename, pdfWriterWorks);
    }
  }

  /** With an output file named, the format and the saved file agree. */
  lemma NamedOutputSaved(content: string, inputFile: Option<string>, name: string,
                         autoSave: bool, sourceLang: string, targetLang: string,
                         generateOutputFilename: (string, string, string, string) -> string,
                         pdfWriterWorks: bool)
    requires !IsBlank(content) && name != []
    ensures var r := SaveTranslationOutput(content, inputFile, Some(name), autoSave, sourceLang, targetLang,
                                           generateOutputFilename, pdfWriterWorks);
      match SelectOutputFormat(Some(name), autoSave)
      case PdfFormat =>
        r == (if pdfWriterWorks then PdfFile(name, PdfParagraphs(content))
              else TextFile(FallbackPath(name), content))
      case TxtFormat => r == TextFile(name, content)
      case FileFormat => r == TextFile(name + ".txt", content)
      case Console => false
  {
    PdfAndTxtExclusive(name);
  }

  /** Auto-saving an input file with no output file writes the text under the
      generated name, when the generator keeps the `.txt` extension it is
      asked for. */
  lemma AutoSaveWritesGeneratedName(content: string, input: string, sourceLang: string, targetLang: string,
                                    generateOutputFilename: (string, string, string, string) -> string,
                                    pdfWriterWorks: bool)
    requires !IsBlank(content) && input != []
    requires EndsWithIgnoringCase(generateOutputFilename(input, sourceLang, targetLang, ".txt"), ".txt")
    ensures SaveTranslationOutput(content, Some(input), None, true, sourceLang, targetLang,
                                  generateOutputFilename, pdfWriterWorks)
            == TextFile(generateOutputFilename(input, sourceLang, targetLang, ".txt"), content)
  {
    PdfAndTxtExclusive(generateOutputFilename(input, sourceLang, targetLang, ".txt"));
  }
}
