/** The text side of src/pdf_processor.py: the numbered-content detector, the
    prompt composed for one page (`generate_process_text`) and the cleaning of
    extracted text (`PDFProcessor._clean_text`). The pdfminer layout walk is
    not modelled. Regular expressions are written out as the character
    patterns they match, with `\d` read as the ASCII digits and `\s` as
    Python's whitespace set. */
module PdfProcessor {
  import opened Wrappers
  import opened Text

  // ---------------------------------------------------------------------------
  // Character patterns

  /** `s[i..j]` is a non-empty run of digits. */
  predicate DigitsBetween(s: string, i: int, j: int) {
    0 <= i < j <= |s| && forall k :: i <= k < j ==> IsDigit(s[k])
  }

  /** `\d+c` matches ending at `i + 1`: a digit at `i` followed by `c`. */
  predicate DigitFollowedBy(s: string, i: int, c: char) {
    0 <= i && i + 1 < |s| && IsDigit(s[i]) && s[i + 1] == c
  }

  /** `open\d+close` matches at `i`, with the closing character at `j`. */
  predicate EnclosedNumber(s: string, i: int, j: int, open: char, close: char) {
    0 <= i < j < |s| && s[i] == open && s[j] == close && DigitsBetween(s, i + 1, j)
  }

  const FullwidthSpace: char := '\U{3000}'
  const FullwidthOpen: char := '\U{FF08}'
  const FullwidthClose: char := '\U{FF09}'
  const IdeographicComma: char := '\U{3001}'

  /** The circled numerals one to ten. */
  predicate IsCircledNumeral(c: char) {
    '\U{2460}' <= c <= '\U{2469}'
  }

  /** The Chinese numerals one to five. */
  predicate IsChineseNumeral(c: char) {
    c == '\U{4E00}' || c == '\U{4E8C}' || c == '\U{4E09}' || c == '\U{56DB}' || c == '\U{4E94}'
  }

  /** `\d+\.\s+[^\d]`: since whitespace is never a digit, a match exists
      exactly when a digit, a dot, a whitespace character and a non-digit
      follow each other. */
  predicate DottedItemAt(s: string, i: int) {
    0 <= i && i + 3 < |s| && IsDigit(s[i]) && s[i + 1] == '.' && s[i + 2] in Whitespace
    && !IsDigit(s[i + 3])
  }

  /** `\d+\s+[^\d]`: a digit, a whitespace character and a non-digit. */
  predicate SpacedItemAt(s: string, i: int) {
    0 <= i && i + 2 < |s| && IsDigit(s[i]) && s[i + 1] in Whitespace && !IsDigit(s[i + 2])
  }

  /** The patterns of `detect_numbered_content` that are anchored at one position. */
  predicate NumberMarkAt(s: string, i: int) {
    || DottedItemAt(s, i)
    || DigitFollowedBy(s, i, FullwidthSpace)
    || SpacedItemAt(s, i)
    || DigitFollowedBy(s, i, FullwidthClose)
    || (0 <= i < |s| && IsCircledNumeral(s[i]))
    || (0 <= i && i + 1 < |s| && IsChineseNumeral(s[i]) && s[i + 1] == IdeographicComma)
  }

  /** The bracketed patterns `\[\d+\]`, `\(\d+\)` and `（\d+）`. */
  predicate BracketedNumberAt(s: string, i: int, j: int) {
    || EnclosedNumber(s, i, j, '[', ']')
    || EnclosedNumber(s, i, j, '(', ')')
    || EnclosedNumber(s, i, j, FullwidthOpen, FullwidthClose)
  }

  /** `^\d+$` under `re.MULTILINE`: `s[i..j]` is a whole line of digits. */
  predicate NumberLine(s: string, i: int, j: int) {
    DigitsBetween(s, i, j) && (i == 0 || s[i - 1] == '\n') && (j == |s| || s[j] == '\n')
  }

  /** `detect_numbered_content`: some listed pattern matches somewhere. */
  predicate DetectNumberedContent(text: string) {
    || (exists i :: 0 <= i < |text| && NumberMarkAt(text, i))
    || (exists i, j :: 0 <= i < j < |text| && BracketedNumberAt(text, i, j))
    || (exists i, j :: 0 <= i < j <= |text| && NumberLine(text, i, j))
  }

  /** A circled numeral anywhere marks the text as numbered. */
  lemma CircledNumeralIsNumbered(text: string, i: int)
    requires 0 <= i < |text| && IsCircledNumeral(text[i])
    ensures DetectNumberedContent(text)
  {
    assert NumberMarkAt(text, i);
  }

  /** So does a bracketed number `[n]`. */
  lemma BracketedNumberIsNumbered(text: string, i: int, j: int)
    requires 0 <= i && i + 1 < j < |text|
    requires text[i] == '[' && text[j] == ']'
    requires forall k :: i < k < j ==> IsDigit(text[k])
    ensures DetectNumberedContent(text)
  {
    assert BracketedNumberAt(text, i, j);
  }

  /** A text with no digit, no circled numeral and no Chinese numeral is
      never taken for numbered content. */
  lemma NoNumeralsNotNumbered(text: string)
    requires forall k :: 0 <= k < |text| ==>
      !IsDigit(text[k]) && !IsCircledNumeral(text[k]) && !IsChineseNumeral(text[k])
    ensures !DetectNumberedContent(text)
  {
    forall i, j | 0 <= i < j <= |text|
      ensures !BracketedNumberAt(text, i, j) && !NumberLine(text, i, j)
    {
      if i + 1 < j {
        assert !IsDigit(text[i + 1]);
      }
      assert !IsDigit(text[i]);
    }
  }

  // ---------------------------------------------------------------------------
  // Source context

  /** Python's `int(x)`: truncation toward zero. */
  function Truncate(x: real): (n: int)
    ensures x >= 0.0 ==> n == x.Floor
    ensures x < 0.0 ==> n == -((-x).Floor)
  {
    if x >= 0.0 then x.Floor else -((-x).Floor)
  }

  /** Python's `s[start:]`: a negative start counts from the end, and a start
      beyond either end is clamped. */
  function SliceFrom(s: string, start: int): (r: string)
    ensures |r| <= |s| && r == s[|s| - |r|..]
    ensures 0 <= start <= |s| ==> |r| == |s| - start
    ensures start > |s| ==> r == []
    ensures -|s| <= start < 0 ==> |r| == -start
    ensures start < -|s| ==> r == s
  {
    if start >= 0 then (if start <= |s| then s[start..] else [])
    else if |s| + start >= 0 then s[|s| + start..]
    else s
  }

  /** The source context of a page: the abstract when there is one,
      otherwise the tail of the previous page that starts
      `int(len(previous_page) * context_percentage)` characters in. */
  function SourceContext(abstractText: string, previousPage: string, contextPercentage: real): (r: string)
    ensures abstractText != [] ==> r == abstractText
    ensures abstractText == [] ==> |r| <= |previousPage| && r == previousPage[|previousPage| - |r|..]
    ensures abstractText == [] && 0.0 <= contextPercentage <= 1.0 ==>
      |r| == |previousPage| - ContextStart(|previousPage|, contextPercentage)
  {
    if abstractText != [] then abstractText
    else SliceFrom(previousPage, Truncate(|previousPage| as real * contextPercentage))
  }

  /** Where the context starts for a proportion between 0 and 1: the floor
      of the scaled length, never past the end. */
  function ContextStart(n: nat, p: real): (start: int)
    requires 0.0 <= p <= 1.0
    ensures start == Truncate(n as real * p)
    ensures 0 <= start <= n
  {
    ScaleDown(n as real, p);
    FloorWithin(n as real * p, n);
    Truncate(n as real * p)
  }

  lemma FloorWithin(x: real, n: nat)
    requires 0.0 <= x <= n as real
    ensures 0 <= Truncate(x) <= n
  {
  }

  lemma ScaleDown(a: real, p: real)
    requires a >= 0.0 && 0.0 <= p <= 1.0
    ensures 0.0 <= a * p <= a
  {
    assert a * (1.0 - p) >= 0.0;
  }

  /** With the default proportion 0.65 and no abstract, the last 35% (rounded
      up) of the previous page is kept. */
  lemma DefaultContextKeepsTail()
    ensures SourceContext("", "0123456789", 0.65) == "6789"
  {
    assert (10.0 * 0.65).Floor == 6;
  }

  // ---------------------------------------------------------------------------
  // Numbering hint

  /** The patterns a translated line is searched for: `\d+\.`, `\d+\)`,
      `（\d+）`, `\[\d+\]`, `\d+　` and `^\d+\s`. */
  predicate LineHasNumber(line: string) {
    || (exists i :: 0 <= i < |line| && LineMarkAt(line, i))
    || (exists i, j :: 0 <= i < j < |line| && LineBracketAt(line, i, j))
    || (exists j :: 0 < j < |line| && LeadingNumber(line, j))
  }

  predicate LineMarkAt(line: string, i: int) {
    DigitFollowedBy(line, i, '.') || DigitFollowedBy(line, i, ')')
    || DigitFollowedBy(line, i, FullwidthSpace)
  }

  predicate LineBracketAt(line: string, i: int, j: int) {
    EnclosedNumber(line, i, j, FullwidthOpen, FullwidthClose) || EnclosedNumber(line, i, j, '[', ']')
  }

  /** The line starts with the digits `line[..j]` followed by whitespace. */
  predicate LeadingNumber(line: string, j: int) {
    DigitsBetween(line, 0, j) && j < |line| && line[j] in Whitespace
  }

  /** `lines[-5:]`. */
  function LastFive(lines: seq<string>): (r: seq<string>)
    ensures |r| == if |lines| < 5 then |lines| else 5
    ensures r == lines[|lines| - |r|..]
  {
    if |lines| <= 5 then lines else lines[|lines| - 5..]
  }

  /** The last numbered line of `lines`, if any. */
  function LastNumberedLine(lines: seq<string>): (r: Option<string>)
    ensures r.None? <==> forall k :: 0 <= k < |lines| ==> !LineHasNumber(lines[k])
    ensures r.Some? ==> exists k :: 0 <= k < |lines| && lines[k] == r.value && LineHasNumber(lines[k])
                                    && forall m :: k < m < |lines| ==> !LineHasNumber(lines[m])
  {
    if |lines| == 0 then None
    else if LineHasNumber(lines[|lines| - 1]) then Some(lines[|lines| - 1])
    else
      var r := LastNumberedLine(lines[..|lines| - 1]);
      assert forall k :: 0 <= k < |lines| - 1 ==> lines[..|lines| - 1][k] == lines[k];
      r
  }

  const HintLead: string := "Previous numbering ended with: "

  /** The final lines of the stripped previous translation that are searched. */
  function TranslatedTail(previousTranslated: string): seq<string> {
    LastFive(Split(Strip(previousTranslated), "\n"))
  }

  /** The continuation hint: present only when a previous translation exists
      and the page looks numbered. */
  function NumberingHint(pageText: string, previousTranslated: string): (r: Option<string>)
    ensures r.Some? ==> previousTranslated != [] && DetectNumberedContent(pageText)
    ensures r.Some? ==> StartsWith(r.value, HintLead)
  {
    if previousTranslated != [] && DetectNumberedContent(pageText) then
      match LastNumberedLine(TranslatedTail(previousTranslated))
      case None => None
      case Some(line) => Some(HintLead + line)
    else None
  }

  /** When it is asked for, the hint quotes the last numbered line among the
      final five lines of the previous translation, and is missing exactly
      when none of them is numbered. */
  lemma NumberingHintQuotesLastNumberedLine(pageText: string, previousTranslated: string)
    requires previousTranslated != [] && DetectNumberedContent(pageText)
    ensures var tail := TranslatedTail(previousTranslated);
      var r := NumberingHint(pageText, previousTranslated);
      && (r.None? <==> forall k :: 0 <= k < |tail| ==> !LineHasNumber(tail[k]))
      && (r.Some? ==> exists k :: 0 <= k < |tail| && LineHasNumber(tail[k]) && r.value == HintLead + tail[k]
                                  && forall m :: k < m < |tail| ==> !LineHasNumber(tail[m]))
  {
    var tail := TranslatedTail(previousTranslated);
    var last := LastNumberedLine(tail);
    assert NumberingHint(pageText, previousTranslated)
        == match last case None => None case Some(line) => Some(HintLead + line);
  }

  // ---------------------------------------------------------------------------
  // Prompt composition

  const PageHeader: string := "--Current Page: \n"
  const ContextHeader: string := "--Context: \n"

  /** The fixed head of every prompt. */
  function PromptHead(pageText: string): string {
    PageHeader + pageText + "\n"
  }

  /** The lines of the context block: the source context when non-empty,
      then the hint when there is one. */
  function ContextParts(sourceContext: string, hint: Option<string>): (parts: seq<string>)
    requires hint.Some? ==> hint.value != []
    ensures |parts| <= 2
    ensures forall k :: 0 <= k < |parts| ==> parts[k] != []
    ensures sourceContext != [] ==> |parts| > 0 && parts[0] == sourceContext
    ensures parts == [] <==> sourceContext == [] && hint.None?
    ensures hint.Some? ==> |parts| == (if sourceContext != [] then 2 else 1) && parts[|parts| - 1] == hint.value
    ensures hint.None? ==> |parts| <= 1
  {
    var tail := match hint case Some(h) => [h] case None => [];
    if sourceContext != [] then [sourceContext] + tail else tail
  }

  /** The page under its header, followed, when there are context lines, by
      the context header and the lines joined with newlines. */
  function Prompt(pageText: string, parts: seq<string>): (r: string)
    ensures StartsWith(r, PromptHead(pageText))
    ensures parts == [] <==> r == PromptHead(pageText)
    ensures parts != [] ==> StartsWith(r, PromptHead(pageText) + ContextHeader + parts[0])
    ensures |parts| == 1 ==> r == PromptHead(pageText) + ContextHeader + parts[0]
    ensures |parts| == 2 ==> r == PromptHead(pageText) + ContextHeader + parts[0] + "\n" + parts[1]
  {
    if parts == [] then PromptHead(pageText)
    else
      var j := Join(parts, "\n");
      JoinStartsWithHead(parts, "\n");
      var lead := PromptHead(pageText) + ContextHeader;
      assert PromptHead(pageText) + (ContextHeader + j) == lead + j;
      StartsWithExtend(lead, j, parts[0]);
      assert |parts| == 2 ==> j == parts[0] + "\n" + parts[1] by {
        if |parts| == 2 {
          assert parts[1..] == [parts[1]];
          assert Join(parts[1..], "\n") == parts[1];
          assert j == parts[0] + "\n" + Join(parts[1..], "\n");
        }
      }
      PromptHead(pageText) + (ContextHeader + j)
  }

  /** `generate_process_text`: the page under a header, then, when there is
      a source context or a numbering hint, a context block holding them one
      per line. `translated_context_percentage` is accepted but unused. */
  function GenerateProcessText(abstractText: string, pageText: string, previousPage: string,
                               contextPercentage: real, previousTranslated: string): (r: string)
    ensures StartsWith(r, PromptHead(pageText))
  {
    Prompt(pageText, ContextParts(SourceContext(abstractText, previousPage, contextPercentage),
                                  NumberingHint(pageText, previousTranslated)))
  }

  /** Without a numbering hint a source context is the whole context block,
      whether or not there is a previous translation. */
  lemma SourceContextAlone(abstractText: string, pageText: string, previousPage: string,
                           contextPercentage: real, previousTranslated: string)
    requires NumberingHint(pageText, previousTranslated).None?
    requires SourceContext(abstractText, previousPage, contextPercentage) != []
    ensures GenerateProcessText(abstractText, pageText, previousPage, contextPercentage, previousTranslated)
         == PromptHead(pageText) + ContextHeader + SourceContext(abstractText, previousPage, contextPercentage)
  {
  }

  /** The prompt is the bare page exactly when there is neither a source
      context nor a numbering hint. */
  lemma PromptWithoutContext(abstractText: string, pageText: string, previousPage: string,
                             contextPercentage: real, previousTranslated: string)
    ensures GenerateProcessText(abstractText, pageText, previousPage, contextPercentage, previousTranslated)
         == PromptHead(pageText)
      <==> SourceContext(abstractText, previousPage, contextPercentage) == []
           && NumberingHint(pageText, previousTranslated).None?
  {
  }

  /** A non-empty abstract opens the context block, whatever the previous page. */
  lemma AbstractOpensContext(abstractText: string, pageText: string, previousPage: string,
                             contextPercentage: real, previousTranslated: string)
    requires abstractText != []
    ensures StartsWith(GenerateProcessText(abstractText, pageText, previousPage, contextPercentage, previousTranslated),
                       PromptHead(pageText) + ContextHeader + abstractText)
  {
  }

  /** A numbering hint closes the prompt: it follows the source context on
      its own line, or opens the context block when there is no source
      context. */
  lemma HintClosesPrompt(abstractText: string, pageText: string, previousPage: string,
                         contextPercentage: real, previousTranslated: string)
    requires NumberingHint(pageText, previousTranslated).Some?
    ensures var sc := SourceContext(abstractText, previousPage, contextPercentage);
      var hint := NumberingHint(pageText, previousTranslated).value;
      var r := GenerateProcessText(abstractText, pageText, previousPage, contextPercentage, previousTranslated);
      && (sc != [] ==> r == PromptHead(pageText) + ContextHeader + sc + "\n" + hint)
      && (sc == [] ==> r == PromptHead(pageText) + ContextHeader + hint)
      && EndsWith(r, hint)
  {
    var sc := SourceContext(abstractText, previousPage, contextPercentage);
    var hint := NumberingHint(pageText, previousTranslated).value;
    var r := GenerateProcessText(abstractText, pageText, previousPage, contextPercentage, previousTranslated);
    var lead := if sc != [] then PromptHead(pageText) + ContextHeader + sc + "\n" else PromptHead(pageText) + ContextHeader;
    assert r == lead + hint;
    assert (lead + hint)[|lead|..] == hint;
  }

  lemma StartsWithExtend(lead: string, s: string, prefix: string)
    requires StartsWith(s, prefix)
    ensures StartsWith(lead + s, lead + prefix)
  {
    assert (lead + s)[..|lead + prefix|] == lead + s[..|prefix|];
  }

  /** Without a previous translation there is no hint: the context block, if
      any, is the source context alone. */
  lemma NoPreviousTranslationNoHint(abstractText: string, pageText: string, previousPage: string,
                                    contextPercentage: real)
    ensures var sc := SourceContext(abstractText, previousPage, contextPercentage);
      GenerateProcessText(abstractText, pageText, previousPage, contextPercentage, [])
        == PromptHead(pageText) + (if sc == [] then [] else ContextHeader + sc)
  {
  }

  lemma JoinStartsWithHead(parts: seq<string>, sep: string)
    requires |parts| > 0
    ensures StartsWith(Join(parts, sep), parts[0])
  {
  }

  // ---------------------------------------------------------------------------
  // Cleaning

  const CidLead: string := "(cid:"

  /** `t` is a whole match of `\(cid:\d+\)`: the lead, one or more digits
      and a closing parenthesis. */
  predicate IsCidRef(t: string) {
    && |t| >= 7 && t[..5] == CidLead && t[|t| - 1] == ')'
    && forall k :: 5 <= k < |t| - 1 ==> IsDigit(t[k])
  }

  /** The length of the `\(cid:\d+\)` match at the start of `s`, if there is
      one; `CidAtStartMatches` states that it is that match. */
  function CidAtStart(s: string): (r: Option<nat>)
    ensures r.Some? ==> 6 < r.value <= |s| && StartsWith(s, CidLead)
  {
    if !StartsWith(s, CidLead) then None
    else
      var n := |TakeDigits(s[5..])|;
      if n > 0 && 5 + n < |s| && s[5 + n] == ')' then Some(6 + n) else None
  }

  /** A prefix of `s` is a whole CID reference exactly when its length is the
      one `CidAtStart` returns. */
  lemma CidAtStartMatches(s: string)
    ensures CidAtStart(s).Some? ==> IsCidRef(s[..CidAtStart(s).value])
    ensures forall n :: 0 <= n <= |s| && IsCidRef(s[..n]) ==> CidAtStart(s) == Some(n)
  {
    if !StartsWith(s, CidLead) {
      assert forall n :: 0 <= n <= |s| && IsCidRef(s[..n]) ==> s[..n][..5] == s[..5];
    } else {
      var d := TakeDigits(s[5..]);
      var n := |d|;
      CidRefLength(s, d);
      if n > 0 && 5 + n < |s| && s[5 + n] == ')' {
        assert forall k :: 5 <= k < 5 + n ==> s[k] == d[k - 5];
        assert IsCidRef(s[..6 + n]);
      }
    }
  }

  /** A match at the start of `s` ends right after the digits that follow the
      lead. */
  lemma CidRefLength(s: string, d: string)
    requires |s| >= 5 && d == TakeDigits(s[5..])
    ensures forall n :: 0 <= n <= |s| && IsCidRef(s[..n]) ==> n == 6 + |d| && s[5 + |d|] == ')'
  {
  }

  /** The longest prefix of digits. */
  function TakeDigits(s: string): (r: string)
    ensures |r| <= |s| && r == s[..|r|]
    ensures forall k :: 0 <= k < |r| ==> IsDigit(r[k])
    ensures |r| < |s| ==> !IsDigit(s[|r|])
  {
    if |s| > 0 && IsDigit(s[0]) then [s[0]] + TakeDigits(s[1..]) else []
  }

  /** `re.sub(r'\(cid:\d+\)', '', s)`: one left-to-right pass that drops
      every non-overlapping CID reference. */
  function RemoveCid(s: string): (r: string)
    ensures |r| <= |s|
    ensures forall c :: c in r ==> c in s
    decreases |s|
  {
    if |s| == 0 then []
    else match CidAtStart(s)
      case Some(n) =>
        var r := RemoveCid(s[n..]);
        assert forall c :: c in s[n..] ==> c in s;
        r
      case None =>
        [s[0]] + RemoveCid(s[1..])
  }

  /** Text without any `(cid:` is left as it is. */
  lemma {:induction false} RemoveCidOfCidFree(s: string)
    requires !Contains(s, CidLead)
    ensures RemoveCid(s) == s
    decreases |s|
  {
    if |s| > 0 {
      assert !StartsWith(s, CidLead) by {
        assert StartsWith(s, CidLead) ==> Window(s, 0, 5) == CidLead;
      }
      assert !Contains(s[1..], CidLead) by {
        forall k: nat | k + 5 <= |s[1..]|
          ensures Window(s[1..], k, 5) != CidLead
        {
          assert Window(s[1..], k, 5) == Window(s, k + 1, 5);
        }
      }
      RemoveCidOfCidFree(s[1..]);
    }
  }

  /** Text without `(` passes through removal unchanged, whatever follows
      it. */
  lemma {:induction false} RemoveCidKeepsParenFree(a: string, b: string)
    requires '(' !in a
    ensures RemoveCid(a + b) == a + RemoveCid(b)
    decreases |a|
  {
    if a == [] {
      assert a + b == b;
    } else {
      assert '(' !in a[1..];
      calc {
        RemoveCid(a + b);
        { RemoveCidPassesChar(a + b); }
        [a[0]] + RemoveCid((a + b)[1..]);
        { assert (a + b)[1..] == a[1..] + b; }
        [a[0]] + RemoveCid(a[1..] + b);
        { RemoveCidKeepsParenFree(a[1..], b); }
        [a[0]] + (a[1..] + RemoveCid(b));
        { assert a == [a[0]] + a[1..]; }
        a + RemoveCid(b);
      }
    }
  }

  /** A character other than `(` cannot open a reference and is kept. */
  lemma RemoveCidPassesChar(s: string)
    requires |s| > 0 && s[0] != '('
    ensures RemoveCid(s) == [s[0]] + RemoveCid(s[1..])
  {
    assert !StartsWith(s, CidLead) by {
      if |s| >= 5 {
        assert s[..5][0] == s[0];
      }
    }
  }

  /** A reference at the front is dropped whole, and removal goes on after
      it. */
  lemma RemoveCidDropsReference(digits: string, b: string)
    requires digits != [] && forall k :: 0 <= k < |digits| ==> IsDigit(digits[k])
    ensures RemoveCid(CidLead + digits + ")" + b) == RemoveCid(b)
  {
    var s := CidLead + digits + ")" + b;
    var n := 6 + |digits|;
    assert s[..n] == CidLead + digits + ")";
    assert IsCidRef(s[..n]);
    CidAtStartMatches(s);
    assert s[n..] == b;
  }

  /** `re.sub` removes a CID reference: the text before the first `(` is kept,
      the reference is dropped, and the rest is cleaned in turn. */
  lemma RemoveCidRemovesReference(a: string, digits: string, b: string)
    requires '(' !in a
    requires digits != [] && forall k :: 0 <= k < |digits| ==> IsDigit(digits[k])
    ensures RemoveCid(a + CidLead + digits + ")" + b) == a + RemoveCid(b)
  {
    assert a + CidLead + digits + ")" + b == a + (CidLead + digits + ")" + b);
    RemoveCidKeepsParenFree(a, CidLead + digits + ")" + b);
    RemoveCidDropsReference(digits, b);
  }

  /** Removal is a single pass: taking out an inner reference can assemble a
      new one from the text around it, which is left in place until a second
      pass. */
  lemma RemoveCidIsSinglePass(s: string)
    requires s == "((cid:1)cid:2)"
    ensures RemoveCid(s) == "(cid:2)"
    ensures RemoveCid(RemoveCid(s)) == ""
  {
    RemoveCidFirstPass(s);
    RemoveAssembledCid(RemoveCid(s));
  }

  lemma RemoveCidFirstPass(s: string)
    requires s == "((cid:1)cid:2)"
    ensures RemoveCid(s) == "(cid:2)"
  {
    NoCidAtDoubleParen(s);
    SliceOfExample(s);
    RemoveInnerCid(s[1..]);
    FirstPassKeepsParen(s, RemoveCid(s[1..]));
    ParenBeforeRest(RemoveCid(s[1..]));
  }

  lemma SliceOfExample(s: string)
    requires s == "((cid:1)cid:2)"
    ensures s[1..] == "(cid:1)cid:2)"
  {
  }

  lemma ParenBeforeRest(rest: string)
    requires rest == "cid:2)"
    ensures "(" + rest == "(cid:2)"
  {
  }

  lemma FirstPassKeepsParen(s: string, rest: string)
    requires s == "((cid:1)cid:2)" && CidAtStart(s) == None && rest == RemoveCid(s[1..])
    ensures RemoveCid(s) == "(" + rest
  {
  }

  lemma NoCidAtDoubleParen(s: string)
    requires s == "((cid:1)cid:2)"
    ensures CidAtStart(s) == None
  {
    assert s[..5] != CidLead by {
      assert s[1] == '(';
    }
  }

  lemma RemoveInnerCid(s: string)
    requires s == "(cid:1)cid:2)"
    ensures RemoveCid(s) == "cid:2)"
  {
    assert s[..5] == CidLead;
    assert s[5..] == "1)cid:2)";
    assert TakeDigits(s[5..]) == "1";
    assert CidAtStart(s) == Some(7);
    var rest := s[7..];
    assert rest == "cid:2)";
    NoCharNoOccurrence(rest, '(');
    OccurrenceNeedsHead(rest, CidLead);
    RemoveCidOfCidFree(rest);
  }

  lemma RemoveAssembledCid(t: string)
    requires t == "(cid:2)"
    ensures RemoveCid(t) == ""
  {
    assert t[..5] == CidLead;
    assert TakeDigits(t[5..]) == "2";
    assert CidAtStart(t) == Some(7);
    assert t[7..] == "";
  }

  const SpaceOrTab: set<char> := {' ', '\t'}

  /** `_clean_text`: empty stays empty; otherwise drop NUL and BOM characters,
      drop CID references in one pass, turn each run of spaces and tabs into
      one space, and strip. */
  function CleanText(text: string): (r: string)
    ensures text == [] ==> r == []
    ensures '\0' !in r && '\U{FEFF}' !in r && '\t' !in r
    ensures forall i :: 0 <= i < |r| - 1 ==> !(r[i] == ' ' && r[i + 1] == ' ')
    ensures Stripped(r)
    ensures forall c :: c in r ==> c in text || c == ' '
  {
    if text == [] then []
    else
      var noNul := ReplaceAll(text, ['\0'], "");
      var noBom := ReplaceAll(noNul, ['\U{FEFF}'], "");
      ReplaceCharByNothing(text, '\0');
      ReplaceCharByNothing(noNul, '\U{FEFF}');
      var noCid := RemoveCid(noBom);
      var collapsed := Collapse(noCid, SpaceOrTab, ' ');
      var r := Strip(collapsed);
      InfixKeepsCollapse(r, collapsed);
      r
  }

  /** A block of a collapsed text is still collapsed and uses no new characters. */
  lemma InfixKeepsCollapse(r: string, s: string)
    requires IsInfix(r, s)
    requires forall i :: 0 <= i < |s| && s[i] in SpaceOrTab ==> s[i] == ' '
    requires forall i :: 0 <= i < |s| - 1 ==> !(s[i] in SpaceOrTab && s[i + 1] in SpaceOrTab)
    ensures forall c :: c in r ==> c in s
    ensures '\t' !in r
    ensures forall i :: 0 <= i < |r| - 1 ==> !(r[i] == ' ' && r[i + 1] == ' ')
  {
    var k: nat :| k + |r| <= |s| && Window(s, k, |r|) == r;
    assert forall i :: 0 <= i < |r| ==> r[i] == s[k + i];
  }

  /** Text that is already clean is left as it is. */
  lemma CleanTextKeepsCleanText(text: string)
    requires '\0' !in text && '\U{FEFF}' !in text && '\t' !in text
    requires !Contains(text, CidLead)
    requires forall i :: 0 <= i < |text| - 1 ==> !(text[i] == ' ' && text[i + 1] == ' ')
    requires Stripped(text)
    ensures CleanText(text) == text
  {
    if text != [] {
      NoCharNoOccurrence(text, '\0');
      NoCharNoOccurrence(text, '\U{FEFF}');
      RemoveCidOfCidFree(text);
      CollapseOfCollapsed(text, SpaceOrTab, ' ');
      TrimOfBare(text, Whitespace);
    }
  }

  lemma NoCharNoOccurrence(s: string, c: char)
    requires c !in s
    ensures !Contains(s, [c])
  {
    forall k: nat | k + 1 <= |s|
      ensures Window(s, k, 1) != [c]
    {
      assert Window(s, k, 1)[0] == s[k];
    }
  }

  /** An occurrence of `sub` contains an occurrence of its first character. */
  lemma OccurrenceNeedsHead(s: string, sub: string)
    requires |sub| > 0 && !Contains(s, sub[..1])
    ensures !Contains(s, sub)
  {
    forall k: nat | k + |sub| <= |s|
      ensures Window(s, k, |sub|) != sub
    {
      assert Window(s, k, |sub|)[..1] == Window(s, k, 1);
    }
  }

  /** Text without NUL or BOM characters whose CID-free form is already
      clean cleans to that form. */
  lemma CleanTextIsRemoveCid(s: string)
    requires s != [] && '\0' !in s && '\U{FEFF}' !in s
    requires '\t' !in RemoveCid(s) && Stripped(RemoveCid(s))
    requires forall i :: 0 <= i < |RemoveCid(s)| - 1 ==> !(RemoveCid(s)[i] == ' ' && RemoveCid(s)[i + 1] == ' ')
    ensures CleanText(s) == RemoveCid(s)
  {
    var t := RemoveCid(s);
    UntouchedByCharRemoval(s);
    CollapseOfCollapsed(t, SpaceOrTab, ' ');
    TrimOfBare(t, Whitespace);
  }

  /** Cleaning is not idempotent, because CID removal is a single pass. */
  lemma CleanTextNotIdempotent(s: string)
    requires s == "((cid:1)cid:2)"
    ensures CleanText(s) == "(cid:2)"
    ensures CleanText(CleanText(s)) == ""
  {
    CleanFirstPass(s);
    CleanSecondPass(CleanText(s));
  }

  lemma CleanFirstPass(s: string)
    requires s == "((cid:1)cid:2)"
    ensures CleanText(s) == "(cid:2)"
  {
    RemoveCidFirstPass(s);
    CidExampleIsCleanable(s, RemoveCid(s));
    CleanTextIsRemoveCid(s);
  }

  lemma CidExampleIsCleanable(s: string, t: string)
    requires s == "((cid:1)cid:2)" && t == "(cid:2)"
    ensures '\0' !in s && '\U{FEFF}' !in s
    ensures '\t' !in t && Stripped(t)
    ensures forall i :: 0 <= i < |t| - 1 ==> t[i] != ' '
  {
  }

  lemma CleanSecondPass(t: string)
    requires t == "(cid:2)"
    ensures CleanText(t) == ""
  {
    RemoveAssembledCid(t);
    assert '\0' !in t && '\U{FEFF}' !in t;
    CleanTextIsRemoveCid(t);
  }

  /** Text free of NUL and BOM characters passes the first two replacements unchanged. */
  lemma UntouchedByCharRemoval(s: string)
    requires '\0' !in s && '\U{FEFF}' !in s
    ensures ReplaceAll(ReplaceAll(s, ['\0'], ""), ['\U{FEFF}'], "") == s
  {
    NoCharNoOccurrence(s, '\0');
    NoCharNoOccurrence(s, '\U{FEFF}');
  }
}
