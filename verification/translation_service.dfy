/** The translation driver (src/translation_service.py): model selection, the
    classification of API errors, the split-and-retranslate loop of
    `generate_text` and the page loop of `translate_document`.

    The chat-completion call is an abstract oracle from a request to a reply;
    page extraction from the PDF is not modelled, so a document is the list of
    its already extracted page texts. */
module TranslationService {
  import opened Wrappers
  import opened Text
  import opened Config
  import opened PdfProcessor

  // ---------------------------------------------------------------------------
  // Model selection

  /** `_get_model` over the list `get_available_models()` returns (that
      function is not part of this model, so the list is a parameter). On an
      empty list the source fails indexing it: `None`. */
  function GetModel(available: seq<string>): (r: Option<string>)
    ensures r.None? <==> available == []
    ensures r.Some? ==> r.value in available
    ensures r.Some? && r.value != DefaultModel ==> DefaultModel !in available && r.value == available[0]
  {
    if DefaultModel in available then Some(DefaultModel)
    else if available == [] then None
    else Some(available[0])
  }

  /** The default model is preferred whenever it is offered; with the
      configured list it is the one chosen. */
  lemma DefaultModelPreferred(available: seq<string>)
    ensures DefaultModel in available <==> GetModel(available) == Some(DefaultModel)
    ensures GetModel(AvailableModels) == Some(DefaultModel)
  {
    assert AvailableModels[2] == DefaultModel;
  }

  // ---------------------------------------------------------------------------
  // Error classification

  /** What `_handle_translation_error` returns instead of raising, and what the
      loop below recognises as "this part is too long". */
  const Sentinel: string := "context_length_exceeded"

  datatype ErrorKind = ContextLength | RateLimit | InvalidRequest | Authentication | OtherError

  predicate Mentions(message: string, keyword: string) {
    Contains(Lower(message), keyword)
  }

  /** The branches of `_handle_translation_error`, tried in order on the
      lower-cased message. */
  function Classify(message: string): (k: ErrorKind)
    ensures k == ContextLength <==> Mentions(message, "context_length_exceeded") || Mentions(message, "maximum context length")
    ensures k == RateLimit <==> k != ContextLength && Mentions(message, "rate_limit")
    ensures k == InvalidRequest <==> k !in {ContextLength, RateLimit} && Mentions(message, "invalid_request")
    ensures k == Authentication <==> k !in {ContextLength, RateLimit, InvalidRequest}
                                     && (Mentions(message, "authentication") || Mentions(message, "unauthorized"))
  {
    if Mentions(message, "context_length_exceeded") || Mentions(message, "maximum context length") then ContextLength
    else if Mentions(message, "rate_limit") then RateLimit
    else if Mentions(message, "invalid_request") then InvalidRequest
    else if Mentions(message, "authentication") || Mentions(message, "unauthorized") then Authentication
    else OtherError
  }

  /** The text the re-raised exception puts before the original message. */
  function RaisedPrefix(kind: ErrorKind, errorType: string): string {
    match kind
    case RateLimit => "Rate limit exceeded: "
    case InvalidRequest => "Invalid request: "
    case Authentication => "Authentication error: "
    case _ => "API call failed with " + errorType + ": "
  }

  /** `_handle_translation_error` for an exception of class `errorType` whose
      text is `message`: the sentinel for an over-long context, otherwise the
      message of the exception it raises. */
  function HandleTranslationError(errorType: string, message: string): (r: Result<string, string>)
    ensures r.Ok? <==> Mentions(message, "context_length_exceeded") || Mentions(message, "maximum context length")
    ensures r.Ok? ==> r.value == Sentinel
    ensures r.Err? ==> EndsWith(r.error, message)
  {
    var kind := Classify(message);
    if kind == ContextLength then Ok(Sentinel)
    else
      var prefix := RaisedPrefix(kind, errorType);
      assert (prefix + message)[|prefix|..] == message;
      Err(prefix + message)
  }

  /** Reads the class of a raised error back from its text. */
  function KindOfRaised(raised: string): Option<ErrorKind> {
    if StartsWith(raised, "Rate limit exceeded: ") then Some(RateLimit)
    else if StartsWith(raised, "Invalid request: ") then Some(InvalidRequest)
    else if StartsWith(raised, "Authentication error: ") then Some(Authentication)
    else if StartsWith(raised, "API call failed with ") then Some(OtherError)
    else None
  }

  /** The raised text tells which branch raised it: the classes are
      distinguished by their prefixes, whatever the exception class. */
  lemma RaisedTextNamesKind(errorType: string, message: string)
    requires Classify(message) != ContextLength
    ensures KindOfRaised(HandleTranslationError(errorType, message).error) == Some(Classify(message))
  {
    PrefixNamesKind(Classify(message), errorType, message);
  }

  lemma PrefixNamesKind(kind: ErrorKind, errorType: string, message: string)
    requires kind != ContextLength
    ensures KindOfRaised(RaisedPrefix(kind, errorType) + message) == Some(kind)
  {
    var raised := RaisedPrefix(kind, errorType) + message;
    match kind
    case RateLimit =>
      OpensWith("Rate limit exceeded: ", message);
    case InvalidRequest =>
      OpensWith("Invalid request: ", message);
      DiffersAt(raised, "Rate limit exceeded: ", 0);
    case Authentication =>
      OpensWith("Authentication error: ", message);
      DiffersAt(raised, "Rate limit exceeded: ", 0);
      DiffersAt(raised, "Invalid request: ", 0);
    case OtherError =>
      assert raised == "API call failed with " + (errorType + ": " + message);
      OpensWith("API call failed with ", errorType + ": " + message);
      DiffersAt(raised, "Rate limit exceeded: ", 0);
      DiffersAt(raised, "Invalid request: ", 0);
      DiffersAt(raised, "Authentication error: ", 1);
  }

  /** A text opens with what was put in front of it. */
  lemma OpensWith(head: string, rest: string)
    ensures StartsWith(head + rest, head)
    ensures forall k :: 0 <= k < |head| ==> (head + rest)[k] == head[k]
  {
    assert (head + rest)[..|head|] == head;
  }

  /** A text whose `k`-th character differs from the prefix's does not start
      with it. */
  lemma DiffersAt(s: string, prefix: string, k: nat)
    requires k < |prefix| && k < |s| && s[k] != prefix[k]
    ensures !StartsWith(s, prefix)
  {
  }

  /** Only the letter case of the message is ignored: messages equal up to
      ASCII case are classified alike. */
  lemma ClassifyIgnoresCase(a: string, b: string)
    requires Lower(a) == Lower(b)
    ensures Classify(a) == Classify(b)
  {
  }

  /** A message reporting an over-long context is never raised, whatever
      else it mentions. */
  lemma ContextLengthWins(errorType: string, message: string)
    requires Mentions(message, "maximum context length")
    ensures HandleTranslationError(errorType, message) == Ok(Sentinel)
  {
  }

  // ---------------------------------------------------------------------------
  // One API call

  /** The `output_format` argument threaded to the prompt. */
  datatype OutputFormat = PdfFormat | TxtFormat | FileFormat | Console

  /** What is sent for one call: the prompt formatting choice and the text. */
  datatype Request = Request(format: OutputFormat, text: string)

  /** What a call gives back: message content, a reply without content, or
      an exception with its class name and text. */
  datatype Reply = Content(text: string) | NoContent | Failure(errorType: string, message: string)

  /** `translate_text`, with the usage report recorded through the tracker's
      own signature (`TokenTracker.RecordUsage`), which cannot fail: the
      content of the reply, `""` for a reply without content, and a failure
      passed through `_handle_translation_error`. */
  function TranslateText(oracle: Request -> Reply, format: OutputFormat, text: string): (r: Result<string, string>)
    ensures var reply := oracle(Request(format, text));
      && (r.Err? <==> reply.Failure? && Classify(reply.message) != ContextLength)
      && (r.Ok? && reply.Content? ==> r.value == reply.text)
      && (r.Ok? && reply.Failure? ==> r.value == Sentinel)
      && (reply.NoContent? ==> r == Ok(""))
  {
    match oracle(Request(format, text))
    case Content(t) => Ok(t)
    case NoContent => Ok("")
    case Failure(errorType, message) => HandleTranslationError(errorType, message)
  }

  /** `translate_page_text`: the prompt of `generate_process_text` with the
      configured context share. No previous translation is passed. */
  function TranslatePageText(oracle: Request -> Reply, format: OutputFormat, abstractText: string,
                             pageText: string, previousPage: string): Result<string, string>
  {
    TranslateText(oracle, format, GenerateProcessText(abstractText, pageText, previousPage, ContextPercentage, ""))
  }

  /** `translate_page_text` over `translate_text` as written. */
  function TranslatePageTextAsWritten(oracle: Request -> Reply, reportsUsage: Request -> bool, format: OutputFormat,
                                      abstractText: string, pageText: string, previousPage: string)
    : Result<string, string>
  {
    TranslateTextAsWritten(oracle, reportsUsage, format,
                           GenerateProcessText(abstractText, pageText, previousPage, ContextPercentage, ""))
  }

  /** Because no previous translation reaches it, the prompt of a page never
      carries a numbering hint: it is the page, followed by the source
      context when there is one. */
  lemma PagePromptHasNoHint(oracle: Request -> Reply, format: OutputFormat, abstractText: string,
                            pageText: string, previousPage: string)
    ensures var sc := SourceContext(abstractText, previousPage, ContextPercentage);
      TranslatePageText(oracle, format, abstractText, pageText, previousPage)
        == TranslateText(oracle, format, PromptHead(pageText) + (if sc == [] then [] else ContextHeader + sc))
  {
    NoPreviousTranslationNoHint(abstractText, pageText, previousPage, ContextPercentage);
  }

  // ---------------------------------------------------------------------------
  // Recording usage inside the call

  /** The text of the `TypeError` raised by calling `record_usage` with the
      keyword argument `requested_model`, which its signature does not have.
      It is written in pieces so that `TypeErrorHasNoHOrI` can take it apart. */
  const RecordUsageTypeError: string :=
    "TokenTracker.record_usage()" + " got an unexpected" + " keyword argument" + " 'requested_model'"

  /** `translate_text` as written. When the reply reports token usage
      (`reportsUsage`), the recording call raises the `TypeError` above
      inside the `try`, and the handler turns it into the failure of the
      whole call. */
  function TranslateTextAsWritten(oracle: Request -> Reply, reportsUsage: Request -> bool,
                                  format: OutputFormat, text: string): (r: Result<string, string>)
    ensures var request := Request(format, text);
      !reportsUsage(request) || oracle(request).Failure? ==> r == TranslateText(oracle, format, text)
  {
    var request := Request(format, text);
    if reportsUsage(request) && !oracle(request).Failure? then
      HandleTranslationError("TypeError", RecordUsageTypeError)
    else
      TranslateText(oracle, format, text)
  }

  /** A reply with content and a usage report fails as written, with the text
      of the re-raised `TypeError`, whereas the corrected call returns the
      content. */
  lemma UsageReportFailsTranslation(oracle: Request -> Reply, reportsUsage: Request -> bool,
                                    format: OutputFormat, text: string, content: string)
    requires oracle(Request(format, text)) == Content(content) && reportsUsage(Request(format, text))
    ensures TranslateTextAsWritten(oracle, reportsUsage, format, text)
         == Err("API call failed with TypeError: " + RecordUsageTypeError)
    ensures TranslateText(oracle, format, text) == Ok(content)
  {
    TypeErrorIsOtherError();
    assert "API call failed with " + "TypeError" + ": " == "API call failed with TypeError: ";
  }

  /** None of the keywords of `_handle_translation_error` occurs in the
      `TypeError` text: each has an `h` or an `i`, and the text has neither. */
  lemma TypeErrorIsOtherError()
    ensures Classify(RecordUsageTypeError) == OtherError
  {
    TypeErrorHasNoHOrI();
    var lowered := Lower(RecordUsageTypeError);
    AbsentCharNotContained(lowered, "context_length_exceeded", 13);
    AbsentCharNotContained(lowered, "maximum context length", 21);
    AbsentCharNotContained(lowered, "rate_limit", 6);
    AbsentCharNotContained(lowered, "invalid_request", 0);
    AbsentCharNotContained(lowered, "authentication", 3);
    AbsentCharNotContained(lowered, "unauthorized", 5);
  }

  /** No letter `h` or `i`, in either case. */
  predicate NoHOrI(s: string) {
    forall k :: 0 <= k < |s| ==> s[k] != 'h' && s[k] != 'H' && s[k] != 'i' && s[k] != 'I'
  }

  lemma TypeErrorHasNoHOrI()
    ensures 'h' !in Lower(RecordUsageTypeError) && 'i' !in Lower(RecordUsageTypeError)
  {
    var a, b, c, d := "TokenTracker.record_usage()", " got an unexpected", " keyword argument", " 'requested_model'";
    PiecesHaveNoHOrI(a, b, c, d);
    NoHOrIConcat(a, b);
    NoHOrIConcat(a + b, c);
    NoHOrIConcat(a + b + c, d);
    var lowered := Lower(a + b + c + d);
    forall k | 0 <= k < |lowered|
      ensures lowered[k] != 'h' && lowered[k] != 'i'
    {
    }
  }

  lemma PiecesHaveNoHOrI(a: string, b: string, c: string, d: string)
    requires a == "TokenTracker.record_usage()" && b == " got an unexpected"
    requires c == " keyword argument" && d == " 'requested_model'"
    ensures NoHOrI(a) && NoHOrI(b) && NoHOrI(c) && NoHOrI(d)
  {
  }

  lemma NoHOrIConcat(a: string, b: string)
    requires NoHOrI(a) && NoHOrI(b)
    ensures NoHOrI(a + b)
  {
    forall k | 0 <= k < |a + b|
      ensures (a + b)[k] == if k < |a| then a[k] else b[k - |a|]
    {
    }
  }

  /** A keyword with a character the text lacks does not occur in it. */
  lemma AbsentCharNotContained(s: string, sub: string, j: nat)
    requires j < |sub| && sub[j] !in s
    ensures !Contains(s, sub)
  {
    forall k: nat | k + |sub| <= |s|
      ensures Window(s, k, |sub|) != sub
    {
      assert Window(s, k, |sub|)[j] == s[k + j];
    }
  }

  // ---------------------------------------------------------------------------
  // Splitting a part that is too long

  /** The cut at `len(part) // 2`. */
  function Bisect(part: string): (halves: (string, string))
    ensures halves.0 + halves.1 == part
    ensures |halves.0| == |part| / 2
    ensures |part| >= 2 ==> |halves.0| < |part| && |halves.1| < |part|
  {
    (part[..|part| / 2], part[|part| / 2..])
  }

  /** The cut makes no progress on a part shorter than two characters: it
      yields an empty left half and the part itself. */
  lemma BisectShort(part: string)
    requires |part| < 2
    ensures Bisect(part) == ("", part)
  {
  }

  // ---------------------------------------------------------------------------
  // The loop of `generate_text`

  /** How a run ends: with its results, with a raised error, or not within
      the number of iterations it was allowed. */
  datatype Run<T> = Finished(value: T) | Raised(message: string) | Exhausted

  /** Run `a` and then, if it finished, `b`, keeping both result lists. */
  function Then(a: Run<seq<string>>, b: Run<seq<string>>): (r: Run<seq<string>>)
    ensures r.Finished? <==> a.Finished? && b.Finished?
    ensures r.Finished? ==> r.value == a.value + b.value
    ensures r == Exhausted <==> a == Exhausted || (a.Finished? && b == Exhausted)
  {
    match a
    case Finished(x) => (match b case Finished(y) => Finished(x + y) case _ => b)
    case _ => a
  }

  lemma ThenAssociates(a: Run<seq<string>>, b: Run<seq<string>>, c: Run<seq<string>>)
    ensures Then(Then(a, b), c) == Then(a, Then(b, c))
  {
    if a.Finished? && b.Finished? && c.Finished? {
      assert (a.value + b.value) + c.value == a.value + (b.value + c.value);
    }
  }

  /** The line recorded for a part whose translation came back empty. */
  function ErrorMarker(pageNum: int): string {
    "\n***Translation error on page " + IntToString(pageNum + 1) + ".***\n"
  }

  /** What is kept for a translated part: the translation, or the marker when
      it is empty. */
  function Emit(translated: string, pageNum: int): (line: string)
    ensures line != []
    ensures translated != [] ==> line == translated
    ensures translated == [] ==> line == ErrorMarker(pageNum)
  {
    if translated == [] then ErrorMarker(pageNum) else translated
  }

  /** Which half of a cut part the `while parts_to_translate` loop takes
      next. The code pushes `[left, right]` and pops from the end, so as
      written the right half is taken first; the evident intent is the left
      half first, so that the page keeps its reading order. */
  datatype Order = LeftFirst | RightFirst

  /** The halves of a cut part in the order the loop takes them. */
  function Taken(order: Order, halves: (string, string)): (r: (string, string))
    ensures order == LeftFirst ==> r == halves
    ensures order == RightFirst ==> r == (halves.1, halves.0)
  {
    if order == LeftFirst then halves else (halves.1, halves.0)
  }

  /** The work list after a cut: the half taken next goes at the end. As
      written (`RightFirst`) this is `extend([left, right])`. */
  function PushHalves(order: Order, rest: seq<string>, halves: (string, string)): (s: seq<string>)
    ensures order == RightFirst ==> s == rest + [halves.0, halves.1]
    ensures |s| == |rest| + 2 && s[..|rest|] == rest
    ensures s[|s| - 1] == Taken(order, halves).0 && s[|s| - 2] == Taken(order, halves).1
  {
    var taken := Taken(order, halves);
    rest + [taken.1, taken.0]
  }

  /** The `while parts_to_translate` loop: the part at the END of the work
      list is taken next (`pop()`); a part that is too long is replaced by its
      halves, pushed in `order`; any other result is kept. `step` is the
      translation of one part. */
  function Drain(order: Order, step: string -> Result<string, string>, pageNum: int, stack: seq<string>,
                 done: seq<string>, fuel: nat): (r: Run<seq<string>>)
    ensures r.Finished? ==> |done| <= |r.value| && r.value[..|done|] == done
    decreases fuel
  {
    if stack == [] then Finished(done)
    else if fuel == 0 then Exhausted
    else
      var part := stack[|stack| - 1];
      var rest := stack[..|stack| - 1];
      match step(part)
      case Err(e) => Raised(e)
      case Ok(t) =>
        if t == Sentinel then
          Drain(order, step, pageNum, PushHalves(order, rest, Bisect(part)), done, fuel - 1)
        else
          var r := Drain(order, step, pageNum, rest, done + [Emit(t, pageNum)], fuel - 1);
          assert r.Finished? ==> r.value[..|done|] == r.value[..|done| + 1][..|done|];
          r
  }

  /** What translating one part produces, defined by recursion on its
      length: its translation, or, when it is too long, the results of the
      half taken first followed by those of the other. A part of fewer than
      two characters cannot be cut into shorter halves: the loop keeps coming
      back to it (left half first, after translating the empty left half
      once). */
  function Expected(order: Order, step: string -> Result<string, string>, pageNum: int, part: string): Run<seq<string>>
    decreases |part|
  {
    match step(part)
    case Err(e) => Raised(e)
    case Ok(t) =>
      if t != Sentinel then Finished([Emit(t, pageNum)])
      else if |part| >= 2 then
        var taken := Taken(order, Bisect(part));
        Then(Expected(order, step, pageNum, taken.0), Expected(order, step, pageNum, taken.1))
      else if order == LeftFirst && |part| == 1 then Then(Expected(order, step, pageNum, ""), Exhausted)
      else Exhausted
  }
  /** Every line a part produces is non-empty: an empty translation is
      recorded as the page's error marker, never as an empty line. */
  lemma {:induction false} ExpectedLinesNonEmpty(order: Order, step: string -> Result<string, string>, pageNum: int,
                                                 part: string)
    ensures var r := Expected(order, step, pageNum, part);
      r.Finished? ==> forall i :: 0 <= i < |r.value| ==> r.value[i] != []
    decreases |part|
  {
    var r := Expected(order, step, pageNum, part);
    match step(part)
    case Err(_) =>
    case Ok(t) =>
      if t == Sentinel && |part| >= 2 {
        var taken := Taken(order, Bisect(part));
        var a, b := Expected(order, step, pageNum, taken.0), Expected(order, step, pageNum, taken.1);
        ExpectedLinesNonEmpty(order, step, pageNum, taken.0);
        ExpectedLinesNonEmpty(order, step, pageNum, taken.1);
        assert r == Then(a, b);
        if r.Finished? {
          assert a.Finished? && b.Finished? && r.value == a.value + b.value;
          forall i | 0 <= i < |r.value|
            ensures r.value[i] != []
          {
            if i < |a.value| {
              assert r.value[i] == a.value[i] && a.value[i] != [];
            } else {
              var k := i - |a.value|;
              assert r.value[i] == b.value[k] && b.value[k] != [];
            }
          }
        }
      }
  }


  /** The meaning of a whole work list: its parts in the order they are taken,
      last first. */
  function ExpectedAll(order: Order, step: string -> Result<string, string>, pageNum: int, stack: seq<string>)
    : Run<seq<string>>
    decreases |stack|
  {
    if stack == [] then Finished([])
    else Then(Expected(order, step, pageNum, stack[|stack| - 1]), ExpectedAll(order, step, pageNum, stack[..|stack| - 1]))
  }

  /** The iterations a part needs. */
  function Cost(order: Order, step: string -> Result<string, string>, pageNum: int, part: string): nat
    decreases |part|
  {
    match step(part)
    case Err(_) => 1
    case Ok(t) =>
      if t != Sentinel || |part| == 0 then 1
      else if |part| == 1 then 1 + Cost(order, step, pageNum, "")
      else
        var taken := Taken(order, Bisect(part));
        1 + Cost(order, step, pageNum, taken.0)
          + (if Expected(order, step, pageNum, taken.0).Finished? then Cost(order, step, pageNum, taken.1) else 0)
  }

  /** The iterations a work list needs: the loop stops at the first error. */
  function CostAll(order: Order, step: string -> Result<string, string>, pageNum: int, stack: seq<string>): nat
    decreases |stack|
  {
    if stack == [] then 0
    else
      Cost(order, step, pageNum, stack[|stack| - 1])
        + (if Expected(order, step, pageNum, stack[|stack| - 1]).Finished?
           then CostAll(order, step, pageNum, stack[..|stack| - 1]) else 0)
  }

  lemma PushTwo(rest: seq<string>, a: string, b: string)
    ensures var s := rest + [a, b];
      s[|s| - 1] == b && s[..|s| - 1] == rest + [a] && (rest + [a])[..|rest|] == rest
  {
  }

  /** Replacing a too-long part by its halves does not change what the work
      list means. */
  lemma SplitKeepsMeaning(order: Order, step: string -> Result<string, string>, pageNum: int,
                          rest: seq<string>, part: string)
    requires step(part) == Ok(Sentinel)
    ensures ExpectedAll(order, step, pageNum, PushHalves(order, rest, Bisect(part)))
         == ExpectedAll(order, step, pageNum, rest + [part])
  {
    var taken := Taken(order, Bisect(part));
    assert PushHalves(order, rest, Bisect(part)) == rest + [taken.1, taken.0];
    PushTwo(rest, taken.1, taken.0);
    assert (rest + [part])[..|rest|] == rest;
    var tail := ExpectedAll(order, step, pageNum, rest);
    var first := Expected(order, step, pageNum, taken.0);
    var second := Expected(order, step, pageNum, taken.1);
    if |part| >= 2 {
      ThenAssociates(first, second, tail);
    } else {
      BisectShort(part);
    }
  }

  /** Soundness of the loop: unless it runs out of iterations, it ends with
      the results already gathered followed by the meaning of the work list. */
  lemma {:induction false} DrainSound(order: Order, step: string -> Result<string, string>, pageNum: int,
                                      stack: seq<string>, done: seq<string>, fuel: nat)
    ensures var r := Drain(order, step, pageNum, stack, done, fuel);
      r == Exhausted || r == Then(Finished(done), ExpectedAll(order, step, pageNum, stack))
    decreases fuel
  {
    if stack == [] {
      assert done + [] == done;
    } else if fuel > 0 {
      var part := stack[|stack| - 1];
      var rest := stack[..|stack| - 1];
      match step(part)
      case Err(e) =>
        RaisedStep(order, step, pageNum, stack, done, fuel, e);
      case Ok(t) =>
        if t == Sentinel {
          SplitStep(order, step, pageNum, stack, done, fuel);
          DrainSound(order, step, pageNum, PushHalves(order, rest, Bisect(part)), done, fuel - 1);
        } else {
          EmitStep(order, step, pageNum, stack, done, fuel, t);
          DrainSound(order, step, pageNum, rest, done + [Emit(t, pageNum)], fuel - 1);
        }
    }
  }

  /** One iteration on a part whose translation fails. */
  lemma RaisedStep(order: Order, step: string -> Result<string, string>, pageNum: int, stack: seq<string>,
                   done: seq<string>, fuel: nat, e: string)
    requires stack != [] && fuel > 0 && step(stack[|stack| - 1]) == Err(e)
    ensures Drain(order, step, pageNum, stack, done, fuel) == Raised(e)
    ensures Then(Finished(done), ExpectedAll(order, step, pageNum, stack)) == Raised(e)
  {
    assert Expected(order, step, pageNum, stack[|stack| - 1]) == Raised(e);
  }

  /** One iteration on a part that is too long: the halves replace it and
      the meaning of the work list stays the same. */
  lemma SplitStep(order: Order, step: string -> Result<string, string>, pageNum: int, stack: seq<string>,
                  done: seq<string>, fuel: nat)
    requires stack != [] && fuel > 0 && step(stack[|stack| - 1]) == Ok(Sentinel)
    ensures var part, rest := stack[|stack| - 1], stack[..|stack| - 1];
      var pushed := PushHalves(order, rest, Bisect(part));
      && Drain(order, step, pageNum, stack, done, fuel) == Drain(order, step, pageNum, pushed, done, fuel - 1)
      && ExpectedAll(order, step, pageNum, pushed) == ExpectedAll(order, step, pageNum, stack)
  {
    var part, rest := stack[|stack| - 1], stack[..|stack| - 1];
    assert stack == rest + [part];
    SplitKeepsMeaning(order, step, pageNum, rest, part);
  }

  /** One iteration on a part that translates: its line is kept and the
      rest of the work list is left. */
  lemma EmitStep(order: Order, step: string -> Result<string, string>, pageNum: int, stack: seq<string>,
                 done: seq<string>, fuel: nat, t: string)
    requires stack != [] && fuel > 0 && step(stack[|stack| - 1]) == Ok(t) && t != Sentinel
    ensures var rest, line := stack[..|stack| - 1], Emit(t, pageNum);
      && Drain(order, step, pageNum, stack, done, fuel) == Drain(order, step, pageNum, rest, done + [line], fuel - 1)
      && Then(Finished(done), ExpectedAll(order, step, pageNum, stack))
         == Then(Finished(done + [line]), ExpectedAll(order, step, pageNum, rest))
  {
    var part, rest, line := stack[|stack| - 1], stack[..|stack| - 1], Emit(t, pageNum);
    assert Expected(order, step, pageNum, part) == Finished([line]);
    assert ExpectedAll(order, step, pageNum, stack) == Then(Finished([line]), ExpectedAll(order, step, pageNum, rest));
    ThenAssociates(Finished(done), Finished([line]), ExpectedAll(order, step, pageNum, rest));
    assert Then(Finished(done), Finished([line])) == Finished(done + [line]);
  }

  /** Cutting a too-long part replaces one iteration by the iterations of its
      halves. */
  lemma SplitCost(order: Order, step: string -> Result<string, string>, pageNum: int, rest: seq<string>, part: string)
    requires step(part) == Ok(Sentinel)
    requires Expected(order, step, pageNum, part) != Exhausted
    ensures CostAll(order, step, pageNum, PushHalves(order, rest, Bisect(part))) + 1
         == CostAll(order, step, pageNum, rest + [part])
  {
    var taken := Taken(order, Bisect(part));
    assert PushHalves(order, rest, Bisect(part)) == rest + [taken.1, taken.0];
    PushTwo(rest, taken.1, taken.0);
    assert (rest + [part])[..|rest|] == rest;
    if |part| < 2 {
      BisectShort(part);
    }
  }

  /** Completeness of the loop: given the iterations it needs, and when the
      work list does not mean an endless loop, the loop ends with the results
      already gathered followed by the meaning of the work list. */
  lemma {:induction false} DrainComplete(order: Order, step: string -> Result<string, string>, pageNum: int,
                                         stack: seq<string>, done: seq<string>, fuel: nat)
    requires ExpectedAll(order, step, pageNum, stack) != Exhausted
    requires fuel >= CostAll(order, step, pageNum, stack)
    ensures Drain(order, step, pageNum, stack, done, fuel)
         == Then(Finished(done), ExpectedAll(order, step, pageNum, stack))
    decreases fuel
  {
    if stack == [] {
      assert done + [] == done;
    } else {
      var part := stack[|stack| - 1];
      var rest := stack[..|stack| - 1];
      assert fuel > 0;
      match step(part)
      case Err(e) =>
        RaisedStep(order, step, pageNum, stack, done, fuel, e);
      case Ok(t) =>
        if t == Sentinel {
          SplitStep(order, step, pageNum, stack, done, fuel);
          SplitBudget(order, step, pageNum, stack, fuel);
          DrainComplete(order, step, pageNum, PushHalves(order, rest, Bisect(part)), done, fuel - 1);
        } else {
          EmitStep(order, step, pageNum, stack, done, fuel, t);
          EmitBudget(order, step, pageNum, stack, fuel, t);
          DrainComplete(order, step, pageNum, rest, done + [Emit(t, pageNum)], fuel - 1);
        }
    }
  }

  /** After a cut, the work list still has a meaning and one iteration fewer
      suffices. */
  lemma SplitBudget(order: Order, step: string -> Result<string, string>, pageNum: int, stack: seq<string>, fuel: nat)
    requires stack != [] && step(stack[|stack| - 1]) == Ok(Sentinel)
    requires ExpectedAll(order, step, pageNum, stack) != Exhausted
    requires fuel >= CostAll(order, step, pageNum, stack)
    ensures var pushed := PushHalves(order, stack[..|stack| - 1], Bisect(stack[|stack| - 1]));
      && ExpectedAll(order, step, pageNum, pushed) != Exhausted
      && fuel - 1 >= CostAll(order, step, pageNum, pushed)
  {
    var part, rest := stack[|stack| - 1], stack[..|stack| - 1];
    assert stack == rest + [part];
    assert Expected(order, step, pageNum, part) != Exhausted;
    SplitKeepsMeaning(order, step, pageNum, rest, part);
    SplitCost(order, step, pageNum, rest, part);
  }

  /** After a translated part, the rest of the work list has a meaning and
      one iteration fewer suffices. */
  lemma EmitBudget(order: Order, step: string -> Result<string, string>, pageNum: int, stack: seq<string>,
                   fuel: nat, t: string)
    requires stack != [] && step(stack[|stack| - 1]) == Ok(t) && t != Sentinel
    requires ExpectedAll(order, step, pageNum, stack) != Exhausted
    requires fuel >= CostAll(order, step, pageNum, stack)
    ensures var rest := stack[..|stack| - 1];
      && ExpectedAll(order, step, pageNum, rest) != Exhausted
      && fuel - 1 >= CostAll(order, step, pageNum, rest)
  {
    var part := stack[|stack| - 1];
    assert Expected(order, step, pageNum, part) == Finished([Emit(t, pageNum)]);
    assert Cost(order, step, pageNum, part) == 1;
  }

  /** The loop started on one part ends with the meaning of the part, given
      enough iterations, and never with anything else. */
  lemma DrainMeaning(order: Order, step: string -> Result<string, string>, pageNum: int, part: string, fuel: nat)
    ensures var r := Drain(order, step, pageNum, [part], [], fuel);
      var e := Expected(order, step, pageNum, part);
      && (r == Exhausted || r == e)
      && (e != Exhausted && fuel >= Cost(order, step, pageNum, part) ==> r == e)
  {
    var e := Expected(order, step, pageNum, part);
    assert [part][..0] == [];
    assert ExpectedAll(order, step, pageNum, [part]) == Then(e, Finished([]));
    assert e.Finished? ==> [] + (e.value + []) == e.value;
    assert Then(Finished([]), Then(e, Finished([]))) == e;
    DrainSound(order, step, pageNum, [part], [], fuel);
    if e != Exhausted && fuel >= Cost(order, step, pageNum, part) {
      DrainComplete(order, step, pageNum, [part], [], fuel);
    }
  }

  /** `xs` read back to front. */
  function Reverse(xs: seq<string>): (r: seq<string>)
    ensures |r| == |xs|
    ensures forall i :: 0 <= i < |xs| ==> r[i] == xs[|xs| - 1 - i]
  {
    seq(|xs|, i requires 0 <= i < |xs| => xs[|xs| - 1 - i])
  }

  lemma ReverseAppend(a: seq<string>, b: seq<string>)
    ensures Reverse(a + b) == Reverse(b) + Reverse(a)
  {
    assert forall i :: 0 <= i < |a + b| ==> Reverse(a + b)[i] == (Reverse(b) + Reverse(a))[i];
  }

  /** The loop as written produces the intended results back to front: a
      part finishes under one order exactly when it finishes under the other,
      and the lines then come out reversed. */
  lemma {:induction false} AsWrittenIsReversed(step: string -> Result<string, string>, pageNum: int, part: string)
    ensures var intended := Expected(LeftFirst, step, pageNum, part);
      var written := Expected(RightFirst, step, pageNum, part);
      && (written.Finished? <==> intended.Finished?)
      && (written.Finished? ==> written.value == Reverse(intended.value))
    decreases |part|
  {
    match step(part)
    case Err(_) =>
    case Ok(t) =>
      if t == Sentinel && |part| >= 2 {
        var halves := Bisect(part);
        AsWrittenIsReversed(step, pageNum, halves.0);
        AsWrittenIsReversed(step, pageNum, halves.1);
        var l0, l1 := Expected(LeftFirst, step, pageNum, halves.0), Expected(LeftFirst, step, pageNum, halves.1);
        if l0.Finished? && l1.Finished? {
          ReverseAppend(l0.value, l1.value);
        }
      } else if t != Sentinel {
        assert Reverse([Emit(t, pageNum)]) == [Emit(t, pageNum)];
      }
  }

  /** The banner that opens the text of a page. */
  function Banner(pageNum: int): string {
    "\n\n-- Page " + IntToString(pageNum + 1) + " -- \n\n"
  }

  /** The error marker and the page banner name their page: two pages get
      the same text exactly when they are the same page. */
  lemma MarkersNamePage(m: int, n: int)
    ensures ErrorMarker(m) == ErrorMarker(n) <==> m == n
    ensures Banner(m) == Banner(n) <==> m == n
  {
    if ErrorMarker(m) == ErrorMarker(n) {
      Infix("\n***Translation error on page ", IntToString(m + 1), IntToString(n + 1), ".***\n");
      IntToStringInjective(m + 1, n + 1);
    }
    if Banner(m) == Banner(n) {
      Infix("\n\n-- Page ", IntToString(m + 1), IntToString(n + 1), " -- \n\n");
      IntToStringInjective(m + 1, n + 1);
    }
  }

  /** Pages are counted from one in what the reader sees: page index 0 is
      shown as page 1. */
  lemma FirstPageShownAsOne()
    ensures ErrorMarker(0) == "\n***Translation error on page 1.***\n"
    ensures Banner(0) == "\n\n-- Page 1 -- \n\n"
  {
    assert IntToString(1) == "1";
  }

  /** The per-part translation of `generate_text`, with `translate_text`
      taken as corrected. */
  function PageStep(oracle: Request -> Reply, format: OutputFormat, abstractText: string,
                    previousPage: string): string -> Result<string, string>
  {
    part => TranslatePageText(oracle, format, abstractText, part, previousPage)
  }

  /** The per-part translation of `generate_text` exactly as written:
      `translate_page_text` over `translate_text` as written, which fails on
      a reply that reports its token usage. */
  function PageStepAsWritten(oracle: Request -> Reply, reportsUsage: Request -> bool, format: OutputFormat,
                             abstractText: string, previousPage: string): string -> Result<string, string>
  {
    part => TranslatePageTextAsWritten(oracle, reportsUsage, format, abstractText, part, previousPage)
  }

  /** On a part whose reply reports no usage, the step as written is the
      corrected step. */
  lemma AsWrittenStepWithoutUsageReport(oracle: Request -> Reply, reportsUsage: Request -> bool, format: OutputFormat,
                                        abstractText: string, previousPage: string, part: string)
    requires !reportsUsage(Request(format, GenerateProcessText(abstractText, part, previousPage, ContextPercentage, "")))
    ensures PageStepAsWritten(oracle, reportsUsage, format, abstractText, previousPage)(part)
         == PageStep(oracle, format, abstractText, previousPage)(part)
  {
  }

  /** The text of a page: the banner followed by the loop's results, one per
      line. */
  function PageText(order: Order, step: string -> Result<string, string>, pageText: string,
                    pageNum: int, fuel: nat): (r: Run<string>)
    ensures r.Finished? ==> StartsWith(r.value, Banner(pageNum))
  {
    match Drain(order, step, pageNum, [pageText], [], fuel)
    case Finished(results) => Finished(Banner(pageNum) + Join(results, "\n"))
    case Raised(e) => Raised(e)
    case Exhausted => Exhausted
  }

  /** `generate_text` corrected: left half first, `translate_text` recording
      usage through the tracker's own signature. */
  function GenerateText(oracle: Request -> Reply, format: OutputFormat, abstractText: string,
                        pageText: string, previousPage: string, pageNum: int, fuel: nat): (r: Run<string>)
    ensures r.Finished? ==> StartsWith(r.value, Banner(pageNum))
  {
    PageText(LeftFirst, PageStep(oracle, format, abstractText, previousPage), pageText, pageNum, fuel)
  }

  /** `generate_text` exactly as written: right half first, and
      `translate_text` as written. */
  function GenerateTextAsWritten(oracle: Request -> Reply, reportsUsage: Request -> bool, format: OutputFormat,
                                 abstractText: string, pageText: string, previousPage: string,
                                 pageNum: int, fuel: nat): (r: Run<string>)
    ensures r.Finished? ==> StartsWith(r.value, Banner(pageNum))
  {
    PageText(RightFirst, PageStepAsWritten(oracle, reportsUsage, format, abstractText, previousPage),
             pageText, pageNum, fuel)
  }

  /** What the page text means, whatever the order: with enough iterations
      it is the banner followed by the results of the recursive halving; it
      raises exactly the error of the first failing part; whatever the
      iterations, it never produces anything else. */
  lemma PageTextMeaning(order: Order, step: string -> Result<string, string>, pageText: string,
                        pageNum: int, fuel: nat)
    ensures var r := PageText(order, step, pageText, pageNum, fuel);
      var e := Expected(order, step, pageNum, pageText);
      && (r.Finished? ==> e.Finished? && r.value == Banner(pageNum) + Join(e.value, "\n"))
      && (r.Raised? ==> e == Raised(r.message))
      && (e != Exhausted && fuel >= Cost(order, step, pageNum, pageText) ==> r != Exhausted)
  {
    DrainMeaning(order, step, pageNum, pageText, fuel);
  }

  /** The corrected `generate_text`: the banner, then the halves left
      before right. */
  lemma GenerateTextMeaning(oracle: Request -> Reply, format: OutputFormat, abstractText: string,
                            pageText: string, previousPage: string, pageNum: int, fuel: nat)
    ensures var step := PageStep(oracle, format, abstractText, previousPage);
      var r := GenerateText(oracle, format, abstractText, pageText, previousPage, pageNum, fuel);
      var e := Expected(LeftFirst, step, pageNum, pageText);
      && (r.Finished? ==> e.Finished? && r.value == Banner(pageNum) + Join(e.value, "\n"))
      && (r.Raised? ==> e == Raised(r.message))
      && (e != Exhausted && fuel >= Cost(LeftFirst, step, pageNum, pageText) ==> r != Exhausted)
  {
    PageTextMeaning(LeftFirst, PageStep(oracle, format, abstractText, previousPage), pageText, pageNum, fuel);
  }

  /** `generate_text` as written: the banner, then the halves right before
      left, that is, the lines of the intended order back to front. */
  lemma GenerateTextAsWrittenMeaning(oracle: Request -> Reply, reportsUsage: Request -> bool, format: OutputFormat,
                                     abstractText: string, pageText: string, previousPage: string,
                                     pageNum: int, fuel: nat)
    ensures var step := PageStepAsWritten(oracle, reportsUsage, format, abstractText, previousPage);
      var r := GenerateTextAsWritten(oracle, reportsUsage, format, abstractText, pageText, previousPage, pageNum, fuel);
      var e := Expected(RightFirst, step, pageNum, pageText);
      var intended := Expected(LeftFirst, step, pageNum, pageText);
      && (r.Finished? ==> intended.Finished? && r.value == Banner(pageNum) + Join(Reverse(intended.value), "\n"))
      && (r.Raised? ==> e == Raised(r.message))
      && (e != Exhausted && fuel >= Cost(RightFirst, step, pageNum, pageText) ==> r != Exhausted)
  {
    var step := PageStepAsWritten(oracle, reportsUsage, format, abstractText, previousPage);
    PageTextMeaning(RightFirst, step, pageText, pageNum, fuel);
    AsWrittenIsReversed(step, pageNum, pageText);
  }

  /** The right half first: for a part that is too long once and whose
      halves translate to `a` and `b`, the loop as written keeps `b` before
      `a`. */
  lemma RightHalfFirst(step: string -> Result<string, string>, pageNum: int, part: string, a: string, b: string)
    requires |part| >= 2 && step(part) == Ok(Sentinel)
    requires step(Bisect(part).0) == Ok(a) && step(Bisect(part).1) == Ok(b)
    requires a != Sentinel && b != Sentinel
    ensures Drain(RightFirst, step, pageNum, [part], [], 3) == Finished([Emit(b, pageNum), Emit(a, pageNum)])
  {
    var halves := Bisect(part);
    PushTwo([], halves.0, halves.1);
    var first := [Emit(b, pageNum)];
    assert [halves.0][..0] == [] && [halves.0, halves.1][..1] == [halves.0] && [] + first == first;
    assert Drain(RightFirst, step, pageNum, [part], [], 3) == Drain(RightFirst, step, pageNum, [halves.0, halves.1], [], 2);
    assert Drain(RightFirst, step, pageNum, [halves.0, halves.1], [], 2)
        == Drain(RightFirst, step, pageNum, [halves.0], first, 1);
    assert Drain(RightFirst, step, pageNum, [halves.0], first, 1)
        == Drain(RightFirst, step, pageNum, [], first + [Emit(a, pageNum)], 0);
    assert first + [Emit(a, pageNum)] == [Emit(b, pageNum), Emit(a, pageNum)];
  }

  /** The corrected loop keeps the halves in their order: `a` before `b`. */
  lemma LeftHalfFirst(step: string -> Result<string, string>, pageNum: int, part: string, a: string, b: string)
    requires |part| >= 2 && step(part) == Ok(Sentinel)
    requires step(Bisect(part).0) == Ok(a) && step(Bisect(part).1) == Ok(b)
    requires a != Sentinel && b != Sentinel
    ensures Drain(LeftFirst, step, pageNum, [part], [], 3) == Finished([Emit(a, pageNum), Emit(b, pageNum)])
  {
    var halves := Bisect(part);
    PushTwo([], halves.1, halves.0);
    var first := [Emit(a, pageNum)];
    assert [halves.1][..0] == [] && [halves.1, halves.0][..1] == [halves.1] && [] + first == first;
    assert Drain(LeftFirst, step, pageNum, [part], [], 3) == Drain(LeftFirst, step, pageNum, [halves.1, halves.0], [], 2);
    assert Drain(LeftFirst, step, pageNum, [halves.1, halves.0], [], 2)
        == Drain(LeftFirst, step, pageNum, [halves.1], first, 1);
    assert Drain(LeftFirst, step, pageNum, [halves.1], first, 1)
        == Drain(LeftFirst, step, pageNum, [], first + [Emit(b, pageNum)], 0);
    assert first + [Emit(b, pageNum)] == [Emit(a, pageNum), Emit(b, pageNum)];
  }

  /** A page "ab" that is too long as a whole, and whose characters come back
      unchanged: as written the page reads "b" then "a"; corrected, "a" then
      "b". */
  lemma SwappedHalvesExample(step: string -> Result<string, string>, page: string)
    requires page == "ab"
    requires step(page) == Ok(Sentinel) && step("a") == Ok("a") && step("b") == Ok("b")
    ensures Drain(RightFirst, step, 0, [page], [], 3) == Finished(["b", "a"])
    ensures Drain(LeftFirst, step, 0, [page], [], 3) == Finished(["a", "b"])
  {
    assert Bisect(page).0 == [page[0]] == "a";
    assert Bisect(page).1 == [page[1]] == "b";
    RightHalfFirst(step, 0, page, "a", "b");
    LeftHalfFirst(step, 0, page, "a", "b");
  }

  /** A one-character part that is always too long keeps the loop going: no
      number of iterations finishes it, in either order, whenever the empty
      part translates. */
  lemma ShortPartNeverFinishes(order: Order, step: string -> Result<string, string>, pageNum: int,
                               c: char, t: string, fuel: nat)
    requires step([c]) == Ok(Sentinel) && step("") == Ok(t) && t != Sentinel
    ensures Drain(order, step, pageNum, [[c]], [], fuel) == Exhausted
  {
    var e := Expected(order, step, pageNum, [c]);
    BisectShort([c]);
    assert Expected(order, step, pageNum, "") == Finished([Emit(t, pageNum)]);
    assert e == Exhausted;
    assert [[c]][..0] == [];
    DrainSound(order, step, pageNum, [[c]], [], fuel);
  }

  // ---------------------------------------------------------------------------
  // The document loop

  /** The output format chosen from the output file and the auto-save flag
      (an empty file name counts as none). */
  function SelectOutputFormat(outputFile: Option<string>, autoSave: bool): (f: OutputFormat)
    ensures var named := outputFile.Some? && outputFile.value != [];
      && (f == PdfFormat <==> named && EndsWithIgnoringCase(outputFile.value, ".pdf"))
      && (f == FileFormat <==> named && !EndsWithIgnoringCase(outputFile.value, ".pdf")
                                     && !EndsWithIgnoringCase(outputFile.value, ".txt"))
      && (f == TxtFormat <==> (named && EndsWithIgnoringCase(outputFile.value, ".txt")
                                     && !EndsWithIgnoringCase(outputFile.value, ".pdf"))
                              || (!named && autoSave))
      && (f == Console <==> !named && !autoSave)
  {
    if outputFile.Some? && outputFile.value != [] then
      if EndsWithIgnoringCase(outputFile.value, ".pdf") then PdfFormat
      else if EndsWithIgnoringCase(outputFile.value, ".txt") then TxtFormat
      else FileFormat
    else if autoSave then TxtFormat
    else Console
  }

  /** A file name cannot end in both `.pdf` and `.txt`, so the order of the
      two tests does not matter. */
  lemma PdfAndTxtExclusive(name: string)
    ensures !(EndsWithIgnoringCase(name, ".pdf") && EndsWithIgnoringCase(name, ".txt"))
  {
    var n := |name|;
    if EndsWithIgnoringCase(name, ".pdf") {
      assert Lower(name)[n - 4..][1] == 'p';
    }
  }

  /** `sys.maxsize` on a 64-bit build. */
  const MaxSize: int := 0x7fff_ffff_ffff_ffff

  /** `islice` reads its bounds with `PyNumber_AsSsize_t(arg, NULL)`, which
      clamps an integer outside `Py_ssize_t` to the nearest end of it. */
  function ClampSsize(x: int): (r: int)
    ensures -MaxSize - 1 <= r <= MaxSize
    ensures -MaxSize - 1 <= x <= MaxSize ==> r == x
    ensures x > MaxSize ==> r == MaxSize
    ensures x < -MaxSize - 1 ==> r == -MaxSize - 1
  {
    if x > MaxSize then MaxSize else if x < -MaxSize - 1 then -MaxSize - 1 else x
  }

  /** The `ValueError` of `islice` for a stop bound of -1, checked first. */
  const IsliceStopError: string :=
    "Stop argument for islice() must be None or an integer: 0 <= x <= sys.maxsize."

  /** The `ValueError` of `islice` for a negative start or a stop below -1. */
  const IsliceIndicesError: string :=
    "Indices for islice() must be None or an integer: 0 <= x <= sys.maxsize."

  /** The pages kept by `islice(pages, start, end + 1)` when a page range was
      given (a non-empty `page_nums_str`), all of them otherwise. */
  function SelectPages(pages: seq<string>, pageNums: Option<string>, start: int, end: int)
    : (r: Result<seq<string>, string>)
    ensures pageNums.None? || pageNums.value == [] ==> r == Ok(pages)
    ensures var given, stop := pageNums.Some? && pageNums.value != [], end + 1;
      && (r == Err(IsliceStopError) <==> given && stop == -1)
      && (r == Err(IsliceIndicesError) <==> given && stop != -1 && (start < 0 || stop < -1))
      && (r.Err? ==> r == Err(IsliceStopError) || r == Err(IsliceIndicesError))
    ensures r.Ok? && pageNums.Some? && pageNums.value != [] ==>
      var lo, hi := ClampSsize(start), ClampSsize(end + 1);
      && |r.value| == (if lo <= hi && lo <= |pages| then Min(hi, |pages|) - lo else 0)
      && forall k :: 0 <= k < |r.value| ==> r.value[k] == pages[lo + k]
  {
    if pageNums.None? || pageNums.value == [] then Ok(pages)
    else
      var lo, hi := ClampSsize(start), ClampSsize(end + 1);
      if hi == -1 then Err(IsliceStopError)
      else if lo < 0 || hi < -1 then Err(IsliceIndicesError)
      else
        var from := Min(lo, |pages|);
        var to := Min(hi, |pages|);
        if from <= to then Ok(pages[from..to]) else Ok([])
  }

  /** A stop bound of -1 is reported before a negative start: `end == -2`
      gives the stop message whatever the start. */
  lemma StopCheckedFirst(pages: seq<string>, pageNums: string, start: int)
    requires pageNums != []
    ensures SelectPages(pages, Some(pageNums), start, -2) == Err(IsliceStopError)
    ensures start < 0 ==> SelectPages(pages, Some(pageNums), start, -3) == Err(IsliceIndicesError)
  {
  }

  /** Bounds outside `Py_ssize_t` are clamped rather than refused: a huge
      stop keeps every page from the start on, a huge start keeps none, and
      a hugely negative stop is an indices error. For a document shorter
      than `sys.maxsize` the pages kept are the plain range from `start` to
      `end`, clipped to the document. */
  lemma HugeBoundsClamped(pages: seq<string>, pageNums: string, start: int, end: int)
    requires pageNums != []
    requires |pages| <= MaxSize
    ensures 0 <= start && end + 1 > MaxSize ==> SelectPages(pages, Some(pageNums), start, end) == Ok(pages[Min(start, |pages|)..])
    ensures start > MaxSize && end >= 0 ==> SelectPages(pages, Some(pageNums), start, end) == Ok([])
    ensures end + 1 < -MaxSize - 1 ==> SelectPages(pages, Some(pageNums), start, end) == Err(IsliceIndicesError)
    ensures SelectPages(pages, Some(pageNums), start, end).Ok? ==>
      var selected := SelectPages(pages, Some(pageNums), start, end).value;
      && |selected| == (if start <= end + 1 && start <= |pages| then Min(end + 1, |pages|) - start else 0)
      && forall k :: 0 <= k < |selected| ==> selected[k] == pages[start + k]
  {
    var r := SelectPages(pages, Some(pageNums), start, end);
    if 0 <= start && end + 1 > MaxSize {
      assert r.value == pages[Min(start, |pages|)..];
    }
  }

  function Min(a: int, b: int): int {
    if a <= b then a else b
  }

  /** The loop over the selected pages: `translatePage(page, previous, n)`
      translates each page with the text of the page before it and its
      number, counted from `first`; the first error ends the document. */
  function TranslatePages(translatePage: (string, string, int) -> Run<string>,
                          pages: seq<string>, first: int, previousPage: string): (r: Run<seq<string>>)
    ensures r.Finished? ==> |r.value| == |pages|
    decreases |pages|
  {
    if pages == [] then Finished([])
    else
      match translatePage(pages[0], previousPage, first)
      case Finished(text) =>
        (match TranslatePages(translatePage, pages[1..], first + 1, pages[0])
         case Finished(texts) => Finished([text] + texts)
         case Raised(e) => Raised(e)
         case Exhausted => Exhausted)
      case Raised(e) => Raised(e)
      case Exhausted => Exhausted
  }

  /** The page before page `k` of the loop. */
  function PreviousPage(pages: seq<string>, previousPage: string, k: int): string
    requires 0 <= k < |pages|
  {
    if k == 0 then previousPage else pages[k - 1]
  }

  /** The pages of a finished document are the pages translated one by one,
      each with the text of the page before it and its own number. */
  lemma FinishedPageByPage(translatePage: (string, string, int) -> Run<string>,
                           pages: seq<string>, first: int, previousPage: string)
    requires TranslatePages(translatePage, pages, first, previousPage).Finished?
    ensures var texts := TranslatePages(translatePage, pages, first, previousPage).value;
      forall k :: 0 <= k < |pages| ==>
        translatePage(pages[k], PreviousPage(pages, previousPage, k), first + k) == Finished(texts[k])
  {
    forall k | 0 <= k < |pages|
      ensures translatePage(pages[k], PreviousPage(pages, previousPage, k), first + k)
           == Finished(TranslatePages(translatePage, pages, first, previousPage).value[k])
    {
      FinishedPage(translatePage, pages, first, previousPage, k);
    }
  }

  /** Page `k` of a finished document is page `k` translated on its own. */
  lemma {:induction false} FinishedPage(translatePage: (string, string, int) -> Run<string>,
                                        pages: seq<string>, first: int, previousPage: string, k: int)
    requires TranslatePages(translatePage, pages, first, previousPage).Finished?
    requires 0 <= k < |pages|
    ensures translatePage(pages[k], PreviousPage(pages, previousPage, k), first + k)
         == Finished(TranslatePages(translatePage, pages, first, previousPage).value[k])
    decreases k
  {
    var texts := TranslatePages(translatePage, pages, first, previousPage).value;
    var rest := TranslatePages(translatePage, pages[1..], first + 1, pages[0]);
    assert translatePage(pages[0], previousPage, first) == Finished(texts[0]);
    assert rest == Finished(texts[1..]);
    if k > 0 {
      FinishedPage(translatePage, pages[1..], first + 1, pages[0], k - 1);
      ShiftedPage(translatePage, pages, previousPage, first, k);
    } else {
      assert PreviousPage(pages, previousPage, 0) == previousPage;
    }
  }

  lemma ShiftedPage(translatePage: (string, string, int) -> Run<string>, pages: seq<string>,
                    previousPage: string, first: int, k: int)
    requires 0 < k < |pages|
    ensures translatePage(pages[1..][k - 1], PreviousPage(pages[1..], pages[0], k - 1), first + 1 + (k - 1))
         == translatePage(pages[k], PreviousPage(pages, previousPage, k), first + k)
  {
    assert pages[1..][k - 1] == pages[k];
    assert first + 1 + (k - 1) == first + k;
  }

  /** The position of the page whose error ends the loop. */
  function FailingPage(translatePage: (string, string, int) -> Run<string>,
                       pages: seq<string>, first: int, previousPage: string): (k: nat)
    requires TranslatePages(translatePage, pages, first, previousPage).Raised?
    ensures k < |pages|
    decreases |pages|
  {
    if translatePage(pages[0], previousPage, first).Finished?
    then 1 + FailingPage(translatePage, pages[1..], first + 1, pages[0])
    else 0
  }

  /** A raised error is the error of one page. */
  lemma {:induction false} RaisedAtFailingPage(translatePage: (string, string, int) -> Run<string>,
                                               pages: seq<string>, first: int, previousPage: string)
    requires TranslatePages(translatePage, pages, first, previousPage).Raised?
    ensures var k := FailingPage(translatePage, pages, first, previousPage);
      translatePage(pages[k], PreviousPage(pages, previousPage, k), first + k)
        == Raised(TranslatePages(translatePage, pages, first, previousPage).message)
    decreases |pages|
  {
    var e := TranslatePages(translatePage, pages, first, previousPage).message;
    var head := translatePage(pages[0], previousPage, first);
    if head.Finished? {
      var rest := TranslatePages(translatePage, pages[1..], first + 1, pages[0]);
      assert rest == Raised(e);
      var j := FailingPage(translatePage, pages[1..], first + 1, pages[0]);
      assert FailingPage(translatePage, pages, first, previousPage) == j + 1;
      RaisedAtFailingPage(translatePage, pages[1..], first + 1, pages[0]);
      ShiftedPage(translatePage, pages, previousPage, first, j + 1);
    } else {
      assert head == Raised(e);
      assert PreviousPage(pages, previousPage, 0) == previousPage;
    }
  }

  /** Every page before the failing one finished. */
  lemma {:induction false} FinishedBeforeFailingPage(translatePage: (string, string, int) -> Run<string>,
                                                     pages: seq<string>, first: int, previousPage: string, m: int)
    requires TranslatePages(translatePage, pages, first, previousPage).Raised?
    requires 0 <= m < FailingPage(translatePage, pages, first, previousPage)
    ensures translatePage(pages[m], PreviousPage(pages, previousPage, m), first + m).Finished?
    decreases m
  {
    if m > 0 {
      var e := TranslatePages(translatePage, pages, first, previousPage).message;
      assert TranslatePages(translatePage, pages[1..], first + 1, pages[0]) == Raised(e);
      FinishedBeforeFailingPage(translatePage, pages[1..], first + 1, pages[0], m - 1);
      ShiftedPage(translatePage, pages, previousPage, first, m);
    } else {
      assert PreviousPage(pages, previousPage, 0) == previousPage;
    }
  }

  /** The page range applied, then each selected page translated by
      `translatePage`, numbered from the start of the range that
      `extract_page_nums` gave (`start`, `end`; that function is not part of
      this model), the first after an empty previous page. */
  function TranslateSelected(translatePage: (string, string, int) -> Run<string>, pages: seq<string>,
                             pageNums: Option<string>, start: int, end: int): (r: Run<seq<string>>)
    ensures r.Finished? ==> SelectPages(pages, pageNums, start, end).Ok?
                            && |r.value| == |SelectPages(pages, pageNums, start, end).value|
    ensures SelectPages(pages, pageNums, start, end).Err? ==> r == Raised(SelectPages(pages, pageNums, start, end).error)
  {
    match SelectPages(pages, pageNums, start, end)
    case Err(e) => Raised(e)
    case Ok(selected) => TranslatePages(translatePage, selected, start, "")
  }

  /** The page translation of the document loop as written: `generate_text`
      as written, with the document's output format and abstract. */
  function DocumentPage(oracle: Request -> Reply, reportsUsage: Request -> bool, format: OutputFormat,
                        abstractText: string, fuel: nat): (string, string, int) -> Run<string>
  {
    (page, previousPage, pageNum) =>
      GenerateTextAsWritten(oracle, reportsUsage, format, abstractText, page, previousPage, pageNum, fuel)
  }

  /** The page translation of the corrected document loop. */
  function CorrectedDocumentPage(oracle: Request -> Reply, format: OutputFormat, abstractText: string, fuel: nat)
    : (string, string, int) -> Run<string>
  {
    (page, previousPage, pageNum) => GenerateText(oracle, format, abstractText, page, previousPage, pageNum, fuel)
  }

  /** `translate_document` exactly as written: one text per selected page,
      or the error that ends it. */
  function TranslateDocument(oracle: Request -> Reply, reportsUsage: Request -> bool, pages: seq<string>,
                             abstractText: Option<string>, pageNums: Option<string>, start: int, end: int,
                             outputFile: Option<string>, autoSave: bool, fuel: nat): (r: Run<seq<string>>)
    ensures r.Finished? ==> SelectPages(pages, pageNums, start, end).Ok?
                            && |r.value| == |SelectPages(pages, pageNums, start, end).value|
    ensures SelectPages(pages, pageNums, start, end).Err? ==> r == Raised(SelectPages(pages, pageNums, start, end).error)
  {
    var format := SelectOutputFormat(outputFile, autoSave);
    var abstractOrEmpty := if abstractText.Some? then abstractText.value else "";
    TranslateSelected(DocumentPage(oracle, reportsUsage, format, abstractOrEmpty, fuel), pages, pageNums, start, end)
  }

  /** `translate_document` with the corrected `generate_text` and
      `translate_text`. */
  function TranslateDocumentCorrected(oracle: Request -> Reply, pages: seq<string>, abstractText: Option<string>,
                                      pageNums: Option<string>, start: int, end: int,
                                      outputFile: Option<string>, autoSave: bool, fuel: nat): (r: Run<seq<string>>)
    ensures r.Finished? ==> SelectPages(pages, pageNums, start, end).Ok?
                            && |r.value| == |SelectPages(pages, pageNums, start, end).value|
    ensures SelectPages(pages, pageNums, start, end).Err? ==> r == Raised(SelectPages(pages, pageNums, start, end).error)
  {
    var format := SelectOutputFormat(outputFile, autoSave);
    var abstractOrEmpty := if abstractText.Some? then abstractText.value else "";
    TranslateSelected(CorrectedDocumentPage(oracle, format, abstractOrEmpty, fuel), pages, pageNums, start, end)
  }

  /** Page `k` of a finished document loop as written is its page's
      `generate_text` as written. */
  lemma DocumentPageAt(oracle: Request -> Reply, reportsUsage: Request -> bool, format: OutputFormat,
                       abstractText: string, fuel: nat, selected: seq<string>, start: int, doc: seq<string>, k: int)
    requires TranslatePages(DocumentPage(oracle, reportsUsage, format, abstractText, fuel), selected, start, "")
          == Finished(doc)
    requires 0 <= k < |selected|
    ensures GenerateTextAsWritten(oracle, reportsUsage, format, abstractText, selected[k],
                                  PreviousPage(selected, "", k), start + k, fuel) == Finished(doc[k])
  {
    FinishedPage(DocumentPage(oracle, reportsUsage, format, abstractText, fuel), selected, start, "", k);
  }

  /** Page `k` of a finished corrected document loop is its page's corrected
      `generate_text`. */
  lemma CorrectedDocumentPageAt(oracle: Request -> Reply, format: OutputFormat, abstractText: string, fuel: nat,
                                selected: seq<string>, start: int, doc: seq<string>, k: int)
    requires TranslatePages(CorrectedDocumentPage(oracle, format, abstractText, fuel), selected, start, "")
          == Finished(doc)
    requires 0 <= k < |selected|
    ensures GenerateText(oracle, format, abstractText, selected[k], PreviousPage(selected, "", k), start + k, fuel)
         == Finished(doc[k])
  {
    FinishedPage(CorrectedDocumentPage(oracle, format, abstractText, fuel), selected, start, "", k);
  }

  /** Each page of a finished document, as written, is its own page's
      `generate_text` as written, with the page before it as context and its
      number in the range. */
  lemma DocumentPageByPage(oracle: Request -> Reply, reportsUsage: Request -> bool, pages: seq<string>,
                           abstractText: Option<string>, pageNums: Option<string>, start: int, end: int,
                           outputFile: Option<string>, autoSave: bool, fuel: nat)
    requires TranslateDocument(oracle, reportsUsage, pages, abstractText, pageNums, start, end,
                               outputFile, autoSave, fuel).Finished?
    ensures var doc := TranslateDocument(oracle, reportsUsage, pages, abstractText, pageNums, start, end,
                                         outputFile, autoSave, fuel).value;
      var selected := SelectPages(pages, pageNums, start, end).value;
      var format := SelectOutputFormat(outputFile, autoSave);
      var abstractOrEmpty := if abstractText.Some? then abstractText.value else "";
      forall k :: 0 <= k < |selected| ==>
        GenerateTextAsWritten(oracle, reportsUsage, format, abstractOrEmpty, selected[k],
                              PreviousPage(selected, "", k), start + k, fuel) == Finished(doc[k])
  {
    var selected := SelectPages(pages, pageNums, start, end).value;
    var format := SelectOutputFormat(outputFile, autoSave);
    var abstractOrEmpty := if abstractText.Some? then abstractText.value else "";
    var doc := TranslateDocument(oracle, reportsUsage, pages, abstractText, pageNums, start, end,
                                 outputFile, autoSave, fuel).value;
    assert TranslatePages(DocumentPage(oracle, reportsUsage, format, abstractOrEmpty, fuel), selected, start, "")
        == Finished(doc);
    forall k | 0 <= k < |selected|
      ensures GenerateTextAsWritten(oracle, reportsUsage, format, abstractOrEmpty, selected[k],
                                    PreviousPage(selected, "", k), start + k, fuel) == Finished(doc[k])
    {
      DocumentPageAt(oracle, reportsUsage, format, abstractOrEmpty, fuel, selected, start, doc, k);
    }
  }

  /** Each page of a finished corrected document is its own page's corrected
      `generate_text`. */
  lemma CorrectedDocumentPageByPage(oracle: Request -> Reply, pages: seq<string>, abstractText: Option<string>,
                                    pageNums: Option<string>, start: int, end: int,
                                    outputFile: Option<string>, autoSave: bool, fuel: nat)
    requires TranslateDocumentCorrected(oracle, pages, abstractText, pageNums, start, end,
                                        outputFile, autoSave, fuel).Finished?
    ensures var doc := TranslateDocumentCorrected(oracle, pages, abstractText, pageNums, start, end,
                                                  outputFile, autoSave, fuel).value;
      var selected := SelectPages(pages, pageNums, start, end).value;
      var format := SelectOutputFormat(outputFile, autoSave);
      var abstractOrEmpty := if abstractText.Some? then abstractText.value else "";
      forall k :: 0 <= k < |selected| ==>
        GenerateText(oracle, format, abstractOrEmpty, selected[k], PreviousPage(selected, "", k), start + k, fuel)
          == Finished(doc[k])
  {
    var selected := SelectPages(pages, pageNums, start, end).value;
    var format := SelectOutputFormat(outputFile, autoSave);
    var abstractOrEmpty := if abstractText.Some? then abstractText.value else "";
    var doc := TranslateDocumentCorrected(oracle, pages, abstractText, pageNums, start, end,
                                          outputFile, autoSave, fuel).value;
    assert TranslatePages(CorrectedDocumentPage(oracle, format, abstractOrEmpty, fuel), selected, start, "")
        == Finished(doc);
    forall k | 0 <= k < |selected|
      ensures GenerateText(oracle, format, abstractOrEmpty, selected[k], PreviousPage(selected, "", k), start + k, fuel)
           == Finished(doc[k])
    {
      CorrectedDocumentPageAt(oracle, format, abstractOrEmpty, fuel, selected, start, doc, k);
    }
  }
}
