/** Logical pagination of flowing text (src/base_text_processor.py): raw
    content becomes a list of paragraphs, and paragraphs are grouped greedily
    into "pages" of roughly `target` characters. */
module Pagination {
  import opened Text

  const ParagraphBreak: string := "\n\n"

  /** Default of the `target_page_size` argument. */
  const DefaultTargetPageSize: int := 2000

  function Flatten(groups: seq<seq<string>>): seq<string>
  {
    if |groups| == 0 then [] else groups[0] + Flatten(groups[1..])
  }

  /** Each group rendered as one page: its paragraphs joined by a blank line. */
  function JoinEach(groups: seq<seq<string>>): (pages: seq<string>)
    ensures |pages| == |groups|
    ensures forall i :: 0 <= i < |groups| ==> pages[i] == Join(groups[i], ParagraphBreak)
  {
    if |groups| == 0 then [] else [Join(groups[0], ParagraphBreak)] + JoinEach(groups[1..])
  }

  predicate AllNonEmpty(groups: seq<seq<string>>) {
    forall i :: 0 <= i < |groups| ==> |groups[i]| > 0
  }

  /** The value the running counter had when page `i` was closed: the page's
      length, plus 2 on the first page, whose first paragraph was counted with
      a separator that is never written. */
  function CountedSize(groups: seq<seq<string>>, i: nat): int
    requires i < |groups|
  {
    |Join(groups[i], ParagraphBreak)| + (if i == 0 then 2 else 0)
  }

  /** Page `i` respects the size target unless it is a single paragraph. */
  predicate PageFits(groups: seq<seq<string>>, i: nat, target: int)
    requires i < |groups|
  {
    |groups[i]| >= 2 ==> CountedSize(groups, i) <= target + 2
  }

  /** Page `i + 1` was started because its first paragraph did not fit on page `i`. */
  predicate BreakForced(groups: seq<seq<string>>, i: nat, target: int)
    requires i + 1 < |groups| && |groups[i + 1]| > 0
  {
    CountedSize(groups, i) + |groups[i + 1][0]| > target
  }

  /** The loop of `split_text_into_pages` as a recursion over the remaining
      paragraphs: `done` are the finished pages, `current` the page under
      construction and `size` the running counter. */
  function Group(paras: seq<string>, target: int, done: seq<seq<string>>,
                 current: seq<string>, size: int): seq<seq<string>>
    decreases |paras|
  {
    if |paras| == 0 then
      if |current| > 0 then done + [current] else done
    else if size + |paras[0]| > target && |current| > 0 then
      Group(paras[1..], target, done + [current], [paras[0]], |paras[0]|)
    else
      Group(paras[1..], target, done, current + [paras[0]], size + |paras[0]| + 2)
  }

  /** The paragraph groups that become pages. */
  function PageGroups(paragraphs: seq<string>, target: int): seq<seq<string>>
  {
    Group(paragraphs, target, [], [], 0)
  }

  /** Lines 31-55 of `split_text_into_pages`, shared verbatim by the TXT and
      DOCX processors: group, join, and fall back to one page if none was made. */
  function PagesOf(paragraphs: seq<string>, target: int): seq<string>
  {
    var pages := JoinEach(PageGroups(paragraphs, target));
    if |pages| == 0 then [Join(paragraphs, ParagraphBreak)] else pages
  }

  /** `split_text_into_pages`: never empty, `[""]` for no paragraphs, at most
      one page per paragraph, and rejoining the pages with a blank line gives
      back the paragraphs joined with a blank line. */
  function SplitTextIntoPages(paragraphs: seq<string>, target: int): (pages: seq<string>)
    ensures |pages| > 0
    ensures |paragraphs| == 0 ==> pages == [""]
    ensures |paragraphs| > 0 ==> |pages| <= |paragraphs|
    ensures Join(pages, ParagraphBreak) == Join(paragraphs, ParagraphBreak)
  {
    if |paragraphs| == 0 then [""]
    else
      PagesOfSpec(paragraphs, target);
      PagesOf(paragraphs, target)
  }

  // ---------------------------------------------------------------------------
  // Lemmas

  lemma {:induction false} FlattenAppend(a: seq<seq<string>>, b: seq<seq<string>>)
    ensures Flatten(a + b) == Flatten(a) + Flatten(b)
    decreases |a|
  {
    if |a| == 0 {
      assert a + b == b;
    } else {
      assert (a + b)[1..] == a[1..] + b;
      FlattenAppend(a[1..], b);
    }
  }

  /** There are no more non-empty groups than paragraphs in them. */
  lemma {:induction false} GroupCountBound(groups: seq<seq<string>>)
    requires AllNonEmpty(groups)
    ensures |groups| <= |Flatten(groups)|
    decreases |groups|
  {
    if |groups| > 0 {
      GroupCountBound(groups[1..]);
    }
  }

  /** Joining the joined groups equals joining all their paragraphs. */
  lemma {:induction false} JoinFlatten(groups: seq<seq<string>>)
    requires AllNonEmpty(groups)
    ensures Join(JoinEach(groups), ParagraphBreak) == Join(Flatten(groups), ParagraphBreak)
    decreases |groups|
  {
    if |groups| > 1 {
      var rest := groups[1..];
      JoinFlatten(rest);
      assert JoinEach(groups)[1..] == JoinEach(rest);
      assert |Flatten(rest)| > 0 by {
        assert |rest[0]| > 0;
      }
      JoinAppend(groups[0], Flatten(rest), ParagraphBreak);
    } else if |groups| == 1 {
      assert Flatten(groups) == groups[0] + Flatten([]);
      assert groups[0] + [] == groups[0];
    }
  }

  /** The loop never drops, duplicates or reorders a paragraph, keeps the
      pages it has finished, and never closes an empty page. */
  lemma {:induction false} GroupCovers(paras: seq<string>, target: int, done: seq<seq<string>>,
                                       current: seq<string>, size: int)
    requires AllNonEmpty(done)
    ensures var r := Group(paras, target, done, current, size);
      && Flatten(r) == Flatten(done) + current + paras
      && AllNonEmpty(r)
      && |r| >= |done| && r[..|done|] == done
      && (|current| > 0 || |paras| > 0 ==> |r| > |done|)
    decreases |paras|
  {
    var r := Group(paras, target, done, current, size);
    if |paras| == 0 {
      if |current| > 0 {
        FlattenAppend(done, [current]);
        assert Flatten([current]) == current + Flatten([]);
        assert (done + [current])[..|done|] == done;
      }
    } else if size + |paras[0]| > target && |current| > 0 {
      GroupCovers(paras[1..], target, done + [current], [paras[0]], |paras[0]|);
      FlattenAppend(done, [current]);
      assert Flatten([current]) == current + Flatten([]);
      assert r[..|done|] == r[..|done| + 1][..|done|];
      assert paras == [paras[0]] + paras[1..];
    } else {
      GroupCovers(paras[1..], target, done, current + [paras[0]], size + |paras[0]| + 2);
      assert paras == [paras[0]] + paras[1..];
    }
  }

  /** The counter invariant of the loop: it equals the length of the page under
      construction, plus 2 while that is the first page. */
  predicate CounterInvariant(done: seq<seq<string>>, current: seq<string>, size: int)
  {
    && (|current| == 0 ==> size == 0 && |done| == 0)
    && (|current| > 0 ==> size == |Join(current, ParagraphBreak)| + (if |done| == 0 then 2 else 0))
  }

  /** The pages finished so far respect the size target and each break was forced. */
  predicate GreedySoFar(done: seq<seq<string>>, current: seq<string>, target: int)
    requires AllNonEmpty(done)
  {
    && (forall i :: 0 <= i < |done| ==> PageFits(done, i, target))
    && (forall i :: 0 <= i < |done| - 1 ==> BreakForced(done, i, target))
    && (|done| > 0 && |current| > 0 ==> CountedSize(done, |done| - 1) + |current[0]| > target)
    && (|current| >= 2 ==> |Join(current, ParagraphBreak)| + (if |done| == 0 then 2 else 0) <= target + 2)
  }

  /** Closing the current page keeps every finished page fitting and every
      break forced. */
  lemma ExtendGreedy(done: seq<seq<string>>, current: seq<string>, target: int)
    requires AllNonEmpty(done) && |current| > 0
    requires GreedySoFar(done, current, target)
    ensures AllNonEmpty(done + [current])
    ensures forall i :: 0 <= i < |done| + 1 ==> PageFits(done + [current], i, target)
    ensures forall i :: 0 <= i < |done| ==> BreakForced(done + [current], i, target)
  {
    var r := done + [current];
    forall i | 0 <= i < |r|
      ensures PageFits(r, i, target)
    {
      if i < |done| {
        assert r[i] == done[i];
        assert CountedSize(r, i) == CountedSize(done, i);
        assert PageFits(done, i, target);
      } else {
        assert r[i] == current;
      }
    }
    forall i | 0 <= i < |done|
      ensures BreakForced(r, i, target)
    {
      assert r[i] == done[i];
      assert CountedSize(r, i) == CountedSize(done, i);
      if i < |done| - 1 {
        assert r[i + 1] == done[i + 1];
        assert BreakForced(done, i, target);
      } else {
        assert r[i + 1] == current;
      }
    }
  }

  lemma JoinSnoc(current: seq<string>, p: string)
    requires |current| > 0
    ensures |Join(current + [p], ParagraphBreak)| == |Join(current, ParagraphBreak)| + 2 + |p|
  {
    JoinAppend(current, [p], ParagraphBreak);
  }

  /** Every page the loop produces respects the size target unless it holds a
      single paragraph, and every page break was forced by the counter. */
  lemma {:induction false} GroupIsGreedy(paras: seq<string>, target: int, done: seq<seq<string>>,
                                         current: seq<string>, size: int)
    requires AllNonEmpty(done)
    requires CounterInvariant(done, current, size)
    requires GreedySoFar(done, current, target)
    ensures var r := Group(paras, target, done, current, size);
      && AllNonEmpty(r)
      && (forall i :: 0 <= i < |r| ==> PageFits(r, i, target))
      && (forall i :: 0 <= i < |r| - 1 ==> BreakForced(r, i, target))
    decreases |paras|
  {
    GroupCovers(paras, target, done, current, size);
    if |paras| == 0 {
      if |current| > 0 {
        var r := done + [current];
        ExtendGreedy(done, current, target);
      }
    } else {
      var p := paras[0];
      if size + |p| > target && |current| > 0 {
        var done' := done + [current];
        ExtendGreedy(done, current, target);
        assert CountedSize(done', |done|) == size;
        assert CountedSize(done', |done'| - 1) + |p| > target;
        assert Join([p], ParagraphBreak) == p;
        GroupIsGreedy(paras[1..], target, done', [p], |p|);
      } else {
        var current' := current + [p];
        if |current| > 0 {
          JoinSnoc(current, p);
        } else {
          assert current' == [p];
        }
        GroupIsGreedy(paras[1..], target, done, current', size + |p| + 2);
      }
    }
  }

  /** The pages of a paragraph list: its groups cover it exactly, in order, none
      is empty, there is one whenever there is a paragraph, each respects the
      target unless it is a single paragraph, and each break was forced. */
  lemma PageGroupsSpec(paragraphs: seq<string>, target: int)
    ensures var g := PageGroups(paragraphs, target);
      && Flatten(g) == paragraphs
      && AllNonEmpty(g)
      && (|paragraphs| > 0 ==> |g| > 0)
      && |g| <= |paragraphs|
      && (forall i :: 0 <= i < |g| ==> PageFits(g, i, target))
      && (forall i :: 0 <= i < |g| - 1 ==> BreakForced(g, i, target))
  {
    var g := PageGroups(paragraphs, target);
    GroupCovers(paragraphs, target, [], [], 0);
    GroupIsGreedy(paragraphs, target, [], [], 0);
    assert Flatten([]) + [] + paragraphs == paragraphs;
    GroupCountBound(g);
  }

  /** A page holding two or more paragraphs is at most `target + 2`
      characters long (at most `target` for the first page): the counter
      under-counts the separator before the second paragraph after a break. */
  lemma PageSizeBound(paragraphs: seq<string>, target: int, i: nat)
    requires i < |PageGroups(paragraphs, target)|
    requires |PageGroups(paragraphs, target)[i]| >= 2
    ensures |PagesOf(paragraphs, target)[i]| <= target + 2
    ensures i == 0 ==> |PagesOf(paragraphs, target)[i]| <= target
  {
    PageGroupsSpec(paragraphs, target);
    assert PageFits(PageGroups(paragraphs, target), i, target);
  }

  /** For a non-empty paragraph list the fallback page of line 52 is never
      used, and the pages are exactly the joined groups. */
  lemma PagesOfSpec(paragraphs: seq<string>, target: int)
    requires |paragraphs| > 0
    ensures PagesOf(paragraphs, target) == JoinEach(PageGroups(paragraphs, target))
    ensures 0 < |PagesOf(paragraphs, target)| <= |paragraphs|
    ensures Join(PagesOf(paragraphs, target), ParagraphBreak) == Join(paragraphs, ParagraphBreak)
  {
    var g := PageGroups(paragraphs, target);
    PageGroupsSpec(paragraphs, target);
    JoinFlatten(g);
  }

  // ---------------------------------------------------------------------------
  // Paragraph parsing

  /** `parse_text_into_paragraphs`: `[]` for blank content; otherwise a
      non-empty list of non-empty, stripped paragraphs. */
  function ParseTextIntoParagraphs(content: string): (r: seq<string>)
    ensures r == [] <==> IsBlank(content)
    ensures forall i :: 0 <= i < |r| ==> r[i] != "" && Stripped(r[i])
  {
    if Strip(content) == "" then []
    else
      var byBreak := StrippedNonBlank(Split(content, ParagraphBreak));
      StrippedNonBlankElements(Split(content, ParagraphBreak));
      if |byBreak| > 0 then byBreak
      else
        var byLine := StrippedNonBlank(Split(content, "\n"));
        StrippedNonBlankElements(Split(content, "\n"));
        if |byLine| > 0 then byLine
        else [Strip(content)]
  }

  /** Both fallbacks are dead code: non-blank content always has a non-blank
      piece between blank-line breaks. */
  lemma ParagraphFallbacksUnreachable(content: string)
    requires !IsBlank(content)
    ensures ParseTextIntoParagraphs(content) == StrippedNonBlank(Split(content, ParagraphBreak))
  {
    NonBlankSplitKeepsAPiece(content, ParagraphBreak);
  }
}
