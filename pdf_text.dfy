/** Joining the text of a document's pages: every page that yields text
    contributes that text and a newline, and the whole is stripped of
    surrounding whitespace. A page is `None` when the PDF library finds no
    text on it. */
module PdfText {
  import opened Text
  import opened Options

  /** A page counts when its text is present and not empty (truthy). */
  predicate HasText(page: Option<string>)
  {
    page.Some? && page.value != []
  }

  /** The texts of the pages that have one, in page order. */
  function PageTexts(pages: seq<Option<string>>): (ts: seq<string>)
    ensures |ts| <= |pages|
    ensures forall k :: 0 <= k < |ts| ==> ts[k] != [] && Some(ts[k]) in pages
    ensures forall k :: 0 <= k < |pages| && HasText(pages[k]) ==> pages[k].value in ts
  {
    if pages == [] then []
    else
      var front, last := pages[..|pages| - 1], pages[|pages| - 1];
      var init := PageTexts(front);
      assert forall k :: 0 <= k < |front| ==> front[k] == pages[k];
      if HasText(last) then init + [last.value] else init
  }

  /** The text accumulated over the pages before stripping: each page's text
      followed by a newline. */
  function Accumulated(pages: seq<Option<string>>): string
  {
    if pages == [] then []
    else
      var last := pages[|pages| - 1];
      Accumulated(pages[..|pages| - 1]) + (if HasText(last) then last.value + "\n" else [])
  }

  /** Before stripping, the text is the page texts joined by newlines, with
      one more newline after the last, or empty when no page has text. */
  lemma {:induction false} AccumulatedIsJoin(pages: seq<Option<string>>)
    ensures Accumulated(pages) ==
      (if PageTexts(pages) == [] then [] else Join(PageTexts(pages), "\n") + "\n")
    decreases |pages|
  {
    if pages != [] {
      var init, last := pages[..|pages| - 1], pages[|pages| - 1];
      AccumulatedIsJoin(init);
      if HasText(last) && PageTexts(init) != [] {
        JoinSnoc(PageTexts(init), last.value, "\n");
      } else if HasText(last) {
        assert PageTexts(pages) == [last.value];
      }
    }
  }

  /** `extract_text_from_pdf` after the pages are opened: the loop appends
      each page's text and a newline, then strips the result. */
  method ExtractText(pages: seq<Option<string>>) returns (text: string)
    ensures text == Strip(Accumulated(pages))
  {
    var acc := "";
    for i := 0 to |pages|
      invariant acc == Accumulated(pages[..i])
    {
      assert pages[..i + 1][..i] == pages[..i];
      if pages[i].Some? && pages[i].value != [] {
        acc := acc + pages[i].value + "\n";
      }
    }
    assert pages[..|pages|] == pages;
    text := Strip(acc);
  }

  /** A document with no page of text gives the empty text. */
  lemma {:induction false} NoTextPagesGiveEmpty(pages: seq<Option<string>>)
    requires forall k :: 0 <= k < |pages| ==> !HasText(pages[k])
    ensures PageTexts(pages) == [] && Strip(Accumulated(pages)) == []
  {
    NoTextPagesHaveNoTexts(pages);
    AccumulatedIsJoin(pages);
  }

  lemma {:induction false} NoTextPagesHaveNoTexts(pages: seq<Option<string>>)
    requires forall k :: 0 <= k < |pages| ==> !HasText(pages[k])
    ensures PageTexts(pages) == []
    decreases |pages|
  {
    if pages != [] {
      NoTextPagesHaveNoTexts(pages[..|pages| - 1]);
    }
  }
}
