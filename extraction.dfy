/** `extract_text_from_pdf`: page texts are gathered from a primary PDF
    backend, and from a secondary one only when the primary gathered
    nothing.  Each backend is abstracted as what it yields. */
module Extraction {
  import opened Wrappers
  import opened PyStr
  import opened Sequences

  /** What one backend yields for the document: `Unavailable` when its
      library could not be imported; otherwise the text of each page it
      read (`None` when a page has no text layer), and whether it raised
      after those pages (on opening, or on the page that follows). */
  datatype Backend =
    | Unavailable
    | Available(pages: seq<Option<string>>, raises: bool)

  datatype ExtractError =
    | NoBackend        // ImportError: neither library is installed
    | NoTextExtracted  // "Could not extract text from PDF"

  /** What one page adds: `page_text + "\n"` when the text is non-empty. */
  function PageText(page: Option<string>): string
  {
    if page.Some? && page.value != [] then page.value + "\n" else []
  }

  /** The text gathered from `pages`, in page order. */
  function Gathered(pages: seq<Option<string>>): string
  {
    if pages == [] then []
    else Gathered(pages[..|pages| - 1]) + PageText(pages[|pages| - 1])
  }

  /** The text a backend contributes; an unavailable backend gives none. */
  function BackendText(b: Backend): string
  {
    if b.Available? then Gathered(b.pages) else []
  }

  /** The outcome of `extract_text_from_pdf`. */
  function ExtractSpec(primary: Backend, secondary: Backend): Result<string, ExtractError>
  {
    if primary.Unavailable? && secondary.Unavailable? then Err(NoBackend)
    else
      var text := if BackendText(primary) == [] then BackendText(secondary) else BackendText(primary);
      if text == [] then Err(NoTextExtracted) else Ok(Strip(text))
  }

  /** One backend's page loop: `text += page_text + "\n"` for every page
      with text.  A raise after the listed pages ends the loop and keeps
      what was gathered. */
  method AccumulatePages(text: string, pages: seq<Option<string>>) returns (r: string)
    ensures r == text + Gathered(pages)
  {
    r := text;
    var i := 0;
    while i < |pages|
      invariant 0 <= i <= |pages|
      invariant r == text + Gathered(pages[..i])
    {
      var pageText := pages[i];
      ghost var before := r;
      if pageText.Some? && pageText.value != [] {
        r := r + (pageText.value + "\n");
      }
      AccumulateStep(text, pages, i, before, r);
      i := i + 1;
    }
    assert pages[..i] == pages;
  }

  /** `extract_text_from_pdf` */
  method ExtractTextFromPdf(primary: Backend, secondary: Backend) returns (r: Result<string, ExtractError>)
    ensures r == ExtractSpec(primary, secondary)
  {
    if primary.Unavailable? && secondary.Unavailable? {
      return Err(NoBackend);
    }
    var text := "";
    if primary.Available? {
      text := AccumulatePages(text, primary.pages);
    }
    assert text == BackendText(primary);
    if text == [] && secondary.Available? {
      text := AccumulatePages(text, secondary.pages);
    }
    assert text == if BackendText(primary) == [] then BackendText(secondary) else BackendText(primary);
    if text == [] {
      return Err(NoTextExtracted);
    }
    r := Ok(Strip(text));
  }

  /** Gathering one more page appends what that page adds. */
  lemma GatheredStep(pages: seq<Option<string>>, i: nat)
    requires i < |pages|
    ensures Gathered(pages[..i + 1]) == Gathered(pages[..i]) + PageText(pages[i])
  {
    assert pages[..i + 1][..i] == pages[..i];
  }

  /** One turn of the page loop keeps `r == text + Gathered(pages[..i])`. */
  lemma AccumulateStep(text: string, pages: seq<Option<string>>, i: nat, r: string, r': string)
    requires i < |pages| && r == text + Gathered(pages[..i])
    requires r' == if pages[i].Some? && pages[i].value != [] then r + (pages[i].value + "\n") else r
    ensures r' == text + Gathered(pages[..i + 1])
  {
    GatheredStep(pages, i);
    AppendAssoc(text, Gathered(pages[..i]), PageText(pages[i]));
  }

  // ---------------------------------------------------------------------
  // Properties

  /** A backend gathers nothing exactly when every page is missing or
      empty; otherwise what it gathers ends in a newline. */
  lemma {:induction false} GatheredEmpty(pages: seq<Option<string>>)
    ensures Gathered(pages) == [] <==> forall i :: 0 <= i < |pages| ==> PageText(pages[i]) == []
    ensures Gathered(pages) != [] ==> Gathered(pages)[|Gathered(pages)| - 1] == '\n'
  {
    if pages != [] {
      var init := pages[..|pages| - 1];
      var last := pages[|pages| - 1];
      GatheredEmpty(init);
      assert Gathered(pages) == Gathered(init) + PageText(last);
      if PageText(last) != [] {
        assert PageText(last) == last.value + "\n";
      } else {
        assert Gathered(pages) == Gathered(init);
      }
      assert forall i :: 0 <= i < |init| ==> init[i] == pages[i];
    }
  }

  /** Gathering distributes over consecutive runs of pages. */
  lemma {:induction false} GatheredAppend(a: seq<Option<string>>, b: seq<Option<string>>)
    ensures Gathered(a + b) == Gathered(a) + Gathered(b)
    decreases |b|
  {
    if b != [] {
      var init := b[..|b| - 1];
      assert (a + b)[..|a + b| - 1] == a + init;
      GatheredAppend(a, init);
    } else {
      assert a + b == a;
    }
  }

  /** Every page with text contributes its text and a newline, in page
      order. */
  lemma {:induction false} GatheredSplitsAtPage(pages: seq<Option<string>>, i: nat)
    requires i < |pages|
    ensures Gathered(pages) == Gathered(pages[..i]) + PageText(pages[i]) + Gathered(pages[i + 1..])
  {
    assert pages == pages[..i] + [pages[i]] + pages[i + 1..];
    GatheredAppend(pages[..i] + [pages[i]], pages[i + 1..]);
    GatheredAppend(pages[..i], [pages[i]]);
    assert [pages[i]][..0] == [];
  }

  /** The outcome of extraction, case by case: no backend importable gives
      an ImportError; the secondary backend is consulted only when the
      primary gathered nothing; nothing gathered from either is an error;
      otherwise the trimmed gathered text is returned. */
  lemma ExtractOutcome(primary: Backend, secondary: Backend)
    ensures ExtractSpec(primary, secondary) == Err(NoBackend) <==>
      primary.Unavailable? && secondary.Unavailable?
    ensures ExtractSpec(primary, secondary) == Err(NoTextExtracted) <==>
      && !(primary.Unavailable? && secondary.Unavailable?)
      && (primary.Available? ==> forall i :: 0 <= i < |primary.pages| ==> PageText(primary.pages[i]) == [])
      && (secondary.Available? ==> forall i :: 0 <= i < |secondary.pages| ==> PageText(secondary.pages[i]) == [])
    ensures BackendText(primary) != [] ==>
      ExtractSpec(primary, secondary) == Ok(Strip(BackendText(primary)))
    ensures BackendText(primary) == [] && BackendText(secondary) != [] ==>
      ExtractSpec(primary, secondary) == Ok(Strip(BackendText(secondary)))
  {
    if primary.Available? {
      GatheredEmpty(primary.pages);
    }
    if secondary.Available? {
      GatheredEmpty(secondary.pages);
    }
  }

  /** A backend that raises after reading some pages keeps the text those
      pages gave: the outcome is as if it had not raised. */
  lemma RaiseKeepsGatheredText(pages: seq<Option<string>>, secondary: Backend)
    ensures ExtractSpec(Available(pages, true), secondary) == ExtractSpec(Available(pages, false), secondary)
    ensures ExtractSpec(secondary, Available(pages, true)) == ExtractSpec(secondary, Available(pages, false))
  {
  }

  /** Emptiness is tested before trimming: pages holding only white space
      give a successful, empty result. */
  lemma WhitespacePagesGiveEmptyText()
    ensures ExtractSpec(Available([Some(" ")], false), Unavailable) == Ok("")
  {
    var pages := [Some(" ")];
    assert Gathered(pages) == " \n" by {
      assert pages[..0] == [];
    }
    assert Strip(" \n") == "" by {
      assert " \n"[1..] == "\n";
      assert "\n"[1..] == [];
      assert TrimStart("\n") == [];
      assert TrimStart(" \n") == [];
    }
  }
}
