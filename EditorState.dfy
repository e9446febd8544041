/** The editor component's own state and the handlers that update it: the
    page list after each document change, the live counters, the page the
    user last picked, the zoom and the margins. */
module EditorState {
  import opened Splitting
  import opened Pagination
  import opened Metrics
  import opened Viewport

  datatype Option<T> = None | Some(value: T)

  class Editor {
    var pages: PageList
    var activePage: int
    var zoomFill: bool
    var zoomLevel: int
    var charCount: nat
    var wordCount: nat
    var margins: Margins
    var marginUnit: string

    /** The state the component starts in: no pages until the document is
        first split, page 1 active, 100% zoom, one-inch margins. */
    constructor ()
      ensures pages == Paged([]) && activePage == 1
      ensures !zoomFill && zoomLevel == 100
      ensures charCount == 0 && wordCount == 0
      ensures margins == Margins(1.0, 1.0, 1.0, 1.0) && marginUnit == "in"
    {
      pages := Paged([]);
      activePage := 1;
      zoomFill := false;
      zoomLevel := 100;
      charCount := 0;
      wordCount := 0;
      margins := Margins(1.0, 1.0, 1.0, 1.0);
      marginUnit := "in";
    }

    /** Re-split the document after a change. The active page is left as it
        was, even when the new page list is shorter. */
    method UpdatePages(content: ContentField)
      modifies this`pages
      ensures pages == Paginate(content) && pages.PageCount() >= 1
    {
      pages := SplitPages(content);
    }

    /** Recount after a change, from the text with blocks joined by a space. */
    method UpdateCounts(betweenText: string)
      modifies this`charCount, this`wordCount
      ensures charCount == |betweenText| && wordCount == WordCount(betweenText)
      ensures wordCount == Runs(betweenText, IsWhitespace)
    {
      charCount := |betweenText|;
      wordCount := WordCount(betweenText);
    }

    /** A document change: the pages are split first, then the counters. */
    method DocumentChanged(content: ContentField, betweenText: string)
      modifies this`pages, this`charCount, this`wordCount
      ensures pages == Paginate(content)
      ensures charCount == |betweenText| && wordCount == WordCount(betweenText)
    {
      UpdatePages(content);
      UpdateCounts(betweenText);
    }

    /** The statistics dialog, reading the counters and the dialog's text. */
    function ModalStats(plainText: string): (r: Stats)
      reads this
      ensures r.charsWithSpaces == charCount && r.words == wordCount
      ensures r.charsWithoutSpaces == charCount - CountWhere(plainText, IsSpace)
      ensures r.paragraphs == Runs(plainText, IsNewline)
      ensures r.readingMinutes * WordsPerMinute >= wordCount
      ensures r.readingMinutes > 0 ==> (r.readingMinutes - 1) * WordsPerMinute < wordCount
    {
      Stats(charCount, CharsWithoutSpaces(charCount, plainText), wordCount,
            ParagraphCount(plainText), ReadingMinutes(wordCount))
    }

    /** After a document change the dialog shows the statistics of the new
        text. */
    lemma ModalAfterChange(betweenText: string, plainText: string)
      requires charCount == |betweenText| && wordCount == WordCount(betweenText)
      ensures ModalStats(plainText) == DocumentStats(betweenText, plainText)
    {
    }

    /** A click on the thumbnail or page button of page `idx` (counted from
        0) makes page idx + 1 active; the buttons exist only for the pages
        rendered, so the active page is then a page of the list. */
    method SelectPage(idx: nat)
      requires idx < pages.PageCount()
      modifies this`activePage
      ensures activePage == idx + 1
      ensures 1 <= activePage <= pages.PageCount()
    {
      activePage := idx + 1;
    }

    /** The fill-zoom button flips fill mode. When fill mode comes on and a
        page is mounted, the zoom level becomes the fill zoom of the width
        of the page's container; turning fill mode off keeps the level. */
    method ToggleZoomFill(containerWidth: Option<nat>)
      modifies this`zoomFill, this`zoomLevel
      ensures zoomFill == !old(zoomFill)
      ensures zoomLevel ==
        if zoomFill && containerWidth.Some? then (containerWidth.value + 4) / 8
        else old(zoomLevel)
    {
      zoomFill := !zoomFill;
      if zoomFill && containerWidth.Some? {
        zoomLevel := FillZoom(containerWidth.value as real);
        FillZoomWholePixels(containerWidth.value);
      }
    }

    /** Picking a zoom level from the list sets it and leaves fill mode. */
    method SelectZoom(level: int)
      modifies this`zoomFill, this`zoomLevel
      ensures zoomLevel == level && !zoomFill
    {
      zoomLevel := level;
      zoomFill := false;
    }

    /** Editing one margin field changes that side only. */
    method SetMargin(side: Side, value: real)
      modifies this`margins
      ensures MarginAt(margins, side) == value
      ensures forall other :: other != side ==> MarginAt(margins, other) == MarginAt(old(margins), other)
    {
      margins := WithMargin(margins, side, value);
    }

    method SetMarginUnit(unit: string)
      modifies this`marginUnit
      ensures marginUnit == unit
    {
      marginUnit := unit;
    }

    /** The padding every rendered page gets from the margins. */
    function PagePadding(): (px: Margins)
      reads this
      ensures forall side :: MarginAt(px, side) == ToPixels(MarginAt(margins, side), marginUnit)
    {
      Padding(margins, marginUnit)
    }
  }
}
