# Pagination and statistics core of the TipTap document editor

The editor component keeps one continuous rich-text document and shows it
as a column of fixed-width pages. This project models, in Dafny, the logic
behind that view:

- **Pagination** (`Pagination`): after every document change the
  component walks the document's top-level nodes once, closing the page
  being filled at each `pageBreak` node (even when it is empty) and closing
  the last page after the walk. A missing content field counts as an empty
  document. If walking the content throws, the page list becomes one page
  holding the raw content. `SplitPages` is that loop, and it is proved to
  compute `Split`, an independent recursive definition. The lemmas about
  `Split` cover several properties. A document with k breaks has k + 1
  pages. No page holds a break. The pages laid end to end are the document
  without its breaks. Joining the pages with breaks gives the document back,
  and every non-empty list of break-free pages comes from exactly one
  document. A
  leading break, a trailing break and two adjacent breaks each give an empty
  page.
- **Splitting** (`Splitting`): one generic splitter serves both the
  pagination and JavaScript's string split. Splitting at each single
  separator models the split at `" "`. Splitting at runs of separators
  models the regular-expression splits at white space and at line feeds.
  The module also covers trim and the dropping of empty strings.
- **Statistics** (`Metrics`): the live character and word counters and the
  statistics dialog. The dialog shows characters with and without spaces,
  words, paragraphs and the reading time. Both flattened texts of the
  document are inputs. The counters read the text with blocks joined by a
  space. The dialog reads the editor's own plain text.
- **Viewport** (`Viewport`): margin units converted to pixel padding; the
  fill-zoom level computed from the width around the pages.
- **Component state** (`EditorState.Editor`): a class whose fields are the
  component's state variables. Its methods are the handlers that update
  them: re-splitting and recounting on a change, page selection from a
  thumbnail or page button, zoom toggling and selection, and margin edits.

Where the component's behaviour might surprise: it never clamps the active
page when a change leaves fewer pages, so `Editor.UpdatePages` leaves
`activePage` as it was. Turning fill zoom off keeps the fill level rather
than restoring the previous one. The dialog's "characters without spaces"
subtracts the spaces of the plain text from the length of the other,
space-joined text, so the two need not agree.

## Model

| member | source | states |
|---|---|---|
| Splitting.SplitAt | EditorComponent.jsx:166-176 | splitting at single separators gives one more part than there are separators |
| Splitting.SplitAtSeparatorFree | EditorComponent.jsx:169-174 | no part produced by a split contains a separator |
| Splitting.FlattenSplitAt | EditorComponent.jsx:167-176 | the parts laid end to end are the input with its separators removed, order kept |
| Splitting.SplitAtAppend | EditorComponent.jsx:169-171 | a separator splits the part list into the parts before it followed by the parts after it |
| Splitting.SplitAtSnoc | EditorComponent.jsx:169-175 | one more element at the end: a separator adds an empty last part, anything else extends the last part (the loop's step) |
| Splitting.JoinSplitAt | EditorComponent.jsx:166-176 | joining the parts with the separator gives back the input when the separator value is unique |
| Splitting.SplitAtJoin | EditorComponent.jsx:166-176 | splitting separator-joined, separator-free parts gives those parts back |
| Splitting.SplitAtNoSeparator | EditorComponent.jsx:172-176 | an input without separators is a single part holding all of it |
| Splitting.NonEmpty | EditorComponent.jsx:233 | dropping empty strings keeps exactly the non-empty parts of the list: every part kept was in it and is non-empty, and every non-empty part is kept |
| Splitting.NonEmptyAppend | EditorComponent.jsx:233 | dropping empty strings works part by part, so the kept parts stay in their original order |
| Splitting.LeadingCount | EditorComponent.jsx:233 | the number of leading separators: all elements before it are separators and the one at it, if any, is not |
| Splitting.DropWhere | EditorComponent.jsx:233 | trimming the start leaves nothing longer and no leading white space |
| Splitting.DropWhereLeading | EditorComponent.jsx:233 | trimming the start removes exactly the leading separators and keeps the rest as a suffix |
| Splitting.DropLastWhere | EditorComponent.jsx:233 | trimming the end leaves nothing longer and no trailing white space |
| Splitting.DropLastWhereTrailing | EditorComponent.jsx:233 | trimming the end keeps a prefix and removes separators only |
| Splitting.DropBothEnds | EditorComponent.jsx:233 | trimming both ends keeps the stretch after the leading separators, with separators only after it |
| Splitting.SplitRuns | EditorComponent.jsx:233 | a split at runs of separators gives at least one part, and no part holds a separator |
| Splitting.NonEmptySplitRuns | EditorComponent.jsx:233 | after empty strings are dropped, splitting at runs and at single separators give the same parts |
| Splitting.NonEmptySplitAtDrop | EditorComponent.jsx:233 | trimming leading separators does not change the non-empty parts |
| Splitting.NonEmptySplitAtDropLast | EditorComponent.jsx:233 | trimming trailing separators does not change the non-empty parts |
| Splitting.NonEmptySplitAtCount | EditorComponent.jsx:233 | the number of non-empty parts is the number of maximal runs of non-separators |
| Splitting.RunsZero | EditorComponent.jsx:233 | there are no runs exactly when every element is a separator |
| Splitting.RunsAroundSeparator | EditorComponent.jsx:233 | a separator divides the runs: those before it and those after it are counted apart |
| Splitting.RunsOfStretch | EditorComponent.jsx:233 | a non-empty stretch without separators is exactly one run |
| Splitting.CountWhereAppend | EditorComponent.jsx:654 | the number of separators in a concatenation is the sum over its two halves |
| Pagination.Split | EditorComponent.jsx:166-176 | a document with k page breaks has exactly k + 1 pages |
| Pagination.Paginate | EditorComponent.jsx:164-182 | the page list always has at least one page; missing content gives one empty page; a node list gives one page per break plus one |
| Pagination.SplitPages | EditorComponent.jsx:163-183 | the one-pass loop with an accumulator page (and its catch fallback) computes exactly the page list Paginate defines |
| Pagination.SplitStep | EditorComponent.jsx:169-175 | one loop step keeps the invariant: a break closes the page being filled and opens an empty one, any other node extends it |
| Pagination.PagesHoldNoBreaks | EditorComponent.jsx:169-174 | no page ever contains a page-break node |
| Pagination.PagesConcatenate | EditorComponent.jsx:167-176 | the pages in order, concatenated, are the document's non-break nodes, unchanged and unreordered |
| Pagination.PagesJoinToDocument | EditorComponent.jsx:166-176 | putting one break between each two pages gives back the document, so nothing is lost |
| Pagination.DocumentOfPages | EditorComponent.jsx:166-176 | any non-empty list of break-free pages is the page list of the document that joins them with breaks |
| Pagination.SplitAroundBreak | EditorComponent.jsx:169-171 | the pages of before + break + after are the pages of before followed by the pages of after |
| Pagination.EmptyDocument | EditorComponent.jsx:168-176 | the empty document gives exactly one empty page |
| Pagination.NoBreakOnePage | EditorComponent.jsx:172-176 | a document without breaks is one page holding the whole document |
| Pagination.LeadingBreak | EditorComponent.jsx:169-171 | a break as first node gives an empty first page |
| Pagination.TrailingBreak | EditorComponent.jsx:169-176 | a break as last node gives an empty last page |
| Pagination.AdjacentBreaks | EditorComponent.jsx:169-171 | two adjacent breaks give an empty page between the pages around them |
| Pagination.SplitExamples | EditorComponent.jsx:166-176 | [break] gives two empty pages; [a, break, break, b] gives [a], [], [b] |
| Metrics.CharsWithoutSpaces | EditorComponent.jsx:654 | the character count less the number of space characters of the dialog's text |
| Metrics.CharsWithoutSpacesSameText | EditorComponent.jsx:654 | when both texts are the same, the value is the number of non-space characters |
| Metrics.WhitespaceCharacters | EditorComponent.jsx:233 | tab, line feed, carriage return, space, no-break space, ideographic space, line separator and byte order mark are white space; letters, the zero width space and U+0085 are not |
| Metrics.Trim | EditorComponent.jsx:233 | trim keeps the stretch of the text after its leading white space, followed only by white space, and neither starting nor ending with white space |
| Metrics.Words | EditorComponent.jsx:233 | every word is non-empty and free of white space |
| Metrics.WordCount | EditorComponent.jsx:233 | the live word count is the number of maximal runs of characters other than white space |
| Metrics.Paragraphs | EditorComponent.jsx:658 | every paragraph is non-empty and free of line feeds |
| Metrics.ParagraphCount | EditorComponent.jsx:658 | the paragraph count is the number of maximal runs without a line feed, zero exactly when the text is only line feeds |
| Metrics.DocumentStats | EditorComponent.jsx:651-660 | the dialog's lines: the text length; that length less the spaces of the plain text; the word runs; the line-feed-free runs of the plain text; the fewest minutes covering the words at 200 a minute |
| Metrics.ReadingMinutes | EditorComponent.jsx:660 | the least whole number of minutes covering the words at 200 a minute; zero exactly when there are no words |
| Metrics.WordsAreTokens | EditorComponent.jsx:233 | the words are the non-empty pieces between single white-space characters; trimming and run-splitting change nothing |
| Metrics.WordCountZero | EditorComponent.jsx:233 | the word count is 0 exactly when the text is empty or all white space |
| Metrics.WordsAreWhitespaceFree | EditorComponent.jsx:233 | every word is non-empty and free of white space, and the words concatenated are the text without its white space |
| Metrics.EmptyDocumentStats | EditorComponent.jsx:651-660 | an empty document shows zero for every statistic |
| Metrics.HelloWorldStats | EditorComponent.jsx:651-660 | "Hello world" shows 11 characters, 10 without spaces, 2 words, 1 paragraph, 1 minute |
| Metrics.HelloWorldWords | EditorComponent.jsx:233 | "Hello world" is two runs of non-white-space characters |
| Metrics.HelloWorldParagraphs | EditorComponent.jsx:658 | "Hello world" is one run without a line feed |
| Metrics.HelloWorldSpaces | EditorComponent.jsx:654 | "Hello world" holds one space |
| Viewport.ToPixels | EditorComponent.jsx:118-123 | a non-negative length never shrinks in conversion, a negative one never grows |
| Viewport.ToPixelsScales | EditorComponent.jsx:118-123 | conversion is multiplication by the positive pixel length of one unit |
| Viewport.ToPixelsMonotone | EditorComponent.jsx:118-123 | conversion is monotone in the value for every unit |
| Viewport.InchesAndCentimetresAgree | EditorComponent.jsx:120-121 | x inches and 2.54 x centimetres give the same pixels |
| Viewport.ToPixelsExamples | EditorComponent.jsx:118-123 | 1 in and 2.54 cm are 96 px, 50 px is 50, any unit other than in or cm is identity |
| Viewport.Round | EditorComponent.jsx:189 | rounding gives the integer within one half below and strictly less than one half above |
| Viewport.RoundUnique | EditorComponent.jsx:189 | that integer is unique |
| Viewport.FillZoom | EditorComponent.jsx:188-189 | the fill level is within one half of the container width over 8 |
| Viewport.FillZoomWholePixels | EditorComponent.jsx:188-189 | for a whole-pixel width w the fill level is (w + 4) div 8 |
| Viewport.FillZoomExamples | EditorComponent.jsx:188-189 | 1600 px fills at 200%, 800 px at 100% |
| Viewport.WithMargin | EditorComponent.jsx:479-484 | editing one side sets that side and leaves the other three unchanged |
| Viewport.Padding | EditorComponent.jsx:556-559 | every side's padding is that side's margin converted on its own |
| Viewport.PaddingNonNegative | EditorComponent.jsx:556-559 | non-negative margins give non-negative padding |
| Viewport.DefaultPadding | EditorComponent.jsx:130-136 | the initial one-inch margins pad every side by 96 pixels |
| EditorState.Editor.constructor | EditorComponent.jsx:130-159 | initial state: no pages, page 1 active, fill off at 100%, zero counts, one-inch margins |
| EditorState.Editor.UpdatePages | EditorComponent.jsx:216-221 | the page state becomes the page list of the new content, with at least one page; nothing else changes |
| EditorState.Editor.UpdateCounts | EditorComponent.jsx:226-234 | character count is the text length; word count is the number of maximal non-white-space runs |
| EditorState.Editor.DocumentChanged | EditorComponent.jsx:198-240 | a change re-splits the pages and then recounts the text |
| EditorState.Editor.ModalStats | EditorComponent.jsx:651-660 | the dialog read from state: both counters as stored, the counter less the plain text's spaces, its line-feed-free runs, and the fewest minutes covering the stored word count |
| EditorState.Editor.ModalAfterChange | EditorComponent.jsx:651-660 | after a change the dialog shows the statistics of the new text |
| EditorState.Editor.SelectPage | EditorComponent.jsx:593-598 | clicking page idx makes page idx + 1 active, which lies between 1 and the page count (the page buttons at lines 669-674 do the same) |
| EditorState.Editor.ToggleZoomFill | EditorComponent.jsx:185-191 | fill mode flips (the button at line 511); when it comes on with a page mounted the level becomes (width + 4) div 8, otherwise it stays |
| EditorState.Editor.SelectZoom | EditorComponent.jsx:514-519 | picking a level sets it and leaves fill mode |
| EditorState.Editor.SetMargin | EditorComponent.jsx:479-484 | the edited side takes the new value, the other sides keep theirs |
| EditorState.Editor.SetMarginUnit | EditorComponent.jsx:488 | the unit selector sets the margin unit |
| EditorState.Editor.PagePadding | EditorComponent.jsx:556-559 | each page's padding is each margin converted in the current unit |

## Left out

- Rendering, React hooks and styling: the JSX tree, the style block, the effects' scheduling. The handlers are modelled as methods that run to completion.
- The node and mark extensions (the page-break node, font size, the shared extension list) and every toolbar command: they only configure or call the editor library, which is not part of this model. PageBreak.js is not part of this model for the same reason.
- How the editor library flattens the document to text (the space-joined text and the plain text): both strings are inputs.
- Scrolling a page into view, measuring the container width and the window's keyboard shortcut that opens and closes the statistics dialog: these are browser I/O. The width is a parameter of `ToggleZoomFill`, absent when no page is mounted.
- Parsing the margin and zoom inputs (including NaN on bad input): margins are taken as reals and the zoom level as an integer.
- Pagination.SplitPages: the catch branch is modelled for content the loop cannot iterate. Other exceptions, such as the editor's JSON export failing, are not modelled. A string content, which the loop would walk character by character, is not modelled either, as the editor never produces one.
- Content nodes: a node typed `pageBreak` is always the Break constructor, as the content constructor's type name excludes it. A content node's children, text and marks are not modelled; the splitter carries each node through whole and never looks inside.
- Viewport.ToPixels: exact real arithmetic rather than IEEE doubles, so 2.54 cm is exactly 96 px.
- Viewport.FillZoom: exact real division before rounding rather than doubles.
- Metrics.ReadingMinutes: exact integer ceiling rather than the floating-point division before rounding up. The two agree for every realistic word count.
- EditorState.Editor.UpdateCounts: lengths count Unicode scalar values, whereas JavaScript counts UTF-16 code units, so a character outside the Basic Multilingual Plane counts once here and twice there.
- Left sidebar, application shell and entry point: static UI and bootstrapping with no logic.
