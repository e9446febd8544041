/** The page splitter: the editor's document, a list of top-level nodes, is
    cut into pages at its page-break nodes. */
module Pagination {
  import opened Splitting

  /** A top-level node of the document. The splitter looks only at a node's
      `type`: the value `pageBreak` is the constructor Break, and every other
      node is Content, carried through whole under its own type name. */
  datatype Node = Break | Content(nodeType: Tag)

  /** The type name of a content node: any name except the page break's. */
  type Tag = t: string | t != "pageBreak" witness "paragraph"

  /** A page: the nodes it shows, in document order. */
  type Page = seq<Node>

  predicate IsBreak(n: Node) { n.Break? }

  function BreakCount(doc: seq<Node>): nat { CountWhere(doc, IsBreak) }

  /** The document with its page breaks taken out. */
  function ContentNodes(doc: seq<Node>): seq<Node> { RemoveWhere(doc, IsBreak) }

  /** The page list of a document: every break closes the page being filled
      (even an empty one) and the last page is always closed, so a document
      with k breaks has k + 1 pages. */
  function Split(doc: seq<Node>): (pages: seq<Page>)
    ensures |pages| == BreakCount(doc) + 1
  {
    SplitAt(doc, IsBreak)
  }

  /** The content field of the editor's JSON snapshot: missing (or any
      other falsy value, which is replaced by an empty list), a list of
      top-level nodes, or a value the loop cannot iterate, kept opaque. */
  datatype ContentField = Absent | Nodes(nodes: seq<Node>) | NotIterable(raw: string)

  /** What the page state is set to: the split pages, or, when iterating the
      content threw, the single page holding the raw content. */
  datatype PageList = Paged(pages: seq<Page>) | Fallback(raw: string)
  {
    /** How many pages the editor renders (one element each of the page list). */
    function PageCount(): nat
    {
      if Paged? then |pages| else 1
    }
  }

  /** The page list for a content field; it never fails and always holds at
      least one page. */
  function Paginate(content: ContentField): (r: PageList)
    ensures r.PageCount() >= 1
    ensures content.Absent? ==> r == Paged([[]])
    ensures content.Nodes? ==> r.Paged? && r.PageCount() == BreakCount(content.nodes) + 1
  {
    match content
    case Absent => Paged(Split([]))
    case Nodes(nodes) => Paged(Split(nodes))
    case NotIterable(raw) => Fallback(raw)
  }

  /** One pass over the top-level nodes with an accumulator for the page
      being filled: a break pushes it and starts an empty one, any other node
      is pushed onto it, and the last page is pushed after the loop. */
  method SplitPages(content: ContentField) returns (r: PageList)
    ensures r == Paginate(content)
  {
    if content.NotIterable? {
      // the loop throws at once and the catch branch keeps the raw content as one page
      return Fallback(content.raw);
    }
    var nodes := if content.Nodes? then content.nodes else [];
    var newPages: seq<Page> := [];
    var current: Page := [];
    for i := 0 to |nodes|
      invariant newPages + [current] == Split(nodes[..i])
    {
      var node := nodes[i];
      assert nodes[..i + 1] == nodes[..i] + [node];
      SplitStep(newPages, current, nodes[..i], node);
      if node.Break? {
        newPages := newPages + [current];
        current := [];
      } else {
        current := current + [node];
      }
    }
    newPages := newPages + [current];
    assert nodes[..|nodes|] == nodes;
    r := Paged(newPages);
  }

  /** One step of the loop: a break closes the page being filled and opens
      an empty one, any other node is added to the page being filled. */
  lemma SplitStep(done: seq<Page>, current: Page, prefix: seq<Node>, node: Node)
    requires done + [current] == Split(prefix)
    ensures node.Break? ==> (done + [current]) + [[]] == Split(prefix + [node])
    ensures !node.Break? ==> done + [current + [node]] == Split(prefix + [node])
  {
    SplitAtSnoc(prefix, node, IsBreak);
    var parts := done + [current];
    assert parts[..|parts| - 1] == done && parts[|parts| - 1] == current;
  }

  // ---------------------------------------------------------------------
  // Properties of the page list

  /** No page holds a page break. */
  lemma {:induction false} PagesHoldNoBreaks(doc: seq<Node>)
    ensures forall page, n :: page in Split(doc) && n in page ==> n != Break
  {
    SplitAtSeparatorFree(doc, IsBreak);
    forall page, n | page in Split(doc) && n in page ensures n != Break {
      var i :| 0 <= i < |page| && page[i] == n;
      assert NoneWhere(page, IsBreak);
    }
  }

  /** The pages laid end to end are the document without its breaks, in the
      original order. */
  lemma {:induction false} PagesConcatenate(doc: seq<Node>)
    ensures Flatten(Split(doc)) == ContentNodes(doc)
  {
    FlattenSplitAt(doc, IsBreak);
  }

  /** The page list loses nothing: putting one break back between each two
      pages gives the document again. */
  lemma {:induction false} PagesJoinToDocument(doc: seq<Node>)
    ensures JoinWith(Split(doc), Break) == doc
  {
    JoinSplitAt(doc, Break, IsBreak);
  }

  /** Every non-empty list of break-free pages is the page list of exactly
      one document: the one that joins them with breaks. (No document has
      the empty page list.) */
  lemma {:induction false} DocumentOfPages(pages: seq<Page>)
    requires |pages| >= 1
    requires forall k, n :: 0 <= k < |pages| && n in pages[k] ==> n != Break
    ensures Split(JoinWith(pages, Break)) == pages
  {
    forall k | 0 <= k < |pages| ensures NoneWhere(pages[k], IsBreak) {
      forall i | 0 <= i < |pages[k]| ensures !IsBreak(pages[k][i]) {
        assert pages[k][i] in pages[k];
      }
    }
    SplitAtJoin(pages, Break, IsBreak);
  }

  /** A break cuts the page list in two: the pages before it, then the pages
      after it. */
  lemma {:induction false} SplitAroundBreak(before: seq<Node>, after: seq<Node>)
    ensures Split(before + [Break] + after) == Split(before) + Split(after)
  {
    SplitAtAppend(before, Break, after, IsBreak);
  }

  /** The empty document has exactly one page, and it is empty. */
  lemma EmptyDocument()
    ensures Split([]) == [[]]
  {
  }

  /** A document without breaks is a single page holding all of it. */
  lemma {:induction false} NoBreakOnePage(doc: seq<Node>)
    requires BreakCount(doc) == 0
    ensures Split(doc) == [doc]
  {
    CountWhereZero(doc, IsBreak);
    SplitAtNoSeparator(doc, IsBreak);
  }

  /** A break as the first node gives an empty first page. */
  lemma {:induction false} LeadingBreak(doc: seq<Node>)
    ensures Split([Break] + doc) == [[]] + Split(doc)
  {
    SplitAroundBreak([], doc);
    assert [] + [Break] + doc == [Break] + doc;
  }

  /** A break as the last node gives an empty last page. */
  lemma {:induction false} TrailingBreak(doc: seq<Node>)
    ensures Split(doc + [Break]) == Split(doc) + [[]]
  {
    SplitAroundBreak(doc, []);
    assert doc + [Break] + [] == doc + [Break];
  }

  /** Two adjacent breaks give an empty page between them. */
  lemma {:induction false} AdjacentBreaks(before: seq<Node>, after: seq<Node>)
    ensures Split(before + [Break, Break] + after) == Split(before) + [[]] + Split(after)
  {
    SplitAroundBreak(before, [Break] + after);
    LeadingBreak(after);
    assert before + [Break, Break] + after == before + [Break] + ([Break] + after);
  }

  /** The worked cases: one break alone, and content, two breaks, content. */
  lemma {:induction false} SplitExamples(a: Node, b: Node)
    requires a.Content? && b.Content?
    ensures Split([Break]) == [[], []]
    ensures Split([a, Break, Break, b]) == [[a], [], [b]]
  {
    LeadingBreak([]);
    assert [Break] + [] == [Break];
    assert [a][1..] == [] && [b][1..] == [];
    NoBreakOnePage([a]);
    NoBreakOnePage([b]);
    AdjacentBreaks([a], [b]);
    assert [a] + [Break, Break] + [b] == [a, Break, Break, b];
  }
}
