/** Document statistics, computed from the editor's text flattened to a
    string. The editor flattens in two ways: the live counter joins blocks
    with a space, and the statistics dialog reads the library's plain text,
    which joins them differently. The flattening is the editor library's; here both strings
    are inputs. */
module Metrics {
  import opened Splitting

  /** The characters JavaScript's `\s` and `String.prototype.trim` treat as
      white space: tab, line feed, vertical tab, form feed, carriage return,
      space, no-break space, the Unicode space separators, line and
      paragraph separator, and the byte order mark. */
  predicate IsWhitespace(c: char)
  {
    var k := c as int;
    (0x09 <= k <= 0x0D) || k == 0x20 || k == 0xA0 || k == 0x1680
    || (0x2000 <= k <= 0x200A) || k == 0x2028 || k == 0x2029
    || k == 0x202F || k == 0x205F || k == 0x3000 || k == 0xFEFF
  }

  /** Which characters count as white space: the ASCII ones, the no-break
      and ideographic spaces and the line separator do; letters, the zero
      width space (not a space separator) and the next line control U+0085
      do not. */
  lemma WhitespaceCharacters()
    ensures IsWhitespace(' ') && IsWhitespace('\t') && IsWhitespace('\n') && IsWhitespace('\r')
    ensures IsWhitespace('\U{00A0}') && IsWhitespace('\U{3000}') && IsWhitespace('\U{2028}')
    ensures IsWhitespace('\U{FEFF}')
    ensures !IsWhitespace('a') && !IsWhitespace('\U{200B}') && !IsWhitespace('\U{0085}')
  {
  }

  /** The separator when the dialog splits its text at spaces: the space
      character only. */
  predicate IsSpace(c: char) { c == ' ' }

  /** The separator when the dialog splits its text into paragraphs: the
      line feed only. */
  predicate IsNewline(c: char) { c == '\n' }

  /** Reading speed behind the reading-time estimate. */
  const WordsPerMinute: nat := 200

  /** The text without leading and trailing white space (JavaScript's trim):
      the stretch of the text that starts after its leading white space and
      has only white space after it, and that does not end in white space. */
  function Trim(text: string): (r: string)
    ensures var lead := LeadingCount(text, IsWhitespace);
      lead + |r| <= |text| && r == text[lead..lead + |r|]
      && AllWhere(text[lead + |r|..], IsWhitespace)
    ensures r == [] || (!IsWhitespace(r[0]) && !IsWhitespace(r[|r| - 1]))
  {
    DropBothEnds(text, IsWhitespace);
    DropLastWhere(DropWhere(text, IsWhitespace), IsWhitespace)
  }

  /** The words of `text`: trimmed, cut at every run of white space, empty
      strings dropped. */
  function Words(text: string): (words: seq<string>)
    ensures forall w :: w in words ==> w != [] && NoneWhere(w, IsWhitespace)
  {
    NonEmpty(SplitRuns(Trim(text), IsWhitespace))
  }

  /** The live word counter: the number of maximal runs of characters other
      than white space. */
  function WordCount(text: string): (n: nat)
    ensures n == Runs(text, IsWhitespace)
  {
    WordsAreTokens(text);
    NonEmptySplitAtCount(text, IsWhitespace);
    |Words(text)|
  }

  /** The dialog's paragraphs: the text cut at every run of line feeds,
      empty strings dropped. */
  function Paragraphs(plainText: string): (paragraphs: seq<string>)
    ensures forall p :: p in paragraphs ==> p != [] && NoneWhere(p, IsNewline)
  {
    NonEmpty(SplitRuns(plainText, IsNewline))
  }

  /** The number of paragraphs: the maximal runs of characters other than a
      line feed, none exactly when the text is only line feeds. */
  function ParagraphCount(plainText: string): (n: nat)
    ensures n == Runs(plainText, IsNewline)
    ensures n == 0 <==> forall i :: 0 <= i < |plainText| ==> plainText[i] == '\n'
  {
    NonEmptySplitRuns(plainText, IsNewline);
    NonEmptySplitAtCount(plainText, IsNewline);
    RunsZero(plainText, IsNewline);
    |Paragraphs(plainText)|
  }

  /** The dialog's "characters without spaces": the live character count
      less one for each cut that splitting the dialog's text at spaces makes,
      which is one per space character of that text. */
  function CharsWithoutSpaces(charCount: int, plainText: string): (r: int)
    ensures r == charCount - CountWhere(plainText, IsSpace)
  {
    charCount - (|SplitAt(plainText, IsSpace)| - 1)
  }

  /** The reading time, the word count over 200 rounded up: the fewest whole
      minutes in which the words can be read at 200 words a minute. */
  function ReadingMinutes(words: nat): (minutes: nat)
    ensures minutes * WordsPerMinute >= words
    ensures minutes > 0 ==> (minutes - 1) * WordsPerMinute < words
    ensures minutes == 0 <==> words == 0
  {
    (words + WordsPerMinute - 1) / WordsPerMinute
  }

  /** The five lines of the statistics dialog, in its order. */
  datatype Stats = Stats(
    charsWithSpaces: nat,
    charsWithoutSpaces: int,
    words: nat,
    paragraphs: nat,
    readingMinutes: nat)

  /** The dialog for the counter's text `betweenText` (blocks joined by a
      space) and the dialog's own text `plainText`. */
  function DocumentStats(betweenText: string, plainText: string): (r: Stats)
    ensures r.charsWithSpaces == |betweenText|
    ensures r.charsWithoutSpaces == |betweenText| - CountWhere(plainText, IsSpace)
    ensures r.words == Runs(betweenText, IsWhitespace)
    ensures r.paragraphs == Runs(plainText, IsNewline)
    ensures r.readingMinutes * WordsPerMinute >= r.words
    ensures r.readingMinutes > 0 ==> (r.readingMinutes - 1) * WordsPerMinute < r.words
  {
    var words := WordCount(betweenText);
    Stats(|betweenText|, CharsWithoutSpaces(|betweenText|, plainText), words,
          ParagraphCount(plainText), ReadingMinutes(words))
  }

  // ---------------------------------------------------------------------
  // What the counts mean

  /** Trimming and cutting at runs rather than single characters change
      nothing once the empty tokens are filtered out: the words are the
      non-empty pieces between single white-space characters. */
  lemma {:induction false} WordsAreTokens(text: string)
    ensures Words(text) == NonEmpty(SplitAt(text, IsWhitespace))
  {
    var start := DropWhere(text, IsWhitespace);
    NonEmptySplitRuns(Trim(text), IsWhitespace);
    NonEmptySplitAtDropLast(start, IsWhitespace);
    NonEmptySplitAtDrop(text, IsWhitespace);
  }

  /** No words exactly when the text is empty or all white space. */
  lemma {:induction false} WordCountZero(text: string)
    ensures WordCount(text) == 0 <==> forall i :: 0 <= i < |text| ==> IsWhitespace(text[i])
  {
    RunsZero(text, IsWhitespace);
  }

  /** Each word is a non-empty stretch free of white space, and the words,
      laid end to end, are the text with its white space removed. */
  lemma {:induction false} WordsAreWhitespaceFree(text: string)
    ensures forall w :: w in Words(text) ==> w != [] && NoneWhere(w, IsWhitespace)
    ensures Flatten(Words(text)) == RemoveWhere(text, IsWhitespace)
  {
    WordsAreTokens(text);
    SplitAtSeparatorFree(text, IsWhitespace);
    FlattenNonEmpty(SplitAt(text, IsWhitespace));
    FlattenSplitAt(text, IsWhitespace);
  }

  /** When both counters read the same string, the value is the number of
      characters other than the space, so it is never negative. */
  lemma {:induction false} CharsWithoutSpacesSameText(text: string)
    ensures CharsWithoutSpaces(|text|, text) == |RemoveWhere(text, IsSpace)|
  {
    RemoveWhereLength(text, IsSpace);
  }

  /** An empty document reports zero everywhere. */
  lemma EmptyDocumentStats()
    ensures DocumentStats("", "") == Stats(0, 0, 0, 0, 0)
  {
    WordCountZero("");
  }

  /** The worked case "Hello world": 11 characters, 10 without the space,
      2 words, 1 paragraph and 1 minute. */
  lemma HelloWorldStats()
    ensures DocumentStats("Hello world", "Hello world") == Stats(11, 10, 2, 1, 1)
  {
    HelloWorldWords();
    HelloWorldParagraphs();
    HelloWorldSpaces();
  }

  /** "Hello world" is two words around one space. */
  lemma HelloWorldWords()
    ensures Runs("Hello world", IsWhitespace) == 2
  {
    var hello, world := "Hello", "world";
    assert "Hello world" == hello + [' '] + world;
    assert NoneWhere(hello, IsWhitespace) && NoneWhere(world, IsWhitespace);
    RunsAroundSeparator(hello, ' ', world, IsWhitespace);
    RunsOfStretch(hello, IsWhitespace);
    RunsOfStretch(world, IsWhitespace);
  }

  /** "Hello world" holds no line feed, so it is one paragraph. */
  lemma HelloWorldParagraphs()
    ensures Runs("Hello world", IsNewline) == 1
  {
    assert NoneWhere("Hello world", IsNewline);
    RunsOfStretch("Hello world", IsNewline);
  }

  /** "Hello world" holds one space. */
  lemma HelloWorldSpaces()
    ensures CountWhere("Hello world", IsSpace) == 1
  {
  }
}
