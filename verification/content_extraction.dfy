/** The page-to-slide pipeline of the content extraction component: the text of each
    page is normalised, split into sentences and paragraphs and given a title, and the
    page records are then turned into a deck of slides with totals. */
module ContentExtraction {
  import opened Wrappers
  import opened Text
  import opened Whitespace
  import opened Split
  import opened JsString

  /** The characters of the sentence pattern `/[.!?]/`. */
  const SentenceEnds: set<char> := {'.', '!', '?'}

  /** An image descriptor of a page, as the image extractor reports it. */
  datatype ImageRef = ImageRef(id: string, width: int, height: int, dataUrl: string, alt: string)

  /** What the document yields for one page: the `str` of each text item, or `None`
      when reading the text content fails, and the images found on the page. */
  datatype PageSource = PageSource(textItems: Option<seq<string>>, images: seq<ImageRef>)

  /** The record kept for each page during extraction. */
  datatype PageRecord = PageRecord(
    pageNumber: nat,
    text: string,
    images: seq<ImageRef>,
    title: string,
    sentences: seq<string>,
    paragraphs: seq<string>)

  datatype Slide = Slide(title: string, content: seq<string>, images: seq<ImageRef>, pageNumber: nat)

  /** The processed content handed to the rest of the application. */
  datatype Deck = Deck(
    title: string,
    slides: seq<Slide>,
    totalPages: nat,
    totalImages: nat,
    totalTextLength: nat)

  // ---------------------------------------------------------------------------
  // Page text

  /** `items.join(' ').replace(/\s+/g, ' ').trim()`: the page text with every
      whitespace run turned into one space and no whitespace at either end. Only
      whitespace is lost. */
  function NormaliseText(items: seq<string>): (r: string)
    ensures r == JoinWith(Words(JoinWith(items, " ")), " ")
    ensures Normalised(r)
    ensures forall i :: 0 <= i < |r| ==> r[i] != '\n'
    ensures Remove(r, WsChars) == Remove(JoinWith(items, " "), WsChars)
  {
    var joined := JoinWith(items, " ");
    var collapsed := CollapseWs(joined);
    CollapsedTrim(collapsed);
    RemoveWsTrim(collapsed);
    RemoveWsCollapse(joined);
    NormaliseWords(joined);
    var r := Trim(collapsed);
    NormalisedNoLineFeed(r);
    r
  }

  /** The words of `s`: the non-empty pieces between whitespace characters, in order. */
  function Words(s: string): (r: seq<string>)
    ensures forall k :: 0 <= k < |r| ==> r[k] != [] && NoneIn(r[k], WsChars)
  {
    var pieces := SplitOn(s, WsChars);
    var r := DropEmpty(pieces);
    forall k | 0 <= k < |r|
      ensures NoneIn(r[k], WsChars)
    {
      assert r[k] in pieces;
    }
    r
  }

  /** Every whitespace character separates words. */
  lemma WordsAt(a: string, c: char, b: string)
    requires IsWs(c)
    ensures Words(a + [c] + b) == Words(a) + Words(b)
  {
    SplitOnAt(a, c, b, WsChars);
    DropEmptyAppend(SplitOn(a, WsChars), SplitOn(b, WsChars));
  }

  /** Text without whitespace is one word, or none when it is empty. */
  lemma WordsNoWs(a: string)
    requires NoneIn(a, WsChars)
    ensures Words(a) == if a == [] then [] else [a]
  {
    SplitOnNoneIn(a, WsChars);
    assert [a][1..] == [];
  }

  /** `text.replace(/\s+/g, ' ').trim()` puts exactly one space between neighbouring
      words and nothing else: the result is the words of the text joined by spaces. */
  lemma {:induction false} NormaliseWords(s: string)
    ensures Trim(CollapseWs(s)) == JoinWith(Words(s), " ")
    decreases |s|
  {
    var a := SplitOn(s, WsChars)[0];
    SplitOnHead(s, WsChars);
    WordsNoWs(a);
    if |a| == |s| {
      NormaliseNoWs(s);
    } else {
      var c, b := s[|a|], s[|a| + 1..];
      AroundIndex(s, |a|);
      assert s[..|a|] == a;
      WordsAt(a, c, b);
      NormaliseWords(b);
      NormaliseAfterWord(a, c, b);
    }
  }

  /** Text without whitespace is left as it is: it is its one word, or nothing. */
  lemma NormaliseNoWs(s: string)
    requires NoneIn(s, WsChars)
    ensures Trim(CollapseWs(s)) == JoinWith(Words(s), " ")
  {
    WordsNoWs(s);
    CollapseNoWs(s);
    TrimFixesTrimmed(s);
    if s != [] {
      TrimmedWord(s);
    }
  }

  /** The step of `NormaliseWords` at the first whitespace character `c`, with the word
      `a` before it and the rest `b` after it. */
  lemma NormaliseAfterWord(a: string, c: char, b: string)
    requires NoneIn(a, WsChars) && IsWs(c)
    requires Trim(CollapseWs(b)) == JoinWith(Words(b), " ")
    ensures Trim(CollapseWs(a + [c] + b)) == JoinWith((if a == [] then [] else [a]) + Words(b), " ")
  {
    var y := CollapseWs(TrimStart(b));
    CollapseAfterWord(a, c, b);
    TrimCollapseStart(b);
    assert y == [] || !IsWs(y[0]);
    TrimAfterWord(a, y);
    JoinAfterWord(a, Words(b));
  }

  /** Collapsing a word, a whitespace character and the rest: the word, one space and
      the rest collapsed once its leading whitespace is dropped. */
  lemma CollapseAfterWord(a: string, c: char, b: string)
    requires NoneIn(a, WsChars) && IsWs(c)
    ensures CollapseWs(a + [c] + b) == a + " " + CollapseWs(TrimStart(b))
  {
    AppendAssoc(a, [c], b);
    CollapseNoWsPrefix(a, [c] + b);
    CollapseWsHead(c, b);
    AppendAssoc(a, " ", CollapseWs(TrimStart(b)));
  }

  /** Joining a word in front of the other words: the word, a space and the others
      joined, where an empty word or no other words brings no space. */
  lemma JoinAfterWord(a: string, ws: seq<string>)
    requires forall k :: 0 <= k < |ws| ==> ws[k] != []
    ensures var t := JoinWith(ws, " ");
            JoinWith((if a == [] then [] else [a]) + ws, " ") ==
              if a == [] then t else if t == [] then a else a + " " + t
  {
    if a == [] {
      assert [] + ws == ws;
    } else if ws == [] {
      assert [a] + ws == [a];
    } else {
      assert ([a] + ws)[1..] == ws;
      assert ws[0] != [];
    }
  }

  /** Normalising text that is already normalised changes nothing. */
  lemma NormaliseIdempotent(s: string)
    requires Normalised(s)
    ensures NormaliseText([s]) == s
  {
    CollapseFixesCollapsed(s);
    TrimFixesTrimmed(s);
  }

  /** The text of one page; a page whose text content cannot be read counts as empty. */
  function ExtractText(items: Option<seq<string>>): (r: string)
    ensures Normalised(r)
    ensures items.None? ==> r == []
    ensures items.Some? ==> r == JoinWith(Words(JoinWith(items.value, " ")), " ")
    ensures items.Some? ==> Remove(r, WsChars) == Remove(JoinWith(items.value, " "), WsChars)
  {
    match items
    case None => []
    case Some(xs) => NormaliseText(xs)
  }

  // ---------------------------------------------------------------------------
  // Sentences and paragraphs

  /** `xs.map(s => s.trim())`. */
  function TrimEach(xs: seq<string>): (r: seq<string>)
    ensures |r| == |xs|
    ensures forall k :: 0 <= k < |r| ==> r[k] == Trim(xs[k])
  {
    seq(|xs|, k requires 0 <= k < |xs| => Trim(xs[k]))
  }

  /** `xs.filter(s => s.length > 0)`. */
  function DropEmpty(xs: seq<string>): (r: seq<string>)
    ensures |r| <= |xs|
    ensures forall k :: 0 <= k < |r| ==> r[k] != [] && r[k] in xs
    ensures Concat(r) == Concat(xs)
  {
    if xs == [] then []
    else if xs[0] == [] then DropEmpty(xs[1..])
    else [xs[0]] + DropEmpty(xs[1..])
  }

  /** The filter works element by element: filtering two lists one after the other
      gives the two filtered lists one after the other. With the contract of
      `DropEmpty` for one element, this fixes the result. */
  lemma {:induction false} DropEmptyAppend(a: seq<string>, b: seq<string>)
    ensures DropEmpty(a + b) == DropEmpty(a) + DropEmpty(b)
  {
    if a == [] {
      assert a + b == b;
    } else {
      HeadOfAppend(a, b);
      DropEmptyAppend(a[1..], b);
      if a[0] != [] {
        AppendAssoc([a[0]], DropEmpty(a[1..]), DropEmpty(b));
      }
    }
  }

  /** `xs.map(s => s + '.')`. */
  function AppendPeriod(xs: seq<string>): (r: seq<string>)
    ensures |r| == |xs|
    ensures forall k :: 0 <= k < |r| ==> r[k] == xs[k] + "."
  {
    seq(|xs|, k requires 0 <= k < |xs| => xs[k] + ".")
  }

  /** A sentence as the splitter emits it: a non-empty trimmed body free of
      sentence punctuation, followed by one period. */
  predicate IsSentence(s: string) {
    && |s| >= 2
    && s[|s| - 1] == '.'
    && IsTrimmed(s[..|s| - 1])
    && NoneIn(s[..|s| - 1], SentenceEnds)
  }

  /** A sentence without its closing period. */
  function Body(s: string): string
    requires s != []
  {
    s[..|s| - 1]
  }

  function Bodies(ss: seq<string>): (r: seq<string>)
    requires forall k :: 0 <= k < |ss| ==> ss[k] != []
    ensures |r| == |ss|
  {
    seq(|ss|, k requires 0 <= k < |ss| => Body(ss[k]))
  }

  /** Any slice of text without certain characters is without them too. */
  lemma NoneInSlice(s: string, chars: set<char>, i: nat, j: nat)
    requires NoneIn(s, chars) && i <= j <= |s|
    ensures NoneIn(s[i..j], chars)
  {
    assert forall k :: 0 <= k < j - i ==> s[i..j][k] == s[i + k];
  }

  /** Trimming removes no character other than whitespace from the ends. */
  lemma NoneInTrim(s: string, chars: set<char>)
    requires NoneIn(s, chars)
    ensures NoneIn(Trim(s), chars)
  {
    TrimIsSlice(s);
    NoneInSlice(s, chars, LeadingWs(s), LeadingWs(s) + |Trim(s)|);
  }

  /** `splitIntoSentences`: the pieces between `.`, `!` and `?`, trimmed, without the
      empty ones, each closed with a period. Empty text has no sentences. */
  function SplitIntoSentences(text: string): (r: seq<string>)
    ensures text == [] ==> r == []
    ensures forall k :: 0 <= k < |r| ==> IsSentence(r[k])
    ensures |r| <= Count(text, SentenceEnds) + 1
  {
    if text == [] then []
    else
      var pieces := SplitOn(text, SentenceEnds);
      var trimmed := TrimEach(pieces);
      var bodies := DropEmpty(trimmed);
      forall k | 0 <= k < |bodies|
        ensures IsSentence(bodies[k] + ".")
      {
        assert bodies[k] in trimmed;
        var j :| 0 <= j < |trimmed| && bodies[k] == trimmed[j];
        SentenceOfPiece(pieces[j]);
      }
      AppendPeriod(bodies)
  }

  /** A piece between sentence punctuation that is not blank gives a sentence. */
  lemma SentenceOfPiece(piece: string)
    requires NoneIn(piece, SentenceEnds) && Trim(piece) != []
    ensures IsSentence(Trim(piece) + ".")
  {
    var b := Trim(piece);
    NoneInTrim(piece, SentenceEnds);
    assert (b + ".")[..|b|] == b;
  }

  /** Trimming every piece loses only whitespace from the pieces written out. */
  lemma {:induction false} RemoveWsTrimEach(xs: seq<string>)
    ensures Remove(Concat(TrimEach(xs)), WsChars) == Remove(Concat(xs), WsChars)
  {
    if xs != [] {
      RemoveWsTrimEach(xs[1..]);
      assert TrimEach(xs)[1..] == TrimEach(xs[1..]);
      var rest := Concat(TrimEach(xs[1..]));
      RemoveAppend(Trim(xs[0]), rest, WsChars);
      RemoveAppend(xs[0], Concat(xs[1..]), WsChars);
      RemoveWsTrim(xs[0]);
    }
  }

  /** Read in order, the sentence bodies hold exactly the characters of the text
      that are neither whitespace nor sentence punctuation. */
  lemma SentencesKeepText(text: string)
    ensures var ss := SplitIntoSentences(text);
            Remove(Concat(Bodies(ss)), WsChars) == Remove(text, SentenceEnds + WsChars)
  {
    if text != [] {
      var pieces := SplitOn(text, SentenceEnds);
      var trimmed := TrimEach(pieces);
      var bodies := DropEmpty(trimmed);
      assert SplitIntoSentences(text) == AppendPeriod(bodies);
      BodiesOfAppendPeriod(bodies);
      assert Concat(bodies) == Concat(trimmed);
      RemoveWsTrimEach(pieces);
      ConcatSplitOn(text, SentenceEnds);
      RemoveTwice(text, SentenceEnds, WsChars);
    }
  }

  lemma TrimEachAppend(a: seq<string>, b: seq<string>)
    ensures TrimEach(a + b) == TrimEach(a) + TrimEach(b)
  {
    var l, r := TrimEach(a + b), TrimEach(a) + TrimEach(b);
    forall k | 0 <= k < |l|
      ensures l[k] == r[k]
    {
      PartsOfAppend(a, b);
      PartsOfAppend(TrimEach(a), TrimEach(b));
      if k >= |a| {
        assert (a + b)[k] == b[k - |a|];
      }
    }
  }

  lemma AppendPeriodAppend(a: seq<string>, b: seq<string>)
    ensures AppendPeriod(a + b) == AppendPeriod(a) + AppendPeriod(b)
  {
    var l, r := AppendPeriod(a + b), AppendPeriod(a) + AppendPeriod(b);
    forall k | 0 <= k < |l|
      ensures l[k] == r[k]
    {
      PartsOfAppend(a, b);
      PartsOfAppend(AppendPeriod(a), AppendPeriod(b));
      if k >= |a| {
        assert (a + b)[k] == b[k - |a|];
      }
    }
  }

  /** The guard `if (!text) return []` changes nothing: the chain of `split`, `map`,
      `filter` and `map` gives no sentences for empty text either. */
  lemma SentencesOfPieces(text: string)
    ensures SplitIntoSentences(text) == AppendPeriod(DropEmpty(TrimEach(SplitOn(text, SentenceEnds))))
  {
    if text == [] {
      var empty: seq<string> := [[]];
      assert TrimEach(empty) == empty;
      assert empty[1..] == [];
    }
  }

  /** Every `.`, `!` and `?` ends a sentence: the sentences of `a`, a mark and `b` are
      the sentences of `a` followed by those of `b`. With `SentencesOfUnmarked` this
      fixes every sentence and its place. */
  lemma SentencesAt(a: string, c: char, b: string)
    requires c in SentenceEnds
    ensures SplitIntoSentences(a + [c] + b) == SplitIntoSentences(a) + SplitIntoSentences(b)
  {
    SentencesOfPieces(a + [c] + b);
    SentencesOfPieces(a);
    SentencesOfPieces(b);
    var pa, pb := SplitOn(a, SentenceEnds), SplitOn(b, SentenceEnds);
    SplitOnAt(a, c, b, SentenceEnds);
    TrimEachAppend(pa, pb);
    DropEmptyAppend(TrimEach(pa), TrimEach(pb));
    AppendPeriodAppend(DropEmpty(TrimEach(pa)), DropEmpty(TrimEach(pb)));
  }

  /** Text without sentence marks is one sentence, its trimmed text closed by a period,
      unless it is blank. */
  lemma SentencesOfUnmarked(a: string)
    requires NoneIn(a, SentenceEnds)
    ensures SplitIntoSentences(a) == if AllWs(a) then [] else [Trim(a) + "."]
  {
    SentencesOfPieces(a);
    SplitOnNoneIn(a, SentenceEnds);
    TrimEmpty(a);
    assert TrimEach([a]) == [Trim(a)];
    assert [Trim(a)][1..] == [];
  }

  /** Taking the period back off every sentence gives the bodies back. */
  lemma BodiesOfAppendPeriod(bodies: seq<string>)
    ensures Bodies(AppendPeriod(bodies)) == bodies
  {
    var ss := AppendPeriod(bodies);
    forall k | 0 <= k < |bodies|
      ensures Bodies(ss)[k] == bodies[k]
    {
      assert ss[k] == bodies[k] + ".";
      assert (bodies[k] + ".")[..|bodies[k]|] == bodies[k];
    }
  }

  /** `splitIntoParagraphs`: the pieces between blank lines, trimmed, without the empty
      ones. Empty text has no paragraphs. */
  function SplitIntoParagraphs(text: string): (r: seq<string>)
    ensures text == [] ==> r == []
    ensures forall k :: 0 <= k < |r| ==> r[k] != [] && IsTrimmed(r[k]) && NoBlankLine(r[k])
  {
    if text == [] then []
    else
      var pieces := SplitBlankLines(text);
      var trimmed := TrimEach(pieces);
      var paragraphs := DropEmpty(trimmed);
      forall k | 0 <= k < |paragraphs|
        ensures NoBlankLine(paragraphs[k])
      {
        assert paragraphs[k] in trimmed;
        var j :| 0 <= j < |trimmed| && paragraphs[k] == trimmed[j];
        NoBlankLineTrim(pieces[j]);
      }
      paragraphs
  }

  /** Trimming cannot create a blank line. */
  lemma NoBlankLineTrim(s: string)
    requires NoBlankLine(s)
    ensures NoBlankLine(Trim(s))
  {
    TrimIsSlice(s);
    var i := LeadingWs(s);
    NoBlankLineSlice(s, i, i + |Trim(s)|);
  }


  /** Read in order, the paragraphs hold exactly the non-whitespace characters of the text. */
  lemma ParagraphsKeepText(text: string)
    ensures Remove(Concat(SplitIntoParagraphs(text)), WsChars) == Remove(text, WsChars)
  {
    if text != [] {
      var pieces := SplitBlankLines(text);
      RemoveWsTrimEach(pieces);
      ConcatSplitBlankLines(text);
      assert {'\n'} <= WsChars;
      RemoveSubsumed(Concat(pieces), {'\n'}, WsChars);
      RemoveSubsumed(text, {'\n'}, WsChars);
    }
  }

  /** The guard `if (!text) return []` changes nothing: the chain of `split`, `map`
      and `filter` gives no paragraphs for empty text either. */
  lemma ParagraphsOfPieces(text: string)
    ensures SplitIntoParagraphs(text) == DropEmpty(TrimEach(SplitBlankLines(text)))
  {
    if text == [] {
      var empty: seq<string> := [[]];
      assert TrimEach(empty) == empty;
      assert empty[1..] == [];
    }
  }

  /** Every maximal run of two or more line feeds ends a paragraph: the paragraphs of
      `a`, the run and `b` are the paragraphs of `a` followed by those of `b`. With
      `ParagraphsOfUnbroken` this fixes every paragraph and its place. */
  lemma ParagraphsAt(a: string, w: string, b: string)
    requires |w| >= 2 && AllNewlines(w)
    requires a == [] || a[|a| - 1] != '\n'
    requires b == [] || b[0] != '\n'
    ensures SplitIntoParagraphs(a + w + b) == SplitIntoParagraphs(a) + SplitIntoParagraphs(b)
  {
    ParagraphsOfPieces(a + w + b);
    ParagraphsOfPieces(a);
    ParagraphsOfPieces(b);
    var pa, pb := SplitBlankLines(a), SplitBlankLines(b);
    SplitBlankLinesAt(a, w, b);
    TrimEachAppend(pa, pb);
    DropEmptyAppend(TrimEach(pa), TrimEach(pb));
  }

  /** Text without a blank line is one paragraph, its trimmed text, unless it is blank;
      single line feeds stay inside the paragraph. */
  lemma ParagraphsOfUnbroken(a: string)
    requires NoBlankLine(a)
    ensures SplitIntoParagraphs(a) == if AllWs(a) then [] else [Trim(a)]
  {
    ParagraphsOfPieces(a);
    SplitBlankLinesWhole(a);
    TrimEmpty(a);
    assert TrimEach([a]) == [Trim(a)];
    DropEmptySingle(Trim(a));
  }

  /** The filter on one piece keeps it exactly when it is non-empty. */
  lemma DropEmptySingle(x: string)
    ensures DropEmpty([x]) == if x == [] then [] else [x]
  {
    assert [x][1..] == [];
  }

  /** Normalised page text holds no line feed, so it is never split: a non-empty
      normalised text is its own single paragraph. */
  lemma ParagraphsOfNormalised(text: string)
    requires Normalised(text) && text != []
    ensures SplitIntoParagraphs(text) == [text]
  {
    assert NoBlankLine(text) by {
      forall i: nat | i + 1 < |text|
        ensures !BlankLineAt(text, i)
      {
        assert SingleSpaceAt(text, i);
      }
    }
    SplitBlankLinesWhole(text);
    TrimFixesTrimmed(text);
    assert TrimEach([text]) == [text];
    assert DropEmpty([text]) == [text] by {
      assert [text][1..] == [];
    }
  }

  /** The paragraphs of normalised page text: none for empty text, else the text itself. */
  lemma NormalisedParagraphs(text: string)
    requires Normalised(text)
    ensures SplitIntoParagraphs(text) == if text == [] then [] else [text]
  {
    if text != [] {
      ParagraphsOfNormalised(text);
    }
  }

  // ---------------------------------------------------------------------------
  // Titles

  /** The label a page gets when nothing better is found: `Page ${pageNumber}`. */
  function PageLabel(pageNumber: nat): string {
    "Page " + NatToString(pageNumber)
  }

  /** Different pages get different `Page n` labels. */
  lemma PageLabelsDistinct(m: nat, n: nat)
    requires m != n
    ensures PageLabel(m) != PageLabel(n)
  {
    if PageLabel(m) == PageLabel(n) {
      assert PageLabel(m)[5..] == NatToString(m);
      assert PageLabel(n)[5..] == NatToString(n);
      NatToStringInjective(m, n);
    }
  }

  /** `text.split(/[.!?]/)[0].trim()`: trimmed text, no longer than the page text,
      holding no sentence mark. */
  function FirstSentence(text: string): (r: string)
    ensures IsTrimmed(r) && NoneIn(r, SentenceEnds)
    ensures |r| <= |text|
  {
    var h := SplitOn(text, SentenceEnds)[0];
    SplitOnHead(text, SentenceEnds);
    NoneInTrim(h, SentenceEnds);
    Trim(h)
  }

  /** `text.split(' ').slice(0, 5).join(' ')`: the prefix of the text that stops just
      before its fifth space, never empty for non-empty text. */
  function FirstWords(text: string): (r: string)
    ensures PrefixBeforeOccurrence(text, ' ', 4, r)
    ensures text != [] ==> r != []
  {
    JoinTakeSplitOn(text, ' ', 5);
    JoinWith(Take(SplitOn(text, {' '}), 5), " ")
  }

  /** A first sentence is used as the title when its length is strictly between 5 and 100. */
  predicate FitsTitle(s: string) {
    5 < Utf16Length(s) < 100
  }

  /** `generatePageTitle`. */
  function GeneratePageTitle(text: string, pageNumber: nat): (r: string)
    ensures text == [] ==> r == PageLabel(pageNumber)
    ensures r != []
  {
    if text == [] then PageLabel(pageNumber)
    else
      var sentence := FirstSentence(text);
      if FitsTitle(sentence) then sentence
      else
        var words := FirstWords(text);
        if |words| > 0 then words + "..." else PageLabel(pageNumber)
  }

  /** The first sentence of the text is `text[..k]` trimmed when `k` is the index of
      the first `.`, `!` or `?` (or the length of a text without one). */
  lemma FirstSentenceIsPrefix(text: string, k: nat)
    requires k <= |text| && NoneIn(text[..k], SentenceEnds)
    requires k < |text| ==> text[k] in SentenceEnds
    ensures FirstSentence(text) == Trim(text[..k])
  {
    var h := SplitOn(text, SentenceEnds)[0];
    SplitOnHead(text, SentenceEnds);
    assert h == text[..k];
  }

  /** A title taken from the first sentence: when the text before the first sentence
      punctuation, trimmed, is longer than 5 and shorter than 100 code units, it is the title. */
  lemma TitleFromFirstSentence(text: string, pageNumber: nat, k: nat)
    requires text != []
    requires k <= |text| && NoneIn(text[..k], SentenceEnds)
    requires k < |text| ==> text[k] in SentenceEnds
    requires FitsTitle(Trim(text[..k]))
    ensures GeneratePageTitle(text, pageNumber) == Trim(text[..k])
  {
    FirstSentenceIsPrefix(text, k);
  }

  /** A title taken from the first words: otherwise the title is a non-empty prefix of
      the text that stops before its fifth space, followed by `...`; the `Page n`
      fallback is never reached for non-empty text. */
  lemma TitleFromFirstWords(text: string, pageNumber: nat, k: nat)
    requires text != []
    requires k <= |text| && NoneIn(text[..k], SentenceEnds)
    requires k < |text| ==> text[k] in SentenceEnds
    requires !FitsTitle(Trim(text[..k]))
    ensures var t := GeneratePageTitle(text, pageNumber);
            && |t| > 3
            && t[|t| - 3..] == "..."
            && PrefixBeforeOccurrence(text, ' ', 4, t[..|t| - 3])
  {
    FirstSentenceIsPrefix(text, k);
    var w := FirstWords(text);
    var t := w + "...";
    assert t[..|t| - 3] == w;
  }

  // ---------------------------------------------------------------------------
  // Page records and slides

  /** The record stored for page `pageNumber`. It keeps the page number and images; its
      text is normalised (empty when the text content could not be read), its title is
      never empty, its sentences are well-formed, and its paragraphs are none for an
      empty page and otherwise exactly the page text. */
  function BuildPageRecord(pageNumber: nat, source: PageSource): (r: PageRecord)
    ensures r.pageNumber == pageNumber && r.images == source.images
    ensures r.text == ExtractText(source.textItems)
    ensures r.title == GeneratePageTitle(r.text, pageNumber)
    ensures r.sentences == SplitIntoSentences(r.text)
    ensures Normalised(r.text)
    ensures source.textItems.None? ==> r.text == []
    ensures r.title != []
    ensures forall k :: 0 <= k < |r.sentences| ==> IsSentence(r.sentences[k])
    ensures r.paragraphs == if r.text == [] then [] else [r.text]
  {
    var text := ExtractText(source.textItems);
    NormalisedParagraphs(text);
    PageRecord(
      pageNumber,
      text,
      source.images,
      GeneratePageTitle(text, pageNumber),
      SplitIntoSentences(text),
      SplitIntoParagraphs(text))
  }

  /** The page loop `for (let i = 1; i <= numPages; i++) records.push(visit(i, page i))`:
      the results in document order, numbered from 1. */
  method VisitPages<S, R>(sources: seq<S>, visit: (nat, S) -> R) returns (records: seq<R>)
    ensures |records| == |sources|
    ensures forall k :: 0 <= k < |records| ==> records[k] == visit(k + 1, sources[k])
  {
    records := [];
    var i := 1;
    while i <= |sources|
      invariant 1 <= i <= |sources| + 1
      invariant |records| == i - 1
      invariant forall k :: 0 <= k < |records| ==> records[k] == visit(k + 1, sources[k])
    {
      records := records + [visit(i, sources[i - 1])];
      i := i + 1;
    }
  }

  /** The per-page extraction: page `k` of the document gives the record numbered `k`. */
  method ExtractPages(sources: seq<PageSource>) returns (pages: seq<PageRecord>)
    ensures |pages| == |sources|
    ensures forall k :: 0 <= k < |pages| ==> pages[k] == BuildPageRecord(k + 1, sources[k])
  {
    pages := VisitPages(sources, BuildPageRecord);
  }

  /** `pdfFile.name.replace('.pdf', '')`: a name without `.pdf` is kept as it is. */
  function DeckTitle(fileName: string): (r: string)
    ensures (forall j: nat :: !OccursAt(fileName, ".pdf", j)) ==> r == fileName
  {
    ReplaceFirst(fileName, ".pdf", "")
  }

  /** Only the first `.pdf` of the file name is removed, wherever it stands: a name
      made of a part without `.pdf`, then `.pdf`, then anything, keeps both parts. */
  lemma DeckTitleRemovesFirstOnly(base: string, rest: string)
    requires forall j: nat :: !OccursAt(base, ".pdf", j)
    ensures DeckTitle(base + ".pdf" + rest) == base + rest
  {
    var name := base + ".pdf" + rest;
    FirstPdfAfter(base, rest);
    ReplaceAtFirst(name, ".pdf", "", |base|);
    OuterParts(base, ".pdf", rest);
    AppendEmpty(base, "");
  }

  /** In a part without `.pdf`, then `.pdf`, then anything, the first `.pdf` starts
      right after the first part. */
  lemma FirstPdfAfter(base: string, rest: string)
    requires forall j: nat :: !OccursAt(base, ".pdf", j)
    ensures OccursAt(base + ".pdf" + rest, ".pdf", |base|)
    ensures forall j: nat :: j < |base| ==> !OccursAt(base + ".pdf" + rest, ".pdf", j)
  {
    var name := base + ".pdf" + rest;
    var n := |base|;
    assert name[n..n + 4] == ".pdf";
    forall j: nat | j < n
      ensures !OccursAt(name, ".pdf", j)
    {
      if j + 4 <= n {
        assert name[j..j + 4] == base[j..j + 4];
        assert !OccursAt(base, ".pdf", j);
      } else {
        assert name[j..j + 4][n - j] == name[n] == '.';
        assert ".pdf"[n - j] != '.';
      }
    }
  }

  /** In particular a name whose only `.pdf` is its extension loses exactly that. */
  lemma DeckTitleStripsExtension(base: string)
    requires forall j: nat :: !OccursAt(base, ".pdf", j)
    ensures DeckTitle(base + ".pdf") == base
  {
    DeckTitleRemovesFirstOnly(base, []);
    assert base + ".pdf" + [] == base + ".pdf";
    assert base + [] == base;
  }

  /** A page's slide: it keeps the page's title, images and number, and its content is
      never empty: the paragraphs, or the page text as the one item when there are none. */
  function SlideOf(page: PageRecord): (s: Slide)
    ensures s.title == page.title && s.images == page.images && s.pageNumber == page.pageNumber
    ensures |s.content| >= 1
    ensures s.content == page.paragraphs || s.content == [page.text]
  {
    Slide(
      page.title,
      if |page.paragraphs| > 0 then page.paragraphs else [page.text],
      page.images,
      page.pageNumber)
  }

  /** All images of the pages, in order. */
  function AllImages(pages: seq<PageRecord>): seq<ImageRef> {
    if pages == [] then [] else pages[0].images + AllImages(pages[1..])
  }

  /** All page texts written one after another. */
  function AllText(pages: seq<PageRecord>): string {
    if pages == [] then [] else pages[0].text + AllText(pages[1..])
  }

  /** `pages.reduce((count, page) => count + page.images.length, acc)`. */
  function ReduceImageCount(acc: nat, pages: seq<PageRecord>): (r: nat)
    ensures r == acc + |AllImages(pages)|
    decreases |pages|
  {
    if pages == [] then acc else ReduceImageCount(acc + |pages[0].images|, pages[1..])
  }

  /** `pages.reduce((count, page) => count + (page.text?.length || 0), acc)`. */
  function ReduceTextLength(acc: nat, pages: seq<PageRecord>): (r: nat)
    ensures r == acc + Utf16Length(AllText(pages))
    decreases |pages|
  {
    if pages == [] then acc
    else
      Utf16LengthAppend(pages[0].text, AllText(pages[1..]));
      ReduceTextLength(acc + Utf16Length(pages[0].text), pages[1..])
  }

  /** `processContentForSlides`: one slide per page in page order, with the deck title
      taken from the file name and totals over all pages. */
  function ProcessContentForSlides(fileName: string, pages: seq<PageRecord>): (d: Deck)
    ensures d.title == DeckTitle(fileName)
    ensures |d.slides| == |pages| && d.totalPages == |pages|
    ensures forall k :: 0 <= k < |pages| ==>
              && d.slides[k].title == pages[k].title
              && d.slides[k].images == pages[k].images
              && d.slides[k].pageNumber == pages[k].pageNumber
              && d.slides[k].content == (if |pages[k].paragraphs| > 0 then pages[k].paragraphs else [pages[k].text])
    ensures d.totalImages == |AllImages(pages)|
    ensures d.totalTextLength == Utf16Length(AllText(pages))
  {
    Deck(
      DeckTitle(fileName),
      seq(|pages|, k requires 0 <= k < |pages| => SlideOf(pages[k])),
      |pages|,
      ReduceImageCount(0, pages),
      ReduceTextLength(0, pages))
  }

  /** The whole extraction: every page becomes a slide numbered from 1 whose content is
      the page's normalised text as its one item, an empty page included. */
  method ExtractDeck(fileName: string, sources: seq<PageSource>) returns (deck: Deck)
    ensures deck.title == DeckTitle(fileName)
    ensures |deck.slides| == |sources| && deck.totalPages == |sources|
    ensures forall k :: 0 <= k < |sources| ==>
              && deck.slides[k].pageNumber == k + 1
              && deck.slides[k].content == [ExtractText(sources[k].textItems)]
              && deck.slides[k].images == sources[k].images
              && deck.slides[k].title == GeneratePageTitle(ExtractText(sources[k].textItems), k + 1)
  {
    var pages := ExtractPages(sources);
    deck := ProcessContentForSlides(fileName, pages);
    forall k | 0 <= k < |sources|
      ensures && deck.slides[k].pageNumber == k + 1
              && deck.slides[k].content == [ExtractText(sources[k].textItems)]
              && deck.slides[k].images == sources[k].images
              && deck.slides[k].title == GeneratePageTitle(ExtractText(sources[k].textItems), k + 1)
    {
      var page := pages[k];
      assert page == BuildPageRecord(k + 1, sources[k]);
      assert page.text == ExtractText(sources[k].textItems);
      assert page.paragraphs == [] || page.paragraphs == [page.text];
    }
  }
}
