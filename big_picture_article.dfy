/** The big-picture article card: the article is cut into paragraphs at
    blank lines, and each paragraph into plain runs and double-quoted
    passages, which are styled as quotes.

    The fetch and the rendering are not modelled; the card's input is the
    article text it received. */
module BigPictureArticle {
  import opened Common
  import opened Strings

  const QuoteMark: char := '"'
  const ParagraphBreak := "\n\n"

  predicate NoQuote(s: string) {
    forall i :: 0 <= i < |s| ==> s[i] != QuoteMark
  }

  /** At most one quotation mark. */
  predicate AtMostOneQuote(s: string) {
    forall i, j :: 0 <= i < j < |s| && s[i] == QuoteMark ==> s[j] != QuoteMark
  }

  /** What `"[^"]*"` matches: a quotation mark, no quotation marks, and a
      closing quotation mark. */
  predicate IsQuotation(s: string) {
    |s| >= 2 && s[0] == QuoteMark && s[|s| - 1] == QuoteMark && NoQuote(s[1..|s| - 1])
  }

  /** The styling test: `startsWith('"') && endsWith('"')`. */
  predicate Styled(s: string) {
    |s| >= 1 && s[0] == QuoteMark && s[|s| - 1] == QuoteMark
  }

  /** The next quotation mark at or after `from`. */
  function FindQuote(s: string, from: nat): (r: Option<nat>)
    requires from <= |s|
    decreases |s| - from
    ensures r.Some? ==> from <= r.value < |s| && s[r.value] == QuoteMark
    ensures r.Some? ==> forall i :: from <= i < r.value ==> s[i] != QuoteMark
    ensures r.None? ==> forall i :: from <= i < |s| ==> s[i] != QuoteMark
  {
    if from == |s| then None
    else if s[from] == QuoteMark then Some(from)
    else FindQuote(s, from + 1)
  }

  function Concat(parts: seq<string>): string {
    if parts == [] then "" else parts[0] + Concat(parts[1..])
  }

  /** `text.split(/("[^"]*")/g)`: plain runs at the even indices and the
      captured quotations at the odd ones. An unmatched quotation mark stays
      in the final plain run. */
  function QuoteSplit(s: string): (segs: seq<string>)
    decreases |s|
    ensures |segs| % 2 == 1
  {
    match FindQuote(s, 0)
    case None => [s]
    case Some(i) =>
      match FindQuote(s, i + 1)
      case None => [s]
      case Some(j) => [s[..i], s[i..j + 1]] + QuoteSplit(s[j + 1..])
  }

  lemma ConcatCons(a: string, b: string, rest: seq<string>)
    ensures Concat([a, b] + rest) == a + b + Concat(rest)
  {
    assert ([a, b] + rest)[1..] == [b] + rest;
    assert ([b] + rest)[1..] == rest;
  }

  /** The segments put together give back the text. */
  lemma {:induction false} QuoteSplitConcat(s: string)
    decreases |s|
    ensures Concat(QuoteSplit(s)) == s
  {
    match FindQuote(s, 0)
    case None =>
    case Some(i) =>
      match FindQuote(s, i + 1)
      case None =>
      case Some(j) =>
        QuoteSplitConcat(s[j + 1..]);
        ConcatCons(s[..i], s[i..j + 1], QuoteSplit(s[j + 1..]));
        assert s == s[..i] + s[i..j + 1] + s[j + 1..];
  }

  /** What `"[^"]*"` matched: the text from an opening quotation mark to
      the next one. */
  lemma MatchIsQuotation(s: string, i: nat, j: nat)
    requires i < j < |s| && s[i] == QuoteMark && s[j] == QuoteMark
    requires forall k :: i + 1 <= k < j ==> s[k] != QuoteMark
    ensures IsQuotation(s[i..j + 1])
  {
    var t := s[i..j + 1];
    var inside := t[1..|t| - 1];
    forall k | 0 <= k < |inside|
      ensures inside[k] != QuoteMark
    {
      assert inside[k] == s[i + 1 + k];
    }
  }

  predicate OddQuotations(segs: seq<string>) {
    forall k :: 0 <= k < |segs| && k % 2 == 1 ==> IsQuotation(segs[k])
  }

  predicate EvenPlain(segs: seq<string>) {
    forall k :: 0 <= k < |segs| - 1 && k % 2 == 0 ==> NoQuote(segs[k])
  }

  /** The odd segments are quotations. */
  lemma {:induction false} QuoteSplitOdd(s: string)
    decreases |s|
    ensures OddQuotations(QuoteSplit(s))
  {
    match FindQuote(s, 0)
    case None =>
      assert QuoteSplit(s) == [s];
    case Some(i) =>
      match FindQuote(s, i + 1)
      case None =>
        assert QuoteSplit(s) == [s];
      case Some(j) =>
        QuoteSplitCons(s, i, j);
        QuoteSplitOdd(s[j + 1..]);
        MatchIsQuotation(s, i, j);
        OddQuotationsCons(s[..i], s[i..j + 1], QuoteSplit(s[j + 1..]));
  }

  /** A matched quotation splits off the text before it and itself. */
  lemma QuoteSplitCons(s: string, i: nat, j: nat)
    requires FindQuote(s, 0) == Some(i) && FindQuote(s, i + 1) == Some(j)
    ensures QuoteSplit(s) == [s[..i], s[i..j + 1]] + QuoteSplit(s[j + 1..])
  {
  }

  lemma OddQuotationsCons(a: string, b: string, rest: seq<string>)
    requires IsQuotation(b) && OddQuotations(rest)
    ensures OddQuotations([a, b] + rest)
  {
    var segs := [a, b] + rest;
    forall k | 0 <= k < |segs| && k % 2 == 1
      ensures IsQuotation(segs[k])
    {
      if k >= 2 {
        assert segs[k] == rest[k - 2] && (k - 2) % 2 == 1;
      }
    }
  }

  /** The even segments before the last hold no quotation mark. */
  lemma {:induction false} QuoteSplitPlain(s: string)
    decreases |s|
    ensures EvenPlain(QuoteSplit(s))
  {
    match FindQuote(s, 0)
    case None =>
    case Some(i) =>
      match FindQuote(s, i + 1)
      case None =>
      case Some(j) =>
        var rest := QuoteSplit(s[j + 1..]);
        QuoteSplitPlain(s[j + 1..]);
        assert NoQuote(s[..i]);
        EvenPlainCons(s[..i], s[i..j + 1], rest);
  }

  lemma EvenPlainCons(a: string, b: string, rest: seq<string>)
    requires NoQuote(a) && EvenPlain(rest)
    ensures EvenPlain([a, b] + rest)
  {
    var segs := [a, b] + rest;
    forall k | 0 <= k < |segs| - 1 && k % 2 == 0
      ensures NoQuote(segs[k])
    {
      if k >= 2 {
        assert segs[k] == rest[k - 2] && (k - 2) % 2 == 0;
      }
    }
  }

  /** The last segment holds at most one quotation mark: the unmatched one. */
  lemma {:induction false} QuoteSplitLast(s: string)
    decreases |s|
    ensures AtMostOneQuote(QuoteSplit(s)[|QuoteSplit(s)| - 1])
  {
    match FindQuote(s, 0)
    case None =>
    case Some(i) =>
      match FindQuote(s, i + 1)
      case None =>
      case Some(j) =>
        var rest := QuoteSplit(s[j + 1..]);
        QuoteSplitLast(s[j + 1..]);
        var segs := [s[..i], s[i..j + 1]] + rest;
        assert segs == QuoteSplit(s);
        assert segs[|segs| - 1] == rest[|rest| - 1];
  }

  /** A segment as the card shows it. */
  datatype Span = Plain(text: string) | QuoteSpan(text: string)

  function Render(seg: string): (sp: Span)
    ensures sp.text == seg
    ensures sp.QuoteSpan? <==> Styled(seg)
  {
    if Styled(seg) then QuoteSpan(seg) else Plain(seg)
  }

  /** `processQuotes`: nothing for the empty text, otherwise one span per
      segment. */
  function ProcessQuotes(text: string): (spans: seq<Span>)
    ensures text == "" ==> spans == []
    ensures text != "" ==> |spans| == |QuoteSplit(text)|
    ensures text != "" ==> forall k :: 0 <= k < |spans| ==> spans[k] == Render(QuoteSplit(text)[k])
  {
    if text == "" then []
    else
      var segs := QuoteSplit(text);
      seq(|segs|, k requires 0 <= k < |segs| => Render(segs[k]))
  }

  function Texts(spans: seq<Span>): (r: seq<string>)
    ensures |r| == |spans| && forall k :: 0 <= k < |spans| ==> r[k] == spans[k].text
  {
    seq(|spans|, k requires 0 <= k < |spans| => spans[k].text)
  }

  /** The spans spell out the paragraph, and a span is styled as a quote
      exactly when it is a quotation, or when it is a lone quotation mark
      closing the paragraph. */
  lemma {:induction false} QuotesStyled(text: string)
    requires text != ""
    ensures var spans := ProcessQuotes(text);
      && Concat(Texts(spans)) == text
      && forall k :: 0 <= k < |spans| ==>
           (spans[k].QuoteSpan? <==> k % 2 == 1 || (k == |spans| - 1 && spans[k].text == [QuoteMark]))
  {
    var spans := ProcessQuotes(text);
    var segs := QuoteSplit(text);
    assert Texts(spans) == segs;
    QuoteSplitConcat(text);
    QuoteSplitOdd(text);
    QuoteSplitPlain(text);
    QuoteSplitLast(text);
    forall k | 0 <= k < |spans|
      ensures spans[k].QuoteSpan? <==> k % 2 == 1 || (k == |spans| - 1 && spans[k].text == [QuoteMark])
    {
      var seg := segs[k];
      assert k % 2 == 0 && k < |spans| - 1 ==> seg == [] || seg[0] != QuoteMark;
      assert |seg| >= 2 && k == |spans| - 1 ==> !(seg[0] == QuoteMark && seg[|seg| - 1] == QuoteMark);
    }
  }

  // ================================================================ paragraphs

  function NonEmpty(parts: seq<string>): (r: seq<string>)
    ensures |r| <= |parts|
    ensures forall p :: p in r <==> p in parts && p != ""
  {
    if parts == [] then []
    else if parts[0] == "" then NonEmpty(parts[1..])
    else [parts[0]] + NonEmpty(parts[1..])
  }

  /** `filter(Boolean)` keeps order and multiplicity: it works piece by piece. */
  lemma {:induction false} NonEmptyAppend(a: seq<string>, b: seq<string>)
    ensures NonEmpty(a + b) == NonEmpty(a) + NonEmpty(b)
  {
    if a == [] {
      assert a + b == b;
    } else {
      ConsAppend(a, b);
      NonEmptyAppend(a[1..], b);
    }
  }

  /** What the card shows for an article. */
  datatype ArticleView = NoContentAvailable | Paragraphs(paragraphs: seq<seq<Span>>)

  /** `article.split('\n\n').filter(Boolean)`. */
  function ParagraphsOf(article: string): (ps: seq<string>)
    ensures forall p :: p in ps ==> p != "" && !Contains(p, ParagraphBreak)
    ensures forall p :: p in ps <==> p in Split(article, ParagraphBreak) && p != ""
  {
    NonEmpty(Split(article, ParagraphBreak))
  }

  /** The paragraphs in order: the text before the first blank line, when it
      is not empty, then the paragraphs of the rest. */
  lemma ParagraphsCons(article: string, i: nat)
    requires IndexOf(article, ParagraphBreak) == Some(i)
    ensures ParagraphsOf(article) ==
      (if i == 0 then [] else [article[..i]]) + ParagraphsOf(article[i + |ParagraphBreak|..])
  {
    var rest := article[i + |ParagraphBreak|..];
    assert Split(article, ParagraphBreak) == [article[..i]] + Split(rest, ParagraphBreak);
    NonEmptyAppend([article[..i]], Split(rest, ParagraphBreak));
  }

  /** An empty article shows "No content available"; any other shows its
      non-empty paragraphs, each cut into spans. */
  function ShowArticle(article: string): (v: ArticleView)
    ensures v.NoContentAvailable? <==> article == ""
    ensures v.Paragraphs? ==> |v.paragraphs| == |ParagraphsOf(article)|
    ensures v.Paragraphs? ==> forall k :: 0 <= k < |v.paragraphs| ==> v.paragraphs[k] == ProcessQuotes(ParagraphsOf(article)[k])
  {
    if article == "" then NoContentAvailable
    else
      var ps := ParagraphsOf(article);
      Paragraphs(seq(|ps|, k requires 0 <= k < |ps| => ProcessQuotes(ps[k])))
  }

  /** An article without a blank line is one paragraph. */
  lemma SingleParagraph(article: string)
    requires article != "" && !Contains(article, ParagraphBreak)
    ensures ParagraphsOf(article) == [article]
  {
    assert IndexOf(article, ParagraphBreak).None?;
    assert Split(article, ParagraphBreak) == [article];
    assert NonEmpty([article]) == [article] + NonEmpty([article][1..]);
    assert [article][1..] == [];
  }

  /** An article made of nothing but a blank line is not "No content
      available": it shows no paragraphs at all. */
  lemma BlankArticle()
    ensures ShowArticle(ParagraphBreak) == Paragraphs([])
  {
    assert IndexOf(ParagraphBreak, ParagraphBreak) == Some(0);
    assert IndexOf("", ParagraphBreak) == None;
    assert ParagraphBreak[2..] == "";
    assert Split(ParagraphBreak, ParagraphBreak) == ["", ""];
    assert ["", ""][1..] == [""];
  }
}
