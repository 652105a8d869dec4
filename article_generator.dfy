/** The article generator: per-thread article records kept in a store keyed by
    thread id, tolerant parsing of the two AI replies (the `HEADLINE:` /
    `ARTICLE:` summary and the fenced JSON classification), and the retention
    pipeline for the shared list of flagged examples (pseuds.json).

    The completion service is not modelled: each reply is a string given to
    `Generate`. `Date.now()` is the parameter `now`, `JSON.parse` of the
    classification payload is the parameter `parse`, and the length of
    `JSON.stringify(list, null, 2)` is the parameter `size`. */
module ArticleGen {
  import opened Common
  import opened Strings
  import opened Ranking

  const MaxExamples: nat := 100
  const MaxAgeMs: int := 7 * 24 * 60 * 60 * 1000
  const MaxFileSize: nat := 1024 * 1024

  const HeadlineTag := "HEADLINE: "
  const ArticleTag := "ARTICLE: "
  const UntitledHeadline := "Untitled Thread"
  const NoContentGenerated := "No content generated"
  const JsonFence := "```json"
  const Fence := "```"
  const PostNoTag := "No."

  /** A JavaScript number as a division can produce it, or `null`: what
      `JSON.stringify` writes for NaN and the infinities, and so what a
      record read back from its file holds in their place. */
  datatype JsNumber = Finite(value: real) | NaN | PositiveInfinity | NegativeInfinity | Null

  /** A flagged post kept for display after its thread is gone. */
  datatype RetainedExample = RetainedExample(threadId: string, postId: int, content: string, timestamp: int)

  datatype Stats = Stats(
    analyzedComments: nat,
    delusionalComments: int,
    percentage: JsNumber,
    examples: seq<RetainedExample>)

  datatype Article = Article(
    threadId: string,
    headline: string,
    article: string,
    delusionalStats: Stats,
    generatedAt: int)

  /** The two fields of a parsed classification; each may be absent (or null). */
  datatype Classification = Classification(count: Option<int>, examples: Option<seq<string>>)

  /** What `JSON.parse` makes of the classification payload: it throws, it
      yields `null`, or it yields a value whose fields are read. A number, a
      string or an array has neither field. */
  datatype ParseOutcome = Unparseable | ParsedNull | Parsed(value: Classification)

  /** The classification after the fallbacks: a count and the flagged excerpts. */
  datatype Verdict = Verdict(count: int, examples: seq<string>)

  // ================================================================ summary reply

  predicate NoLineTerminator(s: string) {
    forall k :: 0 <= k < |s| ==> !IsLineTerminator(s[k])
  }

  /** Where the line that starts at `k` ends. */
  function LineEnd(s: string, k: nat): (e: nat)
    requires k <= |s|
    decreases |s| - k
    ensures k <= e <= |s| && NoLineTerminator(s[k..e])
    ensures e == |s| || IsLineTerminator(s[e])
  {
    if k < |s| && !IsLineTerminator(s[k]) then
      var e := LineEnd(s, k + 1);
      assert s[k..e] == [s[k]] + s[k + 1..e];
      e
    else k
  }

  /** `content.match(/HEADLINE: (.*)/)?.[1] || 'Untitled Thread'`: the rest of
      the line after the first `HEADLINE: `, unless that is empty or missing. */
  function ParseHeadline(reply: string): (h: string)
    ensures IndexOf(reply, HeadlineTag).None? ==> h == UntitledHeadline
    ensures IndexOf(reply, HeadlineTag).Some? ==>
      var start := IndexOf(reply, HeadlineTag).value + |HeadlineTag|;
      && (start == |reply| || IsLineTerminator(reply[start]) ==> h == UntitledHeadline)
      && (start < |reply| && !IsLineTerminator(reply[start]) ==>
            && start + |h| <= |reply| && h == reply[start..start + |h|]
            && h != [] && NoLineTerminator(h)
            && (start + |h| == |reply| || IsLineTerminator(reply[start + |h|])))
  {
    match IndexOf(reply, HeadlineTag)
    case None => UntitledHeadline
    case Some(i) =>
      var start := i + |HeadlineTag|;
      var line := reply[start..LineEnd(reply, start)];
      if line == "" then UntitledHeadline else line
  }

  /** `content.match(/ARTICLE: ([\s\S]*)/)?.[1]?.trim() || 'No content generated'`:
      everything after the first `ARTICLE: `, trimmed, unless that is empty or missing. */
  function ParseArticle(reply: string): (a: string)
    ensures IndexOf(reply, ArticleTag).None? ==> a == NoContentGenerated
    ensures IndexOf(reply, ArticleTag).Some? ==>
      var body := Trim(reply[IndexOf(reply, ArticleTag).value + |ArticleTag|..]);
      a == if body == "" then NoContentGenerated else body
  {
    match IndexOf(reply, ArticleTag)
    case None => NoContentGenerated
    case Some(i) =>
      var body := Trim(reply[i + |ArticleTag|..]);
      if body == "" then NoContentGenerated else body
  }

  /** The reply format the summarization prompt asks for. */
  function FormatReply(headline: string, article: string): string {
    HeadlineTag + headline + "\n" + ArticleTag + article
  }

  lemma {:induction false} LineRun(s: string, k: nat, e: nat)
    requires k <= e <= |s| && NoLineTerminator(s[k..e])
    requires e == |s| || IsLineTerminator(s[e])
    decreases e - k
    ensures LineEnd(s, k) == e
  {
    if k < e {
      assert s[k] == s[k..e][0];
      assert s[k + 1..e] == s[k..e][1..];
      LineRun(s, k + 1, e);
    }
  }

  lemma HeadlineTagStart(j: int)
    requires 0 <= j < |HeadlineTag|
    ensures HeadlineTag[j] != ArticleTag[0] || HeadlineTag[j + 1] != ArticleTag[1]
  {
    assert HeadlineTag == ['H', 'E', 'A', 'D', 'L', 'I', 'N', 'E', ':', ' '];
  }

  lemma NoArticleTagBefore(h: string, a: string, j: nat)
    requires NoLineTerminator(h) && !Contains(h, ArticleTag)
    requires j < |HeadlineTag| + |h| + 1
    ensures !OccursAt(FormatReply(h, a), ArticleTag, j)
  {
    var s := FormatReply(h, a);
    var n, m := |HeadlineTag|, |ArticleTag|;
    if j + m <= |s| {
      var w := s[j..j + m];
      if j < n {
        HeadlineTagStart(j);
        assert w[0] == s[j] == HeadlineTag[j];
        assert j + 1 < n ==> w[1] == s[j + 1] == HeadlineTag[j + 1];
      } else if j + m <= n + |h| {
        assert w == h[j - n..j - n + m];
        assert !OccursAt(h, ArticleTag, j - n);
      } else {
        assert s[n + |h|] == '\n' && w[n + |h| - j] == s[n + |h|];
        assert ArticleTag == ['A', 'R', 'T', 'I', 'C', 'L', 'E', ':', ' '];
      }
    }
  }

  /** A reply in the requested format gives back its headline... */
  lemma HeadlineRoundTrip(h: string, a: string)
    requires h != "" && NoLineTerminator(h)
    ensures ParseHeadline(FormatReply(h, a)) == h
  {
    var s := FormatReply(h, a);
    var n := |HeadlineTag|;
    assert s[..n] == HeadlineTag;
    IndexOfIs(s, HeadlineTag, 0);
    assert s[n..n + |h|] == h && s[n + |h|] == '\n';
    LineRun(s, n, n + |h|);
  }

  /** ... and its article, when the headline does not itself contain `ARTICLE: `. */
  lemma ArticleRoundTrip(h: string, a: string)
    requires NoLineTerminator(h) && !Contains(h, ArticleTag)
    requires a != "" && Trim(a) == a
    ensures ParseArticle(FormatReply(h, a)) == a
  {
    var s := FormatReply(h, a);
    var at := |HeadlineTag| + |h| + 1;
    assert s[at..at + |ArticleTag|] == ArticleTag;
    forall j | 0 <= j < at
      ensures !OccursAt(s, ArticleTag, j)
    {
      NoArticleTagBefore(h, a, j);
    }
    IndexOfIs(s, ArticleTag, at);
    assert s[at + |ArticleTag|..] == a;
  }

  // ================================================================ classification reply

  /** A ```json fence starts with a plain fence. */
  lemma JsonFenceIsFence(x: string, i: nat)
    requires OccursAt(x, JsonFence, i)
    ensures OccursAt(x, Fence, i)
  {
    assert JsonFence[..|Fence|] == Fence by {
      assert JsonFence == ['`', '`', '`', 'j', 's', 'o', 'n'];
      assert Fence == ['`', '`', '`'];
    }
    assert x[i..i + |Fence|] == x[i..i + |JsonFence|][..|Fence|];
  }

  /** Two fences that overlap make a run of four backticks. */
  lemma OverlappingFences(x: string, k: nat, i: nat)
    requires OccursAt(x, Fence, k) && OccursAt(x, Fence, i) && k < i < k + |Fence|
    ensures OccursAt(x, "````", k)
  {
    assert Fence == ['`', '`', '`'];
    assert x[k..k + 3][0] == '`' && x[k..k + 3][1] == '`' && x[k..k + 3][2] == '`';
    assert x[i..i + 3][0] == '`' && x[i..i + 3][1] == '`' && x[i..i + 3][2] == '`';
    assert x[k + 3] == '`';
    assert x[k..k + 4] == ['`', '`', '`', '`'];
  }

  /** Cutting at the next ```json and then at the next fence is cutting at
      the next fence, unless the two overlap in a run of four backticks. */
  lemma BeforeFenceJson(x: string)
    ensures !Contains(x, "````") ==> Before(Before(x, JsonFence), Fence) == Before(x, Fence)
  {
    if !Contains(x, "````") && IndexOf(x, JsonFence).Some? {
      var i := IndexOf(x, JsonFence).value;
      var b := x[..i];
      JsonFenceIsFence(x, i);
      var k := IndexOf(x, Fence).value;
      if k + |Fence| <= i {
        assert b[k..k + |Fence|] == x[k..k + |Fence|];
        forall j | 0 <= j < k
          ensures !OccursAt(b, Fence, j)
        {
          if OccursAt(b, Fence, j) {
            OccursInSlice(x, 0, i, Fence, j);
          }
        }
        IndexOfIs(b, Fence, k);
      } else if k == i {
        NoOccurrenceInPrefix(x, Fence, i);
      } else {
        OverlappingFences(x, k, i);
        assert false;
      }
    }
  }

  lemma {:induction false} StripJsonCase(reply: string, i: nat)
    requires IndexOf(reply, JsonFence) == Some(i)
    ensures var rest := reply[i + |JsonFence|..];
      var inner := Split(reply, JsonFence)[1];
      var payload := Trim(Split(inner, Fence)[0]);
      && payload == Trim(Before(Before(rest, JsonFence), Fence))
      && (!Contains(rest, "````") ==> payload == Trim(Before(rest, Fence)))
      && !Contains(payload, Fence)
  {
    var rest := reply[i + |JsonFence|..];
    SplitSecond(reply, JsonFence, i);
    var inner := Split(reply, JsonFence)[1];
    SplitFirst(inner, Fence);
    BeforeFenceJson(rest);
    TrimmedHasNoFence(Before(inner, Fence));
  }

  lemma {:induction false} StripPlainCase(reply: string, i: nat)
    requires IndexOf(reply, Fence) == Some(i)
    ensures var inner := Split(reply, Fence)[1];
      var payload := Trim(Split(inner, Fence)[0]);
      && payload == Trim(Before(reply[i + |Fence|..], Fence))
      && !Contains(payload, Fence)
  {
    SplitSecond(reply, Fence, i);
    var inner := Split(reply, Fence)[1];
    SplitFirst(inner, Fence);
    TrimmedHasNoFence(inner);
  }

  /** The markdown-fence stripping applied before `JSON.parse`. With a
      ```json fence the payload is the trimmed text from there up to the next
      ```json, cut again at its first fence; with a plain fence, the trimmed
      text between the first two fences; otherwise the reply itself. */
  function StripFences(reply: string): (payload: string)
    ensures IndexOf(reply, JsonFence).Some? ==>
      var rest := reply[IndexOf(reply, JsonFence).value + |JsonFence|..];
      && payload == Trim(Before(Before(rest, JsonFence), Fence))
      && (!Contains(rest, "````") ==> payload == Trim(Before(rest, Fence)))
    ensures IndexOf(reply, JsonFence).None? && IndexOf(reply, Fence).Some? ==>
      payload == Trim(Before(reply[IndexOf(reply, Fence).value + |Fence|..], Fence))
    ensures IndexOf(reply, Fence).None? ==> payload == reply
    ensures Contains(reply, Fence) ==> !Contains(payload, Fence)
  {
    match IndexOf(reply, JsonFence)
    case Some(i) =>
      JsonFenceIsFence(reply, i);
      JsonPayload(reply, i)
    case None =>
      match IndexOf(reply, Fence)
      case Some(i) => PlainPayload(reply, i)
      case None => reply
  }

  /** `split('```json')[1].split('```')[0].trim()` */
  function JsonPayload(reply: string, i: nat): (payload: string)
    requires IndexOf(reply, JsonFence) == Some(i)
    ensures var rest := reply[i + |JsonFence|..];
      && payload == Trim(Before(Before(rest, JsonFence), Fence))
      && (!Contains(rest, "````") ==> payload == Trim(Before(rest, Fence)))
      && !Contains(payload, Fence)
  {
    StripJsonCase(reply, i);
    Trim(Split(Split(reply, JsonFence)[1], Fence)[0])
  }

  /** `split('```')[1].split('```')[0].trim()` */
  function PlainPayload(reply: string, i: nat): (payload: string)
    requires IndexOf(reply, Fence) == Some(i)
    ensures payload == Trim(Before(reply[i + |Fence|..], Fence))
    ensures !Contains(payload, Fence)
  {
    StripPlainCase(reply, i);
    Trim(Split(Split(reply, Fence)[1], Fence)[0])
  }

  lemma TrimmedHasNoFence(x: string)
    requires !Contains(x, Fence)
    ensures !Contains(Trim(x), Fence)
  {
    var i, j :| 0 <= i <= j <= |x| && Trim(x) == x[i..j];
    SliceOfAbsent(x, i, j, Fence);
  }

  /** The classification with its fallbacks: a payload that does not parse
      gives count 0 and no examples, and so does a missing field. A payload
      that parses to `null` gives no verdict at all: reading `result.count`
      outside the `try` throws. */
  function Classify(reply: string, parse: string -> ParseOutcome): (v: Option<Verdict>)
    ensures v.None? <==> parse(StripFences(reply)).ParsedNull?
    ensures parse(StripFences(reply)).Unparseable? ==> v == Some(Verdict(0, []))
    ensures parse(StripFences(reply)).Parsed? ==>
      var c := parse(StripFences(reply)).value;
      && v.Some?
      && (c.count.Some? ==> v.value.count == c.count.value)
      && (c.count.None? ==> v.value.count == 0)
      && (c.examples.Some? ==> v.value.examples == c.examples.value)
      && (c.examples.None? ==> v.value.examples == [])
  {
    match parse(StripFences(reply))
    case Unparseable => Some(Verdict(0, []))
    case ParsedNull => None
    case Parsed(c) => Some(Verdict(c.count.GetOr(0), c.examples.GetOr([])))
  }

  // ================================================================ post numbers

  function SkipSpaces(s: string, k: nat): (e: nat)
    requires k <= |s|
    decreases |s| - k
    ensures k <= e <= |s| && (e == |s| || !IsSpace(s[e]))
    ensures forall m :: k <= m < e ==> IsSpace(s[m])
  {
    if k < |s| && IsSpace(s[k]) then SkipSpaces(s, k + 1) else k
  }

  function DigitsEnd(s: string, k: nat): (e: nat)
    requires k <= |s|
    decreases |s| - k
    ensures k <= e <= |s| && (e == |s| || !IsDigit(s[e]))
    ensures AllDigits(s[k..e])
  {
    if k < |s| && IsDigit(s[k]) then DigitsEnd(s, k + 1) else k
  }

  /** The match of `/No\.\s*(\d+)/` that starts at `i`, if there is one. */
  function PostNoAt(s: string, i: nat): Option<nat> {
    if OccursAt(s, PostNoTag, i) then
      var k := SkipSpaces(s, i + |PostNoTag|);
      var e := DigitsEnd(s, k);
      if k < e then Some(DigitsValue(s[k..e])) else None
    else None
  }

  function PostNoFrom(s: string, i: nat): (r: Option<nat>)
    decreases |s| - i
    ensures r.Some? ==> exists m :: i <= m < |s| && PostNoAt(s, m) == r && forall j :: i <= j < m ==> PostNoAt(s, j).None?
    ensures r.None? ==> forall m :: i <= m < |s| ==> PostNoAt(s, m).None?
  {
    if i >= |s| then None
    else if PostNoAt(s, i).Some? then PostNoAt(s, i)
    else PostNoFrom(s, i + 1)
  }

  /** `post.match(/No\.\s*(\d+)/)` followed by `parseInt`: the number of the
      leftmost match. */
  function ExtractPostNo(s: string): (r: Option<nat>)
    ensures r.Some? ==> exists m :: 0 <= m < |s| && PostNoAt(s, m) == r && forall j :: 0 <= j < m ==> PostNoAt(s, j).None?
    ensures r.None? ==> forall m :: 0 <= m < |s| ==> PostNoAt(s, m).None?
  {
    PostNoFrom(s, 0)
  }

  /** No match of `No.` starts inside a prefix free of it that is followed by `No.`. */
  lemma NoTagBefore(p: string, rest: string, j: nat)
    requires !Contains(p, PostNoTag) && |rest| >= |PostNoTag| && rest[..|PostNoTag|] == PostNoTag
    requires j < |p|
    ensures !OccursAt(p + rest, PostNoTag, j)
  {
    var s := p + rest;
    assert PostNoTag == ['N', 'o', '.'];
    assert s[|p|] == rest[0] == 'N';
    if j + |PostNoTag| <= |p| {
      assert s[j..j + |PostNoTag|] == p[j..j + |PostNoTag|];
      assert !OccursAt(p, PostNoTag, j);
    } else if j == |p| - 1 {
      assert s[j..j + |PostNoTag|][1] == 'N' != PostNoTag[1];
    } else {
      assert s[j..j + |PostNoTag|][2] == 'N' != PostNoTag[2];
    }
  }

  /** The match at a written `No.` reads the number written after it. */
  lemma {:induction false} PostNoAtTag(p: string, n: nat, q: string)
    requires q == [] || !IsDigit(q[0])
    ensures PostNoAt(p + PostNoTag + NatToString(n) + q, |p|) == Some(n)
  {
    var digits := NatToString(n);
    var s := p + PostNoTag + digits + q;
    var at := |p|;
    assert s[at..at + |PostNoTag|] == PostNoTag;
    var k := at + |PostNoTag|;
    assert s[k..k + |digits|] == digits;
    assert IsDigit(s[k]) by {
      assert s[k] == digits[0];
    }
    assert SkipSpaces(s, k) == k;
    assert k + |digits| == |s| || !IsDigit(s[k + |digits|]) by {
      if k + |digits| < |s| {
        assert s[k + |digits|] == q[0];
      }
    }
    DigitsRun(s, k, k + |digits|);
    ParseNatToString(n);
  }

  /** A post number written after `No.` is read back, provided nothing
      earlier looks like `No.` and no digit follows it. */
  lemma {:induction false} PostNoRoundTrip(p: string, n: nat, q: string)
    requires !Contains(p, PostNoTag)
    requires q == [] || !IsDigit(q[0])
    ensures ExtractPostNo(p + PostNoTag + NatToString(n) + q) == Some(n)
  {
    var rest := PostNoTag + NatToString(n) + q;
    var s := p + rest;
    assert s == p + PostNoTag + NatToString(n) + q;
    assert rest[..|PostNoTag|] == PostNoTag;
    forall j | 0 <= j < |p|
      ensures PostNoAt(s, j).None?
    {
      NoTagBefore(p, rest, j);
    }
    PostNoAtTag(p, n, q);
    PostNoFromSkips(s, 0, |p|);
  }

  /** The leftmost-match search reaches the first position that matches. */
  lemma PostNoFromSkips(s: string, i: nat, m: nat)
    requires i <= m < |s| && PostNoAt(s, m).Some?
    requires forall j :: i <= j < m ==> PostNoAt(s, j).None?
    ensures PostNoFrom(s, i) == PostNoAt(s, m)
  {
    var r := PostNoFrom(s, i);
    assert r.Some?;
    var m' :| i <= m' < |s| && PostNoAt(s, m') == r && forall j :: i <= j < m' ==> PostNoAt(s, j).None?;
    assert m' == m;
  }

  lemma {:induction false} DigitsRun(s: string, k: nat, e: nat)
    requires k <= e <= |s| && AllDigits(s[k..e])
    requires e == |s| || !IsDigit(s[e])
    decreases e - k
    ensures DigitsEnd(s, k) == e
  {
    if k < e {
      assert IsDigit(s[k..e][0]);
      assert s[k + 1..e] == s[k..e][1..];
      DigitsRun(s, k + 1, e);
    }
  }

  /** `posts.find(p => p.includes(content))` */
  function FindPost(posts: seq<string>, content: string): (r: Option<string>)
    ensures r.Some? ==> exists k :: (0 <= k < |posts| && posts[k] == r.value && Contains(r.value, content)
      && forall j :: 0 <= j < k ==> !Contains(posts[j], content))
    ensures r.None? ==> forall k :: 0 <= k < |posts| ==> !Contains(posts[k], content)
  {
    if posts == [] then None
    else if Contains(posts[0], content) then Some(posts[0])
    else
      var r := FindPost(posts[1..], content);
      assert forall k :: 1 <= k < |posts| ==> posts[k] == posts[1..][k - 1];
      r
  }

  /** The post id recorded for an example: the number after `No.` in the
      first post that contains it, else the current time. */
  function ExamplePostId(posts: seq<string>, content: string, now: int): (id: int)
    ensures FindPost(posts, content).Some? && ExtractPostNo(FindPost(posts, content).value).Some? ==>
      id == ExtractPostNo(FindPost(posts, content).value).value
    ensures FindPost(posts, content).None? || ExtractPostNo(FindPost(posts, content).value).None? ==>
      id == now
  {
    match FindPost(posts, content)
    case Some(p) => (match ExtractPostNo(p) case Some(n) => n case None => now)
    case None => now
  }

  /** `threadId || \`thread-${Date.now()}\`` */
  function ExampleThreadId(threadId: string, now: int): (t: string)
    ensures threadId != "" ==> t == threadId
    ensures threadId == "" ==> t == "thread-" + IntToString(now)
  {
    if threadId != "" then threadId else "thread-" + IntToString(now)
  }

  /** The examples the classification returned, as they are added to the store. */
  function NewExamples(threadId: string, posts: seq<string>, examples: seq<string>, now: int): (r: seq<RetainedExample>)
    ensures |r| == |examples|
    ensures forall k :: 0 <= k < |r| ==>
      r[k] == RetainedExample(ExampleThreadId(threadId, now), ExamplePostId(posts, examples[k], now), examples[k], now)
  {
    seq(|examples|, k requires 0 <= k < |examples| =>
      RetainedExample(ExampleThreadId(threadId, now), ExamplePostId(posts, examples[k], now), examples[k], now))
  }

  // ================================================================ retention

  predicate HasContent(s: seq<RetainedExample>, c: string) {
    exists k :: 0 <= k < |s| && s[k].content == c
  }

  /** No earlier entry has the same content as entry `i`: the condition
      `index === self.findIndex(p => p.content === post.content)`. */
  predicate FirstOfContent(s: seq<RetainedExample>, i: int)
    requires 0 <= i < |s|
  {
    forall j :: 0 <= j < i ==> s[j].content != s[i].content
  }

  predicate DistinctContents(s: seq<RetainedExample>) {
    forall i, j :: 0 <= i < j < |s| ==> s[i].content != s[j].content
  }

  /** What deduplication promises of `r` as a result for `s`. */
  ghost predicate DedupOf(s: seq<RetainedExample>, r: seq<RetainedExample>) {
    && multiset(r) <= multiset(s)
    && DistinctContents(r)
    && (forall c :: HasContent(s, c) <==> HasContent(r, c))
    && (forall i :: 0 <= i < |s| && FirstOfContent(s, i) ==> s[i] in r)
  }

  lemma HasContentAppend(a: seq<RetainedExample>, b: seq<RetainedExample>, c: string)
    ensures HasContent(a + b, c) <==> HasContent(a, c) || HasContent(b, c)
  {
    if HasContent(a, c) {
      var k :| 0 <= k < |a| && a[k].content == c;
      assert (a + b)[k].content == c;
    }
    if HasContent(b, c) {
      var k :| 0 <= k < |b| && b[k].content == c;
      assert (a + b)[|a| + k].content == c;
    }
    if HasContent(a + b, c) {
      var k :| 0 <= k < |a + b| && (a + b)[k].content == c;
      if k < |a| {
        assert a[k].content == c;
      } else {
        assert b[k - |a|].content == c;
      }
    }
  }

  /** One step of deduplication: appending an entry keeps the result when its
      content is already present and appends the entry otherwise. */
  lemma {:induction false} DedupStep(init: seq<RetainedExample>, last: RetainedExample, rest: seq<RetainedExample>)
    requires DedupOf(init, rest)
    ensures DedupOf(init + [last], rest + (if HasContent(init, last.content) then [] else [last]))
  {
    var s := init + [last];
    var tail := if HasContent(init, last.content) then [] else [last];
    var r := rest + tail;
    forall c
      ensures HasContent(s, c) <==> HasContent(r, c)
    {
      HasContentAppend(init, [last], c);
      HasContentAppend(rest, tail, c);
      assert HasContent([last], c) <==> last.content == c by {
        assert [last][0] == last;
      }
      if tail != [] {
        assert HasContent(tail, c) <==> last.content == c by {
          assert tail[0] == last;
        }
      }
    }
    forall i, j | 0 <= i < j < |r|
      ensures r[i].content != r[j].content
    {
      if j >= |rest| {
        assert r[j] == last && r[i] == rest[i];
        assert HasContent(rest, r[i].content);
      }
    }
    forall i | 0 <= i < |s| && FirstOfContent(s, i)
      ensures s[i] in r
    {
      if i < |init| {
        assert init[i] == s[i];
        assert forall j :: 0 <= j < i ==> init[j] == s[j];
        assert FirstOfContent(init, i);
        assert s[i] in rest;
      } else {
        assert forall k :: 0 <= k < |init| ==> init[k] == s[k];
        assert !HasContent(init, last.content);
        assert r[|rest|] == last;
      }
    }
  }

  /** Entry `i` as the filter of step 1 keeps it: alone when no earlier
      entry shares its content, otherwise not at all. */
  function KeepFirst(s: seq<RetainedExample>, i: nat): (r: seq<RetainedExample>)
    requires i < |s|
    ensures r == [s[i]] || r == []
    ensures r == [s[i]] <==> !HasContent(s[..i], s[i].content)
  {
    FirstInPrefix(s, i);
    if FirstOfContent(s, i) then [s[i]] else []
  }

  /** The filter of step 1 over the first `n` entries, index by index. */
  function FirstOccurrences(s: seq<RetainedExample>, n: nat): (r: seq<RetainedExample>)
    requires n <= |s|
    ensures |r| <= n
  {
    if n == 0 then [] else FirstOccurrences(s, n - 1) + KeepFirst(s, n - 1)
  }

  /** Step 1, `filter((post, index, self) => index === self.findIndex(...))`:
      the entries that no earlier entry shares their content with, in order. */
  function DedupByContent(s: seq<RetainedExample>): (r: seq<RetainedExample>)
    ensures multiset(r) <= multiset(s)
    ensures DistinctContents(r)
    ensures forall c :: HasContent(s, c) <==> HasContent(r, c)
    ensures forall i :: 0 <= i < |s| && FirstOfContent(s, i) ==> s[i] in r
  {
    FirstOccurrencesDedup(s, |s|);
    assert s[..|s|] == s;
    FirstOccurrences(s, |s|)
  }

  /** The index filter over a prefix deduplicates that prefix. */
  lemma {:induction false} FirstOccurrencesDedup(s: seq<RetainedExample>, n: nat)
    requires n <= |s|
    ensures DedupOf(s[..n], FirstOccurrences(s, n))
  {
    if n == 0 {
      assert s[..n] == [];
    } else {
      FirstOccurrencesDedup(s, n - 1);
      DedupExtend(s, n, FirstOccurrences(s, n - 1));
    }
  }

  /** One step of the induction: keeping or dropping `s[n - 1]` extends a
      deduplication of `s[..n - 1]` to one of `s[..n]`. */
  lemma DedupExtend(s: seq<RetainedExample>, n: nat, r: seq<RetainedExample>)
    requires 0 < n <= |s|
    requires r == FirstOccurrences(s, n - 1) && DedupOf(s[..n - 1], r)
    ensures DedupOf(s[..n], FirstOccurrences(s, n))
  {
    var init, last := s[..n - 1], s[n - 1];
    FirstOccurrencesStep(s, n);
    DedupStep(init, last, r);
    DedupOfEqual(init + [last], r + (if HasContent(init, last.content) then [] else [last]),
                 s[..n], FirstOccurrences(s, n));
  }

  lemma FirstOccurrencesStep(s: seq<RetainedExample>, n: nat)
    requires 0 < n <= |s|
    ensures s[..n] == s[..n - 1] + [s[n - 1]]
    ensures FirstOccurrences(s, n) ==
      FirstOccurrences(s, n - 1) + (if HasContent(s[..n - 1], s[n - 1].content) then [] else [s[n - 1]])
  {
  }

  lemma DedupOfEqual(s: seq<RetainedExample>, r: seq<RetainedExample>, s': seq<RetainedExample>, r': seq<RetainedExample>)
    requires DedupOf(s, r) && s == s' && r == r'
    ensures DedupOf(s', r')
  {
  }

  /** Entry `i` is the first of its content exactly when the entries before
      it do not hold that content. */
  lemma FirstInPrefix(s: seq<RetainedExample>, i: nat)
    requires i < |s|
    ensures FirstOfContent(s, i) <==> !HasContent(s[..i], s[i].content)
  {
    if HasContent(s[..i], s[i].content) {
      var k :| 0 <= k < i && s[..i][k].content == s[i].content;
      assert s[k] == s[..i][k];
    }
    if !FirstOfContent(s, i) {
      var j :| 0 <= j < i && s[j].content == s[i].content;
      assert s[..i][j] == s[j];
    }
  }

  /** Step 2: `now - post.timestamp < MAX_AGE_MS`, in order. */
  function Recent(s: seq<RetainedExample>, now: int): (r: seq<RetainedExample>)
    ensures multiset(r) <= multiset(s)
    ensures forall e :: e in r <==> e in s && now - e.timestamp < MaxAgeMs
  {
    if s == [] then []
    else
      assert s == [s[0]] + s[1..];
      (if now - s[0].timestamp < MaxAgeMs then [s[0]] else []) + Recent(s[1..], now)
  }

  /** The age filter keeps order and multiplicity: it works entry by entry. */
  lemma {:induction false} RecentAppend(a: seq<RetainedExample>, b: seq<RetainedExample>, now: int)
    ensures Recent(a + b, now) == Recent(a, now) + Recent(b, now)
  {
    if a == [] {
      assert a + b == b;
      assert Recent(a, now) == [];
    } else {
      var keep := if now - a[0].timestamp < MaxAgeMs then [a[0]] else [];
      RecentAppend(a[1..], b, now);
      ConsAppend(a, b);
      RecentCons(a[0], a[1..] + b, now);
      RecentCons(a[0], a[1..], now);
      AppendAssoc(keep, Recent(a[1..], now), Recent(b, now));
    }
  }

  lemma RecentCons(e: RetainedExample, s: seq<RetainedExample>, now: int)
    ensures Recent([e] + s, now) == (if now - e.timestamp < MaxAgeMs then [e] else []) + Recent(s, now)
  {
    assert ([e] + s)[0] == e && ([e] + s)[1..] == s;
  }

  function TimestampKey(e: RetainedExample): Rank {
    Rank(e.timestamp, 0)
  }

  /** Steps 1 to 3: dedup the existing entries, drop the old ones, put the new
      examples in front, keep the first 100, then sort newest first. */
  function Retain(existing: seq<RetainedExample>, newExamples: seq<RetainedExample>, now: int): (r: seq<RetainedExample>)
    ensures |r| <= MaxExamples
    ensures SortedDesc(r, TimestampKey)
    ensures multiset(r) == multiset(Take(newExamples + Recent(DedupByContent(existing), now), MaxExamples))
    ensures forall e :: e in r ==> e in newExamples || (e in existing && now - e.timestamp < MaxAgeMs)
  {
    var recentExisting := Recent(DedupByContent(existing), now);
    var capped := Take(newExamples + recentExisting, MaxExamples);
    var r := SortDesc(capped, TimestampKey);
    forall e | e in r
      ensures e in newExamples || (e in existing && now - e.timestamp < MaxAgeMs)
    {
      assert e in multiset(capped);
      assert e in newExamples + recentExisting;
      if e !in newExamples {
        assert e in recentExisting;
        assert e in multiset(DedupByContent(existing));
      }
    }
    r
  }

  /** When there are at most 100 new examples, every one of them is kept. */
  lemma RetainKeepsNew(existing: seq<RetainedExample>, newExamples: seq<RetainedExample>, now: int)
    requires |newExamples| <= MaxExamples
    ensures multiset(newExamples) <= multiset(Retain(existing, newExamples, now))
  {
    TakeKeepsPrefix(newExamples, Recent(DedupByContent(existing), now), MaxExamples);
  }

  /** Existing entries are deduplicated, new ones are not: a new example whose
      text is already stored is kept next to the stored copy. */
  lemma NewExamplesNotDeduplicated(stored: RetainedExample, added: RetainedExample, now: int)
    requires stored.content == added.content
    requires now - stored.timestamp < MaxAgeMs
    ensures var r := Retain([stored], [added], now);
      |r| == 2 && r[0].content == r[1].content
  {
    SingleSurvives(stored, now);
    assert Take([added] + [stored], MaxExamples) == [added, stored];
    var r := Retain([stored], [added], now);
    assert multiset(r) == multiset{added, stored};
    assert |r| == |multiset(r)| == 2;
    assert r[0] in multiset(r) && r[1] in multiset(r);
  }

  /** A single recent stored entry survives steps 1 and 2. */
  lemma SingleSurvives(e: RetainedExample, now: int)
    requires now - e.timestamp < MaxAgeMs
    ensures Recent(DedupByContent([e]), now) == [e]
  {
    assert DedupByContent([e]) == [e] by {
      assert [e][..1] == [e];
      assert FirstOccurrences([e], 1) == FirstOccurrences([e], 0) + KeepFirst([e], 0);
      assert KeepFirst([e], 0) == [e];
    }
    assert [e][1..] == [];
  }

  /** Step 4, as a specification: the longest prefix whose serialised size
      fits, or the empty list. */
  function LongestFittingPrefix(s: seq<RetainedExample>, size: seq<RetainedExample> -> nat): (r: seq<RetainedExample>)
    ensures |r| <= |s| && r == s[..|r|]
    ensures size(r) <= MaxFileSize || r == []
    ensures forall k :: |r| < k <= |s| ==> size(s[..k]) > MaxFileSize
  {
    if size(s) <= MaxFileSize || s == [] then s
    else
      var r := LongestFittingPrefix(s[..|s| - 1], size);
      assert forall k :: |r| < k < |s| ==> s[..|s| - 1][..k] == s[..k];
      assert s[..|s|] == s;
      r
  }

  /** Step 4: when the serialised list is over 1 MiB, drop the last entry
      until it fits or nothing is left. */
  method TrimToSize(updated: seq<RetainedExample>, size: seq<RetainedExample> -> nat) returns (written: seq<RetainedExample>)
    ensures size(updated) <= MaxFileSize ==> written == updated
    ensures |written| <= |updated| && written == updated[..|written|]
    ensures size(written) <= MaxFileSize || written == []
    ensures forall k :: |written| < k <= |updated| ==> size(updated[..k]) > MaxFileSize
    ensures written == LongestFittingPrefix(updated, size)
  {
    if size(updated) > MaxFileSize {
      var trimmed := updated;
      while size(trimmed) > MaxFileSize && |trimmed| > 0
        invariant |trimmed| <= |updated| && trimmed == updated[..|trimmed|]
        invariant LongestFittingPrefix(trimmed, size) == LongestFittingPrefix(updated, size)
        invariant forall k :: |trimmed| < k <= |updated| ==> size(updated[..k]) > MaxFileSize
        decreases |trimmed|
      {
        trimmed := trimmed[..|trimmed| - 1];
      }
      written := trimmed;
    } else {
      written := updated;
    }
  }

  /** What pseuds.json holds after a classification: untouched when no
      example was returned, otherwise the retained and size-trimmed list
      (an absent or unreadable file counts as empty). */
  function StoredExamples(stored: Option<seq<RetainedExample>>, threadId: string, posts: seq<string>,
                          v: Verdict, size: seq<RetainedExample> -> nat, now: int): (r: Option<seq<RetainedExample>>)
    ensures |v.examples| == 0 ==> r == stored
    ensures |v.examples| > 0 ==> r.Some? && |r.value| <= MaxExamples
    ensures |v.examples| > 0 ==> forall e :: e in r.value ==> e.timestamp == now || e in stored.GetOr([])
  {
    if |v.examples| > 0 then
      Some(LongestFittingPrefix(Retain(stored.GetOr([]), NewExamples(threadId, posts, v.examples, now), now), size))
    else stored
  }

  /** After any classification that returned examples, the store holds at most
      100 entries, newest first, each either new or at most 7 days old. */
  lemma StoredExamplesBounded(stored: Option<seq<RetainedExample>>, threadId: string, posts: seq<string>,
                              v: Verdict, size: seq<RetainedExample> -> nat, now: int)
    requires |v.examples| > 0
    ensures var r := StoredExamples(stored, threadId, posts, v, size, now).value;
      && |r| <= MaxExamples
      && SortedDesc(r, TimestampKey)
      && (size(r) <= MaxFileSize || r == [])
      && forall e :: e in r ==> e.timestamp == now || now - e.timestamp < MaxAgeMs
  {
    var newEx := NewExamples(threadId, posts, v.examples, now);
    var all := Retain(stored.GetOr([]), newEx, now);
    var r := LongestFittingPrefix(all, size);
    forall e | e in r
      ensures e.timestamp == now || now - e.timestamp < MaxAgeMs
    {
      assert e in all;
    }
    assert SortedDesc(r, TimestampKey) by {
      forall i, j | 0 <= i < j < |r|
        ensures AtLeast(TimestampKey(r[i]), TimestampKey(r[j]))
      {
        assert r[i] == all[i] && r[j] == all[j];
      }
    }
  }

  // ================================================================ statistics

  /** `(delusionalCount / posts.length) * 100`, with no guard against an empty
      thread: 0/0 is NaN and a non-zero count over 0 is an infinity. */
  function Percentage(count: int, total: nat): (p: JsNumber)
    ensures total > 0 ==> p.Finite? && p.value * (total as real) == (count as real) * 100.0
    ensures total == 0 ==> (count == 0 <==> p.NaN?) && (count > 0 <==> p.PositiveInfinity?)
    ensures total == 0 ==> (count < 0 <==> p.NegativeInfinity?)
  {
    if total > 0 then Finite((count as real) / (total as real) * 100.0)
    else if count == 0 then NaN
    else if count > 0 then PositiveInfinity
    else NegativeInfinity
  }

  lemma PercentageInRange(count: int, total: nat)
    requires 0 <= count <= total && total > 0
    ensures 0.0 <= Percentage(count, total).value <= 100.0
  {
    var p := Percentage(count, total).value;
    assert p * (total as real) <= (total as real) * 100.0;
  }

  /** The examples returned with the statistics: their post id is their
      index, not the post number recovered for the store. */
  function StatsExamples(threadId: string, examples: seq<string>, now: int): (r: seq<RetainedExample>)
    ensures |r| == |examples|
    ensures forall k :: 0 <= k < |r| ==> r[k].postId == k && r[k].content == examples[k] && r[k].timestamp == now
    ensures forall k :: 0 <= k < |r| ==> threadId != "" ==> r[k].threadId == threadId
    ensures forall k :: 0 <= k < |r| ==> threadId == "" ==> r[k].threadId == "thread-" + IntToString(now) + "-" + IntToString(k)
  {
    seq(|examples|, k requires 0 <= k < |examples| =>
      RetainedExample(
        if threadId != "" then threadId else "thread-" + IntToString(now) + "-" + IntToString(k),
        k, examples[k], now))
  }

  function ThreadStats(threadId: string, posts: seq<string>, v: Verdict, now: int): (st: Stats)
    ensures st.analyzedComments == |posts| && st.delusionalComments == v.count
    ensures st.percentage == Percentage(v.count, |posts|)
    ensures st.examples == StatsExamples(threadId, v.examples, now)
  {
    Stats(|posts|, v.count, Percentage(v.count, |posts|), StatsExamples(threadId, v.examples, now))
  }

  /** The article a fresh generation produces, or None when the
      classification step throws. */
  function Compose(threadId: string, posts: seq<string>, summaryReply: string, classificationReply: string,
                   parse: string -> ParseOutcome, now: int): (a: Option<Article>)
    ensures a.None? <==> Classify(classificationReply, parse).None?
    ensures a.Some? ==>
      && a.value.threadId == threadId && a.value.generatedAt == now
      && a.value.headline == ParseHeadline(summaryReply) && a.value.article == ParseArticle(summaryReply)
      && a.value.delusionalStats.analyzedComments == |posts|
      && a.value.delusionalStats == ThreadStats(threadId, posts, Classify(classificationReply, parse).value, now)
  {
    match Classify(classificationReply, parse)
    case None => None
    case Some(v) =>
      Some(Article(threadId, ParseHeadline(summaryReply), ParseArticle(summaryReply),
                   ThreadStats(threadId, posts, v, now), now))
  }

  /** A record that JSON can hold: its percentage is a finite number or `null`. */
  predicate IsJsonArticle(a: Article) {
    a.delusionalStats.percentage.Finite? || a.delusionalStats.percentage.Null?
  }

  /** A record as `JSON.stringify` writes it and `JSON.parse` reads it back: a
      NaN or infinite percentage becomes `null`, and nothing else changes. */
  function Serialised(a: Article): (r: Article)
    ensures IsJsonArticle(r)
    ensures IsJsonArticle(a) ==> r == a
    ensures !IsJsonArticle(a) ==> r.delusionalStats.percentage.Null?
    ensures r.(delusionalStats := r.delusionalStats.(percentage := a.delusionalStats.percentage)) == a
  {
    if IsJsonArticle(a) then a
    else a.(delusionalStats := a.delusionalStats.(percentage := Null))
  }

  // ================================================================ the generator

  /** The generator with its two stores: the per-thread article files and the
      shared example file. */
  class ArticleGenerator {
    /** articles/<threadId>.json; a file that does not parse is absent here. */
    var articles: map<string, Article>
    /** pseuds.json; None when the file is absent or does not parse. */
    var examples: Option<seq<RetainedExample>>

    /** The article store holds only what a JSON file can hold. */
    predicate Valid()
      reads this
    {
      forall t :: t in articles ==> IsJsonArticle(articles[t])
    }

    constructor(articles: map<string, Article>, examples: Option<seq<RetainedExample>>)
      requires forall t :: t in articles ==> IsJsonArticle(articles[t])
      ensures Valid()
      ensures this.articles == articles && this.examples == examples
    {
      this.articles := articles;
      this.examples := examples;
    }

    method LoadExistingArticle(threadId: string) returns (existing: Option<Article>)
      ensures existing.Some? <==> threadId in articles
      ensures existing.Some? ==> existing.value == articles[threadId]
    {
      existing := if threadId in articles then Some(articles[threadId]) else None;
    }

    /** Writes the record's JSON text: what the file then holds is the
        serialised record. */
    method SaveArticle(article: Article)
      requires Valid()
      modifies this`articles
      ensures Valid()
      ensures articles == old(articles)[article.threadId := Serialised(article)]
    {
      articles := articles[article.threadId := Serialised(article)];
    }

    /** Classifies the posts and, when examples come back, folds them into
        the example store. None is the rejection when the payload parses to
        `null`; the store is then untouched. */
    method AnalyzeDelusionalContent(threadId: string, posts: seq<string>, reply: string,
                                    parse: string -> ParseOutcome,
                                    size: seq<RetainedExample> -> nat, now: int) returns (stats: Option<Stats>)
      modifies this`examples
      ensures Classify(reply, parse).None? ==> stats.None? && examples == old(examples)
      ensures Classify(reply, parse).Some? ==>
        var v := Classify(reply, parse).value;
        && stats == Some(ThreadStats(threadId, posts, v, now))
        && examples == StoredExamples(old(examples), threadId, posts, v, size, now)
    {
      var verdict := Classify(reply, parse);
      if verdict.None? {
        return None;
      }
      var v := verdict.value;
      if |v.examples| > 0 {
        var existingData := examples.GetOr([]);
        var newExamples := NewExamples(threadId, posts, v.examples, now);
        var updatedData := Retain(existingData, newExamples, now);
        var written := TrimToSize(updatedData, size);
        examples := Some(written);
      }
      stats := Some(ThreadStats(threadId, posts, v, now));
    }

    /** `generate`: a stored article is returned as it is unless
        `forceRegenerate` is set; otherwise both replies are parsed, the
        article is saved under its thread id and returned. None is a
        rejected call, which saves nothing. */
    method Generate(threadId: string, posts: seq<string>, forceRegenerate: bool,
                    summaryReply: string, classificationReply: string,
                    parse: string -> ParseOutcome,
                    size: seq<RetainedExample> -> nat, now: int) returns (article: Option<Article>)
      requires Valid()
      modifies this
      ensures Valid()
      ensures !forceRegenerate && threadId in old(articles) ==>
        && article == Some(old(articles)[threadId])
        && articles == old(articles) && examples == old(examples)
      ensures forceRegenerate || threadId !in old(articles) ==>
        && article == Compose(threadId, posts, summaryReply, classificationReply, parse, now)
        && (article.None? ==> articles == old(articles) && examples == old(examples))
        && (article.Some? ==>
              && articles == old(articles)[threadId := Serialised(article.value)]
              && examples == StoredExamples(old(examples), threadId, posts,
                                            Classify(classificationReply, parse).value, size, now))
    {
      if !forceRegenerate {
        var existing := LoadExistingArticle(threadId);
        if existing.Some? {
          return existing;
        }
      }
      var headline := ParseHeadline(summaryReply);
      var body := ParseArticle(summaryReply);
      var stats := AnalyzeDelusionalContent(threadId, posts, classificationReply, parse, size, now);
      if stats.None? {
        return None;
      }
      var a := Article(threadId, headline, body, stats.value, now);
      SaveArticle(a);
      article := Some(a);
    }
  }

  /** Generating twice without forcing returns, the second time, the first
      record as its file holds it, whatever the second replies would have
      been; the two are equal whenever the percentage is finite, which it
      is for a non-empty thread. */
  method GenerateIsIdempotent(g: ArticleGenerator, threadId: string, posts: seq<string>,
                              summary1: string, classification1: string,
                              summary2: string, classification2: string,
                              parse: string -> ParseOutcome,
                              size: seq<RetainedExample> -> nat, now1: int, now2: int)
    returns (first: Option<Article>, second: Option<Article>)
    requires g.Valid()
    modifies g
    ensures first.Some? ==> second == Some(Serialised(first.value))
    ensures first.Some? && first.value.delusionalStats.percentage.Finite? ==> second == first
    ensures first.Some? ==> threadId in g.articles && g.articles[threadId] == Serialised(first.value)
    ensures first.Some? && |posts| > 0 ==> second == first
  {
    first := g.Generate(threadId, posts, false, summary1, classification1, parse, size, now1);
    var articles1, examples1 := g.articles, g.examples;
    second := g.Generate(threadId, posts, false, summary2, classification2, parse, size, now2);
    if first.Some? {
      assert g.articles == articles1 && g.examples == examples1;
    }
  }
}
