/** The greeks route: it answers with the matches of the first entry of the
    slur analyzer's results that carries a `greeksPosts` array, in the post
    shape of the dashboard cards.

    The file is given as what checking, reading and parsing it produced. */
module Greeks {
  import opened Common
  import opened SlurResults
  import SlurAnalyzer

  const NoGreeksData := "No greeks data available"
  const NoMentions := "No valid greek mentions available"
  const ReadFailed := "Failed to read greeks data"

  /** An entry whose `greeksPosts` is an array. */
  predicate Carries(r: ResultItem) {
    r.Item? && r.greeksPosts.Some?
  }

  /** An entry the search passes over: reading `greeksPosts` from it does not
      throw and does not give an array. Only a `null` entry is neither this
      nor a carrier. */
  predicate Passes(r: ResultItem) {
    r.FalsyItem? || (r.Item? && r.greeksPosts.None?)
  }

  /** How `results.find(...)` ends: it reaches a `null` entry first, which
      throws, it runs off the end, or it finds a carrier. The index is where
      it stopped. */
  datatype Search = Throws(index: nat) | NoneFound | Found(index: nat, posts: seq<StoredPost>)

  /** The search from position `i` on. */
  function FindGreeks(items: seq<ResultItem>, i: nat): (o: Search)
    requires i <= |items|
    ensures !o.NoneFound? ==> i <= o.index < |items| && forall k :: i <= k < o.index ==> Passes(items[k])
    ensures o.Found? ==> Carries(items[o.index]) && o.posts == items[o.index].greeksPosts.value
    ensures o.Throws? ==> items[o.index].NullItem?
    ensures o.NoneFound? ==> forall k :: i <= k < |items| ==> Passes(items[k])
    decreases |items| - i
  {
    if i == |items| then NoneFound
    else match items[i]
      case NullItem => Throws(i)
      case FalsyItem => FindGreeks(items, i + 1)
      case Item(greeks, _) =>
        if greeks.Some? then Found(i, greeks.value) else FindGreeks(items, i + 1)
  }

  /** One stored match in the cards' post shape: the time in whole seconds,
      name and comment copied through as they are. */
  function FormatGreek(p: StoredPost): (q: FeedPost)
    ensures q.no == p.postId && q.threadId == Some(p.threadId)
    ensures q.time * 1000 <= p.timestamp < q.time * 1000 + 1000
    ensures q.name == p.name && q.com == p.comment && q.replies == Some(0)
  {
    RoutePost(p.postId, Seconds(p.timestamp), p.name, p.comment, p.threadId)
  }

  function FormatAll(ps: seq<StoredPost>): (r: seq<FeedPost>)
    ensures |r| == |ps|
    ensures forall k :: 0 <= k < |ps| ==> r[k] == FormatGreek(ps[k])
  {
    seq(|ps|, k requires 0 <= k < |ps| => FormatGreek(ps[k]))
  }

  /** The search over the `results` array of a loaded file, if it has one. */
  function SearchOf(doc: ResultsDoc): Option<Search> {
    if doc.Doc? && doc.results.Some? then Some(FindGreeks(doc.results.value, 0)) else None
  }

  /** `GET /api/greeks`. */
  function GreeksRoute(file: FileRead<ResultsDoc>): (resp: Response<seq<FeedPost>>)
    ensures file.NotFound? <==> resp == Failed(404, NoGreeksData)
    ensures resp == Failed(500, ReadFailed) <==>
      file.Corrupt? || file == Loaded(NullDoc) || (file.Loaded? && SearchOf(file.value).Some? && SearchOf(file.value).value.Throws?)
    ensures resp == Failed(404, NoMentions) <==>
      file.Loaded? && file.value.Doc? && (file.value.results.None? || SearchOf(file.value) == Some(NoneFound))
    ensures resp.Ok? <==> file.Loaded? && SearchOf(file.value).Some? && SearchOf(file.value).value.Found?
    ensures resp.Ok? ==> resp.body == FormatAll(SearchOf(file.value).value.posts)
  {
    match file
    case NotFound => Failed(404, NoGreeksData)
    case Corrupt => Failed(500, ReadFailed)
    case Loaded(NullDoc) => Failed(500, ReadFailed)  // `null.results` throws
    case Loaded(Doc(None)) => Failed(404, NoMentions)
    case Loaded(Doc(Some(items))) =>
      match FindGreeks(items, 0)
      case Throws(_) => Failed(500, ReadFailed)
      case NoneFound => Failed(404, NoMentions)
      case Found(_, posts) => Ok(FormatAll(posts))
  }

  /** The answer comes from the first carrier, and only when no `null` entry
      comes before it: the posts of every later carrier are ignored. */
  lemma {:induction false} FirstCarrierWins(items: seq<ResultItem>, j: nat)
    requires j < |items| && Carries(items[j])
    requires forall k :: 0 <= k < j ==> Passes(items[k])
    ensures GreeksRoute(Loaded(Doc(Some(items)))) == Ok(FormatAll(items[j].greeksPosts.value))
  {
    assert !Passes(items[j]);
    var o := FindGreeks(items, 0);
    assert o.NoneFound? || o.index <= j;
    assert !o.NoneFound? ==> o.index >= j;
  }

  /** A `null` entry ahead of every carrier makes the route fail with 500,
      even when a later entry carries matches. */
  lemma {:induction false} NullEntryFails(items: seq<ResultItem>, j: nat)
    requires j < |items| && items[j].NullItem?
    requires forall k :: 0 <= k < j ==> Passes(items[k])
    ensures GreeksRoute(Loaded(Doc(Some(items)))) == Failed(500, ReadFailed)
  {
    assert !Passes(items[j]);
    var o := FindGreeks(items, 0);
    assert o.NoneFound? || o.index <= j;
    assert !o.NoneFound? ==> o.index >= j;
  }

  /** A match as the slur analyzer stores it. */
  function Store(g: SlurAnalyzer.GreeksPost): (p: StoredPost)
    ensures p.postId == g.postId && p.threadId == g.threadId && p.timestamp == g.timestamp
    ensures p.comment == Some(g.comment) && p.name == Some(g.name)
  {
    StoredPost(g.postId, g.threadId, Some(g.comment), g.timestamp, Some(g.name))
  }

  /** A match the slur analyzer records for a post reaches the cards with the
      post's own number, thread and time in seconds, and with a comment that
      mentions the term. */
  lemma AnalyzerMatchRoundTrip(post: SlurAnalyzer.Post, thread: SlurAnalyzer.Thread)
    requires SlurAnalyzer.ProcessPost(post, thread).Some?
    ensures var q := FormatGreek(Store(SlurAnalyzer.ProcessPost(post, thread).value));
      && q.no == post.no && q.time == post.time && q.threadId == Some(thread.no)
      && q.com.Some? && SlurAnalyzer.HasGreeks(q.com.value)
  {
    SlurAnalyzer.ProcessPostMatches(post, thread);
    SlurAnalyzer.ProcessPostSound(post, thread);
    SecondsOfMillis(post.time);
  }
}
