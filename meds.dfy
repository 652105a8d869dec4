/** The meds route: it answers with the `medsPosts` of the first entry of the
    slur analyzer's results file, and with a single placeholder post whenever
    there is nothing to show. When the file is missing it seeds it with an
    empty entry first.

    The file is given as what checking, reading and parsing it produced;
    whether creating the directory and writing the seed succeed is the
    parameter `seedSucceeds`, and `Date.now()` is `now`. */
module Meds {
  import opened Common
  import opened SlurResults
  import Greeks

  const Anonymous := "Anonymous"
  const NoDataYet := "No meds data available yet"
  const NoData := "No meds data available"
  const NoPosts := "No meds posts available"
  const NoRecent := "No recent meds posts"
  const ReadError := "Error reading meds data"
  const ApiError := "Error in meds API"

  /** The file written when there is none: one entry with an empty
      `medsPosts` array and no `greeksPosts`. */
  const SeedDoc := Doc(Some([Item(None, Some([]))]))

  /** A route's answer and the file it wrote, if any. */
  datatype MedsAnswer = MedsAnswer(posts: seq<FeedPost>, written: Option<ResultsDoc>)

  /** The stand-in post carrying a status message. */
  function Placeholder(message: string, now: int): (p: FeedPost)
    ensures p.no == 0 && p.threadId == Some(0) && p.replies == Some(0)
    ensures p.name == Some(Anonymous) && p.com == Some(message)
    ensures p.time * 1000 <= now < p.time * 1000 + 1000
  {
    RoutePost(0, Seconds(now), Some(Anonymous), Some(message), 0)
  }

  /** One stored meds post in the cards' post shape: an empty or missing name
      becomes "Anonymous", an empty or missing comment "". */
  function FormatMeds(p: StoredPost): (q: FeedPost)
    ensures q.no == p.postId && q.time == Seconds(p.timestamp) && q.threadId == Some(p.threadId)
    ensures q.name == Some(StringOr(p.name, Anonymous)) && q.com == Some(StringOr(p.comment, ""))
    ensures q.replies == Some(0) && q.tim.None? && q.filename.None?
  {
    RoutePost(p.postId, Seconds(p.timestamp), Some(StringOr(p.name, Anonymous)), Some(StringOr(p.comment, "")), p.threadId)
  }

  function FormatAll(ps: seq<StoredPost>): (r: seq<FeedPost>)
    ensures |r| == |ps|
    ensures forall k :: 0 <= k < |ps| ==> r[k] == FormatMeds(ps[k])
  {
    seq(|ps|, k requires 0 <= k < |ps| => FormatMeds(ps[k]))
  }

  /** The `medsPosts` of the first entry of a loaded file, when the file has
      a non-empty `results` array whose first entry is an object carrying
      that array. */
  function FirstMedsPosts(doc: ResultsDoc): Option<seq<StoredPost>> {
    if doc.Doc? && doc.results.Some? && |doc.results.value| > 0 && doc.results.value[0].Item?
    then doc.results.value[0].medsPosts
    else None
  }

  /** `GET /api/meds`. */
  function MedsRoute(file: FileRead<ResultsDoc>, now: int, seedSucceeds: bool): (a: MedsAnswer)
    ensures |a.posts| >= 1
    ensures a.written.Some? <==> file.NotFound? && seedSucceeds
    ensures a.written.Some? ==> a.written.value == SeedDoc
    ensures file.NotFound? ==> a.posts == [Placeholder(if seedSucceeds then NoDataYet else ApiError, now)]
    ensures file.Corrupt? ==> a.posts == [Placeholder(ReadError, now)]
    ensures file.Loaded? ==>
      var doc := file.value;
      && (doc.NullDoc? || doc.results.None? || doc.results.value == [] ==> a.posts == [Placeholder(NoData, now)])
      && (doc.Doc? && doc.results.Some? && doc.results.value != [] && FirstMedsPosts(doc).None? ==>
            a.posts == [Placeholder(NoPosts, now)])
      && (FirstMedsPosts(doc) == Some([]) ==> a.posts == [Placeholder(NoRecent, now)])
      && (FirstMedsPosts(doc).Some? && FirstMedsPosts(doc).value != [] ==> a.posts == FormatAll(FirstMedsPosts(doc).value))
  {
    match file
    case NotFound =>
      if seedSucceeds then MedsAnswer([Placeholder(NoDataYet, now)], Some(SeedDoc))
      else MedsAnswer([Placeholder(ApiError, now)], None)
    case Corrupt => MedsAnswer([Placeholder(ReadError, now)], None)
    case Loaded(doc) =>
      if doc.NullDoc? || doc.results.None? || doc.results.value == [] then MedsAnswer([Placeholder(NoData, now)], None)
      else match FirstMedsPosts(doc)
        case None => MedsAnswer([Placeholder(NoPosts, now)], None)
        case Some(ps) =>
          if ps == [] then MedsAnswer([Placeholder(NoRecent, now)], None)
          else MedsAnswer(FormatAll(ps), None)
  }

  /** After seeding, the next request reads the seed and reports that there
      are no recent posts, without writing again. */
  lemma SeedThenRead(now: int, later: int, seedSucceeds: bool)
    ensures MedsRoute(NotFound, now, true).written == Some(SeedDoc)
    ensures MedsRoute(Loaded(SeedDoc), later, seedSucceeds) == MedsAnswer([Placeholder(NoRecent, later)], None)
  {
  }

  /** The seed carries no greeks matches: the greeks route reading it finds
      none. */
  lemma SeedHasNoGreeks()
    ensures Greeks.GreeksRoute(Loaded(SeedDoc)) == Failed(404, Greeks.NoMentions)
  {
    assert Greeks.FindGreeks([Item(None, Some([]))], 0) == Greeks.NoneFound;
  }

  /** Only the first entry is read: the rest of `results` never changes the
      answer. */
  lemma FirstEntryOnly(first: ResultItem, rest: seq<ResultItem>, other: seq<ResultItem>, now: int, seedSucceeds: bool)
    ensures MedsRoute(Loaded(Doc(Some([first] + rest))), now, seedSucceeds)
         == MedsRoute(Loaded(Doc(Some([first] + other))), now, seedSucceeds)
  {
  }

  /** Every post the route answers with names an author and carries a
      comment: real posts after the defaults, placeholders by construction. */
  lemma AnswerPostsComplete(file: FileRead<ResultsDoc>, now: int, seedSucceeds: bool)
    ensures forall p :: p in MedsRoute(file, now, seedSucceeds).posts ==>
      p.name.Some? && p.name.value != "" && p.com.Some? && p.replies == Some(0)
  {
  }
}
