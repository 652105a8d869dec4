/** The stage-post card: which post of a route's answer it shows for its
    position, the record it builds from that post, and the footer text.

    A route's answer is given as the `Response` the card fetched; rendering,
    the refresh timer and the HTML comment parser are not modelled. */
module StagePost {
  import opened Common
  import opened Strings
  import SignificantGets
  import Meds
  import SlurResults

  const MedsPostType := "Meds Post"
  const MostRepliedType := "Most Replied"

  datatype Position = Top | Middle | Bottom

  /** The two cards that pick a post out of a list of posts. */
  datatype ListCard = MedsCard | InsightsCard

  /** What a card shows: the error line, the loading line, or a record. */
  datatype CardView<T> = ErrorView | LoadingView | Shown(data: T)

  /** The record a list card builds from the selected post. */
  datatype CardData = CardData(
    postNumber: string,
    comment: string,
    checkCount: int,
    getType: string,
    hasImage: bool,
    filename: Option<string>,
    ext: Option<string>,
    tim: Option<int>,
    sub: Option<string>,
    resto: Option<int>,
    threadId: Option<int>)

  // ================================================================ footer text

  /** `formatCheckCount` */
  function FormatCheckCount(count: int): (r: string)
    ensures count == 0 ==> r == "Not checked yet"
    ensures count == 1 ==> r == "Checked once"
    ensures count == 2 ==> r == "Checked twice"
    ensures count == 3 ==> r == "Checked thrice"
    ensures !(0 <= count <= 3) ==> r == "Checked " + IntToString(count) + " times"
  {
    if count == 0 then "Not checked yet"
    else if count == 1 then "Checked once"
    else if count == 2 then "Checked twice"
    else if count == 3 then "Checked thrice"
    else "Checked " + IntToString(count) + " times"
  }

  /** Different counts are never described alike. */
  lemma FormatCheckCountInjective(a: int, b: int)
    requires FormatCheckCount(a) == FormatCheckCount(b)
    ensures a == b
  {
    var s := FormatCheckCount(a);
    assert (0 <= a <= 3) == (s[|s| - 1] != 's');
    assert (0 <= b <= 3) == (s[|s| - 1] != 's');
    if !(0 <= a <= 3) {
      var x := IntToString(a);
      var y := IntToString(b);
      assert s == "Checked " + x + " times" == "Checked " + y + " times";
      assert x == s[8..|s| - 6] == y;
      IntToStringInjective(a, b);
    }
  }

  /** The reply-count label: singular exactly for one. */
  function ReplyLabel(count: int): (r: string)
    ensures r == "Reply" <==> count == 1
    ensures r == "Replies" <==> count != 1
  {
    if count == 1 then "Reply" else "Replies"
  }

  /** `charAt(0).toUpperCase() + slice(1).toLowerCase()` */
  function Capitalize(s: string): (r: string)
    ensures |r| == |s|
    ensures Lower(r) == Lower(s)
    ensures s != [] ==> r[0] == UpperChar(r[0]) && Lower(r[1..]) == r[1..]
  {
    if s == [] then []
    else
      var r := [UpperChar(s[0])] + Lower(s[1..]);
      assert Lower(r) == Lower(s) by {
        forall k | 0 <= k < |s|
          ensures LowerChar(r[k]) == LowerChar(s[k])
        {
          if k > 0 {
            assert r[k] == LowerChar(s[k]);
          }
        }
      }
      assert r[1..] == Lower(s[1..]);
      r
  }

  /** Capitalizing ignores the case the text came in: the lower-cased and the
      upper-cased text capitalize alike, and capitalizing twice changes
      nothing. */
  lemma CapitalizeIgnoresCase(s: string)
    ensures Capitalize(Lower(s)) == Capitalize(s)
    ensures Capitalize(Upper(s)) == Capitalize(s)
    ensures Capitalize(Capitalize(s)) == Capitalize(s)
  {
    assert Lower(Lower(s)) == Lower(s);
    assert Lower(Upper(s)) == Lower(s) by {
      forall k | 0 <= k < |s|
        ensures Lower(Upper(s))[k] == Lower(s)[k]
      {
        assert Upper(s)[k] == UpperChar(s[k]);
      }
    }
    CapitalizeSameLower(Lower(s), s);
    CapitalizeSameLower(Upper(s), s);
    CapitalizeSameLower(Capitalize(s), s);
  }

  /** Two texts that agree but for letter case capitalize alike. */
  lemma CapitalizeSameLower(a: string, b: string)
    requires Lower(a) == Lower(b)
    ensures Capitalize(a) == Capitalize(b)
  {
    if a != [] {
      assert LowerChar(a[0]) == LowerChar(b[0]) by {
        assert Lower(a)[0] == Lower(b)[0];
      }
      assert Lower(a[1..]) == Lower(a)[1..] == Lower(b)[1..] == Lower(b[1..]);
    }
  }

  // ================================================================ choosing a post

  /** The index a position reads. */
  function PostIndex(p: Position): (i: nat)
    ensures i < 3
    ensures i == 0 <==> p == Top
    ensures i == 1 <==> p == Middle
    ensures i == 2 <==> p == Bottom
  {
    match p
    case Top => 0
    case Middle => 1
    case Bottom => 2
  }

  /** The record built from a selected post: the number as text, the comment
      or "", a check count of 0 on the meds card and the reply count or 0 on
      the insights card, and an image whenever `tim` or `filename` is set. */
  function CardOf(p: FeedPost, card: ListCard): (d: CardData)
    ensures d.postNumber == IntToString(p.no) && d.comment == StringOr(p.com, "")
    ensures d.checkCount == (if card == MedsCard then 0 else IntOr(p.replies, 0))
    ensures d.getType == (if card == MedsCard then MedsPostType else MostRepliedType)
    ensures d.hasImage <==> p.tim.Some? || p.filename.Some?
    ensures d.filename == p.filename && d.ext == p.ext && d.tim == p.tim
    ensures d.sub == p.sub && d.resto == p.resto && d.threadId == p.threadId
  {
    CardData(
      IntToString(p.no),
      StringOr(p.com, ""),
      if card == MedsCard then 0 else IntOr(p.replies, 0),
      if card == MedsCard then MedsPostType else MostRepliedType,
      p.tim.Some? || p.filename.Some?,
      p.filename, p.ext, p.tim, p.sub, p.resto, p.threadId)
  }

  /** A list card. A failed fetch, a body that is not a non-empty array, a
      position past its end and a post whose `no` is 0 are all errors. */
  function ShowListCard(resp: Response<Option<seq<FeedPost>>>, position: Position, card: ListCard): (v: CardView<CardData>)
    ensures v.LoadingView? == false
    ensures v.Shown? <==>
      && resp.Ok? && resp.body.Some?
      && PostIndex(position) < |resp.body.value|
      && resp.body.value[PostIndex(position)].no != 0
    ensures v.Shown? ==> v.data == CardOf(resp.body.value[PostIndex(position)], card)
  {
    match resp
    case Failed(_, _) => ErrorView
    case Ok(body) =>
      if body.None? || |body.value| == 0 then ErrorView
      else
        var i := PostIndex(position);
        if i >= |body.value| || body.value[i].no == 0 then ErrorView
        else Shown(CardOf(body.value[i], card))
  }

  /** The GETs card: the top position shows `getOne`, the other two both
      show `getTwo`; a missing entry leaves the card loading. */
  function ShowGetsCard(resp: Response<SignificantGets.GetsPair>, position: Position): (v: CardView<SignificantGets.GetView>)
    ensures resp.Failed? <==> v.ErrorView?
    ensures resp.Ok? ==>
      var chosen := if position == Top then resp.body.getOne else resp.body.getTwo;
      && (chosen.None? <==> v.LoadingView?)
      && (chosen.Some? ==> v == Shown(chosen.value))
  {
    match resp
    case Failed(_, _) => ErrorView
    case Ok(pair) =>
      var chosen := if position == Top then pair.getOne else pair.getTwo;
      if chosen.Some? then Shown(chosen.value) else LoadingView
  }

  /** The middle and bottom GETs cards always show the same thing. */
  lemma MiddleAndBottomAgree(resp: Response<SignificantGets.GetsPair>)
    ensures ShowGetsCard(resp, Middle) == ShowGetsCard(resp, Bottom)
  {
  }

  /** When the significant-GETs route answers, the top card shows its best
      entry, and the lower two show the runner-up exactly when there are two
      valid entries. */
  lemma GetsCardsFollowRoute(file: FileRead<SignificantGets.Json>, position: Position)
    requires SignificantGets.SignificantGetsRoute(file).Ok?
    ensures var v := ShowGetsCard(SignificantGets.SignificantGetsRoute(file), position);
      && (position == Top ==> v.Shown?)
      && (position != Top ==>
            (v.Shown? <==> |SignificantGets.ValidGets(SignificantGets.ResultsArray(file.value).value)| >= 2))
  {
  }

  /** None of the meds route's placeholder posts is ever shown: whenever the
      route has no real posts to give, every meds card is an error. */
  lemma MedsPlaceholdersRejected(file: FileRead<SlurResults.ResultsDoc>, now: int, seedSucceeds: bool, position: Position)
    requires !(file.Loaded? && Meds.FirstMedsPosts(file.value).Some? && Meds.FirstMedsPosts(file.value).value != [])
    ensures ShowListCard(Ok(Some(Meds.MedsRoute(file, now, seedSucceeds).posts)), position, MedsCard) == ErrorView
  {
  }

  /** A real meds post on the card has no image, no checks, and the meds
      label. */
  lemma MedsCardShowsPost(p: SlurResults.StoredPost, position: Position, posts: seq<SlurResults.StoredPost>)
    requires PostIndex(position) < |posts| && posts[PostIndex(position)] == p && p.postId != 0
    ensures var v := ShowListCard(Ok(Some(Meds.FormatAll(posts))), position, MedsCard);
      && v.Shown?
      && v.data.postNumber == IntToString(p.postId)
      && !v.data.hasImage
      && FormatCheckCount(v.data.checkCount) == "Not checked yet"
      && Capitalize(v.data.getType) == "Meds post"
  {
    var v := ShowListCard(Ok(Some(Meds.FormatAll(posts))), position, MedsCard);
    assert v.data.getType == MedsPostType;
    MedsLabel();
  }

  /** The meds label as the card writes it. */
  lemma MedsLabel()
    ensures Capitalize(MedsPostType) == "Meds post"
  {
    assert Capitalize(MedsPostType) == [UpperChar('M')] + Lower("eds Post");
  }
}
