/** The publish script: it builds the public snapshot from two analyzer
    result files, the three most-checked GETs and the three most-replied
    posts, and writes it out.

    Each results file is given as what reading and parsing it produced, with
    its `results` field present as an array or absent. Directory creation and
    the final write are one parameter, `ioSucceeds`; `Date.now()` is `now`. */
module Publish {
  import opened Common
  import opened Strings
  import opened Ranking

  const SectionSize: nat := 3

  datatype GetMetadata = GetMetadata(postNo: int, comment: string, checkCount: int, hasImage: Option<bool>)

  /** An entry of the GET analyzer's results. */
  datatype GetAnalyzerResult = GetAnalyzerResult(metadata: GetMetadata, getType: string, digitCount: int)

  /** An entry of the reply analyzer's results. */
  datatype ReplyPost = ReplyPost(no: int, com: Option<string>, replies: Option<int>)

  datatype SignificantGet = SignificantGet(postNumber: string, comment: string, checkCount: int, getType: string, hasImage: Option<bool>)

  datatype KeyInsight = KeyInsight(postNumber: string, comment: string, replies: int)

  datatype PublicData = PublicData(significantGets: seq<SignificantGet>, keyInsights: seq<KeyInsight>, updatedAt: int)

  /** The parsed results file: `Loaded(None)` when `results` is missing or
      not an array. */
  type ResultsFile<T> = FileRead<Option<seq<T>>>

  // ================================================================ significant GETs

  /** The GET comparator: check count, then digit count, both descending. */
  function GetRank(r: GetAnalyzerResult): Rank {
    Rank(r.metadata.checkCount, r.digitCount)
  }

  function PublishGet(r: GetAnalyzerResult): (g: SignificantGet)
    ensures g.postNumber == IntToString(r.metadata.postNo)
    ensures g.comment == r.metadata.comment && g.checkCount == r.metadata.checkCount
    ensures g.getType == r.getType && g.hasImage == r.metadata.hasImage
  {
    SignificantGet(IntToString(r.metadata.postNo), r.metadata.comment, r.metadata.checkCount, r.getType, r.metadata.hasImage)
  }

  /** `sort(...).slice(0, 3)` on the GET results. */
  function TopGets(results: seq<GetAnalyzerResult>): (top: seq<GetAnalyzerResult>)
    ensures |top| == Min(SectionSize, |results|)
    ensures SortedDesc(top, GetRank) && multiset(top) <= multiset(results)
    ensures forall x, y :: x in top && y in multiset(results) - multiset(top) ==> AtLeast(GetRank(x), GetRank(y))
  {
    TopN(results, GetRank, SectionSize);
    Take(SortDesc(results, GetRank), SectionSize)
  }

  /** `loadSignificantGets`: the three best GETs, most checked first; an
      unreadable file or a missing `results` array gives an empty section. */
  function LoadSignificantGets(file: ResultsFile<GetAnalyzerResult>): (r: seq<SignificantGet>)
    ensures |r| <= SectionSize
    ensures !(file.Loaded? && file.value.Some?) ==> r == []
    ensures file.Loaded? && file.value.Some? ==>
      && |r| == Min(SectionSize, |file.value.value|)
      && (forall k :: 0 <= k < |r| ==> r[k] == PublishGet(TopGets(file.value.value)[k]))
    ensures forall i, j :: 0 <= i < j < |r| ==> r[i].checkCount >= r[j].checkCount
  {
    match file
    case Loaded(Some(results)) =>
      var top := TopGets(results);
      seq(|top|, k requires 0 <= k < |top| => PublishGet(top[k]))
    case _ => []
  }

  /** The published GETs are the best ones: nothing left out ranks above
      anything published, and within the section a tie on check count is
      broken by digit count. */
  lemma {:induction false} TopGetsAreBest(results: seq<GetAnalyzerResult>)
    ensures var top := TopGets(results);
      && multiset(top) <= multiset(results)
      && (forall x, y :: x in top && y in multiset(results) - multiset(top) ==> AtLeast(GetRank(x), GetRank(y)))
      && (forall i, j :: 0 <= i < j < |top| && top[i].metadata.checkCount == top[j].metadata.checkCount ==>
            top[i].digitCount >= top[j].digitCount)
  {
    TopN(results, GetRank, SectionSize);
    var top := TopGets(results);
    forall i, j | 0 <= i < j < |top| && top[i].metadata.checkCount == top[j].metadata.checkCount
      ensures top[i].digitCount >= top[j].digitCount
    {
      assert AtLeast(GetRank(top[i]), GetRank(top[j]));
    }
  }

  // ================================================================ key insights

  /** The reply comparator: reply count descending, a missing count as 0. */
  function ReplyRank(p: ReplyPost): Rank {
    Rank(IntOr(p.replies, 0), 0)
  }

  function PublishInsight(p: ReplyPost): (i: KeyInsight)
    ensures i.postNumber == IntToString(p.no)
    ensures i.comment == StringOr(p.com, "") && i.replies == IntOr(p.replies, 0)
  {
    KeyInsight(IntToString(p.no), StringOr(p.com, ""), IntOr(p.replies, 0))
  }

  /** `sort(...).slice(0, 3)` on the reply results. */
  function TopReplied(results: seq<ReplyPost>): (top: seq<ReplyPost>)
    ensures |top| == Min(SectionSize, |results|)
    ensures SortedDesc(top, ReplyRank) && multiset(top) <= multiset(results)
    ensures forall x, y :: x in top && y in multiset(results) - multiset(top) ==> AtLeast(ReplyRank(x), ReplyRank(y))
  {
    TopN(results, ReplyRank, SectionSize);
    Take(SortDesc(results, ReplyRank), SectionSize)
  }

  /** `loadKeyInsights`: the three most-replied posts, most replies first. */
  function LoadKeyInsights(file: ResultsFile<ReplyPost>): (r: seq<KeyInsight>)
    ensures |r| <= SectionSize
    ensures !(file.Loaded? && file.value.Some?) ==> r == []
    ensures file.Loaded? && file.value.Some? ==>
      && |r| == Min(SectionSize, |file.value.value|)
      && (forall k :: 0 <= k < |r| ==> r[k] == PublishInsight(TopReplied(file.value.value)[k]))
    ensures forall i, j :: 0 <= i < j < |r| ==> r[i].replies >= r[j].replies
  {
    match file
    case Loaded(Some(results)) =>
      var top := TopReplied(results);
      seq(|top|, k requires 0 <= k < |top| => PublishInsight(top[k]))
    case _ => []
  }

  /** No post left out of the insights has more replies than one in them. */
  lemma {:induction false} TopRepliedAreBest(results: seq<ReplyPost>)
    ensures var top := TopReplied(results);
      && multiset(top) <= multiset(results)
      && forall x, y :: x in top && y in multiset(results) - multiset(top) ==> IntOr(x.replies, 0) >= IntOr(y.replies, 0)
  {
    TopN(results, ReplyRank, SectionSize);
  }

  // ================================================================ the snapshot

  /** `publishData`: the snapshot written to the public directory, or None
      when a directory or the write failed (the script then reports false). */
  function PublishData(gets: ResultsFile<GetAnalyzerResult>, replies: ResultsFile<ReplyPost>,
                       now: int, ioSucceeds: bool): (written: Option<PublicData>)
    ensures written.Some? <==> ioSucceeds
    ensures written.Some? ==>
      && written.value.significantGets == LoadSignificantGets(gets)
      && written.value.keyInsights == LoadKeyInsights(replies)
      && written.value.updatedAt == now
  {
    if ioSucceeds then Some(PublicData(LoadSignificantGets(gets), LoadKeyInsights(replies), now)) else None
  }

  /** The two sections load independently: a broken replies file empties the
      insights and leaves the GETs as they would otherwise be. */
  lemma SectionsIndependent(gets: ResultsFile<GetAnalyzerResult>, replies: ResultsFile<ReplyPost>, now: int)
    ensures var broken := PublishData(gets, Corrupt, now, true).value;
      var intact := PublishData(gets, replies, now, true).value;
      && broken.keyInsights == []
      && broken.significantGets == intact.significantGets
  {
  }
}
