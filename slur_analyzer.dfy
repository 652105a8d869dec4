/** The keyword analyzer: it scans the opening post and the replies of every
    thread for the whole word "greeks" in any letter case, counts the posts it
    scanned and the posts that matched, and reports the three newest matches
    in one aggregate result.

    `Date.now()` is the parameter `now`. The JavaScript `Set` the matches are
    collected in only ever receives freshly built objects, so it never merges
    two of them: it is an insertion-ordered sequence here. */
module SlurAnalyzer {
  import opened Common
  import opened Strings
  import opened Ranking

  const TrackedTerm := "greeks"
  const MaxPosts: nat := 3
  const Anonymous := "Anonymous"

  /** A reply as the scraped thread file holds it. */
  datatype Post = Post(no: int, time: int, name: Option<string>, com: Option<string>)

  /** A thread: its opening post's fields and, when present, its replies. */
  datatype Thread = Thread(no: int, time: int, name: Option<string>, com: Option<string>, posts: Option<seq<Post>>)

  datatype GreeksPost = GreeksPost(postId: int, threadId: int, comment: string, timestamp: int, name: string)

  datatype Metadata = Metadata(totalPostsAnalyzed: nat, postsWithGreeks: nat, lastAnalysis: int)

  datatype SlurResult = SlurResult(timestamp: int, threadId: int, postId: int, greeksPosts: seq<GreeksPost>, metadata: Metadata)

  // ================================================================ the word test

  /** `\bgreeks\b` matches at `k` of the lower-cased text `t`. */
  predicate WholeWordAt(t: string, k: int) {
    && OccursAt(t, TrackedTerm, k)
    && (k == 0 || !IsWordChar(t[k - 1]))
    && (k + |TrackedTerm| == |t| || !IsWordChar(t[k + |TrackedTerm|]))
  }

  /** The regular-expression search: a match at `i` or later. */
  function FindWordFrom(t: string, i: nat): (b: bool)
    decreases |t| - i
    ensures b <==> exists k :: i <= k && WholeWordAt(t, k)
  {
    if i + |TrackedTerm| > |t| then false
    else WholeWordAt(t, i) || FindWordFrom(t, i + 1)
  }

  /** `hasGreeks`: the lower-cased text contains "greeks" between word
      boundaries. */
  function HasGreeks(text: string): (b: bool)
    ensures b <==> exists k :: WholeWordAt(Lower(text), k)
  {
    FindWordFrom(Lower(text), 0)
  }

  /** The test ignores letter case: upper-casing the text first changes nothing. */
  lemma HasGreeksIgnoresCase(text: string)
    ensures HasGreeks(Upper(text)) == HasGreeks(text)
  {
    assert Lower(Upper(text)) == Lower(text) by {
      forall k | 0 <= k < |text|
        ensures Lower(Upper(text))[k] == Lower(text)[k]
      {
        assert Upper(text)[k] == UpperChar(text[k]);
      }
    }
  }

  /** A word that only begins with "greeks" does not count. */
  lemma LongerWordDoesNotMatch()
    ensures !HasGreeks("greeksx")
  {
    var t := Lower("greeksx");
    assert t == "greeksx";
    forall k
      ensures !WholeWordAt(t, k)
    {
      if k == 0 {
        assert IsWordChar(t[6]);
      } else if k == 1 {
        assert t[1..7][0] == 'r';
      }
    }
  }

  // ================================================================ one post

  /** A present, non-empty string: what `if (post.com)` lets through. */
  predicate Truthy(s: Option<string>) {
    s.Some? && s.value != ""
  }

  /** `processPost`: the record a matching post adds to the set. */
  function ProcessPost(post: Post, thread: Thread): (g: Option<GreeksPost>)
    ensures g.Some? <==> Truthy(post.com) && HasGreeks(post.com.value)
    ensures g.Some? ==> g.value.postId == post.no && g.value.threadId == thread.no && g.value.comment == post.com.value
    ensures g.Some? ==> g.value.timestamp == post.time * 1000 && g.value.name != ""
  {
    if !Truthy(post.com) then None
    else if HasGreeks(post.com.value) then
      Some(GreeksPost(post.no, thread.no, post.com.value, post.time * 1000, StringOr(post.name, Anonymous)))
    else None
  }

  /** A post is recorded exactly when its comment is present, non-empty and
      holds the word; the record keeps the post's number and comment, the
      thread's number, the time in milliseconds and the name or `Anonymous`. */
  lemma ProcessPostMatches(post: Post, thread: Thread)
    ensures var g := ProcessPost(post, thread);
      && (g.Some? <==> Truthy(post.com) && exists k :: WholeWordAt(Lower(post.com.value), k))
      && (g.Some? ==> g.value == GreeksPost(post.no, thread.no, post.com.value, post.time * 1000, StringOr(post.name, Anonymous)))
  {
  }

  /** The opening post, rebuilt as a reply record. */
  function OpeningPost(thread: Thread): Post {
    Post(thread.no, thread.time, Some(StringOr(thread.name, Anonymous)), thread.com)
  }

  function Emitted(g: Option<GreeksPost>): seq<GreeksPost> {
    if g.Some? then [g.value] else []
  }

  // ================================================================ specification of the scan

  /** The matches among replies, in order. */
  function ReplyMatches(posts: seq<Post>, thread: Thread): seq<GreeksPost> {
    if posts == [] then []
    else ReplyMatches(posts[..|posts| - 1], thread) + Emitted(ProcessPost(posts[|posts| - 1], thread))
  }

  function OpeningMatches(thread: Thread): seq<GreeksPost> {
    if Truthy(thread.com) then Emitted(ProcessPost(OpeningPost(thread), thread)) else []
  }

  /** The matches a thread contributes: none when it has no `posts` array. */
  function ThreadMatches(thread: Thread): seq<GreeksPost> {
    if thread.posts.None? then [] else OpeningMatches(thread) + ReplyMatches(thread.posts.value, thread)
  }

  function AllMatches(threads: seq<Thread>): seq<GreeksPost> {
    if threads == [] then []
    else AllMatches(threads[..|threads| - 1]) + ThreadMatches(threads[|threads| - 1])
  }

  /** The posts a thread counts as scanned: its replies, with or without a
      comment, and the opening post when it has one. */
  function ThreadScanned(thread: Thread): nat {
    if thread.posts.None? then 0 else (if Truthy(thread.com) then 1 else 0) + |thread.posts.value|
  }

  function TotalScanned(threads: seq<Thread>): nat {
    if threads == [] then 0
    else TotalScanned(threads[..|threads| - 1]) + ThreadScanned(threads[|threads| - 1])
  }

  function TimestampKey(g: GreeksPost): Rank {
    Rank(g.timestamp, 0)
  }

  // ================================================================ the analyzer

  /** The body of the loop over threads: the opening post when it has a
      comment, then every reply, each passed to `processPost` and counted. */
  method ScanThread(thread: Thread) returns (matches: seq<GreeksPost>, scanned: nat)
    ensures matches == ThreadMatches(thread)
    ensures scanned == ThreadScanned(thread)
  {
    matches, scanned := [], 0;
    if thread.posts.None? {
      return;
    }
    if Truthy(thread.com) {
      matches := Emitted(ProcessPost(OpeningPost(thread), thread));
      scanned := 1;
    }
    var replyMatches, replies := ScanReplies(thread.posts.value, thread);
    matches := matches + replyMatches;
    scanned := scanned + replies;
  }

  /** The inner loop: every reply passed to `processPost` and counted. */
  method ScanReplies(posts: seq<Post>, thread: Thread) returns (matches: seq<GreeksPost>, scanned: nat)
    ensures matches == ReplyMatches(posts, thread)
    ensures scanned == |posts|
  {
    matches, scanned := [], 0;
    while scanned < |posts|
      invariant scanned <= |posts|
      invariant matches == ReplyMatches(posts[..scanned], thread)
    {
      ReplyMatchesStep(posts, thread, scanned);
      matches := matches + Emitted(ProcessPost(posts[scanned], thread));
      scanned := scanned + 1;
    }
    assert posts[..scanned] == posts;
  }

  /** `analyze`: one aggregate result whose `greeksPosts` are the three
      newest matches and whose counters are the scanned and matched totals. */
  method Analyze(threads: seq<Thread>, now: int) returns (results: seq<SlurResult>)
    ensures |results| == 1
    ensures var r := results[0];
      && r.timestamp == now
      && r.greeksPosts == Take(SortDesc(AllMatches(threads), TimestampKey), MaxPosts)
      && r.metadata == Metadata(TotalScanned(threads), |AllMatches(threads)|, now)
    ensures var r := results[0];
      && |r.greeksPosts| <= MaxPosts
      && |r.greeksPosts| <= r.metadata.postsWithGreeks <= r.metadata.totalPostsAnalyzed
      && SortedDesc(r.greeksPosts, TimestampKey)
      && multiset(r.greeksPosts) <= multiset(AllMatches(threads))
    ensures results[0].threadId == (if |threads| > 0 && threads[0].no != 0 then threads[0].no else -1)
    ensures results[0].postId ==
      (if |threads| > 0 && threads[0].posts.Some? && |threads[0].posts.value| > 0 && threads[0].posts.value[0].no != 0
       then threads[0].posts.value[0].no else -1)
  {
    var found: seq<GreeksPost> := [];
    var totalPosts := 0;
    var i := 0;
    while i < |threads|
      invariant 0 <= i <= |threads|
      invariant found == AllMatches(threads[..i])
      invariant totalPosts == TotalScanned(threads[..i])
    {
      AllMatchesStep(threads, i);
      var matches, scanned := ScanThread(threads[i]);
      found := found + matches;
      totalPosts := totalPosts + scanned;
      i := i + 1;
    }
    assert threads[..i] == threads;
    NewestMatches(threads);
    var greeksPosts := Take(SortDesc(found, TimestampKey), MaxPosts);
    var threadId := if |threads| > 0 then IntOr(Some(threads[0].no), -1) else -1;
    var postId := if |threads| > 0 && threads[0].posts.Some? && |threads[0].posts.value| > 0
                  then IntOr(Some(threads[0].posts.value[0].no), -1) else -1;
    results := [SlurResult(now, threadId, postId, greeksPosts, Metadata(totalPosts, |found|, now))];
  }

  // ================================================================ properties of the scan

  lemma AllMatchesStep(threads: seq<Thread>, i: nat)
    requires i < |threads|
    ensures AllMatches(threads[..i + 1]) == AllMatches(threads[..i]) + ThreadMatches(threads[i])
    ensures TotalScanned(threads[..i + 1]) == TotalScanned(threads[..i]) + ThreadScanned(threads[i])
  {
    assert threads[..i + 1][..i] == threads[..i];
  }

  lemma ReplyMatchesStep(posts: seq<Post>, thread: Thread, j: nat)
    requires j < |posts|
    ensures ReplyMatches(posts[..j + 1], thread) == ReplyMatches(posts[..j], thread) + Emitted(ProcessPost(posts[j], thread))
  {
    assert posts[..j + 1][..j] == posts[..j];
  }

  /** The reported posts: at most three, newest first, drawn from the
      matches, and never more than the matches or the posts scanned. */
  lemma NewestMatches(threads: seq<Thread>)
    ensures var found := AllMatches(threads);
      var g := Take(SortDesc(found, TimestampKey), MaxPosts);
      && |g| <= MaxPosts
      && |g| <= |found| <= TotalScanned(threads)
      && SortedDesc(g, TimestampKey)
      && multiset(g) <= multiset(found)
      && forall x, y :: x in g && y in multiset(found) - multiset(g) ==> x.timestamp >= y.timestamp
  {
    var found := AllMatches(threads);
    MatchesBounded(threads);
    TopN(found, TimestampKey, MaxPosts);
    var g := Take(SortDesc(found, TimestampKey), MaxPosts);
    forall x, y | x in g && y in multiset(found) - multiset(g)
      ensures x.timestamp >= y.timestamp
    {
      assert AtLeast(TimestampKey(x), TimestampKey(y));
    }
  }

  lemma {:induction false} ReplyMatchesBounded(posts: seq<Post>, thread: Thread)
    ensures |ReplyMatches(posts, thread)| <= |posts|
  {
    if posts != [] {
      ReplyMatchesBounded(posts[..|posts| - 1], thread);
    }
  }

  /** A post is matched at most once: there are no more matches than posts scanned. */
  lemma {:induction false} MatchesBounded(threads: seq<Thread>)
    ensures |AllMatches(threads)| <= TotalScanned(threads)
  {
    if threads != [] {
      MatchesBounded(threads[..|threads| - 1]);
      var t := threads[|threads| - 1];
      if t.posts.Some? {
        ReplyMatchesBounded(t.posts.value, t);
      }
    }
  }

  /** What every match satisfies: a non-empty comment containing the word,
      a timestamp in whole seconds, a non-empty name. */
  predicate Sound(g: GreeksPost) {
    g.comment != "" && HasGreeks(g.comment) && g.timestamp % 1000 == 0 && g.name != ""
  }

  lemma ProcessPostSound(post: Post, thread: Thread)
    requires ProcessPost(post, thread).Some?
    ensures Sound(ProcessPost(post, thread).value) && ProcessPost(post, thread).value.threadId == thread.no
  {
    ProcessPostMatches(post, thread);
    assert (post.time * 1000) % 1000 == 0;
  }

  lemma {:induction false} ReplyMatchesSound(posts: seq<Post>, thread: Thread)
    ensures forall g :: g in ReplyMatches(posts, thread) ==> Sound(g) && g.threadId == thread.no
  {
    if posts != [] {
      ReplyMatchesSound(posts[..|posts| - 1], thread);
      var last := ProcessPost(posts[|posts| - 1], thread);
      if last.Some? {
        ProcessPostSound(posts[|posts| - 1], thread);
      }
    }
  }

  lemma ThreadMatchesSound(t: Thread)
    ensures forall g :: g in ThreadMatches(t) ==> Sound(g) && g.threadId == t.no
  {
    if t.posts.Some? {
      ReplyMatchesSound(t.posts.value, t);
      if Truthy(t.com) && ProcessPost(OpeningPost(t), t).Some? {
        ProcessPostSound(OpeningPost(t), t);
      }
    }
  }

  /** Every match comes from a comment that contains the word, in a thread
      that has a `posts` array, and carries that thread's number. */
  lemma {:induction false} AllMatchesSound(threads: seq<Thread>)
    ensures forall g :: g in AllMatches(threads) ==>
      Sound(g) && exists k :: 0 <= k < |threads| && threads[k].posts.Some? && g.threadId == threads[k].no
  {
    if threads != [] {
      var init := threads[..|threads| - 1];
      var t := threads[|threads| - 1];
      AllMatchesSound(init);
      ThreadMatchesSound(t);
      forall g | g in AllMatches(threads)
        ensures Sound(g) && exists k :: 0 <= k < |threads| && threads[k].posts.Some? && g.threadId == threads[k].no
      {
        if g in AllMatches(init) {
          var k :| 0 <= k < |init| && init[k].posts.Some? && g.threadId == init[k].no;
          assert threads[k] == init[k];
        } else {
          assert g in ThreadMatches(t);
          assert t.posts.Some?;
        }
      }
    }
  }

  lemma {:induction false} ReplyMatchesComplete(posts: seq<Post>, thread: Thread, j: nat)
    requires j < |posts| && ProcessPost(posts[j], thread).Some?
    ensures ProcessPost(posts[j], thread).value in ReplyMatches(posts, thread)
  {
    var init := posts[..|posts| - 1];
    if j < |posts| - 1 {
      assert init[j] == posts[j];
      ReplyMatchesComplete(init, thread, j);
    }
  }

  /** Every reply whose comment contains the word, in a thread with a
      `posts` array, is among the matches. */
  lemma {:induction false} AllMatchesComplete(threads: seq<Thread>, i: nat, j: nat)
    requires i < |threads| && threads[i].posts.Some? && j < |threads[i].posts.value|
    requires Truthy(threads[i].posts.value[j].com) && HasGreeks(threads[i].posts.value[j].com.value)
    ensures ProcessPost(threads[i].posts.value[j], threads[i]).value in AllMatches(threads)
  {
    var init := threads[..|threads| - 1];
    if i < |threads| - 1 {
      assert init[i] == threads[i];
      AllMatchesComplete(init, i, j);
    } else {
      ReplyMatchesComplete(threads[i].posts.value, threads[i], j);
    }
  }

  /** Every matching opening post of a thread with a `posts` array is among
      the matches, under the thread's name or `Anonymous`. */
  lemma {:induction false} OpeningMatchComplete(threads: seq<Thread>, i: nat)
    requires i < |threads| && threads[i].posts.Some?
    requires Truthy(threads[i].com) && HasGreeks(threads[i].com.value)
    ensures var g := ProcessPost(OpeningPost(threads[i]), threads[i]);
      && g.Some? && g.value in AllMatches(threads)
      && g.value.postId == threads[i].no && g.value.name == StringOr(threads[i].name, Anonymous)
  {
    var init := threads[..|threads| - 1];
    if i < |threads| - 1 {
      assert init[i] == threads[i];
      OpeningMatchComplete(init, i);
    } else {
      var t := threads[i];
      assert ThreadMatches(t) == OpeningMatches(t) + ReplyMatches(t.posts.value, t);
    }
  }

  /** A thread without a `posts` array adds nothing, not even its opening post. */
  lemma SkippedThread(threads: seq<Thread>, t: Thread)
    requires t.posts.None?
    ensures AllMatches(threads + [t]) == AllMatches(threads)
    ensures TotalScanned(threads + [t]) == TotalScanned(threads)
  {
    assert (threads + [t])[..|threads|] == threads;
  }
}
