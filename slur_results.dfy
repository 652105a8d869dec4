/** The keyword analyzers' results file as the greeks and meds routes read
    it, and the post shape both routes answer with. */
module SlurResults {
  import opened Common

  /** A stored match. The routes copy `name` and `comment` through whatever
      they hold, so both may be absent. */
  datatype StoredPost = StoredPost(postId: int, threadId: int, comment: Option<string>, timestamp: int, name: Option<string>)

  /** An entry of `results`: `null`, another falsy value, or an object whose
      `greeksPosts` and `medsPosts` are arrays or not (None). */
  datatype ResultItem =
    | NullItem
    | FalsyItem
    | Item(greeksPosts: Option<seq<StoredPost>>, medsPosts: Option<seq<StoredPost>>)

  /** The parsed file: `null`, or a value whose `results` is an array or
      not (None; this includes the other falsy values). */
  datatype ResultsDoc = NullDoc | Doc(results: Option<seq<ResultItem>>)

  /** `Math.floor(ms / 1000)`: the whole seconds of a millisecond time. */
  function Seconds(ms: int): (s: int)
    ensures s * 1000 <= ms < s * 1000 + 1000
  {
    ms / 1000
  }

  /** A whole number of seconds survives the trip to milliseconds and back. */
  lemma SecondsOfMillis(s: int)
    ensures Seconds(s * 1000) == s
  {
  }
}
