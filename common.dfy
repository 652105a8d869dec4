/** Shared value types: optional values, the outcome of reading a JSON file,
    route responses, and the post shape the dashboard cards consume. */
module Common {

  datatype Option<+T> = None | Some(value: T) {
    function GetOr(default: T): T {
      match this
      case Some(v) => v
      case None => default
    }
  }

  /** What reading and parsing a JSON file gives: the file is absent, it could
      not be read or parsed, or it parsed to a value. */
  datatype FileRead<+T> = NotFound | Corrupt | Loaded(value: T)

  /** A route's answer: a JSON body with status 200, or an error status with
      the `error` message of its JSON body. */
  datatype Response<+T> = Ok(body: T) | Failed(status: int, error: string)

  /** JavaScript `s || d` on an optional string: an absent or empty string is falsy. */
  function StringOr(s: Option<string>, d: string): (r: string)
    ensures s.Some? && s.value != "" ==> r == s.value
    ensures s.None? || s.value == "" ==> r == d
  {
    if s.Some? && s.value != "" then s.value else d
  }

  /** JavaScript `n || d` on an optional number: an absent number or 0 is falsy. */
  function IntOr(n: Option<int>, d: int): (r: int)
    ensures n.Some? && n.value != 0 ==> r == n.value
    ensures n.None? || n.value == 0 ==> r == d
  {
    if n.Some? && n.value != 0 then n.value else d
  }

  /** A post as the JSON routes hand it to the dashboard cards. Fields the
      routes may leave undefined are optional. */
  datatype FeedPost = FeedPost(
    no: int,
    time: int,
    name: Option<string>,
    com: Option<string>,
    replies: Option<int>,
    threadId: Option<int>,
    tim: Option<int>,
    filename: Option<string>,
    ext: Option<string>,
    sub: Option<string>,
    resto: Option<int>)

  /** A post with only the fields the meds and greeks routes set. */
  function RoutePost(no: int, time: int, name: Option<string>, com: Option<string>, threadId: int): (p: FeedPost)
    ensures p.no == no && p.time == time && p.name == name && p.com == com
    ensures p.replies == Some(0) && p.threadId == Some(threadId)
    ensures p.tim.None? && p.filename.None?
  {
    FeedPost(no, time, name, com, Some(0), Some(threadId), None, None, None, None, None)
  }

  /** Splitting off the head of a non-empty sequence, alone and in front of
      another. */
  lemma ConsAppend<T>(a: seq<T>, b: seq<T>)
    requires a != []
    ensures a == [a[0]] + a[1..]
    ensures a + b == [a[0]] + (a[1..] + b)
  {
  }

  lemma AppendAssoc<T>(x: seq<T>, p: seq<T>, q: seq<T>)
    ensures x + (p + q) == (x + p) + q
  {
  }

  function Min(a: int, b: int): (m: int)
    ensures m <= a && m <= b && (m == a || m == b)
  {
    if a <= b then a else b
  }
}
