/**
 * Shapes of the values the social platform, the language model and the
 * storage return to the bot. Every network call of the bot is modelled by
 * the value it returns (or by the fact that it raised), supplied as input.
 */
module Twitter {

  datatype Option<T> = None | Some(value: T)

  /** Platform identifiers are integers (tweepy hands them out as int). */
  type TweetId = nat

  type Username = string

  /** The `public_metrics` of a tweet that the bot reads. */
  datatype Metrics = Metrics(likeCount: nat, retweetCount: nat, replyCount: nat)

  /** like + retweet + reply, the engagement the bot compares with its target. */
  function TotalEngagements(m: Metrics): nat
  {
    m.likeCount + m.retweetCount + m.replyCount
  }

  /** What a call to the language model does: returns a text or raises. */
  datatype Completion = Completed(content: string) | CompletionRaised

  /** Python's `s[:n]`: the first `n` elements (characters), or all of them. */
  function Prefix<T>(s: seq<T>, n: nat): (r: seq<T>)
    ensures |r| <= n && |r| <= |s|
    ensures |s| <= n ==> r == s
    ensures |s| > n ==> |r| == n
    ensures r <= s
  {
    if |s| <= n then s else s[..n]
  }
}
