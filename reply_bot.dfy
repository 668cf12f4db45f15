/**
 * twitter-reply-bot.py: the single-file bot. Each run fetches the recent
 * mentions, answers at most `tweet_response_limit` of them in order and
 * counts how many replies were posted and how many failed. The Twitter and
 * language-model answers for a mention are carried by the mention itself.
 */
module ReplyBot {
  import opened Twitter
  import opened Config

  /** The conversation tweet `get_tweet(conversation_id).data`. */
  datatype ConversationTweet = ConversationTweet(id: TweetId, text: string)

  /** What `get_tweet` gives for the mention's conversation: a tweet, no
      data, or an exception. */
  datatype TweetLookup = Fetched(tweet: ConversationTweet) | NoData | GetTweetRaised

  /** A mention with the answers the bot's calls receive for it: the
      conversation lookup, the language-model completion, and whether
      `create_tweet` returned without raising. */
  datatype Mention = Mention(id: TweetId, conversationId: Option<TweetId>, lookup: TweetLookup,
                             completion: Completion, postSucceeds: bool)

  /** A `create_tweet` call: the text, the tweet replied to, and whether it succeeded. */
  datatype Reply = Reply(text: string, inReplyTo: TweetId, posted: bool)

  /** What `get_mention_conversation_tweet` returns, or that it raised. */
  datatype Lookup = LookupOk(tweet: Option<ConversationTweet>) | LookupRaised

  const TWEET_RESPONSE_LIMIT: nat := 10
  const ELLIPSIS: string := "..."

  /** The 280-character cap of generate_response: a longer response keeps
      its first 277 characters and ends in an ellipsis. */
  function Truncate(response: string): (r: string)
    ensures |r| <= TWEET_LIMIT
    ensures |response| <= TWEET_LIMIT ==> r == response
    ensures |response| > TWEET_LIMIT ==> |r| == TWEET_LIMIT && r[..277] == response[..277] && r[277..] == ELLIPSIS
  {
    if |response| > 280 then response[..277] + ELLIPSIS else response
  }

  /** Truncating twice changes nothing further. */
  lemma TruncateIdempotent(response: string)
    ensures Truncate(Truncate(response)) == Truncate(response)
  {
    var r := Truncate(response);
    assert |r| <= TWEET_LIMIT;
  }

  /** generate_response: None stands for the language-model call raising,
      which the method does not catch. */
  function GenerateResponse(completion: Completion): (r: Option<string>)
    ensures r.Some? <==> completion.Completed?
    ensures r.Some? ==> |r.value| <= TWEET_LIMIT && (|completion.content| <= TWEET_LIMIT ==> r.value == completion.content)
  {
    match completion
    case Completed(content) => Some(Truncate(content))
    case CompletionRaised => None
  }

  /** get_mention_conversation_tweet: no lookup without a conversation id. */
  function GetMentionConversationTweet(m: Mention): (r: Lookup)
    ensures m.conversationId.None? ==> r == LookupOk(None)
    ensures r.LookupOk? && r.tweet.Some? ==> m.conversationId.Some? && m.lookup == Fetched(r.tweet.value)
    ensures r.LookupRaised? <==> m.conversationId.Some? && m.lookup.GetTweetRaised?
    ensures m.conversationId.Some? && m.lookup.Fetched? ==> r == LookupOk(Some(m.lookup.tweet))
    ensures m.conversationId.Some? && m.lookup.NoData? ==> r == LookupOk(None)
  {
    if m.conversationId.None? then LookupOk(None)
    else match m.lookup
      case Fetched(t) => LookupOk(Some(t))
      case NoData => LookupOk(None)
      case GetTweetRaised => LookupRaised
  }

  /** Processing this mention raises out of respond_to_mentions: the lookup
      raised, there is no conversation tweet to read `.id` from, or the
      language-model call raised for a mention that is answered. */
  predicate Aborts(m: Mention)
  {
    match GetMentionConversationTweet(m)
    case LookupRaised => true
    case LookupOk(t) => t.None? || (t.value.id != m.id && m.completion.CompletionRaised?)
  }

  /** The mention is answered: its conversation tweet is another tweet. */
  predicate Answered(m: Mention)
  {
    !Aborts(m) && GetMentionConversationTweet(m).tweet.value.id != m.id
  }

  /** The reply the bot attempts for an answered mention. */
  function ReplyTo(m: Mention): (r: Reply)
    requires Answered(m)
    ensures r.inReplyTo == m.id && r.posted == m.postSucceeds && |r.text| <= TWEET_LIMIT
  {
    Reply(Truncate(m.completion.content), m.id, m.postSucceeds)
  }

  /** The replies attempted for a run of mentions none of which aborts,
      in mention order. */
  function Answers(ms: seq<Mention>): (r: seq<Reply>)
    ensures |r| <= |ms|
    decreases |ms|
  {
    if ms == [] then []
    else
      var n := |ms| - 1;
      Answers(ms[..n]) + (if Answered(ms[n]) then [ReplyTo(ms[n])] else [])
  }

  /** Every attempted reply answers a mention of the run, and every answered
      mention gets its reply. */
  lemma {:induction false} AnswersMembers(ms: seq<Mention>)
    ensures forall x :: x in Answers(ms) ==> exists m :: m in ms && Answered(m) && x == ReplyTo(m)
    ensures forall m :: m in ms && Answered(m) ==> ReplyTo(m) in Answers(ms)
    decreases |ms|
  {
    if ms != [] {
      var n := |ms| - 1;
      AnswersMembers(ms[..n]);
      assert ms == ms[..n] + [ms[n]];
    }
  }

  /** The counters of a TwitterBot and the `create_tweet` calls it made. */
  datatype BotState = BotState(found: nat, replied: nat, errors: nat, replies: seq<Reply>)

  /** A state after some mentions, and whether an exception is propagating. */
  datatype Progress = Progress(state: BotState, raised: bool)

  /** respond_to_mention on an answered mention: one `create_tweet`, then one counter. */
  function RespondTo(s: BotState, m: Mention): (r: BotState)
    requires Answered(m)
    ensures r.found == s.found && r.replies == s.replies + [ReplyTo(m)]
    ensures m.postSucceeds ==> r.replied == s.replied + 1 && r.errors == s.errors
    ensures !m.postSucceeds ==> r.replied == s.replied && r.errors == s.errors + 1
  {
    var r := ReplyTo(m);
    if r.posted then s.(replied := s.replied + 1, replies := s.replies + [r])
    else s.(errors := s.errors + 1, replies := s.replies + [r])
  }

  /** One iteration of the loop of respond_to_mentions. */
  function ProcessMention(s: BotState, m: Mention): (q: Progress)
    ensures q.raised == Aborts(m) && q.state.found == s.found
    ensures !Answered(m) ==> q.state == s
  {
    if Aborts(m) then Progress(s, true)
    else if Answered(m) then Progress(RespondTo(s, m), false)
    else Progress(s, false)
  }

  /** The loop over `ms`, stopping at the first exception. */
  function ProcessAll(s: BotState, ms: seq<Mention>): (p: Progress)
    ensures p.state.found == s.found
    decreases |ms|
  {
    if ms == [] then Progress(s, false)
    else
      var p := ProcessAll(s, ms[..|ms| - 1]);
      if p.raised then p else ProcessMention(p.state, ms[|ms| - 1])
  }

  /** Number of successful replies. */
  function PostedCount(rs: seq<Reply>): (n: nat)
    ensures n <= |rs|
    decreases |rs|
  {
    if rs == [] then 0 else PostedCount(rs[..|rs| - 1]) + (if rs[|rs| - 1].posted then 1 else 0)
  }

  lemma PostedCountAppend(rs: seq<Reply>, x: Reply)
    ensures PostedCount(rs + [x]) == PostedCount(rs) + (if x.posted then 1 else 0)
  {
    assert (rs + [x])[..|rs|] == rs;
  }

  /** One iteration: an aborting mention raises and changes nothing, an
      answered one appends its reply and moves exactly one counter, and a
      mention that is its own conversation is skipped. */
  lemma ProcessMentionEffect(s: BotState, m: Mention)
    ensures var q := ProcessMention(s, m);
      var answered := !Aborts(m) && Answered(m);
      && q.raised == Aborts(m)
      && q.state.found == s.found
      && q.state.replies == s.replies + (if answered then [ReplyTo(m)] else [])
      && q.state.replied == s.replied + (if answered && m.postSucceeds then 1 else 0)
      && q.state.errors == s.errors + (if answered && !m.postSucceeds then 1 else 0)
  {
  }

  /** The loop only appends replies; `mentions_replied` counts the posted
      ones and `mentions_replied_errors` the failed ones, so each attempt
      moves exactly one counter; `mentions_found` is untouched. */
  lemma {:induction false} ProcessAllCounts(s: BotState, ms: seq<Mention>)
    ensures var p := ProcessAll(s, ms);
      && p.state.found == s.found
      && |s.replies| <= |p.state.replies|
      && p.state.replies[..|s.replies|] == s.replies
      && p.state.replied == s.replied + PostedCount(p.state.replies[|s.replies|..])
      && p.state.errors == s.errors + (|p.state.replies| - |s.replies| - PostedCount(p.state.replies[|s.replies|..]))
    decreases |ms|
  {
    if ms != [] {
      var n := |ms| - 1;
      ProcessAllCounts(s, ms[..n]);
      var p := ProcessAll(s, ms[..n]);
      if !p.raised {
        var m := ms[n];
        ProcessMentionEffect(p.state, m);
        var q := ProcessMention(p.state, m);
        assert ProcessAll(s, ms) == q;
        var olds := p.state.replies[|s.replies|..];
        var extra := if !Aborts(m) && Answered(m) then [ReplyTo(m)] else [];
        assert q.state.replies[|s.replies|..] == olds + extra;
        assert q.state.replies[..|s.replies|] == p.state.replies[..|s.replies|];
        if extra != [] {
          PostedCountAppend(olds, ReplyTo(m));
        } else {
          assert olds + extra == olds;
        }
      }
    }
  }

  /** The position of the first mention that aborts, or the length when
      none does. */
  function FirstAbort(ms: seq<Mention>): (k: nat)
    ensures k <= |ms|
    ensures forall j :: 0 <= j < k ==> !Aborts(ms[j])
    ensures k < |ms| ==> Aborts(ms[k])
    decreases |ms|
  {
    if ms == [] then 0 else if Aborts(ms[0]) then 0 else 1 + FirstAbort(ms[1..])
  }

  /** Appending a mention moves the first abort only when none came before. */
  lemma {:induction false} FirstAbortPush(ms: seq<Mention>, m: Mention)
    ensures FirstAbort(ms + [m]) == if FirstAbort(ms) < |ms| then FirstAbort(ms)
                                   else if Aborts(m) then |ms| else |ms| + 1
    decreases |ms|
  {
    var xs := ms + [m];
    if ms == [] {
      assert xs[1..] == [];
    } else {
      assert xs[0] == ms[0];
      assert xs[1..] == ms[1..] + [m];
      FirstAbortPush(ms[1..], m);
    }
  }

  /** The loop appends exactly the replies of the mentions before the first
      aborting one, in order, and raises exactly when some mention aborts. */
  lemma {:induction false} ProcessAllReplies(s: BotState, ms: seq<Mention>)
    ensures var p := ProcessAll(s, ms);
      && |s.replies| <= |p.state.replies|
      && p.raised == (FirstAbort(ms) < |ms|)
      && p.state.replies[|s.replies|..] == Answers(ms[..FirstAbort(ms)])
    decreases |ms|
  {
    if ms != [] {
      var n := |ms| - 1;
      var init := ms[..n];
      ProcessAllReplies(s, init);
      var p := ProcessAll(s, init);
      assert ms == init + [ms[n]];
      FirstAbortPush(init, ms[n]);
      var olds := p.state.replies[|s.replies|..];
      if p.raised {
        assert ProcessAll(s, ms) == p;
        assert init[..FirstAbort(init)] == ms[..FirstAbort(ms)];
      } else {
        var m := ms[n];
        assert init[..n] == init;
        ProcessMentionEffect(p.state, m);
        var q := ProcessMention(p.state, m);
        assert ProcessAll(s, ms) == q;
        if Aborts(m) {
          assert q.state == p.state;
          assert ms[..n] == init;
        } else {
          var extra := if Answered(m) then [ReplyTo(m)] else [];
          assert ms[..|ms|] == ms;
          assert Answers(ms) == Answers(init) + extra;
          assert q.state.replies[|s.replies|..] == olds + extra;
        }
      }
    }
  }

  /** Processing raises exactly when some mention of the batch aborts. */
  lemma RaisesIffSomeAborts(s: BotState, ms: seq<Mention>)
    ensures ProcessAll(s, ms).raised <==> exists m :: m in ms && Aborts(m)
  {
    ProcessAllReplies(s, ms);
    var k := FirstAbort(ms);
    if k < |ms| {
      assert ms[k] in ms;
    }
  }

  /** respond_to_mentions: no mentions returns None early; otherwise True,
      unless an exception escapes. */
  datatype RunOutcome = ReturnedNone | ReturnedTrue | RunRaised

  /** The state transition of respond_to_mentions given what get_mentions
      returned (`None` for no data). */
  function RespondToMentions(s: BotState, mentions: Option<seq<Mention>>): (p: Progress)
    ensures mentions.None? || mentions.value == [] ==> p == Progress(s, false)
    ensures mentions.Some? && mentions.value != [] ==>
              p.state.found == |mentions.value|
  {
    if mentions.None? || mentions.value == [] then Progress(s, false)
    else ProcessAll(s.(found := |mentions.value|), Prefix(mentions.value, TWEET_RESPONSE_LIMIT))
  }

  /** A fresh bot ends a run with at most min(len(mentions), 10) replies
      counted, `mentions_found` equal to the number of mentions, and no
      counter moved when there were none. */
  lemma FreshBotBound(mentions: Option<seq<Mention>>)
    ensures var p := RespondToMentions(BotState(0, 0, 0, []), mentions);
      && (mentions.None? || mentions.value == [] ==> p == Progress(BotState(0, 0, 0, []), false))
      && (mentions.Some? ==> p.state.found == |mentions.value|)
      && (mentions.Some? ==> p.state.replied + p.state.errors <= |mentions.value|)
      && p.state.replied + p.state.errors <= TWEET_RESPONSE_LIMIT
  {
    if mentions.Some? && mentions.value != [] {
      var ms := Prefix(mentions.value, TWEET_RESPONSE_LIMIT);
      var s := BotState(|mentions.value|, 0, 0, []);
      ProcessAllCounts(s, ms);
      ProcessAllReplies(s, ms);
      var p := ProcessAll(s, ms);
      assert p.state.replies[0..] == p.state.replies;
    }
  }

  /** The TwitterBot class with its run counters; `replies` records the
      `create_tweet` calls. */
  class TwitterBot {
    const tweetResponseLimit: nat
    var mentionsFound: nat
    var mentionsReplied: nat
    var mentionsRepliedErrors: nat
    var replies: seq<Reply>

    function State(): BotState
      reads this
    {
      BotState(mentionsFound, mentionsReplied, mentionsRepliedErrors, replies)
    }

    constructor ()
      ensures tweetResponseLimit == TWEET_RESPONSE_LIMIT
      ensures State() == BotState(0, 0, 0, [])
    {
      tweetResponseLimit := 10;
      mentionsFound, mentionsReplied, mentionsRepliedErrors := 0, 0, 0;
      replies := [];
    }

    /** respond_to_mention: generate the reply, post it in reply to the
        mention, and count the outcome; a raising language-model call
        propagates before anything changes. */
    method RespondToMention(m: Mention, conversation: ConversationTweet) returns (result: Option<bool>)
      modifies this
      ensures m.completion.CompletionRaised? ==> result.None? && State() == old(State())
      ensures m.completion.Completed? ==> result == Some(true)
      ensures m.completion.Completed? ==>
        var r := Reply(Truncate(m.completion.content), m.id, m.postSucceeds);
        State() == (if m.postSucceeds then old(State()).(replied := old(mentionsReplied) + 1, replies := old(replies) + [r])
                    else old(State()).(errors := old(mentionsRepliedErrors) + 1, replies := old(replies) + [r]))
    {
      var responseText := GenerateResponse(m.completion);
      if responseText.None? {
        return None;
      }
      replies := replies + [Reply(responseText.value, m.id, m.postSucceeds)];
      if m.postSucceeds {
        mentionsReplied := mentionsReplied + 1;
      } else {
        mentionsRepliedErrors := mentionsRepliedErrors + 1;
        return Some(true);
      }
      return Some(true);
    }

    /** respond_to_mentions over what get_mentions returned. */
    method RespondToMentionsRun(mentions: Option<seq<Mention>>) returns (outcome: RunOutcome)
      requires tweetResponseLimit == TWEET_RESPONSE_LIMIT
      modifies this
      ensures State() == RespondToMentions(old(State()), mentions).state
      ensures outcome == (if mentions.None? || mentions.value == [] then ReturnedNone
                          else if RespondToMentions(old(State()), mentions).raised then RunRaised
                          else ReturnedTrue)
    {
      if mentions.None? || mentions.value == [] {
        return ReturnedNone;
      }
      var ms := mentions.value;
      mentionsFound := |ms|;
      var batch := Prefix(ms, tweetResponseLimit);
      ghost var start := State();
      var i := 0;
      while i < |batch|
        invariant 0 <= i <= |batch|
        invariant start == old(State()).(found := |ms|)
        invariant ProcessAll(start, batch[..i]) == Progress(State(), false)
      {
        var m := batch[i];
        assert batch[..i + 1] == batch[..i] + [m];
        assert batch[..i + 1][..i] == batch[..i];
        var conversation := GetMentionConversationTweet(m);
        if conversation.LookupRaised? || conversation.tweet.None? {
          assert ProcessAll(start, batch[..i + 1]).raised;
          assert ProcessAll(start, batch) == ProcessAll(start, batch[..i + 1]) by {
            ProcessAllStaysRaised(start, batch, i + 1);
          }
          return RunRaised;
        }
        var tweet := conversation.tweet.value;
        if tweet.id != m.id {
          var replied := RespondToMention(m, tweet);
          if replied.None? {
            assert ProcessAll(start, batch) == ProcessAll(start, batch[..i + 1]) by {
              ProcessAllStaysRaised(start, batch, i + 1);
            }
            return RunRaised;
          }
        }
        i := i + 1;
      }
      assert batch[..i] == batch;
      return ReturnedTrue;
    }
  }

  /** Once an exception propagates, later mentions change nothing. */
  lemma {:induction false} ProcessAllStaysRaised(s: BotState, ms: seq<Mention>, k: nat)
    requires k <= |ms|
    requires ProcessAll(s, ms[..k]).raised
    ensures ProcessAll(s, ms) == ProcessAll(s, ms[..k])
    decreases |ms| - k
  {
    if k < |ms| {
      assert ms[..k + 1][..k] == ms[..k];
      ProcessAllStaysRaised(s, ms, k + 1);
    } else {
      assert ms[..k] == ms;
    }
  }
}
